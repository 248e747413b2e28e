/**
 * The notebook server's file rules: every saved or renamed notebook gets the
 * `.jackal` suffix, and the listing shows only files that carry it.
 *
 * The notebook directory is a map from file name to content. Names are flat
 * keys, and the request body's fields are what `request.json.get` finds.
 */
module Notebooks {
  import opened Text

  const Suffix := ".jackal"
  const DefaultName := "untitled.jackal"

  /** A field of the JSON request body: missing, a string, or some other JSON value. */
  datatype Field = Absent | Given(text: string) | NotText

  /** How a request ends: success, the 404 branch, or an exception (an HTTP 500). */
  datatype Status = Ok | NotFound | ServerError

  type Directory = map<string, string>

  datatype Reply = Reply(dir: Directory, status: Status)

  /** `if not name.endswith('.jackal'): name += '.jackal'` */
  function Normalize(name: string): (stored: string) {
    if EndsWith(name, Suffix) then name else name + Suffix
  }

  /** `save_file`: writes the content under the normalised name. */
  function Save(dir: Directory, filename: Field, content: Field): (reply: Reply) {
    match filename
    case NotText => Reply(dir, ServerError)
    case Absent => Write(dir, Normalize(DefaultName), content)
    case Given(name) => Write(dir, Normalize(name), content)
  }

  /**
   * `open(path, 'w')` and `f.write(data.get('content', ''))`: the file is
   * created or emptied before the write, so content that is not a string
   * leaves it empty.
   */
  function Write(dir: Directory, name: string, content: Field): (reply: Reply) {
    match content
    case Absent => Reply(dir[name := ""], Ok)
    case Given(c) => Reply(dir[name := c], Ok)
    case NotText => Reply(dir[name := ""], ServerError)
  }

  /**
   * `load_file`: the content of the file named exactly as requested, or the
   * 404 branch. The file is read in text mode, so its line endings come back
   * as `\n`.
   */
  function Load(dir: Directory, filename: string): (content: Option<string>) {
    if filename in dir then Some(Universal(dir[filename])) else None
  }

  /** Python's universal-newline reading: `\r\n` and a lone `\r` each become `\n`. */
  function Universal(s: string): (u: string)
    decreases |s|
  {
    if |s| == 0 then ""
    else if s[0] == '\r' then
      if |s| > 1 && s[1] == '\n' then "\n" + Universal(s[2..]) else "\n" + Universal(s[1..])
    else [s[0]] + Universal(s[1..])
  }

  /**
   * `delete_file`: removes the file named exactly as requested. The empty
   * name joins to the notebook directory itself, which exists but cannot be
   * removed as a file.
   */
  function Delete(dir: Directory, filename: Field): (reply: Reply) {
    match filename
    case Given(name) =>
      if name == "" then Reply(dir, ServerError)
      else if name in dir then Reply(dir - {name}, Ok)
      else Reply(dir, NotFound)
    case _ => Reply(dir, ServerError)
  }

  /**
   * `rename_file`: moves the file named `old_name` to the normalised
   * `new_name`; an empty `old_name` is the notebook directory, which cannot
   * be moved into itself.
   */
  function Rename(dir: Directory, oldName: Field, newName: Field): (reply: Reply) {
    if !newName.Given? || !oldName.Given? || oldName.text == "" then Reply(dir, ServerError)
    else
      var target := Normalize(newName.text);
      var source := oldName.text;
      if source in dir then Reply((dir - {source})[target := dir[source]], Ok)
      else Reply(dir, NotFound)
  }

  /** `list_files`: the directory's entries that end in `.jackal`, in listing order. */
  function ListFiles(entries: seq<string>): (listed: seq<string>) {
    if |entries| == 0 then []
    else
      var rest := ListFiles(entries[1..]);
      if EndsWith(entries[0], Suffix) then [entries[0]] + rest else rest
  }

  // ---------------------------------------------------------------- the suffix rule

  /** The normalised name ends in `.jackal`; it is the name itself when that already does, and otherwise the name with the suffix appended once. */
  lemma NormalizeSuffix(name: string)
    ensures EndsWith(Normalize(name), Suffix)
    ensures EndsWith(name, Suffix) ==> Normalize(name) == name
    ensures !EndsWith(name, Suffix) ==> Normalize(name) == name + Suffix
  {
    if !EndsWith(name, Suffix) {
      var r := name + Suffix;
      assert r[|r| - |Suffix|..] == Suffix;
    }
  }

  /** Normalising twice is normalising once. */
  lemma NormalizeIdempotent(name: string)
    ensures Normalize(Normalize(name)) == Normalize(name)
  {
    NormalizeSuffix(name);
  }

  /** The name the user typed is always a prefix of the stored name. */
  lemma NormalizeExtends(name: string)
    ensures |name| <= |Normalize(name)| && Normalize(name)[..|name|] == name
  {
    NormalizeSuffix(name);
  }

  // ---------------------------------------------------------------- newline translation

  /** Text without a carriage return reads back unchanged. */
  lemma {:induction false} UniversalPlain(s: string)
    requires '\r' !in s
    ensures Universal(s) == s
    decreases |s|
  {
    if |s| > 0 {
      assert s[0] != '\r';
      UniversalPlain(s[1..]);
      assert [s[0]] + s[1..] == s;
    }
  }

  /** What a text-mode read returns holds no carriage return and is no longer than the stored text. */
  lemma {:induction false} UniversalNoReturn(s: string)
    ensures '\r' !in Universal(s)
    ensures |Universal(s)| <= |s|
    decreases |s|
  {
    if |s| > 0 {
      if s[0] == '\r' && |s| > 1 && s[1] == '\n' {
        UniversalNoReturn(s[2..]);
      } else {
        UniversalNoReturn(s[1..]);
      }
    }
  }

  /** A carriage return before a line feed reads back as one line feed. */
  lemma UniversalCrLf(a: string, b: string)
    requires '\r' !in a && '\r' !in b
    ensures Universal(a + "\r\n" + b) == a + "\n" + b
  {
    var rest := "\r\n" + b;
    assert Universal(rest) == "\n" + b by {
      assert rest[0] == '\r' && rest[1] == '\n' && rest[2..] == b;
      UniversalPlain(b);
    }
    assert a + "\r\n" + b == a + rest;
    UniversalAfter(a, rest);
  }

  /** A lone carriage return reads back as a line feed. */
  lemma UniversalLoneCr(a: string, b: string)
    requires '\r' !in a && '\r' !in b
    requires |b| == 0 || b[0] != '\n'
    ensures Universal(a + "\r" + b) == a + "\n" + b
  {
    var rest := "\r" + b;
    assert Universal(rest) == "\n" + b by {
      assert rest[0] == '\r' && rest[1..] == b;
      UniversalPlain(b);
    }
    assert a + "\r" + b == a + rest;
    UniversalAfter(a, rest);
  }

  /** Text before the first carriage return is kept as it is. */
  lemma {:induction false} UniversalAfter(a: string, rest: string)
    requires '\r' !in a
    ensures Universal(a + rest) == a + Universal(rest)
    decreases |a|
  {
    if |a| > 0 {
      assert (a + rest)[0] == a[0];
      assert (a + rest)[1..] == a[1..] + rest;
      UniversalAfter(a[1..], rest);
      assert [a[0]] + a[1..] == a;
    } else {
      assert a + rest == rest;
    }
  }

  // ---------------------------------------------------------------- the routes

  /**
   * A save with a string (or missing) name writes the content (or the empty
   * string) under the normalised name (or `untitled.jackal`), and leaves
   * every other file as it was.
   */
  lemma SaveThenLoad(dir: Directory, filename: Field, content: Field)
    requires !filename.NotText? && !content.NotText?
    ensures var name := if filename.Absent? then DefaultName else Normalize(filename.text);
      var written := if content.Absent? then "" else content.text;
      var r := Save(dir, filename, content);
      && r.status == Ok
      && Load(r.dir, name) == Some(Universal(written))
      && ('\r' !in written ==> Load(r.dir, name) == Some(written))
      && forall other :: other != name ==> Load(r.dir, other) == Load(dir, other)
  {
    assert EndsWith(DefaultName, Suffix) by {
      assert DefaultName[|DefaultName| - |Suffix|..] == Suffix;
    }
    var written := if content.Absent? then "" else content.text;
    if '\r' !in written {
      UniversalPlain(written);
    }
  }

  /** The saved file is listed by any listing of the new directory. */
  lemma SavedIsListed(dir: Directory, filename: Field, content: Field, entries: seq<string>)
    requires !filename.NotText?
    requires forall f :: f in entries <==> f in Save(dir, filename, content).dir
    ensures Normalize(if filename.Absent? then DefaultName else filename.text) in ListFiles(entries)
  {
    var name := Normalize(if filename.Absent? then DefaultName else filename.text);
    NormalizeSuffix(if filename.Absent? then DefaultName else filename.text);
    assert name in Save(dir, filename, content).dir;
    ListFilesMembers(entries, name);
  }

  /**
   * A rename moves the content of the file named exactly `old_name` (the
   * suffix rule is not applied to it) to the normalised `new_name`.
   */
  lemma RenameMoves(dir: Directory, oldName: string, newName: string)
    requires oldName != ""
    ensures var target := Normalize(newName);
      var r := Rename(dir, Given(oldName), Given(newName));
      && (r.status == Ok <==> oldName in dir)
      && (oldName in dir ==> Load(r.dir, target) == Load(dir, oldName))
      && (oldName in dir && oldName != target ==> Load(r.dir, oldName).None?)
      && forall other :: other != oldName && other != target ==> Load(r.dir, other) == Load(dir, other)
  {
  }

  /** A rename or a delete that does not find the file changes nothing. */
  lemma MissingFileUnchanged(dir: Directory, oldName: string, newName: Field)
    requires oldName !in dir && oldName != ""
    ensures Rename(dir, Given(oldName), newName).dir == dir
    ensures Delete(dir, Given(oldName)) == Reply(dir, NotFound)
  {
  }

  /** A delete removes the file named exactly as requested and nothing else. */
  lemma DeleteRemoves(dir: Directory, filename: string)
    requires filename != ""
    ensures var r := Delete(dir, Given(filename));
      && (r.status == Ok <==> filename in dir)
      && Load(r.dir, filename).None?
      && forall other :: other != filename ==> Load(r.dir, other) == Load(dir, other)
  {
  }

  /**
   * The empty name, or a field that is not text, makes delete and rename
   * fail with a server error and change nothing; a missing or non-text
   * `new_name` fails the same way.
   */
  lemma BadNameFails(dir: Directory, name: Field, other: Field)
    requires name == Given("") || !name.Given?
    ensures Delete(dir, name) == Reply(dir, ServerError)
    ensures Rename(dir, name, other) == Reply(dir, ServerError)
    ensures !name.Given? ==> Rename(dir, other, name) == Reply(dir, ServerError)
  {
  }

  // ---------------------------------------------------------------- the listing

  /** A name is listed exactly when it is an entry of the directory and ends in `.jackal`. */
  lemma {:induction false} ListFilesMembers(entries: seq<string>, f: string)
    ensures f in ListFiles(entries) <==> f in entries && EndsWith(f, Suffix)
  {
    if |entries| > 0 {
      ListFilesMembers(entries[1..], f);
      assert entries == [entries[0]] + entries[1..];
    }
  }

  /** The listing keeps the directory's order: it works piecewise on the entries. */
  lemma {:induction false} ListFilesAppend(a: seq<string>, b: seq<string>)
    ensures ListFiles(a + b) == ListFiles(a) + ListFiles(b)
  {
    if |a| > 0 {
      assert (a + b)[1..] == a[1..] + b;
      ListFilesAppend(a[1..], b);
    } else {
      assert a + b == b;
    }
  }

  /** Listing an already filtered listing changes nothing. */
  lemma {:induction false} ListFilesIdempotent(entries: seq<string>)
    ensures ListFiles(ListFiles(entries)) == ListFiles(entries)
  {
    if |entries| > 0 {
      ListFilesIdempotent(entries[1..]);
      var rest := ListFiles(entries[1..]);
      if EndsWith(entries[0], Suffix) {
        assert ([entries[0]] + rest)[1..] == rest;
      }
    }
  }
}
