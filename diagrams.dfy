/**
 * The variable-flow extractor of the diagram panel (`DiagramManager.generate`).
 *
 * The editor buffer is split on '\n'; every line is trimmed and searched for
 * the unanchored pattern `let\s+([a-zA-Z_]\w*)\s*=\s*(.*)`. A line with a
 * match becomes a node `v_<name>_<index>["let <name>"]`, each node after the
 * first is linked from the node before it, and the whole is written as a
 * Mermaid `graph TD` description. A buffer without any match yields the
 * "No variable flow found" placeholder instead, and nothing is rendered.
 */
module Diagrams {
  import opened Text

  // ---------------------------------------------------------------- the line classifier

  /** End of the maximal run of `\w` characters of `s` starting at `i`. */
  function SkipWord(s: string, i: nat): (r: nat)
    requires i <= |s|
    ensures i <= r <= |s|
    decreases |s| - i
  {
    if i < |s| && IsWord(s[i]) then SkipWord(s, i + 1) else i
  }

  /** `SkipWord` stops at the first character that is not a word character. */
  lemma {:induction false} SkipWordSpec(s: string, i: nat)
    requires i <= |s|
    ensures forall k :: i <= k < SkipWord(s, i) ==> IsWord(s[k])
    ensures SkipWord(s, i) == |s| || !IsWord(s[SkipWord(s, i)])
    decreases |s| - i
  {
    if i < |s| && IsWord(s[i]) {
      SkipWordSpec(s, i + 1);
    }
  }

  /** A run of `n` word characters that ends before a non-word character is what `SkipWord` skips. */
  lemma {:induction false} SkipWordRun(s: string, i: nat, n: nat)
    requires i + n <= |s|
    requires forall k :: i <= k < i + n ==> IsWord(s[k])
    requires i + n == |s| || !IsWord(s[i + n])
    ensures SkipWord(s, i) == i + n
    decreases n
  {
    if n > 0 {
      SkipWordRun(s, i + 1, n - 1);
    }
  }

  /** `[a-zA-Z_]\w*` */
  predicate IsIdentifier(name: string) {
    |name| >= 1 && IsIdentStart(name[0]) && forall k :: 1 <= k < |name| ==> IsWord(name[k])
  }

  /**
   * One way the pattern can match `s` at position `p`: `let`, then `k >= 1`
   * white-space characters, an identifier of length `n`, `m` white-space
   * characters and `=`. The trailing `\s*(.*)` matches the empty string,
   * so it adds no condition.
   */
  ghost predicate MatchesAt(s: string, p: nat, k: nat, n: nat, m: nat) {
    && p + 3 + k + n + m < |s|
    && s[p..p + 3] == "let"
    && k >= 1
    && (forall i :: p + 3 <= i < p + 3 + k ==> IsSpace(s[i]))
    && IsIdentifier(s[p + 3 + k..p + 3 + k + n])
    && (forall i :: p + 3 + k + n <= i < p + 3 + k + n + m ==> IsSpace(s[i]))
    && s[p + 3 + k + n + m] == '='
  }

  /**
   * The first capture group of the pattern when the match starts at `p`,
   * or `None` when the pattern does not match there. Backtracking cannot
   * change the capture: white space is never a word character and `=` is
   * neither, so every way of matching consumes the maximal runs.
   */
  function MatchAt(s: string, p: nat): (r: Option<string>)
    requires p <= |s|
    ensures r.Some? ==> IsIdentifier(r.value)
  {
    if !(p + 3 <= |s| && s[p..p + 3] == "let") then None
    else
      var b := SkipSpaces(s, p + 3);
      if b == p + 3 || b == |s| || !IsIdentStart(s[b]) then None
      else
        var c := SkipWord(s, b + 1);
        var d := SkipSpaces(s, c);
        SkipWordSpec(s, b + 1);
        if d < |s| && s[d] == '=' then Some(s[b..c]) else None
  }

  /** Every capture `MatchAt` reports comes from a way the pattern matches. */
  lemma MatchAtSound(s: string, p: nat) returns (k: nat, n: nat, m: nat)
    requires p <= |s| && MatchAt(s, p).Some?
    ensures MatchesAt(s, p, k, n, m) && MatchAt(s, p).value == s[p + 3 + k..p + 3 + k + n]
  {
    var b := SkipSpaces(s, p + 3);
    var c := SkipWord(s, b + 1);
    var d := SkipSpaces(s, c);
    SkipSpacesSpec(s, p + 3);
    SkipSpacesSpec(s, c);
    k, n, m := b - (p + 3), c - b, d - c;
  }

  /** Every way the pattern matches at `p` is found, with the same capture. */
  lemma MatchAtComplete(s: string, p: nat, k: nat, n: nat, m: nat)
    requires MatchesAt(s, p, k, n, m)
    ensures MatchAt(s, p) == Some(s[p + 3 + k..p + 3 + k + n])
  {
    var b := p + 3 + k;
    var name := s[b..b + n];
    assert s[b] == name[0];
    SkipSpacesRun(s, p + 3, k);
    forall i | b + 1 <= i < b + n ensures IsWord(s[i]) {
      assert s[i] == name[i - b];
    }
    assert !IsWord(s[b + n]) by {
      if m > 0 {
        assert IsSpace(s[b + n]);
      }
    }
    SkipWordRun(s, b + 1, n - 1);
    SkipSpacesRun(s, b + n, m);
    assert s[b + n + m] == '=' && s[p..p + 3] == "let";
  }

  /** The leftmost position at or after `p` where the pattern matches, or `|s| + 1` when there is none. */
  function Leftmost(s: string, p: nat): (q: nat)
    requires p <= |s|
    ensures p <= q <= |s| + 1
    decreases |s| - p
  {
    if MatchAt(s, p).Some? then p
    else if p == |s| then |s| + 1
    else Leftmost(s, p + 1)
  }

  /** `Leftmost` is a match, and no position before it is. */
  lemma {:induction false} LeftmostSpec(s: string, p: nat)
    requires p <= |s|
    ensures Leftmost(s, p) <= |s| ==> MatchAt(s, Leftmost(s, p)).Some?
    ensures forall q :: p <= q < Leftmost(s, p) && q <= |s| ==> MatchAt(s, q).None?
    decreases |s| - p
  {
    if MatchAt(s, p).None? && p < |s| {
      LeftmostSpec(s, p + 1);
    }
  }

  /** `line.match(/let\s+([a-zA-Z_]\w*)\s*=\s*(.*)/)`, reduced to the captured name. */
  function Classify(line: string): (r: Option<string>)
    ensures r.Some? ==> IsIdentifier(r.value)
  {
    var q := Leftmost(line, 0);
    if q <= |line| then MatchAt(line, q) else None
  }

  /**
   * A line yields a name exactly when the pattern matches somewhere in it,
   * not necessarily at its start (so `// let x = 1` counts too).
   */
  lemma ClassifyMatches(line: string)
    ensures Classify(line).Some? <==> exists p, k, n, m :: MatchesAt(line, p, k, n, m)
  {
    var q := Leftmost(line, 0);
    LeftmostSpec(line, 0);
    if q <= |line| {
      var k, n, m := MatchAtSound(line, q);
    }
    if exists p, k, n, m :: MatchesAt(line, p, k, n, m) {
      var p: nat, k: nat, n: nat, m: nat :| MatchesAt(line, p, k, n, m);
      MatchAtComplete(line, p, k, n, m);
    }
  }

  /**
   * The name is the identifier of the leftmost match: the pattern matches at
   * `p` with that capture, and at no earlier position.
   */
  lemma ClassifyLeftmost(line: string, name: string) returns (p: nat, k: nat, n: nat, m: nat)
    requires Classify(line) == Some(name)
    ensures MatchesAt(line, p, k, n, m) && name == line[p + 3 + k..p + 3 + k + n]
    ensures forall q: nat, k': nat, n': nat, m': nat :: q < p ==> !MatchesAt(line, q, k', n', m')
  {
    p := Leftmost(line, 0);
    LeftmostSpec(line, 0);
    k, n, m := MatchAtSound(line, p);
    forall q: nat, k': nat, n': nat, m': nat | q < p ensures !MatchesAt(line, q, k', n', m') {
      if MatchesAt(line, q, k', n', m') {
        MatchAtComplete(line, q, k', n', m');
      }
    }
  }

  /** The three letters `let` occur at position `q`. */
  predicate LetAt(s: string, q: nat) {
    q + 3 <= |s| && s[q..q + 3] == "let"
  }

  /** A match at `p` with no `let` anywhere before it is the one the classifier reports. */
  lemma ClassifyAt(line: string, p: nat, k: nat, n: nat, m: nat, name: string)
    requires MatchesAt(line, p, k, n, m) && name == line[p + 3 + k..p + 3 + k + n]
    requires forall q :: 0 <= q < p ==> !LetAt(line, q)
    ensures Classify(line) == Some(name)
  {
    MatchAtComplete(line, p, k, n, m);
    LeftmostSpec(line, 0);
    forall q | 0 <= q < p ensures MatchAt(line, q).None? {
      assert !LetAt(line, q);
    }
    assert Leftmost(line, 0) == p;
  }

  /** A line that yields a name contains an `=`. */
  lemma ClassifyNeedsEquals(line: string)
    ensures Classify(line).Some? ==> '=' in line
  {
    ClassifyMatches(line);
    if Classify(line).Some? {
      var p: nat, k: nat, n: nat, m: nat :| MatchesAt(line, p, k, n, m);
      assert line[p + 3 + k + n + m] == '=';
    }
  }

  /** Comment lines are not skipped: the match need not start the line. */
  lemma ClassifyComment()
    ensures Classify("// let x = 1") == Some("x")
  {
    var c := "// let x = 1";
    assert c[3..6] == "let" && c[7..8] == "x";
    assert MatchesAt(c, 3, 1, 1, 1);
    assert !LetAt(c, 0) && !LetAt(c, 1) && !LetAt(c, 2) by {
      assert c[0] == '/' && c[1] == '/' && c[2] == ' ';
    }
    ClassifyAt(c, 3, 1, 1, 1, "x");
  }

  /** The pattern is not anchored to a word boundary either. */
  lemma ClassifyInsideWord()
    ensures Classify("outlet y = 2") == Some("y")
  {
    var o := "outlet y = 2";
    assert o[3..6] == "let" && o[7..8] == "y";
    assert MatchesAt(o, 3, 1, 1, 1);
    assert !LetAt(o, 0) && !LetAt(o, 1) && !LetAt(o, 2) by {
      assert o[0] == 'o' && o[1] == 'u' && o[2] == 't';
    }
    ClassifyAt(o, 3, 1, 1, 1, "y");
  }

  /** The pattern matches a line that starts with a declaration, capturing its name. */
  lemma DeclarationMatches(line: string, gap: string, name: string, gap': string, rest: string)
    requires line == "let" + gap + name + gap' + "=" + rest
    requires |gap| >= 1 && AllSpace(gap) && AllSpace(gap') && IsIdentifier(name)
    ensures MatchesAt(line, 0, |gap|, |name|, |gap'|) && line[3 + |gap|..3 + |gap| + |name|] == name
  {
    var k, n, m := |gap|, |name|, |gap'|;
    assert line[..3] == "let";
    assert line[3 + k..3 + k + n] == name;
    assert line[3 + k + n + m] == '=';
    assert forall i :: 3 <= i < 3 + k ==> line[i] == gap[i - 3];
    assert forall i :: 3 + k + n <= i < 3 + k + n + m ==> line[i] == gap'[i - (3 + k + n)];
  }

  /**
   * A line that starts with a declaration `let <name> = ...` yields that name,
   * whatever white space surrounds it and whatever follows the `=`.
   */
  lemma ClassifyDeclaration(line: string, gap: string, name: string, gap': string, rest: string)
    requires line == "let" + gap + name + gap' + "=" + rest
    requires |gap| >= 1 && AllSpace(gap) && AllSpace(gap') && IsIdentifier(name)
    ensures Classify(line) == Some(name)
  {
    DeclarationMatches(line, gap, name, gap', rest);
    ClassifyAt(line, 0, |gap|, |name|, |gap'|, name);
  }

  // ---------------------------------------------------------------- the graph

  /** What the classifier makes of each trimmed line of the buffer. */
  function Classified(lines: seq<string>): (names: seq<Option<string>>)
    ensures |names| == |lines|
  {
    seq(|lines|, i requires 0 <= i < |lines| => Classify(Trim(lines[i])))
  }

  /** A line that produced a node: its zero-based index in the buffer and the bound name. */
  datatype Binding = Binding(line: nat, name: string)

  /** `v_${varName}_${index}` */
  function NodeId(b: Binding): (id: string) {
    "v_" + b.name + "_" + NatToString(b.line)
  }

  /** `${id}["let ${varName}"]`: the node's line in the description. */
  function NodeLine(id: string, name: string): (text: string) {
    id + "[\"let " + name + "\"]"
  }

  /** `${prevId} --> ${id}` */
  function Edge(from: string, to: string): (text: string) {
    from + " --> " + to
  }

  /** The node a line contributes: one for a match, none otherwise. */
  function Found(m: Option<string>, line: nat): (bs: seq<Binding>) {
    match m
    case Some(name) => [Binding(line, name)]
    case None => []
  }

  /** The nodes, in line order, given what each line was classified as. */
  function Bindings(names: seq<Option<string>>): (bs: seq<Binding>) {
    if |names| == 0 then []
    else
      var last := |names| - 1;
      Bindings(names[..last]) + Found(names[last], last)
  }

  function NodeTexts(bs: seq<Binding>): (texts: seq<string>) {
    seq(|bs|, j requires 0 <= j < |bs| => NodeLine(NodeId(bs[j]), bs[j].name))
  }

  /** Edge `j` links node `j` to node `j + 1`. */
  function Edges(bs: seq<Binding>): (es: seq<string>) {
    seq(if |bs| == 0 then 0 else |bs| - 1, j requires 0 <= j < |bs| - 1 => Edge(NodeId(bs[j]), NodeId(bs[j + 1])))
  }

  /** What the builder hands to the renderer, or the empty-result signal. */
  datatype Outcome = NoVariableFlow | Syntax(text: string)

  /** The whole extraction as one function of the buffer. */
  function Extract(code: string): (out: Outcome) {
    var bs := Bindings(Classified(Split(code, '\n')));
    if |bs| == 0 then NoVariableFlow
    else Syntax("graph TD\n" + Join(NodeTexts(bs), "\n") + "\n" + Join(Edges(bs), "\n"))
  }

  // ---------------------------------------------------------------- properties

  /**
   * Every node comes from a line that matched, with that line's index and
   * name, and the nodes are in line order.
   */
  lemma {:induction false} BindingsSound(names: seq<Option<string>>)
    ensures forall j :: 0 <= j < |Bindings(names)| ==>
      Bindings(names)[j].line < |names| && names[Bindings(names)[j].line] == Some(Bindings(names)[j].name)
    ensures forall j, k :: 0 <= j < k < |Bindings(names)| ==> Bindings(names)[j].line < Bindings(names)[k].line
  {
    if |names| > 0 {
      var last := |names| - 1;
      var init := Bindings(names[..last]);
      BindingsSound(names[..last]);
      var bs := Bindings(names);
      assert bs == init + Found(names[last], last);
      forall j | 0 <= j < |bs| ensures bs[j].line < |names| && names[bs[j].line] == Some(bs[j].name) {
        if j < |init| {
          assert bs[j] == init[j];
          assert init[j].line < last && names[..last][init[j].line] == Some(init[j].name);
        }
      }
    }
  }

  /** Every line that matched produced a node, so no line is skipped: node `j` comes from line `i`. */
  lemma {:induction false} BindingsComplete(names: seq<Option<string>>, i: nat) returns (j: nat)
    requires i < |names| && names[i].Some?
    ensures j < |Bindings(names)| && Bindings(names)[j] == Binding(i, names[i].value)
  {
    var last := |names| - 1;
    var init := Bindings(names[..last]);
    assert Bindings(names) == init + Found(names[last], last);
    if i < last {
      assert names[..last][i] == names[i];
      j := BindingsComplete(names[..last], i);
      assert Bindings(names)[j] == init[j];
    } else {
      j := |init|;
    }
  }

  /** No node at all exactly when no line was classified as a binding. */
  lemma BindingsEmpty(names: seq<Option<string>>)
    ensures |Bindings(names)| == 0 <==> forall i :: 0 <= i < |names| ==> names[i].None?
  {
    var bs := Bindings(names);
    if |bs| > 0 {
      BindingsSound(names);
      assert names[bs[0].line].Some?;
    } else {
      forall i | 0 <= i < |names| ensures names[i].None? {
        if names[i].Some? {
          var j := BindingsComplete(names, i);
        }
      }
    }
  }

  lemma ExtractEmptyBindings(code: string)
    ensures Extract(code) == NoVariableFlow <==> |Bindings(Classified(Split(code, '\n')))| == 0
  {
  }

  lemma NoLineMatches(code: string)
    ensures var lines := Split(code, '\n');
      |Bindings(Classified(lines))| == 0 <==> forall i :: 0 <= i < |lines| ==> Classify(Trim(lines[i])).None?
  {
    var lines := Split(code, '\n');
    var names := Classified(lines);
    BindingsEmpty(names);
    assert forall i :: 0 <= i < |lines| ==> names[i] == Classify(Trim(lines[i]));
  }

  /** The placeholder is shown exactly when no line of the buffer matches. */
  lemma ExtractEmpty(code: string)
    ensures var lines := Split(code, '\n');
      Extract(code) == NoVariableFlow <==> forall i :: 0 <= i < |lines| ==> Classify(Trim(lines[i])).None?
  {
    ExtractEmptyBindings(code);
    NoLineMatches(code);
  }

  /** Text after the last `c` of a string is determined by the string. */
  lemma SuffixAfterSeparator(p1: string, d1: string, p2: string, d2: string, c: char)
    requires p1 + [c] + d1 == p2 + [c] + d2
    requires c !in d1 && c !in d2
    ensures p1 == p2 && d1 == d2
  {
    var s := p1 + [c] + d1;
    assert s[|s| - |d1| - 1] == c && s[|s| - |d2| - 1] == c;
    assert forall j :: |s| - |d1| <= j < |s| ==> s[j] == d1[j - (|s| - |d1|)] != c;
    assert forall j :: |s| - |d2| <= j < |s| ==> s[j] == d2[j - (|s| - |d2|)] != c;
    assert d1 == s[|s| - |d1|..] == d2;
    assert p1 == s[..|p1|] == p2;
  }

  /** The id's numeric suffix is the line index, so an id names one line and one name. */
  lemma NodeIdInjective(a: Binding, b: Binding)
    requires NodeId(a) == NodeId(b)
    ensures a == b
  {
    var da, db := NatToString(a.line), NatToString(b.line);
    NatToStringDigits(a.line);
    NatToStringDigits(b.line);
    assert '_' !in da && '_' !in db;
    assert NodeId(a) == ("v_" + a.name) + ['_'] + da;
    assert NodeId(b) == ("v_" + b.name) + ['_'] + db;
    SuffixAfterSeparator("v_" + a.name, da, "v_" + b.name, db, '_');
    NatToStringInjective(a.line, b.line);
    assert a.name == ("v_" + a.name)[2..];
    assert b.name == ("v_" + b.name)[2..];
  }

  /** Node ids within one run are pairwise distinct. */
  lemma IdsDistinct(names: seq<Option<string>>)
    ensures var bs := Bindings(names);
      forall j, k :: 0 <= j < k < |bs| ==> NodeId(bs[j]) != NodeId(bs[k])
  {
    var bs := Bindings(names);
    BindingsSound(names);
    forall j, k | 0 <= j < k < |bs| ensures NodeId(bs[j]) != NodeId(bs[k]) {
      if NodeId(bs[j]) == NodeId(bs[k]) {
        NodeIdInjective(bs[j], bs[k]);
      }
    }
  }

  /** An id made from an identifier holds neither white space nor `[`. */
  lemma NodeIdPlain(b: Binding)
    requires IsIdentifier(b.name)
    ensures forall i :: 0 <= i < |NodeId(b)| ==> !IsSpace(NodeId(b)[i]) && NodeId(b)[i] != '['
  {
    var id := NodeId(b);
    var digits := NatToString(b.line);
    NatToStringDigits(b.line);
    forall i | 0 <= i < |id| ensures !IsSpace(id[i]) && id[i] != '[' {
      if i >= 2 + |b.name| + 1 {
        assert id[i] == digits[i - 2 - |b.name| - 1];
      } else if 2 <= i < 2 + |b.name| {
        assert id[i] == b.name[i - 2];
      }
    }
  }

  /** `text.split('[')[0].trim()` on a node's line gives back the id it was built from. */
  lemma IdRecovered(id: string, name: string)
    requires forall i :: 0 <= i < |id| ==> !IsSpace(id[i]) && id[i] != '['
    ensures Trim(Split(NodeLine(id, name), '[')[0]) == id
  {
    var rest := "\"let " + name + "\"]";
    assert NodeLine(id, name) == id + ['['] + rest;
    SplitAfter(id, '[', rest);
    TrimUnchanged(id);
  }

  /** Neither a node's id nor its line in the description holds a line break. */
  lemma NodeOneLine(b: Binding)
    requires IsIdentifier(b.name)
    ensures '\n' !in NodeId(b) && '\n' !in NodeLine(NodeId(b), b.name)
  {
    NodeIdPlain(b);
    assert '\n' !in b.name by {
      forall i | 0 <= i < |b.name| ensures b.name[i] != '\n' {
        if i > 0 {
          assert IsWord(b.name[i]);
        }
      }
    }
  }

  /** Every node line and every edge line of identifier-named nodes is a single line. */
  lemma GraphOneLine(bs: seq<Binding>)
    requires forall j :: 0 <= j < |bs| ==> IsIdentifier(bs[j].name)
    ensures forall j :: 0 <= j < |NodeTexts(bs)| ==> '\n' !in NodeTexts(bs)[j]
    ensures forall j :: 0 <= j < |Edges(bs)| ==> '\n' !in Edges(bs)[j]
  {
    forall j | 0 <= j < |bs| ensures '\n' !in NodeId(bs[j]) && '\n' !in NodeTexts(bs)[j] {
      NodeOneLine(bs[j]);
    }
    forall j | 0 <= j < |Edges(bs)| ensures '\n' !in Edges(bs)[j] {
      assert Edges(bs)[j] == NodeId(bs[j]) + " --> " + NodeId(bs[j + 1]);
    }
  }

  /** The lines that follow the nodes: the edges, or one empty line when there are none. */
  function EdgeSection(edges: seq<string>): (ls: seq<string>)
    ensures |ls| >= 1 && Join(ls, "\n") == Join(edges, "\n")
  {
    if |edges| == 0 then [""] else edges
  }

  lemma SectionsJoin(header: string, nodes: seq<string>, edges: seq<string>)
    requires |nodes| >= 1
    ensures header + "\n" + Join(nodes, "\n") + "\n" + Join(edges, "\n")
      == Join([header] + (nodes + EdgeSection(edges)), "\n")
  {
    JoinAppend(nodes, EdgeSection(edges), "\n");
    JoinAppend([header], nodes + EdgeSection(edges), "\n");
    assert Join([header], "\n") == header;
  }

  lemma SectionsOneLine(header: string, nodes: seq<string>, edges: seq<string>)
    requires '\n' !in header
    requires forall j :: 0 <= j < |nodes| ==> '\n' !in nodes[j]
    requires forall j :: 0 <= j < |edges| ==> '\n' !in edges[j]
    ensures var ls := [header] + (nodes + EdgeSection(edges));
      forall i :: 0 <= i < |ls| ==> '\n' !in ls[i]
  {
    var tail := EdgeSection(edges);
    var ls := [header] + (nodes + tail);
    forall i | 0 <= i < |ls| ensures '\n' !in ls[i] {
      if 0 < i <= |nodes| {
        assert ls[i] == nodes[i - 1];
      } else if i > |nodes| {
        assert ls[i] == tail[i - 1 - |nodes|];
      }
    }
  }

  /** A header, a non-empty join of lines and another join, each on its own line, split back into those lines. */
  lemma SectionsSplit(header: string, nodes: seq<string>, edges: seq<string>)
    requires |nodes| >= 1
    requires '\n' !in header
    requires forall j :: 0 <= j < |nodes| ==> '\n' !in nodes[j]
    requires forall j :: 0 <= j < |edges| ==> '\n' !in edges[j]
    ensures Split(header + "\n" + Join(nodes, "\n") + "\n" + Join(edges, "\n"), '\n')
      == [header] + nodes + EdgeSection(edges)
  {
    var ls := [header] + (nodes + EdgeSection(edges));
    SectionsJoin(header, nodes, edges);
    SectionsOneLine(header, nodes, edges);
    SplitJoin(ls, '\n');
    assert ls == [header] + nodes + EdgeSection(edges);
  }

  /**
   * The description reads back line by line: the `graph TD` header, one
   * line per node in order, then one line per edge (or a single empty line
   * when there is only one node, since joining no edges gives "").
   */
  lemma ExtractLines(code: string)
    ensures var bs := Bindings(Classified(Split(code, '\n')));
      Extract(code).Syntax? ==>
        Split(Extract(code).text, '\n') == ["graph TD"] + NodeTexts(bs) + (if |bs| == 1 then [""] else Edges(bs))
  {
    var names := Classified(Split(code, '\n'));
    var bs := Bindings(names);
    if |bs| > 0 {
      BindingsSound(names);
      forall j | 0 <= j < |bs| ensures IsIdentifier(bs[j].name) {
        assert names[bs[j].line] == Some(bs[j].name);
      }
      GraphOneLine(bs);
      SectionsSplit("graph TD", NodeTexts(bs), Edges(bs));
      assert "graph TD\n" == "graph TD" + "\n";
      assert Extract(code).text == "graph TD" + "\n" + Join(NodeTexts(bs), "\n") + "\n" + Join(Edges(bs), "\n");
    }
  }

  // ---------------------------------------------------------------- the builder's steps

  lemma BindingsStep(names: seq<Option<string>>, i: nat)
    requires i < |names|
    ensures Bindings(names[..i + 1]) == Bindings(names[..i]) + Found(names[i], i)
  {
    assert names[..i + 1][..i] == names[..i];
  }

  lemma NodesGrow(bs: seq<Binding>, b: Binding)
    ensures NodeTexts(bs + [b]) == NodeTexts(bs) + [NodeLine(NodeId(b), b.name)]
  {
  }

  lemma EdgesSnoc(bs: seq<Binding>, b: Binding)
    requires |bs| > 0
    ensures Edges(bs + [b]) == Edges(bs) + [Edge(NodeId(bs[|bs| - 1]), NodeId(b))]
  {
    var e := Edges(bs + [b]);
    var f := Edges(bs) + [Edge(NodeId(bs[|bs| - 1]), NodeId(b))];
    assert |e| == |f|;
    forall j | 0 <= j < |e| ensures e[j] == f[j] {
      if j < |bs| - 1 {
        assert (bs + [b])[j] == bs[j] && (bs + [b])[j + 1] == bs[j + 1];
      } else {
        assert (bs + [b])[j] == bs[|bs| - 1] && (bs + [b])[j + 1] == b;
      }
    }
  }

  /** The id read back from the last node's line is that node's id. */
  lemma LastIdRecovered(bs: seq<Binding>)
    requires |bs| > 0 && IsIdentifier(bs[|bs| - 1].name)
    ensures Trim(Split(NodeTexts(bs)[|bs| - 1], '[')[0]) == NodeId(bs[|bs| - 1])
  {
    var prev := bs[|bs| - 1];
    var text := NodeTexts(bs)[|bs| - 1];
    assert text == NodeLine(NodeId(prev), prev.name);
    NodeIdPlain(prev);
    IdRecovered(NodeId(prev), prev.name);
  }

  /** The edge to a new node starts at the id read back from the previous node's line. */
  lemma EdgesGrow(bs: seq<Binding>, b: Binding)
    requires |bs| > 0 && IsIdentifier(bs[|bs| - 1].name)
    ensures Edges(bs + [b]) == Edges(bs) + [Edge(Trim(Split(NodeTexts(bs)[|bs| - 1], '[')[0]), NodeId(b))]
  {
    EdgesSnoc(bs, b);
    LastIdRecovered(bs);
  }

  // ---------------------------------------------------------------- the builder

  /**
   * The `forEach` callback of `generate` for one line: a line that matches
   * pushes its node and, unless it is the first node, an edge from the id
   * read back out of the previous node's line. `bs` are the nodes so far.
   */
  method Visit(line: string, index: nat, ghost bs: seq<Binding>, nodes: seq<string>, edges: seq<string>)
    returns (nodes': seq<string>, edges': seq<string>)
    requires nodes == NodeTexts(bs) && edges == Edges(bs)
    requires forall j :: 0 <= j < |bs| ==> IsIdentifier(bs[j].name)
    ensures nodes' == NodeTexts(bs + Found(Classify(Trim(line)), index))
    ensures edges' == Edges(bs + Found(Classify(Trim(line)), index))
  {
    nodes', edges' := nodes, edges;
    var trimmed := Trim(line);
    var varMatch := Classify(trimmed);
    if varMatch.Some? {
      var varName := varMatch.value;
      ghost var b := Binding(index, varName);
      NodesGrow(bs, b);
      var id := "v_" + varName + "_" + NatToString(index);
      assert id == NodeId(b);
      nodes' := nodes' + [NodeLine(id, varName)];
      if |nodes'| > 1 {
        EdgesGrow(bs, b);
        var prevId := Trim(Split(nodes'[|nodes'| - 2], '[')[0]);
        edges' := edges' + [Edge(prevId, id)];
      }
    } else {
      assert bs + [] == bs;
    }
  }

  /**
   * `generate`, up to handing the description to the renderer: the buffer
   * is split into lines and each is visited once, in order.
   */
  method Generate(code: string) returns (r: Outcome)
    ensures r == Extract(code)
  {
    var syntax := "graph TD\n";
    var nodes: seq<string> := [];
    var edges: seq<string> := [];
    var lines := Split(code, '\n');
    ghost var names := Classified(lines);
    ghost var bs: seq<Binding> := [];
    assert names[..0] == [];
    var index := 0;
    while index < |lines|
      invariant 0 <= index <= |lines|
      invariant bs == Bindings(names[..index])
      invariant forall j :: 0 <= j < |bs| ==> IsIdentifier(bs[j].name)
      invariant nodes == NodeTexts(bs)
      invariant edges == Edges(bs)
    {
      nodes, edges := Visit(lines[index], index, bs, nodes, edges);
      BindingsStep(names, index);
      bs := bs + Found(names[index], index);
      index := index + 1;
    }
    assert names[..index] == names;
    if |nodes| == 0 {
      return NoVariableFlow;
    }
    syntax := syntax + Join(nodes, "\n") + "\n" + Join(edges, "\n");
    r := Syntax(syntax);
  }
}
