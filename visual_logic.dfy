/**
 * The code generator of the visual blueprint editor.
 *
 * Three block kinds exist: a data source (`jackal_node_data`, a text field
 * `VAL`), a smoothing step (`jackal_node_process`, an `INPUT` socket and a
 * number field `FACT`) and a terminal output (`jackal_node_out`, a `DATA`
 * socket), the last of which stacks into a chain of statements. Each
 * generator is one template with `||` defaults, and statement chaining
 * (`scrub_`) appends the code of the next block in the stack.
 */
module VisualLogic {
  import opened Text

  /** A value block, with its child in the socket when one is attached. */
  datatype Expr =
    | Data(val: string)
    | Smooth(input: Option<Expr>, fact: string)

  /** A stack of output blocks, top to bottom; `End` is `getNextBlock()` returning `null`. */
  datatype Stack = End | Out(data: Option<Expr>, next: Stack)

  /** What an expression generator returns: the code and its precedence. */
  datatype Generated = Generated(code: string, order: nat)

  /** `text || fallback` on a string: the empty string is falsy. */
  function Or(text: string, fallback: string): (code: string) {
    if text == "" then fallback else text
  }

  /**
   * `fact || '3'` on the number field, given as the text JavaScript prints
   * for it: zero and NaN are the falsy numbers.
   */
  function FactOr(fact: string): (code: string) {
    if fact == "0" || fact == "NaN" then "3" else fact
  }

  /** The generators of `jackal_node_data` and `jackal_node_process`. */
  function ExprCode(e: Expr): (g: Generated)
    ensures g.order == 0 && g.code != []
  {
    match e
    case Data(val) => Generated("[" + Or(val, "0") + "]", 0)
    case Smooth(input, fact) =>
      Generated("Array(" + Or(ValueToCode(input), "[]") + ").smooth(" + FactOr(fact) + ").collect()", 0)
  }

  /** `valueToCode`: the attached child's code, or the empty string when the socket is empty. */
  function ValueToCode(input: Option<Expr>): (code: string) {
    match input
    case None => ""
    case Some(e) => ExprCode(e).code
  }

  /** The generator of `jackal_node_out`. */
  function OutCode(data: Option<Expr>): (code: string) {
    "println(" + Or(ValueToCode(data), "[]") + ")\n"
  }

  /** `blockToCode` on a statement block or on `null`. */
  function BlockToCode(s: Stack, thisOnly: bool): (code: string)
    decreases s, 0
  {
    match s
    case End => ""
    case Out(data, next) => Scrub(OutCode(data), next, thisOnly)
  }

  /** `scrub_`: the block's code, then the rest of the stack unless `opt_thisOnly` is set. */
  function Scrub(code: string, next: Stack, thisOnly: bool): (all: string)
    decreases next, 1
  {
    code + (if thisOnly then "" else BlockToCode(next, false))
  }

  /** The output blocks of a stack, top to bottom. */
  function Blocks(s: Stack): (bs: seq<Option<Expr>>) {
    match s
    case End => []
    case Out(data, next) => [data] + Blocks(next)
  }

  /** Stacking one stack under another. */
  function Append(s: Stack, t: Stack): (st: Stack) {
    match s
    case End => t
    case Out(data, next) => Out(data, Append(next, t))
  }

  // ---------------------------------------------------------------- properties

  /** An attached child's code is used as it is: the fallback fills an empty socket only. */
  lemma InputFallback(input: Option<Expr>, fallback: string)
    ensures Or(ValueToCode(input), fallback) == if input.None? then fallback else ExprCode(input.value).code
  {
  }

  /** The data block writes its field in brackets, `0` for an empty field. */
  lemma DataCode(val: string)
    ensures ExprCode(Data(val)).code == if val == "" then "[0]" else "[" + val + "]"
  {
  }

  /**
   * The process block wraps its input's code, unchanged, in
   * `Array(...).smooth(...).collect()`; a missing input is `[]` and a falsy
   * factor is `3`.
   */
  lemma SmoothCode(input: Option<Expr>, fact: string)
    ensures var inner := if input.None? then "[]" else ExprCode(input.value).code;
      var f := if fact == "0" || fact == "NaN" then "3" else fact;
      ExprCode(Smooth(input, fact)).code == "Array(" + inner + ").smooth(" + f + ").collect()"
  {
    InputFallback(input, "[]");
  }

  /** The output block prints its data, `[]` when the socket is empty, on a line of its own. */
  lemma OutCodeLine(data: Option<Expr>)
    ensures var inner := if data.None? then "[]" else ExprCode(data.value).code;
      OutCode(data) == "println(" + inner + ")\n"
  {
    InputFallback(data, "[]");
  }

  /** With `opt_thisOnly` only the block's own code is generated. */
  lemma ThisOnly(data: Option<Expr>, next: Stack)
    ensures BlockToCode(Out(data, next), true) == OutCode(data)
  {
    assert OutCode(data) + "" == OutCode(data);
  }

  /** A stack generates the concatenation of its blocks' code, top to bottom. */
  lemma {:induction false} StackCode(s: Stack)
    ensures BlockToCode(s, false) == Concat(seq(|Blocks(s)|, i requires 0 <= i < |Blocks(s)| => OutCode(Blocks(s)[i])))
  {
    match s
    case End =>
    case Out(data, next) =>
      StackCode(next);
      var rest := seq(|Blocks(next)|, i requires 0 <= i < |Blocks(next)| => OutCode(Blocks(next)[i]));
      var all := seq(|Blocks(s)|, i requires 0 <= i < |Blocks(s)| => OutCode(Blocks(s)[i]));
      assert all == [OutCode(data)] + rest by {
        forall i | 0 <= i < |all| ensures all[i] == ([OutCode(data)] + rest)[i] {
          if i > 0 {
            assert Blocks(s)[i] == Blocks(next)[i - 1];
          }
        }
      }
      ConcatCons(OutCode(data), rest);
  }

  /** Stacking one chain under another appends its code. */
  lemma {:induction false} AppendCode(s: Stack, t: Stack)
    ensures BlockToCode(Append(s, t), false) == BlockToCode(s, false) + BlockToCode(t, false)
  {
    match s
    case End =>
    case Out(data, next) =>
      AppendCode(next, t);
  }
}
