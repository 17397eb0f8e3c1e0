/**
  The slice of an ESTree syntax tree that the four rules look at, together with
  the values the linting host exchanges with a rule: source text, tokens,
  parent context, text patches and reports.

  A node carries only its source range; its text is recovered from the file's
  source string the way the host's `getText` does it.
 */
module Syntax {
  import opened Wrappers

  /** A half-open range `[start, end)` of character offsets into the source. */
  datatype Range = Range(start: nat, end: nat)

  /** A token as the host's token store returns it: its text and its range. */
  datatype Token = Token(value: string, range: Range)

  /** One chunk of a template literal: the text as written and, when the
      escapes in it are valid, the text after escape processing. */
  datatype TemplateElement = TemplateElement(range: Range, raw: string, cooked: Option<string>)

  /** Expression nodes. Kinds no rule distinguishes are folded into `OtherExpr`;
      `PrivateIdentifier` (a `#name` property) is listed here because it can
      stand where a member access's property stands. */
  datatype Expr =
    | Identifier(range: Range, name: string)
    | PrivateIdentifier(range: Range, name: string)
    | Literal(range: Range)
    | Member(range: Range, obj: Expr, property: Expr, computed: bool)
    | Unary(range: Range, operator: string, prefix: bool, argument: Expr)
    | Binary(range: Range, operator: string, left: Expr, right: Expr)
    | Logical(range: Range, operator: string, left: Expr, right: Expr)
    | Conditional(range: Range, test: Expr, consequent: Expr, alternate: Expr)
    | Assignment(range: Range, operator: string, target: Expr, value: Expr)
    | Sequence(range: Range, expressions: seq<Expr>)
    | Call(range: Range, callee: Expr, arguments: seq<Expr>)
    | TemplateLiteral(range: Range, quasis: seq<TemplateElement>, expressions: seq<Expr>)
    | OtherExpr(range: Range)

  /** Statement nodes; only the shapes the guarded-call rule matches on are distinguished. */
  datatype Stmt =
    | ExpressionStatement(range: Range, expression: Expr)
    | BlockStatement(range: Range, body: seq<Stmt>)
    | IfStatement(range: Range, test: Expr, consequent: Stmt, alternate: Option<Stmt>)
    | OtherStmt(range: Range)

  /** What a handler may ask of a node's parent: its ESTree `type` tag and,
      for unary, binary and logical expressions, its operator ("" otherwise). */
  datatype Parent = Parent(kind: string, operator: string)

  /** A replacement of the source text in `range` by `text`. */
  datatype Patch = Patch(range: Range, text: string)

  /** A diagnostic: which message, with its placeholders filled in, and the
      optional fix. */
  datatype Report<M> = Report(message: M, fix: Option<Patch>)

  /** JavaScript's `s.slice(start, end)` for non-negative offsets: both ends are
      clamped to the length, and a crossed range gives the empty string. */
  function Slice(s: string, start: nat, end: nat): (r: string)
    ensures start <= end <= |s| ==> r == s[start..end]
    ensures end <= start ==> r == []
    ensures |r| <= |s|
  {
    var from := if start <= |s| then start else |s|;
    var to := if end <= |s| then end else |s|;
    if from < to then s[from..to] else []
  }

  /** The host's `getText(node)`: the source characters the node's range covers. */
  function GetText(source: string, e: Expr): string {
    Slice(source, e.range.start, e.range.end)
  }

  /** The number of occurrences of `c` in `s`. */
  function Occurrences(c: char, s: string): nat
  {
    if |s| == 0 then 0
    else (if s[0] == c then 1 else 0) + Occurrences(c, s[1..])
  }

  lemma {:induction false} OccurrencesAppend(c: char, a: string, b: string)
    ensures Occurrences(c, a + b) == Occurrences(c, a) + Occurrences(c, b)
  {
    if |a| == 0 {
      assert a + b == b;
    } else {
      assert (a + b)[1..] == a[1..] + b;
      OccurrencesAppend(c, a[1..], b);
    }
  }

  lemma {:induction false} OccurrencesAbsent(c: char, s: string)
    requires c !in s
    ensures Occurrences(c, s) == 0
  {
    if |s| > 0 {
      assert c !in s[1..] by {
        forall i | 0 <= i < |s[1..]| ensures s[1..][i] != c {
          assert s[1..][i] == s[i + 1];
        }
      }
      OccurrencesAbsent(c, s[1..]);
    }
  }

  /** The source after the host applies `patch` to it. */
  function ApplyPatch(source: string, patch: Patch): (patched: string)
    ensures patch.range.start <= patch.range.end <= |source| ==>
      patched == source[..patch.range.start] + patch.text + source[patch.range.end..]
  {
    Slice(source, 0, patch.range.start) + patch.text + Slice(source, patch.range.end, |source|)
  }

  /** JavaScript's `parts.join(separator)`. */
  function Join(parts: seq<string>, separator: string): string
  {
    if |parts| == 0 then []
    else if |parts| == 1 then parts[0]
    else parts[0] + separator + Join(parts[1..], separator)
  }
}
