/**
  The `prefer-function-optional-chain` rule: `if (fn) { fn(args); }` is
  reported and rewritten to `fn?.(args);`.

  The guard and the callee must name the same identifier or member chain;
  the comparison ignores whether a member access is computed, so `a[b]` and
  `a.b` count as the same name, and it refuses private `#` members.
 */
module PreferFunctionOptionalChain {
  import opened Wrappers
  import opened Syntax

  datatype Message = PreferOptionalChain

  /** The structural name comparison of guard and callee. */
  function IsSameName(test: Expr, callee: Expr): bool
    decreases test
  {
    if test.Identifier? && callee.Identifier? then test.name == callee.name
    else if test.Member? && callee.Member? then
      if test.property.PrivateIdentifier? || callee.property.PrivateIdentifier? then false
      else IsSameName(test.obj, callee.obj) && IsSameName(test.property, callee.property)
    else false
  }

  /** A name with ranges and the computed flag erased: an identifier, or an
      access of one name through another. */
  datatype Name = Id(name: string) | Access(obj: Name, property: Name)

  /** The name an expression spells, if it is built only from identifiers and
      non-private member accesses. */
  function NameOf(e: Expr): Option<Name>
  {
    match e
    case Identifier(_, name) => Some(Id(name))
    case Member(_, obj, property, _) =>
      if property.PrivateIdentifier? then None
      else
        (match (NameOf(obj), NameOf(property))
         case (Some(o), Some(p)) => Some(Access(o, p))
         case _ => None)
    case _ => None
  }

  /** `IsSameName` holds exactly when both sides spell a name and it is the
      same name. */
  lemma {:induction false} IsSameNameSpellsSameName(test: Expr, callee: Expr)
    ensures IsSameName(test, callee) <==> NameOf(test).Some? && NameOf(test) == NameOf(callee)
    decreases test
  {
    if test.Member? && callee.Member? && !test.property.PrivateIdentifier? && !callee.property.PrivateIdentifier? {
      IsSameNameSpellsSameName(test.obj, callee.obj);
      IsSameNameSpellsSameName(test.property, callee.property);
    }
  }

  lemma {:induction false} IsSameNameSymmetric(a: Expr, b: Expr)
    ensures IsSameName(a, b) <==> IsSameName(b, a)
  {
    IsSameNameSpellsSameName(a, b);
    IsSameNameSpellsSameName(b, a);
  }

  lemma {:induction false} IsSameNameTransitive(a: Expr, b: Expr, c: Expr)
    requires IsSameName(a, b) && IsSameName(b, c)
    ensures IsSameName(a, c)
  {
    IsSameNameSpellsSameName(a, b);
    IsSameNameSpellsSameName(b, c);
    IsSameNameSpellsSameName(a, c);
  }

  /** An expression matches itself exactly when it is a chain of identifiers
      and non-private member accesses. */
  lemma {:induction false} IsSameNameReflexive(e: Expr)
    ensures IsSameName(e, e) <==> NameOf(e).Some?
  {
    IsSameNameSpellsSameName(e, e);
  }

  /** The computed flag is not compared: `a[b]` matches `a.b`. */
  lemma ComputedAccessMatchesDotAccess(r1: Range, r2: Range, ra: Range, rb: Range)
    ensures IsSameName(
      Member(r1, Identifier(ra, "a"), Identifier(rb, "b"), true),
      Member(r2, Identifier(ra, "a"), Identifier(rb, "b"), false))
  {
  }

  /** The shape the rule rewrites: an `if` without `else` whose consequent is a
      block holding one expression statement, which is a call whose callee
      spells the same name as the guard, the guard being an identifier or a
      member access. */
  predicate GuardedCall(node: Stmt)
    requires node.IfStatement?
  {
    && node.consequent.BlockStatement?
    && |node.consequent.body| == 1
    && node.alternate.None?
    && node.consequent.body[0].ExpressionStatement?
    && node.consequent.body[0].expression.Call?
    && (node.test.Identifier? || node.test.Member?)
    && NameOf(node.test).Some?
    && NameOf(node.test) == NameOf(node.consequent.body[0].expression.callee)
  }

  /** The source text of a call's arguments: from the start of the first to
      the end of the last, separators and all; empty when there are none. */
  function ArgumentsText(source: string, arguments: seq<Expr>): (text: string)
    ensures |arguments| == 0 ==> text == []
    ensures |arguments| == 1 ==> text == GetText(source, arguments[0])
    ensures |arguments| > 0 ==>
      var start := arguments[0].range.start;
      var end := arguments[|arguments| - 1].range.end;
      start <= end <= |source| ==> text == source[start..end]
  {
    if |arguments| > 0 then Slice(source, arguments[0].range.start, arguments[|arguments| - 1].range.end)
    else []
  }

  /** `callee?.(arguments);`; how it relates to the call it replaces is
      stated by `OptionalCallInsertsChain`. */
  function OptionalCallText(calleeText: string, argumentsText: string): string {
    calleeText + "?.(" + argumentsText + ");"
  }

  /** Written without spaces, `callee(arguments)` becomes `callee?.(arguments);`:
      the rewrite is the call's own text with `?.` inserted after the callee and
      `;` appended. */
  lemma {:induction false} OptionalCallInsertsChain(callText: string, calleeText: string, argumentsText: string)
    requires callText == calleeText + "(" + argumentsText + ")"
    ensures OptionalCallText(calleeText, argumentsText)
         == callText[..|calleeText|] + "?." + callText[|calleeText|..] + ";"
  {
    assert callText[..|calleeText|] == calleeText;
    assert callText[|calleeText|..] == "(" + argumentsText + ")";
  }

  /** The `IfStatement` handler. */
  function OnIfStatement(source: string, node: Stmt): (r: Option<Report<Message>>)
    requires node.IfStatement?
    ensures r.Some? <==> GuardedCall(node)
    ensures !node.consequent.BlockStatement? || |node.consequent.body| != 1 || node.alternate.Some? ==> r.None?
    ensures r.Some? ==>
      var call := node.consequent.body[0].expression;
      r.value == Report(PreferOptionalChain, Some(Patch(node.range,
        OptionalCallText(GetText(source, call.callee), ArgumentsText(source, call.arguments)))))
  {
    IsSameNameSpellsSameName(node.test, if node.consequent.BlockStatement? && |node.consequent.body| == 1
      && node.consequent.body[0].ExpressionStatement? && node.consequent.body[0].expression.Call?
      then node.consequent.body[0].expression.callee else node.test);
    if !node.consequent.BlockStatement? || |node.consequent.body| != 1 then None
    else if node.alternate.Some? then None
    else
      var statement := node.consequent.body[0];
      if !statement.ExpressionStatement? then None
      else
        var expression := statement.expression;
        if !expression.Call? then None
        else if !node.test.Identifier? && !node.test.Member? then None
        else if !IsSameName(node.test, expression.callee) then None
        else
          var calleeText := GetText(source, expression.callee);
          var argumentsText := ArgumentsText(source, expression.arguments);
          Some(Report(PreferOptionalChain, Some(Patch(node.range, OptionalCallText(calleeText, argumentsText)))))
  }

  /** When the guarded call is written `callee(arguments)` with nothing between
      the callee, the parentheses and the arguments, the whole `if` is replaced
      by that call with `?.` after the callee and `;` after it. */
  lemma OnIfStatementRewritesCall(source: string, node: Stmt)
    requires node.IfStatement? && GuardedCall(node)
    requires var call := node.consequent.body[0].expression;
      GetText(source, call) == GetText(source, call.callee) + "(" + ArgumentsText(source, call.arguments) + ")"
    ensures var call := node.consequent.body[0].expression;
      var callText := GetText(source, call);
      var n := |GetText(source, call.callee)|;
      var r := OnIfStatement(source, node);
      && r.Some? && r.value.fix.Some? && r.value.fix.value.range == node.range
      && r.value.fix.value.text == callText[..n] + "?." + callText[n..] + ";"
  {
    var call := node.consequent.body[0].expression;
    OptionalCallInsertsChain(GetText(source, call), GetText(source, call.callee), ArgumentsText(source, call.arguments));
  }
}
