/**
  The `explicit-boolean-check` rule: a logical negation `!x` is reported and,
  when the static type of `x` allows it, rewritten to an explicit comparison
  such as `x === false`, `x === ''` or `x == null`.

  The TypeScript checker is not modelled. It is replaced by an optional oracle
  that hands the rule the type of the negated operand (the declared type of an
  identifier when it has one, the type at the use site otherwise); an absent
  oracle stands for a run without type information.
 */
module ExplicitBooleanCheck {
  import opened Wrappers
  import opened Syntax

  /** The `ts.TypeFlags` bits the classifier tests; `Other` stands for every
      flag it does not test. */
  datatype TypeFlag =
    | Boolean | BooleanLiteral
    | Null | Undefined
    | String | StringLiteral
    | Number | NumberLiteral
    | Other

  /** A type as the classifier sees it: a non-union type is its set of flags,
      a union is the flag sets of its members (TypeScript keeps union members
      flat, so a member is never itself a union). */
  datatype Ty = Single(flags: set<TypeFlag>) | Union(members: seq<set<TypeFlag>>)

  /** The five comparisons the classifier can choose, plus the loose null check
      it uses for unions holding both null and undefined. */
  datatype Comparison =
    | StrictFalse | StrictNull | StrictUndefined | StrictEmptyString | StrictZero
    | LooseNull

  /** The comparison as it appears in the fix and in the message. */
  function ComparisonText(c: Comparison): (text: string)
    ensures '!' !in text
  {
    match c
    case StrictFalse => "=== false"
    case StrictNull => "=== null"
    case StrictUndefined => "=== undefined"
    case StrictEmptyString => "=== ''"
    case StrictZero => "=== 0"
    case LooseNull => "== null"
  }

  /** The comparison for a non-union type, tested in the rule's order:
      boolean, null, undefined, string, number. The first kind the type
      carries decides. */
  function SingleTypeComparison(flags: set<TypeFlag>): (r: Option<Comparison>)
    ensures r != Some(LooseNull)
    ensures r.None? <==> !exists f :: f in flags && f != Other
    ensures r == Some(StrictFalse) <==> Boolean in flags || BooleanLiteral in flags
    ensures Boolean !in flags && BooleanLiteral !in flags && Null in flags ==> r == Some(StrictNull)
    ensures Boolean !in flags && BooleanLiteral !in flags && Null !in flags && Undefined in flags
      ==> r == Some(StrictUndefined)
    ensures Boolean !in flags && BooleanLiteral !in flags && Null !in flags && Undefined !in flags
      && (String in flags || StringLiteral in flags)
      ==> r == Some(StrictEmptyString)
    ensures Boolean !in flags && BooleanLiteral !in flags && Null !in flags && Undefined !in flags
      && String !in flags && StringLiteral !in flags && (Number in flags || NumberLiteral in flags)
      ==> r == Some(StrictZero)
    ensures r == Some(StrictNull) ==> Null in flags
    ensures r == Some(StrictUndefined) ==> Undefined in flags
    ensures r == Some(StrictEmptyString) ==> String in flags || StringLiteral in flags
    ensures r == Some(StrictZero) ==> Number in flags || NumberLiteral in flags
  {
    if Boolean in flags || BooleanLiteral in flags then Some(StrictFalse)
    else if Null in flags then Some(StrictNull)
    else if Undefined in flags then Some(StrictUndefined)
    else if String in flags || StringLiteral in flags then Some(StrictEmptyString)
    else if Number in flags || NumberLiteral in flags then Some(StrictZero)
    else
      UntestedFlagsOnly(flags);
      None
  }

  /** A flag set holding none of the tested flags holds only `Other`: a fact
      about the flag enumeration, used by the classifier's last branch. */
  lemma UntestedFlagsOnly(flags: set<TypeFlag>)
    requires Boolean !in flags && BooleanLiteral !in flags && Null !in flags && Undefined !in flags
    requires String !in flags && StringLiteral !in flags && Number !in flags && NumberLiteral !in flags
    ensures forall f :: f in flags ==> f == Other
  {
    forall f | f in flags ensures f == Other {
      match f
      case Other =>
      case _ => assert false;
    }
  }

  /** The comparison expected of a type carrying a single flag. */
  function ExpectedFor(f: TypeFlag): Option<Comparison> {
    match f
    case Boolean | BooleanLiteral => Some(StrictFalse)
    case Null => Some(StrictNull)
    case Undefined => Some(StrictUndefined)
    case String | StringLiteral => Some(StrictEmptyString)
    case Number | NumberLiteral => Some(StrictZero)
    case Other => None
  }

  /** A union member that is neither null nor undefined. */
  predicate NonNullish(m: set<TypeFlag>) {
    Null !in m && Undefined !in m
  }

  /** Member `m` is non-nullish and contributes comparison `c` to the set the
      union rule falls back on. */
  predicate Contributes(m: set<TypeFlag>, c: Comparison) {
    NonNullish(m) && SingleTypeComparison(m) == Some(c)
  }

  /** The loop state of the union scan: the three flags and the insertion-ordered
      JavaScript `Set` of comparisons. */
  datatype UnionScan = UnionScan(
    hasNull: bool,
    hasUndefined: bool,
    hasOtherTypes: bool,
    comparisons: seq<Comparison>)

  /** One iteration of the scan over a union member. A member is null if it has
      the null flag, otherwise undefined if it has the undefined flag,
      otherwise "other", and only then is its comparison collected. */
  function ScanMember(s: UnionScan, m: set<TypeFlag>): UnionScan {
    if Null in m then s.(hasNull := true)
    else if Undefined in m then s.(hasUndefined := true)
    else
      var c := SingleTypeComparison(m);
      s.(hasOtherTypes := true,
         comparisons := if c.Some? && c.value !in s.comparisons then s.comparisons + [c.value] else s.comparisons)
  }

  predicate Distinct<T(==)>(xs: seq<T>) {
    forall i, j :: 0 <= i < j < |xs| ==> xs[i] != xs[j]
  }

  /** The scan of the members in order; its contract says what each field
      records about the whole union. */
  function ScanUnion(members: seq<set<TypeFlag>>): (s: UnionScan)
    ensures s.hasNull <==> exists i :: 0 <= i < |members| && Null in members[i]
    ensures s.hasUndefined <==> exists i :: 0 <= i < |members| && Null !in members[i] && Undefined in members[i]
    ensures s.hasOtherTypes <==> exists i :: 0 <= i < |members| && NonNullish(members[i])
    ensures forall c :: c in s.comparisons <==> exists i :: 0 <= i < |members| && Contributes(members[i], c)
    ensures Distinct(s.comparisons)
    decreases |members|
  {
    if |members| == 0 then UnionScan(false, false, false, [])
    else
      var prefix := members[..|members| - 1];
      var last := members[|members| - 1];
      assert forall i :: 0 <= i < |prefix| ==> prefix[i] == members[i];
      ScanMember(ScanUnion(prefix), last)
  }

  /** The comparisons the non-nullish members of a union map to, as a set. */
  function NonNullishComparisons(members: seq<set<TypeFlag>>): set<Comparison> {
    set i | 0 <= i < |members| && NonNullish(members[i]) && SingleTypeComparison(members[i]).Some?
      :: SingleTypeComparison(members[i]).value
  }

  predicate HasNullMember(members: seq<set<TypeFlag>>) {
    exists i :: 0 <= i < |members| && Null in members[i]
  }

  predicate HasUndefinedMember(members: seq<set<TypeFlag>>) {
    exists i :: 0 <= i < |members| && Null !in members[i] && Undefined in members[i]
  }

  predicate HasOtherMember(members: seq<set<TypeFlag>>) {
    exists i :: 0 <= i < |members| && NonNullish(members[i])
  }

  /** The classifier: which explicit comparison replaces `!x` for `x` of type `t`,
      if any. A union containing null or undefined alongside other members is
      decided by the nullish members alone; otherwise a union is decided only
      when its non-nullish members share a single comparison (members without
      a comparison are ignored). */
  function GetExplicitComparison(t: Ty): (r: Option<Comparison>)
    ensures t.Single? ==> r == SingleTypeComparison(t.flags)
    ensures t.Union? && HasNullMember(t.members) && HasOtherMember(t.members) && !HasUndefinedMember(t.members)
      ==> r == Some(StrictNull)
    ensures t.Union? && HasUndefinedMember(t.members) && HasOtherMember(t.members) && !HasNullMember(t.members)
      ==> r == Some(StrictUndefined)
    ensures t.Union? && HasNullMember(t.members) && HasUndefinedMember(t.members) && HasOtherMember(t.members)
      ==> r == Some(LooseNull)
    ensures t.Union? && !HasNullMember(t.members) && !HasUndefinedMember(t.members)
      ==> (r.Some? <==> |NonNullishComparisons(t.members)| == 1)
          && (r.Some? ==> NonNullishComparisons(t.members) == {r.value})
    ensures t.Union? && !HasOtherMember(t.members) ==> r.None?
  {
    match t
    case Single(flags) => SingleTypeComparison(flags)
    case Union(members) =>
      var s := ScanUnion(members);
      if s.hasNull && s.hasOtherTypes && !s.hasUndefined then Some(StrictNull)
      else if s.hasUndefined && s.hasOtherTypes && !s.hasNull then Some(StrictUndefined)
      else if s.hasNull && s.hasUndefined && s.hasOtherTypes then Some(LooseNull)
      else
        ComparisonsAsSet(members);
        if |s.comparisons| == 1 then Some(s.comparisons[0]) else None
  }

  /** The scan's duplicate-free sequence holds exactly the non-nullish
      comparisons, so its length is the size of that set. */
  lemma ComparisonsAsSet(members: seq<set<TypeFlag>>)
    ensures var s := ScanUnion(members);
      (set c | c in s.comparisons) == NonNullishComparisons(members)
      && |s.comparisons| == |NonNullishComparisons(members)|
  {
    var s := ScanUnion(members);
    var elems := set c | c in s.comparisons;
    forall c ensures c in elems <==> c in NonNullishComparisons(members) {
      if c in NonNullishComparisons(members) {
        var i :| 0 <= i < |members| && NonNullish(members[i]) && SingleTypeComparison(members[i]).Some?
          && SingleTypeComparison(members[i]).value == c;
        assert Contributes(members[i], c);
      }
    }
    DistinctCardinality(s.comparisons);
  }

  lemma {:induction false} DistinctCardinality<T>(xs: seq<T>)
    requires Distinct(xs)
    ensures |set x | x in xs| == |xs|
  {
    if |xs| > 0 {
      var rest := xs[..|xs| - 1];
      assert Distinct(rest);
      DistinctCardinality(rest);
      assert (set x | x in xs) == (set x | x in rest) + {xs[|xs| - 1]};
      assert xs[|xs| - 1] !in rest;
    }
  }

  /** Every type carrying a single flag gets the comparison the flag's table
      entry names. */
  lemma SingleTypeMap(f: TypeFlag)
    ensures GetExplicitComparison(Single({f})) == ExpectedFor(f)
  {
  }

  /** A union with a non-nullish member that maps to no comparison is still
      decided by the others: `string | Other` gives `=== ''`. */
  lemma {:induction false} UnmappedMembersIgnored()
    ensures GetExplicitComparison(Union([{String}, {Other}])) == Some(StrictEmptyString)
  {
    var ms := [{String}, {Other}];
    assert NonNullish(ms[0]) && SingleTypeComparison(ms[0]) == Some(StrictEmptyString);
    assert NonNullishComparisons(ms) == {StrictEmptyString};
  }

  /** The messages the rule reports with. */
  datatype Message = PreferExplicitCheck(comparison: string) | PreferExplicitCheckNoFix

  predicate IsNegation(e: Expr) {
    e.Unary? && e.operator == "!"
  }

  /** The node's parent is itself a `!` expression. */
  predicate ParentIsNegation(parent: Option<Parent>) {
    parent.Some? && parent.value.kind == "UnaryExpression" && parent.value.operator == "!"
  }

  /** Operands whose precedence is lower than a comparison's, so that the
      rewritten operand must be wrapped in parentheses. */
  predicate NeedsParentheses(e: Expr) {
    e.Binary? || e.Logical? || e.Conditional? || e.Assignment? || e.Sequence?
  }

  /** The text that replaces `!argument`: the operand, parenthesised when its
      precedence requires it, a space, and the comparison. It introduces no
      negation of its own. */
  function FixText(source: string, argument: Expr, c: Comparison): (text: string)
    ensures var operand := GetText(source, argument);
      var parens := NeedsParentheses(argument);
      && |text| == |operand| + (if parens then 2 else 0) + 1 + |ComparisonText(c)|
      && text[|text| - |ComparisonText(c)| - 1..] == " " + ComparisonText(c)
      && (parens ==> text[..|operand| + 2] == "(" + operand + ")")
      && (!parens ==> text[..|operand|] == operand)
    ensures Occurrences('!', text) == Occurrences('!', GetText(source, argument))
  {
    var argumentText := GetText(source, argument);
    var parens := NeedsParentheses(argument);
    var operand := if parens then "(" + argumentText + ")" else argumentText;
    FixTextShape(argumentText, parens, operand, ComparisonText(c));
    operand + " " + ComparisonText(c)
  }

  lemma FixTextShape(argumentText: string, parens: bool, operand: string, comparison: string)
    requires operand == if parens then "(" + argumentText + ")" else argumentText
    requires '!' !in comparison
    ensures var text := operand + " " + comparison;
      && text[|text| - |comparison| - 1..] == " " + comparison
      && (parens ==> text[..|argumentText| + 2] == "(" + argumentText + ")")
      && (!parens ==> text[..|argumentText|] == argumentText)
      && Occurrences('!', text) == Occurrences('!', argumentText)
  {
    var tail := " " + comparison;
    var text := operand + tail;
    assert operand + " " + comparison == text;
    assert |text| - |comparison| - 1 == |operand|;
    assert text[|operand|..] == tail;
    assert text[..|operand|] == operand;
    assert parens ==> |operand| == |argumentText| + 2;
    FixTextBangs(argumentText, parens, operand, comparison);
  }

  /** The `!` count part of `FixTextShape`. */
  lemma FixTextBangs(argumentText: string, parens: bool, operand: string, comparison: string)
    requires operand == if parens then "(" + argumentText + ")" else argumentText
    requires '!' !in comparison
    ensures Occurrences('!', operand + " " + comparison) == Occurrences('!', argumentText)
  {
    OccurrencesAppend('!', operand, " " + comparison);
    OccurrencesAppend('!', " ", comparison);
    OccurrencesAbsent('!', comparison);
    assert operand + " " + comparison == operand + (" " + comparison);
    if parens {
      assert operand == "(" + (argumentText + ")");
      OccurrencesAppend('!', "(", argumentText + ")");
      OccurrencesAppend('!', argumentText, ")");
    }
  }

  /** The `UnaryExpression` handler. `oracle` is None when the run has no type
      information, and otherwise the type of the negated operand. */
  function OnUnaryExpression(source: string, node: Expr, parent: Option<Parent>, oracle: Option<Ty>)
    : (r: Option<Report<Message>>)
    requires node.Unary?
    ensures node.operator != "!" || !node.prefix ==> r.None?
    ensures ParentIsNegation(parent) ==> r.None?
    ensures IsNegation(node.argument) ==> r.None?
    ensures var eligible := node.operator == "!" && node.prefix && !ParentIsNegation(parent) && !IsNegation(node.argument);
      && (oracle.None? ==> r == (if eligible then Some(Report(PreferExplicitCheckNoFix, None)) else None))
      && (oracle.Some? ==> (r.Some? <==> eligible && GetExplicitComparison(oracle.value).Some?))
    ensures r.Some? && oracle.Some? ==>
      var c := GetExplicitComparison(oracle.value).value;
      && r.value.message == PreferExplicitCheck(ComparisonText(c))
      && r.value.fix == Some(Patch(node.range, FixText(source, node.argument, c)))
    ensures r.Some? && r.value.fix.Some? ==>
      Occurrences('!', r.value.fix.value.text) == Occurrences('!', GetText(source, node.argument))
  {
    if node.operator != "!" || !node.prefix then None
    else if ParentIsNegation(parent) then None
    else if IsNegation(node.argument) then None
    else match oracle
      case None => Some(Report(PreferExplicitCheckNoFix, None))
      case Some(t) =>
        match GetExplicitComparison(t)
        case None => None
        case Some(c) =>
          Some(Report(PreferExplicitCheck(ComparisonText(c)), Some(Patch(node.range, FixText(source, node.argument, c)))))
  }

  /** Neither `!` of `!!x` is reported, whatever the type information. */
  lemma DoubleNegationExempt(source: string, outer: Expr, parent: Option<Parent>, oracle: Option<Ty>, innerOracle: Option<Ty>)
    requires outer.Unary? && outer.operator == "!" && IsNegation(outer.argument)
    ensures OnUnaryExpression(source, outer, parent, oracle).None?
    ensures OnUnaryExpression(source, outer.argument, Some(Parent("UnaryExpression", "!")), innerOracle).None?
  {
  }

  /** With type information, a union of only null and undefined yields no
      comparison, so the negation is not reported at all. */
  lemma NullishOnlyUnionNotReported(source: string, node: Expr, parent: Option<Parent>, members: seq<set<TypeFlag>>)
    requires node.Unary?
    requires forall i :: 0 <= i < |members| ==> !NonNullish(members[i])
    ensures OnUnaryExpression(source, node, parent, Some(Union(members))).None?
  {
  }

  /** The binding power of a binary operator in the expression grammar of
      ECMA-262 (section 13, from bitwise OR up to exponentiation); 0 for
      anything else. */
  function BinaryPrecedence(operator: string): nat {
    if operator == "|" then 1
    else if operator == "^" then 2
    else if operator == "&" then 3
    else if operator in {"==", "!=", "===", "!=="} then 4
    else if operator in {"<", ">", "<=", ">=", "instanceof", "in"} then 5
    else if operator in {"<<", ">>", ">>>"} then 6
    else if operator in {"+", "-"} then 7
    else if operator in {"*", "/", "%"} then 8
    else if operator == "**" then 9
    else 0
  }

  /** The node's parent takes its operands more tightly than an equality
      does, so a comparison written in the node's place would be split: a
      binary operator of equality strength or above, or a unary operator. */
  predicate ParentBindsTighter(parent: Option<Parent>) {
    parent.Some? &&
      ((parent.value.kind == "BinaryExpression" && BinaryPrecedence(parent.value.operator) >= BinaryPrecedence("==="))
       || parent.value.kind == "UnaryExpression" || parent.value.kind == "AwaitExpression")
  }

  /** `!x < y` with `x` a boolean: the negation spans offsets 0..2 and its
      parent is the `<` comparison. */
  const RelationalSource := "!x < y"
  const RelationalNegation := Unary(Range(0, 2), "!", true, Identifier(Range(1, 2), "x"))
  const RelationalParent := Some(Parent("BinaryExpression", "<"))

  lemma RelationalFixText()
    ensures FixText(RelationalSource, RelationalNegation.argument, StrictFalse) == "x === false"
  {
    var source := RelationalSource;
    assert source == "!x < y";
    assert source[1] == 'x' && source[1..2] == "x";
    assert GetText(source, RelationalNegation.argument) == "x";
  }

  /** As written, the rewrite ignores the parent's precedence: `!x < y`
      becomes `x === false < y`, and since `<` binds tighter than `===` that
      reads `x === (false < y)`. */
  lemma RelationalParentSplitsComparison()
    ensures OnUnaryExpression(RelationalSource, RelationalNegation, RelationalParent, Some(Single({Boolean})))
         == Some(Report(PreferExplicitCheck("=== false"), Some(Patch(Range(0, 2), "x === false"))))
    ensures ParentBindsTighter(RelationalParent)
  {
    RelationalReported();
    RelationalFixText();
    RelationalParentPrecedence();
  }

  /** The code reports `!x` in `!x < y` and replaces it by its rewrite. */
  lemma RelationalReported()
    ensures var r := OnUnaryExpression(RelationalSource, RelationalNegation, RelationalParent, Some(Single({Boolean})));
      && r.Some?
      && r.value.message == PreferExplicitCheck("=== false")
      && r.value.fix == Some(Patch(Range(0, 2), FixText(RelationalSource, RelationalNegation.argument, StrictFalse)))
  {
    BooleanComparison();
    assert !ParentIsNegation(RelationalParent);
    assert !IsNegation(RelationalNegation.argument);
    assert ComparisonText(StrictFalse) == "=== false";
  }

  /** `<` binds tighter than `===`. */
  lemma RelationalParentPrecedence()
    ensures ParentBindsTighter(RelationalParent)
  {
    assert BinaryPrecedence("===") == 4;
    assert BinaryPrecedence("<") == 5;
  }

  /** A plain boolean type gets `=== false`. */
  lemma BooleanComparison()
    ensures GetExplicitComparison(Single({Boolean})) == Some(StrictFalse)
  {
    assert Boolean in {Boolean};
  }

  /** Applied, that fix leaves `x === false < y`. */
  lemma RelationalPatchedText()
    ensures ApplyPatch(RelationalSource, Patch(Range(0, 2), "x === false")) == "x === false < y"
  {
    var source := RelationalSource;
    assert source == "!x < y";
    assert source[2..] == " < y";
  }

  /** The rewrite with the parent's precedence respected: parenthesised as a
      whole when the parent binds tighter than an equality, the code's
      rewrite otherwise. */
  function CorrectedFixText(source: string, argument: Expr, c: Comparison, parent: Option<Parent>): (text: string)
    ensures ParentBindsTighter(parent) ==> text == "(" + FixText(source, argument, c) + ")"
    ensures !ParentBindsTighter(parent) ==> text == FixText(source, argument, c)
    ensures Occurrences('!', text) == Occurrences('!', GetText(source, argument))
  {
    var inner := FixText(source, argument, c);
    if ParentBindsTighter(parent) then
      OccurrencesAppend('!', "(", inner);
      OccurrencesAppend('!', "(" + inner, ")");
      "(" + inner + ")"
    else inner
  }

  /** The `UnaryExpression` handler with the corrected rewrite: it reports the
      same negations with the same messages, and its rewrite is parenthesised
      whenever the parent binds tighter than an equality. */
  function CorrectedOnUnaryExpression(source: string, node: Expr, parent: Option<Parent>, oracle: Option<Ty>)
    : (r: Option<Report<Message>>)
    requires node.Unary?
    ensures r.Some? <==> OnUnaryExpression(source, node, parent, oracle).Some?
    ensures r.Some? ==> r.value.message == OnUnaryExpression(source, node, parent, oracle).value.message
    ensures oracle.None? ==> r == OnUnaryExpression(source, node, parent, oracle)
    ensures oracle.None? && r.Some? ==> r.value.fix.None?
    ensures r.Some? && oracle.Some? ==>
      var c := GetExplicitComparison(oracle.value).value;
      r.value.fix == Some(Patch(node.range, CorrectedFixText(source, node.argument, c, parent)))
    ensures r.Some? && r.value.fix.Some? && ParentBindsTighter(parent) ==>
      var text := r.value.fix.value.text;
      |text| >= 2 && text[0] == '(' && text[|text| - 1] == ')'
  {
    match OnUnaryExpression(source, node, parent, oracle)
    case None => None
    case Some(report) =>
      if oracle.None? then Some(report)
      else
        var c := GetExplicitComparison(oracle.value).value;
        Some(Report(report.message, Some(Patch(node.range, CorrectedFixText(source, node.argument, c, parent)))))
  }

  /** With the corrected rewrite, `!x < y` becomes `(x === false) < y`. */
  lemma CorrectedRelationalKeepsComparison()
    ensures CorrectedOnUnaryExpression(RelationalSource, RelationalNegation, RelationalParent, Some(Single({Boolean})))
         == Some(Report(PreferExplicitCheck("=== false"), Some(Patch(Range(0, 2), "(x === false)"))))
  {
    RelationalParentSplitsComparison();
    RelationalCorrectedFixText();
    BooleanComparison();
  }

  lemma RelationalCorrectedFixText()
    ensures CorrectedFixText(RelationalSource, RelationalNegation.argument, StrictFalse, RelationalParent) == "(x === false)"
  {
    RelationalFixText();
    RelationalParentPrecedence();
    ParenthesisedFalseComparison();
  }

  lemma ParenthesisedFalseComparison()
    ensures "(" + "x === false" + ")" == "(x === false)"
  {
  }

  /** Applied, the corrected fix leaves `(x === false) < y`. */
  lemma CorrectedRelationalPatchedText()
    ensures ApplyPatch(RelationalSource, Patch(Range(0, 2), "(x === false)")) == "(x === false) < y"
  {
    var source := RelationalSource;
    assert source == "!x < y";
    assert source[2..] == " < y";
  }
}
