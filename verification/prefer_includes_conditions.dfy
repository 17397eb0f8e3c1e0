/**
  The `prefer-includes-conditions` rule: a chain `x === a || x === b || x === c`
  of at least three strict equalities on the same subject is reported and
  rewritten to `[a, b, c].includes(x)`.

  The rule flattens the maximal `||` chain, groups its `===` operands by the
  source text of their left-hand side, and fires when one group has at least
  three values and accounts for every operand of the chain.
 */
module PreferIncludesConditions {
  import opened Wrappers
  import opened Syntax

  datatype Message = PreferIncludes

  predicate IsOr(e: Expr) {
    e.Logical? && e.operator == "||"
  }

  predicate ParentIsOr(parent: Option<Parent>) {
    parent.Some? && parent.value.kind == "LogicalExpression" && parent.value.operator == "||"
  }

  /** The in-order leaves of the `||` tree rooted at `e`: every operand of the
      chain that is not itself an `||` expression. */
  function CollectLogicalOrOperands(e: Expr): (operands: seq<Expr>)
    ensures |operands| >= 1
    ensures forall i :: 0 <= i < |operands| ==> !IsOr(operands[i])
    ensures IsOr(e) ==> |operands| >= 2
    ensures !IsOr(e) ==> operands == [e]
  {
    if IsOr(e) then CollectLogicalOrOperands(e.left) + CollectLogicalOrOperands(e.right)
    else [e]
  }

  /** The bracketing of an `||` tree: where its leaves sit, whatever they are. */
  datatype Shape = Leaf | Node(left: Shape, right: Shape)

  function LeafCount(shape: Shape): nat {
    match shape
    case Leaf => 1
    case Node(left, right) => LeafCount(left) + LeafCount(right)
  }

  /** The `||` tree of the given shape whose leaves, left to right, are
      `leaves`: `a || (b || c)`, `(a || b) || c` and every other bracketing
      (every `||` node is given the same range; the flattening does not look
      at ranges). */
  function Build(range: Range, shape: Shape, leaves: seq<Expr>): Expr
    requires |leaves| == LeafCount(shape)
  {
    match shape
    case Leaf => leaves[0]
    case Node(left, right) =>
      var n := LeafCount(left);
      Logical(range, "||", Build(range, left, leaves[..n]), Build(range, right, leaves[n..]))
  }

  /** Flattening an `||` tree of any bracketing built from non-`||` leaves
      gives back those leaves, in order. */
  lemma {:induction false} BuildRoundTrip(range: Range, shape: Shape, leaves: seq<Expr>)
    requires |leaves| == LeafCount(shape)
    requires forall i :: 0 <= i < |leaves| ==> !IsOr(leaves[i])
    ensures CollectLogicalOrOperands(Build(range, shape, leaves)) == leaves
  {
    match shape
    case Leaf =>
    case Node(left, right) =>
      var n := LeafCount(left);
      var front, back := leaves[..n], leaves[n..];
      NoOrSplit(leaves, n);
      BuildRoundTrip(range, left, front);
      BuildRoundTrip(range, right, back);
      var l, r := Build(range, left, front), Build(range, right, back);
      assert Build(range, shape, leaves) == Logical(range, "||", l, r);
      assert IsOr(Logical(range, "||", l, r));
      assert CollectLogicalOrOperands(Logical(range, "||", l, r)) == front + back;
      SplitJoin(leaves, n);
  }

  lemma SplitJoin<T>(s: seq<T>, n: nat)
    requires n <= |s|
    ensures s[..n] + s[n..] == s
  {
  }

  /** Both parts of a sequence of non-`||` leaves hold only non-`||` leaves. */
  lemma NoOrSplit(leaves: seq<Expr>, n: nat)
    requires n <= |leaves|
    requires forall i :: 0 <= i < |leaves| ==> !IsOr(leaves[i])
    ensures forall i :: 0 <= i < |leaves[..n]| ==> !IsOr(leaves[..n][i])
    ensures forall i :: 0 <= i < |leaves[n..]| ==> !IsOr(leaves[n..][i])
  {
    forall i | 0 <= i < |leaves[n..]| ensures !IsOr(leaves[n..][i]) { assert leaves[n..][i] == leaves[n + i]; }
  }

  /** A group of `===` comparisons sharing the source text of their left
      operand: that text, the right operands, and the comparison nodes. */
  datatype ComparisonGroup = ComparisonGroup(variable: string, values: seq<Expr>, nodes: seq<Expr>)

  predicate IsStrictEquality(e: Expr) {
    e.Binary? && e.operator == "==="
  }

  /** Operand `e` is a strict equality whose left operand reads `variable`. */
  predicate ComparesVariable(source: string, e: Expr, variable: string) {
    IsStrictEquality(e) && GetText(source, e.left) == variable
  }

  /** The operands that compare `variable` with `===`, in chain order: the
      reference definition of the group keyed by `variable`. */
  function ComparisonsOf(source: string, operands: seq<Expr>, variable: string): seq<Expr>
    decreases |operands|
  {
    if |operands| == 0 then []
    else
      var last := operands[|operands| - 1];
      ComparisonsOf(source, operands[..|operands| - 1], variable)
        + (if ComparesVariable(source, last, variable) then [last] else [])
  }

  /** The number of `===` operands. */
  function StrictEqualityCount(operands: seq<Expr>): nat
    decreases |operands|
  {
    if |operands| == 0 then 0
    else StrictEqualityCount(operands[..|operands| - 1]) + (if IsStrictEquality(operands[|operands| - 1]) then 1 else 0)
  }

  /** The number of comparisons held by all groups together. */
  function TotalSize(groups: seq<ComparisonGroup>): nat
  {
    if |groups| == 0 then 0 else |groups[0].nodes| + TotalSize(groups[1..])
  }

  predicate DistinctKeys(groups: seq<ComparisonGroup>) {
    forall i, j :: 0 <= i < j < |groups| ==> groups[i].variable != groups[j].variable
  }

  /** Each group holds exactly the comparisons of its key, in chain order. */
  predicate MatchesReference(source: string, operands: seq<Expr>, groups: seq<ComparisonGroup>) {
    forall i :: 0 <= i < |groups| ==>
      && groups[i].nodes == ComparisonsOf(source, operands, groups[i].variable)
      && |groups[i].nodes| >= 1
      && |groups[i].values| == |groups[i].nodes|
  }

  /** Each value is the right operand of the comparison at the same position. */
  predicate ValuesPaired(groups: seq<ComparisonGroup>) {
    forall i, k :: 0 <= i < |groups| && 0 <= k < |groups[i].nodes| && k < |groups[i].values| ==>
      groups[i].nodes[k].Binary? && groups[i].values[k] == groups[i].nodes[k].right
  }

  /** Every `===` operand has a group. */
  predicate CoversOperands(source: string, operands: seq<Expr>, groups: seq<ComparisonGroup>) {
    forall k :: 0 <= k < |operands| && IsStrictEquality(operands[k]) ==>
      exists i :: 0 <= i < |groups| && groups[i].variable == GetText(source, operands[k].left)
  }

  /** `groups` is the grouping of `operands`: distinct keys, each group holding
      exactly the comparisons of its key in chain order with the matching right
      operands, and a group for every `===` operand. */
  predicate GroupsOf(source: string, operands: seq<Expr>, groups: seq<ComparisonGroup>) {
    && DistinctKeys(groups)
    && MatchesReference(source, operands, groups)
    && ValuesPaired(groups)
    && CoversOperands(source, operands, groups)
  }

  /** The position of the group keyed `variable`, or `|groups|` if there is none. */
  function IndexOfGroup(groups: seq<ComparisonGroup>, variable: string): (i: nat)
    ensures i <= |groups|
    ensures i < |groups| ==> groups[i].variable == variable
    ensures i == |groups| ==> forall j :: 0 <= j < |groups| ==> groups[j].variable != variable
  {
    if |groups| == 0 then 0
    else if groups[0].variable == variable then 0
    else 1 + IndexOfGroup(groups[1..], variable)
  }

  /** One iteration of the grouping loop: a `===` operand is appended to the
      group of its left operand's text, which is created at the end of the
      map if it does not exist yet; other operands are skipped. */
  function AddOperand(source: string, groups: seq<ComparisonGroup>, operand: Expr): seq<ComparisonGroup>
  {
    if !IsStrictEquality(operand) then groups
    else
      var variable := GetText(source, operand.left);
      var i := IndexOfGroup(groups, variable);
      if i < |groups| then
        groups[i := ComparisonGroup(variable, groups[i].values + [operand.right], groups[i].nodes + [operand])]
      else
        groups + [ComparisonGroup(variable, [operand.right], [operand])]
  }

  /** The grouping of a chain's operands, in insertion order of their keys. */
  function GroupEqualityComparisons(source: string, operands: seq<Expr>): (groups: seq<ComparisonGroup>)
    ensures GroupsOf(source, operands, groups)
    ensures TotalSize(groups) == StrictEqualityCount(operands) <= |operands|
    decreases |operands|
  {
    if |operands| == 0 then []
    else
      var prefix := operands[..|operands| - 1];
      var last := operands[|operands| - 1];
      var groups := GroupEqualityComparisons(source, prefix);
      assert prefix + [last] == operands;
      AddOperandKeepsGroups(source, prefix, groups, last);
      AddOperand(source, groups, last)
  }

  lemma {:induction false} TotalSizeUpdate(groups: seq<ComparisonGroup>, i: nat, g: ComparisonGroup)
    requires i < |groups|
    ensures TotalSize(groups[i := g]) == TotalSize(groups) - |groups[i].nodes| + |g.nodes|
    decreases |groups|
  {
    if i > 0 {
      assert groups[i := g][1..] == groups[1..][i - 1 := g];
      TotalSizeUpdate(groups[1..], i - 1, g);
    }
  }

  lemma {:induction false} TotalSizeAppend(groups: seq<ComparisonGroup>, g: ComparisonGroup)
    ensures TotalSize(groups + [g]) == TotalSize(groups) + |g.nodes|
    decreases |groups|
  {
    if |groups| > 0 {
      assert (groups + [g])[1..] == groups[1..] + [g];
      TotalSizeAppend(groups[1..], g);
    }
  }

  /** No operand compares `variable`, so its reference group is empty. */
  lemma {:induction false} ComparisonsOfAbsent(source: string, operands: seq<Expr>, variable: string)
    requires forall k :: 0 <= k < |operands| ==> !ComparesVariable(source, operands[k], variable)
    ensures ComparisonsOf(source, operands, variable) == []
    decreases |operands|
  {
    if |operands| > 0 {
      ComparisonsOfAbsent(source, operands[..|operands| - 1], variable);
    }
  }

  /** Extending the chain by one operand extends each reference group by at
      most that operand. */
  lemma ComparisonsOfSnoc(source: string, operands: seq<Expr>, operand: Expr, variable: string)
    ensures ComparisonsOf(source, operands + [operand], variable)
      == ComparisonsOf(source, operands, variable) + (if ComparesVariable(source, operand, variable) then [operand] else [])
  {
    assert (operands + [operand])[..|operands|] == operands;
  }

  lemma AddOperandKeepsGroups(source: string, operands: seq<Expr>, groups: seq<ComparisonGroup>, operand: Expr)
    requires GroupsOf(source, operands, groups)
    requires TotalSize(groups) == StrictEqualityCount(operands)
    ensures GroupsOf(source, operands + [operand], AddOperand(source, groups, operand))
    ensures TotalSize(AddOperand(source, groups, operand)) == StrictEqualityCount(operands + [operand])
  {
    var extended := operands + [operand];
    assert extended[..|operands|] == operands;
    var result := AddOperand(source, groups, operand);
    if !IsStrictEquality(operand) {
      ReferenceUnchanged(source, operands, groups, operand);
      CoverageExtends(source, operands, groups, operand, groups);
    } else {
      var variable := GetText(source, operand.left);
      var i := IndexOfGroup(groups, variable);
      if i < |groups| {
        var grown := ComparisonGroup(variable, groups[i].values + [operand.right], groups[i].nodes + [operand]);
        assert result == groups[i := grown];
        TotalSizeUpdate(groups, i, grown);
        ExistingGroupGrows(source, operands, groups, operand, i, result);
        CoverageExtends(source, operands, groups, operand, result);
      } else {
        var created := ComparisonGroup(variable, [operand.right], [operand]);
        assert result == groups + [created];
        TotalSizeAppend(groups, created);
        NewGroupAppended(source, operands, groups, operand, result);
        CoverageExtends(source, operands, groups, operand, result);
      }
    }
  }

  /** A skipped operand leaves every reference group as it was. */
  lemma ReferenceUnchanged(source: string, operands: seq<Expr>, groups: seq<ComparisonGroup>, operand: Expr)
    requires MatchesReference(source, operands, groups)
    requires !IsStrictEquality(operand)
    ensures MatchesReference(source, operands + [operand], groups)
  {
    forall j | 0 <= j < |groups|
      ensures groups[j].nodes == ComparisonsOf(source, operands + [operand], groups[j].variable)
    {
      ComparisonsOfSnoc(source, operands, operand, groups[j].variable);
    }
  }

  /** The keys of `result` include those of `groups` and, for a `===`
      operand, the operand's own key; so coverage extends to the new operand. */
  lemma CoverageExtends(source: string, operands: seq<Expr>, groups: seq<ComparisonGroup>, operand: Expr,
                        result: seq<ComparisonGroup>)
    requires CoversOperands(source, operands, groups)
    requires |groups| <= |result|
    requires forall j :: 0 <= j < |groups| ==> result[j].variable == groups[j].variable
    requires IsStrictEquality(operand) ==>
      exists j :: 0 <= j < |result| && result[j].variable == GetText(source, operand.left)
    ensures CoversOperands(source, operands + [operand], result)
  {
    var extended := operands + [operand];
    forall k | 0 <= k < |extended| && IsStrictEquality(extended[k])
      ensures exists j :: 0 <= j < |result| && result[j].variable == GetText(source, extended[k].left)
    {
      if k < |operands| {
        assert extended[k] == operands[k];
        var g :| 0 <= g < |groups| && groups[g].variable == GetText(source, operands[k].left);
        assert result[g].variable == groups[g].variable;
      }
    }
  }

  lemma ExistingGroupGrows(source: string, operands: seq<Expr>, groups: seq<ComparisonGroup>, operand: Expr,
                           i: nat, result: seq<ComparisonGroup>)
    requires GroupsOf(source, operands, groups)
    requires IsStrictEquality(operand) && i < |groups| && groups[i].variable == GetText(source, operand.left)
    requires result == groups[i := ComparisonGroup(groups[i].variable, groups[i].values + [operand.right], groups[i].nodes + [operand])]
    ensures DistinctKeys(result)
    ensures MatchesReference(source, operands + [operand], result)
    ensures ValuesPaired(result)
    ensures exists j :: 0 <= j < |result| && result[j].variable == GetText(source, operand.left)
  {
    assert forall j :: 0 <= j < |result| ==> result[j].variable == groups[j].variable;
    forall j | 0 <= j < |result|
      ensures result[j].nodes == ComparisonsOf(source, operands + [operand], result[j].variable)
    {
      ComparisonsOfSnoc(source, operands, operand, result[j].variable);
    }
    forall j, k | 0 <= j < |result| && 0 <= k < |result[j].nodes| && k < |result[j].values|
      ensures result[j].nodes[k].Binary? && result[j].values[k] == result[j].nodes[k].right
    {
      if j == i && k < |groups[i].nodes| {
        assert result[j].nodes[k] == groups[i].nodes[k];
        assert result[j].values[k] == groups[i].values[k];
      }
    }
    assert result[i].variable == GetText(source, operand.left);
  }

  /** A key no group has is compared by no operand, so its reference group is empty. */
  lemma FreshKeyAbsent(source: string, operands: seq<Expr>, groups: seq<ComparisonGroup>, variable: string)
    requires CoversOperands(source, operands, groups)
    requires forall j :: 0 <= j < |groups| ==> groups[j].variable != variable
    ensures ComparisonsOf(source, operands, variable) == []
  {
    forall k | 0 <= k < |operands|
      ensures !ComparesVariable(source, operands[k], variable)
    {
      if IsStrictEquality(operands[k]) {
        var g :| 0 <= g < |groups| && groups[g].variable == GetText(source, operands[k].left);
      }
    }
    ComparisonsOfAbsent(source, operands, variable);
  }

  lemma NewGroupAppended(source: string, operands: seq<Expr>, groups: seq<ComparisonGroup>, operand: Expr,
                         result: seq<ComparisonGroup>)
    requires GroupsOf(source, operands, groups)
    requires IsStrictEquality(operand)
    requires forall j :: 0 <= j < |groups| ==> groups[j].variable != GetText(source, operand.left)
    requires result == groups + [ComparisonGroup(GetText(source, operand.left), [operand.right], [operand])]
    ensures DistinctKeys(result)
    ensures MatchesReference(source, operands + [operand], result)
    ensures ValuesPaired(result)
    ensures exists j :: 0 <= j < |result| && result[j].variable == GetText(source, operand.left)
  {
    var variable := GetText(source, operand.left);
    FreshKeyAbsent(source, operands, groups, variable);
    forall j | 0 <= j < |result|
      ensures result[j].nodes == ComparisonsOf(source, operands + [operand], result[j].variable)
    {
      ComparisonsOfSnoc(source, operands, operand, result[j].variable);
    }
    assert result[|groups|].variable == variable;
  }

  /** A group fires when it has at least three values and covers every operand. */
  predicate Qualifies(g: ComparisonGroup, operandCount: nat) {
    |g.values| >= 3 && |g.nodes| == operandCount
  }

  /** The first group (in the map's iteration order) that fires, if any. */
  function FirstQualifying(groups: seq<ComparisonGroup>, operandCount: nat): (r: Option<ComparisonGroup>)
    ensures r.Some? ==> r.value in groups && Qualifies(r.value, operandCount)
    ensures r.Some? ==> exists i :: 0 <= i < |groups| && groups[i] == r.value && (forall j :: 0 <= j < i ==> !Qualifies(groups[j], operandCount))
    ensures r.None? ==> forall i :: 0 <= i < |groups| ==> !Qualifies(groups[i], operandCount)
  {
    if |groups| == 0 then None
    else if Qualifies(groups[0], operandCount) then Some(groups[0])
    else FirstQualifying(groups[1..], operandCount)
  }

  /** The source text of a comparison's left operand. */
  function SubjectText(source: string, e: Expr): string
    requires e.Binary?
  {
    GetText(source, e.left)
  }

  /** The chain the rule rewrites: at least three operands, every one a `===`
      whose left operand reads the same as the first's. */
  predicate UniformChain(source: string, operands: seq<Expr>) {
    && |operands| >= 3
    && IsStrictEquality(operands[0])
    && forall k :: 0 <= k < |operands| ==> ComparesVariable(source, operands[k], SubjectText(source, operands[0]))
  }

  /** The reference group has as many members as there are operands only when
      every operand belongs to it. */
  lemma {:induction false} ComparisonsOfFull(source: string, operands: seq<Expr>, variable: string)
    ensures |ComparisonsOf(source, operands, variable)| <= |operands|
    ensures |ComparisonsOf(source, operands, variable)| == |operands| <==>
      forall k :: 0 <= k < |operands| ==> ComparesVariable(source, operands[k], variable)
    ensures |ComparisonsOf(source, operands, variable)| == |operands| ==>
      ComparisonsOf(source, operands, variable) == operands
  {
    ComparisonsOfShort(source, operands, variable);
    if forall k :: 0 <= k < |operands| ==> ComparesVariable(source, operands[k], variable) {
      ComparisonsOfAll(source, operands, variable);
    }
  }

  /** The reference group is never longer than the chain, and is shorter when
      some operand does not compare the key. */
  lemma {:induction false} ComparisonsOfShort(source: string, operands: seq<Expr>, variable: string)
    ensures |ComparisonsOf(source, operands, variable)| <= |operands|
    ensures (exists k :: 0 <= k < |operands| && !ComparesVariable(source, operands[k], variable)) ==>
      |ComparisonsOf(source, operands, variable)| < |operands|
    decreases |operands|
  {
    if |operands| > 0 {
      var n := |operands| - 1;
      var prefix, last := operands[..n], operands[n];
      ComparisonsOfShort(source, prefix, variable);
      assert prefix + [last] == operands;
      if exists k :: 0 <= k < |operands| && !ComparesVariable(source, operands[k], variable) {
        var k :| 0 <= k < |operands| && !ComparesVariable(source, operands[k], variable);
        if k < n {
          assert prefix[k] == operands[k];
        }
      }
    }
  }

  /** When every operand compares the key, the reference group is the whole chain. */
  lemma {:induction false} ComparisonsOfAll(source: string, operands: seq<Expr>, variable: string)
    requires forall k :: 0 <= k < |operands| ==> ComparesVariable(source, operands[k], variable)
    ensures ComparisonsOf(source, operands, variable) == operands
    decreases |operands|
  {
    if |operands| > 0 {
      var n := |operands| - 1;
      var prefix, last := operands[..n], operands[n];
      assert forall k :: 0 <= k < n ==> prefix[k] == operands[k];
      ComparisonsOfAll(source, prefix, variable);
      assert ComparesVariable(source, last, variable);
      assert prefix + [last] == operands;
    }
  }

  /** A group that fires holds the whole chain: every operand compares its key. */
  lemma QualifyingGroupCoversChain(source: string, operands: seq<Expr>, groups: seq<ComparisonGroup>, i: nat)
    requires GroupsOf(source, operands, groups)
    requires i < |groups| && Qualifies(groups[i], |operands|)
    ensures UniformChain(source, operands)
    ensures groups[i].variable == SubjectText(source, operands[0])
    ensures groups[i].nodes == operands
    ensures groups[i].values == RightOperands(operands)
  {
    var g := groups[i];
    ComparisonsOfFull(source, operands, g.variable);
    assert ComparesVariable(source, operands[0], g.variable);
    forall k | 0 <= k < |operands|
      ensures g.values[k] == operands[k].right
    {
      assert g.nodes[k] == operands[k];
    }
  }

  /** In a uniform chain the group of the first operand's subject fires. */
  lemma UniformChainQualifies(source: string, operands: seq<Expr>, groups: seq<ComparisonGroup>)
    requires GroupsOf(source, operands, groups)
    requires UniformChain(source, operands)
    ensures exists i :: 0 <= i < |groups| && Qualifies(groups[i], |operands|)
  {
    var v := SubjectText(source, operands[0]);
    var i :| 0 <= i < |groups| && groups[i].variable == v;
    ComparisonsOfFull(source, operands, v);
    assert Qualifies(groups[i], |operands|);
  }

  /** For any exact grouping of a chain, some group fires exactly when the
      chain is uniform. */
  lemma QualifyingIffUniform(source: string, operands: seq<Expr>, groups: seq<ComparisonGroup>)
    requires GroupsOf(source, operands, groups)
    ensures FirstQualifying(groups, |operands|).Some? <==> UniformChain(source, operands)
  {
    var q := FirstQualifying(groups, |operands|);
    if q.Some? {
      var i :| 0 <= i < |groups| && groups[i] == q.value;
      QualifyingGroupCoversChain(source, operands, groups, i);
    }
    if UniformChain(source, operands) {
      UniformChainQualifies(source, operands, groups);
    }
  }

  /** The group that fires is the group of the first operand's subject, and it
      holds every operand in order with its right operand as value. */
  lemma QualifyingGroupIsChain(source: string, operands: seq<Expr>, groups: seq<ComparisonGroup>)
    requires GroupsOf(source, operands, groups)
    requires FirstQualifying(groups, |operands|).Some?
    ensures UniformChain(source, operands)
    ensures var g := FirstQualifying(groups, |operands|).value;
      && g.variable == SubjectText(source, operands[0])
      && g.nodes == operands
      && g.values == RightOperands(operands)
  {
    var q := FirstQualifying(groups, |operands|);
    var i :| 0 <= i < |groups| && groups[i] == q.value;
    QualifyingGroupCoversChain(source, operands, groups, i);
  }

  /** No two groups of one chain can both fire. */
  lemma AtMostOneGroupQualifies(source: string, operands: seq<Expr>, i: nat, j: nat)
    requires var groups := GroupEqualityComparisons(source, operands);
      i < |groups| && j < |groups| && Qualifies(groups[i], |operands|) && Qualifies(groups[j], |operands|)
    ensures i == j
  {
    var groups := GroupEqualityComparisons(source, operands);
    ComparisonsOfFull(source, operands, groups[i].variable);
    ComparisonsOfFull(source, operands, groups[j].variable);
    assert ComparesVariable(source, operands[0], groups[i].variable);
    assert ComparesVariable(source, operands[0], groups[j].variable);
  }

  /** The source texts of the given nodes, as the rule maps `getText` over
      the values: one text per node, in order. */
  function Texts(source: string, es: seq<Expr>): (texts: seq<string>)
    ensures |texts| == |es|
    ensures forall k :: 0 <= k < |es| ==> texts[k] == GetText(source, es[k])
    decreases |es|
  {
    if |es| == 0 then []
    else Texts(source, es[..|es| - 1]) + [GetText(source, es[|es| - 1])]
  }

  /** The right operands of a chain of comparisons, in chain order. */
  function RightOperands(operands: seq<Expr>): seq<Expr>
    requires forall k :: 0 <= k < |operands| ==> operands[k].Binary?
  {
    seq(|operands|, k requires 0 <= k < |operands| => operands[k].right)
  }

  /** `[v1, ..., vn].includes(x)`, with every value kept as written. */
  function IncludesCall(source: string, g: ComparisonGroup): string {
    "[" + Join(Texts(source, g.values), ", ") + "].includes(" + g.variable + ")"
  }

  /** The statements whose heads the rule lists as owning the parentheses
      around their condition or discriminant. */
  predicate ListedStatement(kind: string) {
    kind in {"IfStatement", "WhileStatement", "ForStatement", "DoWhileStatement", "SwitchStatement"}
  }

  /** The node is wrapped in a pair of parentheses the fix may swallow: the
      tokens right before and after it are `(` and `)`, touching it, and the
      parent is not a statement whose syntax owns those parentheses. */
  predicate HasExtraParens(node: Expr, parent: Option<Parent>, before: Option<Token>, after: Option<Token>) {
    && before.Some? && before.value.value == "("
    && after.Some? && after.value.value == ")"
    && before.value.range.end == node.range.start
    && after.value.range.start == node.range.end
    && (parent.None? || !ListedStatement(parent.value.kind))
  }

  /** The range the fix replaces: the node with its extra parentheses, or the node alone. */
  function FixRange(node: Expr, parent: Option<Parent>, before: Option<Token>, after: Option<Token>): (r: Range)
    ensures HasExtraParens(node, parent, before, after) ==>
      r == Range(before.value.range.start, after.value.range.end)
    ensures !HasExtraParens(node, parent, before, after) ==> r == node.range
    ensures (before.Some? ==> before.value.range.start <= before.value.range.end)
         && (after.Some? ==> after.value.range.start <= after.value.range.end)
        ==> r.start <= node.range.start && node.range.end <= r.end
  {
    if HasExtraParens(node, parent, before, after) then Range(before.value.range.start, after.value.range.end)
    else node.range
  }

  /** With one-character `(` and `)` tokens touching the node, outside the five
      statements, the fix replaces the node together with exactly those two
      characters, and keeps everything around them. */
  lemma FixRangeStripsOneParenPair(source: string, node: Expr, parent: Option<Parent>, text: string)
    requires 1 <= node.range.start <= node.range.end < |source|
    requires source[node.range.start - 1] == '(' && source[node.range.end] == ')'
    requires parent.None? || !ListedStatement(parent.value.kind)
    ensures var start, end := node.range.start, node.range.end;
      && source == source[..start - 1] + "(" + GetText(source, node) + ")" + source[end + 1..]
      && ApplyPatch(source, Patch(FixRange(node, parent,
                                           Some(Token("(", Range(start - 1, start))),
                                           Some(Token(")", Range(end, end + 1)))), text))
         == source[..start - 1] + text + source[end + 1..]
  {
    var start, end := node.range.start, node.range.end;
    assert source[start - 1..start] == "(";
    assert source[end..end + 1] == ")";
    assert source == source[..start - 1] + source[start - 1..start] + source[start..end] + source[end..end + 1] + source[end + 1..];
  }

  /** The `LogicalExpression` handler. `before` and `after` are the tokens the
      host's token store finds around the node. */
  function OnLogicalExpression(source: string, node: Expr, parent: Option<Parent>, before: Option<Token>, after: Option<Token>)
    : (r: Option<Report<Message>>)
    requires node.Logical?
    ensures !IsOr(node) || ParentIsOr(parent) ==> r.None?
    ensures r.Some? <==> IsOr(node) && !ParentIsOr(parent) && UniformChain(source, CollectLogicalOrOperands(node))
    ensures r.Some? ==>
      var operands := CollectLogicalOrOperands(node);
      && r.value.message == PreferIncludes
      && r.value.fix == Some(Patch(
           FixRange(node, parent, before, after),
           "[" + Join(Texts(source, RightOperands(operands)), ", ") + "].includes(" + SubjectText(source, operands[0]) + ")"))
  {
    if node.operator != "||" then None
    else if ParentIsOr(parent) then None
    else
      var operands := CollectLogicalOrOperands(node);
      var groups := GroupEqualityComparisons(source, operands);
      QualifyingIffUniform(source, operands, groups);
      match FirstQualifying(groups, |operands|)
      case None => None
      case Some(g) =>
        QualifyingGroupIsChain(source, operands, groups);
        Some(Report(PreferIncludes, Some(Patch(FixRange(node, parent, before, after), IncludesCall(source, g)))))
  }

  /** The call `f(a === 1 || a === 2 || a === 3)`: the chain is its sole
      argument, at offsets 2..31, between the call's `(` at 1 and `)` at 31. */
  const CallArgumentSource := "f(a === 1 || a === 2 || a === 3)"
  const FirstComparison := Binary(Range(2, 9), "===", Identifier(Range(2, 3), "a"), Literal(Range(8, 9)))
  const SecondComparison := Binary(Range(13, 20), "===", Identifier(Range(13, 14), "a"), Literal(Range(19, 20)))
  const ThirdComparison := Binary(Range(24, 31), "===", Identifier(Range(24, 25), "a"), Literal(Range(30, 31)))
  const CallArgumentChain := Logical(Range(2, 31), "||", Logical(Range(2, 20), "||", FirstComparison, SecondComparison), ThirdComparison)

  lemma CallArgumentOperands()
    ensures CollectLogicalOrOperands(CallArgumentChain) == [FirstComparison, SecondComparison, ThirdComparison]
  {
  }

  lemma CallArgumentSubjects()
    ensures SubjectText(CallArgumentSource, FirstComparison) == "a"
    ensures SubjectText(CallArgumentSource, SecondComparison) == "a"
    ensures SubjectText(CallArgumentSource, ThirdComparison) == "a"
  {
    var source := CallArgumentSource;
    assert source == "f(a === 1 || a === 2 || a === 3)";
    assert source[2] == 'a';
    assert source[13] == 'a';
    assert source[24] == 'a';
    assert source[2..3] == "a" && source[13..14] == "a" && source[24..25] == "a";
  }

  lemma CallArgumentValues()
    ensures Texts(CallArgumentSource, RightOperands([FirstComparison, SecondComparison, ThirdComparison])) == ["1", "2", "3"]
  {
    var source := CallArgumentSource;
    assert source == "f(a === 1 || a === 2 || a === 3)";
    assert source[8] == '1';
    assert source[19] == '2';
    assert source[30] == '3';
    assert source[8..9] == "1" && source[19..20] == "2" && source[30..31] == "3";
  }

  lemma CallArgumentUniform()
    ensures UniformChain(CallArgumentSource, CollectLogicalOrOperands(CallArgumentChain))
  {
    var operands := [FirstComparison, SecondComparison, ThirdComparison];
    CallArgumentOperands();
    CallArgumentSubjects();
    CallArgumentValues();
    assert forall k :: 0 <= k < 3 ==> SubjectText(CallArgumentSource, operands[k]) == "a";
  }

  lemma CallArgumentFixText()
    ensures "[" + Join(["1", "2", "3"], ", ") + "].includes(" + "a" + ")" == "[1, 2, 3].includes(a)"
  {
  }

  /** As written, the parentheses of a call's argument list count as extra
      parentheses: the fix replaces them together with the chain and turns the
      call `f(...)` into the member access `f[1, 2, 3].includes(a)`. */
  lemma CallArgumentParensSwallowed()
    ensures OnLogicalExpression(CallArgumentSource, CallArgumentChain, CallParent, CallOpen, CallClose)
         == Some(Report(PreferIncludes, Some(Patch(Range(1, 32), "[1, 2, 3].includes(a)"))))
  {
    CallArgumentReported();
    CallArgumentRange();
    CallArgumentIncludesText();
  }

  /** The call as parent, and its `(` and `)` as the tokens around the chain. */
  const CallParent := Some(Parent("CallExpression", ""))
  const CallOpen := Some(Token("(", Range(1, 2)))
  const CallClose := Some(Token(")", Range(31, 32)))

  /** The chain argument is reported, with the rewrite the handler builds. */
  lemma CallArgumentReported()
    ensures CallArgumentChain.Logical?
    ensures var operands := CollectLogicalOrOperands(CallArgumentChain);
      && operands == [FirstComparison, SecondComparison, ThirdComparison]
      && OnLogicalExpression(CallArgumentSource, CallArgumentChain, CallParent, CallOpen, CallClose)
         == Some(Report(PreferIncludes, Some(Patch(
              FixRange(CallArgumentChain, CallParent, CallOpen, CallClose),
              "[" + Join(Texts(CallArgumentSource, RightOperands(operands)), ", ") + "].includes("
                + SubjectText(CallArgumentSource, operands[0]) + ")"))))
  {
    CallArgumentOperands();
    CallArgumentUniform();
    assert !ParentIsOr(CallParent);
  }

  /** The call's own parentheses are swallowed into the replaced range. */
  lemma CallArgumentRange()
    ensures FixRange(CallArgumentChain, CallParent, CallOpen, CallClose) == Range(1, 32)
  {
    assert !ListedStatement("CallExpression");
    assert HasExtraParens(CallArgumentChain, CallParent, CallOpen, CallClose);
  }

  /** The rewrite built from the chain's texts is `[1, 2, 3].includes(a)`. */
  lemma CallArgumentIncludesText()
    ensures var operands := [FirstComparison, SecondComparison, ThirdComparison];
      "[" + Join(Texts(CallArgumentSource, RightOperands(operands)), ", ") + "].includes("
        + SubjectText(CallArgumentSource, operands[0]) + ")"
      == "[1, 2, 3].includes(a)"
  {
    CallArgumentSubjects();
    CallArgumentValues();
    CallArgumentFixText();
  }

  /** Applied, that fix leaves `f[1, 2, 3].includes(a)`. */
  lemma SwallowedCallText()
    ensures ApplyPatch(CallArgumentSource, Patch(Range(1, 32), "[1, 2, 3].includes(a)")) == "f" + "[1, 2, 3].includes(a)"
  {
    var source := CallArgumentSource;
    assert |source| == 32 && source[0] == 'f';
    assert source[..1] == "f";
    assert source[32..] == "";
  }

  /** Syntax whose own grammar writes parentheses around the node when it is
      the sole operand: the statements the rule lists, `with`, and the
      argument lists of calls, `new` and dynamic `import`. */
  predicate OwnsParentheses(kind: string) {
    ListedStatement(kind) || kind in {"WithStatement", "CallExpression", "NewExpression", "ImportExpression"}
  }

  /** The paren test with the parent's own parentheses excluded in every case. */
  predicate HasRedundantParens(node: Expr, parent: Option<Parent>, before: Option<Token>, after: Option<Token>) {
    HasExtraParens(node, parent, before, after) && (parent.None? || !OwnsParentheses(parent.value.kind))
  }

  /** The range the corrected fix replaces. It leaves parentheses that belong
      to the parent in place, and differs from the code's range only where
      the parent is one of the constructs the code forgot. */
  function CorrectedFixRange(node: Expr, parent: Option<Parent>, before: Option<Token>, after: Option<Token>): (r: Range)
    ensures parent.Some? && OwnsParentheses(parent.value.kind) ==> r == node.range
    ensures r != node.range ==> before.Some? && after.Some? && r == Range(before.value.range.start, after.value.range.end)
    ensures (parent.None? || !OwnsParentheses(parent.value.kind)) ==> r == FixRange(node, parent, before, after)
  {
    if HasRedundantParens(node, parent, before, after) then Range(before.value.range.start, after.value.range.end)
    else node.range
  }

  /** The `LogicalExpression` handler with the corrected range: it reports
      the same chains with the same replacement text, and never replaces
      parentheses that belong to the parent. */
  function CorrectedOnLogicalExpression(source: string, node: Expr, parent: Option<Parent>, before: Option<Token>, after: Option<Token>)
    : (r: Option<Report<Message>>)
    requires node.Logical?
    ensures r.Some? <==> IsOr(node) && !ParentIsOr(parent) && UniformChain(source, CollectLogicalOrOperands(node))
    ensures r.Some? ==>
      var operands := CollectLogicalOrOperands(node);
      && r.value.message == PreferIncludes
      && r.value.fix == Some(Patch(
           CorrectedFixRange(node, parent, before, after),
           "[" + Join(Texts(source, RightOperands(operands)), ", ") + "].includes(" + SubjectText(source, operands[0]) + ")"))
    ensures r.Some? && parent.Some? && OwnsParentheses(parent.value.kind) ==> r.value.fix.value.range == node.range
  {
    match OnLogicalExpression(source, node, parent, before, after)
    case None => None
    case Some(report) =>
      Some(Report(PreferIncludes, Some(Patch(CorrectedFixRange(node, parent, before, after), report.fix.value.text))))
  }

  /** With the corrected range the call keeps its parentheses. */
  lemma CorrectedFixKeepsCall()
    ensures ApplyPatch(CallArgumentSource,
                       Patch(CorrectedFixRange(CallArgumentChain, CallParent, CallOpen, CallClose), "[1, 2, 3].includes(a)"))
         == "f(" + "[1, 2, 3].includes(a)" + ")"
  {
    assert CorrectedFixRange(CallArgumentChain, CallParent, CallOpen, CallClose) == Range(2, 31);
    KeptCallText();
  }

  lemma KeptCallText()
    ensures ApplyPatch(CallArgumentSource, Patch(Range(2, 31), "[1, 2, 3].includes(a)")) == "f(" + "[1, 2, 3].includes(a)" + ")"
  {
    var source := CallArgumentSource;
    assert |source| == 32 && source[0] == 'f' && source[1] == '(' && source[31] == ')';
    assert source[..2] == "f(";
    assert source[31..] == ")";
  }
}
