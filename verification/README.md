# washing-code rules in Dafny

A model of four lint rules from the ESLint plugin `eslint-plugin-washing-code`.
Each rule is modelled as the handler ESLint calls for one kind of syntax node,
together with the diagnostic and the text rewrite (the "fix") it reports.

- **explicit-boolean-check** (`explicit_boolean_check.dfy`) reports a negation `!x`.
  When the static type of `x` allows it, the rule rewrites the negation to an
  explicit comparison: `x === false`, `x === null`, `x === undefined`,
  `x === ''`, `x === 0` or `x == null`.
- **prefer-includes-conditions** (`prefer_includes_conditions.dfy`) reports a chain
  `x === a || x === b || x === c` of three or more strict equalities on one
  subject. It rewrites the chain to `[a, b, c].includes(x)`.
- **prefer-function-optional-chain** (`prefer_function_optional_chain.dfy`) reports
  `if (fn) { fn(args); }` and rewrites it to `fn?.(args);`.
- **no-unnecessary-template-literal** (`no_unnecessary_template_literal.dfy`) reports
  a template literal with no interpolation and no line break. It rewrites the
  literal to a single-quoted string.

Shared pieces are in `syntax.dfy` and `wrappers.dfy`:
- syntax nodes that carry only source ranges;
- the parent of a node;
- tokens, patches and reports;
- the host's `getText`, modelled as JavaScript's clamping `slice`;
- `join`;
- the optional value.

The handlers `OnUnaryExpression`, `OnLogicalExpression` and
`OnTemplateLiteral` follow the code as written, including the defects
described under "## Findings". Beside each is a corrected handler,
`CorrectedOnUnaryExpression`, `CorrectedOnLogicalExpression` and
`CorrectedOnTemplateLiteral`, built on the corrected definitions and carrying
the intended property.

Two behaviours of explicit-boolean-check a reader may not expect:

- With type information, a union whose members are all null or undefined
  (`null | undefined`) gets no comparison. The negation is then not reported
  at all, rather than rewritten to `== null`.
- A union holding null or undefined next to other members is decided by the
  nullish members alone. So for `string | null` the rewrite of `!x` is
  `x === null`. That is not equivalent to `!x` when `x` is `''`.

## Model

| member | source | states |
|---|---|---|
| Syntax.Slice | src/rules/prefer-function-optional-chain.ts:89-97 | The host's text lookup: for an in-bounds range it is exactly that substring; a crossed range gives the empty string; the result is never longer than the source. |
| Syntax.ApplyPatch | src/rules/explicit-boolean-check.ts:205 | Applying a replacement keeps the text before the range and after it and puts the new text in between. |
| Syntax.OccurrencesAppend | src/rules/explicit-boolean-check.ts:198-205 | Occurrence counts add up over concatenation (used to count `!` in a rewrite). |
| ExplicitBooleanCheck.ComparisonText | src/rules/explicit-boolean-check.ts:29-35 | No comparison the rule inserts contains a `!`. |
| ExplicitBooleanCheck.SingleTypeComparison | src/rules/explicit-boolean-check.ts:50-87 | A non-union type gets a comparison exactly when it carries one of the tested flags. The first kind it carries, in the order boolean, null, undefined, string, number, decides: `=== false`, `=== null`, `=== undefined`, `=== ''`, `=== 0`. Conversely, each comparison implies that the type carries a flag of its kind. The loose `== null` is never chosen here. |
| ExplicitBooleanCheck.ScanUnion | src/rules/explicit-boolean-check.ts:7-24 | The loop over union members records that some member is null, that some member is undefined (and not null), and that some member is neither. Its sequence of comparisons is duplicate-free and holds exactly the comparisons of the members that are neither null nor undefined. |
| ExplicitBooleanCheck.GetExplicitComparison | src/rules/explicit-boolean-check.ts:4-48 | A non-union goes to the single-type table. A union with null and other members but no undefined gives `=== null`. Undefined with others but no null gives `=== undefined`. Both nullish kinds with others give `== null`. A union without nullish members gets a comparison exactly when its members' comparisons form a one-element set, and then it is that element. A union without other members gets none. |
| ExplicitBooleanCheck.ComparisonsAsSet | src/rules/explicit-boolean-check.ts:10-21 | The duplicate-free sequence of comparisons holds the same elements as the set of the members' comparisons, and has the size of that set. |
| ExplicitBooleanCheck.DistinctCardinality | src/rules/explicit-boolean-check.ts:40-41 | A duplicate-free sequence has as many elements as its set of elements. |
| ExplicitBooleanCheck.SingleTypeMap | src/rules/explicit-boolean-check.ts:52-86 | A type with a single flag gets the comparison the flag's table entry names. |
| ExplicitBooleanCheck.UnmappedMembersIgnored | src/rules/explicit-boolean-check.ts:19-22 | A union member without a comparison does not block the others: `string \| Other` gives `=== ''`. |
| ExplicitBooleanCheck.FixText | src/rules/explicit-boolean-check.ts:89-98 | The rewrite is the operand's text, parenthesised exactly when the operand is a binary, logical, conditional, assignment or sequence expression, then a space and the comparison. It has exactly as many `!` as the operand's text. |
| ExplicitBooleanCheck.FixTextShape | src/rules/explicit-boolean-check.ts:198-205 | Layout of `operand comparison` (prefix, suffix, length) and the `!` count, for any operand text and comparison without `!`. |
| ExplicitBooleanCheck.OnUnaryExpression | src/rules/explicit-boolean-check.ts:137-207 | Nothing is reported in these cases: an operator other than prefix `!`, an operand of an outer `!`, or an operand that is itself a `!`. Otherwise, without type information, every negation gets the no-fix message. With type information, a report is made exactly when the classifier finds a comparison; it names that comparison, replaces the whole node, and keeps the operand's `!` count. |
| ExplicitBooleanCheck.DoubleNegationExempt | src/rules/explicit-boolean-check.ts:142-156 | Neither negation of `!!x` is reported, with or without type information. |
| ExplicitBooleanCheck.NullishOnlyUnionNotReported | src/rules/explicit-boolean-check.ts:28-44 | With type information, a union of only null and undefined members is never reported. |
| ExplicitBooleanCheck.RelationalFixText | src/rules/explicit-boolean-check.ts:198-205 | In `!x < y`, the rewrite of the boolean negation is `x === false`. |
| ExplicitBooleanCheck.RelationalParentSplitsComparison | src/rules/explicit-boolean-check.ts:198-205 | In `!x < y` with `x` a boolean, the code replaces `!x` by `x === false` even though its parent `<` binds tighter than `===`. |
| ExplicitBooleanCheck.RelationalPatchedText | src/rules/explicit-boolean-check.ts:205 | Applied, that fix leaves `x === false < y`, which reads `x === (false < y)`. |
| ExplicitBooleanCheck.CorrectedFixText | src/rules/explicit-boolean-check.ts:198-205 | The corrected rewrite is the code's rewrite in parentheses when the parent binds tighter than an equality, and the code's rewrite otherwise. Either way it has exactly as many `!` as the operand's text. |
| ExplicitBooleanCheck.CorrectedOnUnaryExpression | src/rules/explicit-boolean-check.ts:137-207 | The corrected handler reports exactly the negations the code reports, with the same messages. Without type information it is the code's handler unchanged: the report carries no fix. With type information its fix is the corrected rewrite, which is parenthesised whenever the parent binds tighter than an equality. |
| ExplicitBooleanCheck.RelationalCorrectedFixText | src/rules/explicit-boolean-check.ts:198-205 | In `!x < y`, the corrected rewrite is `(x === false)`. |
| ExplicitBooleanCheck.CorrectedRelationalKeepsComparison | src/rules/explicit-boolean-check.ts:198-205 | With the corrected handler, `!x` in `!x < y` is replaced by `(x === false)`. |
| ExplicitBooleanCheck.CorrectedRelationalPatchedText | src/rules/explicit-boolean-check.ts:205 | Applied, that fix leaves `(x === false) < y`. |
| PreferIncludesConditions.CollectLogicalOrOperands | src/rules/prefer-includes-conditions.ts:10-26 | The flattening yields at least one operand, none of them an `\|\|`; an `\|\|` root yields at least two; any other node yields itself alone. Which operands come back is stated by `BuildRoundTrip`. |
| PreferIncludesConditions.BuildRoundTrip | src/rules/prefer-includes-conditions.ts:10-26 | For an `\|\|` tree of any bracketing (`a \|\| (b \|\| c)` as well as the left-associated `(a \|\| b) \|\| c` a parser builds for `a \|\| b \|\| c`) built from non-`\|\|` leaves, the flattening gives back exactly those leaves, left to right. |
| PreferIncludesConditions.IndexOfGroup | src/rules/prefer-includes-conditions.ts:43-51 | The map lookup finds the group with that key, or reports that no group has it. |
| PreferIncludesConditions.GroupEqualityComparisons | src/rules/prefer-includes-conditions.ts:28-59 | The grouping has distinct keys. Each group holds exactly the `===` operands whose left side reads as its key, in chain order, each paired with its right operand. Every `===` operand has a group. The groups together hold exactly as many comparisons as the chain has `===` operands. |
| PreferIncludesConditions.AddOperandKeepsGroups | src/rules/prefer-includes-conditions.ts:34-56 | One iteration of the grouping loop keeps the grouping exact for the chain extended by one operand. |
| PreferIncludesConditions.TotalSizeUpdate | src/rules/prefer-includes-conditions.ts:53-54 | Growing one group changes the total size by exactly that group's growth. |
| PreferIncludesConditions.TotalSizeAppend | src/rules/prefer-includes-conditions.ts:44-48 | Adding a new group adds its size to the total. |
| PreferIncludesConditions.ComparisonsOfAbsent | src/rules/prefer-includes-conditions.ts:43-49 | A key that no operand compares has an empty reference group. |
| PreferIncludesConditions.ComparisonsOfSnoc | src/rules/prefer-includes-conditions.ts:34-56 | Extending the chain by one operand extends each reference group by at most that operand. |
| PreferIncludesConditions.FirstQualifying | src/rules/prefer-includes-conditions.ts:95-102 | The first group in map order with at least three values that covers every operand, or none when no group does. |
| PreferIncludesConditions.ComparisonsOfFull | src/rules/prefer-includes-conditions.ts:100-102 | A key's reference group has as many members as the chain has operands only when every operand compares that key. |
| PreferIncludesConditions.QualifyingGroupCoversChain | src/rules/prefer-includes-conditions.ts:95-102 | A group that fires holds every operand in order. Its key is the first operand's subject and its values are the right operands. |
| PreferIncludesConditions.UniformChainQualifies | src/rules/prefer-includes-conditions.ts:95-102 | When all of at least three operands are `===` on the first operand's subject, some group fires. |
| PreferIncludesConditions.QualifyingIffUniform | src/rules/prefer-includes-conditions.ts:92-102 | For any exact grouping of the chain, some group fires exactly when the chain has at least three operands, all `===` on the same subject text. |
| PreferIncludesConditions.QualifyingGroupIsChain | src/rules/prefer-includes-conditions.ts:95-112 | The group that fires has the first operand's subject as its key, holds every operand in chain order, and has their right operands as its values. |
| PreferIncludesConditions.AtMostOneGroupQualifies | src/rules/prefer-includes-conditions.ts:95-104 | No two groups of a chain both fire, so the rule reports at most once per chain. |
| PreferIncludesConditions.FixRange | src/rules/prefer-includes-conditions.ts:114-134 | Whenever the adjacent tokens' ranges are not crossed, the replaced range contains the node: it is never narrower than the node the rule reports. |
| PreferIncludesConditions.FixRangeStripsOneParenPair | src/rules/prefer-includes-conditions.ts:117-131 | For any node wrapped in a one-character `(` and `)` outside the five listed statements, the source is `prefix ( node ) suffix`, and the fix leaves `prefix replacement suffix`: exactly the node and its two parentheses are replaced. |
| PreferIncludesConditions.OnLogicalExpression | src/rules/prefer-includes-conditions.ts:80-137 | Only the outermost `\|\|` of a chain is considered. It is reported exactly when its flattened operands are at least three `===` on one subject text. The fix replaces the fix range with `[v1, ..., vn].includes(x)`, where the values are the right operands' texts in chain order and `x` is the subject text. |
| PreferIncludesConditions.CallArgumentOperands | src/rules/prefer-includes-conditions.ts:10-26 | The chain inside `f(a === 1 \|\| a === 2 \|\| a === 3)` flattens to its three comparisons. |
| PreferIncludesConditions.CallArgumentParensSwallowed | src/rules/prefer-includes-conditions.ts:117-134 | For `f(a === 1 \|\| a === 2 \|\| a === 3)`, with the call as parent and the call's `(` and `)` as the adjacent tokens, the code's fix replaces offsets 1 to 32, the call's own parentheses included, with `[1, 2, 3].includes(a)`. |
| PreferIncludesConditions.SwallowedCallText | src/rules/prefer-includes-conditions.ts:128-131 | Applying that fix turns the call into the member access `f[1, 2, 3].includes(a)`. |
| PreferIncludesConditions.CorrectedFixRange | src/rules/prefer-includes-conditions.ts:117-131 | The corrected range never swallows parentheses that belong to the parent's syntax (statement heads, `with`, call, `new` and `import` argument lists). In every other case it agrees with the code's range. |
| PreferIncludesConditions.CorrectedOnLogicalExpression | src/rules/prefer-includes-conditions.ts:80-137 | The corrected handler reports exactly the chains the code reports, with the same message and replacement text. It uses the corrected range, so it never replaces parentheses that belong to the parent. |
| PreferIncludesConditions.CorrectedFixKeepsCall | src/rules/prefer-includes-conditions.ts:117-134 | With the corrected range, the same call becomes `f([1, 2, 3].includes(a))`. |
| PreferFunctionOptionalChain.IsSameNameSpellsSameName | src/rules/prefer-function-optional-chain.ts:3-26 | Two expressions match exactly when both spell a name (identifiers and non-private member accesses only) and it is the same name, whether each access is computed or not. |
| PreferFunctionOptionalChain.IsSameNameSymmetric | src/rules/prefer-function-optional-chain.ts:3-26 | The name comparison is symmetric. |
| PreferFunctionOptionalChain.IsSameNameTransitive | src/rules/prefer-function-optional-chain.ts:3-26 | The name comparison is transitive. |
| PreferFunctionOptionalChain.IsSameNameReflexive | src/rules/prefer-function-optional-chain.ts:3-26 | An expression matches itself exactly when it spells a name. |
| PreferFunctionOptionalChain.ComputedAccessMatchesDotAccess | src/rules/prefer-function-optional-chain.ts:11-23 | `a[b]` matches `a.b`: the computed flag is not compared. |
| PreferFunctionOptionalChain.ArgumentsText | src/rules/prefer-function-optional-chain.ts:89-97 | The arguments' text is empty without arguments. Otherwise it runs from the start of the first argument to the end of the last, separators included. |
| PreferFunctionOptionalChain.OptionalCallInsertsChain | src/rules/prefer-function-optional-chain.ts:87-99 | For any call written `callee(arguments)`, the rewrite is that call's own text with `?.` inserted after the callee and `;` appended. |
| PreferFunctionOptionalChain.OnIfStatement | src/rules/prefer-function-optional-chain.ts:44-102 | A report is made exactly when all of these hold: the `if` has no `else`; its block holds one expression statement; that statement is a call; the guard is an identifier or member access that spells the same name as the callee. Then the whole `if` is replaced by `callee?.(args);`. |
| PreferFunctionOptionalChain.OnIfStatementRewritesCall | src/rules/prefer-function-optional-chain.ts:44-102 | When the guarded call is written `callee(arguments)` with nothing in between, every reported `if` is replaced by that same call with `?.` after the callee and `;` after it. |
| NoUnnecessaryTemplateLiteral.Escape | src/rules/no-unnecessary-template-literal.ts:33 | Escaping adds one character per `'`. Every `'` in the result is preceded by a backslash. A text without `'` is unchanged. No other character except the backslash is added or removed. |
| NoUnnecessaryTemplateLiteral.UnescapeEscape | src/rules/no-unnecessary-template-literal.ts:33 | Reading every `\'` back as `'` undoes the escaping, for every text. |
| NoUnnecessaryTemplateLiteral.Replacement | src/rules/no-unnecessary-template-literal.ts:32-34 | The replacement is the escaped text between single quotes. It is two characters plus the escapes longer than the text, and unescaping its body gives the text back. |
| NoUnnecessaryTemplateLiteral.EmptyTemplateReplacement | src/rules/no-unnecessary-template-literal.test.ts:37-41 | The empty template becomes `''`. |
| NoUnnecessaryTemplateLiteral.OnTemplateLiteral | src/rules/no-unnecessary-template-literal.ts:19-37 | A report is made exactly when the template has no expressions, a single chunk, and no line feed or carriage return in its text. The fix replaces the template with the quoted replacement. |
| NoUnnecessaryTemplateLiteral.ReplacementPreservesBackslashFreeText | src/rules/no-unnecessary-template-literal.ts:32-34 | For a text without backslashes or line breaks, the replacement is a JavaScript string literal whose value is the text. |
| NoUnnecessaryTemplateLiteral.EscapeDecodes | src/rules/no-unnecessary-template-literal.ts:33 | The escaped body of such a text decodes to the text. |
| NoUnnecessaryTemplateLiteral.BackslashBreaksReplacement | src/rules/no-unnecessary-template-literal.ts:33 | The template `` `\\` `` (one backslash) becomes `'\'`, which is not a string literal. |
| NoUnnecessaryTemplateLiteral.EscapeQuotesAndBackslashes | src/rules/no-unnecessary-template-literal.ts:33 | Corrected escaping adds one character per `'` and per backslash, and leaves a text with neither unchanged. |
| NoUnnecessaryTemplateLiteral.CorrectedReplacement | src/rules/no-unnecessary-template-literal.ts:32-34 | The corrected replacement has the expected length, and agrees with the code's replacement on texts without `'` and backslashes. |
| NoUnnecessaryTemplateLiteral.CorrectedReplacementPreservesText | src/rules/no-unnecessary-template-literal.ts:32-34 | For every text without line breaks, the corrected replacement is a string literal whose value is the text. |
| NoUnnecessaryTemplateLiteral.TaggedTemplateRewritten | src/rules/no-unnecessary-template-literal.ts:19-37 | The handler does not look at the parent, so the template of `` String.raw`x` `` is reported too, and the fix leaves `String.raw'x'`. |
| NoUnnecessaryTemplateLiteral.CorrectedOnTemplateLiteral | src/rules/no-unnecessary-template-literal.ts:19-37 | The corrected handler reports exactly the templates the code reports, except those of tagged templates. It replaces the template with a string literal whose value is the template's text. |
| NoUnnecessaryTemplateLiteral.CorrectedEscapeDecodes | src/rules/no-unnecessary-template-literal.ts:33 | The corrected escaped body decodes to the text. |

## Left out

- src/index.ts and src/rules/index.ts: the plugin and rule registries, which only export the rules.
- eslint.config.mjs and test/setup.ts: configuration of the host and of the test runner.
- Rule metadata and message templates: a report carries the message kind, and the explicit-comparison message carries its comparison text. The rendered sentence is not modelled.
- The host: the parser, the AST traversal, the token store and `context.report`. Handlers receive the node, its parent, the adjacent tokens and the source text as parameters, and return the report as a value.
- The TypeScript type checker, the parser services and the declared-type lookup for identifiers (explicit-boolean-check.ts:119-134 and 167-184). They are replaced by one optional type parameter: absent when there is no type information, otherwise the type the checker would hand the classifier.
- Type flags: a type is modelled as the set of flags the classifier tests, plus `Other` for every untested flag. The bit layout of `ts.TypeFlags` is not modelled.
- Template cooking: a template chunk arrives with its raw text and, when its escapes are valid, its cooked text. The parser's decoding of template escapes is not modelled.
- Characters: the host counts offsets in UTF-16 code units, and the model treats text as a sequence of Unicode characters. Node and token offsets are taken to count the same units as the text. The rules' operations give the same results under either encoding when the offsets are counted consistently: they slice by offset, compare texts, and look for `'`, `\`, line feed and carriage return.
- PreferIncludesConditions.BuildRoundTrip: every `||` node of the rebuilt tree gets one shared range, because the flattening never looks at ranges.
- ExplicitBooleanCheck.ParentBindsTighter: the corrected rewrite decides from the parent's kind and operator alone. It also parenthesises where the node is the left operand of an equality, which is harmless but not needed.
- NoUnnecessaryTemplateLiteral.EscapedChar: the string-literal decoder used to judge the rewrite rejects `\0`, other digit escapes, `\x`, `\u` and line continuations rather than decoding them. The rewrite never produces those forms from a backslash-free text.

## Findings

| source | as written | input that shows it | evidently intended | confidence | as-written member | corrected member |
|---|---|---|---|---|---|---|
| src/rules/prefer-includes-conditions.ts:117-126 | The paren test counts the touching `(` and `)` around the chain as removable unless the parent is one of five statements; a call's argument-list parentheses also touch a sole argument | `f(a === 1 \|\| a === 2 \|\| a === 3)` is rewritten to `f[1, 2, 3].includes(a)`, which no longer calls `f` | Parentheses that belong to the parent's syntax (calls, `new`, dynamic `import`, `with`, and the listed statements) stay; the result is `f([1, 2, 3].includes(a))` | not executed | PreferIncludesConditions.CallArgumentParensSwallowed | PreferIncludesConditions.CorrectedFixKeepsCall |
| src/rules/no-unnecessary-template-literal.ts:33 | Only `'` is escaped in the replacement; backslashes in the cooked text are copied as they are | The template `` `\\` `` (cooked text: one backslash) becomes `'\'`, an unterminated string literal | Backslashes are doubled as well, so the string literal's value is the template's text | not executed | NoUnnecessaryTemplateLiteral.BackslashBreaksReplacement | NoUnnecessaryTemplateLiteral.CorrectedOnTemplateLiteral |
| src/rules/no-unnecessary-template-literal.ts:19-37 | Every template without interpolation is rewritten, whatever its parent; in a tagged template the template is the tag's argument list, not a string | `` String.raw`x` `` becomes `String.raw'x'`, a tag followed by a string literal, which is not an expression | Templates of tagged templates are left alone | not executed | NoUnnecessaryTemplateLiteral.TaggedTemplateRewritten | NoUnnecessaryTemplateLiteral.CorrectedOnTemplateLiteral |
| src/rules/explicit-boolean-check.ts:198-205 | The comparison replaces the negation in place, without regard to the parent's precedence | `!x < y` with `x` a boolean becomes `x === false < y`, which reads `x === (false < y)` | The rewrite is parenthesised when the parent binds tighter than an equality: `(x === false) < y` | not executed | ExplicitBooleanCheck.RelationalParentSplitsComparison | ExplicitBooleanCheck.CorrectedOnUnaryExpression |
