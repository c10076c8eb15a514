# konstraint `rego` policy-header matchers

A model of the policy-header annotation parser in konstraint's `rego`
package. A policy's header comment lines arrive with their comment markers
already removed. The parser turns them into a `Matchers` value. That value
says which Kubernetes resources the policy applies to:

- `@kinds group/Kind …` lines build `KindMatchers`. There is one
  `KindMatcher{APIGroup, Kinds}` per API group. `core` is normalised to the
  empty group `""`. Kinds are de-duplicated and sorted, and the core group
  comes first.
- `@matchlabels key=value …` lines build `MatchLabelsMatcher`. It is one map
  merged across all lines.
- `@matchExpression key operator [v1,v2,…]` lines build the
  `MatchExpressionsMatcher` list. There is one
  `MatchExpressionMatcher{Key, Operator, Values}` per line, in line order.
  A line with other than 2 or 3 arguments is an error.
- `getStringListMatcher(tag, comment)` is the tokenizer underneath. It fails
  when the line does not carry the tag, or when the tag has no arguments.
  Otherwise it returns the whitespace-separated arguments.

Layout:

- `wrappers.dfy` holds `Result`. Go's `(value, error)` pairs become
  `Ok(value)` or `Err(error)`.
- `text.dfy` holds Go's whitespace (`unicode.IsSpace`) and `strings.Fields`.
  It also holds splitting and joining at a separator, with their round
  trips.
- `order.dfy` holds the code-point string order used for sorting, proved a
  strict total order. It also holds sorted insertion into a strictly sorted
  list.
- `rego.dfy` holds the parser: the tokenizer, the three builders, and
  `Rego.Matchers()`. It also defines `AnnotationLine(tag, words)`, the
  line written as the tag, one space, then the words separated by single
  spaces.
- `matchers_test.dfy` proves every row of the package's table-driven tests
  as a lemma. A test line is written with `AnnotationLine`, so
  `AnnotationLine(KindsTag, ["core/Pod"])` is the line `@kinds core/Pod`.

The kind builder folds the `@kinds` arguments into a canonical form by
sorted insertion. In that form the groups are strictly ascending, and so
are the kinds within each group. Since `""` is the least string, the core
group is first. The canonical form is unique for a given set of
(group, kind) pairs. From that, the model proves that the order and
repetition of the arguments cannot change the result.

## Model

| member | source | states |
|---|---|---|
| Rego.GetStringListMatcher | porno/rego/matchers_test.go:176-212 | fails exactly when the tag is missing (`TagMismatch`) or followed only by whitespace (`NoArguments`); on success a non-empty list of words such that what follows the tag is exactly those words with a non-empty run of whitespace between each two, so each word is a maximal run of non-whitespace |
| Rego.GetStringListMatcherWeave | porno/rego/matchers_test.go:188-198 | a tag followed by any words separated by any non-empty runs of whitespace, with whitespace after the tag and optionally at the end, yields exactly those words |
| Rego.GetStringListMatcherRoundTrip | porno/rego/matchers_test.go:194-198 | a tag followed by words separated by single spaces yields exactly those words |
| Rego.AnnotationLineFields | porno/rego/matchers_test.go:194-198 | a line written as a tag, a space and space-separated words carries the tag, and the fields after the tag are exactly those words |
| Rego.EmptyTag | porno/rego/matchers_test.go:184-187 | the empty tag is carried by exactly the lines that are empty or start with whitespace |
| Rego.TagsExclusive | porno/rego/matchers_test.go:133-144 | a line carries at most one of `@kinds`, `@matchlabels`, `@matchExpression`, so it feeds at most one builder |
| Rego.TaggedArgs | porno/rego/matchers_test.go:8-12 | the arguments of all lines carrying a tag: fails exactly when some such line is bare, with `NoArguments`; otherwise a token is in the result iff some line gives it as an argument |
| Rego.TaggedArgsAppend | porno/rego/matchers_test.go:8-12 | the arguments of two runs of lines are those of the first run followed by those of the second; an error in the first run wins |
| Rego.NormalizeGroup | porno/rego/matchers_test.go:39-43 | the group is the core group `""` exactly when written `core` or empty, and any group other than `core` is kept as written |
| Rego.KindTokenOf | porno/rego/matchers_test.go:39-43 | `group/Kind` reads back as the normalised group and the kind, so `core/Pod` is (`""`, `Pod`) |
| Rego.KindTokenBare | porno/rego/matchers_test.go:39-43 | a token without `/` is a kind of the core group (not exercised by the tests) |
| Rego.AddKind | porno/rego/matchers_test.go:44-58 | adding one (group, kind) pair keeps the matchers canonical, lists exactly the old pairs plus the new one, and keeps every lower bound on the groups |
| Rego.KindMatchersOf | porno/rego/matchers_test.go:39-74 | the kind matchers of a run of `@kinds` arguments are canonical and list exactly the (group, kind) pairs of the arguments |
| Rego.KindMatchersCanonical | porno/rego/matchers_test.go:49-58 | two canonical kind matchers listing the same pairs are equal |
| Rego.KindMatchersOrderIndependent | porno/rego/matchers_test.go:44-74 | argument lists with the same tokens, in any order and with any repetition, give equal kind matchers |
| Rego.CoreGroupFirst | porno/rego/matchers_test.go:59-74 | in canonical kind matchers the core-group entry, when present, is the first |
| Rego.GroupsDistinct | porno/rego/matchers_test.go:59-74 | in canonical kind matchers no two entries share an API group |
| Rego.LabelTokenOf | porno/rego/matchers_test.go:99-103 | `key=value` splits at its first `=` into the key and the value, whatever the value holds |
| Rego.MatchLabelsOf | porno/rego/matchers_test.go:90-114 | the label map holds exactly the keys of the arguments, each with the value of the last argument that sets it |
| Rego.MatchLabelsSnoc | porno/rego/matchers_test.go:90-103 | one more argument overwrites, or adds, its key with its value |
| Rego.MatchLabelsMerge | porno/rego/matchers_test.go:90-103 | the labels of two runs of arguments are the union of the two maps, the later run winning on a shared key |
| Rego.ParseExpression | porno/rego/matchers_test.go:126-158 | a `@matchExpression` line fails exactly when its argument count is not 2 or 3, and the error names the line; on success `Values` is empty exactly when there are 2 arguments; which words become key, operator and values is stated by `Rego.ParseExpressionWeave` |
| Rego.ParseExpressionWeave | porno/rego/matchers_test.go:126-158 | a `@matchExpression` line whose arguments are separated by whitespace runs of any length gives key and operator with no values for 2 arguments, key, operator and the third argument split at commas for 3, and an arity error naming the line otherwise |
| Rego.ParseExpressionRoundTrip | porno/rego/matchers_test.go:126-144 | a matcher written as key, operator and comma-joined values parses back to itself |
| Rego.MatchExpressions | porno/rego/matchers_test.go:133-158 | fails exactly when some `@matchExpression` line has the wrong count, naming the first such line; otherwise as many matchers as there are `@matchExpression` lines |
| Rego.MatchExpressionsTagged | porno/rego/matchers_test.go:133-144 | on success the k-th matcher is the parse of the k-th `@matchExpression` line, so other lines contribute nothing and line order is kept |
| Rego.MatchExpressionsSnoc | porno/rego/matchers_test.go:133-144 | one more line adds its matcher, or its error, when it carries the tag, and changes nothing otherwise |
| Rego.MatchExpressionsOne | porno/rego/matchers_test.go:145-158 | one line yields its matcher or its error when it carries the tag, and nothing when it does not |
| Rego.MatchExpressionsAppend | porno/rego/matchers_test.go:133-144 | the matchers of two runs of lines are those of the first run followed by those of the second, in line order |
| Rego.Rego.Matchers | porno/rego/matchers_test.go:161-171 | fails exactly when a `@kinds` or `@matchlabels` line is bare or a `@matchExpression` line has the wrong count; the error is `NoArguments("@kinds")` when a `@kinds` line is bare, else `NoArguments("@matchlabels")` when a `@matchlabels` line is bare, else `InvalidExpressionArity` naming the first bad expression line; on success the kind matchers are canonical and list exactly the pairs of the `@kinds` lines, the labels hold exactly the keys of the `@matchlabels` arguments, each with the value of the last argument that sets it, and the k-th expression is the parse of the k-th `@matchExpression` line |
| Text.Fields | porno/rego/matchers_test.go:194-198 | splits at runs of whitespace: every piece is a word, none exist exactly when the input is blank, and together they are the input without its whitespace |
| Text.FieldsWeave | porno/rego/matchers_test.go:188-198 | words separated by any non-empty runs of whitespace, with any whitespace before and after, split back into exactly those words |
| Text.FieldsWoven | porno/rego/matchers_test.go:188-198 | every input is its fields with runs of whitespace around them, non-empty between each two, so the fields are the maximal runs of non-whitespace |
| Text.FieldsUnwords | porno/rego/matchers_test.go:194-198 | words joined with single spaces split back into those words |
| Text.Split | porno/rego/matchers_test.go:128-130 | splitting at a separator gives at least one piece, no piece holds the separator, and joining the pieces gives back the input |
| Text.SplitJoin | porno/rego/matchers_test.go:128-130 | separator-free pieces joined at the separator split back into those pieces |
| Order.LessTransitive | porno/rego/matchers_test.go:49-58 | the string order used for sorting kinds and groups is transitive |
| Order.LessTotal | porno/rego/matchers_test.go:49-58 | any two different strings are ordered one way or the other |
| Order.Insert | porno/rego/matchers_test.go:44-58 | sorted insertion keeps a list strictly sorted, its elements are the old ones plus the new one, and inserting a present element changes nothing |
| Order.InsertLater | porno/rego/matchers_test.go:49-53 | an element sorting after the first is inserted into the rest, and the first stays in front of a strictly sorted result |
| Order.SortedUnique | porno/rego/matchers_test.go:54-58 | two strictly sorted lists with the same elements are equal |
| MatchersTest.MultilineKindMatchers | porno/rego/matchers_test.go:8-31 | `@kinds core/Pod apps/Deployment` and `@kinds apps/StatefulSet` give `[{"",[Pod]},{apps,[Deployment,StatefulSet]}]` and nothing else |
| MatchersTest.TwoKindsLines | porno/rego/matchers_test.go:8-12 | two `@kinds` lines give their arguments in line order, and nothing to the other builders |
| MatchersTest.KindMatchersCorePod | porno/rego/matchers_test.go:39-43 | `@kinds core/Pod` gives `[{"",[Pod]}]` |
| MatchersTest.KindMatchersCorePodTwice | porno/rego/matchers_test.go:44-48 | `@kinds core/Pod core/Pod` gives `[{"",[Pod]}]` |
| MatchersTest.KindMatchersAppsAscending | porno/rego/matchers_test.go:49-53 | `@kinds apps/Deployment apps/StatefulSet` gives `[{apps,[Deployment,StatefulSet]}]` |
| MatchersTest.KindMatchersAppsDescending | porno/rego/matchers_test.go:54-58 | `@kinds apps/StatefulSet apps/Deployment` gives `[{apps,[Deployment,StatefulSet]}]` |
| MatchersTest.KindMatchersCoreLast | porno/rego/matchers_test.go:59-66 | `@kinds apps/Deployment apps/StatefulSet core/Pod` gives the core entry first |
| MatchersTest.KindMatchersCoreBetween | porno/rego/matchers_test.go:67-74 | `@kinds apps/Deployment core/Pod apps/StatefulSet` gives the core entry first |
| MatchersTest.TwoLabelsLines | porno/rego/matchers_test.go:91-94 | two `@matchlabels` lines give their arguments in line order, and nothing to the other builders |
| MatchersTest.MatchLabelsTwoLines | porno/rego/matchers_test.go:90-114 | the two `@matchlabels` lines give the map of all three keys with their values |
| MatchersTest.MatchExpressionsEmpty | porno/rego/matchers_test.go:123-125 | no lines give empty matchers and no error |
| MatchersTest.MatchExpressionsSingle | porno/rego/matchers_test.go:126-132 | `@matchExpression foo In bar,baz` gives `[{foo, In, [bar, baz]}]` |
| MatchersTest.TwoExpressionLines | porno/rego/matchers_test.go:135-137 | two well-formed `@matchExpression` lines give their matchers in line order, and nothing to the other builders |
| MatchersTest.MatchExpressionsDoubleWithUnrelated | porno/rego/matchers_test.go:133-144 | two expression lines and an unrelated line give `[{foo, In, [bar, baz]}, {doggos, Exists, []}]` |
| MatchersTest.BadArity | porno/rego/matchers_test.go:145-158 | a `@matchExpression` line of words with fewer than 2 (none included) or more than 3 arguments makes the whole header fail, naming that line |
| MatchersTest.MatchExpressionsTooFewParams | porno/rego/matchers_test.go:145-151 | `@matchExpression foo` fails with `InvalidExpressionArity` naming the line |
| MatchersTest.MatchExpressionsTooManyParams | porno/rego/matchers_test.go:152-158 | `@matchExpression foo In bar baz` fails with `InvalidExpressionArity` naming the line |
| MatchersTest.StringListInvalidTag | porno/rego/matchers_test.go:184-187 | the empty tag on the empty comment is an error |
| MatchersTest.StringListNoValuesSupplied | porno/rego/matchers_test.go:188-193 | `@foo` followed by spaces is an error |
| MatchersTest.StringListValid | porno/rego/matchers_test.go:194-199 | `@foo bar baz` with tag `@foo` gives `[bar, baz]` |

## Left out

- The implementation file of the `rego` package is not part of this model. The model follows the behaviour its tests pin down. Where the tests are silent, it follows the package's documented design. The choices made there are listed below.
- Reading policy files and extracting their header comments is I/O. `headerComments` is given as input.
- The command-line entry point (`main.go`) is plumbing with nothing to state.
- Evaluating policies and generating documents or constraints from the matchers are done by other parts of the tool.
- Go tells a `nil` slice from an empty one under `reflect.DeepEqual`. Both are the empty `seq` here.
- On error, the expression tests check that the `MatchExpressionsMatcher` field beside the error is `nil` (porno/rego/matchers_test.go:164-170); the other tests stop at any error. The model returns `Err` with no matchers at all.
- Rego.KindTokenBare: a `@kinds` token without `/` is taken as a kind of the core group, named by the whole token. This is a design assumption, not a tested behaviour.
- Rego.LabelToken: a `@matchlabels` token without `=` is taken as the key with the empty value. This is a design assumption.
- Rego.MatchLabelsOf: when a key repeats, the last occurrence wins. This is a design assumption, since the tests never repeat a key.
- Rego.Rego.Matchers: the builders run in a fixed order (kinds, then labels, then expressions), so the first failing builder's error is the one returned. Within a builder, the first offending line wins. The tests only ask for some error.
- MatchersTest.StringListInvalidTag: the test's comment expects the empty tag not to match. Here the empty tag does match the empty line, since the end of the line follows it, and the error is `NoArguments("")` rather than `TagMismatch`. The test asks only for an error, which both give.
- Whitespace is Go's `unicode.IsSpace` over Unicode code points. The string order is by code point, which agrees with Go's byte order on UTF-8. Invalid UTF-8 is not modelled.
