# Template: a verified model of a small string-templating engine

This project models the `Template` class of `src/main/java/org/example/Template.java`.
A template holds a text with placeholders `${name}`, where `name` is one or more
ASCII word characters (letters, digits, `_`). The class works in three steps.

- **Construction.** It stores the text and rejects it when a placeholder literal
  occurs twice.
- **Validation.** `evaluate(parameters)` first checks that there are exactly as
  many parameters as placeholder occurrences. Only the count is compared, never
  the keys. It then checks that no value contains a non-word character.
- **Substitution.** It replaces `${key}` by the value, one parameter entry after
  another, in the map's iteration order.

The model is split into four modules.

- `Scanner` (`scanner.dfy`) is a hand-written scanner for the pattern `\$\{\w+\}`.
  `LeadingPlaceholder` says whether a text starts with a placeholder.
  `ScanFrom`/`Scan` list the matches left to right, resuming after each match,
  as `Matcher.results()` does.
- `Substitution` (`substitution.dfy`) models the substitution machinery.
  - Parameters are a sequence of distinct-key `Entry` values: the entry set in
    its iteration order.
  - `ReplaceAll` is `String.replaceAll` with a literal pattern.
  - `ReplaceEach` is the substitution loop as a fold.
  - `Expand` is a reference substitution that replaces all placeholders at once.
  - The lemmas relate the three.
- `Templates` (`template.dfy`) holds the validators, `EvaluateWith`, and the
  class `Template`. The class has a `const text`, a constructor, a
  `New` method that fails where the Java constructor throws, and the
  `Evaluate` and `Substitute` methods. `Substitute` keeps the source's loop,
  with an invariant tying the working string to the entries processed so far.
- `TemplateCases` (`template_cases.dfy`) holds the scenarios of
  `src/test/java/org/example/TemplateTest.java` and a text on which the order of
  the entries changes the result.

**Order of entries.** The substitution loop is often read as independent of the
map's iteration order once values are words. The code does not have that
property in general. Take the text `${${a}}${b}` with `{a: "b", b: "Z"}`:

- the scanner sees two distinct placeholders, `${a}` and `${b}`, so
  construction and validation pass;
- replacing `a` first builds a new `${b}`, and the result is `ZZ`;
- replacing `b` first gives `${b}Z`.

`TemplateCases.EvaluateOrderDependent` proves both results. The model follows
the code.

Order independence is proved under the condition `SafeDollars`: every `$` that
begins no placeholder is *lone*, meaning it is the last character or the next
character is neither `{` nor `$`. Such texts include amounts like
`$5 ${a} ${b}` (`TemplateCases.DollarAmountOrderIndependent`).

Asking only that every `${` begin a placeholder is not enough, because the
value check accepts the empty value. Take `$${a}{b}${b}` with
`{a: "", b: "Z"}`. Emptying `${a}` first joins `$` and `{b}` into a new
`${b}`, and the result is `ZZ`; the other order gives `${b}Z`
(`TemplateCases.EmptyValueOrderDependent`).

## Model

| member | source | states |
|---|---|---|
| Scanner.Expression | src/main/java/org/example/Template.java:59-61 | definition of `createExpression`: `${` + key + `}`; properties in Templates.ExpressionInjective and Scanner.LeadingPlaceholderIff |
| Scanner.LeadingPlaceholder | src/main/java/org/example/Template.java:11-13 | the pattern matched at the front of a text: a match has a non-empty name and fits in the text, starting with `$`; the rest in Scanner.LeadingPlaceholderSound and Scanner.LeadingPlaceholderIff |
| Scanner.ScanFrom | src/main/java/org/example/Template.java:63-65 | definition of the matcher's left-to-right search from a position, resuming after each match; properties in Scanner.ScanFromSound, Scanner.ScanFromComplete and Scanner.ScanFromOrdered |
| Scanner.Scan | src/main/java/org/example/Template.java:63-65 | definition of `getExpressions`; properties in Scanner.ScanExact, Scanner.ScanOrdered and Scanner.ScanEmptyIff |
| Scanner.WordRunLengthMaximal | src/main/java/org/example/Template.java:13 | `\w+` is greedy: the run taken is all word characters and the next character, if any, is not one |
| Scanner.LeadingPlaceholderSound | src/main/java/org/example/Template.java:11-13 | a placeholder found at the front has a word name and the text starts with the literal `${name}` |
| Scanner.LeadingPlaceholderIff | src/main/java/org/example/Template.java:11-13 | the text starts with the placeholder `name` exactly when it starts with the literal `${name}` |
| Scanner.NoPlaceholderInside | src/main/java/org/example/Template.java:11-13 | no placeholder starts strictly inside another placeholder literal, so matches cannot overlap |
| Scanner.ScanFromSound | src/main/java/org/example/Template.java:63-65 | every reported match lies in the text at or after the scan start and is a placeholder there |
| Scanner.ScanFromComplete | src/main/java/org/example/Template.java:63-65 | every placeholder that starts at or after the scan start is reported |
| Scanner.ScanExact | src/main/java/org/example/Template.java:63-65 | a match is reported iff its literal `${name}` occurs at its start position |
| Scanner.ScanOrdered | src/main/java/org/example/Template.java:63-65 | matches come in strictly increasing start order and each ends before the next begins |
| Scanner.ScanEmptyIff | src/main/java/org/example/Template.java:63-65 | the scan is empty iff no placeholder literal occurs anywhere in the text |
| Substitution.ToMap | src/main/java/org/example/Template.java:52 | the map whose entry set iterates as the sequence: every entry's key is a key, and every key comes with its value from some entry; the rest in Substitution.ToMapSize and Substitution.ToMapValueAt |
| Substitution.ReplaceAll | src/main/java/org/example/Template.java:54 | definition of `replaceAll` with a literal pattern: leftmost occurrences replaced, the search resuming after each; properties in Substitution.ReplaceAllAbsent, Substitution.ReplaceAllSkip and Substitution.ReplaceAllIsExpand |
| Substitution.ReplaceEach | src/main/java/org/example/Template.java:50-57 | definition of the `substitute` loop as a fold over the entries; properties in Substitution.ReplaceEachIsExpand, Substitution.ReplaceEachOrderIndependent and Substitution.ReplaceEachUnusedKeys |
| Substitution.Expand | src/main/java/org/example/Template.java:50-57 | reference definition: every placeholder the scanner finds replaced at once by `Substitution.Replacement`; related to the loop by Substitution.ReplaceAllIsExpand and Substitution.ReplaceEachIsExpand |
| Substitution.ToMapSize | src/main/java/org/example/Template.java:47 | a map whose entry set iterates as a distinct-key sequence has as many keys as entries (`parameters.size()`) |
| Substitution.ToMapValueAt | src/main/java/org/example/Template.java:52 | each entry of the iteration carries the map's value for its key |
| Substitution.ReplaceAllAbsent | src/main/java/org/example/Template.java:54 | `replaceAll` of a pattern that occurs nowhere leaves the text unchanged |
| Substitution.ReplaceAllSkip | src/main/java/org/example/Template.java:54 | positions where the pattern does not start are copied unchanged |
| Substitution.ReplaceAllIsExpand | src/main/java/org/example/Template.java:53-54 | one `replaceAll` of `${k}` replaces exactly the placeholders named `k` that the scanner finds and copies everything else |
| Substitution.ExpandNoKeys | src/main/java/org/example/Template.java:50-57 | with no entries the reference substitution returns the text itself |
| Substitution.SafeDollarsIff | src/main/java/org/example/Template.java:11-13 | the scanner-step reading of "every `$` that begins no placeholder is lone" agrees with the position-by-position reading |
| Substitution.ExpandCompose | src/main/java/org/example/Template.java:52-55 | on a text whose stray `$` are all lone, substituting word values for some keys and then for other keys is one simultaneous substitution for all of them |
| Substitution.ReplaceEachIsExpand | src/main/java/org/example/Template.java:50-57 | on a text whose stray `$` are all lone, with name keys and word values, the loop computes the simultaneous substitution with the whole map |
| Substitution.ReplaceEachOrderIndependent | src/main/java/org/example/Template.java:52-55 | under the same conditions, two enumerations of one map give the same result |
| Substitution.ReplaceEachUnusedKeys | src/main/java/org/example/Template.java:52-55 | keys whose `${key}` occurs nowhere in the text leave it unchanged |
| Templates.UniqueExpressionsCount | src/main/java/org/example/Template.java:67-69 | definition of `getUniqueExpressionsCount`: the size of the set of match literals; properties in Templates.DistinctIffSetSize and Templates.UniqueExpressionsIff |
| Templates.HasUniqueExpressions | src/main/java/org/example/Template.java:23-27 | definition of the test in `validateTemplateText`; characterised by Templates.UniqueExpressionsIff |
| Templates.IsIncomplete | src/main/java/org/example/Template.java:46-48 | definition of `isIncomplete`: the parameter count differs from the match count; used by Templates.EvaluateFailures |
| Templates.HasNonWordChar | src/main/java/org/example/Template.java:14 | definition of the `INVALID_VALUE` test; characterised by Templates.ValueCheckIsWord |
| Templates.IsNotValid | src/main/java/org/example/Template.java:40-44 | definition of `isNotValid`: some value has a non-word character; properties in Templates.SameMapSameValueCheck and Templates.EvaluateFailures |
| Templates.Validate | src/main/java/org/example/Template.java:34-38 | definition of `validate`, count before values; its outcomes in Templates.EvaluateFailures |
| Templates.EvaluateWith | src/main/java/org/example/Template.java:29-32 | definition of `evaluate` on an entry sequence; properties in the Templates.Evaluate* lemmas and Templates.Template.Evaluate |
| Templates.Literals | src/main/java/org/example/Template.java:68 | the group of each match is its literal `${name}`, one per match, in order |
| Templates.DistinctIffSetSize | src/main/java/org/example/Template.java:67-69 | the set of a sequence is never larger than the sequence, and is as large exactly when no element repeats |
| Templates.ExpressionInjective | src/main/java/org/example/Template.java:59-61 | two placeholder literals are equal iff their names are |
| Templates.UniqueExpressionsIff | src/main/java/org/example/Template.java:23-27 | the construction check (distinct-literal count equals match count) passes iff no two matches share a name |
| Templates.ValueCheckIsWord | src/main/java/org/example/Template.java:14 | a value passes the character check iff it is a word; the empty value passes |
| Templates.EvaluateWithoutPlaceholders | src/main/java/org/example/Template.java:29-32 | a text without placeholders evaluates to itself with no parameters and fails the completeness check with any non-empty map |
| Templates.EvaluateFailures | src/main/java/org/example/Template.java:34-48 | a wrong parameter count fails whatever the keys; with the right count, failure on values happens iff some value holds a non-word character; evaluation never reports a malformed template |
| Templates.EvaluateIgnoresUnusedKeys | src/main/java/org/example/Template.java:50-57 | if no parameter's `${key}` occurs in the text, a successful evaluation returns the text unchanged |
| Templates.EvaluateSubstitutes | src/main/java/org/example/Template.java:50-57 | on a text whose stray `$` are all lone, a successful evaluation replaces each placeholder named by a key with its value and copies everything else |
| Templates.SameMapSameValueCheck | src/main/java/org/example/Template.java:40-44 | the value check depends only on the map, not on its iteration order |
| Templates.EvaluateOrderIndependent | src/main/java/org/example/Template.java:52-55 | on a text whose stray `$` are all lone, with name keys, two iteration orders of one map give the same outcome |
| Templates.Template.constructor | src/main/java/org/example/Template.java:18-21 | the stored text is the given one and has no repeated placeholder literal |
| Templates.Template.DistinctPlaceholders | src/main/java/org/example/Template.java:23-27 | in a constructed template no two matches share a name |
| Templates.Template.New | src/main/java/org/example/Template.java:18-27 | construction fails, as a malformed template, iff some placeholder literal repeats; otherwise a fresh template holds the text |
| Templates.Template.Evaluate | src/main/java/org/example/Template.java:29-38 | the result is `EvaluateWith(text, parameters)`, and it fails iff the count is wrong or some value holds a non-word character; it modifies nothing, so repeated calls with the same parameters agree |
| Templates.Template.Substitute | src/main/java/org/example/Template.java:50-57 | the loop computes `ReplaceEach`: one `replaceAll` of `${key}` per entry, in iteration order |
| TemplateCases.ScanPlain | src/main/java/org/example/Template.java:63-65 | a text without `$` has no matches |
| TemplateCases.ScanTwoPlaceholders | src/main/java/org/example/Template.java:63-65 | plain text, a placeholder, plain text, a placeholder: exactly two matches, at the expected positions |
| TemplateCases.EvaluatePlain | src/main/java/org/example/Template.java:29-32 | a text without `$` is accepted and evaluates to itself with no parameters |
| TemplateCases.EvaluateTwoPlaceholders | src/main/java/org/example/Template.java:50-57 | the two-placeholder shape with word values evaluates to the text with both values in place, in either entry order |
| TemplateCases.RejectsNonWordValue | src/main/java/org/example/Template.java:40-44 | with the right count, a non-word value makes evaluation fail on values, in either entry order |
| TemplateCases.TextWithoutExpressions | src/test/java/org/example/TemplateTest.java:26-30 | "My name is Jan Kowalski" is accepted and evaluates to itself with no parameters |
| TemplateCases.RepeatedExpressionRejected | src/test/java/org/example/TemplateTest.java:32-35 | "My name is ${firstName} ${firstName}" is rejected at construction |
| TemplateCases.TwoPlaceholderText | src/test/java/org/example/TemplateTest.java:23-24 | the scan of "My name is ${firstName} ${lastName}" is `firstName` at 11 and `lastName` at 24, and the text is accepted |
| TemplateCases.SubstitutesValues | src/test/java/org/example/TemplateTest.java:41-46 | with firstName Jan and lastName Kowalski the result is "My name is Jan Kowalski", in either entry order |
| TemplateCases.MissingValues | src/test/java/org/example/TemplateTest.java:48-52 | the two-placeholder text with no parameters fails the completeness check |
| TemplateCases.NonAlphanumericValue | src/test/java/org/example/TemplateTest.java:54-59 | a value "@@" makes evaluation fail on values, in either entry order |
| TemplateCases.ScanNested | src/main/java/org/example/Template.java:63-65 | in `${${a}}${b}` the scanner finds `${a}` at 2 and `${b}` after the closing brace |
| TemplateCases.NestedInnerFirst | src/main/java/org/example/Template.java:52-55 | replacing `a` by `b` first builds a second `${b}`, and both are then replaced |
| TemplateCases.NestedOuterFirst | src/main/java/org/example/Template.java:52-55 | replacing `b` first leaves the `${b}` that `a`'s replacement builds afterwards |
| TemplateCases.EvaluateNested | src/main/java/org/example/Template.java:29-57 | `${${a}}${b}` is accepted and both orders pass validation, with results `vv` and `${b}v` |
| TemplateCases.EvaluateOrderDependent | src/main/java/org/example/Template.java:52-55 | one map, two iteration orders, two different successful results (`ZZ` and `${b}Z`) |
| TemplateCases.LoneDollarText | src/main/java/org/example/Template.java:52-55 | a `$` followed by plain text not starting with `{`, then placeholders with plain text between, meets the order-independence condition |
| TemplateCases.DollarAmountOrderIndependent | src/main/java/org/example/Template.java:52-55 | `$5 ${a} ${b}` meets the condition, and the two entry orders give the same outcome for all values |
| TemplateCases.ScanDollarBeforePlaceholder | src/main/java/org/example/Template.java:63-65 | in `$${a}{b}${b}` the scanner finds `${a}` at 1 and `${b}` at the end, and not `{b}` |
| TemplateCases.EmptyValueFirst | src/main/java/org/example/Template.java:52-55 | emptying `${a}` first joins `$` and `{b}` into a second `${b}`, and both are then replaced |
| TemplateCases.EmptyValueLast | src/main/java/org/example/Template.java:52-55 | replacing `${b}` first leaves the `${b}` that emptying `${a}` builds afterwards |
| TemplateCases.EmptyValueTextOpenings | src/main/java/org/example/Template.java:11-13 | every `${` of `$${a}{b}${b}` begins a placeholder |
| TemplateCases.EvaluateEmptyValue | src/main/java/org/example/Template.java:29-57 | `$${a}{b}${b}` is accepted, and with an empty value for `a` both orders pass validation, with results `vv` and `${b}v` |
| TemplateCases.EmptyValueOrderDependent | src/main/java/org/example/Template.java:52-55 | a text whose every `${` begins a placeholder, one map, two iteration orders, two different results (`ZZ` and `${b}Z`) |

## Left out

- The general regular-expression engine: only the fixed pattern `\$\{\w+\}` is modelled, by a hand-written scanner with ASCII `\w`.
- Keys are spliced unescaped into a regular expression by `replaceAll` (Template.java lines 54 and 60); the model always replaces the literal `${key}`. The two agree when the key is a word. They differ for keys holding regex metacharacters: with the key `.` the pattern `\$\{.}` also matches `${x}`, and a key such as `(` makes `replaceAll` throw `PatternSyntaxException` after validation has passed. Neither behaviour is modelled, so the members below state the literal-key reading for every key:
- Templates.EvaluateIgnoresUnusedKeys: for a key with regex metacharacters, the source may replace placeholders whose literal `${key}` does not occur (key `.` on `${x}`), or throw.
- Substitution.ReplaceEachUnusedKeys: the same literal-key reading as Templates.EvaluateIgnoresUnusedKeys.
- Templates.EvaluateFailures: in the model, evaluation fails only on the two checks; the source also throws `PatternSyntaxException` for a key that is not a valid regex.
- Templates.Template.Evaluate: its failure condition names only the two checks; the `PatternSyntaxException` path of a malformed-regex key is not modelled.
- The `$` and `\` escapes of `replaceAll`'s replacement string: the model's validated values are words and contain neither. In the source, a value let through by the line-terminator gap (see the Templates.HasNonWordChar line) may hold `$` or `\`, which `replaceAll` interprets: a bad group reference such as `$1` makes it throw `IndexOutOfBoundsException`, and `\$\{` inserts a literal `${` into the result.
- Templates.HasNonWordChar: Java's `value.matches(".*\\W+.*")` does not reject some values holding line terminators, because `.` does not match them; the model rejects every value with a non-word character.
- The source throws one `IllegalArgumentException` for every failure; the model names three errors. It keeps the source's order, count before values, and Templates.EvaluateFailures pins that order: a wrong count gives IncompleteParameters even when a value is also invalid.
- Java `Map` iteration order and `Stream`/`Collectors` mechanics: a parameter map is modelled as its entry set in some iteration order, a sequence of entries with distinct keys.
- Templates.EvaluateOrderIndependent: proved only for texts whose stray `$` are all lone (`SafeDollars`) and with name keys. Without a condition the property is false (TemplateCases.EvaluateOrderDependent), and "every `${` begins a placeholder" is not enough (TemplateCases.EmptyValueOrderDependent). The condition also excludes texts on which the property may still hold, such as `Price: $${price}` with non-empty values; the model proves nothing about those.
- Templates.EvaluateSubstitutes: proved only for texts whose stray `$` are all lone, for the same reason.
- Substitution.ReplaceEachIsExpand: proved only for texts whose stray `$` are all lone, with name keys and word values, for the same reason.
- Substitution.ReplaceEachOrderIndependent: proved only for texts whose stray `$` are all lone, with name keys and word values, for the same reason.
- Templates.Template.constructor: it requires the distinct-literals invariant; the throwing path of the Java constructor is `Templates.Template.New`.
- `null` is not modelled: a null text or map; a null value, which makes `value.matches` throw `NullPointerException` (Template.java line 43); and a null key, which `createExpression` turns into the literal `${null}` (line 60).
- Test scaffolding with no production behaviour: the lifecycle `println` hooks (TemplateTest.java lines 64-82), the UUID matcher test (lines 84-88, `UuidMatcher` is not part of this model) and the CSV/method-source examples (lines 90-102).
