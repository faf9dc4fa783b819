# Selkie.NUnit.Extensions in Dafny

A model of the two helper classes of Selkie.NUnit.Extensions, with proofs of
their properties:

- `StringExtensions` (StringExtensions.dfy): joining a list of strings with a
  separator and a distinct last separator, cutting a string into fixed-size
  groups, replacing every line break (`\r\n`, `\n` or `\r`) with a chosen one,
  splitting into lines through a `StringReader`, and splitting into words on
  runs of white space.
- `NUnitHelper` (NUnitHelper.dfy): comparing doubles within a tolerance,
  assertions over doubles, radians, degrees, lists of doubles and arbitrary
  sequences, and finding a list inside a list of lists.
- `Doubles` (Doubles.dfy): the IEEE-754 `double` as far as those helpers use
  it. That is NaN, the two infinities and exact finite values, with
  subtraction, `Math.Abs`, `<` and `>`.

An NUnit assertion is a function or method returning an `Outcome`. `Pass`
means the assertion does not throw. `Fail(message)` means it throws
`AssertionException` with that message.

Loops in the source become methods with loop invariants, each proved equal to
a specification function. This covers `JoinElements`, `AsGroupsOf`, `Lines`,
the list `IsEquivalent` and `SequenceToString`. `StringReader.ReadLine` is a
method on a class whose contract states the new read position and the line it
returns. `AssertSequenceEqual` has no loop of its own: it is a method over the
recursive `SequenceEqual`. The lemmas about those specification functions
state what the source promises.

`ReplaceNewLinesWith` passes `newLine` to `Regex.Replace`, which reads `$` in
it as a substitution. `ReplaceNewLinesAsWritten` models that call as written.
`ReplaceNewLinesWith` in the model inserts `newLine` literally, as the
method's documentation describes it. The two agree whenever `newLine` holds
no `$` (see "## Findings").

Paths below are relative to the repository root. Lines cite
`Core2.Selkie.NUnit.Extensions/*.cs` and the tests in
`Selkie.NUnit.Extensions.Tests/`.

## Model

| member | source | states |
|---|---|---|
| Doubles.Minus | Core2.Selkie.NUnit.Extensions/NUnitHelper.cs:38 | `value1 - value2` is NaN exactly when an operand is NaN or both are the same infinity; it is infinite exactly when it is not NaN and an operand is infinite |
| Doubles.Abs | Core2.Selkie.NUnit.Extensions/NUnitHelper.cs:38 | `Math.Abs` keeps NaN and only NaN, never yields negative infinity, and a finite result is non-negative |
| Doubles.AbsMinusSymmetric | Core2.Selkie.NUnit.Extensions/NUnitHelper.cs:64 | the absolute difference does not depend on the order of the operands |
| StringExtensions.Join | Core2.Selkie.NUnit.Extensions/StringExtensions.cs:99-121 | no elements give the empty text, and a single element comes back unchanged whatever the two separators are |
| StringExtensions.JoinLength | Core2.Selkie.NUnit.Extensions/StringExtensions.cs:99-121 | with two or more elements, the joined text starts with the first element; its length is the elements' total plus n-2 separators plus one last separator |
| StringExtensions.JoinCons | Core2.Selkie.NUnit.Extensions/StringExtensions.cs:99-148 | joining `first` before two or more elements puts the ordinary separator after `first`; before a single element it puts the last separator there |
| StringExtensions.JoinSameSeparators | Core2.Selkie.NUnit.Extensions/StringExtensions.cs:73-78 | when both separators are equal, Join places that separator between every pair of neighbours |
| StringExtensions.JoinWithSeparator | Core2.Selkie.NUnit.Extensions/StringExtensions.cs:73-78 | the one-separator overload places the separator between every pair of neighbours |
| StringExtensions.JoinWithChar | Core2.Selkie.NUnit.Extensions/StringExtensions.cs:28-32 | the one-char overload places that character between every pair of neighbours |
| StringExtensions.JoinWithChars | Core2.Selkie.NUnit.Extensions/StringExtensions.cs:53-59 | the two-char overload uses the first char between all neighbours except the last pair, which gets the second char; zero or one element is returned as is |
| StringExtensions.JoinExamples | Selkie.NUnit.Extensions.Tests/StringExtensionsTests.cs:62-124 | no elements give "", one gives itself, ["a","b","c"] gives "a,b,c", and with "." last it gives "a,b.c" |
| StringExtensions.JoinElements | Core2.Selkie.NUnit.Extensions/StringExtensions.cs:124-148 | the StringBuilder loop produces exactly Join of the list with the two separators |
| StringExtensions.GroupsFlatten | Core2.Selkie.NUnit.Extensions/StringExtensions.cs:162-182 | for a positive size, the groups concatenated give back the text |
| StringExtensions.GroupsLengths | Core2.Selkie.NUnit.Extensions/StringExtensions.cs:162-182 | every group except the last has exactly `size` characters, and the last has between 1 and `size` |
| StringExtensions.GroupsCount | Core2.Selkie.NUnit.Extensions/StringExtensions.cs:162-182 | the number of groups g is the least with `g * size >= |text|` |
| StringExtensions.GroupsOfNonPositiveSize | Core2.Selkie.NUnit.Extensions/StringExtensions.cs:165-168 | a size of zero or less yields no groups |
| StringExtensions.GroupsExample | Selkie.NUnit.Extensions.Tests/StringExtensionsTests.cs:12-38 | "Group" in groups of 1 is "G","r","o","u","p" |
| StringExtensions.AsGroupsOf | Core2.Selkie.NUnit.Extensions/StringExtensions.cs:162-182 | the loop yields exactly the groups of the text |
| StringExtensions.ReplaceNewLinesWith | Core2.Selkie.NUnit.Extensions/StringExtensions.cs:294-299 | as documented, with `newLine` taken literally: text without line breaks is unchanged; a replacement without line breaks leaves none; a replacement without `\n` leaves no `\n` |
| StringExtensions.ReplaceNewLinesAsWritten | Core2.Selkie.NUnit.Extensions/StringExtensions.cs:294-299 | as written, through `Regex.Replace` substitutions: text without line breaks comes back unchanged whatever `newLine` is, and for a `newLine` without `$` the result is ReplaceNewLinesWith's |
| StringExtensions.ReplaceWithMatchKeepsText | Core2.Selkie.NUnit.Extensions/StringExtensions.cs:294-299 | as written, `newLine` "$0" puts every matched break back, so the text comes back unchanged |
| StringExtensions.DollarZeroKeepsLineBreak | Core2.Selkie.NUnit.Extensions/StringExtensions.cs:294-299 | one `\n` between break-free texts with "$0": as written the `\n` stays; as intended it becomes the characters "$0" |
| StringExtensions.ReplaceIdempotent | Core2.Selkie.NUnit.Extensions/StringExtensions.cs:294-299 | replacing with `\n`, `\r`, `\r\n` or a break-free string is idempotent |
| StringExtensions.ReplaceTwoBreaks | Core2.Selkie.NUnit.Extensions/StringExtensions.cs:294-299 | two `\n` breaks, or two `\r\n` pairs, become exactly two copies of the new line |
| StringExtensions.ReplaceLfLfExample | Selkie.NUnit.Extensions.Tests/StringExtensionsTests.cs:148-159 | "\n\n" becomes two copies of the new line |
| StringExtensions.ReplaceCrLfCrLfExample | Selkie.NUnit.Extensions.Tests/StringExtensionsTests.cs:161-172 | "\r\n\r\n" becomes two copies of the new line |
| StringExtensions.ReplacePlainPrefix | Core2.Selkie.NUnit.Extensions/StringExtensions.cs:294-299 | text without line breaks in front of anything passes through unchanged |
| StringExtensions.ReplaceSingleBreak | Core2.Selkie.NUnit.Extensions/StringExtensions.cs:294-299 | one `\r` or `\n` between break-free texts, a `\r` not followed by `\n` included, is replaced by exactly one new line |
| StringExtensions.ReplaceLoneCrExample | Core2.Selkie.NUnit.Extensions/StringExtensions.cs:13-14 | a lone `\r` between two letters is replaced as well |
| StringExtensions.ReplaceIsJoinedLines | Core2.Selkie.NUnit.Extensions/StringExtensions.cs:294-321 | replacing every break with `newLine` equals the lines joined by `newLine`, plus one `newLine` when the text ends in a break |
| StringExtensions.ReplaceNewLinesWithDefault | Core2.Selkie.NUnit.Extensions/StringExtensions.cs:276-279 | the call as written; break-free text is unchanged; with the environment's new line (`\n` or `\r\n`) the result is ReplaceNewLinesWith's and a fixed point of a second replacement |
| StringExtensions.LineBreakIndex | Core2.Selkie.NUnit.Extensions/StringExtensions.cs:306-321 | the index of the first `\r` or `\n`, or the length when there is none |
| StringExtensions.LineBreakIndexUnique | Core2.Selkie.NUnit.Extensions/StringExtensions.cs:306-321 | a break at an index with none before it is the first break |
| StringExtensions.SplitLines | Core2.Selkie.NUnit.Extensions/StringExtensions.cs:306-321 | no line contains a line break, and there are no lines exactly when the text is empty |
| StringExtensions.StringReader.ReadLine | Core2.Selkie.NUnit.Extensions/StringExtensions.cs:310-320 | at the end it returns null; otherwise it returns the text up to the first break and moves past that break, treating `\r\n` as one break |
| StringExtensions.Lines | Core2.Selkie.NUnit.Extensions/StringExtensions.cs:306-321 | reading lines until null yields exactly SplitLines of the text |
| StringExtensions.LinesExample | Selkie.NUnit.Extensions.Tests/StringExtensionsTests.cs:126-146 | "a", "b" and "c", each followed by the new line, gives the lines "a","b","c" |
| StringExtensions.TrailingLineBreakAddsNoLine | Core2.Selkie.NUnit.Extensions/StringExtensions.cs:306-321 | one final line break after non-empty text adds no empty line |
| StringExtensions.WordsShape | Core2.Selkie.NUnit.Extensions/StringExtensions.cs:328-332 | there is always at least one element; no element holds white space; elements between two separators are non-empty; the first is non-empty unless the text starts with white space |
| StringExtensions.Words | Core2.Selkie.NUnit.Extensions/StringExtensions.cs:328-332 | text without white space is its own single word; the split itself is characterised by WordsShape and WordsRebuild |
| StringExtensions.WordsLeadingWhiteSpace | Core2.Selkie.NUnit.Extensions/StringExtensions.cs:328-332 | leading white space yields an empty first element |
| StringExtensions.WordsTrailingWhiteSpace | Core2.Selkie.NUnit.Extensions/StringExtensions.cs:328-332 | trailing white space yields an empty last element |
| StringExtensions.WordsEndWithWord | Core2.Selkie.NUnit.Extensions/StringExtensions.cs:328-332 | non-empty text that does not end in white space yields a non-empty last element |
| StringExtensions.WordsRebuild | Core2.Selkie.NUnit.Extensions/StringExtensions.cs:328-332 | the text is the elements with the white-space runs put back between them, one run fewer than elements, each run non-empty and all white space: the split happens at every run and nowhere else |
| StringExtensions.WordsKeepEveryOtherCharacter | Core2.Selkie.NUnit.Extensions/StringExtensions.cs:328-332 | the words concatenated are exactly the text with its white space removed |
| StringExtensions.WordsExample | Selkie.NUnit.Extensions.Tests/StringExtensionsTests.cs:174-194 | three non-white-space characters separated by single white-space characters (as in "a b c") are three one-character words |
| NUnitHelper.IsEquivalent | Core2.Selkie.NUnit.Extensions/NUnitHelper.cs:60-67 | true exactly when both values are finite and their distance is strictly below a finite epsilon, or epsilon is +infinity |
| NUnitHelper.IsEquivalentDefault | Core2.Selkie.NUnit.Extensions/NUnitHelper.cs:52-58 | true exactly when both values are finite and strictly closer than 0.01 |
| NUnitHelper.IsEquivalentSymmetric | Core2.Selkie.NUnit.Extensions/NUnitHelper.cs:60-67 | equivalence is symmetric |
| NUnitHelper.IsEquivalentNeverSilentlySucceeds | Core2.Selkie.NUnit.Extensions/NUnitHelper.cs:60-67 | NaN is equivalent to nothing; a NaN, negative-infinite, zero or negative epsilon accepts no pair |
| NUnitHelper.IsEquivalentBoundaryIsExclusive | Core2.Selkie.NUnit.Extensions/NUnitHelper.cs:66 | a difference of exactly epsilon is not equivalent |
| NUnitHelper.IsEquivalentExamples | Selkie.NUnit.Extensions.Tests/NUnitHelperTests.cs:366-392 | 10 vs 10 and 10 vs 10.005 are equivalent; 10 vs 10.02 and 0 vs 10 are not |
| NUnitHelper.AssertIsEquivalent | Core2.Selkie.NUnit.Extensions/NUnitHelper.cs:33-50 | a NaN difference fails with `text + " - Absolute difference is NaN!"`; finite values pass exactly when their distance is at most a finite epsilon (with a non-finite epsilon, exactly when it is not −∞); when either value is infinite and the difference is not NaN, the call passes exactly when epsilon is NaN or +∞; any other failure reports the difference and epsilon |
| NUnitHelper.EquivalentPassesAssertion | Core2.Selkie.NUnit.Extensions/NUnitHelper.cs:33-67 | whatever IsEquivalent accepts, AssertIsEquivalent passes |
| NUnitHelper.BoundaryPassesAssertionOnly | Core2.Selkie.NUnit.Extensions/NUnitHelper.cs:33-67 | a distance of exactly epsilon passes the assertion but is not equivalent |
| NUnitHelper.NaNToleranceAcceptsAll | Core2.Selkie.NUnit.Extensions/NUnitHelper.cs:45-49 | with a NaN epsilon, every pair whose difference is not NaN passes |
| NUnitHelper.AssertIsEquivalentExamples | Selkie.NUnit.Extensions.Tests/NUnitHelperTests.cs:48-109 | 100±0.1 against 100 within 0.1 passes; 100±0.11 and 1 against 100 fail; NaN fails with the NaN message |
| NUnitHelper.AssertIsEquivalentDefault | Core2.Selkie.NUnit.Extensions/NUnitHelper.cs:12-20 | with the default 0.01, finite values pass exactly when at most 0.01 apart; a NaN difference fails with the NaN message; an infinite value fails; any other failure reads `text` + "Absolute difference " + the rendered difference + " but epsilon is " + the rendered 0.01 + "!" |
| NUnitHelper.AssertIsEquivalentIgnoringEpsilon | Core2.Selkie.NUnit.Extensions/NUnitHelper.cs:22-30 | as written, finite values pass exactly when at most 0.01 apart, whatever epsilon is given; a NaN difference fails with the NaN message; an infinite value fails; any other failure reports the difference against 0.01, with an empty text |
| NUnitHelper.AssertIsEquivalentWithin | Core2.Selkie.NUnit.Extensions/NUnitHelper.cs:22-30 | as intended, finite values pass exactly when at most the given finite epsilon apart; a NaN difference fails with the NaN message; against a finite epsilon an infinite value fails; any other failure reports the difference against the given epsilon, with an empty text |
| NUnitHelper.EpsilonArgumentIgnored | Core2.Selkie.NUnit.Extensions/NUnitHelper.cs:22-30 | 1.0 vs 1.05 with epsilon 0.1 fails as written and passes as intended |
| NUnitHelper.AssertRadians | Core2.Selkie.NUnit.Extensions/NUnitHelper.cs:139-146 | finite values pass exactly when at most 1e-10 apart; every failure message starts with "Radians"; a NaN difference fails with "Radians" + " - Absolute difference is NaN!"; an infinite value fails; any other failure reads "Radians" + "Absolute difference " + the rendered difference + " but epsilon is " + the rendered 1e-10 + "!" |
| NUnitHelper.AssertDegrees | Core2.Selkie.NUnit.Extensions/NUnitHelper.cs:148-155 | finite values pass exactly when at most 1e-10 apart; every failure message starts with "Radians"; a NaN difference fails with "Radians" + " - Absolute difference is NaN!"; an infinite value fails; any other failure reads "Radians" + "Absolute difference " + the rendered difference + " but epsilon is " + the rendered 1e-10 + "!" |
| NUnitHelper.DegreesReportedAsRadians | Core2.Selkie.NUnit.Extensions/NUnitHelper.cs:148-155 | AssertDegrees cannot be told apart from AssertRadians, messages included |
| NUnitHelper.DegreesMislabelled | Core2.Selkie.NUnit.Extensions/NUnitHelper.cs:148-155 | 0 against 1 fails with a message starting "Radians" as written and "Degrees" as intended |
| NUnitHelper.AssertDegreesLabelled | Core2.Selkie.NUnit.Extensions/NUnitHelper.cs:148-155 | as intended, the same tolerance, with failure messages starting with "Degrees": a NaN difference fails with "Degrees" + " - Absolute difference is NaN!", an infinite value fails, and any other failure reads "Degrees" + "Absolute difference … but epsilon is …!" |
| NUnitHelper.RadiansExamples | Selkie.NUnit.Extensions.Tests/NUnitHelperTests.cs:111-130 | 100 against itself and against 100 ± 0.9e-10 passes, for radians and degrees |
| NUnitHelper.NatText | Core2.Selkie.NUnit.Extensions/NUnitHelper.cs:78-81 | an index is rendered as a non-empty string of decimal digits |
| NUnitHelper.NatTextValue | Core2.Selkie.NUnit.Extensions/NUnitHelper.cs:78-81 | the digits in the `[i]` of the message read back as the index `i`, with no leading zero |
| NUnitHelper.FirstNonEquivalent | Core2.Selkie.NUnit.Extensions/NUnitHelper.cs:76-86 | the first index whose pair is not equivalent; all earlier pairs are equivalent |
| NUnitHelper.IsEquivalentList | Core2.Selkie.NUnit.Extensions/NUnitHelper.cs:69-87 | lists of different lengths fail with "Length is different!"; otherwise it fails with the indexed message at the first pair that is not equivalent; it passes exactly when the lengths match and every pair is equivalent |
| NUnitHelper.SequenceEqual | Core2.Selkie.NUnit.Extensions/NUnitHelper.cs:89-113 | the pairwise walk is true exactly when the two sequences are equal |
| NUnitHelper.Contains | Core2.Selkie.NUnit.Extensions/NUnitHelper.cs:89-93 | true exactly when some inner list equals `expected` element by element |
| NUnitHelper.ContainsExamples | Selkie.NUnit.Extensions.Tests/NUnitHelperTests.cs:224-271 | [1,2] is in [[1,2,3],[1,2]] but not in [[1,2,3]] |
| NUnitHelper.RenderAll | Core2.Selkie.NUnit.Extensions/NUnitHelper.cs:122-130 | one rendered text per element, in order |
| NUnitHelper.CommasBetweenParts | Core2.Selkie.NUnit.Extensions/NUnitHelper.cs:126-129 | n comma-free parts joined by "," hold exactly n-1 commas |
| NUnitHelper.SequenceTextShape | Core2.Selkie.NUnit.Extensions/NUnitHelper.cs:115-137 | the text is wrapped in braces; an empty sequence gives "{}"; n comma-free elements give n-1 commas |
| NUnitHelper.SequenceTextExamples | Core2.Selkie.NUnit.Extensions/NUnitHelper.cs:115-137 | [1,2,3] renders as "{1,2,3}" and [1,2] as "{1,2}" |
| NUnitHelper.SequenceToString | Core2.Selkie.NUnit.Extensions/NUnitHelper.cs:115-137 | the StringBuilder loop yields the elements between braces, separated by commas |
| NUnitHelper.AssertSequenceEqual | Core2.Selkie.NUnit.Extensions/NUnitHelper.cs:95-113 | passes exactly when the sequences are equal; otherwise the message names both renderings |

## Left out

- `Inject` and `InjectInvariant` (format substitution): the failure message of `AssertIsEquivalent` is stated with the values already substituted.
- How a value becomes text (`double.ToString` under the current culture, `T.ToString`, a null element appended as nothing) is the `render` parameter. Indexes use plain decimal digits.
- Rounding of doubles: finite values are exact reals. So `AssertRadians(100.0, 100.0 + 1e-10)` passes in the model. It fails in .NET only because `100.0 + 1e-10` rounds to a distance above 1e-10 (Selkie.NUnit.Extensions.Tests/NUnitHelperTests.cs:133-144). The exactly-epsilon tests for AssertDegrees (lines 35-46) are not stated for the same reason.
- NUnit's own detail lines (those `Assert.AreEqual`, `Assert.IsTrue` and `Assert.Fail` add to a failure, such as the ones after "Length is different!") are not modelled. `Fail` carries only the message the helper passes.
- Laziness: `AsGroupsOf` and `Lines` are iterators that yield one element at a time. The model returns the whole sequence.
- `Environment.NewLine` is the `environmentNewLine` parameter of `ReplaceNewLinesWithDefault`.
- ReplaceNewLinesWith: inserts `newLine` literally, as intended; the source's `$` substitutions are modelled only by ReplaceNewLinesAsWritten (see "## Findings").
- ReplaceIdempotent: stated of the literal replacement. As written it also holds for `\n` and `\r\n`, by ReplaceNewLinesWithDefault; it fails for a `newLine` such as "$_", which re-inserts the whole input.
- ReplaceTwoBreaks: stated of the literal replacement; as written it holds when `newLine` has no `$` (ReplaceNewLinesAsWritten), not for "$0".
- ReplaceLfLfExample: stated of the literal replacement; as written it holds when `newLine` has no `$`.
- ReplaceCrLfCrLfExample: stated of the literal replacement; as written it holds when `newLine` has no `$`.
- ReplacePlainPrefix: stated of the literal replacement; as written a "$`" in `newLine` re-inserts the prefix.
- ReplaceSingleBreak: stated of the literal replacement; as written it holds when `newLine` has no `$`.
- ReplaceLoneCrExample: stated of the literal replacement; as written it holds when `newLine` has no `$`.
- ReplaceIsJoinedLines: stated of the literal replacement; as written it holds when `newLine` has no `$`.
- ReplaceNewLinesAsWritten: a `$` followed by a decimal number too large for a 32-bit `int` makes .NET throw; the model reads such a number as an unknown group and keeps the text literally.
- StringExtensions.AsGroupsOf: a .NET string is a sequence of UTF-16 code units, and `Length` and `Substring` count code units. A Dafny `char` is a Unicode scalar value. So a character outside the Basic Multilingual Plane is one character in the model and two in .NET (`AsGroupsOf("😀", 1)` yields two halves there), and unpaired surrogates cannot be written at all. The same holds for every other string operation here.
- A `null` element in Join's list: `Join` returns a single null element as is, and `StringBuilder.Append` adds nothing for a null in a longer list. The model's elements are strings and cannot be null.
- The regular-expression engine is not modelled. `FindNewLines` is written as a left-to-right scan preferring `\r\n`. `Words` splits on maximal runs of .NET `\s`, taken as the Unicode white-space characters listed in `IsWhiteSpace`.
- `System.IO.StringReader` is .NET library code. `StringExtensions.StringReader` models only its `ReadLine` behaviour.
- `AsGroupsOf` with a size of zero or less returns no groups, as the code does. It does not fail fast.
- Indexes and lengths are unbounded. The source's 32-bit `int` limits are not modelled.
- `Constants.EpsilonPointXy` and `EpsilonDistance` are not used by the modelled helpers.
- AutoNSubstituteDataAttribute.cs is not part of this model.
- `null` arguments (guarded by `[NotNull]` in the source) cannot occur in the model.

## Findings

| source | as written | input that shows it | evidently intended | confidence | as-written member | corrected member |
|---|---|---|---|---|---|---|
| Core2.Selkie.NUnit.Extensions/NUnitHelper.cs:22-30 | the three-argument `AssertIsEquivalent` passes `Constants.Epsilon` and ignores its `epsilon` argument | `AssertIsEquivalent(1.0, 1.05, 0.1)` fails although the values are 0.05 apart (NUnitHelper.EpsilonArgumentIgnored) | the given epsilon is the tolerance | not executed | NUnitHelper.AssertIsEquivalentIgnoringEpsilon | NUnitHelper.AssertIsEquivalentWithin |
| Core2.Selkie.NUnit.Extensions/NUnitHelper.cs:148-155 | `AssertDegrees` labels its failures "Radians" | `AssertDegrees(0.0, 1.0)` fails with a message starting "Radians" (NUnitHelper.DegreesMislabelled) | the label is "Degrees" | not executed | NUnitHelper.AssertDegrees | NUnitHelper.AssertDegreesLabelled |
| Core2.Selkie.NUnit.Extensions/StringExtensions.cs:294-299 | `FindNewLines.Replace(text, newLine)` reads `newLine` as a replacement pattern, so `$0`, `$&`, `$+`, `$$`, `` $` ``, `$'` and `$_` in it are substituted | `ReplaceNewLinesWith("a\nb", "$0")` returns "a\nb": the break stays although "$0" holds none (StringExtensions.DollarZeroKeepsLineBreak) | `newLine` is "the string to use for line termination", inserted as it is | not executed | StringExtensions.ReplaceNewLinesAsWritten | StringExtensions.ReplaceNewLinesWith |
