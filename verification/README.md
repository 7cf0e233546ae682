# Pseudocode grading core, in Dafny

This project models the grading engine of a pseudocode-practice application:
the part of the backend that decides whether a submitted piece of pseudocode
is `correct`, `partial` or `incorrect` against the accepted answers of a
question, and explains each difference line by line.

The engine has two layers.

- **Line normalisation** (`backend/utils/normalizeLine.js`, module
  `LineNormalizer`). `normalizeLine` lower-cases a line, trims it and turns
  every whitespace run into one space. `normalizeLines` does that to every
  item of an array and drops the lines that come out empty. `parseUserCode`
  splits a text at `\n` and then calls `normalizeLines`.
- **The matcher** (`backend/services/pseudocodeMatcher.js`).
  - `compareWithAnswer` (module `Comparator`) is a rigid positional diff. It
    compares index `i` of both line sequences for every `i` below the longer
    length. Each difference gives one error record: an extra line, a missing
    line, or a mismatch.
  - `detectErrorReason` (module `Classifier`) classifies each mismatch with an
    ordered cascade of substring tests.
  - `matchPseudocode` (module `Matcher`) first runs three guard clauses. It
    then returns `correct` at the first answer that matches exactly. If no
    answer matches, it reports the first answer with the fewest errors, as
    `partial` when the error rate is below one half and as `incorrect`
    otherwise.

Supporting modules:

- `Text` holds the JavaScript string primitives the code relies on:
  - the whitespace class of `\s` and `trim`;
  - ASCII lower-casing;
  - `includes`, `split`, `join`;
  - the `filter(line => line.length > 0)` idiom.
- `JsValues` models the dynamically typed arguments. A value is a string, an
  array, or anything else. This lets the model express the source's
  `typeof`/`Array.isArray` guards exactly.
- `ReasonTable` is a reference definition of the classifier: a precedence
  table of rules, applied first-match-wins. It is proved equal to the
  source's nested conditionals.
- `Wrappers` holds `Option`.

Modelling choices that follow the code closely:

- **Absent versus empty.** `userLines[i] || null` treats an empty string like
  a missing index, because `""` is falsy. `Comparator.Slot` models this
  exactly, so `CompareWithAnswer` is total over all line sequences.
- **The search state.** `bestMatch = null` is `None`. `minErrors = Infinity`
  is represented by that same `None`, since every error count is below
  `Infinity`.
- **The error rate.** `errorRate < 0.5` with
  `errorRate = minErrors / Math.max(userLines.length, 1)` becomes the integer
  test `2 * minErrors < |userLines|`. At that point `userLines` is non-empty.
- **The submission's lines.** `matchPseudocode` splits, normalises and
  filters the submission inline (`pseudocodeMatcher.js:130-133`). On a string
  this is exactly what `parseUserCode` computes, so the model uses
  `LineNormalizer.ParseUserCode` there.
- **The answer loop.** `Matcher.SearchAnswers` is the `for ... of` loop over
  the comparisons, in order. The comparisons are pure, so computing them
  first changes nothing.
- **Reason strings.** They are the code's exact strings, for example
  `"Extra line - this line should not be present"`.

## Model

| member | source | states |
|---|---|---|
| Text.LowerChar | backend/utils/normalizeLine.js:6 | `toLowerCase` on one character leaves no upper-case ASCII letter. It maps `A`-`Z` to the letter 32 code points higher, leaves every other character unchanged, and never turns whitespace into non-whitespace or back. |
| Text.Lower | backend/utils/normalizeLine.js:6 | `toLowerCase` on a whole line keeps its length and lower-cases it character by character. |
| Text.Contains | backend/services/pseudocodeMatcher.js:65-92 | `includes` finds the empty string in every line, and finds a non-empty marker only in a line at least as long. |
| Text.ContainsIffOccurs | backend/services/pseudocodeMatcher.js:65-92 | The `includes` test used by every rule holds exactly when the marker occurs at some index of the line. |
| Text.Split | backend/utils/normalizeLine.js:34 | `split` yields at least one piece, at most one more piece than there are characters, and no piece contains a separator. |
| Text.SplitJoin | backend/utils/normalizeLine.js:34 | Joining the pieces of `split` with the separator gives back the original text, so splitting loses nothing. |
| Text.NonEmpty | backend/utils/normalizeLine.js:21 | The length filter returns no more strings than it received, and none of them is empty. |
| Text.NonEmptyKeeps | backend/utils/normalizeLine.js:21 | The filter only drops strings: whatever holds of every input string holds of every string it keeps. |
| Text.NonEmptyIsSubsequence | backend/utils/normalizeLine.js:21 | The filter keeps, in order, exactly the strings at the non-empty positions: its `k`-th result is the string at the `k`-th non-empty position. |
| LineNormalizer.TrimStart | backend/utils/normalizeLine.js:6 | The front half of `trim` leaves a line that is empty or does not start with whitespace. |
| LineNormalizer.TrimStartDropsWhitespace | backend/utils/normalizeLine.js:6 | The front half of `trim` returns a suffix of the line, and everything it drops is whitespace. |
| LineNormalizer.TrimEnd | backend/utils/normalizeLine.js:6 | The back half of `trim` leaves a line that is empty or does not end with whitespace, no longer than the input and with the same first character. |
| LineNormalizer.TrimEndDropsWhitespace | backend/utils/normalizeLine.js:6 | The back half of `trim` returns a prefix of the line, and everything it drops is whitespace. |
| LineNormalizer.Trim | backend/utils/normalizeLine.js:6 | `trim` leaves no whitespace at either end. |
| LineNormalizer.TrimKeepsNoUpper | backend/utils/normalizeLine.js:6 | `trim` introduces no upper-case letter. |
| LineNormalizer.Collapse | backend/utils/normalizeLine.js:6 | `replace(/\s+/g, " ")` returns the empty string only for the empty string, and keeps whether the line starts and ends with whitespace. |
| LineNormalizer.CollapseFrom | backend/utils/normalizeLine.js:6 | The left-to-right scan behind `replace(/\s+/g, " ")` never lengthens the line, and outside a whitespace run it produces nothing only from the empty string. |
| LineNormalizer.CollapseIsCollapsed | backend/utils/normalizeLine.js:6 | After the replacement, every whitespace character is a plain space and no two whitespace characters are adjacent. |
| LineNormalizer.CollapseKeepsNoUpper | backend/utils/normalizeLine.js:6 | The replacement introduces no upper-case letter. |
| LineNormalizer.CollapseWords | backend/utils/normalizeLine.js:6 | The replacement keeps the words of the line, its maximal non-whitespace runs, in order. |
| LineNormalizer.NormalizeString | backend/utils/normalizeLine.js:6 | The normalised line is canonical: no upper-case ASCII letter, no whitespace at either end, every whitespace character a single space, and never two side by side. A line that is already canonical comes back unchanged. |
| LineNormalizer.NormalizeLine | backend/utils/normalizeLine.js:1-7 | A value that is not a string gives `""`. A string gives a canonical line, and a string that is already canonical is returned unchanged. |
| LineNormalizer.NormalizeEach | backend/utils/normalizeLine.js:19-20 | The `map` step gives one result per item, the item's normal form, at the item's position. |
| LineNormalizer.NormalizeLines | backend/utils/normalizeLine.js:14-22 | A value that is not an array gives `[]`. An array gives at most as many lines as it has items, each non-empty and canonical. |
| LineNormalizer.ParseUserCode | backend/utils/normalizeLine.js:29-35 | A value that is not a string gives `[]`. A text gives at most one line per `\n`-separated line of the text, each non-empty and canonical. |
| LineNormalizer.CanonicalIsFixed | backend/utils/normalizeLine.js:6 | Lower-casing, trimming and collapsing whitespace, in that order, give back a line that is already canonical. |
| LineNormalizer.NormalizeLineIdempotent | backend/utils/normalizeLine.js:1-7 | `normalizeLine(normalizeLine(x)) == normalizeLine(x)` for every value `x`. |
| LineNormalizer.NormalizeWords | backend/utils/normalizeLine.js:6 | Normalisation keeps the words, the maximal non-whitespace runs, of the lower-cased line, in order. |
| LineNormalizer.CanonicalUnique | backend/utils/normalizeLine.js:6 | Two canonical lines with the same words are the same line, because a canonical line is its words joined by single spaces. |
| LineNormalizer.NormalizeEqualIff | backend/utils/normalizeLine.js:6 | Two lines normalise to the same string if and only if they have the same words after lower-casing. Normalisation therefore forgets ASCII case and the amount and kind of whitespace, and nothing else. |
| LineNormalizer.NormalizeLinesSubsequence | backend/utils/normalizeLine.js:14-22 | `normalizeLines` returns, in order, the normalised items at strictly increasing positions, and includes every item whose normal form is not empty. |
| LineNormalizer.LinesRejoin | backend/utils/normalizeLine.js:34 | The `\n`-pieces of a text contain no newline and rejoin to the text. |
| LineNormalizer.ParseUserCodeSubsequence | backend/utils/normalizeLine.js:29-35 | `parseUserCode` returns, in order, the normal forms of exactly the non-blank lines of the text. |
| Classifier.DetectErrorReason | backend/services/pseudocodeMatcher.js:63-96 | The classifier is total and always gives one of its seven reason strings. |
| Classifier.LoopBoundsExample | backend/services/pseudocodeMatcher.js:65-67 | `for i = 1 to 5` against `for i = 1 to n` is classified as incorrect loop bounds. |
| Classifier.SubstringNotWordExample | backend/services/pseudocodeMatcher.js:65-69 | The tests look for substrings, not words: `format x` against `before y` counts as wrong loop logic. |
| ReasonTable.FirstFiringPicksFirst | backend/services/pseudocodeMatcher.js:63-96 | With first-match-wins, the reason is that of rule `k` whenever rule `k` fires and no earlier rule does. |
| ReasonTable.FirstFiringFallback | backend/services/pseudocodeMatcher.js:95 | When no rule fires, the generic fallback is given. |
| ReasonTable.ReasonRulesFire | backend/services/pseudocodeMatcher.js:65-92 | The precedence table has six rules, in this order: loop bounds (`for` and `to` in both), loop logic (`for` in both), condition (`if` in both), assignment (`set` or `=` in both), termination (`end` or `stop` expected), order (`start` or `begin` expected). |
| ReasonTable.DetectErrorReasonFollowsRuleOrder | backend/services/pseudocodeMatcher.js:63-96 | For every pair of lines, the nested conditionals give the same reason as the first-firing rule of the precedence table, with the generic reason as fallback. |
| Comparator.Slot | backend/services/pseudocodeMatcher.js:14-15 | `lines[i] \|\| null` is present exactly when `i` is in range and the line there is not empty, and then it is that line. |
| Comparator.ErrorAt | backend/services/pseudocodeMatcher.js:17-48 | An error for index `i` carries the 1-based line number `i + 1`. |
| Comparator.ErrorsFrom | backend/services/pseudocodeMatcher.js:13-49 | The loop from index `from` on gives at most one error per remaining index. Their line numbers lie in `from + 1 .. max` and strictly increase. |
| Comparator.CompareWithAnswer | backend/services/pseudocodeMatcher.js:9-55 | `matches` holds exactly when there is no error. There are at most `max(|user|, |answer|)` errors, with 1-based, strictly increasing line numbers within that range. |
| Comparator.CompareWithAnswerErrorsComplete | backend/services/pseudocodeMatcher.js:13-49 | Every index below the longer length that differs contributes its error to the list. |
| Comparator.CompareWithAnswerErrorsSound | backend/services/pseudocodeMatcher.js:13-49 | Every error in the list is exactly the error of the index `lineNumber - 1`. |
| Comparator.CompareWithAnswerErrorKinds | backend/services/pseudocodeMatcher.js:17-48 | A user line past the answer's end gives an extra-line error with `expected = []` and `received` the user line. An answer line past the user's end gives a missing-line error with `expected` that line and `received = ''`. Two different lines at one index give an error classified by `detectErrorReason`. Two equal lines give no error at that line number. |
| Comparator.CompareWithAnswerReflexive | backend/services/pseudocodeMatcher.js:9-55 | A line sequence compared with itself matches, with no errors. |
| Comparator.CompareWithAnswerMatchesIffEqual | backend/services/pseudocodeMatcher.js:13-54 | For sequences without empty lines, the comparison matches if and only if the two sequences are equal. |
| Comparator.CompareWithAnswerErrorCount | backend/services/pseudocodeMatcher.js:11-49 | For sequences without empty lines, the number of errors lies between the difference of the two lengths and the longer length. |
| Comparator.CompareWithAnswerAppendedLine | backend/services/pseudocodeMatcher.js:17-26 | One extra line appended to the submission gives exactly one error: an extra-line error at its position. |
| Comparator.CompareWithAnswerMissingLastLine | backend/services/pseudocodeMatcher.js:28-37 | A submission that lacks the answer's last line gives exactly one error: a missing-line error at that position. |
| Matcher.StatusFor | backend/services/pseudocodeMatcher.js:170-172 | The error-rate verdict is never `correct`. It is `partial` exactly when the errors are fewer than half the submitted lines. |
| Matcher.MatchPseudocode | backend/services/pseudocodeMatcher.js:104-178 | The verdict is `correct` if and only if the reported error list is empty. |
| Matcher.Verdict | backend/services/pseudocodeMatcher.js:147-177 | After the guards, the verdict is `correct` if and only if it carries no errors. |
| Matcher.CompareWith | backend/services/pseudocodeMatcher.js:152-153 | Comparing the user's lines with one normalised answer reports a match exactly when it reports no error, and an answer that normalises to the user's lines matches. |
| Matcher.SearchAnswers | backend/services/pseudocodeMatcher.js:151-168 | When the loop over the answers ends without an early return, no answer matched, and the match it holds has no more errors than any answer and than the match it started from. |
| Matcher.Track | backend/services/pseudocodeMatcher.js:164-167 | The strict-less-than update keeps one of the two candidates, the one with no more errors than either, and on a tie keeps the earlier one. |
| Matcher.Comparisons | backend/services/pseudocodeMatcher.js:151-153 | The `j`-th comparison is `compareWithAnswer(userLines, normalizeLines(validAnswers[j]))`. |
| Matcher.FewestErrorsIndex | backend/services/pseudocodeMatcher.js:163-167 | The selection picks the first candidate with the fewest errors: no candidate has fewer, and every earlier candidate has more. |
| Matcher.SearchNeverMatches | backend/services/pseudocodeMatcher.js:151-168 | If the loop ends without an early return, the best match it holds has at least one error. |
| Matcher.SearchPerfectIff | backend/services/pseudocodeMatcher.js:155-161 | The loop returns early if and only if some comparison matches. |
| Matcher.TrackKeepsFirstFewest | backend/services/pseudocodeMatcher.js:163-167 | One step of the strict-less-than update keeps the answer to "which candidate is the first with the fewest errors". |
| Matcher.SearchBestIsFirstFewest | backend/services/pseudocodeMatcher.js:147-168 | Without an early return, the loop ends holding the first comparison with the fewest errors. |
| Matcher.VerdictOfBest | backend/services/pseudocodeMatcher.js:163-177 | When no comparison matches, the verdict reports the errors of the first fewest-error comparison, with the status of its error rate. |
| Matcher.MatchPseudocodeGuards | backend/services/pseudocodeMatcher.js:105-145 | The guards fire in order, each giving `incorrect` with one error on line 0: a missing or empty submission gives "No code submitted"; then a missing or empty answer list gives "No valid answers available for this question"; then a submission with no non-blank line gives "Empty submission". |
| Matcher.MatchPseudocodeCorrectIff | backend/services/pseudocodeMatcher.js:151-161 | Once the guards pass, the verdict is `correct`, with no errors, if and only if some answer normalises to the submission's normalised lines. |
| Matcher.MatchPseudocodeBestAnswer | backend/services/pseudocodeMatcher.js:147-177 | Once the guards pass and no answer matches, the errors are those of the first answer with the fewest errors, and there is at least one. The status is `partial` exactly when twice the error count is below the number of submitted lines, and `incorrect` otherwise. |
| Matcher.MatchPseudocodePrefersFewerErrors | backend/services/pseudocodeMatcher.js:147-177 | Of two answers with three and one errors against a four-line submission, the second answer's errors are reported, as `partial`. |

## Left out

- Text.LowerChar: only the ASCII letters are lower-cased. Full Unicode case mapping, including the letters whose lower case has a different length, is not modelled.
- Strings are sequences of Unicode scalar values, not JavaScript's UTF-16 code units. A lone surrogate has no counterpart, and `length` counts scalar values.
- `errorRate` is a floating-point quotient in the source and an exact integer comparison here. The two agree whenever the submission has fewer than 2^52 lines, because a double quotient of such sizes cannot round across one half.
- Comparator.CompareWithAnswerMatchesIffEqual, Comparator.CompareWithAnswerErrorCount and Comparator.CompareWithAnswerErrorKinds require that neither sequence contains an empty string. With empty strings, the falsy rule makes `""` compare like a missing line, so `[""]` matches `[]` although the two sequences differ. This holds for every sequence `normalizeLines` and `parseUserCode` return, which are the only inputs `matchPseudocode` passes.
- Matcher.MatchPseudocodeCorrectIff and Matcher.MatchPseudocodeBestAnswer require that the three guards pass. The guard cases are stated separately by Matcher.MatchPseudocodeGuards.
- The JavaScript values other than strings and arrays (numbers, objects, `null`, `undefined`, ...) are one constructor. The source gives all of them the same treatment.
- The Express controller, routes and app setup, the Prisma database queries, the axios client and the React front end are input/output and presentation glue around `matchPseudocode`. They are not part of this model.
- `Classifier.LoopBoundsExample` proves the classification of `for i = 1 to 5` against `for i = 1 to n`; no whole-submission grading of that line is proved through `matchPseudocode`.
