# Landing-page script: roster statistics and biography paragraphs

This project models the two pieces of computation in the landing page's
`js/script.js`. The rest of that file is browser plumbing.

- **Roster statistics** (`loadStudents`). Each student record is classified
  by exam type. The type is the upper-cased `type` field, or `"IELTS"` when
  that field is absent or empty. A record is TOEFL exactly when that type
  is `"TOEFL"`.
  - Every record that is not TOEFL feeds four accumulators: `ieltsSum`,
    `ieltsCount`, `highest` (starting at 0) and `sevenPlus` (scores of 7.0
    or more).
  - After the loop the loader takes the total record count and the
    zero-guarded average `ieltsSum / ieltsCount`.
  - The card's badge class and score label follow the same TOEFL/IELTS
    choice.
  - Module `StudentRoster` (`student_roster.dfy`) holds this part.
  - The loop is the method `ComputeRosterStats`. It is proved to equal the
    function `RosterSummary`, and the properties are lemmas about
    `RosterSummary`.
  - Three record-level definitions (`NonToeflTotal`, `NonToeflRecords`,
    `SevenPlusRecords`) serve as independent references for the sum and
    the two counts.
- **Biography paragraphs** (`loadAbout`). The fetched text goes through
  five steps:
  1. it is split on runs of newlines (`split(/\n+/)`);
  2. pieces that are blank after `trim()` are dropped;
  3. `\n` is replaced by `<br>` in each piece;
  4. each piece is wrapped in `<p>…</p>`;
  5. the results are joined with no separator.
  - Module `AboutText` (`about_text.dfy`) holds this part.
  - It defines `split(/\n+/)` (`SplitNewlineRuns`), `trim()` (`Trim`, over
    ECMAScript's whitespace and line terminators), the filter
    (`KeepNonBlank`), the replacement (`ReplaceNewlines`) and the
    rendering (`RenderParagraphs`, `AboutHtml`).
  - The proofs compare these with reference definitions: single-newline
    joining (`Join`), newline-run collapsing (`CollapseNewlines`) and plain
    wrapping (`Tagged`).

Scores are exact rationals (`real`), and `parseFloat` is taken as already
applied. Strings are `seq<char>`.

The code splits on every run of newlines, so a single newline separates
paragraphs just as a blank line does. `"A\n\nB\nC"` gives the three
paragraphs `A`, `B` and `C`. It does not give `A` and `B<br>C`, which is
what the `<br>` replacement at js/script.js:178 seems to expect: blank
lines separating paragraphs and single newlines becoming line breaks. The
model follows the code:
- `AboutText.ThreeParagraphsExample` and
  `AboutText.BlankLineAndSingleNewlineSplitAlike` state the code's
  behaviour.
- `AboutText.BreakReplacementNeverFires` shows that the `<br>` replacement
  can never change a paragraph.

## Model

| member | source | states |
|---|---|---|
| StudentRoster.ExamType | js/script.js:86 | the `type` field upper-cased, or "IELTS" when the field is absent or empty; ExamTypeShape and ExamTypeExamples state its shape and values (upper-casing is ASCII only, see Left out) |
| StudentRoster.IsToefl | js/script.js:87 | a record is TOEFL exactly when its exam type is "TOEFL"; ToeflIffSpelledInAnyCase states which `type` values that accepts |
| StudentRoster.RosterSummary | js/script.js:79-147 | the four accumulators, `students.length` and the zero-guarded average of a roster; ComputeRosterStats computes it, SumIsNonToeflTotal, CountIsNonToeflRecords, SevenPlusIsQualifyingRecords and HighestIsMaximumOfIeltsScores pin its fields to the records, AverageIsSumOverCount its average |
| StudentRoster.ExamTypeShape | js/script.js:86 | the exam type is never empty, has no lower-case ASCII letter, is "IELTS" when `type` is absent or empty, and otherwise has the field's length |
| StudentRoster.ToeflIffSpelledInAnyCase | js/script.js:86-87 | with ASCII upper-casing, a record is TOEFL exactly when its `type` spells TOEFL in any mix of ASCII letter cases; absent, empty and every other value make it IELTS (the program also accepts "toe" followed by U+FB02 "ﬂ", see Left out) |
| StudentRoster.ExamTypeExamples | js/script.js:86-87 | absent and empty types give "IELTS"; "toefl" and "Toefl" are TOEFL; "ielts" gives "IELTS"; "TOEFL iBT" is not TOEFL |
| StudentRoster.ScoreLabel | js/script.js:121 | the label is "Total Score" exactly for TOEFL records and "Overall Band" exactly for the others |
| StudentRoster.BadgeClass | js/script.js:116 | the badge class is "exam-badge badge-toefl" exactly for TOEFL records and "exam-badge badge-ielts" exactly for the others |
| StudentRoster.ComputeRosterStats | js/script.js:79-96 | the loop's four accumulators, the record count and the guarded average equal `RosterSummary` of the roster |
| StudentRoster.TalliesStep | js/script.js:89-96 | a TOEFL record leaves the four accumulators in step with the scores seen; any other record adds its score to the sum, 1 to the count, raises the maximum and adds 1 to sevenPlus at 7.0 or more |
| StudentRoster.SummaryFromTallies | js/script.js:145-147 | after the last record, the accumulators with `students.length` and the zero-guarded quotient are the roster's summary |
| StudentRoster.ToeflRecordChangesNothing | js/script.js:89-96 | inserting a TOEFL record anywhere changes no statistic except the total, which grows by one |
| StudentRoster.IeltsRecordIsCounted | js/script.js:90-95 | inserting a non-TOEFL record anywhere adds its score to the sum and 1 to the count, takes the max into highest, and adds 1 to sevenPlus exactly when the score is 7.0 or more |
| StudentRoster.SumIsNonToeflTotal | js/script.js:90-92 | `ieltsSum` is the sum of the scores of the non-TOEFL records |
| StudentRoster.CountIsNonToeflRecords | js/script.js:90-93 | `ieltsCount` is the number of non-TOEFL records |
| StudentRoster.SevenPlusIsQualifyingRecords | js/script.js:90-95 | `sevenPlus` is the number of non-TOEFL records whose score is 7.0 or more |
| StudentRoster.CountsAreOrdered | js/script.js:93-95 | sevenPlus <= ieltsCount <= totalStudents |
| StudentRoster.FullCountIffNoToefl | js/script.js:93 | ieltsCount equals the number of records exactly when no record is TOEFL |
| StudentRoster.ZeroCountIffAllToefl | js/script.js:93 | ieltsCount is 0 exactly when every record is TOEFL |
| StudentRoster.IeltsScoresAreNonToeflScores | js/script.js:90-92 | every score that is tallied is the score of a non-TOEFL record, and every non-TOEFL record's score is tallied |
| StudentRoster.HighestIsMaximumOfIeltsScores | js/script.js:81-94 | highest is >= 0 and >= every non-TOEFL score; it is 0 or the score of some non-TOEFL record; it is 0 when there are no non-TOEFL records |
| StudentRoster.HighestIsMax | js/script.js:81-94 | the running maximum from 0 is >= 0, bounds every score, and is 0 or one of the scores |
| StudentRoster.AverageWithinBounds | js/script.js:147 | with at least one non-TOEFL record whose scores all lie in [lo, hi], the average lies in [lo, hi] |
| StudentRoster.AverageIsSumOverCount | js/script.js:147 | the average is 0 without non-TOEFL records and otherwise times the count gives the sum |
| StudentRoster.AverageAtMostHighest | js/script.js:147 | the average never exceeds the highest score |
| StudentRoster.SevenPlusBoundary | js/script.js:95 | 7.0 counts towards sevenPlus, 6.99 does not, a TOEFL score of 110 does not; the empty roster gives all zeros |
| StudentRoster.IeltsScoresAppend | js/script.js:84-96 | the tallied scores of two rosters joined are the first's followed by the second's |
| StudentRoster.ClassifyAllAt | js/script.js:86-87 | the classification of record i is its own TOEFL test and score |
| AboutText.Trim | js/script.js:176 | `trim()`: strips leading and trailing ECMAScript whitespace and line terminators; TrimStartDropsBlankPrefix, TrimEndDropsBlankSuffix and TrimEmptyIffBlank characterise what it removes and keeps |
| AboutText.SplitNewlineRuns | js/script.js:176 | `split(/\n+/)`: yields at least one piece; PiecesHaveNoNewline, SplitJoinCollapses and SplitOfJoin tie it to joining with single newlines in both directions |
| AboutText.KeepNonBlank | js/script.js:176 | the `filter`: every kept piece is non-blank after `trim()` and no piece is added; KeptAreParts, KeepNonBlankKeepsAll and KeepNonBlankAppend state that it keeps exactly the non-blank pieces in order |
| AboutText.Paragraphs | js/script.js:176 | the split followed by the filter; ParagraphsAreNotBlank, ParagraphsOfConcat and ParagraphsIdempotent state its properties |
| AboutText.RenderParagraphs | js/script.js:177-179 | the `map` to `<p>…</p>` with `<br>` replacement and the `join('')`; RenderIsPlainWrap states that on newline-free paragraphs it is plain wrapping |
| AboutText.AboutHtml | js/script.js:176-179 | the whole pipeline; BreakReplacementNeverFires states that it is each paragraph wrapped unchanged, ThreeParagraphsHtml gives an instance |
| AboutText.TrimEmptyIffBlank | js/script.js:176 | `trim()` leaves nothing exactly when the piece is all whitespace, and otherwise leaves text that starts and ends with non-whitespace |
| AboutText.TrimStartDropsBlankPrefix | js/script.js:176 | the leading part `trim()` removes is all whitespace and what remains starts with non-whitespace |
| AboutText.TrimEndDropsBlankSuffix | js/script.js:176 | the trailing part `trim()` removes is all whitespace and what remains ends with non-whitespace |
| AboutText.PiecesHaveNoNewline | js/script.js:176 | no piece of `split(/\n+/)` holds a newline |
| AboutText.SplitJoinCollapses | js/script.js:176 | joining the pieces of the split with single newlines gives the text with every newline run collapsed to one |
| AboutText.SplitOfJoin | js/script.js:176 | splitting non-empty newline-free pieces joined by newlines gives the pieces back |
| AboutText.ParagraphsAreNotBlank | js/script.js:176 | every paragraph is free of newlines and not whitespace-only |
| AboutText.KeptAreParts | js/script.js:176 | every paragraph kept by the filter is a piece of the split |
| AboutText.KeepNonBlankKeepsAll | js/script.js:176 | the filter keeps every piece when none is blank |
| AboutText.KeepNonBlankAppend | js/script.js:176 | the filter distributes over concatenation, so kept pieces stay in input order |
| AboutText.ParagraphsOfConcat | js/script.js:176 | the paragraphs of `a + "\n" + b` are those of `a` followed by those of `b`: order is kept and no paragraph spans a newline |
| AboutText.ParagraphsIdempotent | js/script.js:176 | re-splitting the paragraphs joined by newlines gives the same paragraphs |
| AboutText.SkipLeadingNewlines | js/script.js:176 | leading newlines add no paragraph |
| AboutText.ParagraphsOfPlain | js/script.js:176 | a newline-free non-blank text is one paragraph, itself |
| AboutText.BlankLineAndSingleNewlineSplitAlike | js/script.js:176 | for newline-free non-blank a, b, c, "a\n\nb\nc" has exactly the three paragraphs a, b, c |
| AboutText.ThreeParagraphsExample | js/script.js:176 | "A\n\nB\nC" has the paragraphs "A", "B", "C" |
| AboutText.ReplaceNewlines | js/script.js:178 | the `<br>` replacement changes a string exactly when it holds a newline (it then grows) and is the identity otherwise |
| AboutText.RenderIsPlainWrap | js/script.js:177-179 | on newline-free paragraphs the rendering is plain `<p>…</p>` wrapping, concatenated |
| AboutText.BreakReplacementNeverFires | js/script.js:176-179 | the replacement is the identity on every paragraph, so the HTML is each paragraph wrapped as it is |
| AboutText.ThreeParagraphsHtml | js/script.js:176-179 | "a\n\nb\nc" renders as three `<p>` elements, one per line |

## Left out

- `fetch`, `response.json()`, `response.text()`, and the try/catch that logs failures, are network I/O. The model starts from the parsed records and the fetched text.
- DOM construction (`createElement`, `appendChild`, `setAttribute`, writing `innerHTML`) is a UI side effect. The card's image, name and sub-scores only feed the DOM and are not modelled.
- The badge text is the exam type itself, which `ExamType` gives. The HTML the browser parses from `innerHTML`, and any escaping, are not modelled.
- IntersectionObserver reveal and stats triggers, the `requestAnimationFrame` counter tween, and the mobile menu toggle are browser callbacks with no stateable result.
- `average.toFixed(1)` and the other `toString` calls that write `data-target` are float-to-string formatting and are not modelled.
- `parseFloat` on arbitrary strings, and the NaN it can produce, which then flows through `Math.max` and the sum: scores are assumed numeric.
- IEEE floating-point rounding of the sum and the average: scores and sums are exact rationals.
- StudentRoster.ExamType: upper-cases ASCII letters only. `toUpperCase` also maps other letters, some to several characters (U+FB02 "ﬂ" to "FL", "ß" to "SS"), so the model's exam type differs from the program's for a `type` holding such letters.
- StudentRoster.ToeflIffSpelledInAnyCase: covers only the ASCII spellings of TOEFL. In the program, "toeﬂ" (U+FB02) and the other seven case mixes of "toe" followed by "ﬂ" also upper-case to "TOEFL", so such a record is TOEFL and left out of every statistic. Here it is IELTS and is counted.
- StudentRoster.ExamTypeShape: "has the field's length" holds only for ASCII upper-casing. `toUpperCase` can make the type longer ("ß" becomes "SS").
- StudentRoster.Student: a `type` field that is present but not a string (a number, say) is not modelled. It is an absent or string-valued field here.
- AboutText: strings are sequences of code points rather than UTF-16 code units, which matters only for `trim()` on unpaired surrogates. The model also takes no account of the browser's own handling of `\r\n` in the fetched text.
