# Rulebook validator and metadata handler, modelled in Dafny

This project models the core of a toolkit that checks a project's convention document
(a `CLAUDE.md` rulebook). It has two parts:

- **`RuleValidation`** (`rule_validator.dfy`) models the `RuleValidator` class.
  - Its three checklists are fixed at construction.
  - `ValidateStructure` reports, in checklist order, each required phrase missing from the
    document, plus the two structural errors: the title structure and the acknowledgment
    marker.
  - `ValidateSafetyRules` reports the four dangerous case-insensitive patterns that match
    the document.
  - `SuggestImprovements` gives the five advisories in their fixed order.
  - `CheckCompleteness` scores a six-item rubric.
- **`FileHandling`** (`file_handler.dfy`) models the three pure operations of the file
  handler:
  - `ValidateMarkdown`, the per-line heading and code-fence check;
  - `ExtractMetadata`, which reads the four `**Label**:` metadata lines;
  - `UpdateMetadata`, which rewrites those lines in the canonical form `> **Label**: value`.
- **`Text`** (`text.dfy`) holds the Python string built-ins the two parts use: `in`,
  `startswith`, `split('\n')`, `'\n'.join`, `strip` and `isalnum`.

The source's loops are methods with loop invariants. Each method is proved equal to a
specification function, and lemmas state what those functions promise:
- exactly the absent items, in order;
- the leftmost search decides the regular expression;
- every reported line is flagged, and every flagged line is reported;
- extraction after an update reads back the new values;
- updating is idempotent.

Behaviour of the code that the model keeps:
- **Empty input.** An empty document is *valid* for `ValidateSafetyRules`
  (`EmptyDocumentIsSafe`) and for `ValidateMarkdown` (`MarkdownLineExamples`).
- **Line count.** `update_metadata` keeps the line count whenever no new value holds a
  newline (`UpdateKeepsLineStructure`); a newline in a value that is written into a line
  adds lines.
- **Deeper headings.** The heading check reports every heading of level two or deeper, even
  one written with a space (`DeeperHeadingsReported`). The project's own sample document in
  `examples/basic_usage.py` (lines 43-79) is written with `##` and `###` headings, and the
  heading check reports every one of them. `HeadingCheckDiffersOnlyOnDeeperHeadings` proves that a
  level-aware reading of the rule agrees with it on every other line.
- **Field values.** A metadata value is the stripped text after the *first colon of the
  line*, wherever the marker is (`FieldValue`).
- **Case-insensitive patterns.** Python's `re` equates the letter `i` with `İ` and `ı`, `k`
  with the Kelvin sign and `s` with `ſ`, so "ſkip backup" is reported as dangerous
  (`LongSkipIsDangerous`).

## Model

| member | source | states |
|---|---|---|
| RuleValidation.RuleValidator.constructor | src/validators/rule_validator.py:13-37 | the three checklists are the four required rules, four prohibitions and five requirements, verbatim and in order |
| RuleValidation.RuleValidator.ValidateStructure | src/validators/rule_validator.py:49-86 | each missing list is exactly `Missing` of its checklist; each of the two structural errors is present iff its check fails, and the title error comes before the acknowledgment error; warnings are empty; valid iff all three missing lists and the error list are empty |
| RuleValidation.MissingIsExactlyTheAbsentItems | src/validators/rule_validator.py:59-74 | an item is reported missing iff it is in the checklist and not in the document; the missing list keeps checklist order; it is empty iff every item occurs |
| RuleValidation.MissingFromEmpty | src/validators/rule_validator.py:59-74 | an empty document misses every item of a checklist of non-empty phrases |
| RuleValidation.HasAcknowledgment | src/validators/rule_validator.py:103-106 | the acknowledgment check holds iff the marker "✅ CRITICAL RULES ACKNOWLEDGED" occurs in the document at some position |
| RuleValidation.EmptyDocumentMissesEverything | src/validators/rule_validator.py:13-106 | on empty input all 13 checklist items are missing, and both the title-structure and the acknowledgment checks fail |
| RuleValidation.RuleValidator.CheckTitleStructure | src/validators/rule_validator.py:88-101 | the early-return loop answers true iff all four titles occur in the document |
| RuleValidation.FindIgnoringCase | src/validators/rule_validator.py:133 | the result is the leftmost position at or after `from` where the word matches ignoring case, or none when there is no such position |
| RuleValidation.SearchInOrderDecidesInOrder | src/validators/rule_validator.py:125-133 | taking the earliest occurrence of each word finds the words in order exactly when some placement exists, so `w1.*w2.*…` is decided by a leftmost search |
| RuleValidation.SearchIsRegexSearch | src/validators/rule_validator.py:133 | `Search` succeeds iff some line of the document contains the pattern's words in order, each character matching its pattern letter up to case as `re` equates them (ASCII case, plus `İ`/`ı` for `i`, the Kelvin sign for `k`, `ſ` for `s`); lines, because `.` stops at a newline |
| RuleValidation.RuleValidator.ValidateSafetyRules | src/validators/rule_validator.py:118-137 | the errors are exactly `DangerFindings` of the four patterns; valid iff no error; warnings are empty |
| RuleValidation.DangerFindingsAreTheMatchingPatterns | src/validators/rule_validator.py:132-135 | at most one message per pattern, in pattern order; a message is present iff it names a pattern that matches the document |
| RuleValidation.AllowRootFilesIsDangerous | src/validators/rule_validator.py:125-135 | a document that contains "allow root files" anywhere matches the first pattern and gets a non-empty error list |
| RuleValidation.LongSkipIsDangerous | src/validators/rule_validator.py:127-135 | "ſkip backup" matches `(?i)skip.*backup`, because `re` equates `ſ` with `s`, and the match is reported |
| RuleValidation.EmptyDocumentIsSafe | src/validators/rule_validator.py:118-137 | the empty document matches none of the four patterns, so its safety report has no error and is valid |
| RuleValidation.DangerFindingsStep | src/validators/rule_validator.py:132-135 | one more pattern extends the findings by its message exactly when it matches |
| RuleValidation.NoFindingsWithoutMatch | src/validators/rule_validator.py:132-135 | when no pattern matches, there are no findings |
| RuleValidation.RuleValidator.SuggestImprovements | src/validators/rule_validator.py:149-171 | the suggestions are `Suggestions` over the five advisories in their fixed order |
| RuleValidation.SuggestionsCharacterized | src/validators/rule_validator.py:149-171 | an advisory is suggested iff its marker is absent (for the project description: iff both "Project" and "Description" are absent); suggestions keep the fixed order; the list is empty iff every marker is present |
| RuleValidation.SuggestionsOverAll | src/validators/rule_validator.py:149-171 | the same characterisation for any advisory list that names every advisory |
| RuleValidation.AllSuggestedOnEmpty | src/validators/rule_validator.py:149-171 | on the empty document every advisory is suggested, in order |
| RuleValidation.CompletenessChecks | src/validators/rule_validator.py:190-197 | there are six checks, and all of them pass iff the document has the title structure, the acknowledgment marker, "Documentation Version", "Project" or "Description", "COMMON COMMANDS" and "WORKFLOW" |
| RuleValidation.CountPassedBounds | src/validators/rule_validator.py:199-202 | the passed count is at most the number of checks; it equals the number of checks iff every check passes, and is zero iff none passes |
| RuleValidation.DetailLine | src/validators/rule_validator.py:203-205 | a detail line carries the check's name after its two-character prefix, and starts with ✅ iff the check passed |
| RuleValidation.DetailLines | src/validators/rule_validator.py:199-205 | one detail line per check, in check order |
| RuleValidation.RuleValidator.Tally | src/validators/rule_validator.py:199-205 | the loop counts every check, counts the passed ones, and emits the detail lines in order |
| RuleValidation.RuleValidator.CheckCompleteness | src/validators/rule_validator.py:183-210 | six checks in their fixed order; passed is the number that pass (at most 6); one detail line per check; the score is passed × 100 / 6, lies in 0..100, and is 100 iff every check passes |
| RuleValidation.Percentage | src/validators/rule_validator.py:207-208 | with no checks the score stays 0; otherwise, with passed ≤ total, it lies in 0..100, is 100 iff every check passed, and is 0 iff none did |
| RuleValidation.EmptyDocumentScoresZero | src/validators/rule_validator.py:190-208 | on the empty document no check passes, so the score is 0 |
| FileHandling.ValidateMarkdown | src/utils/file_handler.py:84-105 | errors and warnings are the line-numbered reports of malformed headings and suspect fence tags over the `split('\n')` lines; valid iff there is no error |
| FileHandling.MalformedHeading | src/utils/file_handler.py:95-96 | a line is reported as a heading without a space iff it has at least two characters, starts with `#`, and its second character is not a blank |
| FileHandling.SuspectFenceTag | src/utils/file_handler.py:101-102 | only a fence line with text after the three backticks is flagged; a tag made only of letters and digits is accepted; text that is only blanks is flagged, and so is any character other than a blank, a letter or a digit |
| FileHandling.ReportedStep | src/utils/file_handler.py:93-103 | one more line extends the report by that line's entry, if it is flagged |
| FileHandling.ReportedEntries | src/utils/file_handler.py:93-103 | every entry carries the message and a 1-based line number of a flagged line; line numbers strictly increase |
| FileHandling.ReportedComplete | src/utils/file_handler.py:93-103 | every flagged line is reported with its 1-based number; the report is empty iff no line is flagged |
| FileHandling.MarkdownLineExamples | src/utils/file_handler.py:90-103 | `#No Space` is reported and `# Proper Heading` and `#` are not; a bare fence and ` ```bash ` pass the fence check, while a fence followed only by blanks is flagged; the empty text has no heading error |
| FileHandling.DeeperHeadingsReported | src/utils/file_handler.py:95-98 | every heading of level two or deeper, written with a space, is reported as missing its space |
| FileHandling.HeadingCheckDiffersOnlyOnDeeperHeadings | src/utils/file_handler.py:95-98 | a level-aware heading rule accepts headings of every level, and agrees with the check on every line that does not start with `##` |
| FileHandling.KeyInjective | src/utils/file_handler.py:120-128 | the four fields store under four distinct keys |
| FileHandling.FirstLabel | src/utils/file_handler.py:121-128 | a field picked by the extraction chain has its marker on the line, so the line has a colon; no field is picked iff the line holds none of the four markers |
| FileHandling.LabelHasColon | src/utils/file_handler.py:121-128 | a line that holds a marker holds a colon, so `split(':', 1)[1]` exists |
| FileHandling.FirstLabelSpec | src/utils/file_handler.py:121-128 | the elif chain picks a field iff the line holds some marker; the field it picks has its marker on the line, and no field earlier in the chain has |
| FileHandling.FieldValue | src/utils/file_handler.py:122 | the value is the slice of the line left after removing whitespace on both sides of the text after the line's first colon: it lies after that colon, only whitespace precedes it there and only whitespace follows it, and it neither starts nor ends with whitespace |
| FileHandling.AfterColonSlice | src/utils/file_handler.py:122 | stripping the tail of a line from a position gives a slice of the line with only whitespace between that position and its start and after its end |
| FileHandling.FirstIndexOf | src/utils/file_handler.py:122 | the position of the first colon: it holds a colon, and no earlier position does |
| FileHandling.ExtractMetadata | src/utils/file_handler.py:117-130 | the loop builds exactly `ExtractedMetadata`, with later lines overriding earlier ones |
| FileHandling.ExtractOnlyFieldKeys | src/utils/file_handler.py:117-130 | only the four field keys are ever set |
| FileHandling.LastWith | src/utils/file_handler.py:120-128 | the index of the last line whose first marker is the field's, or -1 when there is none |
| FileHandling.ExtractField | src/utils/file_handler.py:117-130 | a field is present iff some line has its marker first in the chain; its value is the stripped text after the first colon of the last such line |
| FileHandling.ExtractedNewlineFree | src/utils/file_handler.py:118-128 | no extracted value holds a newline |
| FileHandling.ChosenLabel | src/utils/file_handler.py:147-154 | a field picked by the update chain has its marker on the line and a new value; no field is picked iff no field with a new value has its marker on the line |
| FileHandling.ChosenLabelSpec | src/utils/file_handler.py:146-156 | the update chain picks a field iff the line holds the marker of a field that has a new value; the field it picks is one such field, and no field earlier in the chain is |
| FileHandling.Render | src/utils/file_handler.py:148-154 | the canonical line starts with `> ` and the field's marker, followed by a blank, and ends with the new value verbatim |
| FileHandling.UpdatedLines | src/utils/file_handler.py:146-156 | one output line per input line, each the input line rewritten by the chain |
| FileHandling.UpdateMetadata | src/utils/file_handler.py:143-158 | the loop builds exactly `UpdatedText`: the rewritten lines joined by newlines |
| FileHandling.UpdateWithoutValues | src/utils/file_handler.py:143-158 | with no value for any of the four keys the text comes back unchanged |
| FileHandling.RewriteLineNewlineFree | src/utils/file_handler.py:146-156 | rewriting a newline-free line with newline-free values gives a newline-free line |
| FileHandling.UpdatedSplit | src/utils/file_handler.py:143-158 | with newline-free values, splitting the updated text gives back exactly the rewritten lines |
| FileHandling.UpdateKeepsLineStructure | src/utils/file_handler.py:143-158 | with newline-free values: same line count; every line the chain does not pick is unchanged; a picked line becomes its field's canonical line with the new value |
| FileHandling.ChosenFollowsFirst | src/utils/file_handler.py:120-156 | when a line's first marker is a field's and that field has a new value, the update chain picks that field |
| FileHandling.UnmarkedLineKept | src/utils/file_handler.py:146-156 | a line without any marker is never rewritten |
| FileHandling.MarkerLineRerendered | src/utils/file_handler.py:120-156 | with the metadata extracted from the same lines, a line whose first marker is a field's is rewritten as that field's canonical line |
| FileHandling.UpdateWithExtracted | src/utils/file_handler.py:117-158 | updating a text with its own extracted metadata keeps the line count and every line without a marker, and re-renders each marker line canonically with its field's extracted value |
| FileHandling.RenderReadBack | src/utils/file_handler.py:121-154 | when the value holds no other field's marker, a canonical line is read back as its own field with the stripped value, and the update chain picks it for its own field |
| FileHandling.OnlyLabel | src/utils/file_handler.py:120-156 | a line holding one field's marker and no other is read as that field, and the update chain picks it whenever the field has a new value |
| FileHandling.RewriteLineTwice | src/utils/file_handler.py:146-156 | when no new value holds another field's marker, rewriting an already rewritten line changes nothing |
| FileHandling.UpdateIsIdempotent | src/utils/file_handler.py:143-158 | when no new value holds a newline or another field's marker, a second update with the same values leaves the text unchanged |
| FileHandling.RewrittenLineReadBack | src/utils/file_handler.py:121-156 | when no new value holds another field's marker: after rewriting, a line is read as a field's iff the chain picked that field for it, and it then reads back the stripped new value |
| FileHandling.RewrittenLastWith | src/utils/file_handler.py:120-156 | when no new value holds another field's marker: after an update, the last line read as a field's is one that the chain picked for that field; there is such a line iff the chain picked one |
| FileHandling.ExtractAfterRewrite | src/utils/file_handler.py:117-156 | when no new value holds another field's marker, the same read-back over a list of lines |
| FileHandling.ExtractAfterUpdate | src/utils/file_handler.py:117-158 | when no new value holds a newline or another field's marker: after an update, a field with a new value is present iff the chain rewrote some line for it, and it then holds the stripped new value |
| Text.Split | src/utils/file_handler.py:90 | `split('\n')` yields at least one piece, no piece holds a newline, and joining the pieces with newlines gives the text back |
| Text.JoinSplit | src/utils/file_handler.py:158 | for a non-empty list, `'\n'.join` followed by `split('\n')` gives back newline-free lines |
| Text.ContainsIff | src/validators/rule_validator.py:60 | `t in s` holds iff t occurs in s at some position |
| Text.ContainsWithinLine | src/validators/rule_validator.py:133 | a newline-free phrase found in the text is found inside one of its lines |
| Text.StripIsTrimmedSlice | src/utils/file_handler.py:122 | `strip()` removes exactly a whitespace run at each end, and what remains neither starts nor ends with whitespace |
| Text.StripWithin | src/utils/file_handler.py:122 | every character of the stripped text comes from the original text |

## Left out

- Reading, writing and backing up files is not modelled: it is file-system I/O, and the
  backup name depends on the clock. The driver script is left out as well.
- The completeness score is an exact `real`, not a Python float. Its `:.1f` formatting
  belongs to the driver.
- Only the four fixed dangerous patterns are modelled. Each is a case-insensitive
  `w1.*w2.*…` search, taken as its words occurring in order within one line. A general
  regular-expression engine is not modelled.
- Case-insensitive matching is modelled only for the ASCII letters of the four patterns: a
  character of the text matches a pattern letter when the two agree in lower case, or when
  it is `İ` or `ı` for `i`, the Kelvin sign for `k`, or `ſ` for `s`. General Unicode case
  folding is not modelled.
- `isalnum` is modelled for ASCII letters and digits only. Python also accepts non-ASCII
  letters, digits and numerals such as `é`, `²` or `٣`, so a fence tag containing them is
  flagged by the model but not by the source.
- An error message such as `"Line 3: …"` is modelled as the pair of its line number and its
  message text.
- FileHandling.UpdateIsIdempotent: requires that no new value holds a newline or the marker
  of another field. A value with a newline splits its line in two, and a value holding
  another field's marker is read back as that other field.
- FileHandling.ExtractAfterUpdate: requires the same two conditions on the new values, for
  the same reasons.
- FileHandling.UpdateKeepsLineStructure: requires newline-free values, because a value with
  a newline that is written into a line adds lines to the text; the converse (a newline in
  a value no line receives changes nothing) is not stated.
