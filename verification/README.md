# Special-control hints for the web agent

This project models the special-control engine of the web agent and the way
the planning backend passes its findings to the language-model planner.

- The engine walks the captured DOM tree depth first. For every element that
  looks like a date picker, it checks the user's instruction for a date. If
  it finds one, it recommends two steps: click the picker, then type the date
  in `MM/DD/YYYY` form.
- The detection heuristics are: `data-testid`, the `aria-label` and the
  `placeholder` compared after lower-casing, and `<input type="date">`.
- Two dates are recognised: "Month Day, Year" and `MM/DD/YYYY`. A "Month Day,
  Year" date is rewritten to `MM/DD/YYYY`. A numeric date is kept as written.
- The backend formats the recommendations as a block of hint text
  ("Special Control Hints:") that goes into the planner's action context.

Modules, one per component:

- `Options`: optional values (`undefined`, `null`).
- `SharedTypes`: the shared data types `WebElementInfo`, `DomNode`,
  `ActionType`, `RecommendedActionStep` and `SpecialControlRecommendation`.
- `Text`: character classes, ASCII lower-casing, `includes`, `String(n)` and
  `padStart`.
- `DomTraversal`: `traverseDom`, with the pre-order it visits in.
- `DatePatterns`: the two date regular expressions. Each is read twice: as a
  scanner that finds the leftmost match, and as a language with word
  boundaries. The two readings are proved to agree.
- `DateNormalize`: `normalizeDateToMMDDYYYY`.
- `SpecialControls`: `identifySpecialControls`, with detection, extraction
  and the recommendation.
- `HintText`: `formatRecommendationsToText`. The text is described as a list
  of meaningful lines. The appending formatter is proved to print exactly
  those lines.
- `DateHints`: what a date-picker recommendation looks like once formatted.

Paths below are relative to the repository root of the web agent.

## Model

| member | source | states |
|---|---|---|
| DomTraversal.TraverseDom | packages/web-agent/plugins/special-controls/src/index.ts:14-24 | the recursive traversal (visit the node, then each child's subtree in order) collects exactly what visiting the nodes of the tree's pre-order list one after the other yields |
| DomTraversal.VisitsEveryNodeOnceInPreorder | packages/web-agent/plugins/special-controls/src/index.ts:14-24 | the traversal meets every node of the tree exactly once: the node paths in visiting order are exactly the valid paths, strictly increasing in pre-order (parent before descendants, left subtrees before right), and the k-th visited node is the node at the k-th path |
| Text.Includes | packages/web-agent/plugins/special-controls/src/index.ts:70-71 | `includes` is true exactly when the needle occurs at some position of the text |
| Text.PadStart | packages/web-agent/plugins/special-controls/src/index.ts:42-43 | `padStart` returns a string of at least the target width that ends with the input and is filled with the fill character before it |
| Text.NatToStringOfCanonical | packages/web-agent/plugins/special-controls/src/index.ts:42-45 | printing the number a canonical digit string denotes gives that string back (decimal printing and reading are inverse) |
| DatePatterns.MatchAtIff | packages/web-agent/plugins/special-controls/src/index.ts:28-29 | the scanner for either pattern ends a match starting at i at j exactly when the pattern, with its `\b` assertions, the month alternation (case-insensitive), `\s+`, `\d{1,2}`, `,`, `\s*` and `\d{4}` (or the two slashes), matches exactly the text from i to j |
| DatePatterns.MatchEndUnique | packages/web-agent/plugins/special-controls/src/index.ts:28-29 | for both patterns at most one match starts at a given position, so a match is determined by its start |
| DatePatterns.Find | packages/web-agent/plugins/special-controls/src/index.ts:78-86 | `match` returns a non-empty span at which the pattern matches, with no match starting further left, and nothing only when no position of the text starts a match |
| DatePatterns.FindIsLeftmostMatch | packages/web-agent/plugins/special-controls/src/index.ts:78-86 | `match` returns nothing exactly when the pattern occurs nowhere, and otherwise a match with no match starting further left |
| DatePatterns.ShapeIsWholeMatch | packages/web-agent/plugins/special-controls/src/index.ts:28-29 | a word of either date language, taken on its own, is matched whole by its pattern |
| DatePatterns.FragmentShape | packages/web-agent/plugins/special-controls/src/index.ts:78-86 | the text of any match found inside a longer instruction is a word of the pattern's language |
| DateNormalize.Normalize | packages/web-agent/plugins/special-controls/src/index.ts:32-52 | a normalized date is non-empty and holds an `MM/DD/YYYY` match; text holding an `MM/DD/YYYY` match is returned unchanged; text holding neither kind of date gives null |
| DateNormalize.TwoDigits | packages/web-agent/plugins/special-controls/src/index.ts:42-43 | `String(n).padStart(2, '0')` for n below 100 is two digits that denote n |
| DateNormalize.NormalizeKeepsNumericDate | packages/web-agent/plugins/special-controls/src/index.ts:33-37 | text holding an `MM/DD/YYYY` match anywhere is returned unchanged |
| DateNormalize.NormalizeMonthDayYear | packages/web-agent/plugins/special-controls/src/index.ts:39-45 | a "Month Day, Year" text becomes the two-digit month (from the name's position in the alternation), the two-digit day and the year, separated by slashes, when the day exists in that month of a four-digit year |
| DateNormalize.NormalizeRejectsNonDates | packages/web-agent/plugins/special-controls/src/index.ts:32-52 | text in which neither pattern occurs normalizes to null |
| DateNormalize.NormalizeIdempotent | packages/web-agent/plugins/special-controls/src/index.ts:32-52 | normalizing a normalized date changes nothing |
| DateNormalize.FormatIsNumericDate | packages/web-agent/plugins/special-controls/src/index.ts:42-45 | the printed date is ten characters with slashes at positions 2 and 5 and is a word of the `MM/DD/YYYY` language |
| DateNormalize.FormatReadsBack | packages/web-agent/plugins/special-controls/src/index.ts:42-45 | the month, day and year can be read back from the printed date's three digit groups |
| DateNormalize.MonthDayYearFieldsOfText | packages/web-agent/plugins/special-controls/src/index.ts:41 | the reader of a "Month Day, Year" text yields the month of its name, the value of its day digits and the value of its year digits |
| DateNormalize.NormalizeMarchExample | packages/web-agent/plugins/special-controls/src/index.test.ts:51-57 | "March 15, 2024" normalizes to "03/15/2024" |
| DateNormalize.NormalizeMayExample | packages/web-agent/plugins/special-controls/src/index.test.ts:105-111 | "May 5, 2023" normalizes to "05/05/2023", with the day padded |
| DateNormalize.NormalizeNumericExample | packages/web-agent/plugins/special-controls/src/index.test.ts:37-46 | "03/15/2024" is kept as it is |
| SpecialControls.IsDatePicker | packages/web-agent/plugins/special-controls/src/index.ts:69-72 | an element is a date picker exactly when `data-testid` is `date-picker-input`, or the lower-cased `aria-label` contains "date picker", or the lower-cased `placeholder` contains "date", or the lower-cased tag is `input` with `type` `date` |
| SpecialControls.DatePickerIgnoresCase | packages/web-agent/plugins/special-controls/src/index.ts:69-72 | detection depends only on `data-testid`, `type`, and the lower-cased `aria-label`, `placeholder` and tag name |
| SpecialControls.DetectionExamples | packages/web-agent/plugins/special-controls/src/index.ts:69-72 | the fixtures marked by `data-testid`, `placeholder`, `aria-label` and `type="date"` (with an upper-case tag) are date pickers, and a bare `div` is not |
| SpecialControls.ExtractDate | packages/web-agent/plugins/special-controls/src/index.ts:75-90 | an extracted date has a non-empty fragment, and its typed value is what the normalizer makes of that fragment |
| SpecialControls.ExtractDatePrefersMonthDayYear | packages/web-agent/plugins/special-controls/src/index.ts:78-81 | when a "Month Day, Year" date occurs, the leftmost one is taken, and there is no date if it does not normalize (no fallback to the other pattern) |
| SpecialControls.ExtractDateFallsBackToNumericDate | packages/web-agent/plugins/special-controls/src/index.ts:82-87 | otherwise the leftmost `MM/DD/YYYY` date is taken and typed exactly as written |
| SpecialControls.ExtractDateNeedsADate | packages/web-agent/plugins/special-controls/src/index.ts:75-90 | an instruction with neither kind of date yields no date |
| SpecialControls.ExtractedFragmentIsADate | packages/web-agent/plugins/special-controls/src/index.ts:78-86 | the extracted fragment is always the text of a match of one of the patterns in the instruction |
| SpecialControls.ExtractMonthDayYear | packages/web-agent/plugins/special-controls/src/index.ts:78-81 | the leftmost "Month Day, Year" date is typed as the `MM/DD/YYYY` text of its month, day and year when that day exists, and otherwise nothing is recommended |
| SpecialControls.DateSteps | packages/web-agent/plugins/special-controls/src/index.ts:91-105 | a date recommendation has two steps, a click and then an input, both aimed at the picker's id with no selector; only the input carries a value, the normalized date; both record the fragment as `associatedText`, the input also the format `MM/DD/YYYY`; and their descriptions are the two fixed sentences naming the id and the normalized date |
| SpecialControls.Recommend | packages/web-agent/plugins/special-controls/src/index.ts:107-112 | the recommendation for a picker names the picker's id, keeps the fragment as the user wrote it, has confidence 0.75 and carries the two date steps |
| SpecialControls.VisitNode | packages/web-agent/plugins/special-controls/src/index.ts:62-115 | a node contributes one recommendation exactly when it has an element, the element is a date picker and the instruction holds a date, and nothing otherwise; that recommendation is the one for its element and the instruction's date |
| SpecialControls.IdentifySpecialControls | packages/web-agent/plugins/special-controls/src/index.ts:55-118 | the result is one recommendation per date-picker element, in the pre-order the traversal meets them, all for the instruction's date, and empty when the instruction holds no date |
| SpecialControls.DatePickersMembers | packages/web-agent/plugins/special-controls/src/index.ts:62-72 | an element is among the kept date pickers exactly when it is a date picker and some node holds it |
| SpecialControls.RecommendationsArePickers | packages/web-agent/plugins/special-controls/src/index.ts:107-112 | every recommendation names a date-picker element of the tree |
| SpecialControls.NoDatePickerNoRecommendation | packages/web-agent/plugins/special-controls/src/index.test.ts:12-19 | a tree without a date-picker element yields no recommendation |
| SpecialControls.NoDigitNoRecommendation | packages/web-agent/plugins/special-controls/src/index.test.ts:60-64 | an instruction without a digit yields no recommendation, whatever the tree |
| SpecialControls.AbbreviatedMonthNotRecognised | packages/web-agent/plugins/special-controls/src/index.test.ts:138-145 | no recommendation ever carries the fragment "Mar 1, 2024": an abbreviated month is not a date of either form |
| HintText.Percent | packages/web-agent/backend/src/index.ts:54 | `Math.round(confidence * 100)` is the integer nearest to the percentage, with halves rounded up |
| HintText.StepDetails | packages/web-agent/backend/src/index.ts:47-49 | a step line shows its value exactly when it has one, its target exactly when that is set and differs from the recommendation's element, and its selector exactly when it has one, in that order; it shows nothing else and nothing twice |
| HintText.RecommendationLinesLayout | packages/web-agent/backend/src/index.ts:39-55 | a recommendation's lines are, in order: the header, the fragment line exactly when it has a fragment, the steps title followed by exactly the numbered step lines when it has steps, and the confidence line when it is set and not zero; nothing else |
| HintText.RecommendationLinesShape | packages/web-agent/backend/src/index.ts:39-55 | a recommendation prints as its numbered header first, a fragment line exactly when it has a fragment, the steps title exactly when it has steps, and a confidence line, last and only once, exactly when its confidence is set and not zero |
| HintText.RecommendationHeader | packages/web-agent/backend/src/index.ts:38-55 | the header is the only element header among a recommendation's lines: no fragment, step or confidence line is one |
| HintText.HeadersInOrder | packages/web-agent/backend/src/index.ts:38-39 | the hint text has one element header per recommendation, numbered from 1 in list order, each naming that recommendation's element |
| HintText.HintTextStart | packages/web-agent/backend/src/index.ts:33-37 | the hint text is empty exactly when the list is missing or empty, and otherwise starts with the title |
| HintText.StepLineText | packages/web-agent/backend/src/index.ts:46-50 | the text appended for a step is that step's line: number, description, action, then its details |
| HintText.AppendStepLines | packages/web-agent/backend/src/index.ts:43-51 | the step loop appends exactly the numbered step lines |
| HintText.AppendRecommendation | packages/web-agent/backend/src/index.ts:39-55 | the text appended for one recommendation is exactly its lines |
| HintText.FormatRecommendationsToText | packages/web-agent/backend/src/index.ts:32-58 | the formatter prints exactly the hint lines: nothing for a missing or empty list, otherwise the title and then each recommendation's lines in order |
| DateHints.DateRecommendationLines | packages/web-agent/plugins/special-controls/src/index.ts:90-112 | a date-picker recommendation prints as its header, the date as the user wrote it, the steps title, the two numbered steps and a confidence of 75 percent |
| DateHints.InputStepDetails | packages/web-agent/backend/src/index.ts:47-48 | the typing step shows the normalized date and no target, because the target is the picker itself |
| DateHints.IdentifiedRecommendationLines | packages/web-agent/backend/src/index.ts:38-55 | every recommendation the engine makes prints as those six lines, for the instruction's date |

## Left out

- The Express server, its routes, `dotenv`, CORS and the call to the planner: they are I/O around the formatter, which is modelled on its own.
- The frontend (`ApiClient`, `DomCapturer`, `PlanExecutor`) and the test runner configuration: they are not part of the engine.
- Several `WebElementInfo` fields are never consulted by the engine or the formatter, so they are absent: `content`, `nodeType`, `indexId`, `nodeHashId`, `rect`, `center` and `isVisible`.
- The example usage block of the engine is commented out in the source.
- The normalizer's `catch` branch, with its `console.warn`, is not modelled. `new Date` never throws, so the branch cannot run. Where the model's normalizer returns null for a "Month Day, Year" text, that is the case described on the Normalize line below.
- A step's `parameters` values are strings: the engine stores only strings there, and the formatter never prints them.
- Normalize: reads "Month Day, Year" text only when the day exists in its month and the year is between 1000 and 9999, and returns null otherwise. That null stands in for what JavaScript prints in the other cases: an impossible day rolled over into the next month, or `NaN/NaN/NaN` for an invalid date. ECMAScript does not specify how `new Date` parses this format, so the years below 1000 depend on the engine. V8's legacy parser reads the years 0 to 49 as 2000 to 2049 and 50 to 99 as 1900 to 1999, so "March 15, 0024" gives "03/15/2024".
- Normalize: a "Month Day, Year" text is read only when the whole text is one date, so "foo March 15, 2024" gives null while `new Date` might still read it. The engine only ever passes a whole matched fragment, and for those the two agree.
- Percent: computed on exact reals, not on IEEE doubles. For 0.75, the only confidence the engine produces, the two agree.
- Text.Lower: folds only ASCII letters and leaves other characters unchanged. JavaScript's `toLowerCase` also folds non-ASCII letters, some of them to ASCII (the Kelvin sign becomes `k`) or to two characters.
- DomTraversal.TraverseDom: the visitor is modelled as the list of items it appends. The engine's only side effect is pushing to its result array.
