# GraphBot chart-intent pipeline in Dafny

GraphBot lets a user upload a CSV file and describe the chart they want in words. A BERT
token classifier (the prediction service) turns the words into a chart intent: an x-axis
label, a y-axis label and a plot type. The Angular front end then snaps that intent onto
the real column names of the uploaded table and builds the chart data.

This project models the deterministic string and sequence logic of that pipeline and proves
properties about it:

- `Tabular` models both CSV parsers. One belongs to the chart component and one to the query
  service. They differ, so they are kept apart. Rows form a JavaScript object, modelled as an
  insertion-ordered association list (`AssocList`): assigning an existing key replaces its
  value and keeps its place.
- `EditDistance` holds the textbook recursive edit distance and its algebraic properties. It
  also holds the component's `levenshtein`, written as an array method over the
  `(|b|+1) × (|a|+1)` table, and proves that method equal to the recursive distance.
- `Resolver` covers column-name normalisation, `findMostSimilar` and `matchOptions`.
  `findMostSimilar` picks the earliest of the equally nearest candidates. `matchOptions` maps
  a match back to a column through `indexOf`.
- `ChartData` models the data half of `parseChartData`. Each point holds the two cell texts
  that `parseFloat` would receive.
- `QueryHistory` models the service's append-only list of queries.
- `NerPostprocess` models `process_input` after the model has labelled the tokens: it maps ids
  to tags, drops "O", strips the tag prefixes, groups tokens by entity, deletes '#', folds any
  "scatter" plot type to exactly `scatter`, and deletes brackets. It is proved equal to an
  independent per-entity reference reading, `Expected`.
- `LabelAlignment` models the sub-token label alignment of the training script.
- `Strings` and `Wrappers` are shared helpers: `split`, `trim`, lower-casing, removal of a
  character class, `replace`, `indexOf`, and `Option`/`Result`.

Where the source can fail, the failure is modelled as a value:

- `lines[0].split` on an empty array becomes `Failure(MissingHeaderLine)`.
- A `KeyError` or `IndexError` becomes a `Failure`.
- A JavaScript `undefined` becomes `None`.

Some of the code's behaviour is easy to misread; the model follows the code:

- `matchOptions` does not normalise the predicted axis labels. Only the column names are
  normalised (query-state.component.ts:191-198). `Resolver.MatchOptions` therefore compares
  the raw labels with the normalised names.
- `findMostSimilar` with no candidates returns `""` (query-state.component.ts:177, 187), and
  `matchOptions` then yields `undefined` axis labels, modelled as `None`.
- The prediction service leaves out an axis-label field when no token was tagged with it (a
  missing plot type instead makes `process_input` raise KeyError, Model/run_model.py:49).
  `findMostSimilar` on an `undefined` target, an axis label or a plot type, throws a TypeError
  in `levenshtein` (query-state.component.ts:143) as soon as there is a candidate.
  `initializeChart` catches it (query-state.component.ts:131-133), and no chart is drawn. `Resolver.MatchOptions` returns `Failure(UndefinedTarget)` in that case.
- `matchOptions` normalises every header name, the key column's included
  (query-state.component.ts:192-195), so it can pick the key column for an axis. That column
  has index 0, and `values[xIndex - 1]` then reads `values[-1]`, which is `undefined`
  (query-state.component.ts:227). The chart plots NaN for every row on that axis;
  `ChartData.ParseChartData` gives `None` for those coordinates.
- Neither parser checks row lengths against the header, and neither skips empty lines. The
  component parser stores a trailing empty line as the row keyed `""`. The service parser
  never reads the final line at all.
- The component parser does not cut values at `'\r'`; `trim` removes a trailing `'\r'`. Only
  the service parser cuts at the first `'\r'`.

## Model

| member | source | states |
|---|---|---|
| Tabular.ParseData | FLM-app/src/app/content/query-state/query-state.component.ts:90-98 | fails exactly when there is no line; otherwise the header is the first line split on ',' with every name trimmed, and there are at most as many rows as lines after the header |
| Tabular.ParseDataAbsent | FLM-app/src/app/content/query-state/query-state.component.ts:92-97 | a key has no row exactly when no line after the header has it as first cell |
| Tabular.ParseDataLastWriteWins | FLM-app/src/app/content/query-state/query-state.component.ts:92-97 | a key holds the trimmed remaining cells of the last line that starts with it |
| Tabular.ParseDataKeys | FLM-app/src/app/content/query-state/query-state.component.ts:92-97 | the row keys are the first cells of the lines after the header, each once, in order of first appearance |
| Tabular.ServiceParseData | FLM-app/src/app/query-service.service.ts:74-93 | fails exactly when there is no line; the keys are the first cells of lines 1 .. len-2 in first-appearance order without repeats; a key is absent exactly when none of those lines starts with it; a key holds the values of the last such line, each cut before its first '\r' |
| Tabular.ServiceRows | FLM-app/src/app/query-service.service.ts:83-91 | the same four facts about the table the loop builds over lines 1 .. len-2, the final line never being read |
| Tabular.ServiceLastWriteWins | FLM-app/src/app/query-service.service.ts:84-90 | resetting a repeated key leaves the cut values of the last line read with that key |
| Tabular.CutValues | FLM-app/src/app/query-service.service.ts:87-90 | the inner loop yields exactly the cells after the key, each cut before its first '\r' |
| Strings.SplitThenJoin | FLM-app/src/app/content/query-state/query-state.component.ts:93 | splitting on ',' loses nothing: joining the pieces gives back the line |
| Strings.JoinThenSplit | FLM-app/src/app/content/query-state/query-state.component.ts:93 | splitting a join of comma-free cells gives back the cells |
| Strings.Trim | FLM-app/src/app/content/query-state/query-state.component.ts:91 | a trimmed name is a contiguous slice of the original, neither end is JavaScript white space, and only white space was cut after it |
| Strings.BeforeFirst | FLM-app/src/app/query-service.service.ts:88 | `split('\r')[0]` is the longest prefix without '\r': it is a prefix, has no '\r', and is followed by '\r' when shorter than the text |
| AssocList.AssignGet | FLM-app/src/app/content/query-state/query-state.component.ts:95 | after `acc[key] = v`, reading `key` gives v and every other key reads as before |
| AssocList.AssignKeys | FLM-app/src/app/query-service.service.ts:86 | assigning an existing key keeps the key order; a new key is appended at the end |
| AssocList.BuildLastWriteWins | FLM-app/src/app/content/query-state/query-state.component.ts:92-97 | folding assignments leaves each key with the value of its last assignment |
| AssocList.BuildKeys | FLM-app/src/app/content/query-state/query-state.component.ts:92-97 | folding assignments lists each assigned key once, in order of first assignment |
| EditDistance.Levenshtein | FLM-app/src/app/content/query-state/query-state.component.ts:136-164 | the dynamic-programming table's bottom-right cell is the recursive edit distance of the two strings |
| EditDistance.CellRecurrence | FLM-app/src/app/content/query-state/query-state.component.ts:147-161 | each table cell equals its diagonal neighbour on matching characters and otherwise one more than the least of its three neighbours |
| EditDistance.MatchingLastCharacters | FLM-app/src/app/content/query-state/query-state.component.ts:149-150 | copying the diagonal on matching characters agrees with the full recurrence |
| EditDistance.DistanceBounds | FLM-app/src/app/content/query-state/query-state.component.ts:139-145 | distance to or from "" is the other length; any distance lies between the length difference and the longer length |
| EditDistance.DistanceZeroIffEqual | FLM-app/src/app/content/query-state/query-state.component.ts:136-164 | the distance is 0 exactly when the strings are equal |
| EditDistance.DistanceSymmetric | FLM-app/src/app/content/query-state/query-state.component.ts:136-164 | swapping the two arguments leaves the distance unchanged |
| Resolver.Normalize | FLM-app/src/app/content/query-state/query-state.component.ts:193-194 | a normalised name is no longer than the column name and holds no bracket, space or upper-case ASCII letter |
| Resolver.NormalizeIdempotent | FLM-app/src/app/content/query-state/query-state.component.ts:193-194 | normalising twice is normalising once |
| Resolver.NormalizeAppend | FLM-app/src/app/content/query-state/query-state.component.ts:193-194 | normalisation works character by character: it distributes over concatenation |
| Resolver.NormalizeChar | FLM-app/src/app/content/query-state/query-state.component.ts:193-194 | a single character is dropped exactly when it is a bracket or a space, and otherwise kept lower-cased; with NormalizeAppend this determines the normalised name completely |
| Resolver.NormalizeAll | FLM-app/src/app/content/query-state/query-state.component.ts:191-195 | the normalised list has the columns' length and order |
| Resolver.FindMostSimilar | FLM-app/src/app/content/query-state/query-state.component.ts:175-188 | with no candidates the result is ""; an undefined target with some candidate throws; otherwise it is the candidate at the earliest index whose distance is at most every candidate's |
| Resolver.FirstNearestUnique | FLM-app/src/app/content/query-state/query-state.component.ts:181-184 | the strict `<` tie-break picks a single index |
| Resolver.FirstNearestIsFirstOccurrence | FLM-app/src/app/content/query-state/query-state.component.ts:200-202 | `indexOf` of the returned string finds the chosen index again |
| Resolver.MatchOptions | FLM-app/src/app/content/query-state/query-state.component.ts:190-210 | throws exactly when the plot type is undefined, or an axis label is undefined while there are columns; otherwise, with no columns both axis labels are undefined, and with columns each is the column whose normalised name is earliest-nearest to the raw predicted label; the plot type is the earliest-nearest of scatter, bar, line, doughnut |
| ChartData.LabelIndex | FLM-app/src/app/content/query-state/query-state.component.ts:218-219 | the index is -1 exactly for an undefined or missing label, and otherwise the first position of the label |
| ChartData.Project | FLM-app/src/app/content/query-state/query-state.component.ts:226-229 | one point per row, in row order, holding values[xIndex-1] and values[yIndex-1] or undefined |
| ChartData.OffsetSelectsColumn | FLM-app/src/app/content/query-state/query-state.component.ts:226-229 | the offset by one selects the header's column in the full row; the key column selects undefined |
| ChartData.ParseChartData | FLM-app/src/app/content/query-state/query-state.component.ts:212-237 | produces a chart exactly when there is data and both labels are header names; then one point per row holding the cells under the labels' columns, or undefined for a label naming the key column, the matched plot type, and the title "x vs y" |
| QueryHistory.AddQuery | FLM-app/src/app/query-service.service.ts:30-40 | the history grows by the new query at the end and is otherwise unchanged; afterwards `getQueries` lists the earlier queries followed by the new one and `getCurrentQuery` returns it |
| QueryHistory.GetCurrentQuery | FLM-app/src/app/query-service.service.ts:34-36 | undefined exactly when the history is empty, otherwise the last query |
| QueryHistory.HistoryInInsertionOrder | FLM-app/src/app/query-service.service.ts:30-40 | after adding queries one by one, the history is exactly those queries in order and the current query is the last one added |
| NerPostprocess.MapLabels | Model/run_model.py:29-30 | succeeds exactly when every id is in the label map; then pairs every token with its tag; otherwise reports an unknown id from the input |
| NerPostprocess.DropOutside | Model/run_model.py:33 | exactly the pairs not tagged "O" remain, and no more of them than there were pairs |
| NerPostprocess.DropOutsideSingle | Model/run_model.py:33 | a single pair is kept exactly when it is not tagged "O" |
| NerPostprocess.DropOutsideAppend | Model/run_model.py:33 | dropping distributes over concatenation; with DropOutsideSingle it makes the step the in-order filter that keeps order and multiplicity |
| NerPostprocess.StripTagGivesEntity | Model/run_model.py:29-36 | removing "B-" and "I-" from any of the six entity tags leaves exactly its entity name |
| NerPostprocess.LabelStagesKeepEntities | Model/run_model.py:29-36 | mapping, dropping "O" and stripping prefixes keep exactly the entity tokens, in order, each with its entity name |
| NerPostprocess.GroupAbsent | Model/run_model.py:39-42 | grouping creates an entry for exactly the labels that occur |
| NerPostprocess.GroupConcatenates | Model/run_model.py:39-46 | each label's entry is the concatenation of its tokens in input order with every '#' deleted |
| NerPostprocess.GroupKeys | Model/run_model.py:39-42 | the entries appear once each, in the order of their first token |
| NerPostprocess.StandardizePlotType | Model/run_model.py:49-50 | fails with a missing-key error exactly when there is no plot type |
| NerPostprocess.StandardizeGet | Model/run_model.py:49-50 | a plot type mentioning "scatter" in any case becomes exactly "scatter"; nothing else changes |
| NerPostprocess.StripBracketsGet | Model/run_model.py:53-54 | keys are kept and every value loses exactly its bracket characters |
| NerPostprocess.ProcessInputUnknownId | Model/run_model.py:29-30 | an id outside the label map makes the whole call fail with an unknown-id error |
| NerPostprocess.ProcessInputMissingPlotType | Model/run_model.py:49 | with known ids, the call fails exactly when no token was predicted as the plot type, and then reports the missing key |
| NerPostprocess.ProcessInputValues | Model/run_model.py:29-56 | every field equals the reference reading: absent without tokens; otherwise the concatenated tokens without '#' or brackets, or exactly "scatter" for a scatter plot type |
| NerPostprocess.ProcessInputKeys | Model/run_model.py:36-42 | the only fields are the entity names that occur, each once, in order of their first token |
| LabelAlignment.AlignFrom | Model/train_model.py:26-33 | succeeds exactly when every word start indexes inside the labels; the result is as long as the word ids, with the word's label at word starts and -100 elsewhere |
| LabelAlignment.AlignLabels | Model/train_model.py:24-33 | starting from no previous word, a None id gives -100, an id differing from the one before gives its word's label, and a repeated id gives -100; the same length as the word ids; failure exactly when a word start is past the labels |
| LabelAlignment.AlignAll | Model/train_model.py:22-34 | one aligned list per example, in order, each aligned afresh; fails exactly when some example fails |

## Left out

- Reading the file (`readFile`, `FileReader`, `importFile`) is browser I/O. Both parsers take the text already split at '\n'.
- `mlPredict` and the HTTP request to the prediction service are network I/O. The intent reaches `Resolver.MatchOptions` as a parameter.
- The tokenizer, model inference, `torch.argmax`, padding into tensors, training and the Flask route are foreign ML libraries and I/O. `NerPostprocess` starts from the zipped (token, predicted id) pairs, and `LabelAlignment` from each example's word ids.
- `parseFloat` is floating point. A point keeps the two cell texts it would parse, and an `undefined` cell (NaN) is `None`.
- Rendering, chart styling, `downloadImage`, the random chart id and the Angular UI state are not modelled.
- The `allStrings` check in the service parser always holds for the output of `split`, so it has no modelled branch.
- JavaScript objects list integer-like keys first, while rows are kept in first-insertion order; keys such as "1" or "42" are listed differently.
- A row whose first cell is `__proto__` is not modelled faithfully. In JavaScript, `acc[key] = …` (query-state.component.ts:95) and `data[values[0]] = []` (query-service.service.ts:86) replace the object's prototype for that key instead of adding an own property, so `Object.entries` (query-state.component.ts:226) never lists the row. `AssocList.Assign` stores it like any other key.
- `getQueries` copies the array. Dafny sequences are values, so the copy and the aliasing it prevents are not visible in the model.
- JavaScript strings are UTF-16 code units, while Dafny strings here are Unicode scalar values. Lengths and edit distances differ for characters outside the Basic Multilingual Plane.
- Resolver.Normalize: lower-cases ASCII letters only; `toLowerCase` also lowers non-ASCII letters, so non-ASCII column names can normalise differently.
- NerPostprocess.MentionsScatter: lower-cases ASCII letters only, like Python's `lower` for the letters of "scatter"; no non-ASCII character lower-cases to one of those letters.
- Concrete evaluations such as the distance of "kitten" and "sitting" are not stated; the properties are stated for all inputs instead.
