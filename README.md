# dagsplott: a verified model of the ngram chart pipeline

dagsplott is a small React client. It asks the National Library of Norway's
ngram service for daily (or yearly) newspaper counts of a few words, then
draws one chart line per word. This project models the data reshaping that
runs between the parsed response and the chart, and proves what it does.

- **Grouping.** Every response key `"<word> <date>"` is split on spaces:
  the word is the first piece, the date the second. Its count goes into a nested word -> date -> count object, and the
  words keep the order in which the object first received them.
- **Day axis.** One `YYYYMMDD` key for every calendar day from the start
  date to the end date.
- **Zero-fill.** Every (queried word, axis day) pair the response left out
  gets a count of 0.
- **Series transforms.** The counts are aligned to the axis. Then comes one
  of two modes: cohort (each word's share of the day's total) or cumulative
  (a running total). Cohort wins when both are on. Last, a centred moving
  average whose window shrinks at the edges.
- **Colours.** Every queried word that has no colour yet gets the next entry
  of a six-colour palette. The count continues from the number of words the
  colour map already holds.
- **Reference component state.** The retained state, and the effect that
  rebuilds the chart when an option or the colour map changes.
- **Older variants.** `src/App.jsx` takes its axis from the sorted date keys
  of the first word, does no zero-fill, colours lines by position and has
  clamped smoothing buttons. `app.jsx` has yearly labels and a fixed colour
  rule.

Modules, one file each:
- `Text` (text.dfy): decimal numerals, the hyphen stripper `format`, the key split, string ordering and sorting, and first occurrences in a sequence.
- `Calendar` (calendar.dfy): Gregorian dates, the successor day, the day range and its keys, and the `while` loop that builds the axis.
- `Grouping` (grouping.dfy): the grouped object, the grouping loop and the zero-fill loops.
- `Series` (series.dfy): sums, smoothing, the running total and cohort shares.
- `Colors` (colors.dfy): the palette and `assignColors`.
- `Query` (query.dfy): the query words typed into the input box.
- `Datasets` (datasets.dfy): `buildDatasets`.
- `Dashboard` (dashboard.dfy): the reference component's state, fetch handler and effect.
- `Legacy` (legacy.dfy): the `src/App.jsx` variant.
- `Yearly` (yearly.dfy): the `app.jsx` variant.

Modelling choices:
- **Loops stay loops.** The loops of the source are methods with loop
  invariants: the date loop, grouping, zero-fill and `assignColors`. Each is
  proved equal to a fold function, and the properties are proved about that
  function.
- **Pure pipelines are functions.** `smoothArray`, `buildDatasets`, the
  labels and the datasets are functions.
- **Values.** Counts are integers. Series values are `real`.
- **The grouped object.** It is its key sequence (insertion order) plus a
  map. The date objects inside it are plain maps, because their key order is
  never observed: the reference version looks dates up, and `src/App.jsx`
  sorts them.

## Model

| member | source | states |
|---|---|---|
| Text.StripHyphens | src/.ipynb_checkpoints/App-checkpoint.jsx:28 | the stripped text has no hyphen and is no longer than the input |
| Text.StripHyphensConcat | src/.ipynb_checkpoints/App-checkpoint.jsx:28 | stripping distributes over concatenation (the regex replace is global) |
| Text.StripHyphensNoHyphen | src/.ipynb_checkpoints/App-checkpoint.jsx:28 | text without hyphens is unchanged, so stripping is idempotent |
| Text.StripDateHyphens | src/.ipynb_checkpoints/App-checkpoint.jsx:117 | "YYYY-MM-DD" loses exactly its two hyphens |
| Text.Token | src/.ipynb_checkpoints/App-checkpoint.jsx:125 | the word of a key is the space-free prefix up to the first space |
| Text.AfterSpace | src/.ipynb_checkpoints/App-checkpoint.jsx:125 | there is a second piece exactly when the key contains a space, and then it is the rest of the key after the token and that space |
| Text.SplitJoin | src/.ipynb_checkpoints/App-checkpoint.jsx:125 | a key "w d" with a space-free word and date splits back into (w, d) |
| Text.Padded | src/.ipynb_checkpoints/App-checkpoint.jsx:117 | an ISO date field has exactly the field width, all digits, and reads back as its number |
| Text.PaddedInjective | src/.ipynb_checkpoints/App-checkpoint.jsx:117 | two fields of the same width are equal iff their numbers are |
| Text.ValueOfDigits | app.jsx:37 | the numeral `toString` writes reads back as the number |
| Text.IntToStringRoundTrip | app.jsx:37 | `parseInt` of an integer's `toString` gives the integer back |
| Text.LessTotal | src/App.jsx:99 | the code-point order `sort()` uses is total |
| Text.LessTransitive | src/App.jsx:99 | that order is transitive |
| Text.LeastUnique | src/App.jsx:99 | a set of keys has one least element |
| Text.SortedStrings | src/App.jsx:99 | `Object.keys(o).sort()`: exactly the keys, each once, strictly ascending |
| Text.FirstIndex | src/.ipynb_checkpoints/App-checkpoint.jsx:126 | the position of an element's first occurrence: it holds the element and no earlier position does |
| Text.FirstIndexPrefix | src/.ipynb_checkpoints/App-checkpoint.jsx:126 | an element of a prefix has the same first position in the whole sequence |
| Calendar.NextDay | src/.ipynb_checkpoints/App-checkpoint.jsx:119 | the successor of a valid date is valid and lies after it |
| Calendar.NextDayNumber | src/.ipynb_checkpoints/App-checkpoint.jsx:119 | stepping a day adds exactly one to the day number |
| Calendar.BeforeIsDayNumberOrder | src/.ipynb_checkpoints/App-checkpoint.jsx:116 | the loop's `curr <= end` date comparison is the order of day numbers, in both directions |
| Calendar.DaysBetweenSpec | src/.ipynb_checkpoints/App-checkpoint.jsx:113-120 | the visited days: inclusive day count, each the next day of the one before, and a date is visited iff it lies between start and end |
| Calendar.DayKey | src/.ipynb_checkpoints/App-checkpoint.jsx:117 | a day key has 8 characters, all digits |
| Calendar.DayKeyIsStrippedIsoDate | src/.ipynb_checkpoints/App-checkpoint.jsx:117 | the key is the ISO date with its hyphens stripped |
| Calendar.DayKeyValue | src/.ipynb_checkpoints/App-checkpoint.jsx:117 | read as a number, a key is year * 10000 + month * 100 + day |
| Calendar.DayKeyOrder | src/.ipynb_checkpoints/App-checkpoint.jsx:117 | a later date has a numerically larger key; keys are equal iff dates are |
| Calendar.AxisKeysSpec | src/.ipynb_checkpoints/App-checkpoint.jsx:112-120 | the axis has one 8-digit key per day from start to end (none when start is after end), strictly ascending, and holds a date's key iff the date is in the range |
| Calendar.DayRange | src/.ipynb_checkpoints/App-checkpoint.jsx:113-120 | the `while` loop builds exactly the axis keys: length, ascending order and the membership iff |
| Grouping.StoreEffect | src/.ipynb_checkpoints/App-checkpoint.jsx:125-127 | one store adds exactly the entry's (word, date) pair with its count and changes no other count |
| Grouping.FirstOccurrences | src/.ipynb_checkpoints/App-checkpoint.jsx:126 | the object's keys: the same elements, no repetitions, ordered by first occurrence in the input (so the first one is kept first) |
| Grouping.GroupSpec | src/.ipynb_checkpoints/App-checkpoint.jsx:122-128 | the grouped words are the key words in first-appearance order; (w, d) holds a count iff some key splits to (w, d); that count is the last such entry's |
| Grouping.GroupDomain | src/App.jsx:92-97 | (w, d) holds a count iff some response key splits to (w, d) |
| Grouping.GroupLastWriter | app.jsx:30-35 | the stored count is the one of the last key splitting to that pair: a later equal key overwrites |
| Grouping.GroupWordsAreFirstTokens | src/App.jsx:92-97 | the grouped words are exactly the first tokens of the response keys |
| Grouping.GroupHoldsEveryEntry | src/.ipynb_checkpoints/App-checkpoint.jsx:124-128 | every entry leaves a count under its own word and date |
| Grouping.GroupResponse | src/.ipynb_checkpoints/App-checkpoint.jsx:123-128 | the `forEach` loop builds the grouped object, with its word order and last-writer counts |
| Grouping.AppendSpec | src/.ipynb_checkpoints/App-checkpoint.jsx:130-131 | keys added by the fill: the old keys stay a prefix; the new ones are exactly the queried words not yet keys, each once, in first-query order; nothing else is added |
| Grouping.AppendCovered | src/.ipynb_checkpoints/App-checkpoint.jsx:130-131 | when every queried word is already a key, the key order is unchanged |
| Grouping.AppendDistinct | src/.ipynb_checkpoints/App-checkpoint.jsx:130-131 | keys without repeats stay without repeats |
| Grouping.FilledStep | src/.ipynb_checkpoints/App-checkpoint.jsx:133 | filling one more date adds it with 0 when it is missing and changes nothing else |
| Grouping.FilledTwice | src/.ipynb_checkpoints/App-checkpoint.jsx:132-134 | filling the same dates twice is filling once |
| Grouping.DensifySpec | src/.ipynb_checkpoints/App-checkpoint.jsx:130-135 | after the fill: valid object, words = response words then missing queried words, each queried word's dates completed, other words untouched |
| Grouping.DensifyZeros | src/.ipynb_checkpoints/App-checkpoint.jsx:130-135 | every (queried word, axis date) pair is present, response counts survive, and every added pair reads 0 |
| Grouping.FillRow | src/.ipynb_checkpoints/App-checkpoint.jsx:132-134 | the inner `forEach` gives the word every axis date, keeps its counts and adds only zeros |
| Grouping.FillZeros | src/.ipynb_checkpoints/App-checkpoint.jsx:130-135 | the `for…of` loop: queried pairs present, response counts kept, added pairs 0, unqueried words unchanged |
| Series.SumBounds | src/.ipynb_checkpoints/App-checkpoint.jsx:40 | elements within [lo, hi] give a sum within [lo * n, hi * n] |
| Series.MeanBounds | src/.ipynb_checkpoints/App-checkpoint.jsx:40 | a window's mean lies within any bounds its elements respect |
| Series.WindowFacts | src/.ipynb_checkpoints/App-checkpoint.jsx:36-38 | the window lies in bounds, contains i and has at most k points (never an empty divisor); exactly k iff no edge cuts it |
| Series.SmoothSpec | src/.ipynb_checkpoints/App-checkpoint.jsx:33-41 | identity for k <= 1; otherwise same length, point i the mean of its in-bounds window around i |
| Series.SmoothBounds | src/App.jsx:32-41 | smoothing keeps every point within the bounds of the raw series |
| Series.SmoothConstant | src/App.jsx:32-41 | a constant series is unchanged by any width |
| Series.SmoothMonotone | src/.ipynb_checkpoints/App-checkpoint.jsx:33-41 | smoothing a non-decreasing series with any width gives a non-decreasing series |
| Series.MeanSlidesUp | src/.ipynb_checkpoints/App-checkpoint.jsx:36-40 | on a non-decreasing series, a window whose both ends lie further right has a mean at least as large |
| Series.SumConcat | src/.ipynb_checkpoints/App-checkpoint.jsx:40 | the sum of a concatenation is the sum of the sums |
| Series.Cumulative | src/.ipynb_checkpoints/App-checkpoint.jsx:73-75 | the running total: point i is the sum of raw points 0..i |
| Series.CumulativeStep | src/App.jsx:55-59 | out[0] = raw[0] and out[i] = out[i-1] + raw[i] |
| Series.CumulativeMonotone | src/.ipynb_checkpoints/App-checkpoint.jsx:72-75 | with non-negative counts the running total never decreases |
| Series.CohortShares | src/.ipynb_checkpoints/App-checkpoint.jsx:65-71 | on a day with a non-zero total the shares sum to 1; on a zero-total day all are 0 |
| Series.CohortUnitInterval | src/App.jsx:48-54 | with non-negative counts every share lies in [0, 1] |
| Series.SumScaled | src/.ipynb_checkpoints/App-checkpoint.jsx:70 | dividing every point by t divides the sum by t |
| Colors.PaletteDistinct | src/.ipynb_checkpoints/App-checkpoint.jsx:5-12 | six palette colours, pairwise different |
| Colors.Assign | src/.ipynb_checkpoints/App-checkpoint.jsx:44-56 | every existing key survives and every word becomes a key |
| Colors.NewWords | src/.ipynb_checkpoints/App-checkpoint.jsx:48-53 | the words that get a new colour: each once, exactly the words with no truthy colour, in the order the `forEach` first reaches them |
| Colors.AssignSpec | src/.ipynb_checkpoints/App-checkpoint.jsx:44-56 | keys = existing ∪ words; the j-th new word gets palette[(\|existing\| + j) % 6]; other entries unchanged; afterwards a word has a truthy colour iff it had one or is new |
| Colors.AssignCoversWords | src/.ipynb_checkpoints/App-checkpoint.jsx:48-53 | every queried word ends with a truthy colour |
| Colors.AssignColors | src/.ipynb_checkpoints/App-checkpoint.jsx:44-56 | the `forEach` loop computes the fold: keys, kept colours, all words coloured, j-th new word palette[(\|existing\| + j) % 6] |
| Colors.AssignIdempotent | src/.ipynb_checkpoints/App-checkpoint.jsx:44-56 | assigning the same words again changes nothing |
| Colors.NewColorsDistinct | src/.ipynb_checkpoints/App-checkpoint.jsx:50 | new words fewer than six apart get different colours |
| Colors.NewColorsWrap | src/.ipynb_checkpoints/App-checkpoint.jsx:46-51 | the counter wraps at six: the seventh new word of one call repeats the first one's colour |
| Colors.AssignStep | src/.ipynb_checkpoints/App-checkpoint.jsx:48-53 | one `forEach` step: a word without a truthy colour gets the palette colour at the running counter and the counter steps by one; a word with one leaves map and counter unchanged |
| Colors.NewColorsAvoidRetained | src/.ipynb_checkpoints/App-checkpoint.jsx:44-56 | when the existing colours are the first \|existing\| palette entries and at most six words are coloured in all, no new word shares a colour with a retained word |
| Colors.RetainedCollision | src/.ipynb_checkpoints/App-checkpoint.jsx:44-56 | colours are never released: after six distinct words, querying one of them and a new word g gives g the same colour as that retained word |
| Query.Trim | src/.ipynb_checkpoints/App-checkpoint.jsx:95 | `trim()` leaves no white space at either end, and its result is a contiguous slice of the input with only white space cut from either side |
| Query.TrimCut | src/.ipynb_checkpoints/App-checkpoint.jsx:95 | cutting blanks from the front and then from the back leaves such a slice |
| Query.TrimTrimmed | src/.ipynb_checkpoints/App-checkpoint.jsx:95 | text without white space at its ends is unchanged by `trim()` |
| Query.SplitOn | src/.ipynb_checkpoints/App-checkpoint.jsx:95 | `split(',')` gives at least one field and no field holds a comma |
| Query.SplitRoundTrip | src/.ipynb_checkpoints/App-checkpoint.jsx:95 | joining the fields of `split(',')` with commas gives the input back |
| Query.SplitOnSeparator | src/.ipynb_checkpoints/App-checkpoint.jsx:95 | splitting "a,b" is splitting a followed by splitting b |
| Query.NonEmpty | src/.ipynb_checkpoints/App-checkpoint.jsx:95 | `filter(w => w)` keeps exactly the non-empty strings, in order |
| Query.NonEmptySingle | src/.ipynb_checkpoints/App-checkpoint.jsx:95 | the filter on one string keeps it iff it is non-empty |
| Query.NonEmptyConcat | src/.ipynb_checkpoints/App-checkpoint.jsx:95 | the filter distributes over concatenation (it keeps order) |
| Query.TrimAllConcat | src/.ipynb_checkpoints/App-checkpoint.jsx:95 | `map(w => w.trim())` distributes over concatenation |
| Query.QueryWords | src/App.jsx:76 | every query word is non-empty, comma-free and trimmed |
| Query.EmptyQuery | src/.ipynb_checkpoints/App-checkpoint.jsx:95 | an empty input box gives no words |
| Query.QueryWordsField | src/.ipynb_checkpoints/App-checkpoint.jsx:95 | a comma-free text gives its trimmed self as the one word, or no word when it trims to "" |
| Query.QueryWordsConcat | src/.ipynb_checkpoints/App-checkpoint.jsx:95 | the words of "a,b" are the words of a followed by the words of b; with QueryWordsField this fixes the words of every input: its trimmed non-empty fields, in order |
| Query.QueryWordsRoundTrip | src/.ipynb_checkpoints/App-checkpoint.jsx:95 | words that are non-empty, comma-free and trimmed come back unchanged when typed as the text "w1, w2, …" (JoinWords) |
| Datasets.BuildDatasets | src/.ipynb_checkpoints/App-checkpoint.jsx:58-88 | one line per grouped word in key order, labelled with it, one point per date, never without a colour |
| Datasets.DatasetColors | src/.ipynb_checkpoints/App-checkpoint.jsx:84 | a line's colour is its truthy map colour, else palette[idx % 6] |
| Datasets.PositionalIsEmptyColorMap | src/App.jsx:63-70 | the positional colouring is the reference colouring with an empty map |
| Datasets.PlainCounts | src/.ipynb_checkpoints/App-checkpoint.jsx:61-63 | without mode or smoothing a line reads the stored counts, and 0 where a count is absent |
| Datasets.AbsoluteLines | src/.ipynb_checkpoints/App-checkpoint.jsx:61-78 | in absolute mode (neither cohort nor cumulative) each line is its aligned counts smoothed with the chosen width |
| Datasets.CumulativeLines | src/.ipynb_checkpoints/App-checkpoint.jsx:72-78 | in cumulative mode each line is the smoothed running total of its aligned counts and, with non-negative counts, never decreases, whatever the smoothing width |
| Datasets.CohortWins | src/.ipynb_checkpoints/App-checkpoint.jsx:65-72 | with cohort on, the cumulative flag changes nothing |
| Datasets.CohortDays | src/.ipynb_checkpoints/App-checkpoint.jsx:65-71 | without smoothing (width <= 1), cohort lines sum to 1 on every day with a non-zero total and are all 0 on a zero-total day; a smoothed line averages shares of different days, so only the [0, 1] bound of CohortBounded carries over |
| Datasets.CohortBounded | src/App.jsx:48-61 | with non-negative counts every cohort value lies in [0, 1], whatever the smoothing |
| Dashboard.Refresh | src/.ipynb_checkpoints/App-checkpoint.jsx:154-159 | the effect rebuilds only the chart and keeps every other piece of state |
| Dashboard.RefreshIdempotent | src/.ipynb_checkpoints/App-checkpoint.jsx:154-159 | re-running the effect on its own result changes nothing |
| Dashboard.FetchData | src/.ipynb_checkpoints/App-checkpoint.jsx:95-144 | the handler with the line-142 call corrected to pass the assigned map as `colorMap` (the call as written is FirstRenderAsWritten) stores the zero-filled grouping, the axis and the extended colour map; every queried pair is present; each queried word's line has its assigned colour; the chart is BuildDatasets of the stored grouping, axis, options and colour map, even on an empty axis (one line per grouped word, no points); with a non-empty axis the effect reproduces it |
| Dashboard.FirstRender | src/.ipynb_checkpoints/App-checkpoint.jsx:142 | with the assigned map passed, every coloured word's line carries its map colour |
| Dashboard.ArrayAsObject | src/.ipynb_checkpoints/App-checkpoint.jsx:142 | the decimal index keys of an array read as an object: key i maps to element i, and no other key is modelled (`length` and the prototype members, named by IsArrayProperty, are left out) |
| Dashboard.AsWrittenUsesPositions | src/.ipynb_checkpoints/App-checkpoint.jsx:142 | as written, a line whose word is neither a decimal index nor an array property name (IsArrayProperty) gets palette[idx % 6], whatever colour was assigned |
| Dashboard.AsWrittenFirstRenderDisagrees | src/.ipynb_checkpoints/App-checkpoint.jsx:95-142 | the input "sushi, pizza" and a response with keys "pizza 20200101" and "sushi 20200101", run through QueryWords, Group and Densify: pizza is the first line; the first render as written draws it red, and the effect's re-render with the assigned map draws it blue |
| Legacy.FirstWordAxisSpec | src/App.jsx:99 | the axis is strictly ascending, empty iff the response is, and holds exactly the dates of the first key's word |
| Legacy.FetchLegacy | src/App.jsx:92-105 | the handler builds positionally coloured lines on that axis |
| Legacy.ClicksStayInRange | src/App.jsx:176-181 | from a width in [1, 31], any click sequence stays in [1, 31], one step at a time |
| Legacy.ClicksReachMaximum | src/App.jsx:181 | n "+" clicks from width 1 give 1 + n, up to 31 |
| Yearly.YearLabels | app.jsx:37 | end - start + 1 labels, none when end < start |
| Yearly.YearLabelsSpec | app.jsx:37 | label i parses back to start + i; labels are distinct; empty iff end < start |
| Yearly.YearColorRule | app.jsx:43 | red exactly for "sushi", green exactly for every other word |
| Yearly.YearlyDatasetsSpec | app.jsx:39-45 | one line per grouped word in key order; a year the response gave reads the last such count, any other year 0 |
| Yearly.FetchYearly | app.jsx:30-47 | the handler groups, labels and builds lines, red iff the word is "sushi" |

## Left out

- The HTTP call, the request body (`parseInt` of the stripped dates) and `response.json()` are not modelled. I/O is outside the model; the parsed response is an input, a sequence of (key, count) entries in `Object.entries` order.
- React is not modelled: rendering, `useState` scheduling, the `loading` flag, `try`/`catch`/`finally`, JSX, chart.js and styling (`fill`, `tension`, `pointRadius`). The state the reference component keeps is the `View` record, and its effect is `Refresh`. The effect of `src/App.jsx` (lines 114-119) is the same rebuild without colours and is not modelled separately.
- JavaScript `Date` behaviour (UTC parsing, local `setDate`, UTC `toISOString`) is replaced by a clean Gregorian successor on (year, month, day).
- DayRange: requires four-digit years (0 to 9999) at both ends. `toISOString` writes other years with a sign and six digits, which the key format does not cover.
- Floating point is modelled as exact `real` arithmetic; rounding in division and averaging is not.
- Series.SmoothSpec: the `typeof v === 'number'` filter is not modelled. Every value reaching `smoothArray` here is a number, because absent counts read 0 and counts are integers.
- The counts are integers. A non-numeric value in the response is not modelled.
- `Object.entries` lists integer-like keys ("1", "42") before the others. The model keeps plain insertion order for the grouped words, so it holds for words that are not array indices.
- Dashboard.ArrayAsObject: words naming an array property (`length`, members of `Array.prototype` or `Object.prototype`, listed by IsArrayProperty) are not modelled in the as-written render; their borderColor would be that property. AsWrittenUsesPositions excludes them.
- Property lookups that reach `Object.prototype` (a word such as "constructor") are not modelled.
- String order is code-point order. JavaScript's `sort()` compares UTF-16 code units; the two agree for dates and other Basic Multilingual Plane text.
- `parseInt` and string-to-number coercion of the year inputs in `app.jsx` are modelled for well-formed integers only.
- The colour map never releases a colour when a word leaves the query. The code has no such rule, so the model follows the code (`RetainedCollision` shows the consequence).

## Findings

| source | as written | input that shows it | evidently intended | confidence | as-written member | corrected member |
|---|---|---|---|---|---|---|
| src/.ipynb_checkpoints/App-checkpoint.jsx:142 | `buildDatasets` is called with seven arguments, so `words` fills the `colorMap` slot and the assigned map is ignored. Lines are read from an array, so a line whose word is neither a decimal index nor an array property name falls back to palette[idx % 6] | query "sushi, pizza" on an empty colour map, response listing pizza first: the first render draws pizza red, then the effect redraws it blue | pass `newColorMap` as the sixth argument, so the first render already uses the assigned colours | not executed | Dashboard.FirstRenderAsWritten, Dashboard.AsWrittenFirstRenderDisagrees | Dashboard.FirstRender, Dashboard.FetchData |
