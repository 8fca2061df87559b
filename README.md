# PragmaCommon core, modelled in Dafny

This project models the reusable core of the PragmaCommon Unity utility
library:

- the CSV/TSV sheet parser;
- the generic two-dimensional `Grid<TCell>`;
- the reactive fields `RxField`, `RxFieldSelfArgumentWrapper` and `RxCondition`;
- the collection helpers (`InsertAt`, `NextIndexInCircle`, `GetOrAdd`,
  `FirstIndex`/`LastIndex`, `FillBy`, the seeded Fisher–Yates `Shuffle`,
  `IsShuffled`, `BubbleSort`, `Swap`);
- cube-coordinate hexagon arithmetic and the hexagon-shaped map;
- the serializable dictionary and hash set;
- the `Delayer` countdown;
- the bit-flag helpers;
- `ToSnakeCase`;
- the "(Clone)" name stripping.

Each source file has its own Dafny module:

| file | module | models |
|---|---|---|
| `common.dfy` | `Common` | exceptions, `Result`, `Option`, `Outcome`, and `Handler` (a delegate's identity) |
| `csv_parser.dfy` | `CsvParsing` | `CsvParser` |
| `grid.dfy` | `Grids` | `Grid<TCell>` |
| `rx_field.dfy` | `RxFields` | `RxField<T>` |
| `rx_wrapper.dfy` | `RxWrappers` | `RxFieldSelfArgumentWrapper<T>` |
| `rx_condition.dfy` | `RxConditions` | `RxCondition<TParam>` |
| `enumerable.dfy` | `Enumerables` | the collection extensions |
| `bubble_sort.dfy` | `MathExtensions` | `Swap` and `BubbleSort` |
| `hex.dfy` | `HexCoordinates` | `Hex` |
| `hex_extensions.dfy` | `HexExtensions` | `HexExtensions` |
| `hexagon_grid.dfy` | `HexagonGrid` | `HexagonGrid` |
| `serialized_dictionary.dfy` | `SerializedDictionaries` | `SerializedDictionary` and `Kvp` |
| `serialized_hash_set.dfy` | `SerializedHashSets` | `SerializedHashSet` |
| `delayer.dfy` | `Delaying` | `Delayer` |
| `flags.dfy` | `Flags` | the flag helpers |
| `snake_case.dfy` | `SnakeCase` | `ToSnakeCase` |
| `game_object_names.dfy` | `GameObjectNames` | the clone-name helpers |

How the source's constructs are represented:

- **Mutable objects** (grid, fields, wrappers, condition, dictionary, hash set,
  delayer) are classes whose methods change their fields.
- **Loops** are methods with loop invariants. Each is proved against a
  specification function, and the properties the source promises are lemmas
  about that function.
- **Exceptions** the source throws (an index out of range, a null reference,
  `ArgumentOutOfRangeException`, a plain `Exception`) are `Failure` results,
  not preconditions.
- **`default(T)`** is passed in explicitly as `zero`.
- **Events and delegate invocations** are logs:
  - `Grid.events` holds `(coordinate, value)` pairs;
  - `RxField.notifications` holds `(listener, value)` pairs;
  - `Delayer.endEvents` counts the end events.
- **Listeners** are `Handler` objects kept in invocation-list order.

## Model

| member | source | states |
|---|---|---|
| CsvParsing.ToCrlfIsNormal | Assets/PragmaCommon/CsvParser/CsvParser.cs:154-157 | after normalisation every CR is followed by LF and every LF follows a CR; the empty string stays empty; a first character that is not a line break is kept |
| CsvParsing.ToCrlfIdempotent | Assets/PragmaCommon/CsvParser/CsvParser.cs:154-157 | normalising line endings twice is the same as normalising once |
| CsvParsing.PlainPrefix | Assets/PragmaCommon/CsvParser/CsvParser.cs:154-157 | text without CR or LF passes line-ending normalisation unchanged, whatever follows it |
| CsvParsing.ToCrlfLength | Assets/PragmaCommon/CsvParser/CsvParser.cs:154-157 | normalisation never shortens the text and at most doubles it: each lone CR or LF becomes CRLF |
| CsvParsing.ToCrlfAppend | Assets/PragmaCommon/CsvParser/CsvParser.cs:154-157 | after a line feed normalisation starts afresh: the two parts are normalised independently |
| CsvParsing.ToCrlfEndsInCrlf | Assets/PragmaCommon/CsvParser/CsvParser.cs:154-157 | a text ending in a line feed is normalised to one ending in CRLF |
| CsvParsing.AddCell | Assets/PragmaCommon/CsvParser/CsvParser.cs:135-139 | the row grows by exactly the cell text, the earlier cells are kept, and the cell buffer is emptied |
| CsvParsing.AddRow | Assets/PragmaCommon/CsvParser/CsvParser.cs:141-152 | the row is stored under its first cell with the remaining cells as value, only if that key is new; existing entries are never changed; the row buffer is emptied |
| CsvParsing.FinishStoresPendingRow | Assets/PragmaCommon/CsvParser/CsvParser.cs:109-115 | at the end of the input every stored row is kept; a pending row holding a cell is completed with the pending cell and stored under its first cell unless that key is taken; an empty pending row stores nothing |
| CsvParsing.Step | Assets/PragmaCommon/CsvParser/CsvParser.cs:60-107 | every pass of the loop advances by one character, or by two when two remain |
| CsvParsing.Parse | Assets/PragmaCommon/CsvParser/CsvParser.cs:45-116 | the imperative loop over the normalised data returns exactly the sheet of the state-machine specification `ParseSpec` |
| CsvParsing.ScanUnfold | Assets/PragmaCommon/CsvParser/CsvParser.cs:60-107 | one pass of the loop at index `start` is one `Step` of the specification |
| CsvParsing.Advance | Assets/PragmaCommon/CsvParser/CsvParser.cs:60-107 | one pass of the loop computes exactly one `Step` of the specification and advances by one or two characters |
| CsvParsing.ScanAppend | Assets/PragmaCommon/CsvParser/CsvParser.cs:60-107 | scanning text that follows a CRLF is scanning the second part from the state the first part leaves |
| CsvParsing.ParseAfterLineStart | Assets/PragmaCommon/CsvParser/CsvParser.cs:45-116 | parsing text that follows a line feed continues from the state the preceding text leaves |
| CsvParsing.ScanDelimiter | Assets/PragmaCommon/CsvParser/CsvParser.cs:65-77 | outside quotes the delimiter closes the cell; inside quotes it is appended to the cell |
| CsvParsing.ScanCrlf | Assets/PragmaCommon/CsvParser/CsvParser.cs:78-91 | outside quotes CRLF closes the cell and the row; inside quotes CRLF is appended to the cell |
| CsvParsing.ScanTwoQuotes | Assets/PragmaCommon/CsvParser/CsvParser.cs:92-96 | two quotes append one literal quote and leave the quote state unchanged, inside or outside quotes |
| CsvParsing.ScanOneQuote | Assets/PragmaCommon/CsvParser/CsvParser.cs:97-101 | a single quote toggles the quote state and appends nothing |
| CsvParsing.ScanPlain | Assets/PragmaCommon/CsvParser/CsvParser.cs:102-106 | a run of ordinary characters is appended to the cell unchanged |
| CsvParsing.ParseEmpty | Assets/PragmaCommon/CsvParser/CsvParser.cs:109-115 | empty input gives an empty sheet |
| CsvParsing.ParseDropsLoneCell | Assets/PragmaCommon/CsvParser/CsvParser.cs:109-115 | after any text that ends in a line feed with no row pending and no quote open, a last line with no delimiter and no line break is discarded: the sheet is that of the preceding text |
| CsvParsing.ParseFlushesPendingRow | Assets/PragmaCommon/CsvParser/CsvParser.cs:109-113 | after any such text, a final `key<d>value` line without a line break is still stored: the sheet is the preceding text's sheet with `key: [value]` added unless the key is taken |
| CsvParsing.ScanPendingRow | Assets/PragmaCommon/CsvParser/CsvParser.cs:109-113 | from the start of a row, `key<d>value` at the end of the input is stored as `[value]` under `key` unless the key is taken |
| CsvParsing.ParseOneRow | Assets/PragmaCommon/CsvParser/CsvParser.cs:45-116 | one terminated line `key<d>value` of ordinary text gives the sheet `{key: [value]}` |
| CsvParsing.ParseKeepsFirstDuplicate | Assets/PragmaCommon/CsvParser/CsvParser.cs:141-152 | of two rows with the same key the first is kept and the later one is dropped |
| CsvParsing.ParseQuotedDelimiter | Assets/PragmaCommon/CsvParser/CsvParser.cs:65-101 | a delimiter inside a quoted cell is part of the cell text |
| CsvParsing.ParseEmptyQuotedField | Assets/PragmaCommon/CsvParser/CsvParser.cs:92-101 | an empty quoted field `""` is read as one literal quote, not as an empty cell (unlike section 2 of RFC 4180) |
| CsvParsing.EstimateDelimiter | Assets/PragmaCommon/CsvParser/CsvParser.cs:118-133 | ".csv" in any letter case gives a comma, ".tsv" a tab, and any other extension fails |
| CsvParsing.ExtensionsDistinct | Assets/PragmaCommon/CsvParser/CsvParser.cs:122-130 | no extension matches both ".csv" and ".tsv", so the order of the two tests does not matter |
| CsvParsing.EstimateDelimiterExamples | Assets/PragmaCommon/CsvParser/CsvParser.cs:118-133 | ".CSV" gives a comma, ".Tsv" a tab; ".txt" and "csv" without a dot fail |
| Grids.CoordsAreTheCells | Assets/PragmaCommon/Grid/Grid.cs:29-35 | the x-outer, y-inner order lists each of the width·height cells exactly once, in strictly increasing order |
| Grids.Grid.constructor | Assets/PragmaCommon/Grid/Grid.cs:17-36 | with a factory, every cell is the factory's result for its coordinate, and the factory is asked once per cell in traversal order; without a factory every cell is the default; no event is raised |
| Grids.Grid.FillColumn | Assets/PragmaCommon/Grid/Grid.cs:31-34 | one column of the constructor asks the factory for its cells in order and stores each result |
| Grids.Grid.IsValidCoordinate | Assets/PragmaCommon/Grid/Grid.cs:64-67 | for a grid of non-negative size, a coordinate is valid exactly when it is one of the cells the traversals visit (0 ≤ x < width and 0 ≤ y < height) |
| Grids.Grid.GetCell | Assets/PragmaCommon/Grid/Grid.cs:49-57 | the stored cell for a valid coordinate, otherwise the default; reads only |
| Grids.Grid.SetCell | Assets/PragmaCommon/Grid/Grid.cs:38-47 | an invalid coordinate changes no cell and raises nothing; a valid one stores the value, keeps every other cell, and raises the event once with (coordinate, value) |
| Grids.Grid.SetDirtyCell | Assets/PragmaCommon/Grid/Grid.cs:59-62 | raises the event with `GetCell`'s result and changes no cell; an invalid coordinate is raised with the default |
| Grids.Grid.Visits | Assets/PragmaCommon/Grid/Grid.cs:69-78 | each visited coordinate is paired with its cell, in the order given |
| Grids.Grid.VisitNext | Assets/PragmaCommon/Grid/Grid.cs:71-77 | visiting cell (x, y) extends the visits by that one cell; finishing a column moves on to the next column |
| Grids.Grid.TraversalCells | Assets/PragmaCommon/Grid/Grid.cs:69-78 | the visitor is called once per cell, in x-outer, y-inner order, with the coordinate and the cell |
| Grids.Grid.TraversalCellsUntil | Assets/PragmaCommon/Grid/Grid.cs:80-94 | the calls made are a prefix of the full traversal; the visitor said "go on" at every call but the last; it said "stop" at the last one unless every cell was visited |
| Grids.Grid.VisitColumnUntil | Assets/PragmaCommon/Grid/Grid.cs:84-92 | one column of the stopping traversal either stops (satisfying `TraversedUntil`) or visits the whole column with the visitor saying "go on" each time |
| Grids.Grid.StopAt | Assets/PragmaCommon/Grid/Grid.cs:86-91 | a "stop" answer at cell (x, y) ends a valid stopped traversal |
| Grids.Grid.AllVisited | Assets/PragmaCommon/Grid/Grid.cs:80-94 | a traversal where the visitor never said "stop" visited every cell |
| Grids.Grid.TraversalPrefix | Assets/PragmaCommon/Grid/Grid.cs:82-93 | the visits up to and including cell (x, y) are a prefix of the full traversal |
| RxFields.Calls | Assets/PragmaCommon/Rx/RxField.cs:32 | invoking the delegate calls each listener once, in invocation-list order, with the value |
| RxFields.RemoveLast | Assets/PragmaCommon/Rx/RxField.cs:39 | `-=` removes the last occurrence of the listener; an absent listener leaves the list unchanged; exactly one copy fewer when present |
| RxFields.SubscribeUnsubscribe | Assets/PragmaCommon/Rx/RxField.cs:38-39 | unsubscribing right after subscribing restores the listener list |
| RxFields.RxField.constructor | Assets/PragmaCommon/Rx/RxField.cs:16-19 | starts at the given value with no listener and no notification |
| RxFields.RxField.Empty | Assets/PragmaCommon/Rx/RxField.cs:11-14 | starts at `default(T)` with no listener and no notification |
| RxFields.RxField.SetValue | Assets/PragmaCommon/Rx/RxField.cs:21-34 | an equal value changes nothing and notifies no one; a different value is stored, then every listener is called once with it, in order |
| RxFields.RxField.ForceInvoke | Assets/PragmaCommon/Rx/RxField.cs:36 | every listener is called with the current value, which does not change |
| RxFields.RxField.Subscribe | Assets/PragmaCommon/Rx/RxField.cs:38 | the listener is appended, even when it is already subscribed |
| RxFields.RxField.Unsubscribe | Assets/PragmaCommon/Rx/RxField.cs:39 | the last occurrence of the listener is removed, if there is one |
| RxFields.SetTwiceNotifiesOnce | Assets/PragmaCommon/Rx/RxField.cs:24-38 | setting the same new value twice notifies once, and a listener subscribed twice is called twice |
| RxFields.UnsubscribedIsSilent | Assets/PragmaCommon/Rx/RxField.cs:31-39 | after the only listener unsubscribes, a change notifies no one |
| RxWrappers.RxFieldSelfArgumentWrapper.constructor | Assets/PragmaCommon/Rx/RxFieldSelfArgumentWrapper.cs:14-18 | wraps the given field, or a fresh field at `default(T)` when none is given, and subscribes `OnValueUpdate` to it exactly once; the field's value is unchanged |
| RxWrappers.RxFieldSelfArgumentWrapper.Subscribe | Assets/PragmaCommon/Rx/RxFieldSelfArgumentWrapper.cs:20 | appends to the wrapper's own listeners only |
| RxWrappers.RxFieldSelfArgumentWrapper.Unsubscribe | Assets/PragmaCommon/Rx/RxFieldSelfArgumentWrapper.cs:21 | removes the last occurrence from the wrapper's own listeners only |
| RxWrappers.RxFieldSelfArgumentWrapper.OnValueUpdate | Assets/PragmaCommon/Rx/RxFieldSelfArgumentWrapper.cs:23 | every wrapper listener is called once, in order, with the wrapped field itself |
| RxWrappers.AssignThroughWrapper | Assets/PragmaCommon/Rx/RxFieldSelfArgumentWrapper.cs:12-23 | a change of the wrapped field is re-broadcast to the wrapper's listeners once per subscription of the wrapper to the field; assigning the current value re-broadcasts nothing |
| RxWrappers.WrapperRebroadcastsOnce | Assets/PragmaCommon/Rx/RxFieldSelfArgumentWrapper.cs:14-23 | a wrapper built around a field passes each change once to each of its two listeners, with that field as argument |
| RxWrappers.WrapperValueReadsThrough | Assets/PragmaCommon/Rx/RxFieldSelfArgumentWrapper.cs:12 | `Value` reads through to the wrapped field: it follows a later assignment of the field, and a wrapper created without a field reads `default(T)` |
| RxConditions.Aggregate | Assets/PragmaCommon/Rx/RxCondition.cs:52-59 | All and Any give a value; any other mode fails with `ArgumentOutOfRange` |
| RxConditions.FirstEntry | Assets/PragmaCommon/Rx/RxCondition.cs:40 | the index of the first entry whose wrapper holds the field, or -1 when there is none |
| RxConditions.BuildResults | Assets/PragmaCommon/Rx/RxCondition.cs:21-31 | one entry per source, in order: a fresh wrapper around the source caching the condition on its current value, with the handler subscribed; each source's listener list grows by exactly the handlers of the wrappers around it, once per occurrence of the source |
| RxConditions.MakeResult | Assets/PragmaCommon/Rx/RxCondition.cs:23-30 | the entry for one source: a fresh wrapper around it, subscribed once to it, with the handler subscribed, caching the condition on its value |
| RxConditions.RxCondition.constructor | Assets/PragmaCommon/Rx/RxCondition.cs:15-32 | the entries are built as above (each source gains one wrapper handler per occurrence), the mode is not checked, and `_isConditionMet` stays null |
| RxConditions.RxCondition.Fixed | Assets/PragmaCommon/Rx/RxCondition.cs:15-32 | the corrected constructor: as above, and the derived field holds the aggregate of the initial entries |
| RxConditions.RxCondition.Value | Assets/PragmaCommon/Rx/RxCondition.cs:13 | fails with a null reference while the derived field is null; otherwise, when consistent, it is the aggregate of the cached results |
| RxConditions.RxCondition.Subscribe | Assets/PragmaCommon/Rx/RxCondition.cs:35 | delegates to the derived field, or fails with a null reference |
| RxConditions.RxCondition.Unsubscribe | Assets/PragmaCommon/Rx/RxCondition.cs:36 | delegates to the derived field, or fails with a null reference |
| RxConditions.RxCondition.ForceInvoke | Assets/PragmaCommon/Rx/RxCondition.cs:34 | delegates to the derived field, or fails with a null reference |
| RxConditions.RxCondition.IsConditionAll | Assets/PragmaCommon/Rx/RxCondition.cs:62-73 | true exactly when every cached result is true (so true when there are none) |
| RxConditions.RxCondition.IsConditionAny | Assets/PragmaCommon/Rx/RxCondition.cs:75-86 | true exactly when some cached result is true (so false when there are none) |
| RxConditions.RxCondition.IsConditionMet | Assets/PragmaCommon/Rx/RxCondition.cs:52-60 | the switch on the mode: All, Any, or an `ArgumentOutOfRange` failure |
| RxConditions.RxCondition.OnUpdateValue | Assets/PragmaCommon/Rx/RxCondition.cs:38-50 | only the first entry wrapping the field is recomputed; an unchanged result stops with no write; a flipped one is cached and the aggregate assigned to the derived field, whose listeners are called once with it exactly when its value changes; the derived field's listeners never change; failures (an unknown field, an unknown mode, a null derived field) leave the derived field untouched; a consistent condition stays consistent |
| RxConditions.AsWrittenValueFails | Assets/PragmaCommon/Rx/RxCondition.cs:8-32 | as written, reading the value and subscribing fail with a null reference right after construction |
| RxConditions.AggregateOfValues | Assets/PragmaCommon/Rx/RxCondition.cs:52-86 | cached results equal to the condition on given values aggregate to the conjunction (All) or the disjunction (Any) of the condition over those values |
| RxConditions.TrackedAggregate | Assets/PragmaCommon/Rx/RxCondition.cs:52-86 | a cache that tracks the sources aggregates to the All/Any of the condition over the sources' current values |
| RxConditions.AssignSource | Assets/PragmaCommon/Rx/RxCondition.cs:38-50 | reassigning one of several distinct sources and delivering its update keeps a consistent cache tracking the sources, and the derived field's listeners are notified once exactly when its value changes |
| RxConditions.SubscribedCondition | Assets/PragmaCommon/Rx/RxCondition.cs:13-35 | with the corrected constructor and one subscriber, the value is the All/Any of the sources' conditions and nobody has been notified |
| RxConditions.FixedValueTracksAggregate | Assets/PragmaCommon/Rx/RxCondition.cs:13-86 | over distinct sources and with the corrected constructor, the value is the All/Any of the sources' conditions from the start; after one source is reassigned and its update delivered, it is the All/Any of the sources' new conditions, and a listener of the condition is called once with the new value exactly when the value changed |
| Enumerables.InsertedRemoved | Assets/PragmaCommon/Extensions/Extension.IEnumerable.cs:33-44 | the inserted array is one longer, holds the new element at `index`, and removing that slot gives back the original |
| Enumerables.InsertAt | Assets/PragmaCommon/Extensions/Extension.IEnumerable.cs:17-45 | for 0 ≤ index ≤ length, a new array with the default inserted at `index`; otherwise the same array |
| Enumerables.IsNullOrEmpty | Assets/PragmaCommon/Extensions/Extension.IEnumerable.cs:50-60 | true exactly for null or for a collection with no element |
| Enumerables.TruncatedRemainder | Assets/PragmaCommon/Extensions/Extension.IEnumerable.cs:112 | C#'s `%` truncates toward zero: the remainder lies strictly between -n and n and has the sign of the dividend |
| Enumerables.NextIndexInCircle | Assets/PragmaCommon/Extensions/Extension.IEnumerable.cs:99-113 | -1 for a null or empty array; otherwise the index in [0, n) congruent to the position modulo n (0 for length 1) |
| Enumerables.ShiftedRemainder | Assets/PragmaCommon/Extensions/Extension.IEnumerable.cs:112 | `(p % n + n) % n` with truncating `%` equals the mathematical remainder of p modulo n |
| Enumerables.NextIndexInCircleWraps | Assets/PragmaCommon/Extensions/Extension.IEnumerable.cs:99-113 | -1 wraps to the last index, n to 0, and the result is periodic in n |
| Enumerables.GetOrAdd | Assets/PragmaCommon/Extensions/Extension.IEnumerable.cs:120-130 | adds the value only when the key is absent, never overwrites, and returns the stored entry |
| Enumerables.GetOrAddBy | Assets/PragmaCommon/Extensions/Extension.IEnumerable.cs:137-147 | the same, with the value made by the factory from the key |
| Enumerables.GetOrAddWith | Assets/PragmaCommon/Extensions/Extension.IEnumerable.cs:154-165 | the same, with the value made by the factory from the key and the argument |
| Enumerables.GetOrAddTwice | Assets/PragmaCommon/Extensions/Extension.IEnumerable.cs:120-130 | a second `GetOrAdd` returns what the first stored: the first value wins |
| Enumerables.FirstIndex | Assets/PragmaCommon/Extensions/Extension.IEnumerable.cs:177-208 | the smallest matching index, or -1 exactly when nothing matches |
| Enumerables.LastIndex | Assets/PragmaCommon/Extensions/Extension.IEnumerable.cs:213-224 | the largest matching index, or -1 exactly when nothing matches |
| Enumerables.FirstIndexAtMostLastIndex | Assets/PragmaCommon/Extensions/Extension.IEnumerable.cs:177-224 | the first match is never after the last, both are -1 together, and when they coincide only one element matches |
| Enumerables.FillBy | Assets/PragmaCommon/Extensions/Extension.IEnumerable.cs:230-254 | every element i becomes `valueFactory(i)`, in place, and the same collection is returned |
| Enumerables.GetList | Assets/PragmaCommon/Extensions/Extension.IEnumerable.cs:461-469 | an array or list is returned as the same object; another enumerable is copied into a new list |
| Enumerables.Swapped | Assets/PragmaCommon/Extensions/Extension.IEnumerable.cs:352 | the tuple swap exchanges two positions, keeps the rest, and permutes the list |
| Enumerables.ShuffleStepsPermutes | Assets/PragmaCommon/Extensions/Extension.IEnumerable.cs:343-356 | the Fisher–Yates steps produce a permutation of the input and leave the positions from `n` on untouched |
| Enumerables.ShuffleStepsIdentity | Assets/PragmaCommon/Extensions/Extension.IEnumerable.cs:348-353 | when every draw picks the current top position, the shuffle leaves the list as it is |
| Enumerables.ShuffleStepsOfTwo | Assets/PragmaCommon/Extensions/Extension.IEnumerable.cs:348-353 | a two-element list is swapped by the draw 0 and kept by the draw 1 |
| Enumerables.ShuffleStep | Assets/PragmaCommon/Extensions/Extension.IEnumerable.cs:348-353 | each draw lies in 0..n-1 and one step swaps it with position n-1 before the shuffle of the first n-1 positions |
| Enumerables.Shuffle | Assets/PragmaCommon/Extensions/Extension.IEnumerable.cs:343-356 | the result is the Fisher–Yates steps applied to the input; it is a permutation of the input; an array or list is shuffled in place and returned |
| Enumerables.ShuffleInPlace | Assets/PragmaCommon/Extensions/Extension.IEnumerable.cs:346-353 | the in-place loop computes exactly the Fisher–Yates steps and permutes the array |
| Enumerables.SwapAt | Assets/PragmaCommon/Extensions/Extension.IEnumerable.cs:352 | the array becomes its contents with the two positions exchanged |
| Enumerables.FixedPoints | Assets/PragmaCommon/Extensions/Extension.IEnumerable.cs:456 | the number of positions left unmoved; zero exactly when every position moved |
| Enumerables.IsShuffled | Assets/PragmaCommon/Extensions/Extension.IEnumerable.cs:439-459 | a length mismatch throws; length 0 or 1 is shuffled; an even length needs no fixed point and an odd length at most one |
| Enumerables.FixedPointsOfSelf | Assets/PragmaCommon/Extensions/Extension.IEnumerable.cs:456 | a list compared with itself has every position fixed |
| Enumerables.SelfIsNotShuffled | Assets/PragmaCommon/Extensions/Extension.IEnumerable.cs:439-459 | a list of two or more is not a shuffle of itself |
| Enumerables.RotationIsShuffled | Assets/PragmaCommon/Extensions/Extension.IEnumerable.cs:439-459 | rotating a list of distinct elements by one counts as shuffled |
| MathExtensions.Swap | Assets/PragmaCommon/Extensions/Extension.Math.cs:185-188 | the two values trade places |
| MathExtensions.SwapTwiceRestores | Assets/PragmaCommon/Extensions/Extension.Math.cs:185-188 | swapping twice restores both values |
| MathExtensions.StrictWeakOrderOfPermutation | Assets/PragmaCommon/Extensions/Extension.Math.cs:264 | whether `compare` is a strict weak order depends only on the multiset of elements |
| MathExtensions.SortedHasNoAdjacentInversion | Assets/PragmaCommon/Extensions/Extension.Math.cs:275 | a list in order has no neighbours that `compare` would exchange |
| MathExtensions.Exchanged | Assets/PragmaCommon/Extensions/Extension.Math.cs:277 | exchanging neighbours j and j+1 keeps every other position and permutes the list |
| MathExtensions.CompareAt | Assets/PragmaCommon/Extensions/Extension.Math.cs:275-278 | one comparison keeps the length and the multiset of elements |
| MathExtensions.BubbleSort | Assets/PragmaCommon/Extensions/Extension.Math.cs:264-281 | a null, empty or one-element list is left alone; otherwise exactly n·(n−1) comparisons in n full passes; the result is a permutation; with a strict weak order it is sorted and has no adjacent inversion |
| MathExtensions.SortInPlace | Assets/PragmaCommon/Extensions/Extension.Math.cs:271-280 | the nested loops compute the n passes, make n·(n−1) comparisons, permute, and sort under a strict weak order |
| MathExtensions.PassInPlace | Assets/PragmaCommon/Extensions/Extension.Math.cs:273-279 | the inner loop computes one pass with n−1 comparisons |
| MathExtensions.ExchangeAt | Assets/PragmaCommon/Extensions/Extension.Math.cs:277 | the array becomes its contents with neighbours j and j+1 exchanged |
| MathExtensions.PassesOfShort | Assets/PragmaCommon/Extensions/Extension.Math.cs:266-269 | passes over a list of at most one element change nothing |
| MathExtensions.PassPermutes | Assets/PragmaCommon/Extensions/Extension.Math.cs:273-279 | one pass permutes the list |
| MathExtensions.PassesPermute | Assets/PragmaCommon/Extensions/Extension.Math.cs:271-280 | any number of passes permutes the list |
| MathExtensions.PassMovesBoundary | Assets/PragmaCommon/Extensions/Extension.Math.cs:273-279 | under a strict weak order one pass grows the sorted, partitioned tail by one position |
| MathExtensions.PassesSort | Assets/PragmaCommon/Extensions/Extension.Math.cs:271-280 | under a strict weak order, after i passes the last i positions are sorted and no earlier element belongs after them |
| MathExtensions.BubbleSortAscending | Assets/PragmaCommon/Extensions/Extension.Math.cs:264-281 | with "greater than" as `compare`, numbers end up in ascending order and permuted |
| HexCoordinates.Abs | Assets/PragmaCommon/Hexagon/Hex.cs:12 | `Mathf.Abs` on an int: the value or its negation, never negative |
| HexCoordinates.Construct | Assets/PragmaCommon/Hexagon/Hex.cs:14-22 | the coordinates are stored as given, and the error is logged exactly when q+r+s ≠ 0 |
| HexCoordinates.ID | Assets/PragmaCommon/Hexagon/Hex.cs:12 | the sum of absolute coordinates is zero exactly at the origin |
| HexCoordinates.Equals | Assets/PragmaCommon/Hexagon/Hex.cs:26 | componentwise `Equals` holds exactly for equal coordinates |
| HexCoordinates.EqualsIsEquivalence | Assets/PragmaCommon/Hexagon/Hex.cs:26 | `Equals` is reflexive, symmetric and transitive |
| HexExtensions.GetDirection | Assets/PragmaCommon/Hexagon/Hex.Extensions.cs:17-23 | an index 0..5 gives one of the six directions; any other index fails on the array access |
| HexExtensions.GetNeighbor | Assets/PragmaCommon/Hexagon/Hex.Extensions.cs:50-53 | succeeds exactly for directions 0..5 and otherwise fails on the array access |
| HexExtensions.DirectionsAreUnitCubes | Assets/PragmaCommon/Hexagon/Hex.Extensions.cs:7-15 | the six directions are distinct, well-formed, and of length 1 |
| HexExtensions.Add | Assets/PragmaCommon/Hexagon/Hex.Extensions.cs:25-28 | the sum of two well-formed hexes is well-formed |
| HexExtensions.Subtract | Assets/PragmaCommon/Hexagon/Hex.Extensions.cs:30-33 | adding the subtrahend back gives the original hex; the difference of well-formed hexes is well-formed |
| HexExtensions.Multiply | Assets/PragmaCommon/Hexagon/Hex.Extensions.cs:35-38 | a multiple of a well-formed hex is well-formed |
| HexExtensions.AddSubtractInverse | Assets/PragmaCommon/Hexagon/Hex.Extensions.cs:25-33 | subtraction undoes addition, and addition is commutative |
| HexExtensions.Length | Assets/PragmaCommon/Hexagon/Hex.Extensions.cs:40-43 | for a well-formed hex, the halved sum is the largest absolute coordinate |
| HexExtensions.IdIsTwiceLength | Assets/PragmaCommon/Hexagon/Hex.Extensions.cs:40-43 | for a well-formed hex the integer division is exact: `ID` is twice `Length` |
| HexExtensions.DistanceSymmetric | Assets/PragmaCommon/Hexagon/Hex.Extensions.cs:45-48 | distance is symmetric and zero from a hex to itself |
| HexExtensions.Distance | Assets/PragmaCommon/Hexagon/Hex.Extensions.cs:45-48 | between well-formed hexes, the distance is zero exactly when they are equal |
| HexExtensions.DistanceZeroNeedsCube | Assets/PragmaCommon/Hexagon/Hex.Extensions.cs:40-48 | without the q+r+s = 0 format, the integer division lets two different hexes be at distance 0 |
| HexExtensions.DistanceTriangle | Assets/PragmaCommon/Hexagon/Hex.Extensions.cs:45-48 | between well-formed hexes, distance obeys the triangle inequality |
| HexExtensions.NeighborAtDistanceOne | Assets/PragmaCommon/Hexagon/Hex.Extensions.cs:50-53 | for directions 0..5 the neighbour exists, is at distance 1, and is well-formed when the hex is |
| HexagonGrid.ColumnsLeftHalf | Assets/PragmaCommon/Hexagon/HexagonGrid.cs:12-20 | closed form for the number of hexes in the columns left of the centre |
| HexagonGrid.ColumnsRightHalf | Assets/PragmaCommon/Hexagon/HexagonGrid.cs:12-20 | closed form for the number of hexes in the columns from the centre on |
| HexagonGrid.AllColumnsCount | Assets/PragmaCommon/Hexagon/HexagonGrid.cs:12-20 | the columns of a map of radius R add up to 3R(R+1)+1 hexes |
| HexagonGrid.GenerateHexagonGrid | Assets/PragmaCommon/Hexagon/HexagonGrid.cs:8-23 | a negative radius gives an empty list; otherwise 3r(r+1)+1 hexes; each is well-formed and within the radius; each such hex appears; ordered by q, then r |
| HexagonGrid.AddColumn | Assets/PragmaCommon/Hexagon/HexagonGrid.cs:14-20 | one column appends its hexes r ascending, so the map now holds every column up to q |
| HexagonGrid.ColumnStep | Assets/PragmaCommon/Hexagon/HexagonGrid.cs:17-20 | adding hex (q, r, −q−r) keeps the partial map in order and correct up to row r |
| HexagonGrid.GetRadius | Assets/PragmaCommon/Hexagon/HexagonGrid.cs:34-47 | the smallest radius r ≥ 0 whose map holds at least `count` hexes, so 0 for count ≤ 1 |
| HexagonGrid.HexCountStrictlyIncreasing | Assets/PragmaCommon/Hexagon/HexagonGrid.cs:34-47 | a larger radius gives strictly more hexes |
| HexagonGrid.GetRadiusRoundTrip | Assets/PragmaCommon/Hexagon/HexagonGrid.cs:8-47 | the only radius `GetRadius` can answer for the size of a map of radius R is R |
| HexagonGrid.RadiusOfGeneratedGrid | Assets/PragmaCommon/Hexagon/HexagonGrid.cs:8-47 | `GetRadius(GenerateHexagonGrid(r).Count)` is r |
| SerializedDictionaries.Kvp.WithKey | Assets/PragmaCommon/SerializedDictionary.cs:19 | the `Key` setter: the getter returns the new key and the value is kept |
| SerializedDictionaries.Kvp.WithValue | Assets/PragmaCommon/SerializedDictionary.cs:20 | the `Value` setter: the getter returns the new value and the key is kept |
| SerializedDictionaries.GettersDetermineEntry | Assets/PragmaCommon/SerializedDictionary.cs:19-20 | writing back what the `Key` and `Value` getters return changes nothing, and an entry created from the getters' key and value is the entry itself |
| SerializedDictionaries.Create | Assets/PragmaCommon/SerializedDictionary.cs:26 | the entry built from a pair has that key and that value |
| SerializedDictionaries.ToMap | Assets/PragmaCommon/SerializedDictionary.cs:44-48 | inserting the entries in order gives a map whose keys are exactly the listed keys |
| SerializedDictionaries.LastWins | Assets/PragmaCommon/SerializedDictionary.cs:44-48 | the last entry for a key decides its value |
| SerializedDictionaries.ListingRoundTrip | Assets/PragmaCommon/SerializedDictionary.cs:40-59 | inserting a listing of a map in order rebuilds exactly that map |
| SerializedDictionaries.ListingSize | Assets/PragmaCommon/SerializedDictionary.cs:51-59 | a listing has exactly one entry per pair |
| SerializedDictionaries.SerializedDictionary.constructor | Assets/PragmaCommon/SerializedDictionary.cs:37 | empty dictionary, empty entry list |
| SerializedDictionaries.SerializedDictionary.FromDictionary | Assets/PragmaCommon/SerializedDictionary.cs:38 | a copy of the given pairs, empty entry list |
| SerializedDictionaries.SerializedDictionary.TryAdd | Assets/PragmaCommon/SerializedDictionary.cs:63 | inserts only an absent key and returns whether it did |
| SerializedDictionaries.SerializedDictionary.Set | Assets/PragmaCommon/SerializedDictionary.cs:61-67 | afterwards the key maps to the value, the key set grows by at most the key, and every other key keeps its value |
| SerializedDictionaries.SerializedDictionary.Get | Assets/PragmaCommon/SerializedDictionary.cs:69-74 | the stored value, or the default for an absent key; reads only |
| SerializedDictionaries.SerializedDictionary.Deserialize | Assets/PragmaCommon/SerializedDictionary.cs:40-49 | the dictionary becomes the in-order insertion of the entry list (a later duplicate overrides), and the list is kept |
| SerializedDictionaries.SerializedDictionary.Serialize | Assets/PragmaCommon/SerializedDictionary.cs:51-59 | the entry list becomes a listing of the dictionary: one entry per pair, no key twice; the dictionary is kept |
| SerializedDictionaries.SerializeThenDeserialize | Assets/PragmaCommon/SerializedDictionary.cs:40-59 | saving and then restoring gives back the same dictionary |
| SerializedDictionaries.LaterDuplicateWins | Assets/PragmaCommon/SerializedDictionary.cs:44-48 | restoring a list that names a key twice keeps the later value |
| SerializedHashSets.DistinctCount | Assets/PragmaCommon/SerializedHashSet.cs:26-34 | a list has at most as many distinct elements as entries, and exactly as many when none repeats |
| SerializedHashSets.AppendNew | Assets/PragmaCommon/SerializedHashSet.cs:40-43 | appending an element not yet listed keeps the list free of repetitions |
| SerializedHashSets.SerializedHashSet.constructor | Assets/PragmaCommon/SerializedHashSet.cs:19 | empty set, empty element list |
| SerializedHashSets.SerializedHashSet.FromHashSet | Assets/PragmaCommon/SerializedHashSet.cs:21-24 | starts from the given set |
| SerializedHashSets.SerializedHashSet.Count | Assets/PragmaCommon/SerializedHashSet.cs:50 | the count is zero exactly when no element is contained |
| SerializedHashSets.SerializedHashSet.Contains | Assets/PragmaCommon/SerializedHashSet.cs:82 | an item is contained only in a set whose count is positive |
| SerializedHashSets.SerializedHashSet.TryAdd | Assets/PragmaCommon/SerializedHashSet.cs:54 | `ISet.Add` returns true exactly when the item was absent; afterwards it is present and the count grew by one exactly then |
| SerializedHashSets.SerializedHashSet.Add | Assets/PragmaCommon/SerializedHashSet.cs:78 | the public `Add` makes the item present and discards the result |
| SerializedHashSets.SerializedHashSet.Remove | Assets/PragmaCommon/SerializedHashSet.cs:56 | returns true exactly when the item was present; afterwards it is absent and the count dropped by one exactly then |
| SerializedHashSets.SerializedHashSet.Clear | Assets/PragmaCommon/SerializedHashSet.cs:80 | the count becomes 0 and nothing is contained |
| SerializedHashSets.SerializedHashSet.Deserialize | Assets/PragmaCommon/SerializedHashSet.cs:26-34 | the set becomes the elements of the list, so duplicates collapse; the count equals the list length exactly when no element repeats |
| SerializedHashSets.SerializedHashSet.Serialize | Assets/PragmaCommon/SerializedHashSet.cs:36-44 | the list becomes the set's elements, each exactly once; the set is kept |
| SerializedHashSets.SerializeThenDeserialize | Assets/PragmaCommon/SerializedHashSet.cs:26-44 | saving and then restoring gives back the same set, with no entry collapsed |
| SerializedHashSets.DuplicatesCollapse | Assets/PragmaCommon/SerializedHashSet.cs:26-34 | restoring `[x, y, x]` gives a set of two elements |
| Delaying.Delayer.constructor | Assets/PragmaCommon/Delayer.cs:7-8 | total and remaining time start at 0, with no end event |
| Delaying.Delayer.Value | Assets/PragmaCommon/Delayer.cs:11 | the remaining time; when the total delay is not 0 it is the total scaled by 1 − `Normalized` |
| Delaying.Delayer.Normalized | Assets/PragmaCommon/Delayer.cs:12 | 1 − remaining/total when the total is not 0, else 0; 0 at the start of a countdown, 1 at its end, within [0, 1] in between |
| Delaying.Delayer.AddDelay | Assets/PragmaCommon/Delayer.cs:14-18 | total and remaining grow by the same amount, and nothing fires |
| Delaying.Delayer.SetDelay | Assets/PragmaCommon/Delayer.cs:20-29 | both become the argument, and the end event fires once exactly when it is ≤ 0 |
| Delaying.Delayer.Reset | Assets/PragmaCommon/Delayer.cs:31-35 | both become 0, and nothing fires |
| Delaying.Delayer.Update | Assets/PragmaCommon/Delayer.cs:37-48 | no-op when remaining ≤ 0; an update that reaches ≤ 0 clamps remaining to 0 and fires once; otherwise it subtracts |
| Delaying.CountdownFiresOnce | Assets/PragmaCommon/Delayer.cs:20-48 | a positive countdown fires exactly once, however many updates follow |
| Flags.IsHasFlag | Assets/PragmaCommon/Extensions/PragmaExtension.Flag.cs:7-10 | true exactly when no bit of the value lies outside the hash (bitwise inclusion) |
| Flags.IsHasFlagOfNone | Assets/PragmaCommon/Extensions/PragmaExtension.Flag.cs:7-10 | the empty flag set is in every hash |
| Flags.AddFlag | Assets/PragmaCommon/Extensions/PragmaExtension.Flag.cs:12-15 | the bits that change are exactly the bits of the value that were clear |
| Flags.AddFlagSetsFlag | Assets/PragmaCommon/Extensions/PragmaExtension.Flag.cs:12-15 | after `AddFlag` the flag is present |
| Flags.AddFlagKeepsOtherBits | Assets/PragmaCommon/Extensions/PragmaExtension.Flag.cs:12-15 | `AddFlag` keeps every bit outside the value |
| Flags.AddFlagIdempotent | Assets/PragmaCommon/Extensions/PragmaExtension.Flag.cs:14 | adding flags already present changes nothing |
| Flags.RemoveFlag | Assets/PragmaCommon/Extensions/PragmaExtension.Flag.cs:17-20 | the bits that change are exactly the bits of the value, whatever their state |
| Flags.RemoveFlagClearsPresentFlag | Assets/PragmaCommon/Extensions/PragmaExtension.Flag.cs:17-20 | `RemoveFlag` clears a flag that was fully present |
| Flags.RemoveFlagSetsAbsentFlag | Assets/PragmaCommon/Extensions/PragmaExtension.Flag.cs:17-20 | `RemoveFlag` of a flag that was fully absent sets it: it is a toggle |
| Flags.RemoveFlagKeepsOtherBits | Assets/PragmaCommon/Extensions/PragmaExtension.Flag.cs:17-20 | `RemoveFlag` keeps every bit outside the value |
| Flags.RemoveFlagTwiceRestores | Assets/PragmaCommon/Extensions/PragmaExtension.Flag.cs:19 | two `RemoveFlag`s with the same value restore the hash |
| SnakeCase.ToLower | Assets/PragmaCommon/Extensions/Extension.String.cs:21 | the result is never upper-case, a non-upper-case character is kept, and only '_' maps to '_' |
| SnakeCase.TrimStart | Assets/PragmaCommon/Extensions/Extension.String.cs:26 | drops exactly the leading run of the character: the result is a suffix, what was dropped is all that character, and the result does not start with it |
| SnakeCase.LowerAll | Assets/PragmaCommon/Extensions/Extension.String.cs:21-24 | each character lower-cased, in place |
| SnakeCase.ToSnakeCase | Assets/PragmaCommon/Extensions/Extension.String.cs:7-27 | an empty string fails on the unconditional index; otherwise the loop builds exactly `SnakeOf(str)` |
| SnakeCase.PiecesWithoutUnderscores | Assets/PragmaCommon/Extensions/Extension.String.cs:11-22 | apart from underscores, the loop's output is the lower-cased prefix |
| SnakeCase.SnakeOfIsLoweredInput | Assets/PragmaCommon/Extensions/Extension.String.cs:7-27 | apart from underscores, the result is the input lower-cased, in order |
| SnakeCase.SnakeOfShape | Assets/PragmaCommon/Extensions/Extension.String.cs:7-27 | no upper-case letter survives and the result never starts with '_' |
| SnakeCase.SnakeOfEnding | Assets/PragmaCommon/Extensions/Extension.String.cs:24 | the result ends with the last character lower-cased (when that is not '_') |
| SnakeCase.SnakeOfSingle | Assets/PragmaCommon/Extensions/Extension.String.cs:11-26 | a one-character string becomes its lower-case form, or nothing for "_" |
| SnakeCase.SnakeOfExample | Assets/PragmaCommon/Extensions/Extension.String.cs:11-26 | "aBc" becomes "a_bc" |
| GameObjectNames.IndexOfFrom | Assets/PragmaCommon/Extensions/PragmaExtension.GameObject.cs:184 | the first occurrence at or after `from`, or -1 when there is none |
| GameObjectNames.IndexOf | Assets/PragmaCommon/Extensions/PragmaExtension.GameObject.cs:184 | ordinal `IndexOf`: the first occurrence, -1 exactly when there is none |
| GameObjectNames.GetNameWithoutClone | Assets/PragmaCommon/Extensions/PragmaExtension.GameObject.cs:180-190 | a name without "(Clone)" is kept; otherwise it is cut right before the first "(Clone)"; the result is always a prefix of the name and never contains "(Clone)" |
| GameObjectNames.GetNameWithoutCloneIdempotent | Assets/PragmaCommon/Extensions/PragmaExtension.GameObject.cs:180-190 | stripping twice is stripping once |
| GameObjectNames.StripCloneFromName | Assets/PragmaCommon/Extensions/PragmaExtension.GameObject.cs:175-178 | the object's name becomes the stripped name, and nothing else changes |

## Left out

- Logging (`Debug.LogError` in `Hex`, `GetDirection`, `InsertAt` and
  `NextIndexInCircle`) is not modelled as output. `HexCoordinates.Construct`
  reports it as a flag.
- C# `int` overflow is not modelled: coordinates, counts, indices and
  `NextIndexInCircle`'s `desiredPosition % length + length` are unbounded
  integers. The flag helpers are the exception; they work on `bv32`.
- Delaying.Delayer: times are `real`; `float` rounding is not modelled.
- Grids.Grid.constructor: the `ICellFactory.Create(grid, coordinate)` call is
  a pure function of the coordinate; the grid argument is not passed.
- Grids.Grid.constructor: a negative size, which makes the array
  allocation throw, is excluded by the `nat` parameters.
- Grids.Grid.TraversalCellsUntil and Grids.Grid.TraversalCells: the visitor
  is a pure function. The calls are returned as a log instead of performing
  side effects.
- `GridCellChangedEvent` is modelled as a log of every raising, whether or
  not a subscriber is attached.
- `IReadOnlyRx<T>` sources are modelled as `RxField<T>` only. The other
  implementation among the modelled files is `RxCondition` itself (an
  `IReadOnlyRx<bool>`); a condition used as the source of a wrapper or of
  another condition is not modelled.
- Null arguments: the model's parameter types cannot be null, except where
  Enumerables.GetList and Enumerables.IsShuffled are listed below. In the
  source, a null array or list given to `InsertAt`, `FillBy`, `FirstIndex`
  or `LastIndex`, a null dictionary given to `GetOrAdd`, a null string given
  to `ToSnakeCase`, and null sources, a null source field or a null
  condition given to `RxCondition` throw `NullReferenceException`; the one
  exception is `InsertAt(null, index)` with a negative index, which returns
  null without touching the array (Extension.IEnumerable.cs:19-23).
- CsvParsing.ParseDropsLoneCell and CsvParsing.ParseFlushesPendingRow: the
  preceding text must end in a line feed; a preceding text that ends in a
  lone CR (also a row break for the parser) is not covered.
- Listener calls are recorded, not run: a listener's own side effects (for
  example, the wrapper's `OnValueUpdate` running inside the field's
  setter) are delivered explicitly by `RxWrappers.AssignThroughWrapper`,
  and `RxCondition.OnUpdateValue` is called directly.
- CSV delimiters: the scan lemmas and examples assume a delimiter other
  than CR, LF and the double quote. The parser itself accepts any
  character.
- CsvParsing.EstimateDelimiter: it takes the extension string.
  `Path.GetExtension` is not part of this model.
- CsvParsing.EstimateDelimiter: `OrdinalIgnoreCase` is modelled over ASCII
  letters only.
- CSV loading: `LoadFromPath` and `LoadFromPathAsync` (file reading and
  async) are not modelled.
- SnakeCase.ToSnakeCase: `char.IsUpper`, `char.IsLower` and `ToLower` are
  restricted to ASCII.
- SerializedDictionaries.SerializedDictionary.Serialize and
  SerializedHashSets.SerializedHashSet.Serialize: the enumeration order of
  `Dictionary` and `HashSet` is unspecified, so the order of the list is
  left open. Only the contents are stated.
- The engine's serialization callbacks (`OnBeforeSerialize`,
  `OnAfterDeserialize`) are modelled as explicit calls of `Serialize` and
  `Deserialize`.
- SerializedDictionaries.SerializedDictionary: only the concrete subclass
  with `Kvp` entries is modelled. The abstract `TClass` parameter is left out.
- SerializedDictionaries.Kvp: the setters are modelled on a copy of the
  entry (`WithKey`, `WithValue`), as the struct is a value type.
- SerializedHashSets.SerializedHashSet.FromHashSet: the set is copied. The
  source stores the caller's `HashSet` object itself, so later changes
  through either reference are shared; that aliasing is not modelled.
- The other `ISet<T>` members of `SerializedHashSet` (`ExceptWith`,
  `IntersectWith`, the subset and overlap tests, `SymmetricExceptWith`,
  `UnionWith`, `CopyTo`, `GetEnumerator`) are one-line forwards to
  `HashSet` and are not modelled.
- Key and element equality is Dafny equality. The default equality
  comparer and hash codes are not modelled.
- Enumerables.IsShuffled: the `T : class` constraint and `x.Equals` on a
  null element (which would throw) are not modelled; elements are values
  compared with `==`.
- Enumerables.GetList: a null argument is not modelled; `list switch` on
  null would create a list from null and throw.
- `Predicate<T>`, `Func<...>` and `compare` arguments are pure functions.
- `IList<T>` and `T[]` are both Dafny arrays; `List<T>.Count` is the array
  length.
- Randomness: `GetRandom`, `Shuffle()` with the shared generator,
  `Shuffle(seed)`, `Shuffle(randomiseSelector)` and `ShuffleUnsafe` are not
  modelled. The seeded Fisher–Yates core is modelled with the values of
  `Random.Next` supplied as the input `draws`.
- MathExtensions.BubbleSort: the `calls` out-parameter is an added
  counter of `compare` calls; the source returns nothing.
- MathExtensions.BubbleSort: sortedness is promised only when `compare` is
  a strict weak order on the list's elements. For other `compare`
  functions, only the permutation and the exact sequence of passes are
  stated.
- `ForEach`, `For`, `TryFind` and the other helpers of the same file are
  not part of this model.
- The floating-point helpers of the math extensions are not part of this
  model.
- `HexToPixel` (floating point) is not modelled.

## Findings

| source | as written | input that shows it | evidently intended | confidence | as-written member | corrected member |
|---|---|---|---|---|---|---|
| Assets/PragmaCommon/Rx/RxCondition.cs:8-32 | the constructor never assigns `_isConditionMet`, so `Value`, `Subscribe`, `Unsubscribe`, `ForceInvoke` and any update that flips a cached result dereference null | any sources and any condition, e.g. `new RxCondition(fields, c, All).Value` | the constructor creates `_isConditionMet` holding the initial aggregate | not executed | RxConditions.AsWrittenValueFails | RxConditions.FixedValueTracksAggregate |
