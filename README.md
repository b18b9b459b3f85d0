# Scatter stack merger

A Dafny model of the cross-trace step for stacked scatter traces in
plotly.js (`crossTraceCalc` in `src/traces/scatter/cross_trace_calc.js`). It
covers one stack group at a time. The step has four stages:

1. **Merging positions.** It builds the union of the members' positions
   (`allPositions`). While it walks each member against that union, it
   splices synthesized entries ("blanks") into the member wherever the
   member lacks a union position. When the member brings a new position, it
   splices blanks into every earlier member and adds the position to the
   union.
2. **Filling blanks.** Each blank gets its value by precedence:
   - a copy of a same-position predecessor (its value, input index and gap
     flag, under any gap policy);
   - otherwise the interpolated value, when `stackgaps` is `'interpolate'`;
   - otherwise zero.
3. **Stacking.** At each position the member values are summed in a
   running total, and optionally divided by the `groupnorm` divisor
   (`'fraction'` or `'percent'`; a zero divisor becomes 1). When
   normalising, `sNorm` is also recorded.
4. **Padding.** The padding for axis expansion is built from the
   marker-size result. Gaps get zero padding. Other entries get the scalar,
   or the array element at the entry's input index.

Files and modules:

- `entries.dfy` (`Entries`): the calcdata entry and the sequence helpers.
  These are the splice (`Insert`), positions, order, and the subsequence
  relation with its lemmas.
- `blanks.dfy` (`Blanks`): `getInterp` (`Interp`) and the entry that
  `insertBlank` creates (`Blank`). It also says which entries of a grown
  trace count as blanks (`Explained`).
- `union.dfy` (`PositionUnion`): a reference definition of the union the
  merge builds. `MaxMerge` merges two sorted position lists, and `Union`
  folds it over the members in order. Its lemmas show the union is sorted
  and holds each position as often as the member holding it most often.
- `stacking.dfy` (`Stacking`): the running sum and the normalisation
  divisor, with the identities they satisfy.
- `padding.dfy` (`RangePadding`): the padding rebuild loop.
- `meta.dfy` (`SeriesMeta`): which entry of each member holds its
  series metadata (`t` and `trace`) as blanks are spliced in. It has the
  relocation as written and as intended (see "## Findings").
- `stack_group.dfy` (`ScatterStack`): the class `StackGroup`. Its fields are
  the member traces and `hasAnyBlanks`, which its methods change in place.
  Methods:
  - `InsertBlank`;
  - the merge (`MergePositions`, built from `MergeRest`, `MergePass`,
    `MergeMember`, `MergePoint`, `CatchUp`, `BlankBelow`, `AddPosition`,
    `PatchEarlier`, `PatchOne`, `FillTail` and `BlankAfter`);
  - stacking (`StackAndNormalize`, built from `StackColumn`, `RunningSum`
    and `NormalizeColumn`; `RunningSum` does its sum with `ColumnSums`);
  - the per-group body, `CrossTraceCalc`, with its padding loop `BuildPads`.
  `ZeroGapExample` applies `CrossTraceCalc` to a two-member group.

Values and positions are `real`, so interpolation and division are exact.
The position attribute (`x` or `y`) is the field `pos`. The value attribute
is the field `v`. The group's configuration enters as the constructor's
arguments, not from the layout. The marker-size result enters as a tagged
value, one per member.

Two behaviours of the code that the model keeps:

- `getInterp` has no zero fallback. With neither neighbour, line 70 reads
  `pt0.s` of `undefined` and throws. The model makes the existence of a
  neighbour a precondition (see `InterpSafe`).
- When the padding is rebuilt, gaps get zero padding whether the marker-size
  result is an array or a nonzero scalar (lines 161 and 165).

## Model

| member | source | states |
|---|---|---|
| Entries.Insert | src/traces/scatter/cross_trace_calc.js:41 | `splice(index, 0, x)`: `x` lands at `index`; earlier items stay, later ones shift right by one |
| Entries.SubseqInsert | src/traces/scatter/cross_trace_calc.js:41 | splicing an entry into a trace keeps every subsequence of it, so the merge never loses or reorders an input point |
| Entries.SubseqPositions | src/traces/scatter/cross_trace_calc.js:101-130 | entries kept in order keep their positions in order, so each member's input positions are a subsequence of the union |
| Entries.SubseqMember | src/traces/scatter/cross_trace_calc.js:101-130 | every item of a subsequence is an item of the whole, so every input position appears in the union |
| Entries.SubseqLength | src/traces/scatter/cross_trace_calc.js:41 | a subsequence is never longer than the whole, so a member only grows by the merge |
| Entries.InsertMember | src/traces/scatter/cross_trace_calc.js:122 | after `allPositions.splice(k, 0, posj)` every union position is `posj` or an old one |
| Entries.InsertSorted | src/traces/scatter/cross_trace_calc.js:117-122 | splicing `posj` between a neighbour at most it and one above it keeps the union non-decreasing |
| Blanks.Interp | src/traces/scatter/cross_trace_calc.js:67-73 | with only a right or only a left neighbour, that neighbour's `s`; between two, the point `(position, s)` lies on the line through the neighbours |
| Blanks.InterpBetween | src/traces/scatter/cross_trace_calc.js:72 | between ordered neighbours the interpolated value lies between their two values |
| Blanks.Blank | src/traces/scatter/cross_trace_calc.js:33-57 | the new entry sits at the position; a same-position predecessor's `s`, `i` and `gap` are copied under either gap policy; otherwise `i` is null and `gap` is true, with `s` interpolated or zero |
| Blanks.ExplainedInsert | src/traces/scatter/cross_trace_calc.js:33-57 | if every entry of a trace is an input point or a blank, it stays so after `insertBlank` splices in its entry: a blank is a gap with no input index (zero-valued unless interpolating), or a copy of the `s`, `i` and `gap` of a same-position predecessor |
| Blanks.BlankTagged | src/traces/scatter/cross_trace_calc.js:35-54 | if every entry of a trace is a gap exactly when it has no input index, the trace stays so after a blank is spliced in |
| Blanks.BlankKeepsOrder | src/traces/scatter/cross_trace_calc.js:41 | a blank spliced between ordered neighbours keeps the trace ordered by position |
| Blanks.InterpExample | src/traces/scatter/cross_trace_calc.js:67-73 | samples at 0 (value 10) and 4 (value 30) give 20 at position 2 and 15 at position 1 |
| Blanks.BoundaryExample | src/traces/scatter/cross_trace_calc.js:70-71 | a blank before the first or after the last sample takes that sample's value |
| Blanks.DuplicateExample | src/traces/scatter/cross_trace_calc.js:47-54 | a blank at a position the trace already holds copies that point, whether or not interpolating |
| Stacking.NormOf | src/traces/scatter/cross_trace_calc.js:146 | the divisor is never zero: the total ('fraction'), a hundredth of it ('percent'), or 1 when the total is zero |
| Stacking.StackedRunningSum | src/traces/scatter/cross_trace_calc.js:136-142 | member 0's stacked value is its own `s`; member i's is member i-1's plus its own `s`, so stacking is the prefix sum over members 0..i |
| Stacking.SumZeros | src/traces/scatter/cross_trace_calc.js:141 | a sum of zeros is zero |
| Stacking.ZeroColumn | src/traces/scatter/cross_trace_calc.js:145-151 | at a position where every member's `s` is zero, every member's final stacked value is zero, normalised or not |
| Stacking.NormalisedTop | src/traces/scatter/cross_trace_calc.js:145-151 | with a nonzero total the last member normalises to 1 in 'fraction' mode and 100 in 'percent' mode |
| Stacking.SumScaled | src/traces/scatter/cross_trace_calc.js:150 | dividing each value by a nonzero divisor divides their sum by it |
| Stacking.NormalisedConsistent | src/traces/scatter/cross_trace_calc.js:148-150 | the `sNorm` values of members 0..i add up to member i's normalised stacked value; times the divisor, all `sNorm` values give back the total |
| Stacking.StackExample | src/traces/scatter/cross_trace_calc.js:135-151 | values 5 and 2 stack to 5 and 7; values 5 and 4 in percent mode put the top member at 100 |
| RangePadding.Lookup | src/traces/scatter/cross_trace_calc.js:165 | `ppadRaw[i]` is defined exactly for a present, in-range input index |
| RangePadding.BuildPadding | src/traces/scatter/cross_trace_calc.js:159-167 | if the padding is an array, or a nonzero scalar and the member has blanks, it is rebuilt with `serieslen` elements: 0 at every gap, elsewhere the scalar or the array element at the entry's index; otherwise the scalar is passed on unchanged |
| RangePadding.PaddingDefined | src/traces/scatter/cross_trace_calc.js:165 | if points are gaps exactly when they lack an index and the array covers every index, every rebuilt element is defined |
| PositionUnion.MaxMergeMembers | src/traces/scatter/cross_trace_calc.js:110-124 | a position is in the merge of two lists exactly when it is in one of them |
| PositionUnion.MaxMergeSorted | src/traces/scatter/cross_trace_calc.js:110-124 | merging two sorted lists gives a sorted list |
| PositionUnion.MaxMergeCount | src/traces/scatter/cross_trace_calc.js:110-124 | in the merge of two sorted lists each position occurs as often as in the list holding it more often |
| PositionUnion.UnionStep | src/traces/scatter/cross_trace_calc.js:107-130 | adding member `i` merges its positions into the union of the members before it |
| PositionUnion.UnionSorted | src/traces/scatter/cross_trace_calc.js:101-130 | the union of sorted members is sorted |
| PositionUnion.UnionCountAtLeast | src/traces/scatter/cross_trace_calc.js:101-130 | the union holds each position at least as often as every member does |
| PositionUnion.UnionCountAttained | src/traces/scatter/cross_trace_calc.js:101-130 | a position of the union occurs there exactly as often as in some member, so the union is no longer than it must be |
| PositionUnion.TailStart | src/traces/scatter/cross_trace_calc.js:108-110 | before the walk, the merge still to be done is the whole merge of the union with the member |
| PositionUnion.TailEnd | src/traces/scatter/cross_trace_calc.js:126-129 | once the member's points are all consumed, the merge still to be done is the union as it stands |
| PositionUnion.TailSkip | src/traces/scatter/cross_trace_calc.js:112-116 | passing over a union position below the member's next one leaves the merge still to be done unchanged |
| PositionUnion.TailSkipRun | src/traces/scatter/cross_trace_calc.js:112-116 | passing over a whole run of union positions below the member's next one leaves the merge still to be done unchanged |
| PositionUnion.TailMatch | src/traces/scatter/cross_trace_calc.js:124 | a union position equal to the member's next one consumes both and leaves the merge still to be done unchanged |
| PositionUnion.TailInsert | src/traces/scatter/cross_trace_calc.js:117-124 | splicing the member's next position into the union before a higher union position leaves the merge still to be done unchanged |
| PositionUnion.UnionExample | src/traces/scatter/cross_trace_calc.js:101-130 | positions [1, 2, 3] and [1, 3] merge to [1, 2, 3]; [1] and [1, 1] merge to [1, 1] |
| ScatterStack.GrownInsert | src/traces/scatter/cross_trace_calc.js:33-41 | splicing a blank into a member keeps its input points in order, grows it, sets its blank flag, keeps gap/index tagging, and keeps every non-input entry a blank |
| ScatterStack.MergeStateInsert | src/traces/scatter/cross_trace_calc.js:114 | a blank spliced into the walked member keeps the merge invariant for the other members |
| SeriesMeta.Shift | src/traces/scatter/cross_trace_calc.js:41 | the splice moves the entry holding the metadata one place on if it is at or after `index`, and leaves it otherwise |
| SeriesMeta.MoveToFront | src/traces/scatter/cross_trace_calc.js:60-63 | copying entry 1's `t`/`trace` onto entry 0 and deleting them from entry 1 moves metadata from entry 1 to entry 0, erases metadata on entry 0, and leaves any other holder alone |
| SeriesMeta.MetaInsertAsWritten | src/traces/scatter/cross_trace_calc.js:58-64 | the relocation applied to the walked member `cd`: it throws exactly when the blank is at the front and `cd` then has fewer than two entries; members other than the spliced one and `cd` are untouched |
| SeriesMeta.AsWrittenAgreesOnCurrent | src/traces/scatter/cross_trace_calc.js:58-64 | when the blank goes into the walked member itself, the code as written relocates exactly as intended |
| SeriesMeta.AsWrittenMisplaces | src/traces/scatter/cross_trace_calc.js:58-64 | members at positions [2, 3] and [1, 2]: the blank at the front of member 0 leaves its metadata on entry 1 and erases member 1's; the intended relocation keeps both on entry 0 |
| SeriesMeta.AsWrittenThrows | src/traces/scatter/cross_trace_calc.js:58-64 | members at positions [2] and [1]: the same insertion reads `cd[1]` of a one-entry member and throws |
| SeriesMeta.MetaInsert | src/traces/scatter/cross_trace_calc.js:58-64 | the relocation applied to the trace that received the blank: other members are untouched; a holder before `index` stays; a holder on entry 0 stays on entry 0; any other holder at or after `index` moves on by one; a lost holder stays lost |
| SeriesMeta.MetaInsertKeepsFront | src/traces/scatter/cross_trace_calc.js:58-64 | if every member's metadata is on its first entry, any insertion leaves it there |
| ScatterStack.StackGroup.InsertBlank | src/traces/scatter/cross_trace_calc.js:33-65 | member `traceIndex` becomes its old entries with `Blank` spliced in at `index`; `hasAnyBlanks[traceIndex]` becomes true; its metadata is relocated as intended, so metadata on first entries stays there; nothing else changes |
| ScatterStack.BlanksAtStep | src/traces/scatter/cross_trace_calc.js:112-116 | splicing `Blank` in at the end of a run of blanks extends the run by one and keeps the entries before and after the run |
| ScatterStack.BlanksAtInsert | src/traces/scatter/cross_trace_calc.js:122 | splicing a position into the union after a run of blanks leaves the run's union positions, and so the run, as they were |
| ScatterStack.StackGroup.BlankBelow | src/traces/scatter/cross_trace_calc.js:114 | the walked member becomes its old entries with `Blank` (of the member as it stood, at union position `j`) spliced in at `j`, and its flag is set; the walked prefix grows by one, every other member and flag is unchanged, and the merge invariant (each member its input points plus blanks) is kept |
| ScatterStack.StackGroup.CatchUp | src/traces/scatter/cross_trace_calc.js:112-116 | blanks are inserted for every union position below the current point: the entries before the cursor are unchanged, those from the old cursor on follow the new cursor, and each entry in between is `Blank` of the member as it stood when that entry was spliced in at its union position; afterwards the cursors meet the first union position not below the point, only the walked member changed, and the merge still to be done is the same |
| ScatterStack.StackGroup.PatchEarlier | src/traces/scatter/cross_trace_calc.js:117-121 | every earlier member becomes its old entries with `Blank` spliced in at `k`, and its flag is set, so it lines up with the union once `posj` is spliced in; the current and later members and their flags are untouched |
| ScatterStack.StackGroup.PatchOne | src/traces/scatter/cross_trace_calc.js:120 | one earlier member becomes its old entries with `Blank` spliced in at `k`, its flag is set, it lines up with the union once `posj` is spliced in, and it still is its input points plus blanks; every other member and flag is unchanged |
| ScatterStack.StackGroup.AddPosition | src/traces/scatter/cross_trace_calc.js:117-123 | a point position missing from the union is given to the earlier members (each gets `Blank` of itself spliced in at `k` and its flag set) and spliced into the union at `k`, which stays sorted and made of member positions; the walked member is unchanged and the merge still to be done is the same |
| ScatterStack.StackGroup.BlankAfter | src/traces/scatter/cross_trace_calc.js:127 | past the member's last point, the member becomes its old entries with `Blank` (of the member as it stood, at union position `j`) spliced in at `j`, and its flag is set; every other member and flag is unchanged and the merge invariant is kept |
| ScatterStack.StackGroup.FillTail | src/traces/scatter/cross_trace_calc.js:126-129 | past the member's last point, blanks are appended for the remaining union positions: the old entries stay in front, and each appended entry is `Blank` of the member as it stood when it was appended at its union position, so the member lines up with the union; every other member and flag is unchanged |
| ScatterStack.StackGroup.MergePoint | src/traces/scatter/cross_trace_calc.js:111-124 | one point of the walked member: the walked member keeps its entries before the cursor, gets `Blank` of itself as it stood at each union position below the point, and keeps the point and what follows; if the point's position was new, it was spliced into the union just before the new cursor and every earlier member got `Blank` of itself spliced in there and its flag set, and otherwise the earlier members are unchanged; both cursors end past the point, the union stays sorted and made of member positions, and the merge still to be done is the same |
| ScatterStack.EarlierNonEmpty | src/traces/scatter/cross_trace_calc.js:119-121 | under interpolation, while a non-empty member is walked, every earlier member is non-empty, so the blanks given to them can be interpolated |
| ScatterStack.FromMembersInsert | src/traces/scatter/cross_trace_calc.js:122 | splicing the walked member's position into the union keeps every union position some member's input position |
| ScatterStack.StackGroup.MergeMember | src/traces/scatter/cross_trace_calc.js:107-130 | one pass for member `i`: the new union is `MaxMerge` of the old one with member `i`'s positions; members 0..i line up with it, later members are untouched, and every member is still its input points plus blanks |
| ScatterStack.StackGroup.MergePass | src/traces/scatter/cross_trace_calc.js:107-130 | after the pass over member `i`, the union is `Union` of members 0..i, still sorted and made of member positions, and members 0..i line up with it |
| ScatterStack.StackGroup.MergeRest | src/traces/scatter/cross_trace_calc.js:107-130 | starting from the first member's positions, the passes over members 1.. leave the union equal to `Union` of all members, every member lined up with it and grown from its input by blanks only |
| ScatterStack.FirstPositions | src/traces/scatter/cross_trace_calc.js:101-105 | the union starts as the first member's positions, in order |
| ScatterStack.GrownAll | src/traces/scatter/cross_trace_calc.js:33-57 | a member grown by blanks keeps its input points in order, every other entry is a blank, its flag is set exactly when it grew, and gap/index tagging is kept |
| ScatterStack.AlignedAll | src/traces/scatter/cross_trace_calc.js:101-130 | once every member lines up with the union, each member's positions are the union and every input position occurs in it, in order |
| ScatterStack.StackGroup.MergePositions | src/traces/scatter/cross_trace_calc.js:92-132 | the union is `Union` of the input members (sorted, each position as often as the member holding it most often); every member ends with exactly `serieslen` entries whose positions equal it; each member keeps its input points unchanged and in order, and every other entry is a blank; `hasAnyBlanks[u]` (initially false) is set exactly for members that grew |
| ScatterStack.ColumnSums | src/traces/scatter/cross_trace_calc.js:136-143 | at position `j`, member u's value attribute becomes the sum of `s` over members 0..u, nothing else changes, and the total is returned |
| ScatterStack.StackGroup.RunningSum | src/traces/scatter/cross_trace_calc.js:135-143 | at position `j`, member u's value attribute becomes the sum of `s` over members 0..u; it returns the total |
| ScatterStack.StackGroup.NormalizeColumn | src/traces/scatter/cross_trace_calc.js:147-151 | at position `j` every member's value attribute is divided by `norm` and `sNorm = s / norm` |
| ScatterStack.StackGroup.StackColumn | src/traces/scatter/cross_trace_calc.js:135-152 | only position `j` changes: each member's entry there becomes its stacked (and, if asked, normalised) entry |
| ScatterStack.StackGroup.StackAndNormalize | src/traces/scatter/cross_trace_calc.js:132-153 | every member at every position holds the prefix sum of `s` over members 0..u, divided by the position's divisor when normalising, with `sNorm` its own share; positions and values otherwise unchanged |
| ScatterStack.StackGroup.BuildPads | src/traces/scatter/cross_trace_calc.js:155-167 | each member gets the padding `BuildPadding` builds from its marker-size result and its blank flag |
| ScatterStack.StackGroup.CrossTraceCalc | src/traces/scatter/cross_trace_calc.js:80-167 | an empty group is left alone; otherwise the union is `Union` of the input members, the merge guarantees above hold of the merged group (input points kept, every other entry a blank), the final entries are its stacked entries, and each member's padding is built from its stacked entries and its blank flag; every member's series metadata stays on its first entry |
| ScatterStack.ZeroGapExample | src/traces/scatter/cross_trace_calc.js:80-130 | members at positions [1, 2, 3] and [1, 3] with zero-filled gaps merge to [1, 2, 3], and the second member's entry at 2 is a gap with no input index and value 0 |

## Left out

- Looking up the subplot's stack groups, `gd.calcdata` and the axes
  (lines 19-27 and 75-80): configuration plumbing. A group is given
  directly as its member traces plus the interpolate flag and the
  normalisation mode.
- The choice of `x`/`y` as position and value attribute by orientation
  (lines 84-91): the model uses one fixed position field and one fixed
  value field.
- `calc.calcMarkerSize` and `calc.calcAxisExpansion` (lines 159 and
  168-174): these are calls into `./calc`, which is not part of this model.
  The marker-size result is an input, and the model stops before the `x`/`y`
  arrays are read off for axis expansion.
- The series metadata itself: only which entry holds `t`/`trace` is
  modelled, not their contents. The model follows the intended relocation
  (see "## Findings").
- SeriesMeta.MetaInsert: it does not model the TypeError the source would
  also raise when a blank goes to the front of an empty member (it reads
  `calcTrace[1]`). The source's callers always give every trace a first
  entry to hold its metadata.
- The `_rawLength`/`_length` bookkeeping (line 139). It is reassigned for
  every position and never for member 0, so it promises nothing reliable.
- Stamping the orientation for hover (line 178): a plain metadata write.
- Floating-point rounding, NaN and infinities: values are exact reals.
- Blanks get no value attribute until stacking overwrites it (`v` is
  `None`), as in the source.
- Unsorted input traces: every member is required to be sorted by position,
  an unchecked upstream precondition of the source.
- Blanks.Interp: it requires neighbours at distinct positions. Between two
  such neighbours the source would divide by zero. On sorted input the merge
  never reaches that case, since the copy rule takes such a blank first.
- ScatterStack.StackGroup.MergePositions: under `'interpolate'` it requires
  that either no member is empty or all are. Otherwise a blank would go into
  an empty trace, and the source's `getInterp` would throw there.
- ScatterStack.StackGroup.MergePositions: which blank lands where, and its
  value, is stated per point (`InsertBlank`, `BlankBelow`, `BlankAfter`,
  `CatchUp`, `FillTail`, `PatchOne`, `PatchEarlier`, `AddPosition`,
  `MergePoint`). For the whole merge it only says that every entry that is
  not an input point is a blank of one of the kinds `insertBlank` creates.
  It does not say which kind each one is, nor what value interpolation gave
  it.
- ScatterStack.StackGroup.MergeMember: for the whole pass over a member it
  states the same as `MergePositions` about blanks (a blank of one of the two
  kinds), not which kind each is nor its interpolated value.
- ScatterStack.StackGroup.MergePass: as `MergeMember`, for one pass.
- ScatterStack.StackGroup.MergeRest: as `MergePositions`, for the passes over
  members 1 onwards.
- ScatterStack.StackGroup.CrossTraceCalc: its merge guarantee is that of
  `MergePositions`, so it does not say which kind of blank each entry is nor
  the value interpolation gave it.

## Findings

| source | as written | input that shows it | evidently intended | confidence | as-written member | corrected member |
|---|---|---|---|---|---|---|
| src/traces/scatter/cross_trace_calc.js:58-64 | after a blank lands at index 0, the metadata is moved from entry 1 to entry 0 of `cd`, the member being walked, not of `calcTrace`, the member that got the blank | members at x = [2, 3] and x = [1, 2]: member 0 gets a blank at index 0 (line 120), its `t`/`trace` stay on entry 1, and member 1's `cd[0].t` is overwritten with `undefined`, so line 139 reads `cd[0].trace` of undefined; with members at x = [2] and x = [1], line 60 reads `cd[1].t` of undefined and throws | relocate on `calcTrace`, so every member keeps its metadata on entry 0 | medium, not executed | SeriesMeta.MetaInsertAsWritten, SeriesMeta.AsWrittenMisplaces, SeriesMeta.AsWrittenThrows | SeriesMeta.MetaInsert, SeriesMeta.MetaInsertKeepsFront, ScatterStack.StackGroup.InsertBlank |
