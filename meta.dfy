/**
 * Where each member's series-level metadata (the `t` and `trace` properties
 * that plotly keeps on a trace's first calcdata entry) sits while blanks are
 * spliced in: `Some(m)` is the index of the entry holding it, `None` means no
 * entry holds it any more.
 */
module SeriesMeta {
  import opened Entries

  /** The metadata of every member sits on its first entry. */
  ghost predicate OnFirst(meta: seq<Option<nat>>)
  {
    forall u :: 0 <= u < |meta| ==> meta[u] == Some(0)
  }

  /** `splice(index, 0, entry)`: the holder moves one place on when it is at or after `index`. */
  function Shift(m: Option<nat>, index: nat): (r: Option<nat>)
    ensures r.Some? <==> m.Some?
    ensures m.Some? && m.value < index ==> r == m
    ensures m.Some? && index <= m.value ==> r == Some(m.value + 1)
  {
    if m.Some? && index <= m.value then Some(m.value + 1) else m
  }

  /**
   * `x[0].t = x[1].t; delete x[1].t` (and the same for `trace`): the
   * metadata on entry 1 moves to entry 0; metadata on entry 0 is overwritten
   * with the (absent) value of entry 1; elsewhere nothing changes.
   */
  function MoveToFront(m: Option<nat>): (r: Option<nat>)
    ensures m == Some(1) ==> r == Some(0)
    ensures m == Some(0) ==> r == None
    ensures m != Some(0) && m != Some(1) ==> r == m
  {
    if m == Some(1) then Some(0) else if m == Some(0) then None else m
  }

  /**
   * The relocation as intended: it is applied to the trace that received the
   * blank, so a blank inserted at the front takes over the metadata.
   */
  function MetaInsert(meta: seq<Option<nat>>, traceIndex: nat, index: nat): (r: seq<Option<nat>>)
    requires traceIndex < |meta|
    ensures |r| == |meta|
    ensures forall u :: 0 <= u < |meta| && u != traceIndex ==> r[u] == meta[u]
    ensures meta[traceIndex] == Some(0) ==> r[traceIndex] == Some(0)
    ensures meta[traceIndex].Some? && meta[traceIndex].value < index ==> r[traceIndex] == meta[traceIndex]
    ensures meta[traceIndex].Some? && index <= meta[traceIndex].value && 0 < meta[traceIndex].value ==>
      r[traceIndex] == Some(meta[traceIndex].value + 1)
    ensures meta[traceIndex].None? ==> r[traceIndex].None?
  {
    var m := Shift(meta[traceIndex], index);
    meta[traceIndex := if index == 0 then MoveToFront(m) else m]
  }

  /** The intended invariant: metadata on the first entry stays there across every insertion. */
  lemma MetaInsertKeepsFront(meta: seq<Option<nat>>, traceIndex: nat, index: nat)
    requires traceIndex < |meta| && OnFirst(meta)
    ensures MetaInsert(meta, traceIndex, index) == meta
  {
    var r := MetaInsert(meta, traceIndex, index);
    assert forall u :: 0 <= u < |meta| ==> r[u] == meta[u];
  }

  /**
   * The relocation as lines 58-64 write it. `lens` are the members' lengths
   * before the splice, `cur` the member the merge is walking (the outer `cd`),
   * which is the one relocated whatever trace received the blank. `None` is
   * the TypeError of reading `cd[1]` when `cd` has fewer than two entries.
   */
  function MetaInsertAsWritten(meta: seq<Option<nat>>, lens: seq<nat>, traceIndex: nat, index: nat, cur: nat)
    : (r: Option<seq<Option<nat>>>)
    requires |lens| == |meta| && traceIndex < |meta| && cur < |meta|
    ensures r.None? <==>
      index == 0 && lens[cur] + (if cur == traceIndex then 1 else 0) < 2
    ensures r.Some? ==> |r.value| == |meta|
    ensures r.Some? ==> forall u :: 0 <= u < |meta| && u != traceIndex && u != cur ==> r.value[u] == meta[u]
  {
    var spliced := meta[traceIndex := Shift(meta[traceIndex], index)];
    if index != 0 then Some(spliced)
    else if lens[cur] + (if cur == traceIndex then 1 else 0) < 2 then None
    else Some(spliced[cur := MoveToFront(spliced[cur])])
  }

  /** When the blank goes into the walked member itself, the code as written relocates correctly. */
  lemma AsWrittenAgreesOnCurrent(meta: seq<Option<nat>>, lens: seq<nat>, traceIndex: nat, index: nat)
    requires |lens| == |meta| && traceIndex < |meta|
    requires index == 0 ==> lens[traceIndex] > 0
    ensures MetaInsertAsWritten(meta, lens, traceIndex, index, traceIndex) == Some(MetaInsert(meta, traceIndex, index))
  {
    var spliced := meta[traceIndex := Shift(meta[traceIndex], index)];
    assert spliced[traceIndex := MoveToFront(spliced[traceIndex])]
        == meta[traceIndex := MoveToFront(Shift(meta[traceIndex], index))];
  }

  /**
   * Members at positions [2, 3] and [1, 2]: walking member 1, the merge
   * inserts a blank at index 0 of member 0 (line 120). As written, member 0's
   * metadata is left on its entry 1 and member 1's is lost.
   */
  lemma AsWrittenMisplaces()
    ensures MetaInsertAsWritten([Some(0), Some(0)], [2, 2], 0, 0, 1) == Some([Some(1), None])
    ensures MetaInsert([Some(0), Some(0)], 0, 0) == [Some(0), Some(0)]
  {
    assert [Some(0), Some(0)][0 := Some(1)] == [Some(1), Some(0)];
    assert [Some(1), Some(0)][1 := None] == [Some(1), None];
  }

  /** Members at positions [2] and [1]: the same insertion reads `cd[1]` of a one-entry member and throws. */
  lemma AsWrittenThrows()
    ensures MetaInsertAsWritten([Some(0), Some(0)], [1, 1], 0, 0, 1) == None
  {
  }
}
