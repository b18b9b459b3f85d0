/**
 * One stack group of `crossTraceCalc` (src/traces/scatter/cross_trace_calc.js):
 * the member traces' calcdata, changed in place by merging positions,
 * stacking, normalising, and finally turned into axis-expansion padding.
 */
module ScatterStack {
  import opened Entries
  import opened Blanks
  import opened Stacking
  import opened RangePadding
  import opened SeriesMeta
  import opened PositionUnion

  ghost predicate AllSorted(ts: seq<seq<Entry>>)
  {
    forall u :: 0 <= u < |ts| ==> SortedTrace(ts[u])
  }

  ghost predicate AllTagged(ts: seq<seq<Entry>>)
  {
    forall u :: 0 <= u < |ts| ==> TraceTagged(ts[u])
  }

  ghost predicate AllEmpty(ts: seq<seq<Entry>>)
  {
    forall u :: 0 <= u < |ts| ==> ts[u] == []
  }

  ghost predicate NoneEmpty(ts: seq<seq<Entry>>)
  {
    forall u :: 0 <= u < |ts| ==> ts[u] != []
  }

  /**
   * Interpolation never has to fill a trace with no points (where the source
   * throws): either no member is empty, or all are and nothing is inserted.
   */
  ghost predicate InterpSafe(ts: seq<seq<Entry>>, interpolate: bool)
  {
    interpolate ==> NoneEmpty(ts) || AllEmpty(ts)
  }

  /**
   * Trace `t` has grown from input `o` by insertions only, its blank flag says
   * whether any happened, tagging of synthesized points is kept, and every
   * entry that is not an input point is a blank.
   */
  ghost predicate Grown(o: seq<Entry>, t: seq<Entry>, blank: bool, interpolate: bool)
  {
    IsSubseq(o, t) && (blank <==> |o| < |t|) &&
    (TraceTagged(o) ==> TraceTagged(t)) && Explained(o, t, interpolate)
  }

  /** `t` is `o` with the blank `insertBlank` makes spliced in at `index`. */
  ghost predicate Spliced(o: seq<Entry>, t: seq<Entry>, index: nat, position: real, interpolate: bool)
  {
    CanBlank(o, index, position, interpolate) &&
    t == Insert(o, index, Blank(o, index, position, interpolate))
  }

  /** Every position in `p` is the position of some member's input point. */
  /**
   * Entries `lo..hi-1` of `t` were spliced in one after another, each at the
   * union position `all[x]` and made by `insertBlank` from the trace as it
   * then stood: the entries before it, followed by the tail from `hi`.
   */
  ghost predicate BlanksAt(t: seq<Entry>, lo: nat, hi: nat, all: seq<real>, interpolate: bool)
  {
    lo <= hi <= |t| && hi <= |all| &&
    forall x :: lo <= x < hi ==>
      Spliced(t[..x] + t[hi..], t[..x + 1] + t[hi..], x, all[x], interpolate)
  }

  /** One more blank spliced in at `hi` extends the run; the entries before `lo` and the tail stay. */
  lemma BlanksAtStep(t: seq<Entry>, t1: seq<Entry>, lo: nat, hi: nat, all: seq<real>, interpolate: bool)
    requires BlanksAt(t, lo, hi, all, interpolate) && hi < |all|
    requires Spliced(t, t1, hi, all[hi], interpolate)
    ensures BlanksAt(t1, lo, hi + 1, all, interpolate)
    ensures t1[..lo] == t[..lo] && t1[hi + 1..] == t[hi..]
  {
    assert t1[hi + 1..] == t[hi..];
    forall x | lo <= x < hi + 1
      ensures Spliced(t1[..x] + t1[hi + 1..], t1[..x + 1] + t1[hi + 1..], x, all[x], interpolate)
    {
      if x < hi {
        assert t1[..x] == t[..x] && t1[..x + 1] == t[..x + 1];
      } else {
        assert t1[..hi] + t1[hi + 1..] == t;
        assert t1[..hi + 1] + t1[hi + 1..] == t1;
      }
    }
  }

  /** Splicing a position into the union after the run leaves the run as it was. */
  lemma BlanksAtInsert(t: seq<Entry>, lo: nat, hi: nat, all: seq<real>, k: nat, p: real, interpolate: bool)
    requires BlanksAt(t, lo, hi, all, interpolate) && hi <= k <= |all|
    ensures BlanksAt(t, lo, hi, Insert(all, k, p), interpolate)
  {
  }

  ghost predicate FromMembers(p: seq<real>, ts: seq<seq<Entry>>)
  {
    forall x :: x in p ==> exists u :: 0 <= u < |ts| && x in Positions(ts[u])
  }

  lemma GrownInsert(o: seq<Entry>, t: seq<Entry>, blank: bool, index: nat, position: real, interpolate: bool)
    requires Grown(o, t, blank, interpolate) && FitsAt(t, index, position)
    requires CanBlank(t, index, position, interpolate)
    ensures Grown(o, Insert(t, index, Blank(t, index, position, interpolate)), true, interpolate)
  {
    SubseqInsert(o, t, index, Blank(t, index, position, interpolate));
    SubseqLength(o, t);
    if TraceTagged(o) {
      BlankTagged(t, index, position, interpolate);
    }
    ExplainedInsert(o, t, index, position, interpolate);
  }

  /**
   * The merge while member `i` is walked against the union `all`: earlier
   * members line up with it, later ones are untouched, all have only grown.
   */
  ghost predicate MergeState(ts: seq<seq<Entry>>, blanks: seq<bool>, orig: seq<seq<Entry>>,
                             all: seq<real>, i: nat, interpolate: bool)
  {
    |ts| == |orig| && |blanks| == |ts| && i < |ts| &&
    (forall u :: 0 <= u < i ==> Aligned(ts[u], all)) &&
    (forall u :: i < u < |ts| ==> ts[u] == orig[u]) &&
    (forall u :: 0 <= u < |ts| ==> Grown(orig[u], ts[u], blanks[u], interpolate))
  }

  /**
   * Between passes of the merge: members before `i` line up with `all`, the
   * rest are untouched, and every member has grown from its input by blanks.
   */
  ghost predicate MergedBefore(ts: seq<seq<Entry>>, blanks: seq<bool>, orig: seq<seq<Entry>>,
                               all: seq<real>, i: nat, interpolate: bool)
  {
    |ts| == |orig| && |blanks| == |ts| && i <= |ts| &&
    (forall u :: 0 <= u < i ==> Aligned(ts[u], all)) &&
    (forall u :: i <= u < |ts| ==> ts[u] == orig[u]) &&
    (forall u :: 0 <= u < |ts| ==> Grown(orig[u], ts[u], blanks[u], interpolate))
  }

  /** Before the first pass, member 0 lines up with its own positions. */
  lemma PassFirst(orig: seq<seq<Entry>>, blanks: seq<bool>, interpolate: bool)
    requires 0 < |orig| && |blanks| == |orig|
    requires forall u :: 0 <= u < |orig| ==> Grown(orig[u], orig[u], blanks[u], interpolate)
    ensures MergedBefore(orig, blanks, orig, Positions(orig[0]), 1, interpolate)
    ensures FromMembers(Positions(orig[0]), orig)
    ensures Union(orig[..1]) == Positions(orig[0])
  {
    UnionStep(orig, 0);
    assert orig[..0] == [];
  }

  /** A pass over member `i` starts from the merge state with member `i` untouched. */
  lemma PassStart(ts: seq<seq<Entry>>, blanks: seq<bool>, orig: seq<seq<Entry>>, all: seq<real>, i: nat,
                  interpolate: bool)
    requires MergedBefore(ts, blanks, orig, all, i, interpolate) && i < |ts|
    ensures MergeState(ts, blanks, orig, all, i, interpolate) && ts[i] == orig[i]
  {
  }

  /** A pass that lines member `i` up with the union leaves the state for member `i + 1`. */
  lemma PassEnd(ts: seq<seq<Entry>>, blanks: seq<bool>, orig: seq<seq<Entry>>, all: seq<real>, i: nat,
                interpolate: bool)
    requires MergeState(ts, blanks, orig, all, i, interpolate) && Aligned(ts[i], all)
    ensures MergedBefore(ts, blanks, orig, all, i + 1, interpolate)
  {
  }

  /** The walked member: its first `j` entries line up with `all`, the rest is its unread input. */
  ghost predicate Walked(t: seq<Entry>, j: nat, o: seq<Entry>, m: nat, all: seq<real>)
  {
    j <= |t| && j <= |all| && m <= |o| && t[j..] == o[m..] &&
    forall x :: 0 <= x < j ==> t[x].pos == all[x]
  }

  /** Every member other than `i`, and its blank flag, is as it was. */
  ghost predicate OthersKept(ts: seq<seq<Entry>>, blanks: seq<bool>, ts0: seq<seq<Entry>>, blanks0: seq<bool>, i: nat)
  {
    |ts| == |ts0| && |blanks| == |ts| && |blanks0| == |ts| &&
    forall u :: 0 <= u < |ts| && u != i ==> ts[u] == ts0[u] && blanks[u] == blanks0[u]
  }

  lemma OthersKeptTrans(ts: seq<seq<Entry>>, blanks: seq<bool>, ts1: seq<seq<Entry>>, blanks1: seq<bool>,
                        ts0: seq<seq<Entry>>, blanks0: seq<bool>, i: nat)
    requires OthersKept(ts, blanks, ts1, blanks1, i) && OthersKept(ts1, blanks1, ts0, blanks0, i)
    ensures OthersKept(ts, blanks, ts0, blanks0, i)
  {
  }

  lemma MergeStateInsert(ts: seq<seq<Entry>>, blanks: seq<bool>, orig: seq<seq<Entry>>,
                         all: seq<real>, i: nat, index: nat, position: real, interpolate: bool)
    requires MergeState(ts, blanks, orig, all, i, interpolate) && FitsAt(ts[i], index, position)
    requires CanBlank(ts[i], index, position, interpolate)
    ensures MergeState(ts[i := Insert(ts[i], index, Blank(ts[i], index, position, interpolate))],
                       blanks[i := true], orig, all, i, interpolate)
  {
    GrownInsert(orig[i], ts[i], blanks[i], index, position, interpolate);
  }

  /** Under interpolation, once a non-empty member is walked, no member is empty. */
  lemma EarlierNonEmpty(ts: seq<seq<Entry>>, blanks: seq<bool>, orig: seq<seq<Entry>>, all: seq<real>, i: nat,
                        interpolate: bool)
    requires MergeState(ts, blanks, orig, all, i, interpolate) && orig[i] != [] && InterpSafe(orig, true)
    ensures forall u :: 0 <= u < i ==> ts[u] != []
  {
    assert !AllEmpty(orig);
    forall u | 0 <= u < i ensures ts[u] != [] {
      SubseqLength(orig[u], ts[u]);
      assert orig[u] != [];
    }
  }

  /** A position taken from member `i`'s input keeps the union made of member positions. */
  lemma FromMembersInsert(all: seq<real>, k: nat, posj: real, orig: seq<seq<Entry>>, i: nat)
    requires FromMembers(all, orig) && k <= |all| && i < |orig| && posj in Positions(orig[i])
    ensures FromMembers(Insert(all, k, posj), orig)
  {
    forall x | x in Insert(all, k, posj)
      ensures exists u :: 0 <= u < |orig| && x in Positions(orig[u])
    {
      InsertMember(all, k, posj, x);
    }
  }

  /**
   * The loop of lines 136-143 on values: member u's entry at `j` gets the
   * running sum of `s` over members 0..u as its value attribute.
   */
  method ColumnSums(traces: seq<seq<Entry>>, j: nat) returns (ts: seq<seq<Entry>>, sumj: real)
    requires 0 < |traces| && forall u :: 0 <= u < |traces| ==> j < |traces[u]|
    ensures |ts| == |traces| && sumj == Sum(Column(traces, j))
    ensures forall u :: 0 <= u < |ts| ==>
      ts[u] == traces[u][j := traces[u][j].(v := Some(Sum(Column(traces, j)[..u + 1])))]
  {
    ghost var col := Column(traces, j);
    ts := traces;
    var n := |ts|;
    sumj := ts[0][j].s;
    SumStep(col, 0);
    ts := ts[0 := ts[0][j := ts[0][j].(v := Some(sumj))]];
    var i := 1;
    while i < n
      invariant 1 <= i <= n && |ts| == n
      invariant sumj == Sum(col[..i])
      invariant forall u :: 0 <= u < i ==>
        ts[u] == traces[u][j := traces[u][j].(v := Some(Sum(col[..u + 1])))]
      invariant forall u :: i <= u < n ==> ts[u] == traces[u]
    {
      SumStep(col, i);
      sumj := sumj + ts[i][j].s;
      ts := ts[i := ts[i][j := ts[i][j].(v := Some(sumj))]];
      i := i + 1;
    }
    assert col[..n] == col;
  }

  /** Lines 101-105: the union starts as the first member's positions. */
  method FirstPositions(cd0: seq<Entry>) returns (allPositions: seq<real>)
    ensures allPositions == Positions(cd0)
  {
    allPositions := [];
    for x := 0 to |cd0|
      invariant |allPositions| == x
      invariant forall y :: 0 <= y < x ==> allPositions[y] == cd0[y].pos
    {
      allPositions := allPositions + [cd0[x].pos];
    }
  }

  /** Before any blank, every member has grown from itself, unflagged. */
  lemma StartGrown(orig: seq<seq<Entry>>, blanks: seq<bool>, interpolate: bool)
    requires |blanks| == |orig| && forall u :: 0 <= u < |blanks| ==> !blanks[u]
    ensures forall u :: 0 <= u < |orig| ==> Grown(orig[u], orig[u], blanks[u], interpolate)
  {
    forall u | 0 <= u < |orig| ensures Grown(orig[u], orig[u], blanks[u], interpolate) {
      SubseqRefl(orig[u]);
    }
  }

  /**
   * What growth by blanks leaves of each member: its input points in order,
   * every other entry a blank, its flag set iff it grew, and tagging kept.
   */
  lemma GrownAll(orig: seq<seq<Entry>>, ts: seq<seq<Entry>>, blanks: seq<bool>, interpolate: bool)
    requires |ts| == |orig| == |blanks|
    requires forall u :: 0 <= u < |ts| ==> Grown(orig[u], ts[u], blanks[u], interpolate)
    ensures forall u :: 0 <= u < |ts| ==> IsSubseq(orig[u], ts[u])
    ensures forall u :: 0 <= u < |ts| ==> Explained(orig[u], ts[u], interpolate)
    ensures forall u :: 0 <= u < |ts| ==> (blanks[u] <==> |orig[u]| < |ts[u]|)
    ensures AllTagged(orig) ==> AllTagged(ts)
  {
  }

  /**
   * Once every member lines up with the union, each member's positions are
   * the union, and every member's input positions occur there in order.
   */
  lemma AlignedAll(orig: seq<seq<Entry>>, ts: seq<seq<Entry>>, all: seq<real>)
    requires |ts| == |orig|
    requires forall u :: 0 <= u < |ts| ==> Aligned(ts[u], all) && IsSubseq(orig[u], ts[u])
    ensures forall u :: 0 <= u < |ts| ==> Positions(ts[u]) == all
    ensures forall u :: 0 <= u < |ts| ==> IsSubseq(Positions(orig[u]), all)
    ensures forall p :: (exists u :: 0 <= u < |ts| && p in Positions(orig[u])) ==> p in all
  {
    forall u | 0 <= u < |ts|
      ensures Positions(ts[u]) == all
      ensures IsSubseq(Positions(orig[u]), all)
    {
      AlignedPositions(ts[u], all);
      SubseqPositions(orig[u], ts[u]);
    }
    forall p | exists u :: 0 <= u < |ts| && p in Positions(orig[u])
      ensures p in all
    {
      var u :| 0 <= u < |ts| && p in Positions(orig[u]);
      SubseqMember(Positions(orig[u]), all, p);
    }
  }

  /** The padding of one member as the padding step builds it from the stacked trace. */
  ghost predicate PaddingFor(cd: seq<Entry>, ppad: MarkerSize, hasBlanks: bool, pad: Padding)
  {
    (!Rebuilds(ppad, hasBlanks) ==> pad == Uniform(ppad.size)) &&
    (Rebuilds(ppad, hasBlanks) ==>
       pad.PerEntry? && |pad.pads| == |cd| &&
       forall j :: 0 <= j < |cd| ==>
         pad.pads[j] == (if cd[j].gap then Some(0.0)
                         else if ppad.PerPoint? then Lookup(ppad.sizes, cd[j].i)
                         else Some(ppad.size)))
  }

  class StackGroup {
    /** The calcdata of the members, in member order. */
    var traces: seq<seq<Entry>>
    /** Whether a blank was inserted into each member. */
    var hasAnyBlanks: seq<bool>
    /** Which entry of each member holds its series metadata (`t` and `trace`). */
    var metaAt: seq<Option<nat>>
    /** `stackgaps === 'interpolate'` */
    const interpolate: bool
    const groupnorm: GroupNorm

    /** Every member's series metadata is on its first entry. */
    ghost predicate MetaOnFront()
      reads this
    {
      |metaAt| == |traces| && OnFirst(metaAt)
    }

    constructor (members: seq<seq<Entry>>, interpolate: bool, groupnorm: GroupNorm)
      ensures traces == members && hasAnyBlanks == [] && MetaOnFront()
      ensures this.interpolate == interpolate && this.groupnorm == groupnorm
    {
      traces := members;
      hasAnyBlanks := [];
      metaAt := seq(|members|, _ => Some(0));
      this.interpolate := interpolate;
      this.groupnorm := groupnorm;
    }

    /**
     * `insertBlank`: splice a synthesized entry at `position` into member
     * `traceIndex`; a blank at the front takes over the member's metadata.
     */
    method InsertBlank(traceIndex: nat, index: nat, position: real)
      requires traceIndex < |traces| && |hasAnyBlanks| == |traces| && |metaAt| == |traces|
      requires index <= |traces[traceIndex]|
      requires interpolate && !Duplicates(traces[traceIndex], index, position) ==>
        InterpDefined(traces[traceIndex], index)
      modifies this
      ensures traces == old(traces)[traceIndex :=
        Insert(old(traces[traceIndex]), index,
               Blank(old(traces[traceIndex]), index, position, interpolate))]
      ensures hasAnyBlanks == old(hasAnyBlanks)[traceIndex := true]
      ensures metaAt == MetaInsert(old(metaAt), traceIndex, index)
      ensures OnFirst(old(metaAt)) ==> metaAt == old(metaAt)
    {
      hasAnyBlanks := hasAnyBlanks[traceIndex := true];
      var calcTrace := traces[traceIndex];
      var newEntry := Entry(position, 0.0, None, true, None, None);
      if index > 0 && position == calcTrace[index - 1].pos {
        var prevEntry := calcTrace[index - 1];
        newEntry := newEntry.(s := prevEntry.s, i := prevEntry.i, gap := prevEntry.gap);
      } else if interpolate {
        newEntry := newEntry.(s := Interp(calcTrace, index, position));
      }
      traces := traces[traceIndex := Insert(calcTrace, index, newEntry)];
      var holder := Shift(metaAt[traceIndex], index);
      if index == 0 {
        holder := MoveToFront(holder);
      }
      if OnFirst(metaAt) {
        MetaInsertKeepsFront(metaAt, traceIndex, index);
      }
      metaAt := metaAt[traceIndex := holder];
    }

    /**
     * Line 114: the union position at `j` lies below the walked member's next
     * point, so the member lacks it; insert a blank there.
     */
    method BlankBelow(i: nat, j: nat, ghost orig: seq<seq<Entry>>, ghost m: nat, all: seq<real>)
      requires MetaOnFront()
      requires MergeState(traces, hasAnyBlanks, orig, all, i, interpolate) && Sorted(all)
      requires Walked(traces[i], j, orig[i], m, all) && m < |orig[i]|
      requires j < |all| && all[j] < orig[i][m].pos
      modifies this
      ensures metaAt == old(metaAt)
      ensures MergeState(traces, hasAnyBlanks, orig, all, i, interpolate)
      ensures OthersKept(traces, hasAnyBlanks, old(traces), old(hasAnyBlanks), i)
      ensures Walked(traces[i], j + 1, orig[i], m, all)
      ensures hasAnyBlanks[i] && Spliced(old(traces[i]), traces[i], j, all[j], interpolate)
    {
      ghost var t := traces[i];
      assert t[j] == orig[i][m] by {
        assert t[j..][0] == orig[i][m..][0];
      }
      assert FitsAt(t, j, all[j]);
      if interpolate && !Duplicates(t, j, all[j]) {
        FitsInterpDefined(t, j, all[j]);
      }
      MergeStateInsert(traces, hasAnyBlanks, orig, all, i, j, all[j], interpolate);
      InsertBlank(i, j, all[j]);
      assert traces[i][j + 1..] == t[j..];
    }

    /**
     * Lines 112-116: while the union position at `k` lies before the current
     * point, the current member lacks it; insert a blank there and move both
     * cursors on. Returns the common cursor value. Only member `i` changes,
     * and the union still to be built is the same.
     */
    method CatchUp(i: nat, j0: nat, posj: real, ghost orig: seq<seq<Entry>>, ghost m: nat, all: seq<real>)
      returns (j: nat)
      requires MetaOnFront()
      requires MergeState(traces, hasAnyBlanks, orig, all, i, interpolate) && Sorted(all)
      requires Walked(traces[i], j0, orig[i], m, all) && m < |orig[i]| && posj == orig[i][m].pos
      requires j0 > 0 ==> all[j0 - 1] <= posj
      modifies this
      ensures metaAt == old(metaAt)
      ensures MergeState(traces, hasAnyBlanks, orig, all, i, interpolate)
      ensures OthersKept(traces, hasAnyBlanks, old(traces), old(hasAnyBlanks), i)
      ensures Walked(traces[i], j, orig[i], m, all) && j0 <= j
      ensures j > 0 ==> all[j - 1] <= posj
      ensures j < |all| ==> posj <= all[j]
      ensures MergeTail(all, j, Positions(orig[i]), m) == MergeTail(all, j0, Positions(orig[i]), m)
      ensures traces[i][..j0] == old(traces[i])[..j0] && traces[i][j..] == old(traces[i])[j0..]
      ensures BlanksAt(traces[i], j0, j, all, interpolate)
    {
      ghost var p := Positions(orig[i]);
      ghost var ts0, bs0 := traces, hasAnyBlanks;
      j := j0;
      while j < |all| && posj > all[j]
        invariant metaAt == old(metaAt)
        invariant j0 <= j
        invariant MergeState(traces, hasAnyBlanks, orig, all, i, interpolate)
        invariant OthersKept(traces, hasAnyBlanks, ts0, bs0, i)
        invariant Walked(traces[i], j, orig[i], m, all)
        invariant forall x :: j0 <= x < j ==> all[x] < posj
        invariant traces[i][..j0] == ts0[i][..j0] && traces[i][j..] == ts0[i][j0..]
        invariant BlanksAt(traces[i], j0, j, all, interpolate)
        decreases |all| - j
      {
        ghost var ts1, bs1 := traces, hasAnyBlanks;
        BlankBelow(i, j, orig, m, all);
        OthersKeptTrans(traces, hasAnyBlanks, ts1, bs1, ts0, bs0, i);
        BlanksAtStep(ts1[i], traces[i], j0, j, all, interpolate);
        j := j + 1;
      }
      TailSkipRun(all, j0, j, p, m);
    }

    /**
     * Lines 126-129: after the current member's last point, it lacks every
     * remaining union position; append a blank for each. Only member `i`
     * changes.
     */
    method FillTail(i: nat, j0: nat, ghost orig: seq<seq<Entry>>, all: seq<real>)
      requires MetaOnFront()
      requires MergeState(traces, hasAnyBlanks, orig, all, i, interpolate) && Sorted(all)
      requires Walked(traces[i], j0, orig[i], |orig[i]|, all)
      requires InterpSafe(orig, interpolate) && (AllEmpty(orig) ==> all == [])
      modifies this
      ensures metaAt == old(metaAt)
      ensures MergeState(traces, hasAnyBlanks, orig, all, i, interpolate) && Aligned(traces[i], all)
      ensures OthersKept(traces, hasAnyBlanks, old(traces), old(hasAnyBlanks), i)
      ensures traces[i][..j0] == old(traces[i]) && BlanksAt(traces[i], j0, |all|, all, interpolate)
    {
      ghost var t0 := traces[i];
      assert |t0| == j0 by {
        assert t0[j0..] == orig[i][|orig[i]|..];
      }
      assert t0[..j0] == t0;
      ghost var ts0, bs0 := traces, hasAnyBlanks;
      var j := j0;
      while j < |all|
        invariant metaAt == old(metaAt)
        invariant MergeState(traces, hasAnyBlanks, orig, all, i, interpolate)
        invariant OthersKept(traces, hasAnyBlanks, ts0, bs0, i)
        invariant Walked(traces[i], j, orig[i], |orig[i]|, all)
        invariant traces[i][..j0] == t0 && BlanksAt(traces[i], j0, j, all, interpolate)
        decreases |all| - j
      {
        ghost var ts1, bs1 := traces, hasAnyBlanks;
        BlankAfter(i, j, orig, all);
        OthersKeptTrans(traces, hasAnyBlanks, ts1, bs1, ts0, bs0, i);
        BlanksAtStep(ts1[i], traces[i], j0, j, all, interpolate);
        j := j + 1;
      }
    }

    /**
     * Line 127: past the walked member's last point it lacks the union
     * position at `j`; append a blank there.
     */
    method BlankAfter(i: nat, j: nat, ghost orig: seq<seq<Entry>>, all: seq<real>)
      requires MetaOnFront()
      requires MergeState(traces, hasAnyBlanks, orig, all, i, interpolate) && Sorted(all)
      requires Walked(traces[i], j, orig[i], |orig[i]|, all) && j < |all|
      requires InterpSafe(orig, interpolate) && (AllEmpty(orig) ==> all == [])
      modifies this
      ensures metaAt == old(metaAt)
      ensures MergeState(traces, hasAnyBlanks, orig, all, i, interpolate)
      ensures OthersKept(traces, hasAnyBlanks, old(traces), old(hasAnyBlanks), i)
      ensures Walked(traces[i], j + 1, orig[i], |orig[i]|, all)
      ensures hasAnyBlanks[i] && Spliced(old(traces[i]), traces[i], j, all[j], interpolate)
    {
      ghost var t := traces[i];
      assert |t| == j by {
        assert t[j..] == orig[i][|orig[i]|..];
      }
      assert FitsAt(t, j, all[j]);
      if interpolate && !Duplicates(t, j, all[j]) {
        assert t != [] by {
          assert !AllEmpty(orig);
          SubseqLength(orig[i], t);
          assert orig[i] != [];
        }
        FitsInterpDefined(t, j, all[j]);
      }
      MergeStateInsert(traces, hasAnyBlanks, orig, all, i, j, all[j], interpolate);
      InsertBlank(i, j, all[j]);
      assert traces[i][j + 1..] == [];
    }

    /**
     * Lines 117-123: the earlier members lack `posj`; insert a blank at
     * union index `k` into each of members 0..i-1, so that they line up with
     * the union once `posj` is spliced into it. The others are untouched.
     */
    method PatchEarlier(i: nat, k: nat, posj: real, ghost orig: seq<seq<Entry>>, ghost all: seq<real>)
      requires MetaOnFront()
      requires MergeState(traces, hasAnyBlanks, orig, all, i, interpolate) && Sorted(all) && k <= |all|
      requires k > 0 ==> all[k - 1] <= posj
      requires k < |all| ==> posj < all[k]
      requires interpolate ==> forall u :: 0 <= u < i ==> traces[u] != []
      modifies this
      ensures metaAt == old(metaAt)
      ensures MergeState(traces, hasAnyBlanks, orig, Insert(all, k, posj), i, interpolate)
      ensures forall u :: 0 <= u < i ==>
        hasAnyBlanks[u] && Spliced(old(traces[u]), traces[u], k, posj, interpolate)
      ensures forall u :: i <= u < |traces| ==>
        traces[u] == old(traces[u]) && hasAnyBlanks[u] == old(hasAnyBlanks[u])
    {
      ghost var ts0, bs0 := traces, hasAnyBlanks;
      var i2 := 0;
      while i2 < i
        invariant metaAt == old(metaAt)
        invariant 0 <= i2 <= i
        invariant |traces| == |orig| && |hasAnyBlanks| == |traces|
        invariant forall u :: 0 <= u < i2 ==> Aligned(traces[u], Insert(all, k, posj))
        invariant forall u :: 0 <= u < i2 ==>
          hasAnyBlanks[u] && Spliced(ts0[u], traces[u], k, posj, interpolate)
        invariant forall u :: i2 <= u < |traces| ==>
          traces[u] == ts0[u] && hasAnyBlanks[u] == bs0[u]
        invariant forall u :: 0 <= u < |traces| ==> Grown(orig[u], traces[u], hasAnyBlanks[u], interpolate)
      {
        PatchOne(i2, k, posj, orig, all);
        i2 := i2 + 1;
      }
    }

    /**
     * Line 120: one earlier member, lined up with the union, gets a blank at
     * union index `k`; the other members are untouched.
     */
    method PatchOne(u: nat, k: nat, posj: real, ghost orig: seq<seq<Entry>>, ghost all: seq<real>)
      requires MetaOnFront()
      requires |traces| == |orig| && |hasAnyBlanks| == |traces| && u < |traces|
      requires Aligned(traces[u], all) && Grown(orig[u], traces[u], hasAnyBlanks[u], interpolate)
      requires Sorted(all) && k <= |all|
      requires k > 0 ==> all[k - 1] <= posj
      requires k < |all| ==> posj < all[k]
      requires interpolate ==> traces[u] != []
      modifies this
      ensures metaAt == old(metaAt)
      ensures OthersKept(traces, hasAnyBlanks, old(traces), old(hasAnyBlanks), u)
      ensures hasAnyBlanks[u] && Spliced(old(traces[u]), traces[u], k, posj, interpolate)
      ensures Aligned(traces[u], Insert(all, k, posj))
      ensures Grown(orig[u], traces[u], hasAnyBlanks[u], interpolate)
    {
      ghost var t := traces[u];
      assert FitsAt(t, k, posj);
      if interpolate && !Duplicates(t, k, posj) {
        FitsInterpDefined(t, k, posj);
      }
      GrownInsert(orig[u], t, hasAnyBlanks[u], k, posj, interpolate);
      InsertAligned(t, all, k, Blank(t, k, posj, interpolate));
      InsertBlank(u, k, posj);
    }

    /**
     * Lines 117-123: the walked member's point at `posj` is not in the union
     * (its next position `all[k]`, if any, lies above): give the earlier
     * members a blank at `k` and splice `posj` into the union there. The
     * walked member is unchanged and the merge still to be done is the same.
     */
    method AddPosition(i: nat, k: nat, posj: real, ghost orig: seq<seq<Entry>>, ghost m: nat, all: seq<real>)
      returns (allPositions: seq<real>)
      requires MetaOnFront()
      requires MergeState(traces, hasAnyBlanks, orig, all, i, interpolate) && Sorted(all) && FromMembers(all, orig)
      requires Walked(traces[i], k, orig[i], m, all) && m < |orig[i]| && posj == orig[i][m].pos
      requires k > 0 ==> all[k - 1] <= posj
      requires k < |all| ==> posj < all[k]
      requires InterpSafe(orig, interpolate)
      modifies this
      ensures metaAt == old(metaAt)
      ensures allPositions == Insert(all, k, posj)
      ensures MergeState(traces, hasAnyBlanks, orig, allPositions, i, interpolate)
      ensures Sorted(allPositions) && FromMembers(allPositions, orig)
      ensures traces[i] == old(traces[i])
      ensures forall u :: 0 <= u < i ==>
        hasAnyBlanks[u] && Spliced(old(traces[u]), traces[u], k, posj, interpolate)
      ensures Walked(traces[i], k, orig[i], m, allPositions) && allPositions[k] == posj
      ensures MergeTail(allPositions, k + 1, Positions(orig[i]), m + 1) == MergeTail(all, k, Positions(orig[i]), m)
    {
      ghost var p := Positions(orig[i]);
      if interpolate {
        EarlierNonEmpty(traces, hasAnyBlanks, orig, all, i, interpolate);
      }
      PatchEarlier(i, k, posj, orig, all);
      InsertSorted(all, k, posj);
      assert p[m] == posj;
      FromMembersInsert(all, k, posj, orig, i);
      TailInsert(all, k, p, m);
      allPositions := Insert(all, k, posj);
    }

    /**
     * One point of the walked member (lines 111-124): catch the member up
     * with the union below the point's position `posj`; if the union lacks
     * `posj`, give it to the earlier members and splice it into the union.
     * Returns both cursors moved past the point; what remains to be merged
     * is unchanged.
     */
    method MergePoint(i: nat, j0: nat, ghost m: nat, ghost orig: seq<seq<Entry>>, all0: seq<real>)
      returns (j: nat, allPositions: seq<real>)
      requires MetaOnFront()
      requires MergeState(traces, hasAnyBlanks, orig, all0, i, interpolate) && Sorted(all0) && FromMembers(all0, orig)
      requires Walked(traces[i], j0, orig[i], m, all0) && m < |orig[i]|
      requires j0 > 0 ==> all0[j0 - 1] <= orig[i][m].pos
      requires SortedTrace(orig[i]) && InterpSafe(orig, interpolate)
      modifies this
      ensures metaAt == old(metaAt)
      ensures MergeState(traces, hasAnyBlanks, orig, allPositions, i, interpolate)
      ensures Walked(traces[i], j, orig[i], m + 1, allPositions) && 0 < j
      ensures allPositions[j - 1] == orig[i][m].pos
      ensures Sorted(allPositions) && FromMembers(allPositions, orig)
      ensures MergeTail(allPositions, j, Positions(orig[i]), m + 1) == MergeTail(all0, j0, Positions(orig[i]), m)
      ensures j0 < j <= |traces[i]|
      ensures traces[i][..j0] == old(traces[i])[..j0] && traces[i][j - 1..] == old(traces[i])[j0..]
      ensures BlanksAt(traces[i], j0, j - 1, allPositions, interpolate)
      ensures allPositions == all0 ==> forall u :: 0 <= u < i ==>
        traces[u] == old(traces[u]) && hasAnyBlanks[u] == old(hasAnyBlanks[u])
      ensures allPositions != all0 ==>
        j - 1 <= |all0| && allPositions == Insert(all0, j - 1, orig[i][m].pos) &&
        (forall u :: 0 <= u < i ==>
          hasAnyBlanks[u] && Spliced(old(traces[u]), traces[u], j - 1, orig[i][m].pos, interpolate))
    {
      ghost var p := Positions(orig[i]);
      assert traces[i][j0] == orig[i][m] by {
        assert traces[i][j0..][0] == orig[i][m..][0];
      }
      var posj := traces[i][j0].pos;
      j := CatchUp(i, j0, posj, orig, m, all0);
      if j == |all0| || posj != all0[j] {
        BlanksAtInsert(traces[i], j0, j, all0, j, posj, interpolate);
        allPositions := AddPosition(i, j, posj, orig, m, all0);
      } else {
        allPositions := all0;
        TailMatch(allPositions, j, p, m);
      }
      assert traces[i][j + 1..] == orig[i][m + 1..] by {
        assert traces[i][j + 1..] == traces[i][j..][1..];
      }
      j := j + 1;
    }

    /**
     * One pass of the position merge (lines 108-129): walk member `i` with
     * cursor `j` and the union with cursor `k`, filling the member where it
     * lacks a union position, and the earlier members and the union where
     * the member brings a new one. The new union is the merge of the old one
     * with the member's positions.
     */
    method MergeMember(i: nat, ghost orig: seq<seq<Entry>>, all0: seq<real>)
      returns (allPositions: seq<real>)
      requires MetaOnFront()
      requires 1 <= i && MergeState(traces, hasAnyBlanks, orig, all0, i, interpolate) && traces[i] == orig[i]
      requires Sorted(all0) && SortedTrace(orig[i]) && FromMembers(all0, orig)
      requires InterpSafe(orig, interpolate) && (AllEmpty(orig) ==> all0 == [])
      modifies this
      ensures metaAt == old(metaAt)
      ensures MergeState(traces, hasAnyBlanks, orig, allPositions, i, interpolate)
      ensures Aligned(traces[i], allPositions)
      ensures Sorted(allPositions) && FromMembers(allPositions, orig)
      ensures AllEmpty(orig) ==> allPositions == []
      ensures allPositions == MaxMerge(all0, Positions(orig[i]))
    {
      ghost var p := Positions(orig[i]);
      allPositions := all0;
      ghost var m := 0;
      var j := 0;
      TailStart(all0, p);
      while j < |traces[i]|
        invariant metaAt == old(metaAt)
        invariant MergeState(traces, hasAnyBlanks, orig, allPositions, i, interpolate)
        invariant Walked(traces[i], j, orig[i], m, allPositions)
        invariant j > 0 && m < |orig[i]| ==> allPositions[j - 1] <= orig[i][m].pos
        invariant Sorted(allPositions) && FromMembers(allPositions, orig)
        invariant AllEmpty(orig) ==> allPositions == []
        invariant MergeTail(allPositions, j, p, m) == MaxMerge(all0, p)
        decreases |orig[i]| - m
      {
        assert m < |orig[i]| by {
          assert traces[i][j..] == orig[i][m..];
        }
        j, allPositions := MergePoint(i, j, m, orig, allPositions);
        m := m + 1;
      }
      assert m == |p| by {
        assert traces[i][j..] == orig[i][m..];
      }
      TailEnd(allPositions, j, p);
      FillTail(i, j, orig, allPositions);
    }

    /**
     * One turn of the loop at line 107: after the pass over member `i`, the
     * union is that of members 0..i and members 0..i line up with it.
     */
    method MergePass(i: nat, ghost orig: seq<seq<Entry>>, all0: seq<real>) returns (allPositions: seq<real>)
      requires MetaOnFront() && 1 <= i < |orig| && AllSorted(orig) && InterpSafe(orig, interpolate)
      requires MergedBefore(traces, hasAnyBlanks, orig, all0, i, interpolate)
      requires all0 == Union(orig[..i]) && Sorted(all0) && FromMembers(all0, orig)
      requires AllEmpty(orig) ==> all0 == []
      modifies this
      ensures metaAt == old(metaAt)
      ensures MergedBefore(traces, hasAnyBlanks, orig, allPositions, i + 1, interpolate)
      ensures allPositions == Union(orig[..i + 1]) && Sorted(allPositions) && FromMembers(allPositions, orig)
      ensures AllEmpty(orig) ==> allPositions == []
    {
      UnionStep(orig, i);
      PassStart(traces, hasAnyBlanks, orig, all0, i, interpolate);
      allPositions := MergeMember(i, orig, all0);
      PassEnd(traces, hasAnyBlanks, orig, allPositions, i, interpolate);
    }

    /**
     * Lines 107-130: merge members 1.. into the union, which starts as the
     * first member's positions. Afterwards every member lines up with the
     * union of all members and has grown from its input by blanks only.
     */
    method MergeRest(ghost orig: seq<seq<Entry>>, all0: seq<real>) returns (allPositions: seq<real>)
      requires MetaOnFront() && 0 < |orig| && traces == orig && all0 == Positions(orig[0])
      requires AllSorted(orig) && InterpSafe(orig, interpolate) && |hasAnyBlanks| == |orig|
      requires forall u :: 0 <= u < |orig| ==> Grown(orig[u], orig[u], hasAnyBlanks[u], interpolate)
      modifies this
      ensures metaAt == old(metaAt)
      ensures |traces| == |orig| && |hasAnyBlanks| == |orig|
      ensures allPositions == Union(orig) && Sorted(allPositions) && FromMembers(allPositions, orig)
      ensures forall u :: 0 <= u < |orig| ==> Aligned(traces[u], allPositions)
      ensures forall u :: 0 <= u < |orig| ==> Grown(orig[u], traces[u], hasAnyBlanks[u], interpolate)
    {
      var n := |traces|;
      allPositions := all0;
      PassFirst(orig, hasAnyBlanks, interpolate);
      var i := 1;
      while i < n
        invariant metaAt == old(metaAt)
        invariant 1 <= i <= n
        invariant MergedBefore(traces, hasAnyBlanks, orig, allPositions, i, interpolate)
        invariant Sorted(allPositions) && FromMembers(allPositions, orig)
        invariant AllEmpty(orig) ==> allPositions == []
        invariant allPositions == Union(orig[..i])
      {
        allPositions := MergePass(i, orig, allPositions);
        i := i + 1;
      }
      assert orig[..n] == orig;
    }

    /**
     * The position merge of one group (lines 92-130). Afterwards every member
     * lines up with the returned union, which is the members' positions merged
     * in member order (sorted, each position as often as the member holding
     * it most often); each member still holds its input points unchanged and
     * in order, every other entry is a blank, and a member is flagged iff it
     * received one.
     */
    method MergePositions() returns (allPositions: seq<real>)
      requires |traces| > 0 && AllSorted(traces) && InterpSafe(traces, interpolate) && MetaOnFront()
      modifies this
      ensures metaAt == old(metaAt)
      ensures |traces| == |old(traces)| && |hasAnyBlanks| == |traces|
      ensures allPositions == Union(old(traces))
      ensures Sorted(allPositions)
      ensures forall u :: 0 <= u < |traces| ==> |traces[u]| == |allPositions|
      ensures forall u :: 0 <= u < |traces| ==> Positions(traces[u]) == allPositions
      ensures forall u :: 0 <= u < |traces| ==> IsSubseq(old(traces)[u], traces[u])
      ensures forall u :: 0 <= u < |traces| ==> Explained(old(traces)[u], traces[u], interpolate)
      ensures forall u :: 0 <= u < |traces| ==> (hasAnyBlanks[u] <==> |old(traces)[u]| < |traces[u]|)
      ensures forall u :: 0 <= u < |traces| ==> IsSubseq(Positions(old(traces)[u]), allPositions)
      ensures forall p :: p in allPositions <==>
        exists u :: 0 <= u < |traces| && p in Positions(old(traces)[u])
      ensures AllTagged(old(traces)) ==> AllTagged(traces)
    {
      ghost var orig := traces;
      hasAnyBlanks := seq(|traces|, _ => false);
      var all0 := FirstPositions(traces[0]);
      StartGrown(orig, hasAnyBlanks, interpolate);
      allPositions := MergeRest(orig, all0);
      AlignedAll(orig, traces, allPositions);
      GrownAll(orig, traces, hasAnyBlanks, interpolate);
    }

    /**
     * Lines 136-143: the running sum `sumj` over the members at position `j`,
     * written into each member's value attribute; returns the group total.
     */
    method RunningSum(j: nat) returns (sumj: real)
      requires 0 < |traces| && forall u :: 0 <= u < |traces| ==> j < |traces[u]|
      modifies this
      ensures metaAt == old(metaAt)
      ensures hasAnyBlanks == old(hasAnyBlanks) && |traces| == |old(traces)|
      ensures sumj == Sum(Column(old(traces), j))
      ensures forall u :: 0 <= u < |traces| ==>
        traces[u] == old(traces)[u][j := old(traces)[u][j].(v := Some(Sum(Column(old(traces), j)[..u + 1])))]
    {
      var ts;
      ts, sumj := ColumnSums(traces, j);
      traces := ts;
    }

    /** Lines 147-151: divide every member's value attribute at `j` by `norm` and record `sNorm`. */
    method NormalizeColumn(j: nat, norm: real)
      requires norm != 0.0
      requires forall u :: 0 <= u < |traces| ==> j < |traces[u]| && traces[u][j].v.Some?
      modifies this
      ensures metaAt == old(metaAt)
      ensures hasAnyBlanks == old(hasAnyBlanks) && |traces| == |old(traces)|
      ensures forall u :: 0 <= u < |traces| ==>
        traces[u] == old(traces)[u][j := old(traces)[u][j].(v := Some(old(traces)[u][j].v.value / norm),
                                                             sNorm := Some(old(traces)[u][j].s / norm))]
    {
      var ts: seq<seq<Entry>> := traces;
      var i := 0;
      while i < |ts|
        invariant unchanged(this)
        invariant 0 <= i <= |ts| && |ts| == |traces|
        invariant forall u :: 0 <= u < i ==>
          ts[u] == traces[u][j := traces[u][j].(v := Some(traces[u][j].v.value / norm),
                                                sNorm := Some(traces[u][j].s / norm))]
        invariant forall u :: i <= u < |ts| ==> ts[u] == traces[u]
      {
        var cdj := ts[i][j];
        cdj := cdj.(v := Some(cdj.v.value / norm), sNorm := Some(cdj.s / norm));
        ts := ts[i := ts[i][j := cdj]];
        i := i + 1;
      }
      traces := ts;
    }

    /** Stacking and, if asked for, normalising position `j` (lines 136-152). */
    method StackColumn(j: nat)
      requires 0 < |traces| && forall u :: 0 <= u < |traces| ==> j < |traces[u]|
      modifies this
      ensures metaAt == old(metaAt)
      ensures hasAnyBlanks == old(hasAnyBlanks) && |traces| == |old(traces)|
      ensures forall u :: 0 <= u < |traces| ==>
        traces[u] == old(traces)[u][j := StackedEntry(old(traces)[u][j], Column(old(traces), j), u, groupnorm)]
    {
      ghost var col := Column(traces, j);
      var sumj := RunningSum(j);
      if groupnorm != NoNorm {
        var norm := if groupnorm == Fraction then sumj else sumj / 100.0;
        if norm == 0.0 {
          norm := 1.0;
        }
        assert norm == NormOf(groupnorm, Sum(col));
        NormalizeColumn(j, norm);
      }
    }

    /**
     * Stacking the merged group (lines 132-153): afterwards member `u` at
     * position `j` holds the sum of the members' values 0..u there, divided by
     * the position's divisor when normalising, and `sNorm` its own share.
     */
    method StackAndNormalize()
      requires 0 < |traces| && forall u :: 0 <= u < |traces| ==> |traces[u]| == |traces[0]|
      modifies this
      ensures metaAt == old(metaAt)
      ensures hasAnyBlanks == old(hasAnyBlanks)
      ensures |traces| == |old(traces)|
      ensures forall u :: 0 <= u < |traces| ==> |traces[u]| == |old(traces)[u]|
      ensures forall u, j :: 0 <= u < |traces| && 0 <= j < |traces[u]| ==>
        traces[u][j] == StackedEntry(old(traces)[u][j], Column(old(traces), j), u, groupnorm)
    {
      var n := |traces|;
      var len := |traces[0]|;
      var j := 0;
      while j < len
        invariant metaAt == old(metaAt)
        invariant 0 <= j <= len && |traces| == n && hasAnyBlanks == old(hasAnyBlanks)
        invariant forall u :: 0 <= u < n ==> |traces[u]| == len
        invariant forall u, x :: 0 <= u < n && 0 <= x < j ==>
          traces[u][x] == StackedEntry(old(traces)[u][x], Column(old(traces), x), u, groupnorm)
        invariant forall u, x :: 0 <= u < n && j <= x < len ==> traces[u][x] == old(traces)[u][x]
      {
        ghost var pre := traces;
        StackColumn(j);
        assert Column(pre, j) == Column(old(traces), j);
        j := j + 1;
      }
    }

    /**
     * Lines 155-167: each member's padding, from its marker-size result and
     * whether it received a blank.
     */
    method BuildPads(markerSizes: seq<MarkerSize>, serieslen: nat) returns (pads: seq<Padding>)
      requires |markerSizes| == |traces| == |hasAnyBlanks|
      requires forall u :: 0 <= u < |traces| ==> |traces[u]| == serieslen
      ensures |pads| == |traces|
      ensures forall u :: 0 <= u < |traces| ==>
        PaddingFor(traces[u], markerSizes[u], hasAnyBlanks[u], pads[u])
    {
      pads := [];
      for i := 0 to |traces|
        invariant |pads| == i
        invariant forall u :: 0 <= u < i ==>
          PaddingFor(traces[u], markerSizes[u], hasAnyBlanks[u], pads[u])
      {
        var ppad := BuildPadding(traces[i], markerSizes[i], hasAnyBlanks[i], serieslen);
        pads := pads + [ppad];
      }
    }

    /**
     * The body of `crossTraceCalc` for this group: nothing for an empty group;
     * otherwise merge, stack and normalise, and build each member's padding
     * from its marker-size result. `merged` is the group as the merge left it.
     * Every member's series metadata stays on its first entry.
     */
    method CrossTraceCalc(markerSizes: seq<MarkerSize>)
      returns (allPositions: seq<real>, pads: seq<Padding>, ghost merged: seq<seq<Entry>>)
      requires |markerSizes| == |traces|
      requires AllSorted(traces) && InterpSafe(traces, interpolate) && MetaOnFront()
      modifies this
      ensures metaAt == old(metaAt)
      ensures old(traces) == [] ==> traces == [] && pads == [] && allPositions == []
      ensures |traces| == |old(traces)| == |merged| == |pads|
      ensures allPositions == Union(old(traces)) && Sorted(allPositions)
      ensures forall u :: 0 <= u < |merged| ==> |merged[u]| == |allPositions|
      ensures forall u :: 0 <= u < |merged| ==> Positions(merged[u]) == allPositions
      ensures forall u :: 0 <= u < |merged| ==> IsSubseq(old(traces)[u], merged[u])
      ensures forall u :: 0 <= u < |merged| ==> Explained(old(traces)[u], merged[u], interpolate)
      ensures forall p :: p in allPositions <==>
        exists u :: 0 <= u < |merged| && p in Positions(old(traces)[u])
      ensures forall u :: 0 <= u < |traces| ==> |traces[u]| == |allPositions|
      ensures forall u, j :: 0 <= u < |traces| && 0 <= j < |allPositions| ==>
        traces[u][j] == StackedEntry(merged[u][j], Column(merged, j), u, groupnorm)
      ensures forall u :: 0 <= u < |traces| ==>
        PaddingFor(traces[u], markerSizes[u], |old(traces)[u]| < |merged[u]|, pads[u])
    {
      if traces == [] {
        allPositions, pads, merged := [], [], [];
        return;
      }
      allPositions := MergePositions();
      merged := traces;
      var serieslen := |allPositions|;
      StackAndNormalize();
      assert forall u :: 0 <= u < |traces| ==> |traces[u]| == |merged[u]| == serieslen;
      pads := BuildPads(markerSizes, serieslen);
    }
  }

  /**
   * A group of two members, at positions [1, 2, 3] and [1, 3], with gaps
   * zero-filled: the union is [1, 2, 3], and the second member's entry at 2
   * is a zero blank.
   */
  method ZeroGapExample() returns (allPositions: seq<real>, ghost filled: Entry)
    ensures allPositions == [1.0, 2.0, 3.0]
    ensures filled.pos == 2.0 && filled.s == 0.0 && filled.gap && filled.i == None
  {
    var a := [Entry(1.0, 5.0, Some(0), false, None, None), Entry(2.0, 0.0, Some(1), false, None, None),
              Entry(3.0, 5.0, Some(2), false, None, None)];
    var b := [Entry(1.0, 2.0, Some(0), false, None, None), Entry(3.0, 4.0, Some(1), false, None, None)];
    assert Positions(a) == [1.0, 2.0, 3.0] && Positions(b) == [1.0, 3.0];
    var g := new StackGroup([a, b], false, NoNorm);
    var pads: seq<Padding>;
    ghost var merged: seq<seq<Entry>>;
    allPositions, pads, merged := g.CrossTraceCalc([Scalar(0.0), Scalar(0.0)]);
    assert [a, b][..1] == [a] && [a][..0] == [];
    assert Union([a]) == Positions(a);
    UnionExample();
    assert Union([a, b]) == MaxMerge(Positions(a), Positions(b));
    ghost var t := merged[1];
    assert Positions(t) == [1.0, 2.0, 3.0];
    assert t[1].pos == 2.0 && t[0].pos == 1.0;
    assert Explained(b, t, false);
    assert t[1] !in b;
    filled := t[1];
  }
}
