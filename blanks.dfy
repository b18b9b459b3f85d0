/**
 * The content of a synthesized ("blank") entry: `getInterp` and the value
 * rules of `insertBlank` in src/traces/scatter/cross_trace_calc.js.
 */
module Blanks {
  import opened Entries

  /** The entry just before the insertion point already sits at `position`. */
  ghost predicate Duplicates(trace: seq<Entry>, index: nat, position: real)
  {
    0 < index <= |trace| && trace[index - 1].pos == position
  }

  /**
   * What interpolation needs: at least one neighbour (the source throws
   * otherwise) and, between two neighbours, distinct positions.
   */
  ghost predicate InterpDefined(trace: seq<Entry>, index: nat)
  {
    0 < |trace| && index <= |trace| &&
    (0 < index < |trace| ==> trace[index - 1].pos != trace[index].pos)
  }

  /** Inserting `position` at `index` keeps the trace ordered around it. */
  ghost predicate FitsAt(trace: seq<Entry>, index: nat, position: real)
  {
    index <= |trace| &&
    (index > 0 ==> trace[index - 1].pos <= position) &&
    (index < |trace| ==> position <= trace[index].pos)
  }

  /**
   * `getInterp`, evaluated before the splice: the neighbours of the new entry
   * are `trace[index - 1]` and `trace[index]`. With one neighbour its value
   * is used unchanged; with two, the value on the line through them.
   */
  function Interp(trace: seq<Entry>, index: nat, position: real): (r: real)
    requires InterpDefined(trace, index)
    ensures index == |trace| ==> r == trace[index - 1].s
    ensures index == 0 ==> r == trace[0].s
    ensures 0 < index < |trace| ==>
      var p0, p1 := trace[index - 1], trace[index];
      (r - p0.s) * (p1.pos - p0.pos) == (p1.s - p0.s) * (position - p0.pos)
  {
    if index == |trace| then trace[index - 1].s
    else if index == 0 then trace[0].s
    else
      var p0, p1 := trace[index - 1], trace[index];
      var r := p0.s + (p1.s - p0.s) * (position - p0.pos) / (p1.pos - p0.pos);
      LineThrough(p0.s, p1.s, p0.pos, p1.pos, position, r);
      r
  }

  lemma LineThrough(s0: real, s1: real, p0: real, p1: real, p: real, r: real)
    requires p1 != p0 && r == s0 + (s1 - s0) * (p - p0) / (p1 - p0)
    ensures (r - s0) * (p1 - p0) == (s1 - s0) * (p - p0)
  {
    var q := (s1 - s0) * (p - p0);
    assert r - s0 == q / (p1 - p0);
    assert q / (p1 - p0) * (p1 - p0) == q;
  }

  /** Between its neighbours an interpolated value lies between their values. */
  lemma {:induction false} InterpBetween(trace: seq<Entry>, index: nat, position: real)
    requires InterpDefined(trace, index) && 0 < index < |trace|
    requires trace[index - 1].pos <= position <= trace[index].pos
    ensures var s0, s1 := trace[index - 1].s, trace[index].s;
      (s0 <= s1 ==> s0 <= Interp(trace, index, position) <= s1) &&
      (s1 <= s0 ==> s1 <= Interp(trace, index, position) <= s0)
  {
    var p0, p1 := trace[index - 1], trace[index];
    var t := (position - p0.pos) / (p1.pos - p0.pos);
    assert 0.0 <= t <= 1.0 by {
      assert p1.pos - p0.pos > 0.0;
      assert t * (p1.pos - p0.pos) == position - p0.pos;
    }
    var d := p1.s - p0.s;
    assert (p1.s - p0.s) * (position - p0.pos) / (p1.pos - p0.pos) == d * t;
    assert Interp(trace, index, position) == p0.s + d * t;
    ScaledBetween(d, t);
  }

  lemma ScaledBetween(d: real, t: real)
    requires 0.0 <= t <= 1.0
    ensures d >= 0.0 ==> 0.0 <= d * t <= d
    ensures d <= 0.0 ==> d <= d * t <= 0.0
  {
  }

  /**
   * The entry `insertBlank` splices in at `index`. Precedence: a copy of the
   * same-position predecessor (its value, index and gap flag, whatever the gap
   * policy), else the interpolated value, else zero; a non-copied blank has no
   * input index and is a gap. No value attribute is set until stacking.
   */
  function Blank(trace: seq<Entry>, index: nat, position: real, interpolate: bool): (e: Entry)
    requires index <= |trace|
    requires interpolate && !Duplicates(trace, index, position) ==> InterpDefined(trace, index)
    ensures e.pos == position && e.v == None && e.sNorm == None
    ensures Duplicates(trace, index, position) ==>
      e.s == trace[index - 1].s && e.i == trace[index - 1].i && e.gap == trace[index - 1].gap
    ensures !Duplicates(trace, index, position) ==> e.i == None && e.gap
    ensures !Duplicates(trace, index, position) && !interpolate ==> e.s == 0.0
    ensures !Duplicates(trace, index, position) && interpolate ==> e.s == Interp(trace, index, position)
  {
    var blank := Entry(position, 0.0, None, true, None, None);
    if index > 0 && position == trace[index - 1].pos then
      blank.(s := trace[index - 1].s, i := trace[index - 1].i, gap := trace[index - 1].gap)
    else if interpolate then
      blank.(s := Interp(trace, index, position))
    else
      blank
  }

  /** A point is synthesized exactly when it has no input index. */
  ghost predicate Tagged(e: Entry)
  {
    e.gap <==> e.i == None
  }

  ghost predicate TraceTagged(t: seq<Entry>)
  {
    forall k :: 0 <= k < |t| ==> Tagged(t[k])
  }

  lemma BlankTagged(trace: seq<Entry>, index: nat, position: real, interpolate: bool)
    requires index <= |trace|
    requires interpolate && !Duplicates(trace, index, position) ==> InterpDefined(trace, index)
    requires TraceTagged(trace)
    ensures TraceTagged(Insert(trace, index, Blank(trace, index, position, interpolate)))
  {
    var r := Insert(trace, index, Blank(trace, index, position, interpolate));
    forall k | 0 <= k < |r| ensures Tagged(r[k]) {
      if k < index {
        assert r[k] == trace[k];
      } else if k > index {
        assert r[k] == trace[k - 1];
      }
    }
  }

  /** What `Blank` needs: an insertion point in range and, when it interpolates, interpolation defined. */
  ghost predicate CanBlank(trace: seq<Entry>, index: nat, position: real, interpolate: bool)
  {
    index <= |trace| && (interpolate && !Duplicates(trace, index, position) ==> InterpDefined(trace, index))
  }

  /** `b` repeats the sample of `a`: the same position, value, input index and gap flag. */
  ghost predicate Repeats(a: Entry, b: Entry)
  {
    a.pos == b.pos && a.s == b.s && a.i == b.i && a.gap == b.gap
  }

  /**
   * Entry `x` of `t` is one `insertBlank` can have made: a gap with no input
   * index, valued zero unless interpolating, or a repeat of the entry before it.
   */
  ghost predicate Synthesized(t: seq<Entry>, x: nat, interpolate: bool)
    requires x < |t|
  {
    (t[x].gap && t[x].i == None && (!interpolate ==> t[x].s == 0.0)) ||
    (0 < x && Repeats(t[x - 1], t[x]))
  }

  /** Every entry of `t` is an input point of `o` or a synthesized one. */
  ghost predicate Explained(o: seq<Entry>, t: seq<Entry>, interpolate: bool)
  {
    forall x :: 0 <= x < |t| ==> t[x] in o || Synthesized(t, x, interpolate)
  }

  /**
   * A blank spliced between ordered neighbours keeps every entry explained:
   * the blank itself is a gap or a repeat, and an entry that repeated its old
   * predecessor repeats the blank, which then copies that predecessor.
   */
  lemma ExplainedInsert(o: seq<Entry>, t: seq<Entry>, index: nat, position: real, interpolate: bool)
    requires Explained(o, t, interpolate) && FitsAt(t, index, position)
    requires CanBlank(t, index, position, interpolate)
    ensures Explained(o, Insert(t, index, Blank(t, index, position, interpolate)), interpolate)
  {
    var e := Blank(t, index, position, interpolate);
    var r := Insert(t, index, e);
    forall x | 0 <= x < |r| ensures r[x] in o || Synthesized(r, x, interpolate) {
      if x < index {
        assert r[x] == t[x];
        if 0 < x {
          assert r[x - 1] == t[x - 1];
        }
      } else if x == index {
        if Duplicates(t, index, position) {
          assert r[x - 1] == t[index - 1];
        }
      } else {
        assert r[x] == t[x - 1];
        if x - 1 > index {
          assert r[x - 1] == t[x - 2];
        } else if r[x] !in o && !(t[x - 1].gap && t[x - 1].i == None && (!interpolate ==> t[x - 1].s == 0.0)) {
          assert Repeats(t[index - 1], t[index]);
          assert Duplicates(t, index, position);
        }
      }
    }
  }

  /** Where the merge inserts (between ordered neighbours), interpolation is defined. */
  lemma FitsInterpDefined(trace: seq<Entry>, index: nat, position: real)
    requires FitsAt(trace, index, position) && 0 < |trace|
    requires !Duplicates(trace, index, position)
    ensures InterpDefined(trace, index)
  {
  }

  /** Splicing a blank between ordered neighbours keeps the trace ordered. */
  lemma BlankKeepsOrder(trace: seq<Entry>, index: nat, position: real, interpolate: bool)
    requires SortedTrace(trace) && FitsAt(trace, index, position)
    requires interpolate && !Duplicates(trace, index, position) ==> InterpDefined(trace, index)
    ensures SortedTrace(Insert(trace, index, Blank(trace, index, position, interpolate)))
  {
    var r := Insert(trace, index, Blank(trace, index, position, interpolate));
    forall a, b | 0 <= a <= b < |r| ensures r[a].pos <= r[b].pos {
      if a < index && b > index {
        assert r[a].pos <= position;
      }
    }
  }

  /** Samples at positions 0 (value 10) and 4 (value 30): blanks at 2 and 1 get 20 and 15. */
  lemma InterpExample(a: Entry, b: Entry)
    requires a.pos == 0.0 && a.s == 10.0 && b.pos == 4.0 && b.s == 30.0
    ensures Blank([a, b], 1, 2.0, true).s == 20.0
    ensures Blank([a, b], 1, 1.0, true).s == 15.0
  {
  }

  /** A blank before the first or after the last sample copies that sample's value. */
  lemma BoundaryExample(a: Entry, b: Entry, p: real)
    requires a.pos < b.pos && (p < a.pos || p > b.pos)
    ensures p < a.pos ==> Blank([a, b], 0, p, true).s == a.s
    ensures p > b.pos ==> Blank([a, b], 2, p, true).s == b.s
  {
  }

  /** A trace with one sample at a position that another trace holds twice gets a copy of it. */
  lemma DuplicateExample(a: Entry, b: Entry, interpolate: bool)
    requires a.pos == 1.0 && b.pos == 2.0
    ensures var e := Blank([a, b], 1, 1.0, interpolate);
      e.s == a.s && e.i == a.i && e.gap == a.gap
  {
  }
}
