/**
 * Calcdata entries of a stacked scatter trace and the sequence helpers the
 * stack merger works with: splicing one entry in, reading off positions,
 * ordering, and the "kept in order" (subsequence) relation.
 */
module Entries {

  datatype Option<T> = None | Some(value: T)

  /**
   * One calcdata point of a member trace, restricted to what the merger uses.
   * `pos` is the position attribute (x for vertical stacks, y otherwise),
   * `s` the trace's own unstacked value, `i` the index of the point in the
   * trace's input arrays (`null` for synthesized points), `gap` marks a point
   * that was not observed, `v` is the value attribute written by stacking and
   * `sNorm` the normalised unstacked value written by group normalisation.
   */
  datatype Entry = Entry(pos: real, s: real, i: Option<nat>, gap: bool,
                         v: Option<real>, sNorm: Option<real>)

  /** `a.splice(index, 0, x)`: `x` ends up at `index`, later items shift right. */
  function Insert<T>(a: seq<T>, index: nat, x: T): (r: seq<T>)
    requires index <= |a|
    ensures |r| == |a| + 1 && r[index] == x
    ensures forall k :: 0 <= k < index ==> r[k] == a[k]
    ensures forall k :: index < k < |r| ==> r[k] == a[k - 1]
  {
    a[..index] + [x] + a[index..]
  }

  /** The sequence of positions of a trace. */
  function Positions(t: seq<Entry>): (r: seq<real>)
    ensures |r| == |t| && forall k :: 0 <= k < |t| ==> r[k] == t[k].pos
  {
    seq(|t|, k requires 0 <= k < |t| => t[k].pos)
  }

  ghost predicate Sorted(p: seq<real>)
  {
    forall x, y :: 0 <= x <= y < |p| ==> p[x] <= p[y]
  }

  /** A trace ordered by non-decreasing position, as every input trace is. */
  ghost predicate SortedTrace(t: seq<Entry>)
  {
    forall x, y :: 0 <= x <= y < |t| ==> t[x].pos <= t[y].pos
  }

  /** The trace lines up entry by entry with the position list `p`. */
  ghost predicate Aligned(t: seq<Entry>, p: seq<real>)
  {
    |t| == |p| && forall k :: 0 <= k < |t| ==> t[k].pos == p[k]
  }

  /** `a` occurs in `b` with its items unchanged and in their order. */
  ghost predicate IsSubseq<T>(a: seq<T>, b: seq<T>)
    decreases |b|
  {
    if a == [] then true
    else if b == [] then false
    else (a[0] == b[0] && IsSubseq(a[1..], b[1..])) || IsSubseq(a, b[1..])
  }

  lemma {:induction false} SubseqRefl<T>(a: seq<T>)
    ensures IsSubseq(a, a)
  {
    if a != [] {
      SubseqRefl(a[1..]);
    }
  }

  lemma {:induction false} SubseqLength<T>(a: seq<T>, b: seq<T>)
    requires IsSubseq(a, b)
    ensures |a| <= |b|
    decreases |b|
  {
    if a != [] {
      if a[0] == b[0] && IsSubseq(a[1..], b[1..]) {
        SubseqLength(a[1..], b[1..]);
      } else {
        SubseqLength(a, b[1..]);
      }
    }
  }

  /** Splicing an item into `b` keeps every subsequence of `b`. */
  lemma {:induction false} SubseqInsert<T>(a: seq<T>, b: seq<T>, index: nat, x: T)
    requires IsSubseq(a, b) && index <= |b|
    ensures IsSubseq(a, Insert(b, index, x))
    decreases |b|
  {
    var r := Insert(b, index, x);
    if a == [] {
    } else if index == 0 {
      assert r[1..] == b;
    } else {
      assert r[0] == b[0];
      assert r[1..] == Insert(b[1..], index - 1, x);
      if a[0] == b[0] && IsSubseq(a[1..], b[1..]) {
        SubseqInsert(a[1..], b[1..], index - 1, x);
      } else {
        SubseqInsert(a, b[1..], index - 1, x);
      }
    }
  }

  /** Keeping entries in order keeps their positions in order. */
  lemma {:induction false} SubseqPositions(a: seq<Entry>, b: seq<Entry>)
    requires IsSubseq(a, b)
    ensures IsSubseq(Positions(a), Positions(b))
    decreases |b|
  {
    if a != [] {
      assert Positions(a)[1..] == Positions(a[1..]);
      assert Positions(b)[1..] == Positions(b[1..]);
      if a[0] == b[0] && IsSubseq(a[1..], b[1..]) {
        SubseqPositions(a[1..], b[1..]);
      } else {
        SubseqPositions(a, b[1..]);
      }
    }
  }

  /** Every item of a subsequence is an item of the whole. */
  lemma {:induction false} SubseqMember<T>(a: seq<T>, b: seq<T>, x: T)
    requires IsSubseq(a, b) && x in a
    ensures x in b
    decreases |b|
  {
    if a[0] == b[0] && IsSubseq(a[1..], b[1..]) {
      if x != a[0] {
        assert x in a[1..];
        SubseqMember(a[1..], b[1..], x);
      }
    } else {
      SubseqMember(a, b[1..], x);
    }
  }

  /** An item of a spliced sequence is either the new item or an old one. */
  lemma InsertMember<T>(a: seq<T>, index: nat, x: T, y: T)
    requires index <= |a| && y in Insert(a, index, x)
    ensures y == x || y in a
  {
    var r := Insert(a, index, x);
    var k :| 0 <= k < |r| && r[k] == y;
    if k < index {
      assert a[k] == y;
    } else if k > index {
      assert a[k - 1] == y;
    }
  }

  /** Splicing a position between its neighbours keeps the list sorted. */
  lemma InsertSorted(p: seq<real>, index: nat, x: real)
    requires Sorted(p) && index <= |p|
    requires index > 0 ==> p[index - 1] <= x
    requires index < |p| ==> x <= p[index]
    ensures Sorted(Insert(p, index, x))
  {
    var r := Insert(p, index, x);
    forall a, b | 0 <= a <= b < |r| ensures r[a] <= r[b] {
      if a < index && b > index {
        assert r[a] <= x;
      }
    }
  }

  /** Splicing the same position into a trace and its position list keeps them aligned. */
  lemma InsertAligned(t: seq<Entry>, p: seq<real>, index: nat, e: Entry)
    requires Aligned(t, p) && index <= |t|
    ensures Aligned(Insert(t, index, e), Insert(p, index, e.pos))
  {
  }

  lemma AlignedPositions(t: seq<Entry>, p: seq<real>)
    requires Aligned(t, p)
    ensures Positions(t) == p
  {
  }
}
