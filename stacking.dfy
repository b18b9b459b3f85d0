/**
 * The arithmetic of stacking and group normalisation (the `sumj`/`norm`
 * computation of `crossTraceCalc`), stated over one position's column of
 * unstacked values, one per group member in member order.
 */
module Stacking {
  import opened Entries

  /** `groupnorm`: '' (no normalisation), 'fraction' or 'percent'. */
  datatype GroupNorm = NoNorm | Fraction | Percent

  function Sum(xs: seq<real>): real
  {
    if xs == [] then 0.0 else Sum(xs[..|xs| - 1]) + xs[|xs| - 1]
  }

  /** The unstacked values of all members at position index `j`. */
  function Column(traces: seq<seq<Entry>>, j: nat): (col: seq<real>)
    requires forall u :: 0 <= u < |traces| ==> j < |traces[u]|
    ensures |col| == |traces| && forall u :: 0 <= u < |traces| ==> col[u] == traces[u][j].s
  {
    seq(|traces|, u requires 0 <= u < |traces| => traces[u][j].s)
  }

  /**
   * The divisor of a normalised group: the position's total for 'fraction',
   * a hundredth of it for 'percent', and 1 in place of a zero divisor.
   */
  function NormOf(mode: GroupNorm, total: real): (norm: real)
    requires mode != NoNorm
    ensures norm != 0.0
    ensures total != 0.0 && mode == Fraction ==> norm == total
    ensures total != 0.0 && mode == Percent ==> norm * 100.0 == total
    ensures total == 0.0 ==> norm == 1.0
  {
    var n := if mode == Fraction then total else total / 100.0;
    if n == 0.0 then 1.0 else n
  }

  /** Member `i`'s final value attribute: its running sum, divided by the divisor when normalising. */
  function StackedValue(col: seq<real>, i: nat, mode: GroupNorm): real
    requires i < |col|
  {
    if mode == NoNorm then Sum(col[..i + 1]) else Sum(col[..i + 1]) / NormOf(mode, Sum(col))
  }

  /** An entry after stacking: value attribute written, `sNorm` written only when normalising. */
  function StackedEntry(e: Entry, col: seq<real>, i: nat, mode: GroupNorm): Entry
    requires i < |col|
  {
    e.(v := Some(StackedValue(col, i, mode)),
       sNorm := if mode == NoNorm then e.sNorm else Some(e.s / NormOf(mode, Sum(col))))
  }

  /** The running sum adds one member at a time: `sumj += cd[j].s`. */
  lemma SumStep(col: seq<real>, i: nat)
    requires i < |col|
    ensures Sum(col[..i + 1]) == Sum(col[..i]) + col[i]
  {
    assert col[..i + 1][..i] == col[..i];
  }

  /** Member 0's stacked value is its own value; each later one adds its value to the one below. */
  lemma {:induction false} StackedRunningSum(col: seq<real>, i: nat)
    requires i < |col|
    ensures i == 0 ==> StackedValue(col, 0, NoNorm) == col[0]
    ensures i > 0 ==> StackedValue(col, i, NoNorm) == StackedValue(col, i - 1, NoNorm) + col[i]
  {
    SumStep(col, i);
  }

  lemma {:induction false} SumZeros(xs: seq<real>)
    requires forall k :: 0 <= k < |xs| ==> xs[k] == 0.0
    ensures Sum(xs) == 0.0
  {
    if xs != [] {
      SumZeros(xs[..|xs| - 1]);
    }
  }

  /** A position where every member's value is zero stacks (and normalises) to zero for all. */
  lemma {:induction false} ZeroColumn(col: seq<real>, i: nat, mode: GroupNorm)
    requires i < |col| && forall u :: 0 <= u < |col| ==> col[u] == 0.0
    ensures StackedValue(col, i, mode) == 0.0
  {
    SumZeros(col[..i + 1]);
  }

  /** With a nonzero total the top member normalises to 1 ('fraction') or 100 ('percent'). */
  lemma {:induction false} NormalisedTop(col: seq<real>, mode: GroupNorm)
    requires |col| > 0 && mode != NoNorm && Sum(col) != 0.0
    ensures mode == Fraction ==> StackedValue(col, |col| - 1, mode) == 1.0
    ensures mode == Percent ==> StackedValue(col, |col| - 1, mode) == 100.0
  {
    assert col[..|col|] == col;
    var norm := NormOf(mode, Sum(col));
    assert StackedValue(col, |col| - 1, mode) == Sum(col) / norm;
    if mode == Percent {
      assert Sum(col) / norm == 100.0 by {
        assert norm * 100.0 == Sum(col);
      }
    } else {
      assert Sum(col) / norm == 1.0;
    }
  }

  function Scaled(xs: seq<real>, c: real): (r: seq<real>)
    requires c != 0.0
    ensures |r| == |xs| && forall k :: 0 <= k < |xs| ==> r[k] == xs[k] / c
  {
    seq(|xs|, k requires 0 <= k < |xs| => xs[k] / c)
  }

  lemma {:induction false} SumScaled(xs: seq<real>, c: real)
    requires c != 0.0
    ensures Sum(Scaled(xs, c)) == Sum(xs) / c
  {
    if xs != [] {
      var n := |xs| - 1;
      assert Scaled(xs, c)[..n] == Scaled(xs[..n], c);
      SumScaled(xs[..n], c);
      assert Sum(xs[..n]) / c + xs[n] / c == (Sum(xs[..n]) + xs[n]) / c;
    }
  }

  /**
   * Normalised stacked and unstacked values agree: the `sNorm` values of
   * members 0..i add up to member i's normalised stacked value, and the
   * `sNorm` values of the whole group, times the divisor, give back the total.
   */
  lemma {:induction false} NormalisedConsistent(col: seq<real>, i: nat, mode: GroupNorm)
    requires i < |col| && mode != NoNorm
    ensures Sum(Scaled(col[..i + 1], NormOf(mode, Sum(col)))) == StackedValue(col, i, mode)
    ensures Sum(Scaled(col, NormOf(mode, Sum(col)))) * NormOf(mode, Sum(col)) == Sum(col)
  {
    var norm := NormOf(mode, Sum(col));
    SumScaled(col[..i + 1], norm);
    SumScaled(col, norm);
    assert Sum(col) / norm * norm == Sum(col);
  }

  /** Members with values 5 and 2 at one position stack to 5 and 7; 5 and 4 in percent mode make the top 100. */
  lemma StackExample()
    ensures StackedValue([5.0, 2.0], 0, NoNorm) == 5.0
    ensures StackedValue([5.0, 2.0], 1, NoNorm) == 7.0
    ensures StackedValue([5.0, 4.0], 1, Percent) == 100.0
  {
    assert [5.0, 2.0][..1] == [5.0];
    assert [5.0, 2.0][..2] == [5.0, 2.0];
    assert [5.0, 4.0][..2] == [5.0, 4.0];
    assert [5.0][..0] == [];
    assert [5.0, 4.0][..1] == [5.0];
  }
}
