/**
 * The per-point padding handed to axis expansion after a group is stacked
 * (`ppad` in `crossTraceCalc`). The marker-size computation itself is not
 * part of this model: its result comes in as a tagged value.
 */
module RangePadding {
  import opened Entries
  import opened Blanks

  /** The marker-size result: one padding for every point, or one per input index. */
  datatype MarkerSize = Scalar(size: real) | PerPoint(sizes: seq<real>)

  /**
   * The padding passed on: the scalar unchanged, or one element per entry.
   * `None` is an undefined element (an input index the array does not have).
   */
  datatype Padding = Uniform(pad: real) | PerEntry(pads: seq<Option<real>>)

  /** An array result is always re-indexed; a scalar only when nonzero and the trace got blanks. */
  predicate Rebuilds(ppad: MarkerSize, hasBlanks: bool)
  {
    ppad.PerPoint? || (ppad.size != 0.0 && hasBlanks)
  }

  /** `ppadRaw[i]`, undefined for a missing or out-of-range index. */
  function Lookup(sizes: seq<real>, i: Option<nat>): (r: Option<real>)
    ensures r.Some? <==> i.Some? && i.value < |sizes|
    ensures r.Some? ==> r.value == sizes[i.value]
  {
    if i.Some? && i.value < |sizes| then Some(sizes[i.value]) else None
  }

  /**
   * Rebuilding the padding: zero at every gap, elsewhere the scalar or the
   * array element of the entry's input index; otherwise the scalar as it is.
   */
  method BuildPadding(cd: seq<Entry>, ppad: MarkerSize, hasBlanks: bool, serieslen: nat)
    returns (pad: Padding)
    requires serieslen <= |cd|
    ensures !Rebuilds(ppad, hasBlanks) ==> pad == Uniform(ppad.size)
    ensures Rebuilds(ppad, hasBlanks) ==> pad.PerEntry? && |pad.pads| == serieslen
    ensures Rebuilds(ppad, hasBlanks) ==>
      forall j :: 0 <= j < serieslen ==> (cd[j].gap ==> pad.pads[j] == Some(0.0))
    ensures Rebuilds(ppad, hasBlanks) && ppad.Scalar? ==>
      forall j :: 0 <= j < serieslen ==> (!cd[j].gap ==> pad.pads[j] == Some(ppad.size))
    ensures ppad.PerPoint? ==>
      forall j :: 0 <= j < serieslen ==> (!cd[j].gap ==> pad.pads[j] == Lookup(ppad.sizes, cd[j].i))
  {
    if Rebuilds(ppad, hasBlanks) {
      var pads: seq<Option<real>> := [];
      for j := 0 to serieslen
        invariant |pads| == j
        invariant forall x :: 0 <= x < j ==> (cd[x].gap ==> pads[x] == Some(0.0))
        invariant ppad.Scalar? ==> forall x :: 0 <= x < j ==> (!cd[x].gap ==> pads[x] == Some(ppad.size))
        invariant ppad.PerPoint? ==>
          forall x :: 0 <= x < j ==> (!cd[x].gap ==> pads[x] == Lookup(ppad.sizes, cd[x].i))
      {
        var p: Option<real>;
        if cd[j].gap {
          p := Some(0.0);
        } else if ppad.PerPoint? {
          p := Lookup(ppad.sizes, cd[j].i);
        } else {
          p := Some(ppad.size);
        }
        pads := pads + [p];
      }
      pad := PerEntry(pads);
    } else {
      pad := Uniform(ppad.size);
    }
  }

  /**
   * For a trace whose points carry an input index exactly when they are not
   * gaps, and an array covering every input index, every rebuilt element is
   * defined.
   */
  lemma {:induction false} PaddingDefined(cd: seq<Entry>, sizes: seq<real>, pads: seq<Option<real>>)
    requires TraceTagged(cd) && |pads| == |cd|
    requires forall j :: 0 <= j < |cd| ==> (cd[j].gap ==> pads[j] == Some(0.0))
    requires forall j :: 0 <= j < |cd| ==> (!cd[j].gap ==> pads[j] == Lookup(sizes, cd[j].i))
    requires forall j :: 0 <= j < |cd| && cd[j].i.Some? ==> cd[j].i.value < |sizes|
    ensures forall j :: 0 <= j < |cd| ==> pads[j].Some?
  {
    forall j | 0 <= j < |cd| ensures pads[j].Some? {
      assert Tagged(cd[j]);
    }
  }
}
