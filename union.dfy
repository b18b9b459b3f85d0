/**
 * The union of the members' positions that the merge builds. Walking a
 * sorted member against the sorted union matches equal positions one for
 * one and splices in the rest, which is the two-list merge `MaxMerge`; the
 * union of a group is that merge folded over its members in order.
 */
module PositionUnion {
  import opened Entries

  function MaxMerge(a: seq<real>, b: seq<real>): seq<real>
    decreases |a| + |b|
  {
    if a == [] then b
    else if b == [] then a
    else if a[0] < b[0] then [a[0]] + MaxMerge(a[1..], b)
    else if b[0] < a[0] then [b[0]] + MaxMerge(a, b[1..])
    else [a[0]] + MaxMerge(a[1..], b[1..])
  }

  /** The union of members 0..|ts|-1. */
  function Union(ts: seq<seq<Entry>>): seq<real>
    decreases |ts|
  {
    if ts == [] then [] else MaxMerge(Union(ts[..|ts| - 1]), Positions(ts[|ts| - 1]))
  }

  /** Adding member `i` merges its positions into the union of the members before it. */
  lemma UnionStep(ts: seq<seq<Entry>>, i: nat)
    requires i < |ts|
    ensures Union(ts[..i + 1]) == MaxMerge(Union(ts[..i]), Positions(ts[i]))
  {
    assert ts[..i + 1][..i] == ts[..i];
  }

  function Max(x: nat, y: nat): nat
  {
    if x < y then y else x
  }

  /** A position is in the merge of two lists exactly when it is in one of them. */
  lemma {:induction false} MaxMergeMembers(a: seq<real>, b: seq<real>)
    ensures forall x :: x in MaxMerge(a, b) <==> x in a || x in b
    decreases |a| + |b|
  {
    if a != [] && b != [] {
      assert a == [a[0]] + a[1..];
      assert b == [b[0]] + b[1..];
      if a[0] < b[0] {
        MaxMergeMembers(a[1..], b);
      } else if b[0] < a[0] {
        MaxMergeMembers(a, b[1..]);
      } else {
        MaxMergeMembers(a[1..], b[1..]);
      }
    }
  }

  lemma SortedCons(h: real, r: seq<real>)
    requires Sorted(r) && forall y :: y in r ==> h <= y
    ensures Sorted([h] + r)
  {
    var s := [h] + r;
    forall x, y | 0 <= x <= y < |s| ensures s[x] <= s[y] {
      if x == 0 && y > 0 {
        assert s[y] == r[y - 1] && r[y - 1] in r;
      } else if x > 0 {
        assert s[x] == r[x - 1] && s[y] == r[y - 1];
      }
    }
  }

  lemma SortedTail(a: seq<real>)
    requires Sorted(a) && a != []
    ensures Sorted(a[1..]) && forall y :: y in a ==> a[0] <= y
  {
  }

  /** The merge of two sorted lists is sorted. */
  lemma {:induction false} MaxMergeSorted(a: seq<real>, b: seq<real>)
    requires Sorted(a) && Sorted(b)
    ensures Sorted(MaxMerge(a, b))
    decreases |a| + |b|
  {
    if a != [] && b != [] {
      SortedTail(a);
      SortedTail(b);
      if a[0] < b[0] {
        MaxMergeSorted(a[1..], b);
        MaxMergeMembers(a[1..], b);
        SortedCons(a[0], MaxMerge(a[1..], b));
      } else if b[0] < a[0] {
        MaxMergeSorted(a, b[1..]);
        MaxMergeMembers(a, b[1..]);
        SortedCons(b[0], MaxMerge(a, b[1..]));
      } else {
        MaxMergeSorted(a[1..], b[1..]);
        MaxMergeMembers(a[1..], b[1..]);
        assert forall y :: y in b[1..] ==> a[0] <= y;
        SortedCons(a[0], MaxMerge(a[1..], b[1..]));
      }
    }
  }

  /** How often `x` occurs in a list that starts with `h`. */
  lemma CountCons(h: real, r: seq<real>, x: real)
    ensures multiset([h] + r)[x] == (if h == x then 1 else 0) + multiset(r)[x]
  {
  }

  /** A head below every element of the other list occurs there not at all. */
  lemma HeadAbsent(h: real, b: seq<real>)
    requires Sorted(b) && b != [] && h < b[0]
    ensures multiset(b)[h] == 0
  {
    assert h !in b;
  }

  /**
   * The merge of two sorted lists holds each position as often as the list
   * that holds it more often: no more, so the union is as short as it can be.
   */
  lemma {:induction false} MaxMergeCount(a: seq<real>, b: seq<real>, x: real)
    requires Sorted(a) && Sorted(b)
    ensures multiset(MaxMerge(a, b))[x] == Max(multiset(a)[x], multiset(b)[x])
    decreases |a| + |b|
  {
    if a != [] && b != [] {
      SortedTail(a);
      SortedTail(b);
      assert a == [a[0]] + a[1..];
      assert b == [b[0]] + b[1..];
      CountCons(a[0], a[1..], x);
      CountCons(b[0], b[1..], x);
      if a[0] < b[0] {
        MaxMergeCount(a[1..], b, x);
        CountCons(a[0], MaxMerge(a[1..], b), x);
        assert MaxMerge(a, b) == [a[0]] + MaxMerge(a[1..], b);
        HeadAbsent(a[0], b);
      } else if b[0] < a[0] {
        MaxMergeCount(a, b[1..], x);
        CountCons(b[0], MaxMerge(a, b[1..]), x);
        assert MaxMerge(a, b) == [b[0]] + MaxMerge(a, b[1..]);
        HeadAbsent(b[0], a);
      } else {
        MaxMergeCount(a[1..], b[1..], x);
        CountCons(a[0], MaxMerge(a[1..], b[1..]), x);
        assert MaxMerge(a, b) == [a[0]] + MaxMerge(a[1..], b[1..]);
      }
    }
  }

  /** The union of a group of sorted members is sorted. */
  lemma {:induction false} UnionSorted(ts: seq<seq<Entry>>)
    requires forall u :: 0 <= u < |ts| ==> SortedTrace(ts[u])
    ensures Sorted(Union(ts))
    decreases |ts|
  {
    if ts != [] {
      UnionSorted(ts[..|ts| - 1]);
      MaxMergeSorted(Union(ts[..|ts| - 1]), Positions(ts[|ts| - 1]));
    }
  }

  /** The union holds each position at least as often as every member does. */
  lemma {:induction false} UnionCountAtLeast(ts: seq<seq<Entry>>, x: real, u: nat)
    requires forall w :: 0 <= w < |ts| ==> SortedTrace(ts[w])
    requires u < |ts|
    ensures multiset(Positions(ts[u]))[x] <= multiset(Union(ts))[x]
    decreases |ts|
  {
    var n := |ts| - 1;
    var pre := ts[..n];
    assert forall w :: 0 <= w < |pre| ==> pre[w] == ts[w];
    UnionSorted(pre);
    var c := multiset(Union(pre))[x];
    var d := multiset(Positions(ts[n]))[x];
    MaxMergeCount(Union(pre), Positions(ts[n]), x);
    var e := multiset(Union(ts))[x];
    assert e == Max(c, d);
    assert c <= e && d <= e;
    if u < n {
      assert forall w :: 0 <= w < |pre| ==> SortedTrace(pre[w]);
      UnionCountAtLeast(pre, x, u);
      assert multiset(Positions(pre[u]))[x] <= c;
    }
  }

  /** A position in the union occurs there exactly as often as in some member. */
  lemma {:induction false} UnionCountAttained(ts: seq<seq<Entry>>, x: real)
    requires forall w :: 0 <= w < |ts| ==> SortedTrace(ts[w])
    requires multiset(Union(ts))[x] != 0
    ensures exists u :: 0 <= u < |ts| && multiset(Positions(ts[u]))[x] == multiset(Union(ts))[x]
    decreases |ts|
  {
    var n := |ts| - 1;
    var pre := ts[..n];
    UnionSorted(pre);
    MaxMergeCount(Union(pre), Positions(ts[n]), x);
    if multiset(Union(ts))[x] != multiset(Positions(ts[n]))[x] {
      assert multiset(Union(ts))[x] == multiset(Union(pre))[x];
      UnionCountAttained(pre, x);
      var w :| 0 <= w < n && multiset(Positions(pre[w]))[x] == multiset(Union(pre))[x];
      assert pre[w] == ts[w];
    }
  }

  /**
   * The merge still to be done once `j` union positions and `m` member
   * positions are consumed: the consumed union prefix, then the merge of the
   * two remainders.
   */
  ghost function MergeTail(all: seq<real>, j: nat, p: seq<real>, m: nat): seq<real>
    requires j <= |all| && m <= |p|
  {
    all[..j] + MaxMerge(all[j..], p[m..])
  }

  lemma TailStart(all: seq<real>, p: seq<real>)
    ensures MergeTail(all, 0, p, 0) == MaxMerge(all, p)
  {
    assert all[0..] == all && p[0..] == p;
  }

  lemma TailEnd(all: seq<real>, j: nat, p: seq<real>)
    requires j <= |all|
    ensures MergeTail(all, j, p, |p|) == all
  {
    assert p[|p|..] == [];
    assert all[..j] + all[j..] == all;
  }

  /** A union position below the member's next one is passed over. */
  lemma TailSkip(all: seq<real>, j: nat, p: seq<real>, m: nat)
    requires j < |all| && m < |p| && all[j] < p[m]
    ensures MergeTail(all, j, p, m) == MergeTail(all, j + 1, p, m)
  {
    assert all[j..][1..] == all[j + 1..];
    assert all[..j + 1] == all[..j] + [all[j]];
  }

  /** A run of union positions all below the member's next one is passed over. */
  lemma {:induction false} TailSkipRun(all: seq<real>, j0: nat, j: nat, p: seq<real>, m: nat)
    requires j0 <= j <= |all| && m < |p|
    requires forall x :: j0 <= x < j ==> all[x] < p[m]
    ensures MergeTail(all, j0, p, m) == MergeTail(all, j, p, m)
    decreases j - j0
  {
    if j0 < j {
      TailSkip(all, j0, p, m);
      TailSkipRun(all, j0 + 1, j, p, m);
    }
  }

  /** A union position equal to the member's next one consumes both. */
  lemma TailMatch(all: seq<real>, j: nat, p: seq<real>, m: nat)
    requires j < |all| && m < |p| && all[j] == p[m]
    ensures MergeTail(all, j, p, m) == MergeTail(all, j + 1, p, m + 1)
  {
    assert all[j..][1..] == all[j + 1..];
    assert p[m..][1..] == p[m + 1..];
    assert all[..j + 1] == all[..j] + [all[j]];
  }

  /** A member position below the next union position is spliced into the union. */
  lemma TailInsert(all: seq<real>, j: nat, p: seq<real>, m: nat)
    requires j <= |all| && m < |p| && (j < |all| ==> p[m] < all[j])
    ensures MergeTail(all, j, p, m) == MergeTail(Insert(all, j, p[m]), j + 1, p, m + 1)
  {
    var r := Insert(all, j, p[m]);
    assert p[m..][1..] == p[m + 1..];
    assert r[..j + 1] == all[..j] + [p[m]];
    assert r[j + 1..] == all[j..];
  }

  /** Members at positions [1, 2, 3] and [1, 3] merge to [1, 2, 3]; [1] and [1, 1] to [1, 1]. */
  lemma UnionExample()
    ensures MaxMerge([1.0, 2.0, 3.0], [1.0, 3.0]) == [1.0, 2.0, 3.0]
    ensures MaxMerge([1.0], [1.0, 1.0]) == [1.0, 1.0]
  {
    assert [1.0, 2.0, 3.0][1..] == [2.0, 3.0];
    assert [2.0, 3.0][1..] == [3.0];
    assert [1.0, 3.0][1..] == [3.0];
    assert [3.0][1..] == [];
    assert [1.0, 1.0][1..] == [1.0];
    assert [1.0][1..] == [];
  }
}
