/** Per-vertex normalisation of a raw neighbour slice: sort, drop repeated
    values, drop the vertex itself. Each function mirrors the standard
    algorithm the loader applies to the slice in place. */
module Normalize {
  import opened Seqs

  /** Places `x` in front of the first element it does not exceed. */
  function Insert(x: nat, s: seq<nat>): (r: seq<nat>)
    requires Sorted(s)
    ensures Sorted(r)
    ensures multiset(r) == multiset(s) + multiset{x}
  {
    if |s| == 0 then [x]
    else if x <= s[0] then
      SortedCons(x, s);
      [x] + s
    else
      var rest := Insert(x, s[1..]);
      assert s == [s[0]] + s[1..];
      forall k | 0 <= k < |rest|
        ensures s[0] <= rest[k]
      {
        assert rest[k] in multiset(s[1..]) + multiset{x};
      }
      SortedCons(s[0], rest);
      [s[0]] + rest
  }

  /** The slice in ascending order (the effect of `std::sort`). */
  function Sort(s: seq<nat>): (r: seq<nat>)
    ensures Sorted(r)
    ensures multiset(r) == multiset(s)
  {
    if |s| == 0 then []
    else
      assert s == [s[0]] + s[1..];
      Insert(s[0], Sort(s[1..]))
  }

  /** Keeps the first element of every run of equal neighbours (the effect of
      `std::unique`); on a sorted slice the result is strictly ascending. */
  function Unique(s: seq<nat>): (r: seq<nat>)
    ensures Elems(r) == Elems(s)
    ensures |r| <= |s|
    ensures |s| > 0 ==> |r| > 0 && r[0] == s[0]
    ensures Sorted(s) ==> StrictlyAscending(r)
  {
    if |s| <= 1 then s
    else
      var rest := Unique(s[1..]);
      assert s == [s[0]] + s[1..];
      ElemsCons(s[0], s[1..]);
      if s[0] == s[1] then
        assert s[1] in Elems(s[1..]);
        rest
      else
        ElemsCons(s[0], rest);
        assert Sorted(s) ==> StrictlyAscending([s[0]] + rest) by {
          if Sorted(s) {
            assert forall y :: y in Elems(rest) ==> y in s[1..];
            StrictlyAscendingCons(s[0], rest);
          }
        }
        [s[0]] + rest
  }

  /** Drops every occurrence of `u`, keeping the order of the rest (the effect of `std::remove`). */
  function RemoveValue(s: seq<nat>, u: nat): (r: seq<nat>)
    ensures Elems(r) == Elems(s) - {u}
    ensures |r| <= |s|
    ensures StrictlyAscending(s) ==> StrictlyAscending(r)
  {
    if |s| == 0 then []
    else
      var rest := RemoveValue(s[1..], u);
      assert s == [s[0]] + s[1..];
      ElemsCons(s[0], s[1..]);
      if s[0] == u then rest
      else
        ElemsCons(s[0], rest);
        assert StrictlyAscending(s) ==> StrictlyAscending([s[0]] + rest) by {
          if StrictlyAscending(s) {
            assert forall y :: y in Elems(rest) ==> y in s[1..];
            StrictlyAscendingCons(s[0], rest);
          }
        }
        [s[0]] + rest
  }

  /** The kept prefix of vertex `u`'s slice: its distinct neighbours other than
      `u`, in ascending order, and never longer than the slice. */
  function NormalizeSlice(s: seq<nat>, u: nat): (r: seq<nat>)
    ensures StrictlyAscending(r)
    ensures u !in r
    ensures Elems(r) == Elems(s) - {u}
    ensures |r| <= |s|
  {
    var sorted := Sort(s);
    assert Elems(sorted) == Elems(s) by {
      assert forall x :: x in sorted <==> x in multiset(sorted);
      assert forall x :: x in s <==> x in multiset(s);
    }
    var r := RemoveValue(Unique(sorted), u);
    assert u !in Elems(r);
    r
  }

  /** The kept prefix depends only on which values the slice holds, how often,
      and not on where the bucket fill put them. */
  lemma NormalizeDependsOnlyOnMultiset(s1: seq<nat>, s2: seq<nat>, u: nat)
    requires multiset(s1) == multiset(s2)
    ensures NormalizeSlice(s1, u) == NormalizeSlice(s2, u)
  {
    assert Elems(s1) == Elems(s2) by {
      assert forall x :: x in s1 <==> x in multiset(s1);
      assert forall x :: x in s2 <==> x in multiset(s2);
    }
    StrictlyAscendingUnique(NormalizeSlice(s1, u), NormalizeSlice(s2, u));
  }
}
