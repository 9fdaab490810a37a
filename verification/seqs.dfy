/** Order predicates, element sets and in-place writes on sequences of vertex ids. */
module Seqs {

  /** Non-decreasing order. */
  predicate Sorted(s: seq<nat>) {
    forall i, j :: 0 <= i < j < |s| ==> s[i] <= s[j]
  }

  /** Ascending order without repetitions. */
  predicate StrictlyAscending(s: seq<nat>) {
    forall i, j :: 0 <= i < j < |s| ==> s[i] < s[j]
  }

  /** `off` cuts a sequence of length `len` into the consecutive slices
      `off[v]..off[v + 1]`. */
  predicate Cuts(off: seq<nat>, len: nat) {
    && |off| > 0
    && off[|off| - 1] == len
    && (forall a, b :: 0 <= a <= b < |off| ==> off[a] <= off[b])
    && (forall v :: 0 <= v < |off| ==> off[v] <= len)
  }

  /** The set of values a sequence holds. */
  function Elems(s: seq<nat>): set<nat> {
    set x | x in s
  }

  /** Prepending one value adds it to the element set. */
  lemma ElemsCons(x: nat, s: seq<nat>)
    ensures Elems([x] + s) == {x} + Elems(s)
  {
    assert forall y :: y in [x] + s <==> y == x || y in s;
  }

  /** Prepending a value no larger than every element keeps a sequence sorted. */
  lemma SortedCons(x: nat, s: seq<nat>)
    requires Sorted(s)
    requires forall k :: 0 <= k < |s| ==> x <= s[k]
    ensures Sorted([x] + s)
  {
  }

  /** Prepending a value smaller than every element keeps a sequence strictly ascending. */
  lemma StrictlyAscendingCons(x: nat, s: seq<nat>)
    requires StrictlyAscending(s)
    requires forall y :: y in Elems(s) ==> x < y
    ensures StrictlyAscending([x] + s)
  {
    assert forall k :: 0 <= k < |s| ==> s[k] in Elems(s);
  }

  /** The sequence `s` after `t` has been copied over it starting at position `lo`:
      the element-wise copy loops of the loader, as one value. */
  function Splice(s: seq<nat>, lo: nat, t: seq<nat>): (r: seq<nat>)
    requires lo + |t| <= |s|
    ensures |r| == |s|
    ensures r[lo..lo + |t|] == t
    ensures forall i :: 0 <= i < |s| && (i < lo || lo + |t| <= i) ==> r[i] == s[i]
  {
    s[..lo] + t + s[lo + |t|..]
  }

  /** A window that lies entirely outside the written range keeps its contents. */
  lemma SpliceFrame(s: seq<nat>, lo: nat, t: seq<nat>, a: nat, b: nat)
    requires lo + |t| <= |s|
    requires a <= b <= |s|
    requires b <= lo || lo + |t| <= a
    ensures Splice(s, lo, t)[a..b] == s[a..b]
  {
    var r := Splice(s, lo, t);
    assert forall k :: 0 <= k < b - a ==> r[a..b][k] == r[a + k] == s[a + k];
  }

  /** A strictly ascending sequence has as many distinct values as elements. */
  lemma {:induction false} StrictlyAscendingCard(s: seq<nat>)
    requires StrictlyAscending(s)
    ensures |Elems(s)| == |s|
  {
    if |s| > 0 {
      var init := s[..|s| - 1];
      assert StrictlyAscending(init);
      StrictlyAscendingCard(init);
      assert Elems(s) == Elems(init) + {s[|s| - 1]};
      assert s[|s| - 1] !in Elems(init);
    }
  }

  /** A strictly ascending sequence is fixed by its set of values. */
  lemma {:induction false} StrictlyAscendingUnique(a: seq<nat>, b: seq<nat>)
    requires StrictlyAscending(a) && StrictlyAscending(b)
    requires Elems(a) == Elems(b)
    ensures a == b
    decreases |a|
  {
    StrictlyAscendingCard(a);
    StrictlyAscendingCard(b);
    if |a| > 0 {
      assert a[0] in Elems(b);
      assert b[0] in Elems(a);
      assert a[0] == b[0];
      assert Elems(a[1..]) == Elems(a) - {a[0]} by {
        assert a == [a[0]] + a[1..];
        assert forall x :: x in a[1..] ==> x > a[0];
      }
      assert Elems(b[1..]) == Elems(b) - {b[0]} by {
        assert b == [b[0]] + b[1..];
        assert forall x :: x in b[1..] ==> x > b[0];
      }
      StrictlyAscendingUnique(a[1..], b[1..]);
      assert a == [a[0]] + a[1..];
      assert b == [b[0]] + b[1..];
    }
  }
}
