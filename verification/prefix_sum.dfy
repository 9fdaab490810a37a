/** The exclusive prefix sum the loader runs twice: once over the raw degrees to
    place the unfiltered neighbour buckets, once over the final degrees to build
    the CSR offsets. */
module PrefixSum {
  import opened Seqs

  /** Sum of a sequence, peeling the last element as the scan loop accumulates it. */
  function Sum(s: seq<nat>): nat {
    if |s| == 0 then 0 else Sum(s[..|s| - 1]) + s[|s| - 1]
  }

  /** `off` is the exclusive prefix sum of `d`: it starts at zero, each step
      adds one entry, and no entry exceeds the total. */
  predicate IsExclusiveScan(off: seq<nat>, d: seq<nat>) {
    && |off| == |d| + 1
    && off[0] == 0
    && (forall i :: 0 <= i < |d| ==> off[i + 1] == off[i] + d[i])
    && (forall i :: 0 <= i < |off| ==> off[i] <= off[|d|])
  }

  /** Sequential scan: `off[0] = 0`, `off[i + 1] = off[i] + d[i]`. */
  method ExclusiveScan(d: seq<nat>) returns (off: seq<nat>)
    ensures IsExclusiveScan(off, d)
    ensures forall i :: 0 <= i <= |d| ==> off[i] == Sum(d[..i])
  {
    var total := 0;
    off := [total];
    var i := 0;
    while i < |d|
      invariant 0 <= i <= |d|
      invariant |off| == i + 1
      invariant off[0] == 0
      invariant total == off[i]
      invariant forall k :: 0 <= k <= i ==> off[k] <= total
      invariant forall k :: 0 <= k < i ==> off[k + 1] == off[k] + d[k]
    {
      total := total + d[i];
      off := off + [total];
      i := i + 1;
    }
    forall k | 0 <= k <= |d|
      ensures off[k] == Sum(d[..k])
    {
      ScanIsPrefixSum(off, d, k);
    }
  }

  /** Every entry of a scan is the sum of the entries before it. */
  lemma {:induction false} ScanIsPrefixSum(off: seq<nat>, d: seq<nat>, k: nat)
    requires IsExclusiveScan(off, d)
    requires k <= |d|
    ensures off[k] == Sum(d[..k])
  {
    if k > 0 {
      assert IsExclusiveScan(off, d);
      ScanIsPrefixSum(off, d, k - 1);
      assert d[..k][..k - 1] == d[..k - 1];
    }
  }

  /** A scan ends at the total and never decreases. */
  lemma ScanMonotone(off: seq<nat>, d: seq<nat>)
    requires IsExclusiveScan(off, d)
    ensures off[|d|] == Sum(d)
    ensures forall a, b :: 0 <= a <= b <= |d| ==> off[a] <= off[b]
  {
    ScanIsPrefixSum(off, d, |d|);
    assert d[..|d|] == d;
    forall a, b | 0 <= a <= b <= |d|
      ensures off[a] <= off[b]
    {
      ScanStep(off, d, a, b);
    }
  }

  /** The offsets a scan produces cut its total into one slice per entry. */
  lemma ScanCuts(off: seq<nat>, d: seq<nat>)
    requires IsExclusiveScan(off, d)
    ensures Cuts(off, off[|d|])
  {
    ScanMonotone(off, d);
  }

  lemma {:induction false} ScanStep(off: seq<nat>, d: seq<nat>, a: nat, b: nat)
    requires IsExclusiveScan(off, d)
    requires a <= b <= |d|
    ensures off[a] <= off[b]
    decreases b - a
  {
    if a < b {
      ScanStep(off, d, a + 1, b);
    }
  }

  /** The scan of a sequence is unique. */
  lemma ScanUnique(off1: seq<nat>, off2: seq<nat>, d: seq<nat>)
    requires IsExclusiveScan(off1, d) && IsExclusiveScan(off2, d)
    ensures off1 == off2
  {
    forall k | 0 <= k <= |d|
      ensures off1[k] == off2[k]
    {
      ScanIsPrefixSum(off1, d, k);
      ScanIsPrefixSum(off2, d, k);
    }
  }

  /** Adding one at a single position adds one to the sum. */
  lemma {:induction false} SumIncrement(s: seq<nat>, k: nat)
    requires k < |s|
    ensures Sum(s[k := s[k] + 1]) == Sum(s) + 1
  {
    var t := s[k := s[k] + 1];
    if k < |s| - 1 {
      assert t[..|t| - 1] == s[..|s| - 1][k := s[k] + 1];
      SumIncrement(s[..|s| - 1], k);
    } else {
      assert t[..|t| - 1] == s[..|s| - 1];
    }
  }

  /** Two single increments, possibly at the same position, add two to the sum. */
  lemma SumTwoIncrements(s: seq<nat>, a: nat, b: nat)
    requires a < |s| && b < |s|
    ensures var mid := s[a := s[a] + 1]; Sum(mid[b := mid[b] + 1]) == Sum(s) + 2
  {
    SumIncrement(s, a);
    SumIncrement(s[a := s[a] + 1], b);
  }

  /** All-zero counters sum to zero. */
  lemma {:induction false} SumZeros(n: nat)
    ensures Sum(seq(n, _ => 0)) == 0
  {
    if n > 0 {
      assert seq(n, _ => 0)[..n - 1] == seq(n - 1, _ => 0);
      SumZeros(n - 1);
    }
  }

  /** Scanning entry-wise smaller counts gives entry-wise smaller offsets. */
  lemma {:induction false} ScanDominated(off1: seq<nat>, d1: seq<nat>, off2: seq<nat>, d2: seq<nat>, k: nat)
    requires IsExclusiveScan(off1, d1) && IsExclusiveScan(off2, d2)
    requires |d1| == |d2|
    requires forall i :: 0 <= i < |d1| ==> d1[i] <= d2[i]
    requires k <= |d1|
    ensures off1[k] <= off2[k]
  {
    if k > 0 {
      ScanDominated(off1, d1, off2, d2, k - 1);
    }
  }
}
