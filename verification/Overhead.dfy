/** The cost of reading the cycle counter: the upper median of back-to-back reads. */
module Overhead {
  import opened Words

  const OVERHEAD_SAMPLES := 32

  predicate Sorted(s: seq<U32>) { forall i, j | 0 <= i < j < |s| :: s[i] <= s[j] }

  /** Element `i` of `s` moved down to position `j`. */
  function Moved(s: seq<U32>, i: nat, j: nat): (r: seq<U32>)
    requires j <= i < |s|
    ensures |r| == |s|
  {
    s[..j] + [s[i]] + s[j..i] + s[i + 1..]
  }

  lemma MovedIsPermutation(s: seq<U32>, i: nat, j: nat)
    requires j <= i < |s|
    ensures multiset(Moved(s, i, j)) == multiset(s)
  {
    assert s == s[..j] + s[j..i] + [s[i]] + s[i + 1..];
  }

  lemma MovedIsSorted(s: seq<U32>, i: nat, j: nat)
    requires j <= i < |s| && Sorted(s[..i])
    requires j > 0 ==> s[j - 1] <= s[i]
    requires forall k | j <= k < i :: s[i] < s[k]
    ensures Sorted(Moved(s, i, j)[..i + 1])
  {
    assert forall k, l | 0 <= k < l < i :: s[..i][k] <= s[..i][l];
    assert forall k, l | 0 <= k < l < i :: s[k] <= s[l];
  }

  /** Moves element `i` down to its place in the sorted run before it; no index is ever below zero. */
  method Insert(values: array<U32>, i: nat) returns (ghost j: nat)
    requires i < values.Length && Sorted(values[..i])
    modifies values
    ensures j <= i && values[..] == Moved(old(values[..]), i, j)
    ensures Sorted(values[..i + 1])
  {
    ghost var s := values[..];
    var key := values[i];
    var k := i;
    while k > 0 && values[k - 1] > key
      invariant 0 <= k <= i
      invariant forall l | 0 <= l <= k :: values[l] == s[l]
      invariant forall l | k < l <= i :: values[l] == s[l - 1]
      invariant forall l | i < l < values.Length :: values[l] == s[l]
      invariant forall l | k <= l < i :: key < s[l]
    {
      values[k] := values[k - 1];
      k := k - 1;
    }
    values[k] := key;
    j := k;
    assert values[..] == Moved(s, i, j);
    MovedIsSorted(s, i, j);
  }

  /** Insertion sort in place. */
  method SortU32(values: array<U32>)
    modifies values
    ensures Sorted(values[..])
    ensures multiset(values[..]) == old(multiset(values[..]))
  {
    var i := 1;
    while i < values.Length
      invariant 1 <= i && (values.Length < i ==> values.Length == 0)
      invariant i <= values.Length ==> Sorted(values[..i])
      invariant multiset(values[..]) == old(multiset(values[..]))
    {
      ghost var s := values[..];
      ghost var j := Insert(values, i);
      MovedIsPermutation(s, i, j);
      i := i + 1;
    }
    assert values[..] == values[..values.Length];
  }

  // ----- medians -----

  /** How many elements satisfy `p`. */
  function Count(p: U32 -> bool, s: seq<U32>): (n: nat)
    ensures n <= |s|
  {
    if s == [] then 0 else Count(p, s[..|s| - 1]) + if p(s[|s| - 1]) then 1 else 0
  }

  lemma {:induction false} CountAppends(p: U32 -> bool, s: seq<U32>, t: seq<U32>)
    ensures Count(p, s + t) == Count(p, s) + Count(p, t)
  {
    if t == [] {
      assert s + t == s;
    } else {
      CountAppends(p, s, t[..|t| - 1]);
      assert (s + t)[..|s + t| - 1] == s + t[..|t| - 1];
    }
  }

  lemma {:induction false} CountAll(p: U32 -> bool, s: seq<U32>)
    requires forall x | x in s :: p(x)
    ensures Count(p, s) == |s|
  {
    if s != [] { CountAll(p, s[..|s| - 1]); }
  }

  lemma Cancel(a: multiset<U32>, b: multiset<U32>, x: U32)
    requires a + multiset{x} == b + multiset{x}
    ensures a == b
  {
    forall y: U32 ensures a[y] == b[y] { assert (a + multiset{x})[y] == (b + multiset{x})[y]; }
  }

  lemma TakeOut(t: seq<U32>, x: U32) returns (k: nat)
    requires x in multiset(t)
    ensures k < |t| && t == t[..k] + [x] + t[k + 1..]
    ensures multiset(t) == multiset(t[..k] + t[k + 1..]) + multiset{x}
  {
    k :| 0 <= k < |t| && t[k] == x;
    assert t == t[..k] + [x] + t[k + 1..];
  }

  lemma {:induction false} CountIsOfMultiset(p: U32 -> bool, s: seq<U32>, t: seq<U32>)
    requires multiset(s) == multiset(t)
    ensures Count(p, s) == Count(p, t)
    decreases |s|
  {
    if s == [] {
      assert |t| == |multiset(t)| == |multiset(s)| == 0;
    } else {
      var front, x := s[..|s| - 1], s[|s| - 1];
      assert s == front + [x] && x in multiset(s);
      var k := TakeOut(t, x);
      Cancel(multiset(front), multiset(t[..k] + t[k + 1..]), x);
      CountIsOfMultiset(p, front, t[..k] + t[k + 1..]);
      CountAppends(p, t[..k], [x]);
      CountAppends(p, t[..k] + [x], t[k + 1..]);
      CountAppends(p, t[..k], t[k + 1..]);
    }
  }

  function AtMost(m: U32): U32 -> bool { x => x <= m }

  function AtLeast(m: U32): U32 -> bool { x => x >= m }

  /** `m` is the upper median of `samples`: more than half are at most `m`, at least half are at least `m`. */
  ghost predicate UpperMedian(samples: seq<U32>, m: U32)
  {
    && m in samples
    && Count(AtMost(m), samples) >= |samples| / 2 + 1
    && Count(AtLeast(m), samples) >= |samples| - |samples| / 2
  }

  lemma MiddleIsMedian(samples: seq<U32>, sorted: seq<U32>)
    requires multiset(samples) == multiset(sorted) && Sorted(sorted) && sorted != []
    ensures UpperMedian(samples, sorted[|sorted| / 2])
  {
    var h := |sorted| / 2;
    assert |samples| == |multiset(samples)| == |multiset(sorted)| == |sorted|;
    assert sorted[h] in multiset(sorted);
    LowerHalf(samples, sorted, h);
    UpperHalf(samples, sorted, h);
  }

  lemma LowerHalf(samples: seq<U32>, sorted: seq<U32>, h: nat)
    requires multiset(samples) == multiset(sorted) && Sorted(sorted) && h < |sorted|
    ensures Count(AtMost(sorted[h]), samples) >= h + 1
  {
    CountIsOfMultiset(AtMost(sorted[h]), samples, sorted);
    AtLeastCounted(AtMost(sorted[h]), sorted[..h + 1], sorted[h + 1..], sorted);
  }

  lemma UpperHalf(samples: seq<U32>, sorted: seq<U32>, h: nat)
    requires multiset(samples) == multiset(sorted) && Sorted(sorted) && h < |sorted|
    ensures Count(AtLeast(sorted[h]), samples) >= |sorted| - h
  {
    CountIsOfMultiset(AtLeast(sorted[h]), samples, sorted);
    AtLeastCounted(AtLeast(sorted[h]), sorted[h..], sorted[..h], sorted);
  }

  lemma AtLeastCounted(p: U32 -> bool, part: seq<U32>, rest: seq<U32>, s: seq<U32>)
    requires s == part + rest || s == rest + part
    requires forall x | x in part :: p(x)
    ensures Count(p, s) >= |part|
  {
    CountAll(p, part);
    CountAppends(p, part, rest);
    CountAppends(p, rest, part);
  }

  // ----- the cycle counter -----

  /** The 32-bit counter shows the true cycle count modulo 2^32; the difference of two reads wraps. */
  function Delta(clock: nat -> nat, read: nat): U32
  {
    (clock(read + 1) % TWO_32 - clock(read) % TWO_32) % TWO_32
  }

  /** Below 2^32 cycles the difference is the time that passed, whether or not the counter wrapped. */
  lemma DeltaIsElapsed(clock: nat -> nat, read: nat)
    requires clock(read) <= clock(read + 1) < clock(read) + TWO_32
    ensures Delta(clock, read) == clock(read + 1) - clock(read)
  {
  }

  /** The differences of `n` pairs of consecutive reads, the first being read number `first`. */
  function Deltas(clock: nat -> nat, first: nat, n: nat): (d: seq<U32>)
    ensures |d| == n
    ensures forall i | 0 <= i < n :: d[i] == Delta(clock, first + 2 * i)
  {
    seq(n, i requires 0 <= i => Delta(clock, first + 2 * i))
  }

  method MeasureOverhead(clock: nat -> nat) returns (overhead: U32)
    ensures UpperMedian(Deltas(clock, 0, OVERHEAD_SAMPLES), overhead)
  {
    var samples := new U32[OVERHEAD_SAMPLES](_ => 0);
    for i := 0 to OVERHEAD_SAMPLES
      invariant forall k | 0 <= k < i :: samples[k] == Delta(clock, 2 * k)
    {
      var start := clock(2 * i) % TWO_32;
      var end := clock(2 * i + 1) % TWO_32;
      samples[i] := (end - start) % TWO_32;
    }
    ghost var taken := Deltas(clock, 0, OVERHEAD_SAMPLES);
    assert samples[..] == taken;
    SortU32(samples);
    MiddleIsMedian(taken, samples[..]);
    overhead := samples[OVERHEAD_SAMPLES / 2];
  }
}
