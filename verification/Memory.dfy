/** mem_repeat and mem_overlaps (src/c4/memory_util.cpp). */
module Memory {
  import opened Arith
  import Buffers

  type Byte = bv8

  // ---- mem_overlaps

  /** Addresses are numbers, a range starts at one and has a size. */
  predicate MemOverlaps(a: nat, b: nat, sza: nat, szb: nat) {
    if a < b then a + sza > b
    else if a > b then b + szb > a
    else sza != 0 && szb != 0
  }

  predicate Inside(k: nat, a: nat, sz: nat) { a <= k < a + sz }

  ghost predicate Share(a: nat, b: nat, sza: nat, szb: nat) {
    exists k: nat :: Inside(k, a, sza) && Inside(k, b, szb)
  }

  /** It tells whether two ranges share an address, except that an empty range strictly inside another
      is reported to overlap it. */
  lemma OverlapsExactly(a: nat, b: nat, sza: nat, szb: nat)
    ensures MemOverlaps(a, b, sza, szb) == Share(a, b, sza, szb) <==>
      !((szb == 0 && a < b < a + sza) || (sza == 0 && b < a < b + szb))
  {
    var k := if a < b then b else a;
    if MemOverlaps(a, b, sza, szb) && sza > 0 && szb > 0 {
      assert Inside(k, a, sza) && Inside(k, b, szb);
    }
  }

  // ---- mem_repeat

  /** The first n bytes repeat the pattern. */
  predicate Periodic(s: seq<Byte>, pattern: seq<Byte>, n: nat) {
    n <= |s| && forall i | 0 <= i < n :: |pattern| > 0 && s[i] == pattern[i % |pattern|]
  }

  lemma BlockAt(s: seq<Byte>, pattern: seq<Byte>, n: nat, a: nat, j: nat)
    requires Periodic(s, pattern, n) && a == |pattern| * j && a + |pattern| <= n
    ensures s[a..a + |pattern|] == pattern
  {
    forall k | 0 <= k < |pattern| ensures s[a + k] == pattern[k] {
      ModIs(a + k, |pattern|, j, k);
    }
  }

  /** So every block of the pattern's size is the pattern. */
  lemma PeriodicBlocks(s: seq<Byte>, pattern: seq<Byte>, times: nat, j: nat)
    requires Periodic(s, pattern, |pattern| * times) && j < times
    ensures var a := |pattern| * j; 0 <= a && a + |pattern| <= |s| && s[a..a + |pattern|] == pattern
  {
    var a := |pattern| * j;
    MulMonotone(|pattern|, 0, j);
    MulMonotone(|pattern|, j + 1, times);
    Spread(|pattern|, j, 1);
    BlockAt(s, pattern, |pattern| * times, a, j);
  }

  /** What was copied behind n periodic bytes goes on with the period. */
  lemma StaysPeriodic(s: seq<Byte>, pattern: seq<Byte>, n: nat, more: nat, m: nat)
    requires |pattern| > 0 && n == |pattern| * m && more <= n && n + more <= |s| && Periodic(s, pattern, n)
    requires forall i | n <= i < n + more :: s[i] == s[i - n]
    ensures Periodic(s, pattern, n + more)
  {
    forall i | n <= i < n + more ensures s[i] == pattern[i % |pattern|] {
      ModShift(i - n, |pattern|, m);
    }
  }

  /** One memcpy of the first `more` bytes behind the n periodic ones. */
  method Extend(d: array<Byte>, ghost pattern: seq<Byte>, n: nat, more: nat, ghost m: nat)
    requires |pattern| > 0 && n == |pattern| * m && more <= n && n + more <= d.Length && Periodic(d[..], pattern, n)
    modifies d
    ensures Periodic(d[..], pattern, n + more) && d[n + more..] == old(d[n + more..])
  {
    ghost var was := d[..];
    Buffers.MemCpy(d, n, 0, more);
    assert forall i | 0 <= i < n :: d[i] == was[i];
    assert forall i | n <= i < n + more :: d[i] == was[i - n];
    StaysPeriodic(d[..], pattern, n, more, m);
  }

  /** The first memcpy: the pattern once. */
  method CopyPattern(dest: array<Byte>, pattern: seq<Byte>)
    requires |pattern| <= dest.Length
    modifies dest
    ensures Periodic(dest[..], pattern, |pattern|) && dest[|pattern|..] == old(dest[|pattern|..])
  {
    forall k | 0 <= k < |pattern| {
      dest[k] := pattern[k];
    }
    forall i | 0 <= i < |pattern| ensures i % |pattern| == i {
      ModIs(i, |pattern|, 0, i);
    }
  }

  lemma Twice(p: nat, j: nat)
    ensures 2 * (p * Pow2(j)) == p * Pow2(j + 1)
  {
    Assoc(2, p, Pow2(j));
    Assoc(p, 2, Pow2(j));
  }

  /** The loop: doubles the periodic part while it stays below the end. */
  method Doubling(dest: array<Byte>, ghost pattern: seq<Byte>, p: nat, end: nat)
    returns (n: nat, copies: nat, ghost j: nat)
    requires p == |pattern| <= end <= dest.Length && Periodic(dest[..], pattern, p) && (p == 0 ==> end == 0)
    modifies dest
    ensures n == p * Pow2(j) && n <= end <= 2 * n && copies == 1 + j && (j > 0 ==> n < end)
    ensures Periodic(dest[..], pattern, n) && dest[end..] == old(dest[end..])
  {
    copies, n, j := 1, p, 0;
    while 2 * n < end
      invariant n == p * Pow2(j) && p <= n <= end && copies == 1 + j && (j > 0 ==> n < end)
      invariant Periodic(dest[..], pattern, n) && dest[end..] == old(dest[end..])
      decreases end - n
    {
      Extend(dest, pattern, n, n, Pow2(j));
      assert dest[end..] == dest[2 * n..][end - 2 * n..];
      copies := copies + 1;
      Twice(p, j);
      n := 2 * n;
      j := j + 1;
    }
  }

  /** Fills the buffer with copies of the pattern, doubling what is there; `copies` counts the calls of
      memcpy, whose ranges are disjoint and in bounds. */
  method MemRepeat(dest: array<Byte>, pattern: seq<Byte>, times: nat) returns (copies: nat)
    requires |pattern| * times <= dest.Length
    modifies dest
    ensures Periodic(dest[..], pattern, |pattern| * times)
    ensures dest[|pattern| * times..] == old(dest[|pattern| * times..])
    ensures times > 0 && pattern != [] ==> copies == 1 + CeilLog2(times)
    ensures times == 0 ==> copies == 0
  {
    copies := 0;
    if times == 0 {
      return;
    }
    var p, end := |pattern|, |pattern| * times;
    MulMonotone(p, 1, times);
    CopyPattern(dest, pattern);
    assert dest[end..] == dest[p..][end - p..];
    var n: nat;
    ghost var j: nat;
    n, copies, j := Doubling(dest, pattern, p, end);
    CountCopies(p, times, j);
    if n < end {
      Extend(dest, pattern, n, end - n, Pow2(j));
      copies := copies + 1;
    }
  }

  /** With j doublings done, the next would reach the end: their number is fixed. */
  lemma CountCopies(p: nat, times: nat, j: nat)
    requires times > 0
    requires p > 0 ==> 2 * (p * Pow2(j)) >= p * times && (j > 0 ==> p * Pow2(j) < p * times)
    ensures p > 0 ==> 1 + j + (if p * Pow2(j) < p * times then 1 else 0) == 1 + CeilLog2(times)
  {
    if p > 0 {
      Twice(p, j);
      MulMonotone(p, Pow2(j + 1), times);
      MulMonotone(p, times, Pow2(j));
      if Pow2(j) < times {
        MulMonotone(p, Pow2(j), times);
        LogBetween(times, j);
      }
    }
  }
}
