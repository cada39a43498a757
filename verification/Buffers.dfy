/** The block moves of the C library and of std::char_traits. */
module Buffers {
  const NUL: char := '\0'

  function Zeros(n: nat): string { seq(n, _ => NUL) }

  /** `traits_type::assign`: n zeros. */
  method Zero(d: array<char>, at: nat, n: nat)
    requires at + n <= d.Length
    modifies d
    ensures d[..] == old(d[..at]) + Zeros(n) + old(d[at + n..])
  {
    forall k | at <= k < at + n {
      d[k] := NUL;
    }
  }

  /** `traits_type::copy`: from memory that does not overlap the buffer. */
  method CopyIn(d: array<char>, at: nat, t: string)
    requires at + |t| <= d.Length
    modifies d
    ensures d[..] == old(d[..at]) + t + old(d[at + |t|..])
  {
    forall k | 0 <= k < |t| {
      d[at + k] := t[k];
    }
  }

  /** A copy followed by a terminator. */
  method Terminated(d: array<char>, at: nat, t: string)
    requires at + |t| < d.Length
    modifies d
    ensures d[..at + |t|] == old(d[..at]) + t && d[at + |t|] == NUL
    ensures forall k | at + |t| < k < d.Length :: d[k] == old(d[k])
  {
    CopyIn(d, at, t);
    d[at + |t|] := NUL;
  }

  /** memmove, `traits_type::move`: the ranges may overlap. */
  method Move<T>(d: array<T>, dst: nat, src: nat, n: nat)
    requires dst + n <= d.Length && src + n <= d.Length
    modifies d
    ensures d[..] == old(d[..dst]) + old(d[src..src + n]) + old(d[dst + n..])
  {
    forall k | 0 <= k < n {
      d[dst + k] := d[src + k];
    }
  }

  /** memcpy within one buffer: both ranges in bounds, and disjoint. */
  method MemCpy<T>(d: array<T>, dst: nat, src: nat, n: nat)
    requires dst + n <= d.Length && src + n <= d.Length && (src + n <= dst || dst + n <= src)
    modifies d
    ensures d[..] == old(d[..dst]) + old(d[src..src + n]) + old(d[dst + n..])
  {
    Move(d, dst, src, n);
  }
}
