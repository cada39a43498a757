/** The FNV-1a hash of src/c4/hash.hpp, section 2 of draft-eastlake-fnv. */
module Fnv {
  import opened Arith

  const TWO_32: nat := 0x1_0000_0000
  const TWO_64: nat := 0x1_0000_0000_0000_0000

  type Byte = b: nat | b < 256

  /** The template's parameters: how many states there are, the offset basis and the prime. */
  datatype Params = Params(states: nat, offset: nat, prime: nat)

  const FNV_32 := Params(TWO_32, 2166136261, 16777619)
  const FNV_64 := Params(TWO_64, 14695981039346656037, 1099511628211)

  /** Exclusive or of the low n bits; the bits above are those of a. */
  function Xor(a: nat, b: nat, n: nat): nat
    decreases n
  {
    if n == 0 then a else (a + b) % 2 + 2 * Xor(a / 2, b / 2, n - 1)
  }

  /** One byte. The source multiplies in `size_t`, which has 64 bits, and truncates to the state. */
  function Step(h: Params, acc: nat, b: Byte): nat
    requires h.states > 0
  {
    (Xor(acc, b, 8) * h.prime) % TWO_64 % h.states
  }

  function Update(h: Params, acc: nat, data: seq<Byte>): nat
    requires h.states > 0
    decreases |data|
  {
    if data == [] then acc else Update(h, Step(h, acc, data[0]), data[1..])
  }

  class Fnv1a {
    const h: Params
    var state: nat

    constructor (h: Params)
      ensures this.h == h && state == h.offset
    {
      this.h, state := h, h.offset;
    }

    method UpdateBy(data: seq<Byte>)
      requires h.states > 0
      modifies this
      ensures state == Update(h, old(state), data)
    {
      var acc := state;
      var i := 0;
      while i < |data|
        invariant 0 <= i <= |data| && Update(h, state, data) == Update(h, acc, data[i..])
      {
        assert data[i..][1..] == data[i + 1..];
        acc := Step(h, acc, data[i]);
        i := i + 1;
      }
      state := acc;
    }

    function Digest(): nat
      reads this
    {
      state
    }
  }

  /** `hash_bytes`, where `size_t` has 64 bits. */
  method HashBytes(data: seq<Byte>) returns (digest: nat)
    ensures digest == Update(FNV_64, FNV_64.offset, data)
    ensures data == [] ==> digest == 0xcbf29ce484222325
    ensures data == [0x61] ==> digest == 0xaf63dc4c8601ec8c
  {
    EmptyDigests();
    KnownDigests64();
    var fn := new Fnv1a(FNV_64);
    fn.UpdateBy(data);
    digest := fn.Digest();
  }

  // ---- known digests

  lemma StepIs(h: Params, acc: nat, b: Byte, y: nat, q: nat, next: nat)
    requires Sound(h) && next < h.states
    requires Xor(acc, b, 8) == y && y * h.prime == h.states * q + next
    ensures Step(h, acc, b) == next
  {
    StepIsModular(h, acc, b);
    ModIs(y * h.prime, h.states, q, next);
  }

  lemma XorAt(acc: nat, b: Byte, high: nat, low: Byte, x: nat, y: nat)
    requires acc == 256 * high + low && Xor(low, b, 8) == x && y == 256 * high + x
    ensures Xor(acc, b, 8) == y
  {
    assert Pow2(8) == 256;
    XorLow(high, low, b, 8);
  }

  /** The bits above those of the byte stay. */
  lemma {:induction false} XorLow(high: nat, low: nat, b: nat, n: nat)
    requires low < Pow2(n)
    ensures Xor(Pow2(n) * high + low, b, n) == Pow2(n) * high + Xor(low, b, n)
    decreases n
  {
    if n > 0 {
      var m := Pow2(n - 1) * high;
      Assoc(2, Pow2(n - 1), high);
      XorLow(high, low / 2, b / 2, n - 1);
      XorAbove(m, low, b, n);
    }
  }

  lemma Doubled(m: nat, low: nat, b: nat)
    ensures (2 * m + low) / 2 == m + low / 2 && (2 * m + low + b) % 2 == (low + b) % 2
  {
  }

  lemma XorAbove(m: nat, low: nat, b: nat, n: nat)
    requires n > 0 && Xor(m + low / 2, b / 2, n - 1) == m + Xor(low / 2, b / 2, n - 1)
    ensures Xor(2 * m + low, b, n) == 2 * m + Xor(low, b, n)
  {
    Doubled(m, low, b);
    assert Xor(2 * m + low, b, n) == (2 * m + low + b) % 2 + 2 * Xor((2 * m + low) / 2, b / 2, n - 1);
    assert Xor(low, b, n) == (low + b) % 2 + 2 * Xor(low / 2, b / 2, n - 1);
  }

  lemma LowByte64()
    ensures Xor(0x25, 0x61, 8) == 0x44
  {
    assert Xor(0, 0, 0) == 0;
    assert Xor(0, 0, 1) == 0;
    assert Xor(0, 1, 2) == 1;
    assert Xor(1, 3, 3) == 2;
    assert Xor(2, 6, 4) == 4;
    assert Xor(4, 12, 5) == 8;
    assert Xor(9, 24, 6) == 17;
    assert Xor(18, 48, 7) == 34;
    assert Xor(37, 97, 8) == 68;
  }

  lemma LowByte32()
    ensures Xor(0xc5, 0x61, 8) == 0xa4
  {
    assert Xor(0, 0, 0) == 0;
    assert Xor(1, 0, 1) == 1;
    assert Xor(3, 1, 2) == 2;
    assert Xor(6, 3, 3) == 5;
    assert Xor(12, 6, 4) == 10;
    assert Xor(24, 12, 5) == 20;
    assert Xor(49, 24, 6) == 41;
    assert Xor(98, 48, 7) == 82;
    assert Xor(197, 97, 8) == 164;
  }

  /** The hash of one byte, from numbers: the low byte of the state becomes x, and the rest stays. */
  lemma HashOfByte(h: Params, acc: nat, b: Byte, high: nat, low: Byte, x: nat, y: nat, q: nat, next: nat)
    requires Sound(h) && next < h.states
    requires acc == 256 * high + low && Xor(low, b, 8) == x && y == 256 * high + x
    requires y * h.prime == h.states * q + next
    ensures Update(h, acc, [b]) == next
  {
    XorAt(acc, b, high, low, x, y);
    StepIs(h, acc, b, y, q, next);
    UpdateOne(h, acc, b);
  }

  lemma UpdateOne(h: Params, acc: nat, b: Byte)
    requires h.states > 0
    ensures Update(h, acc, [b]) == Step(h, acc, b)
  {
    assert [b][1..] == [];
  }

  /** The published digests of the empty input ... */
  lemma EmptyDigests()
    ensures Update(FNV_64, FNV_64.offset, []) == 0xcbf29ce484222325
    ensures Update(FNV_32, FNV_32.offset, []) == 0x811c9dc5
  {
  }

  /** ... and of "a". */
  lemma KnownDigests64()
    ensures Update(FNV_64, FNV_64.offset, [0x61]) == 0xaf63dc4c8601ec8c
  {
    var high: nat, low: Byte, x: nat := 0xcbf29ce4842223, 0x25, 0x44;
    var y := 256 * high + x;
    LowByte64();
    BothAreSound();
    assert FNV_64.offset == 256 * high + low;
    assert y * FNV_64.prime == FNV_64.states * 0xcbf29ce5de + 0xaf63dc4c8601ec8c;
    HashOfByte(FNV_64, FNV_64.offset, 0x61, high, low, x, y, 0xcbf29ce5de, 0xaf63dc4c8601ec8c);
  }

  lemma KnownDigests32()
    ensures Update(FNV_32, FNV_32.offset, [0x61]) == 0xe40c292c
  {
    var high: nat, low: Byte, x: nat := 0x811c9d, 0xc5, 0xa4;
    var y := 256 * high + x;
    LowByte32();
    BothAreSound();
    assert FNV_32.offset == 256 * high + low;
    assert y * FNV_32.prime == FNV_32.states * 0x811d68 + 0xe40c292c;
    HashOfByte(FNV_32, FNV_32.offset, 0x61, high, low, x, y, 0x811d68, 0xe40c292c);
  }

  // ---- streaming

  /** Hashing in two parts is hashing the whole. */
  lemma {:induction false} Streaming(h: Params, acc: nat, a: seq<Byte>, b: seq<Byte>)
    requires h.states > 0
    ensures Update(h, Update(h, acc, a), b) == Update(h, acc, a + b)
    decreases |a|
  {
    if a == [] {
      assert a + b == b;
    } else {
      assert (a + b)[1..] == a[1..] + b;
      Streaming(h, Step(h, acc, a[0]), a[1..], b);
    }
  }

  // ---- exclusive or

  /** The lowest bit, and the others. */
  lemma XorBits(a: nat, b: nat, n: nat)
    requires n > 0
    ensures Xor(a, b, n) % 2 == (a + b) % 2 && Xor(a, b, n) / 2 == Xor(a / 2, b / 2, n - 1)
  {
  }

  lemma Parity(a: nat, b: nat, c: nat)
    ensures (a + b) % 2 == (a + c) % 2 <==> b % 2 == c % 2
    ensures c % 2 == (a + b) % 2 ==> (c + b) % 2 == a % 2
  {
  }

  lemma Halves(a: nat, b: nat)
    requires a % 2 == b % 2 && a / 2 == b / 2
    ensures a == b
  {
  }

  lemma {:induction false} XorTwice(a: nat, b: nat, n: nat)
    ensures Xor(Xor(a, b, n), b, n) == a
    decreases n
  {
    if n > 0 {
      var x := Xor(a, b, n);
      XorTwice(a / 2, b / 2, n - 1);
      XorBits(a, b, n);
      XorBits(x, b, n);
      Parity(a, b, x);
      Halves(Xor(x, b, n), a);
    }
  }

  /** The bits above stay: the result is below every multiple of 2^n that a is below. */
  lemma {:induction false} XorBelow(a: nat, b: nat, n: nat, k: nat)
    requires a < Pow2(n) * k
    ensures Xor(a, b, n) < Pow2(n) * k
    decreases n
  {
    if n > 0 {
      Assoc(2, Pow2(n - 1), k);
      XorBelow(a / 2, b / 2, n - 1, k);
    }
  }

  lemma {:induction false} XorApart(a: nat, b: nat, c: nat, n: nat)
    requires b < Pow2(n) && c < Pow2(n) && Xor(a, b, n) == Xor(a, c, n)
    ensures b == c
    decreases n
  {
    if n > 0 {
      XorBits(a, b, n);
      XorBits(a, c, n);
      XorApart(a / 2, b / 2, c / 2, n - 1);
      Parity(a, b, c);
      Halves(b, c);
    }
  }

  // ---- the primes are invertible

  /** Powers of two that a 64-bit word holds, modulo which the prime has an inverse. */
  ghost predicate Sound(h: Params) {
    (h.states == TWO_32 || h.states == TWO_64) && exists q: nat :: Inverse(h, q)
  }

  predicate Inverse(h: Params, q: nat)
    requires h.states > 0
  {
    (h.prime * q) % h.states == 1
  }

  lemma BothAreSound()
    ensures Sound(FNV_32) && Sound(FNV_64)
  {
    assert Inverse(FNV_32, 0x359c449b);
    assert Inverse(FNV_64, 0xce965057aff6957b);
  }

  /** A multiple of m that stays one after dividing by something invertible. */
  lemma Unmultiplied(d: int, p: int, q: int, m: int, k: int, c: int)
    requires d * p == m * k && p * q == 1 + m * c
    ensures d == m * (k * q - d * c)
  {
    Assoc(d, p, q);
    Assoc(m, k, q);
    Spread(d, 1, m * c);
    assert d * (m * c) == m * (d * c) by {
      Assoc(d, m, c);
      Assoc(m, d, c);
    }
    Spread(m, k * q, d * c);
  }

  /** Multiplying by a number that has an inverse keeps different residues different. */
  lemma MulApart(x: nat, y: nat, p: nat, q: nat, m: nat)
    requires m > 1 && (p * q) % m == 1 && x < m && y < m && (x * p) % m == (y * p) % m
    ensures x == y
  {
    var a, b, c := (x * p) / m, (y * p) / m, (p * q) / m;
    Divided(x * p, m);
    Divided(y * p, m);
    Divided(p * q, m);
    Spread(p, x, y);
    Spread(m, a, b);
    Unmultiplied(x - y, p, q, m, a - b, c);
    MulAtLeast(m, (a - b) * q - (x - y) * c);
  }

  /** Computing in 64 bits and then truncating is computing in the size of the state. */
  lemma StepIsModular(h: Params, acc: nat, b: Byte)
    requires Sound(h)
    ensures Step(h, acc, b) == (Xor(acc, b, 8) * h.prime) % h.states
  {
    ModOfMod(Xor(acc, b, 8) * h.prime, h.states, if h.states == TWO_32 then TWO_32 else 1, TWO_64);
  }

  lemma XorIsState(h: Params, acc: nat, b: Byte)
    requires Sound(h) && acc < h.states
    ensures Xor(acc, b, 8) < h.states
  {
    assert Pow2(8) == 256;
    XorBelow(acc, b, 8, h.states / 256);
  }

  /** A step can be undone: for the same byte, different states step to different states. */
  lemma StepInjective(h: Params, x: nat, y: nat, b: Byte)
    requires Sound(h) && x < h.states && y < h.states
    ensures Step(h, x, b) == Step(h, y, b) <==> x == y
  {
    if Step(h, x, b) == Step(h, y, b) {
      var q: nat :| Inverse(h, q);
      StepIsModular(h, x, b);
      StepIsModular(h, y, b);
      XorIsState(h, x, b);
      XorIsState(h, y, b);
      MulApart(Xor(x, b, 8), Xor(y, b, 8), h.prime, q, h.states);
      XorTwice(x, b, 8);
      XorTwice(y, b, 8);
    }
  }

  /** From the same state, different bytes step to different states. */
  lemma BytesStepApart(h: Params, acc: nat, b: Byte, c: Byte)
    requires Sound(h) && acc < h.states
    ensures Step(h, acc, b) == Step(h, acc, c) <==> b == c
  {
    if Step(h, acc, b) == Step(h, acc, c) {
      var q: nat :| Inverse(h, q);
      StepIsModular(h, acc, b);
      StepIsModular(h, acc, c);
      XorIsState(h, acc, b);
      XorIsState(h, acc, c);
      MulApart(Xor(acc, b, 8), Xor(acc, c, 8), h.prime, q, h.states);
      assert Pow2(8) == 256;
      XorApart(acc, b, c, 8);
    }
  }

  lemma {:induction false} UpdateStays(h: Params, acc: nat, data: seq<Byte>)
    requires h.states > 0 && acc < h.states
    ensures Update(h, acc, data) < h.states
    decreases |data|
  {
    if data != [] {
      UpdateStays(h, Step(h, acc, data[0]), data[1..]);
    }
  }

  /** Updating with the same bytes keeps different states different. */
  lemma {:induction false} UpdateInjective(h: Params, x: nat, y: nat, data: seq<Byte>)
    requires Sound(h) && x < h.states && y < h.states
    ensures Update(h, x, data) == Update(h, y, data) <==> x == y
    decreases |data|
  {
    if data != [] {
      StepInjective(h, x, y, data[0]);
      UpdateInjective(h, Step(h, x, data[0]), Step(h, y, data[0]), data[1..]);
    }
  }

  /** Inputs of the same length that differ in one byte never share a digest, whatever the state. */
  lemma OneByteChangesDigest(h: Params, acc: nat, data: seq<Byte>, i: nat, b: Byte)
    requires Sound(h) && acc < h.states && i < |data|
    ensures Update(h, acc, data) == Update(h, acc, data[i := b]) <==> data[i] == b
  {
    var x := Update(h, acc, data[..i]);
    UpdateStays(h, acc, data[..i]);
    BytesStepApart(h, x, data[i], b);
    UpdateInjective(h, Step(h, x, data[i]), Step(h, x, b), data[i + 1..]);
    CutAt(h, acc, data, i);
    CutAt(h, acc, data[i := b], i);
    assert data[i := b][..i] == data[..i] && data[i := b][i + 1..] == data[i + 1..];
  }

  lemma CutAt(h: Params, acc: nat, data: seq<Byte>, i: nat)
    requires h.states > 0 && i < |data|
    ensures Update(h, acc, data) == Update(h, Step(h, Update(h, acc, data[..i]), data[i]), data[i + 1..])
  {
    Streaming(h, acc, data[..i], data[i..]);
    assert data == data[..i] + data[i..];
    assert data[i..][1..] == data[i + 1..];
  }

  /** The digests of both hashes are sensitive to every single byte. */
  lemma DigestsAreSensitive(data: seq<Byte>, i: nat, b: Byte)
    requires i < |data| && data[i] != b
    ensures Update(FNV_32, FNV_32.offset, data) != Update(FNV_32, FNV_32.offset, data[i := b])
    ensures Update(FNV_64, FNV_64.offset, data) != Update(FNV_64, FNV_64.offset, data[i := b])
  {
    BothAreSound();
    OneByteChangesDigest(FNV_32, FNV_32.offset, data, i, b);
    OneByteChangesDigest(FNV_64, FNV_64.offset, data, i, b);
  }
}
