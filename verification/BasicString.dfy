/** basic_string (src/c4/string.hpp): a string with a short form inside the object and a long one on
    the heap, and the operations of `_str_crtp` that modify it in place. */
module BasicString {
  import opened Common
  import opened Buffers
  import opened StringSpec
  import opened StrExpr

  /** The characters of the short form, `sizeof(_long) - 1` where a size is eight bytes. */
  const ARR_SIZE: nat := 23

  /** The first n characters of the short form, which are bytes, read as a little-endian number. A
      character stands for its low byte. */
  function LittleEndian(a: seq<char>, n: nat): nat
    requires n <= |a|
  {
    if n == 0 then 0 else (a[0] as int) % 256 + 256 * LittleEndian(a[1..], n - 1)
  }

  /** A short string in memory: its flag byte, which holds twice its size, and its characters. */
  function ShortBytes(sz: nat, arr: seq<char>): seq<char>
    requires sz < ARR_SIZE
  {
    [(2 * sz) as char] + arr
  }

  /** Long and short form share memory: the size word of the long one is the first eight bytes of the
      short one. This is what the size reads when a short string is made long and only the flag bit is
      set. */
  function OverlaidSize(sz: nat, arr: seq<char>): nat
    requires |arr| == ARR_SIZE && sz < ARR_SIZE
  {
    var word := LittleEndian(ShortBytes(sz, arr), 8);
    var flagged := if word % 2 == 0 then word + 1 else word;
    flagged / 2
  }

  /** The bytes under the size word are all zero. */
  predicate ClearWord(arr: seq<char>)
    requires |arr| == ARR_SIZE
  {
    forall k | 0 <= k < 7 :: (arr[k] as int) % 256 == 0
  }

  lemma {:induction false} LittleEndianIsZero(a: seq<char>, n: nat)
    requires n <= |a|
    ensures LittleEndian(a, n) == 0 <==> forall k | 0 <= k < n :: (a[k] as int) % 256 == 0
    decreases n
  {
    if n > 0 {
      LittleEndianIsZero(a[1..], n - 1);
      if LittleEndian(a, n) == 0 {
        forall k | 0 <= k < n ensures (a[k] as int) % 256 == 0 {
          if k > 0 {
            assert a[1..][k - 1] == a[k];
          }
        }
      }
    }
  }

  lemma OverlaidSizeIs(sz: nat, arr: seq<char>)
    requires |arr| == ARR_SIZE && sz < ARR_SIZE
    ensures OverlaidSize(sz, arr) == sz + 128 * LittleEndian(arr, 7)
  {
    var bytes := ShortBytes(sz, arr);
    assert bytes[0] as int == 2 * sz && bytes[1..] == arr;
    assert LittleEndian(bytes, 8) == 2 * sz + 256 * LittleEndian(arr, 7);
  }

  /** Making a short string long keeps its size exactly when the bytes under the size word are all
      zero, as they are in a string that was never written to. Seven of them lie there, whatever the
      size is: clearing a string writes the first one only. */
  lemma GrowingShortKeepsSizeExactly(sz: nat, arr: seq<char>)
    requires |arr| == ARR_SIZE && sz < ARR_SIZE
    ensures OverlaidSize(sz, arr) == sz <==> ClearWord(arr)
  {
    OverlaidSizeIs(sz, arr);
    LittleEndianIsZero(arr, 7);
  }

  function Max(a: nat, b: nat): (m: nat)
    ensures m >= a && m >= b && (m == a || m == b)
  {
    if a > b then a else b
  }

  /** The end of `resize`: the characters past the old text are zeroed, the new end is terminated. */
  method EndAt(d: array<char>, prev: nat, n: nat)
    requires prev < d.Length && n < d.Length
    modifies d
    ensures d[..n] == Resized(old(d[..prev]), n) && d[n] == NUL
  {
    if n > prev {
      Zero(d, prev, n - prev);
    }
    d[n] := NUL;
  }

  // ---- the loops of pushr and pushl that skip separators

  method SkipSource(x: string, sep: char) returns (from: nat)
    ensures from <= |x| && x[from..] == DropL(x, sep)
  {
    from := 0;
    while from < |x| && x[from] == sep
      invariant from <= |x| && DropL(x, sep) == DropL(x[from..], sep)
    {
      from := from + 1;
    }
  }

  method SkipSourceBack(x: string, sep: char) returns (sz: nat)
    ensures sz <= |x| && x[..sz] == DropR(x, sep)
  {
    sz := |x|;
    assert x[..sz] == x;
    while sz > 0 && x[sz - 1] == sep
      invariant sz <= |x| && DropR(x, sep) == DropR(x[..sz], sep)
    {
      assert x[..sz][..sz - 1] == x[..sz - 1];
      sz := sz - 1;
    }
  }

  method SkipBack(d: array<char>, size: nat, sep: char) returns (start: nat)
    requires size <= d.Length
    ensures start <= size && d[..start] == DropR(d[..size], sep)
  {
    start := size;
    while start > 0 && d[start - 1] == sep
      invariant start <= size && DropR(d[..size], sep) == DropR(d[..start], sep)
    {
      assert d[..start][..start - 1] == d[..start - 1];
      start := start - 1;
    }
  }

  /** The skip of pushl reads on until a character that is no separator: one of the text, or the
      terminator if that is none. */
  predicate StopsInside(s: string, sep: char) { sep != NUL || s == "" || DropL(s, sep) != "" }

  lemma {:induction false} DropLIsEmpty(s: string, sep: char)
    ensures DropL(s, sep) == "" <==> forall k | 0 <= k < |s| :: s[k] == sep
    decreases |s|
  {
    if s != "" && s[0] == sep {
      DropLIsEmpty(s[1..], sep);
      assert forall k | 0 < k < |s| :: s[k] == s[1..][k - 1];
    }
  }

  /** It stops inside exactly when a character up to and including the terminator is no separator. */
  lemma SkipStopsExactly(d: string, size: nat, sep: char)
    requires 0 < size < |d| && d[size] == NUL
    ensures StopsInside(d[..size], sep) <==> exists k | 0 <= k <= size :: d[k] != sep
  {
    DropLIsEmpty(d[..size], sep);
    assert d[..size] != "" && forall k | 0 <= k < size :: d[..size][k] == d[k];
  }

  /** `inside` is false when the skip passes the terminator. */
  method SkipOn(d: array<char>, size: nat, sep: char) returns (skip: nat, inside: bool)
    requires size < d.Length && d[size] == NUL
    ensures inside == StopsInside(d[..size], sep)
    ensures inside ==> skip <= size && d[skip..size] == DropL(d[..size], sep)
  {
    skip, inside := 0, true;
    assert d[0..size] == d[..size];
    if size > 0 {
      while d[skip] == sep
        invariant skip <= size && DropL(d[..size], sep) == DropL(d[skip..size], sep)
        decreases size - skip
      {
        if skip == size {
          return skip, false;
        }
        assert d[skip..size][1..] == d[skip + 1..size];
        skip := skip + 1;
      }
    }
  }

  lemma PrefixOfPrefix(s: string, a: nat, n: nat)
    requires a <= n <= |s|
    ensures s[..n][..a] == s[..a]
  {
  }

  lemma SliceOfPrefix(s: string, a: nat, b: nat, n: nat)
    requires a <= b <= n <= |s|
    ensures s[..n][a..b] == s[a..b]
  {
  }

  /** The last steps of prepend: the text moves right and the other goes in front. */
  method PlaceBefore(d: array<char>, t: string, mysz: nat)
    requires |t| + mysz < d.Length
    modifies d
    ensures d[..|t| + mysz] == t + old(d[..mysz]) && d[|t| + mysz] == NUL
  {
    ghost var kept := d[..mysz];
    assert d[0..mysz] == kept;
    if mysz > 0 {
      MoveKept(d, |t|, 0, mysz);
    } else {
      d[|t|] := NUL;
    }
    ghost var rest := d[|t|..];
    PlaceFirst(d, t);
    LeftPlaced(d[..], t, rest, mysz);
    assert rest[..mysz] == kept;
  }

  method PlaceFirst(d: array<char>, t: string)
    requires |t| <= d.Length
    modifies d
    ensures d[..|t|] == t && d[|t|..] == old(d[|t|..])
  {
    CopyIn(d, 0, t);
  }

  /** The last steps of pushr, once the size is set: the slash, what is pushed, and the terminator. */
  method WriteAfterSlash(d: array<char>, start: nat, t: string)
    requires start + 1 + |t| < d.Length
    modifies d
    ensures d[..start + 1 + |t|] == old(d[..start]) + ['/'] + t && d[start + 1 + |t|] == NUL
  {
    d[start] := '/';
    assert d[..start + 1] == old(d[..start]) + ['/'];
    CopyIn(d, start + 1, t);
    d[start + 1 + |t|] := NUL;
  }

  method PlaceStart(d: array<char>, t: string, sep: char)
    requires |t| + 1 < d.Length
    modifies d
    ensures d[..|t| + 1] == t + [sep] && d[|t| + 1..] == old(d[|t| + 1..])
  {
    ghost var was := d[..];
    CopyIn(d, 0, t);
    StartPlaced(was, d[..], t, sep);
    d[|t|] := sep;
    assert d[..|t| + 1] == d[..][..|t| + 1] && d[|t| + 1..] == d[..][|t| + 1..];
  }

  lemma StartPlaced(was: string, copied: string, t: string, sep: char)
    requires |t| < |was| && copied == was[..0] + t + was[|t|..]
    ensures |copied| == |was|
    ensures copied[|t| := sep][..|t| + 1] == t + [sep] && copied[|t| := sep][|t| + 1..] == was[|t| + 1..]
  {
  }

  /** The last steps of pushl, once the size is set: the text kept goes to the end, the pushed one to
      the start, the separator between. */
  method PlaceLeft(d: array<char>, t: string, sep: char, myskip: nat, mysz: nat)
    requires |t| + 1 + mysz < d.Length && myskip <= |t| + 1
    modifies d
    ensures d[..|t| + 1 + mysz] == t + [sep] + old(d[myskip..myskip + mysz]) && d[|t| + 1 + mysz] == NUL
  {
    ghost var kept := d[myskip..myskip + mysz];
    MoveKept(d, |t| + 1, myskip, mysz);
    ghost var rest := d[|t| + 1..];
    PlaceStart(d, t, sep);
    LeftPlaced(d[..], t + [sep], rest, mysz);
    assert rest[..mysz] == kept;
  }

  /** The move of pushl and prepend, after the terminator is written behind where it goes. */
  method MoveKept(d: array<char>, dst: nat, src: nat, n: nat)
    requires dst + n < d.Length && src <= dst
    modifies d
    ensures d[dst..][..n] == old(d[src..src + n]) && d[dst..][n] == NUL
  {
    d[dst + n] := NUL;
    assert d[src..src + n] == old(d[src..src + n]);
    Move(d, dst, src, n);
    assert d[dst..][..n] == d[dst..dst + n];
  }

  lemma LeftPlaced(b: string, start: string, rest: string, n: nat)
    requires |start| + n < |b| && b[..|start|] == start && b[|start|..] == rest
    ensures b[..|start| + n] == start + rest[..n] && b[|start| + n] == rest[n]
  {
  }

  /** The inner loop of erase. */
  method Occurs(c: char, chars: string) returns (found: bool)
    ensures found <==> c in chars
  {
    var j := 0;
    while j < |chars| && c != chars[j]
      invariant 0 <= j <= |chars| && c !in chars[..j]
    {
      j := j + 1;
    }
    found := j < |chars|;
  }

  /** One step of the scan: the character at i is kept or removed in front of what was erased already. */
  lemma EraseStep(was: string, i: nat, chars: string)
    requires i < |was|
    ensures var before := was[..i + 1] + Erased(was[i + 1..], chars);
      && before[i] == was[i]
      && (was[i] in chars ==> before[..i] + before[i + 1..] == was[..i] + Erased(was[i..], chars))
      && (was[i] !in chars ==> before == was[..i] + Erased(was[i..], chars))
  {
    assert was[i..][1..] == was[i + 1..];
    var e := Erased(was[i + 1..], chars);
    var before := was[..i + 1] + e;
    assert before[..i] == was[..i] && before[i + 1..] == e;
    assert was[..i + 1] == was[..i] + [was[i]];
  }

  class Str {
    /** `size_t(1.618f * float(size))`, whatever it rounds to. */
    const factor: nat -> nat
    const arr: array<char>
    var isLong: bool
    var size: nat
    var str: array?<char>

    ghost function Repr(): set<object>
      reads this
    {
      if str != null then {this, arr, str} else {this, arr}
    }

    function Data(): array<char>
      reads this
    {
      if isLong && str != null then str else arr
    }

    function Capacity(): nat
      reads this
    {
      Data().Length
    }

    ghost predicate Formed()
      reads this
    {
      && arr.Length == ARR_SIZE
      && (isLong <==> str != null) && (str != null ==> str != arr && str.Length > ARR_SIZE)
    }

    /** The size is below the capacity, and the character at the size is the terminator. */
    ghost predicate Valid()
      reads this, arr, str
    {
      Formed() && size < Capacity() && Data()[size] == NUL
    }

    ghost function Contents(): string
      reads this, arr, str
      requires size <= Capacity()
    {
      Data()[..size]
    }

    constructor (factor: nat -> nat)
      ensures Valid() && Contents() == "" && fresh(Repr()) && !isLong && this.factor == factor
      ensures forall k | 0 <= k < ARR_SIZE :: arr[k] == NUL
    {
      this.factor := factor;
      arr := new char[ARR_SIZE](_ => NUL);
      isLong, size, str := false, 0, null;
    }

    // ---- the buffer

    /** `_resizebuf` to a capacity beyond the short form: the text moves to a new buffer. The size of a
        string that was short is then whatever the shared memory reads, until it is set. */
    method ResizeBuf(cap: nat)
      requires Formed() && size < Capacity() && size < cap && cap > ARR_SIZE
      modifies this
      ensures Formed() && isLong && fresh(str) && str.Length == cap
      ensures str[..old(size)] == old(Contents())
      ensures !old(isLong) || old(size) > 0 ==> str[old(size)] == NUL
      ensures size == if old(isLong) then old(size) else OverlaidSize(old(size), arr[..])
    {
      var tmp := new char[cap];
      if isLong {
        if size > 0 {
          CopyIn(tmp, 0, str[..size]);
          tmp[size] := NUL;
        }
      } else {
        CopyIn(tmp, 0, arr[..size]);
        tmp[size] := NUL;
        size := OverlaidSize(size, arr[..]);
      }
      str := tmp;
      isLong := true;
    }

    /** The capacity `reserve(cap)` asks for. */
    function Wanted(cap: nat): nat
      reads this
    {
      Max(cap, factor(size))
    }

    /** When `reserve(cap)` leaves the size as it is ... */
    predicate KeepsSize(cap: nat)
      reads this, arr
      requires arr.Length == ARR_SIZE
    {
      Wanted(cap) <= Capacity() || isLong || ClearWord(arr[..])
    }

    /** ... and the string as it is, for a long string that is reallocated without a character gets no
        terminator. */
    predicate Survives(cap: nat)
      reads this, arr
      requires arr.Length == ARR_SIZE
    {
      KeepsSize(cap) && (Wanted(cap) > Capacity() && isLong ==> size > 0)
    }

    /** Keeps the text in the buffer. */
    method Reserve(cap: nat)
      requires Formed() && size < Capacity()
      modifies this
      ensures Formed() && Capacity() == Max(old(Capacity()), old(Wanted(cap)))
      ensures Capacity() >= cap && Capacity() >= factor(old(size))
      ensures old(Wanted(cap)) <= old(Capacity()) ==> unchanged(this)
      ensures old(Wanted(cap)) > old(Capacity()) ==>
        && isLong && fresh(str) && Data()[..old(size)] == old(Contents())
        && (!old(isLong) || old(size) > 0 ==> Data()[old(size)] == NUL)
        && size == if old(isLong) then old(size) else OverlaidSize(old(size), arr[..])
      ensures size == old(size) <==> old(KeepsSize(cap))
      ensures old(Valid() && Survives(cap)) ==> Valid() && Contents() == old(Contents())
      ensures !old(Survives(cap)) ==> size != old(size) || (old(isLong) && size == 0 && fresh(str))
    {
      if !isLong {
        GrowingShortKeepsSizeExactly(size, arr[..]);
      }
      var next := factor(size);
      var c := if cap > next then cap else next;
      if c > Capacity() {
        ResizeBuf(c);
      }
    }

    method Resize(n: nat)
      requires Formed() && size < Capacity()
      modifies Repr()
      ensures Valid() && fresh(Repr() - old(Repr())) && Contents() == Resized(old(Contents()), n)
      ensures size == n && forall k | 0 <= k < n :: Contents()[k] == if k < old(size) then old(Contents())[k] else NUL
      ensures Capacity() == Max(old(Capacity()), old(Wanted(n + 1)))
      ensures isLong == (old(isLong) || old(Wanted(n + 1)) > old(Capacity()))
    {
      var prev := size;
      ghost var was := Contents();
      Reserve(n + 1);
      assert Data()[..prev] == was;
      size := n;
      EndAt(Data(), prev, n);
    }

    // ---- assigning

    method Assign(t: string)
      requires Valid()
      modifies Repr()
      ensures Valid() && fresh(Repr() - old(Repr())) && Contents() == t
      ensures isLong == (old(isLong) || old(Wanted(|t| + 1)) > old(Capacity()))
    {
      Resize(|t|);
      CopyIn(Data(), 0, t);
      Data()[|t|] := NUL;
    }

    method CopyAssign(that: Str)
      requires Valid() && that.Valid() && (that != this ==> Repr() !! that.Repr())
      modifies Repr()
      ensures Valid() && fresh(Repr() - old(Repr())) && that.Valid()
      ensures Contents() == that.Contents() == old(that.Contents())
    {
      if that == this {
        return;
      }
      Resize(that.size);
      CopyIn(Data(), 0, that.Data()[..that.size]);
      assert Data()[size] == NUL;
    }

    /** Steals a long buffer; copies a short text into whatever buffer this string has. */
    method MoveAssign(that: Str)
      requires Valid() && that.Valid() && (that != this ==> Repr() !! that.Repr())
      modifies Repr(), that.Repr()
      ensures Valid() && that.Valid() && fresh(Repr() - old(Repr()) - old(that.Repr()))
      ensures Contents() == old(that.Contents())
      ensures that != this ==> that.Contents() == "" && Repr() !! that.Repr()
      ensures isLong == (old(isLong) || old(that.isLong))
    {
      if that == this {
        return;
      }
      if that.isLong {
        isLong, size, str := true, that.size, that.str;
        that.isLong, that.size, that.str := false, 0, null;
        forall k | 0 <= k < ARR_SIZE {
          that.arr[k] := NUL;
        }
      } else {
        size := that.size;
        CopyIn(Data(), 0, that.arr[..size]);
        Data()[size] := NUL;
        that.size := 0;
        that.arr[0] := NUL;
      }
    }

    method PushBack(c: char)
      requires Valid()
      modifies Repr()
      ensures Valid() && fresh(Repr() - old(Repr())) && Contents() == old(Contents()) + [c]
    {
      var sz := size;
      ghost var was := Contents();
      Reserve(sz + 1 + 1);
      assert Data()[..sz] == was;
      size := sz + 1;
      Data()[size] := NUL;
      Data()[sz] := c;
      assert Data()[..sz + 1] == was + [c];
    }

    method Clear()
      requires Valid()
      modifies Repr()
      ensures Valid() && Repr() == old(Repr()) && Contents() == "" && isLong == old(isLong)
      ensures Data()[..] == old(Data()[..])[0 := NUL]
    {
      size := 0;
      Data()[0] := NUL;
    }

    method ShrinkToFit()
      requires Valid()
      modifies Repr()
      ensures Valid() && fresh(Repr() - old(Repr())) && Contents() == old(Contents())
      ensures isLong <==> old(isLong) && size >= ARR_SIZE
      ensures old(isLong) && isLong ==> Capacity() == size + 1
    {
      if !isLong {
        return;
      }
      if size < ARR_SIZE {
        var saved := str[..size];
        // what is left of the long size word
        forall k | 0 <= k < 7 {
          arr[k] := NUL;
        }
        CopyIn(arr, 0, saved);
        arr[size] := NUL;
        isLong, str := false, null;
        assert arr[..size] == saved;
      } else if str.Length > size + 1 {
        ResizeBuf(size + 1);
      }
    }

    // ---- the modifying operations of `_str_crtp`

    method Append(t: string)
      requires Valid()
      modifies Repr()
      ensures Valid() && fresh(Repr() - old(Repr())) && Contents() == old(Contents()) + t
    {
      var start := size;
      ghost var was := Contents();
      Resize(start + |t|);
      CopyIn(Data(), start, t);
      Data()[size] := NUL;
      assert Data()[..size] == was + t;
    }

    method Prepend(t: string)
      requires Valid()
      modifies Repr()
      ensures Valid() && fresh(Repr() - old(Repr())) && Contents() == t + old(Contents())
    {
      var mysz := size;
      ghost var was := Contents();
      Resize(mysz + |t|);
      assert Data()[..mysz] == was;
      PlaceBefore(Data(), t, mysz);
    }

    method PushR(x: string, sep: char)
      requires Valid()
      modifies Repr()
      ensures Valid() && fresh(Repr() - old(Repr())) && Contents() == PushedR(old(Contents()), x, sep)
      ensures forall i, j | EndsAt(old(Contents()), sep, i) && StartsAt(x, sep, j) ::
        Contents() == old(Contents())[..i] + ['/'] + x[j..]
    {
      forall i, j | EndsAt(Contents(), sep, i) && StartsAt(x, sep, j) {
        PushedRIs(Contents(), x, sep, i, j);
      }
      var from := SkipSource(x, sep);
      var start := SkipBack(Data(), size, sep);
      PrefixOfPrefix(Data()[..], start, size);
      PushRSkipped(start, x[from..]);
    }

    method PushRSkipped(start: nat, t: string)
      requires Valid() && start <= size
      modifies Repr()
      ensures Valid() && fresh(Repr() - old(Repr())) && Contents() == old(Contents()[..start]) + ['/'] + t
    {
      ghost var was := Contents();
      Resize(start + 1 + |t|);
      assert Contents()[..start] == was[..start];
      PrefixOfPrefix(Data()[..], start, size);
      WriteAfterSlash(Data(), start, t);
    }

    /** `inside` is false when the skip over leading separators passes the terminator; nothing was
        written then. */
    method PushL(x: string, sep: char) returns (inside: bool)
      requires Valid()
      modifies Repr()
      ensures inside == StopsInside(old(Contents()), sep)
      ensures Valid() && fresh(Repr() - old(Repr()))
      ensures Contents() == if inside then PushedL(old(Contents()), x, sep) else old(Contents())
      ensures sep != NUL || old(size) == 0 ==> inside
      ensures forall i, j | inside && EndsAt(x, sep, i) && StartsAt(old(Contents()), sep, j) ::
        Contents() == x[..i] + [sep] + old(Contents())[j..]
    {
      forall i, j | EndsAt(x, sep, i) && StartsAt(Contents(), sep, j) {
        PushedLIs(Contents(), x, sep, i, j);
      }
      var sz := SkipSourceBack(x, sep);
      var myskip;
      myskip, inside := SkipOn(Data(), size, sep);
      if !inside {
        return;
      }
      assert Contents()[myskip..] == DropL(Contents(), sep);
      PushLSkipped(x[..sz], sep, myskip);
    }

    method PushLSkipped(t: string, sep: char, myskip: nat)
      requires Valid() && myskip <= size
      modifies Repr()
      ensures Valid() && fresh(Repr() - old(Repr())) && Contents() == t + [sep] + old(Contents()[myskip..])
    {
      var mysz := size - myskip;
      var skip := FitLeft(|t| + 1 + mysz, myskip, mysz);
      SliceOfPrefix(Data()[..], skip, skip + mysz, size);
      PlaceLeft(Data(), t, sep, skip, mysz);
    }

    /** Sets the size, once the text to keep has been moved out of the way of a shrinking resize. */
    method FitLeft(nextdim: nat, myskip: nat, mysz: nat) returns (skip: nat)
      requires Valid() && myskip + mysz == size && mysz < nextdim
      modifies Repr()
      ensures Valid() && fresh(Repr() - old(Repr())) && size == nextdim && skip + mysz <= size
      ensures Contents()[skip..skip + mysz] == old(Contents()[myskip..])
    {
      skip := myskip;
      ghost var kept := Contents()[myskip..];
      SliceOfPrefix(Data()[..], myskip, size, size);
      if size >= nextdim {
        Move(Data(), 0, myskip, mysz);
        skip := 0;
      }
      assert Data()[skip..skip + mysz] == kept;
      SliceOfPrefix(Data()[..], skip, skip + mysz, size);
      ghost var moved := Contents();
      Resize(nextdim);
      assert Contents()[skip..skip + mysz] == moved[skip..skip + mysz];
    }

    /** Scans backwards; each character found is removed by moving what follows, terminator included. */
    method Erase(chars: string)
      requires Valid()
      modifies Repr()
      ensures Valid() && fresh(Repr() - old(Repr())) && Contents() == Erased(old(Contents()), chars)
    {
      ghost var was := Contents();
      var i := size - 1;
      assert was[..i + 1] == was;
      while i != NPOS
        invariant -1 <= i < |was| && i < size && Valid() && fresh(Repr() - old(Repr()))
        invariant Contents() == was[..i + 1] + Erased(was[i + 1..], chars)
        decreases i + 1
      {
        EraseAt(was, i, chars);
        if size == 0 {
          return;
        }
        i := i - 1;
      }
    }

    /** One step of the scan. */
    method EraseAt(ghost was: string, i: nat, chars: string)
      requires Valid() && i < |was| && Contents() == was[..i + 1] + Erased(was[i + 1..], chars)
      modifies Repr()
      ensures Valid() && fresh(Repr() - old(Repr())) && Contents() == was[..i] + Erased(was[i..], chars)
    {
      EraseStep(was, i, chars);
      assert Contents()[i] == was[i];
      var found := Occurs(Data()[i], chars);
      if found {
        RemoveAt(i);
      }
    }

    method RemoveAt(i: nat)
      requires Valid() && i < size
      modifies Repr()
      ensures Valid() && fresh(Repr() - old(Repr()))
      ensures Contents() == old(Contents()[..i]) + old(Contents()[i + 1..])
    {
      ghost var was := Contents();
      Move(Data(), i, i + 1, size - i);
      assert Data()[..size - 1] == was[..i] + was[i + 1..];
      Resize(size - 1);
    }

    method AssignExpr(e: Expr)
      requires Valid()
      modifies Repr()
      ensures Valid() && fresh(Repr() - old(Repr())) && Contents() == e.Text()
    {
      Resize(e.Size());
      var out := e.Put(Data(), 0);
      assert out == e.Size() && Data()[..size] == e.Text();
      Data()[size] := NUL;
    }
  }

  /** The short form holds 22 characters and the terminator. */
  method AssignNew(factor: nat -> nat, t: string) returns (s: Str)
    requires factor(0) <= 23
    ensures s.Valid() && fresh(s.Repr()) && s.Contents() == t
    ensures s.isLong <==> |t| > 22
    ensures !s.isLong ==> s.Capacity() == 23
  {
    s := new Str(factor);
    s.Assign(t);
  }

  // ---- concatenation without expression templates

  /** A new string that reserves room for n characters. Its short form was never written to, so it
      stays empty. */
  method NewReserved(factor: nat -> nat, n: nat) returns (s: Str)
    ensures s.Valid() && fresh(s.Repr()) && s.Contents() == ""
  {
    s := new Str(factor);
    s.Reserve(n);
  }

  /** operator+ and operator/ build their result at once: a new string with room for both sides, the
      left side appended, the right side appended or pushed. */
  method PlusOf(factor: nat -> nat, lhs: string, rhs: string) returns (s: Str)
    ensures s.Valid() && fresh(s.Repr()) && s.Contents() == lhs + rhs
  {
    s := NewReserved(factor, |lhs| + |rhs|);
    s.Append(lhs);
    s.Append(rhs);
    assert "" + lhs == lhs;
  }

  method SlashOf(factor: nat -> nat, lhs: string, rhs: string) returns (s: Str)
    ensures s.Valid() && fresh(s.Repr()) && s.Contents() == PushedR(lhs, rhs, '/')
  {
    s := NewReserved(factor, |lhs| + 1 + |rhs|);
    s.Append(lhs);
    assert "" + lhs == lhs;
    s.PushR(rhs, '/');
  }

  method Evaluate(factor: nat -> nat, e: Expr) returns (s: Str)
    ensures s.Valid() && fresh(s.Repr()) && s.Contents() == e.Greedy()
    decreases e
  {
    match e {
      case Wrap(text) =>
        s := new Str(factor);
        s.Assign(text);
      case Plus(l, r) =>
        var a := Evaluate(factor, l);
        var lhs := a.Data()[..a.size];
        var b := Evaluate(factor, r);
        s := PlusOf(factor, lhs, b.Data()[..b.size]);
      case Slash(l, r) =>
        var a := Evaluate(factor, l);
        var lhs := a.Data()[..a.size];
        var b := Evaluate(factor, r);
        s := SlashOf(factor, lhs, b.Data()[..b.size]);
    }
  }

  /** Assigning the lazy expression and building it eagerly give the same string exactly when the
      expression is clean. */
  method AssignBothWays(factor: nat -> nat, e: Expr) returns (lazy: Str, eager: Str)
    ensures lazy.Valid() && eager.Valid() && fresh(lazy.Repr()) && fresh(eager.Repr())
    ensures lazy.Contents() == e.Text() && (lazy.Contents() == eager.Contents() <==> e.Clean())
  {
    lazy := new Str(factor);
    lazy.AssignExpr(e);
    eager := Evaluate(factor, e);
    LazyIsGreedyExactly(e);
  }

  // ---- runs

  /** The calls a client makes on one string. The last two assign from another string that holds t. */
  datatype Op =
    | Reserve(cap: nat)
    | Assign(t: string)
    | Resize(n: nat)
    | PushBack(c: char)
    | Clear
    | ShrinkToFit
    | Append(t: string)
    | Prepend(t: string)
    | PushR(t: string, sep: char)
    | PushL(t: string, sep: char)
    | Erase(t: string)
    | AssignExpr(e: Expr)
    | CopyFrom(t: string)
    | MoveFrom(t: string)

  /** The same call on a plain sequence. */
  function Replayed(s: string, op: Op): string {
    match op
    case Reserve(_) => s
    case Assign(t) => t
    case Resize(n) => Resized(s, n)
    case PushBack(c) => s + [c]
    case Clear => ""
    case ShrinkToFit => s
    case Append(t) => s + t
    case Prepend(t) => t + s
    case PushR(t, sep) => PushedR(s, t, sep)
    case PushL(t, sep) => PushedL(s, t, sep)
    case Erase(t) => Erased(s, t)
    case AssignExpr(e) => e.Text()
    case CopyFrom(t) => t
    case MoveFrom(t) => t
  }

  function Replay(s: string, ops: seq<Op>): string {
    if ops == [] then s else Replayed(Replay(s, ops[..|ops| - 1]), ops[|ops| - 1])
  }

  /** What two of the calls need: `reserve` that the text survives it, `pushl` that its skip stops. */
  predicate Allows(s: Str, op: Op)
    reads s, s.arr, s.str
    requires s.arr.Length == ARR_SIZE && s.size <= s.Capacity()
  {
    match op
    case Reserve(cap) => s.Survives(cap)
    case PushL(_, sep) => StopsInside(s.Data()[..s.size], sep)
    case _ => true
  }

  method Call(s: Str, op: Op)
    requires s.Valid() && Allows(s, op)
    modifies s.Repr()
    ensures s.Valid() && fresh(s.Repr() - old(s.Repr())) && s.Contents() == Replayed(old(s.Contents()), op)
  {
    match op {
      case Reserve(cap) => s.Reserve(cap);
      case Assign(t) => s.Assign(t);
      case Resize(n) => s.Resize(n);
      case PushBack(c) => s.PushBack(c);
      case Clear => s.Clear();
      case ShrinkToFit => s.ShrinkToFit();
      case CopyFrom(t) => AssignFrom(s, t, false);
      case MoveFrom(t) => AssignFrom(s, t, true);
      case _ => CallInherited(s, op);
    }
  }

  method AssignFrom(s: Str, t: string, moved: bool)
    requires s.Valid()
    modifies s.Repr()
    ensures s.Valid() && fresh(s.Repr() - old(s.Repr())) && s.Contents() == t
  {
    var that := new Str(s.factor);
    that.Assign(t);
    if moved {
      s.MoveAssign(that);
    } else {
      s.CopyAssign(that);
    }
  }

  /** The operations inherited from `_str_crtp`. */
  method CallInherited(s: Str, op: Op)
    requires s.Valid() && Allows(s, op)
    requires op.Append? || op.Prepend? || op.PushR? || op.PushL? || op.Erase? || op.AssignExpr?
    modifies s.Repr()
    ensures s.Valid() && fresh(s.Repr() - old(s.Repr())) && s.Contents() == Replayed(old(s.Contents()), op)
  {
    match op {
      case Append(t) => s.Append(t);
      case Prepend(t) => s.Prepend(t);
      case PushR(t, sep) => s.PushR(t, sep);
      case PushL(t, sep) => var inside := s.PushL(t, sep);
      case Erase(t) => s.Erase(t);
      case AssignExpr(e) => s.AssignExpr(e);
    }
  }

  /** Across both forms, every run leaves the text that the same calls leave in a plain sequence, with
      room for the terminator and the terminator in place, up to the first call the string does not
      allow. */
  method Play(s: Str, ops: seq<Op>) returns (n: nat)
    requires s.Valid()
    modifies s.Repr()
    ensures n <= |ops| && s.Valid() && fresh(s.Repr() - old(s.Repr()))
    ensures s.Contents() == Replay(old(s.Contents()), ops[..n])
    ensures n < |ops| ==> !Allows(s, ops[n])
  {
    n := 0;
    while n < |ops| && Allows(s, ops[n])
      invariant 0 <= n <= |ops| && s.Valid() && fresh(s.Repr() - old(s.Repr()))
      invariant s.Contents() == Replay(old(s.Contents()), ops[..n])
    {
      assert ops[..n + 1][..n] == ops[..n];
      Call(s, ops[n]);
      n := n + 1;
    }
  }
}
