/** make_room and destroy_room (src/c4/ctor_dtor.hpp): elements moved inside a buffer, or copied to
    another, to open and to close a gap. */
module Room {
  import Buffers

  /** A slot of a buffer: raw memory, a live element, or an element that was moved from. */
  datatype Slot<T> = Raw | Live(v: T) | Moved

  type Memory<T> = seq<Slot<T>>

  predicate AllLive<T>(m: Memory<T>, a: int, b: int) {
    0 <= a <= b <= |m| && forall k | a <= k < b :: m[k].Live?
  }

  predicate NoneLive<T>(m: Memory<T>, a: int, b: int) {
    0 <= a <= b <= |m| && forall k | a <= k < b :: !m[k].Live?
  }

  // ---- moving elements one at a time

  /** Move-constructing into a slot is right when the source is live and no live element is overwritten. */
  predicate MoveOk<T>(m: Memory<T>, dst: nat, src: nat)
    requires dst < |m| && src < |m|
  {
    m[src].Live? && !m[dst].Live?
  }

  function Move<T>(m: Memory<T>, dst: nat, src: nat): Memory<T>
    requires dst < |m| && src < |m|
  {
    m[dst := m[src]][src := Moved]
  }

  /** What a series of moves by `room` slots leaves, and whether every one of them was right. */
  datatype Outcome<T> = Outcome(m: Memory<T>, ok: bool)

  function Moves<T>(m: Memory<T>, order: seq<nat>, room: nat): (r: Outcome<T>)
    requires forall i | 0 <= i < |order| :: order[i] + room < |m|
    ensures |r.m| == |m|
    decreases |order|
  {
    if order == [] then Outcome(m, true) else
    var last := |order| - 1;
    var before := Moves(m, order[..last], room);
    Outcome(Move(before.m, order[last] + room, order[last]),
            before.ok && MoveOk(before.m, order[last] + room, order[last]))
  }

  /** The slots off, off+1, ..., off+n-1 in the order of the forward and of the backward loop. */
  function Forward(off: nat, n: nat): seq<nat> { seq(n, i => off + i) }

  function Backward(off: nat, n: nat): seq<nat> { seq(n, i requires 0 <= i < n => off + (n - 1 - i)) }

  /** The memory after the n elements at `off` moved right by `room`: the gap holds what the elements
      that were there left behind. */
  function Shifted<T>(m: Memory<T>, off: nat, n: nat, room: nat): Memory<T>
    requires off + n + room <= |m|
  {
    seq(|m|, k requires 0 <= k < |m| =>
      if off + room <= k < off + room + n then m[k - room]
      else if off <= k < off + n then Moved
      else m[k])
  }

  lemma {:induction false} ForwardMoves<T>(m: Memory<T>, off: nat, k: nat, n: nat, room: nat)
    requires k <= n <= room && off + n + room <= |m|
    requires AllLive(m, off, off + n) && NoneLive(m, off + n, off + n + room)
    ensures Moves(m, Forward(off, k), room) == Outcome(Shifted(m, off, k, room), true)
    decreases k
  {
    if k == 0 {
      assert Shifted(m, off, 0, room) == m;
    } else {
      assert Forward(off, k)[..k - 1] == Forward(off, k - 1);
      ForwardMoves(m, off, k - 1, n, room);
      MoveAfter(m, off, k, room);
    }
  }

  /** One more element moves, the one after those that have. */
  lemma MoveAfter<T>(m: Memory<T>, off: nat, k: nat, room: nat)
    requires 0 < k <= room && off + k + room <= |m|
    requires m[off + k - 1].Live? && !m[off + k - 1 + room].Live?
    ensures var b := Shifted(m, off, k - 1, room); var w := off + k - 1;
      MoveOk(b, w + room, w) && Move(b, w + room, w) == Shifted(m, off, k, room)
  {
    var b := Shifted(m, off, k - 1, room);
    assert b[off + k - 1] == m[off + k - 1];
    assert Move(b, off + k - 1 + room, off + k - 1) == Shifted(m, off, k, room);
  }

  lemma {:induction false} BackwardMoves<T>(m: Memory<T>, off: nat, k: nat, n: nat, room: nat)
    requires k <= n && room > 0 && off + n + room <= |m|
    requires AllLive(m, off, off + n) && NoneLive(m, off + n, off + n + room)
    ensures Moves(m, Backward(off, n)[..k], room) == Outcome(Shifted(m, off + n - k, k, room), true)
    decreases k
  {
    if k == 0 {
      assert Shifted(m, off + n, 0, room) == m;
    } else {
      assert Backward(off, n)[..k][..k - 1] == Backward(off, n)[..k - 1];
      BackwardMoves(m, off, k - 1, n, room);
      MoveBefore(m, off + n - k, k, room);
    }
  }

  /** One more element moves, the one before those that have. */
  lemma MoveBefore<T>(m: Memory<T>, off: nat, k: nat, room: nat)
    requires k > 0 && room > 0 && off + k + room <= |m|
    requires m[off].Live? && NoneLive(m, off + k, off + k + room)
    ensures var b := Shifted(m, off + 1, k - 1, room);
      MoveOk(b, off + room, off) && Move(b, off + room, off) == Shifted(m, off, k, room)
  {
    var b := Shifted(m, off + 1, k - 1, room);
    assert b[off] == m[off];
    assert Move(b, off + room, off) == Shifted(m, off, k, room);
  }

  lemma {:induction false} OkOfPrefix<T>(m: Memory<T>, order: seq<nat>, room: nat, k: nat)
    requires (forall i | 0 <= i < |order| :: order[i] + room < |m|) && k <= |order|
    requires Moves(m, order, room).ok
    ensures Moves(m, order[..k], room).ok
    decreases |order|
  {
    if k < |order| {
      OkOfPrefix(m, order[..|order| - 1], room, k);
      assert order[..|order| - 1][..k] == order[..k];
    } else {
      assert order[..k] == order;
    }
  }

  /** When each direction moves every element once, reads no element it moved before and overwrites no
      live one: forward when the gap is no smaller than what moves, backward for every gap but none. So
      the branch make_room takes is right whenever there is a gap to open, or nothing to move. */
  lemma DirectionsExactly<T>(m: Memory<T>, off: nat, n: nat, room: nat)
    requires off + n + room <= |m|
    requires AllLive(m, off, off + n) && NoneLive(m, off + n, off + n + room)
    ensures Moves(m, Forward(off, n), room).ok <==> n == 0 || n <= room
    ensures Moves(m, Backward(off, n), room).ok <==> n == 0 || room > 0
    ensures n <= room ==> Moves(m, Forward(off, n), room).m == Shifted(m, off, n, room)
    ensures room > 0 ==> Moves(m, Backward(off, n), room).m == Shifted(m, off, n, room)
  {
    if n <= room {
      ForwardMoves(m, off, n, n, room);
    } else if n > 0 && Moves(m, Forward(off, n), room).ok {
      OkOfPrefix(m, Forward(off, n), room, 1);
      FirstMove(m, Forward(off, n)[..1], room);
    }
    assert Backward(off, n)[..n] == Backward(off, n);
    if room > 0 {
      BackwardMoves(m, off, n, n, room);
    }
  }

  lemma FirstMove<T>(m: Memory<T>, order: seq<nat>, room: nat)
    requires |order| == 1 && order[0] + room < |m|
    ensures Moves(m, order, room).ok == MoveOk(m, order[0] + room, order[0])
  {
    assert order[..0] == [];
  }

  method MoveForward<T>(buf: array<Slot<T>>, off: nat, n: nat, room: nat) returns (ok: bool)
    requires off + n + room <= buf.Length
    modifies buf
    ensures Outcome(buf[..], ok) == Moves(old(buf[..]), Forward(off, n), room)
  {
    ok := true;
    var i := 0;
    while i < n
      invariant 0 <= i <= n && Outcome(buf[..], ok) == Moves(old(buf[..]), Forward(off, i), room)
    {
      assert Forward(off, i + 1)[..i] == Forward(off, i);
      ok := MoveConstruct(buf, off + i + room, off + i, ok);
      i := i + 1;
    }
  }

  method MoveBackward<T>(buf: array<Slot<T>>, off: nat, n: nat, room: nat) returns (ok: bool)
    requires off + n + room <= buf.Length
    modifies buf
    ensures Outcome(buf[..], ok) == Moves(old(buf[..]), Backward(off, n), room)
  {
    ok := true;
    ghost var order := Backward(off, n);
    var i := 0;
    while i < n
      invariant 0 <= i <= n && Outcome(buf[..], ok) == Moves(old(buf[..]), order[..i], room)
    {
      var w := n - 1 - i;
      assert order[..i + 1][..i] == order[..i];
      ok := MoveConstruct(buf, off + w + room, off + w, ok);
      i := i + 1;
    }
    assert order[..n] == order;
  }

  /** make_room on the n elements at `off`: `ok` is whether every move-construction was right. */
  method MakeRoom<T>(buf: array<Slot<T>>, off: nat, n: nat, room: nat) returns (ok: bool)
    requires off + n + room <= buf.Length
    requires AllLive(buf[..], off, off + n) && NoneLive(buf[..], off + n, off + n + room)
    modifies buf
    ensures ok <==> n == 0 || room > 0
    ensures ok ==> buf[..] == Shifted(old(buf[..]), off, n, room)
    ensures ok ==> buf[off + room..off + room + n] == old(buf[off..off + n]) && NoneLive(buf[..], off, off + room)
    ensures ok ==> buf[..off] == old(buf[..off]) && buf[off + room + n..] == old(buf[off + room + n..])
  {
    ghost var was := buf[..];
    DirectionsExactly(was, off, n, room);
    if n == 0 || room > 0 {
      ShiftedGives(was, off, n, room);
    }
    if room >= n {
      ok := MoveForward(buf, off, n, room);
    } else {
      ok := MoveBackward(buf, off, n, room);
    }
  }

  lemma ShiftedGives<T>(m: Memory<T>, off: nat, n: nat, room: nat)
    requires off + n + room <= |m| && (n == 0 || room > 0)
    requires AllLive(m, off, off + n) && NoneLive(m, off + n, off + n + room)
    ensures var c := Shifted(m, off, n, room);
      && c[off + room..off + room + n] == m[off..off + n] && NoneLive(c, off, off + room)
      && c[..off] == m[..off] && c[off + room + n..] == m[off + room + n..]
  {
  }

  /** `new(buf + dst) U(std::move(buf[src]))` */
  method MoveConstruct<T>(buf: array<Slot<T>>, dst: nat, src: nat, before: bool) returns (ok: bool)
    requires dst < buf.Length && src < buf.Length
    modifies buf
    ensures buf[..] == Move(old(buf[..]), dst, src)
    ensures ok == (before && MoveOk(old(buf[..]), dst, src))
  {
    ok := before && buf[src].Live? && !buf[dst].Live?;
    buf[dst] := buf[src];
    buf[src] := Moved;
  }

  /** make_room to the right of `pos` in a buffer of `currsz` elements. */
  method MakeRoomAt<T>(buf: array<Slot<T>>, currsz: nat, pos: nat, room: nat) returns (ok: bool)
    requires pos <= currsz && room + currsz <= buf.Length
    requires AllLive(buf[..], 0, currsz) && NoneLive(buf[..], currsz, currsz + room)
    modifies buf
    ensures ok <==> pos == currsz || room > 0
    ensures ok ==> buf[..] == Shifted(old(buf[..]), pos, currsz - pos, room)
  {
    ok := MakeRoom(buf, pos, currsz - pos, room);
  }

  // ---- destroy_room

  /** What destroy_room leaves of n elements at `off`, the first `room` of which are to go. The elements
      after them move left by assignment; slots no assignment reads or writes stay as they are. */
  function Closed<T>(m: Memory<T>, off: nat, n: nat, room: nat): Memory<T>
    requires room <= n && off + n <= |m|
  {
    if room < n then ClosedBy(m, off, n, room, n - room)
    else seq(|m|, k requires 0 <= k < |m| => if off <= k < off + n then Raw else m[k])
  }

  /** ... after the first e assignments. */
  function ClosedBy<T>(m: Memory<T>, off: nat, n: nat, room: nat, e: nat): Memory<T>
    requires e + room <= n && off + n <= |m|
  {
    seq(|m|, k requires 0 <= k < |m| =>
      if off <= k < off + e then m[k + room] else if off + room <= k < off + room + e then Moved else m[k])
  }

  /** Move-assigning is right when the source is live, the target is an element, and they are not one. */
  method DestroyRoom<T>(buf: array<Slot<T>>, off: nat, n: nat, room: nat) returns (ok: bool)
    requires room <= n && off + n <= buf.Length && AllLive(buf[..], off, off + n)
    modifies buf
    ensures ok <==> n == 0 || room > 0
    ensures ok ==> buf[..] == Closed(old(buf[..]), off, n, room)
    ensures ok ==> buf[off..off + n - room] == old(buf[off + room..off + n])
    ensures ok ==> buf[..off] == old(buf[..off]) && buf[off + n..] == old(buf[off + n..])
    ensures ok && room == n ==> forall k | off <= k < off + n :: buf[k].Raw?
    ensures ok ==> (NoneLive(buf[..], off + n - room, off + n) <==> room == n || 2 * room <= n)
  {
    ghost var was := buf[..];
    if n == 0 || room > 0 {
      ClosedGives(was, off, n, room);
    }
    if room < n {
      ok := MoveLeft(buf, off, n, room);
    } else {
      DestroyAll(buf, off, n);
      ok := true;
    }
  }

  method MoveLeft<T>(buf: array<Slot<T>>, off: nat, n: nat, room: nat) returns (ok: bool)
    requires room < n && off + n <= buf.Length && AllLive(buf[..], off, off + n)
    modifies buf
    ensures ok <==> room > 0
    ensures ok ==> buf[..] == Closed(old(buf[..]), off, n, room)
  {
    ok := true;
    var i, e := 0, n - room;
    while i < e
      invariant 0 <= i <= e && (ok <==> i == 0 || room > 0)
      invariant room > 0 ==> buf[..] == ClosedBy(old(buf[..]), off, n, room, i)
      invariant room == 0 ==> forall k | off + i <= k < off + n :: buf[k].Live?
    {
      var dst, src := off + i, off + i + room;
      ok := ok && buf[src].Live? && !buf[dst].Raw? && src != dst;
      buf[dst] := buf[src];
      buf[src] := Moved;
      i := i + 1;
    }
  }

  method DestroyAll<T>(buf: array<Slot<T>>, off: nat, n: nat)
    requires off + n <= buf.Length
    modifies buf
    ensures buf[..] == Closed(old(buf[..]), off, n, n) && forall k | off <= k < off + n :: buf[k].Raw?
  {
    var i := 0;
    while i < n
      invariant 0 <= i <= n
      invariant forall k | 0 <= k < buf.Length :: buf[k] == if off <= k < off + i then Raw else old(buf[k])
    {
      buf[off + i] := Raw;
      i := i + 1;
    }
    assert buf[..] == Closed(old(buf[..]), off, n, n);
  }

  /** Whether the slots given up hold nothing live afterwards: all the elements go, or the ones that stay
      are no fewer than the ones that go. Otherwise those between are neither moved from nor destroyed. */
  lemma ClosedGives<T>(m: Memory<T>, off: nat, n: nat, room: nat)
    requires room <= n && off + n <= |m| && AllLive(m, off, off + n) && (n == 0 || room > 0)
    ensures var c := Closed(m, off, n, room);
      && c[off..off + n - room] == m[off + room..off + n] && c[..off] == m[..off] && c[off + n..] == m[off + n..]
      && (NoneLive(c, off + n - room, off + n) <==> room == n || 2 * room <= n)
  {
    var c := Closed(m, off, n, room);
    if room < n < 2 * room {
      assert c[off + n - room].Live?;
    }
  }

  /** New elements constructed in the gap. */
  function Filled<T>(m: Memory<T>, off: nat, gap: seq<T>): Memory<T>
    requires off + |gap| <= |m|
  {
    seq(|m|, k requires 0 <= k < |m| => if off <= k < off + |gap| then Live(gap[k - off]) else m[k])
  }

  /** In place: opening a gap, filling it and closing it gives the elements back, wherever the gap is and
      however large, and touches nothing else but the slots the gap took. */
  lemma CloseUndoesOpen<T>(m: Memory<T>, currsz: nat, pos: nat, gap: seq<T>)
    requires pos <= currsz && currsz + |gap| <= |m| && AllLive(m, 0, currsz)
    ensures var open := Filled(Shifted(m, pos, currsz - pos, |gap|), pos, gap);
      && AllLive(open, 0, currsz + |gap|)
      && Closed(open, pos, currsz - pos + |gap|, |gap|)[..currsz] == m[..currsz]
      && Closed(open, pos, currsz - pos + |gap|, |gap|)[currsz + |gap|..] == m[currsz + |gap|..]
  {
  }

  // ---- between two buffers

  /** The destination after `srcsz` elements were copied into it with a gap at `pos`. */
  function OpenedInto<T>(d: Memory<T>, s: Memory<T>, srcsz: nat, room: nat, pos: nat): Memory<T>
    requires pos <= srcsz <= |s| && srcsz + room <= |d|
  {
    seq(|d|, k requires 0 <= k < |d| =>
      if k < pos then s[k] else if pos + room <= k < srcsz + room then s[k - room] else d[k])
  }

  function ClosedInto<T>(d: Memory<T>, s: Memory<T>, n: nat, room: nat, pos: nat): Memory<T>
    requires pos + room <= n <= |s| && n - room <= |d|
  {
    seq(|d|, k requires 0 <= k < |d| => if k < pos then s[k] else if k < n - room then s[k + room] else d[k])
  }

  /** Constructs `n` elements from const ones: they are copied, the source keeps them. */
  method ConstructFrom<T>(dst: array<Slot<T>>, at: nat, src: array<Slot<T>>, from: nat, n: nat)
    requires dst != src && at + n <= dst.Length && from + n <= src.Length
    requires AllLive(src[..], from, from + n) && NoneLive(dst[..], at, at + n)
    modifies dst
    ensures forall k | 0 <= k < dst.Length :: dst[k] == if at <= k < at + n then src[from + k - at] else old(dst[k])
  {
    var i := 0;
    while i < n
      invariant 0 <= i <= n
      invariant forall k | 0 <= k < dst.Length :: dst[k] == if at <= k < at + i then src[from + k - at] else old(dst[k])
    {
      assert !dst[at + i].Live? && src[from + i].Live?;
      dst[at + i] := src[from + i];
      i := i + 1;
    }
  }

  lemma OpenedGives<T>(d: Memory<T>, s: Memory<T>, srcsz: nat, room: nat, pos: nat)
    requires pos <= srcsz <= |s| && srcsz + room <= |d|
    ensures var c := OpenedInto(d, s, srcsz, room, pos);
      && c[..pos] == s[..pos] && c[pos + room..srcsz + room] == s[pos..srcsz]
      && c[pos..pos + room] == d[pos..pos + room] && c[srcsz + room..] == d[srcsz + room..]
  {
  }

  lemma ClosedIntoGives<T>(d: Memory<T>, s: Memory<T>, n: nat, room: nat, pos: nat)
    requires pos + room <= n <= |s| && n - room <= |d|
    ensures var c := ClosedInto(d, s, n, room, pos);
      c[..pos] == s[..pos] && c[pos..n - room] == s[pos + room..n] && c[n - room..] == d[n - room..]
  {
  }

  method MakeRoomInto<T>(dst: array<Slot<T>>, src: array<Slot<T>>, srcsz: nat, room: nat, pos: nat)
    requires dst != src && (pos < srcsz || (pos == 0 && srcsz == 0))
    requires srcsz <= src.Length && srcsz + room <= dst.Length
    requires AllLive(src[..], 0, srcsz) && NoneLive(dst[..], 0, srcsz + room)
    modifies dst
    ensures dst[..] == OpenedInto(old(dst[..]), src[..], srcsz, room, pos)
    ensures dst[..pos] == src[..pos] && dst[pos + room..srcsz + room] == src[pos..srcsz]
    ensures dst[pos..pos + room] == old(dst[pos..pos + room]) && dst[srcsz + room..] == old(dst[srcsz + room..])
  {
    OpenedGives(dst[..], src[..], srcsz, room, pos);
    ConstructFrom(dst, 0, src, 0, pos);
    ConstructFrom(dst, room + pos, src, pos, srcsz - pos);
  }

  method DestroyRoomInto<T>(dst: array<Slot<T>>, src: array<Slot<T>>, n: nat, room: nat, pos: nat)
    requires dst != src && pos < n && pos + room <= n <= src.Length && n - room <= dst.Length
    requires AllLive(src[..], 0, n) && NoneLive(dst[..], 0, n - room)
    modifies dst
    ensures dst[..] == ClosedInto(old(dst[..]), src[..], n, room, pos)
    ensures dst[..pos] == src[..pos] && dst[pos..n - room] == src[pos + room..n] && dst[n - room..] == old(dst[n - room..])
  {
    ClosedIntoGives(dst[..], src[..], n, room, pos);
    ConstructFrom(dst, 0, src, 0, pos);
    ConstructFrom(dst, pos, src, room + pos, n - pos - room);
  }

  /** Between buffers: closing what was opened gives the elements back. */
  lemma CloseIntoUndoesOpenInto<T>(s: Memory<T>, d: Memory<T>, back: Memory<T>, srcsz: nat, pos: nat, gap: seq<T>)
    requires pos <= srcsz <= |s| && srcsz + |gap| <= |d| && srcsz <= |back| && AllLive(s, 0, srcsz)
    ensures var open := Filled(OpenedInto(d, s, srcsz, |gap|, pos), pos, gap);
      && AllLive(open, 0, srcsz + |gap|)
      && ClosedInto(back, open, srcsz + |gap|, |gap|, pos)[..srcsz] == s[..srcsz]
      && ClosedInto(back, open, srcsz + |gap|, |gap|, pos)[srcsz..] == back[srcsz..]
  {
  }

  method Fill<T>(buf: array<Slot<T>>, off: nat, gap: seq<T>)
    requires off + |gap| <= buf.Length
    modifies buf
    ensures buf[..] == Filled(old(buf[..]), off, gap)
  {
    forall k | 0 <= k < |gap| {
      buf[off + k] := Live(gap[k]);
    }
  }

  /** A client that opens a gap, fills it and closes it again, in place: when there is a gap at all, the
      elements are as they were. */
  method OpenFillClose<T>(buf: array<Slot<T>>, currsz: nat, pos: nat, gap: seq<T>) returns (ok: bool)
    requires pos <= currsz && currsz + |gap| <= buf.Length
    requires AllLive(buf[..], 0, currsz) && NoneLive(buf[..], currsz, currsz + |gap|)
    modifies buf
    ensures ok <==> pos == currsz || gap != []
    ensures ok ==> buf[..currsz] == old(buf[..currsz])
    ensures ok ==> (NoneLive(buf[..], currsz, currsz + |gap|) <==> gap == [] || pos == currsz || |gap| <= currsz - pos)
  {
    CloseUndoesOpen(buf[..], currsz, pos, gap);
    ok := MakeRoomAt(buf, currsz, pos, |gap|);
    if ok {
      Fill(buf, pos, gap);
      ok := DestroyRoom(buf, pos, currsz - pos + |gap|, |gap|);
    }
  }

  /** The same between three buffers. */
  method OpenFillCloseInto<T>(src: array<Slot<T>>, mid: array<Slot<T>>, back: array<Slot<T>>,
                              srcsz: nat, pos: nat, gap: seq<T>)
    requires src != mid && mid != back && src != back
    requires (pos < srcsz || (pos == 0 && srcsz == 0)) && srcsz + |gap| > 0
    requires srcsz <= src.Length && srcsz + |gap| <= mid.Length && srcsz <= back.Length
    requires AllLive(src[..], 0, srcsz) && NoneLive(mid[..], 0, srcsz + |gap|) && NoneLive(back[..], 0, srcsz)
    modifies mid, back
    ensures back[..srcsz] == src[..srcsz]
  {
    CloseIntoUndoesOpenInto(src[..], mid[..], back[..], srcsz, pos, gap);
    MakeRoomInto(mid, src, srcsz, |gap|, pos);
    Fill(mid, pos, gap);
    DestroyRoomInto(back, mid, srcsz + |gap|, |gap|, pos);
    assert back[..srcsz] == back[..][..srcsz];
  }

  // ---- elements that memcpy and memmove can move

  /** make_room of trivially movable elements: memcpy is taken only for disjoint ranges. */
  method MakeRoomTrivial<T>(buf: array<T>, off: nat, n: nat, room: nat)
    requires off + n + room <= buf.Length
    modifies buf
    ensures buf[off + room..off + room + n] == old(buf[off..off + n])
    ensures buf[..off + (if room < n then room else n)] == old(buf[..off + (if room < n then room else n)])
    ensures buf[off + room + n..] == old(buf[off + room + n..])
  {
    if room >= n {
      Buffers.MemCpy(buf, off + room, off, n);
    } else {
      Buffers.Move(buf, off + room, off, n);
    }
  }

  /** destroy_room of plain elements. */
  method DestroyRoomTrivial<T>(buf: array<T>, off: nat, n: nat, room: nat)
    requires room <= n && off + n <= buf.Length
    modifies buf
    ensures buf[off..off + n - room] == old(buf[off + room..off + n])
    ensures buf[..off] == old(buf[..off]) && buf[off + n - room..] == old(buf[off + n - room..])
  {
    if room < n {
      Buffers.Move(buf, off, off + room, n - room);
    }
  }
}
