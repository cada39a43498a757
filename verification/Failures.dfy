/** Inputs on which the operations do not do what they are for. The lemmas named `...Exactly` say for all
    inputs when they do. */
module Failures {
  import opened Common
  import opened ListModel
  import opened StringSpec
  import opened Buffers
  import opened Find
  import opened Paths
  import PushPop
  import Strings = BasicString
  import Room
  import Memory

  function NoJunk(): nat -> Node<int> { _ => Node(0, 0, 0) }

  function Grows(copy: bool): Growth<int> { Growth(copy, 0, NoJunk()) }

  /** A push into a list of capacity one, then reserve(2): the list has one element; iterating shows two,
      and the destructor visits a slot that holds none. A second reserve that copies fails. */
  lemma ReserveLosesTheEnd(links: Links, copy: bool)
    ensures var r := Run(Constructed(links, 1, NoJunk()), [Push(7, Grows(copy)), Reserve(2, Grows(copy))]);
      && r.Some? && r.value.size == 1 && |r.value.Iterated()| == 2 && r.value.Chain(r.value.head) == [0, 1]
      && r.value.Reserve(3, Grows(true)).None?
  {
    var st, g := Constructed(links, 1, NoJunk()), Grows(copy);
    var p := st.PushBack(7, g);
    st.PushBackAppends(7, g);
    p.CopyAssertsExactly();
    p.GrownKeeps(2, g);
    p.ReserveExactly(2, g);
    var r := p.Reserve(2, g).value;
    r.DestructorVisitsExactly();
    r.IterationShowsValuesExactly();
    r.ReserveExactly(3, Grows(true));
    assert Run(st, [Push(7, g), Reserve(2, g)]) == Run(p, [Reserve(2, g)]) == Run(r, []);
  }

  /** The two reserves in one run. */
  lemma SecondReserveFails(links: Links)
    ensures var g := Grows(true); Run(Constructed(links, 1, NoJunk()), [Push(7, g), Reserve(2, g), Reserve(3, g)]).None?
  {
    var st, g := Constructed(links, 1, NoJunk()), Grows(true);
    var p := st.PushBack(7, g);
    st.PushBackAppends(7, g);
    p.ReserveExactly(2, g);
    p.CopyAssertsExactly();
    p.GrownKeeps(2, g);
    var r := p.Reserve(2, g).value;
    r.ReserveExactly(3, g);
    assert Run(st, [Push(7, g), Reserve(2, g), Reserve(3, g)]) == Run(p, [Reserve(2, g), Reserve(3, g)]);
    assert Run(p, [Reserve(2, g), Reserve(3, g)]) == Run(r, [Reserve(3, g)]);
  }

  /** Push, clear, and a reserve that copies: its assertion fails. */
  lemma ReserveAfterClearFails(links: Links)
    ensures Run(Constructed(links, 1, NoJunk()), [Push(7, Grows(true)), Clear, Reserve(2, Grows(true))]).None?
  {
    var st, g := Constructed(links, 1, NoJunk()), Grows(true);
    var p := st.PushBack(7, g);
    st.PushBackAppends(7, g);
    p.ClearEmpties();
    var c := p.Clear();
    c.ReserveExactly(2, g);
    assert Run(st, [Push(7, g), Clear, Reserve(2, g)]) == Run(p, [Clear, Reserve(2, g)]);
    assert Run(p, [Clear, Reserve(2, g)]) == Run(c, [Reserve(2, g)]);
  }

  /** Push and clear on a list of capacity two: iterating shows two slots that hold no element, and the
      destructor visits them. */
  lemma DestructorAfterClear(links: Links)
    ensures var r := Run(Constructed(links, 2, NoJunk()), [Push(7, Grows(true)), Clear]);
      r.Some? && r.value.size == 0 && |r.value.Iterated()| == 2 && r.value.Chain(r.value.head) == [0, 1]
  {
    var st, g := Constructed(links, 2, NoJunk()), Grows(true);
    var p := st.PushBack(7, g);
    st.PushBackAppends(7, g);
    var c := p.Clear();
    p.ClearEmpties();
    c.DestructorVisitsExactly();
    c.IterationShowsValuesExactly();
    assert Run(st, [Push(7, g), Clear]) == Run(p, [Clear]) == Run(c, []);
  }

  /** A third push into a doubly linked list of capacity two. */
  lemma ThirdPushForgetsPrev(copy: bool)
    ensures var g := Grows(copy);
      var r := Run(Constructed(Doubly, 2, NoJunk()), [Push(7, g), Push(8, g), Push(9, g)]);
      r.Some? && r.value.links.Doubly? && !r.value.PrevInverse()
  {
    var st, g := Constructed(Doubly, 2, NoJunk()), Grows(copy);
    var p := st.PushBack(7, g);
    st.PushBackAppends(7, g);
    var q := p.PushBack(8, g);
    p.PushBackAppends(8, g);
    var r := q.PushBack(9, g);
    q.PushBackAppends(9, g);
    q.PrevInverseExactly(9, g);
    assert Run(st, [Push(7, g), Push(8, g), Push(9, g)]) == Run(p, [Push(8, g), Push(9, g)]);
    assert Run(p, [Push(8, g), Push(9, g)]) == Run(q, [Push(9, g)]) == Run(r, []);
  }

  /** pushr with a full stop. */
  lemma PushedWithDot()
    ensures PushedR("a", "b", '.') == "a/b" && PopR("a/b", '.', false).Of("a/b") != "b"
  {
    PushPop.PushRThenPopExactly("a", "b", '.');
  }

  /** pushl with the separator NUL onto a text that is one NUL: every character up to the terminator
      equals the separator, and the skip passes it. */
  method PushLeftOfNul(factor: nat -> nat) returns (s: Strings.Str, inside: bool)
    ensures s.Valid() && !inside && s.Contents() == [NUL] && forall k | 0 <= k <= s.size :: s.Data()[k] == NUL
  {
    s := new Strings.Str(factor);
    s.Assign([NUL]);
    assert s.Data()[0] == s.Contents()[0];
    Strings.SkipStopsExactly(s.Data()[..], s.size, NUL);
    inside := s.PushL("a", NUL);
    assert s.Data()[0] == s.Contents()[0];
  }

  /** A short string that held "abc" and was cleared: reserving gives it a size again. */
  method ReserveAfterText(factor: nat -> nat) returns (s: Strings.Str)
    requires factor(0) <= Strings.ARR_SIZE
    ensures s.Formed() && s.isLong && s.size > 0
  {
    s := new Strings.Str(factor);
    s.Assign("abc");
    assert s.Data()[..s.size][1] == 'b';
    assert s.Data()[..][1] == 'b';
    s.Clear();
    assert s.Data()[..][1] == 'b' && s.arr[..][1] == 'b';
    assert !s.KeepsSize(100);
    s.Reserve(100);
  }

  /** A stream takes a short string of fifteen characters, for which `size_t(1.618f * 15)` is more than the
      short form holds: the first reserve of its constructor makes it long, with another size. */
  method StreamOverText(factor: nat -> nat) returns (s: Strings.Str)
    requires factor(0) == 0 && factor(15) == 24
    ensures s.Formed() && s.isLong && s.size != 15
  {
    s := new Strings.Str(factor);
    s.Assign("aaaaaaaaaaaaaaa");
    assert s.arr[..][0] == s.Data()[..s.size][0] == 'a';
    assert !s.KeepsSize(s.Capacity());
    s.Reserve(s.Capacity());
  }

  lemma MoveOntoItself(m: Room.Memory<int>)
    requires m == [Room.Live(7)]
    ensures !Room.Moves(m, Room.Forward(0, 1), 0).ok && !Room.Moves(m, Room.Backward(0, 1), 0).ok
  {
    Room.DirectionsExactly(m, 0, 1, 0);
  }

  method CloseNoGap() returns (ok: bool)
    ensures !ok
  {
    var buf := new Room.Slot<int>[1](_ => Room.Live(7));
    ok := Room.DestroyRoom(buf, 0, 1, 0);
  }

  /** Three of five elements go: the last of the three is neither moved from nor destroyed. */
  method CloseLargeGap() returns (buf: array<Room.Slot<int>>)
    ensures buf.Length == 5 && buf[2] == Room.Live(3)
  {
    buf := new Room.Slot<int>[5](i => Room.Live(i + 1));
    var ok := Room.DestroyRoom(buf, 0, 5, 3);
    assert ok && buf[..][2] == Room.Live(3);
  }

  lemma EmptyRangeOverlaps()
    ensures Memory.MemOverlaps(0, 1, 2, 0) && !Memory.Share(0, 1, 2, 0)
  {
    Memory.OverlapsExactly(0, 1, 2, 0);
  }

  method FindNothing(s: string) returns (r: int)
    requires s != ""
    ensures r == NPOS && MatchAt(s, "", 0)
  {
    r := FindPattern(s, "", 0);
  }
}
