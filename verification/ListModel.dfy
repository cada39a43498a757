/** The index-threaded lists of src/c4/list.hpp as values: what each list operation does to the
    links, the head, the tail, the size and the free head, and what holds over whole runs.
    ListClass.dfy proves the classes, with their loops and updates in place, against these functions. */
module ListModel {

  import opened Common

  /** The two CRTP bases, `_dbl_list_crtp` and `_fwd_list_crtp`. */
  datatype Links = Doubly | Forward

  datatype Node<T> = Node(elm: T, prev: int, next: int)

  /** What the raw storage decides when it grows: whether the elements have to be copied to another
      buffer (`tmp` is true), how far past the wanted capacity it goes, and what the new slots hold. */
  datatype Growth<T> = Growth(copy: bool, extra: nat, junk: nat -> Node<T>)

  /** The slots a, a+1, ..., b-1. */
  function Range(a: int, b: int): seq<int>
    requires a <= b
  {
    seq(b - a, i => a + i)
  }

  datatype State<T> = State(links: Links, elm: seq<T>, prev: seq<int>, next: seq<int>,
                            head: int, tail: int, size: nat, fhead: int)
  {
    function Cap(): nat { |next| }

    predicate Slot(i: int) { 0 <= i < Cap() }

    predicate Shaped() {
      |elm| == Cap() && |prev| == if links.Doubly? then Cap() else 0
    }

    /** The first n nodes from `from` along `next`, fewer if the chain ends before. */
    function Slots(from: int, n: nat): (r: seq<int>)
      ensures |r| <= n && forall i | i in r :: Slot(i)
      decreases n
    {
      if n == 0 || !Slot(from) then [] else [from] + Slots(next[from], n - 1)
    }

    /** The nodes met by following `next` from `from` up to npos. */
    function Chain(from: int): seq<int> { Slots(from, Cap()) }

    /** The elements of the first size() nodes from the head. */
    function Values(): seq<T>
      requires Shaped()
    {
      var live := Slots(head, size);
      seq(|live|, i requires 0 <= i < |live| => assert live[i] in live; elm[live[i]])
    }

    /** What a client's iteration shows: the elements of all the nodes from the head up to npos. */
    function Iterated(): seq<T>
      requires Shaped()
    {
      var all := Chain(head);
      seq(|all|, i requires 0 <= i < |all| => assert all[i] in all; elm[all[i]])
    }

    // ---- setters (the C4_XASSERT of each is its precondition)

    function SetPrev(i: int, v: int): State<T>
      requires Shaped() && Slot(i)
    {
      if links.Doubly? then this.(prev := prev[i := v]) else this
    }

    function SetNext(i: int, v: int): State<T>
      requires Slot(i)
    {
      this.(next := next[i := v])
    }

    function SetHead(i: int): State<T>
      requires Shaped() && Slot(i)
    {
      SetPrev(i, NPOS).(head := i)
    }

    function SetTail(i: int): State<T>
      requires Slot(i)
    {
      SetNext(i, NPOS).(tail := i)
    }

    function SetFhead(i: int): State<T>
      requires Shaped()
    {
      (if Slot(i) then SetPrev(i, NPOS) else this).(fhead := i)
    }

    // ---- growing

    /** Threads the slots first..last-1 onto one chain that ends at npos. */
    function InitSeq(first: nat, last: nat): State<T>
      requires Shaped() && first <= last <= Cap()
    {
      if first == last then this else
      this.(next := seq(Cap(), i requires 0 <= i < Cap() =>
                      if first <= i < last - 1 then i + 1 else if i == last - 1 then NPOS else next[i]),
            prev := seq(|prev|, i requires 0 <= i < |prev| =>
                      if i == first then NPOS else if first < i < last then i - 1 else prev[i]))
    }

    function AdjustFhead(cap: nat, nextCap: nat): State<T>
      requires Shaped()
    {
      if fhead != NPOS then this else SetFhead(if nextCap >= cap then cap else nextCap)
    }

    function SetSeqHead(cap: nat, nextCap: nat): State<T>
      requires Shaped() && cap <= nextCap <= Cap() && (tail == NPOS || 0 <= tail < nextCap)
    {
      var first := if links.Forward? then (if cap > 0 then cap - 1 else 0) else if tail != NPOS then tail else 0;
      InitSeq(first, nextCap).AdjustFhead(cap, nextCap)
    }

    /** In-place growth: the old slots stay, the new ones hold whatever the storage left there. */
    function Extended(cap: nat, g: Growth<T>): State<T>
      requires Shaped() && Cap() <= cap
    {
      this.(elm := seq(cap, i requires 0 <= i < cap => if i < Cap() then elm[i] else g.junk(i).elm),
            prev := seq(if links.Doubly? then cap else 0, i requires 0 <= i < cap =>
                      if i < |prev| then prev[i] else g.junk(i).prev),
            next := seq(cap, i requires 0 <= i < cap => if i < Cap() then next[i] else g.junk(i).next))
    }

    /** The source asserts that the walk from the head visits exactly size() nodes. */
    predicate CopyAsserts() { |Chain(head)| == size }

    /** Copying growth: the nodes are written into the new buffer in logical order. */
    function Copied(cap: nat, g: Growth<T>): State<T>
      requires Shaped() && Cap() <= cap && CopyAsserts()
    {
      var live := Chain(head);
      this.(elm := seq(cap, i requires 0 <= i < cap =>
                      if i < size then assert live[i] in live; elm[live[i]] else g.junk(i).elm),
            prev := seq(if links.Doubly? then cap else 0, i requires 0 <= i < cap =>
                      if i < size then (if i > 0 then i - 1 else NPOS) else g.junk(i).prev),
            next := seq(cap, i requires 0 <= i < cap => if i < size then i + 1 else g.junk(i).next))
    }

    /** Growth of either kind, with the new slots threaded onto the free chain. */
    function CopyGrown(cap: nat, g: Growth<T>): State<T>
      requires Usable() && Cap() < cap && CopyAsserts()
    {
      Copied(cap, g).SetSeqHead(size, cap)
    }

    function ExtendGrown(cap: nat, g: Growth<T>): State<T>
      requires Usable() && Cap() < cap
    {
      Extended(cap, g).SetSeqHead(Cap(), cap)
    }

    /** `_growto(Cap(), nextCap)`, once the assertion of the copying branch is known to hold. */
    function Grown(nextCap: nat, g: Growth<T>): State<T>
      requires Usable() && nextCap > Cap() && (g.copy ==> CopyAsserts())
    {
      var cap := nextCap + g.extra;
      if g.copy then CopyGrown(cap, g) else ExtendGrown(cap, g)
    }

    // ---- the public operations

    /** `_make_room_for(1)` */
    function WithRoom(g: Growth<T>): State<T>
      requires Usable()
    {
      if size + 1 > Cap() then
        ChainWhenFull();
        Grown(size + 1, g)
      else this
    }

    /** `_append` once there is room: the slot of the free head becomes the tail. */
    function Linked(): State<T>
      requires Usable() && size < Cap()
    {
      var pos := fhead;
      var claimed := SetFhead(next[pos]);
      var linked := if size > 0 then claimed.SetPrev(pos, tail).SetNext(tail, pos) else claimed.SetHead(0);
      linked.(size := size + 1).SetTail(pos)
    }

    /** ... and the element is constructed in it. */
    function Appended(v: T): State<T>
      requires Usable() && size < Cap()
    {
      Linked().(elm := elm[fhead := v])
    }

    function PushBack(v: T, g: Growth<T>): (st: State<T>)
      requires Usable()
      ensures st.Shaped() && st.links == links
    {
      WithRoomKeeps(g);
      WithRoom(g).Appended(v)
    }

    function Clear(): State<T>
      requires Usable()
    {
      if size == 0 then this else SetNext(tail, fhead).(fhead := head, size := 0)
    }

    /** None: the assertion of the copying branch fails. */
    function Reserve(cap: nat, g: Growth<T>): Option<State<T>>
      requires Usable()
    {
      if cap <= Cap() then Some(this)
      else if g.copy && !CopyAsserts() then None
      else Some(Grown(cap, g))
    }

    // ---- what every run keeps

    /** The live chain is slots 0..size-1 and the free chain slots size..Cap()-1. The tail may lack
        its npos terminator. */
    predicate Usable() {
      && Shaped()
      && size <= Cap()
      && fhead == (if size < Cap() then size else NPOS)
      && (forall i | 0 <= i < Cap() - 1 && i != size - 1 :: next[i] == i + 1)
      && (Cap() > 0 ==> next[Cap() - 1] == NPOS)
      && (0 < size < Cap() ==> next[size - 1] == NPOS || next[size - 1] == size)
      && (size > 0 ==> head == 0 && tail == size - 1 && (links.Doubly? ==> prev[0] == NPOS))
      && (size == 0 ==> head == tail == NPOS || (head == 0 && Slot(tail)))
    }

    predicate Inv() { Usable() && (size > 0 ==> next[size - 1] == NPOS) }

    /** `prev` undoes `next` on the live chain, and the head has no prev. */
    predicate PrevInverse()
      requires Shaped() && links.Doubly?
    {
      && (size > 0 ==> Slot(head) && prev[head] == NPOS)
      && forall i | i in Slots(head, size) && i != tail :: Slot(next[i]) && prev[next[i]] == i
    }

    // ---- chains

    lemma {:induction false} SlotsOfRun(from: nat, to: nat, n: nat)
      requires from <= to <= Cap() && (forall i | from <= i < to - 1 :: next[i] == i + 1)
      requires n == to - from || (n > to - from && (from == to || next[to - 1] == NPOS))
      ensures from < to || n == 0 ==> Slots(from, n) == Range(from, to)
      decreases n
    {
      if from < to && n > 1 {
        if from + 1 < to {
          SlotsOfRun(from + 1, to, n - 1);
        }
      }
    }

    lemma ChainWhenFull()
      requires Usable() && size == Cap()
      ensures CopyAsserts() && Chain(head) == Range(0, size)
    {
      if size > 0 {
        SlotsOfRun(0, size, size);
      }
    }

    /** The list knows where its elements end: the last one is terminated, or there are none and there
        never were. */
    predicate EndKnown()
      requires Usable()
    {
      if size > 0 then next[size - 1] == NPOS else head == NPOS
    }

    /** The walk of the copying branch visits size() nodes exactly when the end is known; otherwise it
        visits every slot. */
    lemma CopyAssertsExactly()
      requires Usable()
      ensures CopyAsserts() <==> EndKnown()
      ensures Chain(head) == Range(0, if EndKnown() then size else Cap())
    {
      if size > 0 && next[size - 1] == NPOS {
        SlotsOfRun(0, size, Cap());
      } else if head == 0 {
        SlotsOfRun(0, Cap(), Cap());
      }
    }

    /** A bigger storage with the same elements; in a doubly linked list the tail has no prev. */
    ghost predicate Grew(st: State<T>)
      requires Usable()
    {
      && st.Usable() && st.links == links
      && st.size == size && st.head == head && st.tail == tail && st.elm[..size] == elm[..size]
      && (links.Doubly? && size > 0 ==> st.prev[size - 1] == NPOS)
    }

    lemma CopiedKeeps(cap: nat, g: Growth<T>)
      requires Usable() && cap > Cap() && CopyAsserts()
      ensures Grew(CopyGrown(cap, g)) && CopyGrown(cap, g).Cap() == cap
    {
      CopyAssertsExactly();
    }

    lemma ExtendedKeeps(cap: nat, g: Growth<T>)
      requires Usable() && cap > Cap()
      ensures Grew(ExtendGrown(cap, g)) && ExtendGrown(cap, g).Cap() == cap
    {
    }

    lemma GrownIs(nextCap: nat, g: Growth<T>)
      requires Usable() && nextCap > Cap() && (g.copy ==> CopyAsserts())
      ensures g.copy ==> Grown(nextCap, g) == CopyGrown(nextCap + g.extra, g)
      ensures !g.copy ==> Grown(nextCap, g) == ExtendGrown(nextCap + g.extra, g)
    {
    }

    /** What growing keeps, in place or by copying. */
    lemma GrownKeeps(nextCap: nat, g: Growth<T>)
      requires Usable() && nextCap > Cap() && (g.copy ==> CopyAsserts())
      ensures Grew(Grown(nextCap, g)) && Grown(nextCap, g).Cap() == nextCap + g.extra
    {
      GrownIs(nextCap, g);
      if g.copy {
        CopiedKeeps(nextCap + g.extra, g);
      } else {
        ExtendedKeeps(nextCap + g.extra, g);
      }
    }

    /** What growing does to the prev of the elements before the tail: copying writes it, growing in place
        keeps it. */
    lemma GrownPrevs(nextCap: nat, g: Growth<T>)
      requires Usable() && links.Doubly? && nextCap > Cap() && (g.copy ==> CopyAsserts())
      ensures var st := Grown(nextCap, g);
        |st.prev| >= size && forall i | 0 < i < size - 1 :: st.prev[i] == if g.copy then i - 1 else prev[i]
    {
      GrownIs(nextCap, g);
    }

    lemma WithRoomKeeps(g: Growth<T>)
      requires Usable()
      ensures var st := WithRoom(g);
        && st.Usable() && st.links == links && st.size == size && st.head == head && st.tail == tail
        && st.Cap() == (if size < Cap() then Cap() else size + 1 + g.extra) && st.elm[..size] == elm[..size]
        && (size == Cap() && links.Doubly? && size > 0 ==> st.prev[size - 1] == NPOS)
    {
      if size == Cap() {
        ChainWhenFull();
        GrownKeeps(size + 1, g);
      }
    }

    // ---- the main results

    /** Live and free chains partition the array: the first size() nodes from the head are slots
        0..size-1 in this order, and the free chain is slots size..Cap()-1. When the list is terminated,
        following `next` from the head meets exactly the live slots, the tail last. */
    lemma ChainsPartition()
      requires Usable()
      ensures Slots(head, size) == Range(0, size)
      ensures Chain(fhead) == Range(size, Cap())
      ensures Slots(head, size) + Chain(fhead) == Range(0, Cap())
      ensures Inv() && size > 0 ==> Chain(head) == Range(0, size) && Chain(head)[size - 1] == tail && next[tail] == NPOS
    {
      if size > 0 {
        SlotsOfRun(0, size, size);
        if next[size - 1] == NPOS {
          SlotsOfRun(0, size, Cap());
        }
      }
      if size < Cap() {
        SlotsOfRun(size, Cap(), Cap());
      }
    }

    lemma ValuesArePrefix()
      requires Usable()
      ensures Values() == elm[..size]
    {
      ChainsPartition();
    }

    /** Iterating shows the values exactly when the end is known; otherwise it runs on over the whole
        storage. */
    lemma IterationShowsValuesExactly()
      requires Usable()
      ensures Iterated() == Values() <==> EndKnown()
      ensures EndKnown() || Iterated() == elm
    {
      ChainsPartition();
      CopyAssertsExactly();
    }

    lemma AppendedKeeps(v: T)
      requires Usable() && size < Cap()
      ensures var st := Appended(v);
        && st.Inv() && st.links == links && st.Cap() == Cap() && st.size == size + 1
        && st.elm == elm[size := v]
    {
    }

    /** push_back appends the value and leaves a list that is terminated, whether or not it was. */
    lemma PushBackAppends(v: T, g: Growth<T>)
      requires Usable()
      ensures var st := PushBack(v, g); st.Inv() && st.links == links && st.Values() == Values() + [v]
      ensures var st := PushBack(v, g);
        st.size == size + 1 && st.Cap() == if size < Cap() then Cap() else size + 1 + g.extra
    {
      WithRoomKeeps(g);
      var room := WithRoom(g);
      room.AppendedKeeps(v);
      var st := room.Appended(v);
      assert st.elm[..size + 1] == room.elm[..size] + [v];
      st.ValuesArePrefix();
      ValuesArePrefix();
    }

    lemma ClearEmpties()
      requires Usable()
      ensures Clear().Inv() && Clear().Cap() == Cap() && Clear().links == links && Clear().Values() == []
    {
    }

    /** For every request, growth and list: `reserve` completes unless it copies a list whose end is not
        known, and it keeps the elements apart from the free list unless it grows one that holds some. */
    lemma ReserveExactly(cap: nat, g: Growth<T>)
      requires Usable()
      ensures Reserve(cap, g).Some? <==> cap <= Cap() || !g.copy || EndKnown()
      ensures Reserve(cap, g).Some? ==> var st := Reserve(cap, g).value;
        && st.Usable() && st.Values() == Values() && st.links == links && st.Cap() >= cap
        && st.size == size && st.head == head && st.Cap() == (if cap <= Cap() then Cap() else cap + g.extra)
        && (cap <= Cap() ==> st == this)
        && (st.Inv() <==> size == 0 || (Inv() && (cap <= Cap() || KeepsTail(g))))
    {
      CopyAssertsExactly();
      if Reserve(cap, g).Some? {
        if cap > Cap() {
          GrownKeeps(cap, g);
        }
        Reserve(cap, g).value.ValuesArePrefix();
        ValuesArePrefix();
      }
    }

    /** The one growth that does not thread the free slots on from the tail. */
    predicate KeepsTail(g: Growth<T>) { links.Forward? && !g.copy && size < Cap() }

    /** The destructor destroys the nodes on the chain of the head. They are the live ones exactly when
        the end is known; otherwise every slot of the storage is visited. */
    lemma DestructorVisitsExactly()
      requires Usable()
      ensures Chain(head) == Slots(head, size) <==> EndKnown()
      ensures !EndKnown() ==> Chain(head) == Range(0, Cap())
    {
      ChainsPartition();
      CopyAssertsExactly();
    }

    lemma PrevInverseIs()
      requires Usable() && links.Doubly?
      ensures PrevInverse() <==> forall i | 0 < i < size :: prev[i] == i - 1
    {
      ChainsPartition();
      var live := Slots(head, size);
      assert forall i | 0 <= i < size :: live[i] == i;
      assert forall i | i in live :: 0 <= i < size;
      if PrevInverse() {
        forall i | 0 < i < size ensures prev[i] == i - 1 {
          assert live[i - 1] in live && next[live[i - 1]] == i;
        }
      }
    }

    /** What a push_back does to the prev of the slots. */
    lemma PushedPrevs(v: T, g: Growth<T>)
      requires Usable() && links.Doubly?
      ensures var st := PushBack(v, g);
        && st.Usable() && st.size == size + 1 && (size > 0 ==> st.prev[size] == size - 1)
        && (size < Cap() ==> forall i | 0 < i < size :: st.prev[i] == prev[i])
        && (size == Cap() && size > 1 ==> st.prev[size - 1] == NPOS)
    {
      WithRoomKeeps(g);
      WithRoom(g).AppendedKeeps(v);
    }

    /** For doubly linked lists, `prev` stays the inverse of `next` through a push_back exactly when
        the list is not grown while it holds two elements or more: growth forgets the tail's prev. */
    lemma PrevInverseExactly(v: T, g: Growth<T>)
      requires Usable() && links.Doubly?
      ensures PushBack(v, g).PrevInverse() <==> ((PrevInverse() && size < Cap()) || size <= 1)
    {
      var st := PushBack(v, g);
      PushedPrevs(v, g);
      PrevInverseIs();
      st.PrevInverseIs();
      if size < Cap() && !PrevInverse() {
        var i :| 0 < i < size && prev[i] != i - 1;
        assert st.prev[i] == prev[i];
      }
    }

    /** ... and through a reserve. */
    lemma ReservePrevExactly(cap: nat, g: Growth<T>)
      requires Usable() && links.Doubly? && Reserve(cap, g).Some?
      ensures var st := Reserve(cap, g).value;
        st.Usable() && st.links.Doubly? && (st.PrevInverse() <==> ((PrevInverse() && cap <= Cap()) || size <= 1))
    {
      if cap > Cap() {
        GrownKeeps(cap, g);
      }
      var st := Reserve(cap, g).value;
      PrevInverseIs();
      st.PrevInverseIs();
    }
  }

  // ---- construction

  /** The two constructors that leave the list empty, over a storage of `cap` raw slots. */
  function Constructed<T>(links: Links, cap: nat, junk: nat -> Node<T>): (st: State<T>)
    ensures st.Inv() && st.Cap() == cap && st.links == links && st.size == 0 && st.head == NPOS
  {
    var raw := State(links, seq(cap, i requires 0 <= i < cap => junk(i).elm),
                     seq(if links.Doubly? then cap else 0, i requires 0 <= i < cap => junk(i).prev),
                     seq(cap, i requires 0 <= i < cap => junk(i).next), NPOS, NPOS, 0, if cap > 0 then 0 else NPOS);
    raw.InitSeq(0, cap)
  }

  /** `_init_initlist`, over a constructed list that has room for the values. */
  function FromValues<T>(st: State<T>, vs: seq<T>): State<T>
    requires st.Inv() && st.size == 0 && st.head == NPOS && |vs| <= st.Cap()
  {
    var ended := if |vs| > 0 then st.SetHead(0).SetTail(|vs| - 1) else st;
    ended.(size := |vs|).SetFhead(if |vs| < st.Cap() then |vs| else NPOS).(elm := vs + st.elm[|vs|..])
  }

  lemma FromValuesHolds<T>(links: Links, cap: nat, junk: nat -> Node<T>, vs: seq<T>)
    requires |vs| <= cap
    ensures var st := FromValues(Constructed(links, cap, junk), vs);
      st.Inv() && st.Values() == vs && st.Cap() == cap && (links.Doubly? ==> st.PrevInverse())
  {
    var st := FromValues(Constructed(links, cap, junk), vs);
    st.ValuesArePrefix();
    if links.Doubly? {
      st.PrevInverseIs();
    }
  }

  // ---- runs

  datatype Op<T> = Push(v: T, g: Growth<T>) | Clear | Reserve(cap: nat, g: Growth<T>)

  /** One client call. A reserve whose assertion fails ends the run. */
  function Step<T>(st: State<T>, op: Op<T>): Option<State<T>>
    requires st.Usable()
  {
    match op
    case Push(v, g) => Some(st.PushBack(v, g))
    case Clear => Some(st.Clear())
    case Reserve(cap, g) => st.Reserve(cap, g)
  }

  lemma StepKeeps<T>(st: State<T>, op: Op<T>)
    requires st.Usable()
    ensures Step(st, op).Some? ==> var s := Step(st, op).value;
      s.Usable() && s.links == st.links && s.Values() == Replayed(st.Values(), op)
  {
    match op
    case Push(v, g) => st.PushBackAppends(v, g);
    case Clear => st.ClearEmpties();
    case Reserve(cap, g) =>
      if st.Reserve(cap, g).Some? {
        if cap > st.Cap() {
          st.GrownKeeps(cap, g);
        }
        st.Reserve(cap, g).value.ValuesArePrefix();
        st.ValuesArePrefix();
      }
  }

  /** The same call on a plain sequence. */
  function Replayed<T>(vs: seq<T>, op: Op<T>): seq<T> {
    match op
    case Push(v, _) => vs + [v]
    case Clear => []
    case Reserve(_, _) => vs
  }

  function Run<T>(st: State<T>, ops: seq<Op<T>>): (r: Option<State<T>>)
    requires st.Usable()
    ensures r.Some? ==> r.value.Usable() && r.value.links == st.links
    decreases |ops|
  {
    if ops == [] then Some(st) else
    StepKeeps(st, ops[0]);
    var s := Step(st, ops[0]);
    if s.None? then None else Run(s.value, ops[1..])
  }

  function Replay<T>(vs: seq<T>, ops: seq<Op<T>>): seq<T>
    decreases |ops|
  {
    if ops == [] then vs else Replay(Replayed(vs, ops[0]), ops[1..])
  }

  /** Every run leaves the values that the same calls leave in a plain sequence: those pushed since
      the last clear. */
  lemma {:induction false} RunRefinesSequence<T>(st: State<T>, ops: seq<Op<T>>)
    requires st.Usable() && Run(st, ops).Some?
    ensures Run(st, ops).value.Values() == Replay(st.Values(), ops)
    decreases |ops|
  {
    if ops != [] {
      StepKeeps(st, ops[0]);
      RunRefinesSequence(Step(st, ops[0]).value, ops[1..]);
    }
  }

  /** The calls of the runs the lists are meant for: reserve only before the first push. */
  predicate Meant<T>(ops: seq<Op<T>>) {
    forall i | 0 <= i < |ops| && ops[i].Reserve? :: forall j | 0 <= j < i :: ops[j].Reserve?
  }

  lemma MeantTail<T>(ops: seq<Op<T>>)
    requires Meant(ops) && ops != []
    ensures Meant(ops[1..]) && (!ops[0].Reserve? ==> Reserveless(ops[1..]))
  {
    var rest := ops[1..];
    forall i | 0 <= i < |rest| && rest[i].Reserve? ensures forall j | 0 <= j < i + 1 :: ops[j].Reserve? {
      assert ops[i + 1] == rest[i];
    }
  }

  predicate Reserveless<T>(ops: seq<Op<T>>) { forall i | 0 <= i < |ops| :: !ops[i].Reserve? }

  /** In such a run no assertion fails and the list is terminated after every call. */
  lemma {:induction false} MeantRunKeepsInv<T>(st: State<T>, ops: seq<Op<T>>)
    requires st.Inv() && Meant(ops) && (st.head == NPOS || Reserveless(ops))
    ensures Run(st, ops).Some? && Run(st, ops).value.Inv()
    decreases |ops|
  {
    if ops != [] {
      MeantTail(ops);
      match ops[0] {
        case Push(v, g) => st.PushBackAppends(v, g);
        case Clear => st.ClearEmpties();
        case Reserve(cap, g) => st.ReserveExactly(cap, g);
      }
      MeantRunKeepsInv(Step(st, ops[0]).value, ops[1..]);
    }
  }

  /** The call leaves the end unknown: a clear of elements, or a reserve that grows a storage with some. */
  predicate LosesEndNow<T>(st: State<T>, op: Op<T>) {
    st.size > 0 &&
    match op
    case Push(_, _) => false
    case Clear => true
    case Reserve(cap, g) => cap > st.Cap() && !st.KeepsTail(g)
  }

  lemma StepEndExactly<T>(st: State<T>, op: Op<T>)
    requires st.Usable() && Step(st, op).Some?
    ensures var s := Step(st, op).value;
      s.Usable() && (s.EndKnown() <==> op.Push? || (st.EndKnown() && !LosesEndNow(st, op)))
  {
    StepKeeps(st, op);
    match op
    case Push(v, g) => st.PushBackAppends(v, g);
    case Clear => st.ClearEmpties();
    case Reserve(cap, g) => st.ReserveExactly(cap, g);
  }

  predicate Pushless<T>(ops: seq<Op<T>>) { forall i | 0 <= i < |ops| :: !ops[i].Push? }

  lemma PushlessTail<T>(ops: seq<Op<T>>)
    requires ops != []
    ensures Pushless(ops) <==> !ops[0].Push? && Pushless(ops[1..])
  {
    if !Pushless(ops) {
      var i :| 0 <= i < |ops| && ops[i].Push?;
      assert i > 0 ==> ops[1..][i - 1] == ops[i];
    }
  }

  /** Such a call is made in the run, and nothing is pushed after it. */
  predicate LosesEnd<T>(st: State<T>, ops: seq<Op<T>>)
    requires st.Usable() && Run(st, ops).Some?
    decreases |ops|
  {
    ops != [] &&
    ((LosesEndNow(st, ops[0]) && Pushless(ops[1..])) ||
     (StepKeeps(st, ops[0]); LosesEnd(Step(st, ops[0]).value, ops[1..])))
  }

  /** After every run the end is unknown exactly when it was lost since the last push. Until then
      iterating and destroying visit every slot, and a reserve that copies fails. */
  lemma {:induction false} EndKnownOverRuns<T>(st: State<T>, ops: seq<Op<T>>)
    requires st.Usable() && Run(st, ops).Some?
    ensures Run(st, ops).value.EndKnown() <==> !LosesEnd(st, ops) && (st.EndKnown() || !Pushless(ops))
    decreases |ops|
  {
    if ops != [] {
      StepEndExactly(st, ops[0]);
      PushlessTail(ops);
      EndKnownOverRuns(Step(st, ops[0]).value, ops[1..]);
    }
  }

  predicate Clearless<T>(ops: seq<Op<T>>) { forall i | 0 <= i < |ops| :: !ops[i].Clear? }

  /** The call grows the storage while two elements or more are live. */
  predicate GrowsLive<T>(st: State<T>, op: Op<T>) {
    st.size > 1 &&
    match op
    case Push(_, _) => st.size == st.Cap()
    case Clear => false
    case Reserve(cap, _) => cap > st.Cap()
  }

  /** Such a call is made in the run, and the list is not cleared after it. */
  predicate ForgetsPrev<T>(st: State<T>, ops: seq<Op<T>>)
    requires st.Usable() && Run(st, ops).Some?
    decreases |ops|
  {
    ops != [] &&
    ((GrowsLive(st, ops[0]) && Clearless(ops[1..])) ||
     (StepKeeps(st, ops[0]); ForgetsPrev(Step(st, ops[0]).value, ops[1..])))
  }

  lemma StepPrevExactly<T>(st: State<T>, op: Op<T>)
    requires st.Usable() && st.links.Doubly? && Step(st, op).Some?
    ensures var s := Step(st, op).value;
      s.Usable() && s.links.Doubly? && (s.PrevInverse() <==> op.Clear? || (st.PrevInverse() && !GrowsLive(st, op)))
  {
    st.PrevInverseIs();
    match op
    case Push(v, g) =>
      st.PushBackAppends(v, g);
      st.PrevInverseExactly(v, g);
    case Clear =>
      st.ClearEmpties();
      st.Clear().PrevInverseIs();
    case Reserve(cap, g) => st.ReservePrevExactly(cap, g);
  }

  lemma ClearlessTail<T>(ops: seq<Op<T>>)
    requires ops != []
    ensures Clearless(ops) <==> !ops[0].Clear? && Clearless(ops[1..])
  {
    if !Clearless(ops) {
      var i :| 0 <= i < |ops| && ops[i].Clear?;
      assert i > 0 ==> ops[1..][i - 1] == ops[i];
    }
  }

  /** After every run of a doubly linked list, prev is the inverse of next exactly when the storage did
      not grow with two elements or more since the last clear; slots recycled through the free list get
      their prev back. */
  lemma {:induction false} PrevInverseOverRuns<T>(st: State<T>, ops: seq<Op<T>>)
    requires st.Usable() && st.links.Doubly? && Run(st, ops).Some?
    ensures Run(st, ops).value.PrevInverse() <==>
      !ForgetsPrev(st, ops) && (st.PrevInverse() || !Clearless(ops))
    decreases |ops|
  {
    if ops != [] {
      StepPrevExactly(st, ops[0]);
      ClearlessTail(ops);
      PrevInverseOverRuns(Step(st, ops[0]).value, ops[1..]);
    }
  }

  /** Two runs make the same calls when they differ at most in what their storages decided. */
  ghost predicate SameCalls<T>(a: seq<Op<T>>, b: seq<Op<T>>) {
    |a| == |b| && forall i | 0 <= i < |a| ::
      match (a[i], b[i])
      case (Push(v, _), Push(w, _)) => v == w
      case (Clear, Clear) => true
      case (Reserve(c, _), Reserve(d, _)) => c == d
      case _ => false
  }

  lemma {:induction false} SameCallsSameReplay<T>(vs: seq<T>, a: seq<Op<T>>, b: seq<Op<T>>)
    requires SameCalls(a, b)
    ensures Replay(vs, a) == Replay(vs, b)
    decreases |a|
  {
    if a != [] {
      assert Replayed(vs, a[0]) == Replayed(vs, b[0]);
      SameCallsSameReplay(Replayed(vs, a[0]), a[1..], b[1..]);
    }
  }

  /** From construction, the same calls give the same size and the same values whatever the links, the
      initial capacity and the growth, in all runs that complete. Those the lists are meant for do. */
  lemma RunsAgree<T>(la: Links, lb: Links, ca: nat, cb: nat, ja: nat -> Node<T>, jb: nat -> Node<T>,
                     a: seq<Op<T>>, b: seq<Op<T>>)
    requires SameCalls(a, b)
    ensures var ra, rb := Run(Constructed(la, ca, ja), a), Run(Constructed(lb, cb, jb), b);
      && (ra.Some? && rb.Some? ==>
           ra.value.Values() == rb.value.Values() == Replay([], a) && ra.value.size == rb.value.size)
      && (Meant(a) ==> ra.Some? && rb.Some? && ra.value.Inv() && rb.value.Inv())
  {
    var sa, sb := Constructed(la, ca, ja), Constructed(lb, cb, jb);
    if Meant(a) {
      SameCallsMeant(a, b);
      MeantRunKeepsInv(sa, a);
      MeantRunKeepsInv(sb, b);
    }
    SameCallsSameReplay<T>([], a, b);
    RunGives(sa, a);
    RunGives(sb, b);
  }

  lemma RunGives<T>(st: State<T>, ops: seq<Op<T>>)
    requires st.Inv() && st.size == 0
    ensures var r := Run(st, ops);
      r.Some? ==> r.value.Values() == Replay([], ops) && r.value.size == |Replay([], ops)|
  {
    if Run(st, ops).Some? {
      st.ValuesArePrefix();
      RunRefinesSequence(st, ops);
      Run(st, ops).value.ValuesArePrefix();
    }
  }

  lemma SameCallsMeant<T>(a: seq<Op<T>>, b: seq<Op<T>>)
    requires SameCalls(a, b)
    ensures Meant(a) <==> Meant(b)
  {
    assert forall i | 0 <= i < |a| :: a[i].Reserve? <==> b[i].Reserve?;
  }
}
