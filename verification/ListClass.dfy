/** The list classes of src/c4/list.hpp with their updates in place. One class stands for the four:
    the CRTP bases are its methods, and the derived class is the layout of its storage. */
module ListClass {
  import opened Common
  import opened ListModel

  /** flat_list, flat_fwd_list, split_list, split_fwd_list */
  datatype Layout = FlatList | FlatFwdList | SplitList | SplitFwdList

  datatype FwdNode<T> = FwdNode(elm: T, next: int)

  /** The raw storage: one array of nodes, or one array per column. */
  datatype Storage<T> =
    | Flat(nodes: seq<Node<T>>)
    | FlatFwd(fwdNodes: seq<FwdNode<T>>)
    | Split(elms: seq<T>, prevs: seq<int>, nexts: seq<int>)
    | SplitFwd(elms: seq<T>, nexts: seq<int>)
  {
    function Links(): Links { if Flat? || Split? then Doubly else Forward }

    function Cap(): nat {
      match this
      case Flat(nodes) => |nodes|
      case FlatFwd(nodes) => |nodes|
      case Split(elms, _, _) => |elms|
      case SplitFwd(elms, _) => |elms|
    }

    predicate Ok() {
      (Split? ==> |elms| == |prevs| == |nexts|) && (SplitFwd? ==> |elms| == |nexts|)
    }

    function Elm(i: int): T
      requires Ok() && 0 <= i < Cap()
    {
      match this
      case Flat(nodes) => nodes[i].elm
      case FlatFwd(nodes) => nodes[i].elm
      case Split(elms, _, _) => elms[i]
      case SplitFwd(elms, _) => elms[i]
    }

    function Next(i: int): int
      requires Ok() && 0 <= i < Cap()
    {
      match this
      case Flat(nodes) => nodes[i].next
      case FlatFwd(nodes) => nodes[i].next
      case Split(_, _, nexts) => nexts[i]
      case SplitFwd(_, nexts) => nexts[i]
    }

    function Prev(i: int): int
      requires Ok() && 0 <= i < Cap() && Links().Doubly?
    {
      match this
      case Flat(nodes) => nodes[i].prev
      case Split(_, prevs, _) => prevs[i]
    }

    function WithElm(i: int, e: T): Storage<T>
      requires Ok() && 0 <= i < Cap()
    {
      match this
      case Flat(nodes) => Flat(nodes[i := nodes[i].(elm := e)])
      case FlatFwd(nodes) => FlatFwd(nodes[i := nodes[i].(elm := e)])
      case Split(elms, prevs, nexts) => Split(elms[i := e], prevs, nexts)
      case SplitFwd(elms, nexts) => SplitFwd(elms[i := e], nexts)
    }

    function WithNext(i: int, v: int): Storage<T>
      requires Ok() && 0 <= i < Cap()
    {
      match this
      case Flat(nodes) => Flat(nodes[i := nodes[i].(next := v)])
      case FlatFwd(nodes) => FlatFwd(nodes[i := nodes[i].(next := v)])
      case Split(elms, prevs, nexts) => Split(elms, prevs, nexts[i := v])
      case SplitFwd(elms, nexts) => SplitFwd(elms, nexts[i := v])
    }

    function WithPrev(i: int, v: int): Storage<T>
      requires Ok() && 0 <= i < Cap() && Links().Doubly?
    {
      match this
      case Flat(nodes) => Flat(nodes[i := nodes[i].(prev := v)])
      case Split(elms, prevs, nexts) => Split(elms, prevs[i := v], nexts)
    }

    /** The storage with `cap` slots: those of this one, then raw ones. */
    function Extended(cap: nat, junk: nat -> Node<T>): (s: Storage<T>)
      requires Ok() && Cap() <= cap
      ensures s.Ok() && s.Cap() == cap && s.Links() == Links()
      ensures forall i | 0 <= i < cap :: s.Elm(i) == if i < Cap() then Elm(i) else junk(i).elm
      ensures forall i | 0 <= i < cap :: s.Next(i) == if i < Cap() then Next(i) else junk(i).next
      ensures Links().Doubly? ==> forall i | 0 <= i < cap :: s.Prev(i) == if i < Cap() then Prev(i) else junk(i).prev
    {
      match this
      case Flat(nodes) => Flat(seq(cap, i requires 0 <= i < cap => if i < |nodes| then nodes[i] else junk(i)))
      case FlatFwd(nodes) =>
        FlatFwd(seq(cap, i requires 0 <= i < cap =>
                  if i < |nodes| then nodes[i] else FwdNode(junk(i).elm, junk(i).next)))
      case Split(elms, prevs, nexts) =>
        Split(seq(cap, i requires 0 <= i < cap => if i < |elms| then elms[i] else junk(i).elm),
              seq(cap, i requires 0 <= i < cap => if i < |elms| then prevs[i] else junk(i).prev),
              seq(cap, i requires 0 <= i < cap => if i < |elms| then nexts[i] else junk(i).next))
      case SplitFwd(elms, nexts) =>
        SplitFwd(seq(cap, i requires 0 <= i < cap => if i < |elms| then elms[i] else junk(i).elm),
                 seq(cap, i requires 0 <= i < cap => if i < |elms| then nexts[i] else junk(i).next))
    }

    /** A buffer without slots, laid out as this one. */
    function Emptied(): (s: Storage<T>)
      ensures s.Ok() && s.Cap() == 0 && s.Links() == Links()
    {
      match this
      case Flat(_) => Flat([])
      case FlatFwd(_) => FlatFwd([])
      case Split(_, _, _) => Split([], [], [])
      case SplitFwd(_, _) => SplitFwd([], [])
    }

    /** The columns, whatever the layout. */
    ghost predicate Shows(elm: seq<T>, prev: seq<int>, next: seq<int>) {
      && Ok() && |elm| == |next| == Cap() && |prev| == (if Links().Doubly? then Cap() else 0)
      && (forall i | 0 <= i < Cap() :: elm[i] == Elm(i))
      && (forall i | 0 <= i < Cap() :: next[i] == Next(i))
      && (forall i | 0 <= i < |prev| :: prev[i] == Prev(i))
    }
  }

  function EmptyStorage<T>(layout: Layout): Storage<T> {
    match layout
    case FlatList => Flat([])
    case FlatFwdList => FlatFwd([])
    case SplitList => Split([], [], [])
    case SplitFwdList => SplitFwd([], [])
  }

  class List<T> {
    var store: Storage<T>
    var head: int
    var tail: int
    var size: nat
    var fhead: int

    // the columns of the storage
    ghost var elm: seq<T>
    ghost var prev: seq<int>
    ghost var next: seq<int>

    ghost predicate Valid()
      reads this
    {
      store.Shows(elm, prev, next)
    }

    ghost function View(): (st: State<T>)
      reads this
      ensures Valid() ==> st.Shaped()
    {
      State(store.Links(), elm, prev, next, head, tail, size, fhead)
    }

    ghost function Values(): seq<T>
      reads this
      requires Valid()
    {
      View().Values()
    }

    constructor WithCapacity(layout: Layout, cap: nat, junk: nat -> Node<T>)
      ensures Valid() && View() == Constructed(store.Links(), cap, junk)
      ensures store.Links() == if layout.FlatList? || layout.SplitList? then Doubly else Forward
    {
      var raw := EmptyStorage<T>(layout).Extended(cap, junk);
      store := raw;
      elm := seq(cap, i requires 0 <= i < cap => junk(i).elm);
      prev := seq(if raw.Links().Doubly? then cap else 0, i requires 0 <= i < cap => junk(i).prev);
      next := seq(cap, i requires 0 <= i < cap => junk(i).next);
      head, tail, size := NPOS, NPOS, 0;
      fhead := if cap > 0 then 0 else NPOS;
      new;
      InitSeq(0, cap);
    }

    /** `_init_initlist`: what the aggregate constructors do to a list just constructed. */
    method InitInitlist(vs: seq<T>)
      requires Valid() && View().Inv() && size == 0 && head == NPOS && |vs| <= store.Cap()
      modifies this
      ensures Valid() && View() == FromValues(old(View()), vs)
    {
      if |vs| > 0 {
        SetHead(0);
        SetTail(|vs| - 1);
      }
      size := |vs|;
      SetFhead(if store.Cap() - size > 0 then |vs| else NPOS);
      ConstructAll(vs);
    }

    method ConstructAll(vs: seq<T>)
      requires Valid() && |vs| <= store.Cap()
      modifies this
      ensures Valid() && View() == old(View()).(elm := vs + old(elm)[|vs|..])
    {
      var k := 0;
      while k < |vs|
        invariant 0 <= k <= |vs| && Valid()
        invariant View() == old(View()).(elm := elm) && |elm| == old(|elm|)
        invariant forall i | 0 <= i < |elm| :: elm[i] == if i < k then vs[i] else old(elm)[i]
      {
        SetElm(k, vs[k]);
        k := k + 1;
      }
      assert elm == vs + old(elm)[|vs|..];
    }

    // ---- setters

    method SetElm(i: int, e: T)
      requires Valid() && View().Slot(i)
      modifies this
      ensures Valid() && View() == old(View()).(elm := old(View()).elm[i := e])
    {
      store := store.WithElm(i, e);
      elm := elm[i := e];
    }

    method SetPrev(i: int, v: int)
      requires Valid() && View().Slot(i)
      modifies this
      ensures Valid() && View() == old(View()).SetPrev(i, v)
    {
      if store.Links().Doubly? {
        store := store.WithPrev(i, v);
        prev := prev[i := v];
      }
    }

    method SetNext(i: int, v: int)
      requires Valid() && View().Slot(i)
      modifies this
      ensures Valid() && View() == old(View()).SetNext(i, v)
    {
      store := store.WithNext(i, v);
      next := next[i := v];
    }

    method SetHead(i: int)
      requires Valid() && View().Slot(i)
      modifies this
      ensures Valid() && View() == old(View()).SetHead(i)
    {
      head := i;
      SetPrev(i, NPOS);
    }

    method SetTail(i: int)
      requires Valid() && View().Slot(i)
      modifies this
      ensures Valid() && View() == old(View()).SetTail(i)
    {
      tail := i;
      SetNext(i, NPOS);
    }

    method SetFhead(i: int)
      requires Valid()
      modifies this
      ensures Valid() && View() == old(View()).SetFhead(i)
    {
      fhead := i;
      if 0 <= i < store.Cap() && i != NPOS {
        SetPrev(i, NPOS);
      }
    }

    // ---- the free list and the growth

    method InitSeq(first: nat, last: nat)
      requires Valid() && first <= last <= store.Cap()
      modifies this
      ensures Valid() && View() == old(View()).InitSeq(first, last)
    {
      if last == first {
        return;
      }
      ghost var st := View();
      LinkPrevs(first, last);
      LinkNexts(first, last);
      assert View().next == st.InitSeq(first, last).next;
      assert View().prev == st.InitSeq(first, last).prev;
    }

    method LinkPrevs(first: nat, last: nat)
      requires Valid() && first < last <= store.Cap()
      modifies this
      ensures Valid() && View() == old(View()).(prev := prev) && |prev| == old(|prev|)
      ensures forall k | 0 <= k < |prev| ::
        prev[k] == if k == first then NPOS else if first < k < last then k - 1 else old(prev)[k]
    {
      SetPrev(first, NPOS);
      var i := first + 1;
      while i < last
        invariant first < i <= last && Valid()
        invariant View() == old(View()).(prev := prev) && |prev| == old(|prev|)
        invariant forall k | 0 <= k < |prev| ::
          prev[k] == if k == first then NPOS else if first < k < i then k - 1 else old(prev)[k]
      {
        SetPrev(i, i - 1);
        i := i + 1;
      }
    }

    method LinkNexts(first: nat, last: nat)
      requires Valid() && first < last <= store.Cap()
      modifies this
      ensures Valid() && View() == old(View()).(next := next) && |next| == old(|next|)
      ensures forall k | 0 <= k < |next| ::
        next[k] == if first <= k < last - 1 then k + 1 else if k == last - 1 then NPOS else old(next)[k]
    {
      var i := first;
      while i < last - 1
        invariant first <= i <= last - 1 && Valid()
        invariant View() == old(View()).(next := next) && |next| == old(|next|)
        invariant forall k | 0 <= k < |next| :: next[k] == if first <= k < i then k + 1 else old(next)[k]
      {
        SetNext(i, i + 1);
        i := i + 1;
      }
      SetNext(last - 1, NPOS);
    }

    method AdjustFhead(cap: nat, nextCap: nat)
      requires Valid()
      modifies this
      ensures Valid() && View() == old(View()).AdjustFhead(cap, nextCap)
    {
      if fhead != NPOS {
        return;
      }
      if nextCap >= cap {
        SetFhead(cap);
      } else {
        SetFhead(nextCap);
      }
    }

    method SetSeqHead(cap: nat, nextCap: nat)
      requires Valid() && cap <= nextCap <= store.Cap() && (tail == NPOS || 0 <= tail < nextCap)
      modifies this
      ensures Valid() && View() == old(View()).SetSeqHead(cap, nextCap)
    {
      if store.Links().Doubly? {
        var first := if tail != NPOS then tail else 0;
        InitSeq(first, nextCap);
      } else {
        var capm1 := if cap > 0 then cap - 1 else 0;
        InitSeq(capm1, nextCap);
      }
      AdjustFhead(cap, nextCap);
    }

    /** The loop of the copying branch writes the nodes in logical order into another buffer. */
    method CopyNodes(cap: nat, g: Growth<T>) returns (tmp: Storage<T>, pos: nat)
      requires Valid() && View().Usable() && cap >= store.Cap()
      ensures pos == |View().Chain(head)| && tmp.Ok() && tmp.Cap() == cap && tmp.Links() == store.Links()
      ensures forall k | 0 <= k < cap :: tmp.Elm(k) == if k < pos then elm[k] else g.junk(k).elm
      ensures forall k | 0 <= k < cap ::
        tmp.Next(k) == if k < pos then (if k < size then k + 1 else NPOS) else g.junk(k).next
      ensures tmp.Links().Doubly? ==> forall k | 0 <= k < cap ::
        tmp.Prev(k) == if k < pos then (if k > 0 then k - 1 else NPOS) else g.junk(k).prev
    {
      tmp := store.Emptied().Extended(cap, g.junk);
      ghost var n := |View().Chain(head)|;
      FollowChain(View());
      pos := 0;
      var i := head;
      while i != NPOS
        invariant pos <= n <= store.Cap() && tmp.Ok() && tmp.Cap() == cap && tmp.Links() == store.Links()
        invariant i == (if pos < n then pos else NPOS)
        invariant forall k | 0 <= k < cap :: tmp.Elm(k) == if k < pos then elm[k] else g.junk(k).elm
        invariant forall k | 0 <= k < cap ::
          tmp.Next(k) == if k < pos then (if k < size then k + 1 else NPOS) else g.junk(k).next
        invariant tmp.Links().Doubly? ==> forall k | 0 <= k < cap ::
          tmp.Prev(k) == if k < pos then (if k > 0 then k - 1 else NPOS) else g.junk(k).prev
        decreases n - pos
      {
        tmp := Moved(tmp, pos, store.Elm(i), if pos > 0 then pos - 1 else NPOS, if pos < size then pos + 1 else NPOS);
        i := store.Next(i);
        pos := pos + 1;
      }
    }

    /** The copying branch up to the replacement of the buffer. `ok` is its assertion that the walk
        met size() nodes. */
    method CopyTo(cap: nat, g: Growth<T>) returns (ok: bool)
      requires Valid() && View().Usable() && cap >= store.Cap()
      modifies this
      ensures Valid() && ok == old(View()).CopyAsserts()
      ensures View() == if ok then old(View()).Copied(cap, g) else old(View())
    {
      var tmp, pos := CopyNodes(cap, g);
      ok := pos == size;
      if ok {
        View().CopyAssertsExactly();
        ghost var st := View().Copied(cap, g);
        store := tmp;
        elm, prev, next := st.elm, st.prev, st.next;
      }
    }

    method CopyGrow(cap: nat, g: Growth<T>) returns (ok: bool)
      requires Valid() && View().Usable() && cap > store.Cap()
      modifies this
      ensures Valid() && ok == old(View()).CopyAsserts()
      ensures View() == if ok then old(View()).CopyGrown(cap, g) else old(View())
    {
      ok := CopyTo(cap, g);
      if ok {
        SetSeqHead(size, store.Cap());
      }
    }

    method ExtendGrow(cap: nat, g: Growth<T>)
      requires Valid() && View().Usable() && cap > store.Cap()
      modifies this
      ensures Valid() && View() == old(View()).ExtendGrown(cap, g)
    {
      var curr := store.Cap();
      ghost var st := View().Extended(cap, g);
      store := store.Extended(cap, g.junk);
      elm, prev, next := st.elm, st.prev, st.next;
      SetSeqHead(curr, store.Cap());
    }

    method GrowTo(nextCap: nat, g: Growth<T>) returns (ok: bool)
      requires Valid() && View().Usable() && nextCap > store.Cap()
      modifies this
      ensures Valid() && ok == (g.copy ==> old(View()).CopyAsserts())
      ensures View() == if ok then old(View()).Grown(nextCap, g) else old(View())
    {
      ghost var st := View();
      if g.copy {
        ok := CopyGrow(nextCap + g.extra, g);
        assert ok ==> View() == st.Grown(nextCap, g);
      } else {
        ExtendGrow(nextCap + g.extra, g);
        ok := true;
        assert View() == st.Grown(nextCap, g);
      }
    }

    /** `_make_room_for(1)` */
    method MakeRoomForOne(g: Growth<T>)
      requires Valid() && View().Usable()
      modifies this
      ensures Valid() && View() == old(View()).WithRoom(g)
    {
      if size + 1 > store.Cap() {
        View().ChainWhenFull();
        var ok := GrowTo(size + 1, g);
      }
    }

    /** `_claim` once there is room: the assertions on the free head and the size hold. */
    method Claim() returns (pos: int)
      requires Valid() && View().Usable() && size < store.Cap()
      modifies this
      ensures Valid() && pos == old(fhead) && View() == old(View()).SetFhead(old(next)[pos])
    {
      assert fhead != NPOS && size + 1 <= store.Cap();
      pos := fhead;
      var last := store.Next(pos);
      SetFhead(last);
    }

    /** The rest of `_append`. */
    method Link() returns (pos: int)
      requires Valid() && View().Usable() && size < store.Cap()
      modifies this
      ensures Valid() && pos == old(fhead) && View() == old(View()).Linked()
    {
      pos := Claim();
      if size > 0 {
        SetPrev(pos, tail);
        SetNext(tail, pos);
      } else {
        SetHead(0);
      }
      size := size + 1;
      SetTail(pos);
    }

    method Append(g: Growth<T>) returns (pos: int)
      requires Valid() && View().Usable()
      modifies this
      ensures var room := old(View()).WithRoom(g);
        room.Usable() && room.size < room.Cap() && pos == room.fhead && Valid() && View() == room.Linked()
    {
      View().WithRoomKeeps(g);
      MakeRoomForOne(g);
      pos := Link();
    }

    // ---- public operations

    method PushBack(v: T, g: Growth<T>)
      requires Valid() && View().Usable()
      modifies this
      ensures Valid() && View() == old(View()).PushBack(v, g)
      ensures View().Inv() && Values() == old(Values()) + [v]
    {
      View().PushBackAppends(v, g);
      var pos := Append(g);
      SetElm(pos, v);
    }

    method Clear()
      requires Valid() && View().Usable()
      modifies this
      ensures Valid() && View() == old(View()).Clear()
      ensures View().Inv() && Values() == []
    {
      View().ClearEmpties();
      if size == 0 {
        return;
      }
      SetNext(tail, fhead);
      fhead := head;
      size := 0;
    }

    method Reserve(cap: nat, g: Growth<T>) returns (ok: bool)
      requires Valid() && View().Usable()
      modifies this
      ensures Valid() && ok == old(View()).Reserve(cap, g).Some?
      ensures View() == if ok then old(View()).Reserve(cap, g).value else old(View())
    {
      ok := true;
      var curr := store.Cap();
      if cap > curr {
        ok := GrowTo(cap, g);
      }
    }

    /** The destructor: destroys the elements from the head up to npos and reports their slots. */
    method Destroy() returns (destroyed: seq<int>)
      requires Valid() && View().Usable()
      ensures destroyed == View().Chain(head)
      ensures destroyed == View().Slots(head, size) <==> View().EndKnown()
    {
      ghost var full := View().Chain(head);
      View().DestructorVisitsExactly();
      FollowChain(View());
      destroyed := [];
      var i := head;
      while i != NPOS
        invariant |destroyed| <= |full| && destroyed == Range(0, |destroyed|)
        invariant i == if |destroyed| < |full| then |destroyed| else NPOS
        decreases |full| - |destroyed|
      {
        RangeNext(|destroyed|);
        destroyed := destroyed + [i];
        i := store.Next(i);
      }
    }

    /** A client's loop over the iterators, from the head up to npos. */
    method Iterate() returns (es: seq<T>)
      requires Valid() && View().Usable()
      ensures es == View().Iterated()
      ensures es == Values() <==> View().EndKnown()
    {
      ghost var n := |View().Chain(head)|;
      FollowChain(View());
      View().CopyAssertsExactly();
      View().IterationShowsValuesExactly();
      es := [];
      var i := head;
      while i != NPOS
        invariant |es| <= n <= |elm| && es == elm[..|es|]
        invariant i == if |es| < n then |es| else NPOS
        decreases n - |es|
      {
        es := es + [store.Elm(i)];
        i := store.Next(i);
      }
      assert es == View().Iterated();
    }

    method Call(op: Op<T>) returns (ok: bool)
      requires Valid() && View().Usable()
      modifies this
      ensures Valid() && ok == Step(old(View()), op).Some?
      ensures View() == if ok then Step(old(View()), op).value else old(View())
    {
      ok := true;
      match op {
        case Push(v, g) => PushBack(v, g);
        case Clear => Clear();
        case Reserve(cap, g) => ok := Reserve(cap, g);
      }
    }

    /** Makes the calls of a run one after another. */
    method Play(ops: seq<Op<T>>) returns (ok: bool)
      requires Valid() && View().Usable()
      modifies this
      ensures Valid() && ok == Run(old(View()), ops).Some? && store.Links() == old(store.Links())
      ensures ok ==> View() == Run(old(View()), ops).value && Values() == Replay(old(Values()), ops)
    {
      ok := true;
      var k := 0;
      while k < |ops| && ok
        invariant 0 <= k <= |ops| && Valid() && View().Usable() && View().links == old(View()).links
        invariant ok ==> Run(old(View()), ops) == Run(View(), ops[k..])
        invariant !ok ==> Run(old(View()), ops).None?
      {
        StepKeeps(View(), ops[k]);
        assert ops[k..][0] == ops[k] && ops[k..][1..] == ops[k + 1..];
        ok := Call(ops[k]);
        k := k + 1;
      }
      if ok {
        RunRefinesSequence(old(View()), ops);
      }
    }
  }

  /** The four list classes and every storage agree: lists of any two layouts, just constructed, that get
      the same calls have the same size and the same values, whatever their storages decide, unless the
      assertion of a reserve failed in one of them. In runs the lists are meant for none does. */
  method PlayOnTwo<T>(la: Layout, lb: Layout, ca: nat, cb: nat, ja: nat -> Node<T>, jb: nat -> Node<T>,
                      a: seq<Op<T>>, b: seq<Op<T>>) returns (x: List<T>, y: List<T>, ok: bool)
    requires SameCalls(a, b)
    ensures fresh(x) && fresh(y) && x != y && x.Valid() && y.Valid()
    ensures ok ==> x.Values() == y.Values() == Replay([], a) && x.size == y.size
    ensures Meant(a) ==> ok && x.View().Inv() && y.View().Inv()
    ensures ok <==> Run(Constructed(x.store.Links(), ca, ja), a).Some? && Run(Constructed(y.store.Links(), cb, jb), b).Some?
  {
    x := new List<T>.WithCapacity(la, ca, ja);
    y := new List<T>.WithCapacity(lb, cb, jb);
    ghost var sx, sy := x.View(), y.View();
    RunsAgree(sx.links, sy.links, ca, cb, ja, jb, a, b);
    var okx := x.Play(a);
    var oky := y.Play(b);
    ok := okx && oky;
  }

  /** The node moved into slot `pos` of the new buffer. */
  function Moved<T>(tmp: Storage<T>, pos: nat, e: T, prev: int, next: int): (s: Storage<T>)
    requires tmp.Ok() && pos < tmp.Cap()
    ensures s.Ok() && s.Cap() == tmp.Cap() && s.Links() == tmp.Links()
    ensures forall k | 0 <= k < s.Cap() :: s.Elm(k) == if k == pos then e else tmp.Elm(k)
    ensures forall k | 0 <= k < s.Cap() :: s.Next(k) == if k == pos then next else tmp.Next(k)
    ensures s.Links().Doubly? ==> forall k | 0 <= k < s.Cap() :: s.Prev(k) == if k == pos then prev else tmp.Prev(k)
  {
    var t := tmp.WithElm(pos, e);
    (if t.Links().Doubly? then t.WithPrev(pos, prev) else t).WithNext(pos, next)
  }

  lemma RangeNext(n: nat)
    ensures Range(0, n) + [n as int] == Range(0, n + 1)
  {
  }

  /** Following `next` from the head meets slots 0, 1, 2, ... and then npos. */
  lemma FollowChain<T>(st: State<T>)
    requires st.Usable()
    ensures var n := |st.Chain(st.head)|;
      && st.Chain(st.head) == Range(0, n) && n <= st.Cap() && st.head == (if n > 0 then 0 else NPOS)
      && forall k | 0 <= k < n :: st.next[k] == if k + 1 < n then k + 1 else NPOS
  {
    var cap := st.Cap();
    if st.size > 0 && st.next[st.size - 1] == NPOS {
      st.SlotsOfRun(0, st.size, cap);
    } else if st.head == 0 {
      st.SlotsOfRun(0, cap, cap);
    }
  }
}
