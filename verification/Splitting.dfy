/** Splitting at a separator: next_split, the split range, num_splits (src/c4/string.hpp), and the join
    that undoes them. */
module Splitting {
  import opened Common
  import opened Find

  /** A substring given by where it starts and how long it is, as the source's pointer and size. */
  datatype Sub = Sub(off: nat, len: nat) {
    predicate In(s: string) { off + len <= |s| }

    function Of(s: string): string
      requires In(s)
    {
      s[off..off + len]
    }
  }

  // ---- what a split is

  predicate Without(s: string, c: char) { forall k | 0 <= k < |s| :: s[k] != c }

  predicate Free(ps: seq<string>, sep: char) { forall i | 0 <= i < |ps| :: Without(ps[i], sep) }

  /** The pieces between separators. */
  function Pieces(s: string, sep: char): (ps: seq<string>)
    ensures |ps| >= 1
    decreases |s|
  {
    var i := First(s, Is(sep), true, 0);
    if i == NPOS then [s] else [s[..i]] + Pieces(s[i + 1..], sep)
  }

  /** The splits of a string: its pieces, but none when it is empty. */
  function Splits(s: string, sep: char): seq<string> {
    if s == "" then [] else Pieces(s, sep)
  }

  function Join(ps: seq<string>, sep: char): string {
    if |ps| == 0 then "" else if |ps| == 1 then ps[0] else ps[0] + [sep] + Join(ps[1..], sep)
  }

  /** A first piece and the rest: the one way to split at the first separator. */
  lemma PiecesAtFirst(a: string, b: string, sep: char)
    requires Without(a, sep)
    ensures Pieces(a + [sep] + b, sep) == [a] + Pieces(b, sep)
  {
    var s := a + [sep] + b;
    FirstAtBoundary(a, b, sep);
    assert s[..|a|] == a && s[|a| + 1..] == b;
  }

  lemma FirstAtBoundary(a: string, b: string, sep: char)
    requires Without(a, sep)
    ensures First(a + [sep] + b, Is(sep), true, 0) == |a|
  {
    var s := a + [sep] + b;
    assert s[|a|] == sep;
    assert forall k | 0 <= k < |a| :: s[k] == a[k];
  }

  lemma FreeUpTo(s: string, sep: char, start: nat, e: nat)
    requires start <= e <= |s| && forall k | start <= k < e :: s[k] != sep
    ensures Without(s[start..e], sep)
  {
  }

  lemma CutAt(s: string, i: nat)
    requires i < |s|
    ensures s == s[..i] + [s[i]] + s[i + 1..]
  {
  }

  lemma FirstFinds(s: string, sep: char)
    requires !Without(s, sep)
    ensures var i := First(s, Is(sep), true, 0); 0 <= i < |s| && s[i] == sep && Without(s[..i], sep)
  {
    var k :| 0 <= k < |s| && s[k] == sep;
    assert Is(sep).Has(s[k]);
  }

  /** A string with a separator, cut at the first one. */
  lemma CutAtFirst(s: string, sep: char)
    requires !Without(s, sep)
    ensures var i := First(s, Is(sep), true, 0);
      0 <= i < |s| && Without(s[..i], sep) && s == s[..i] + [sep] + s[i + 1..]
      && Pieces(s, sep) == [s[..i]] + Pieces(s[i + 1..], sep)
  {
    FirstFinds(s, sep);
    CutAt(s, First(s, Is(sep), true, 0));
  }

  lemma {:induction false} PiecesAreFree(s: string, sep: char)
    ensures Free(Pieces(s, sep), sep)
    decreases |s|
  {
    if !Without(s, sep) {
      CutAtFirst(s, sep);
      PiecesAreFree(s[First(s, Is(sep), true, 0) + 1..], sep);
    }
  }

  /** There is always one piece more than there are separators. */
  lemma {:induction false} PiecesCount(s: string, sep: char)
    ensures |Pieces(s, sep)| == 1 + multiset(s)[sep]
    decreases |s|
  {
    if !Without(s, sep) {
      CutAtFirst(s, sep);
      var i := First(s, Is(sep), true, 0);
      PiecesCount(s[i + 1..], sep);
      assert multiset(s) == multiset(s[..i]) + multiset{sep} + multiset(s[i + 1..]) by {
        assert multiset(s) == multiset(s[..i] + [sep] + s[i + 1..]);
      }
      assert multiset(s[..i])[sep] == 0;
    } else {
      PiecesOfFree(s, sep);
    }
  }

  lemma PiecesOfFree(s: string, sep: char)
    requires Without(s, sep)
    ensures Pieces(s, sep) == [s]
  {
  }

  /** Splitting is a homomorphism at every separator, not only the first. */
  lemma {:induction false} PiecesCat(a: string, b: string, sep: char)
    ensures Pieces(a + [sep] + b, sep) == Pieces(a, sep) + Pieces(b, sep)
    decreases |a|
  {
    if Without(a, sep) {
      PiecesAtFirst(a, b, sep);
      PiecesOfFree(a, sep);
    } else {
      CutAtFirst(a, sep);
      var i := First(a, Is(sep), true, 0);
      var x, y := a[..i], a[i + 1..];
      var t := y + [sep] + b;
      PiecesCat(y, b, sep);
      Regroup(a, x, y, b, sep);
      PiecesAtFirst(x, t, sep);
      AppendAssoc([x], Pieces(y, sep), Pieces(b, sep));
    }
  }

  lemma Regroup(a: string, x: string, y: string, b: string, sep: char)
    requires a == x + [sep] + y
    ensures a + [sep] + b == x + [sep] + (y + [sep] + b)
  {
  }

  lemma AppendAssoc(p: seq<string>, q: seq<string>, r: seq<string>)
    ensures p + (q + r) == (p + q) + r
  {
  }

  /** Joining the pieces gives the string back. */
  lemma {:induction false} JoinOfPieces(s: string, sep: char)
    ensures Join(Pieces(s, sep), sep) == s
    decreases |s|
  {
    if !Without(s, sep) {
      CutAtFirst(s, sep);
      var i := First(s, Is(sep), true, 0);
      JoinOfPieces(s[i + 1..], sep);
      assert Pieces(s, sep)[1..] == Pieces(s[i + 1..], sep);
    }
  }

  lemma JoinOfSplits(s: string, sep: char)
    ensures Join(Splits(s, sep), sep) == s
  {
    JoinOfPieces(s, sep);
  }

  lemma {:induction false} PiecesOfJoin(ps: seq<string>, sep: char)
    requires ps != [] && Free(ps, sep)
    ensures Pieces(Join(ps, sep), sep) == ps
    decreases |ps|
  {
    if |ps| == 1 {
      PiecesOfFree(ps[0], sep);
    } else {
      PiecesOfJoin(ps[1..], sep);
      PiecesAtFirst(ps[0], Join(ps[1..], sep), sep);
    }
  }

  /** Splitting a join gives the pieces back, except for the single empty piece: its join is empty
      and has no splits. */
  lemma SplitsOfJoin(ps: seq<string>, sep: char)
    requires Free(ps, sep)
    ensures Splits(Join(ps, sep), sep) == ps <==> ps != [""]
  {
    if ps != [] {
      PiecesOfJoin(ps, sep);
      if Join(ps, sep) == "" {
        assert |ps| == 1;
      }
    }
  }

  /** So the splits are the only separator-free pieces that join to the string. */
  lemma SplitsUnique(s: string, ps: seq<string>, sep: char)
    requires s != "" && Free(ps, sep) && Join(ps, sep) == s
    ensures ps == Splits(s, sep)
  {
    SplitsOfJoin(ps, sep);
  }

  // ---- num_splits and next_split

  method NumSplits(s: string, sep: char) returns (n: nat)
    ensures n == |Splits(s, sep)|
  {
    if s == "" {
      return 0;
    }
    PiecesCount(s, sep);
    var c := Count(s, sep);
    n := 1 + c;
  }

  /** What next_split hands back: whether there was a split, where to go on, and the split. Past the
      end the split starts one past the end of the string, unless the string ends with a separator. */
  datatype Next = Next(valid: bool, pos: nat, out: Sub)

  /** Where the piece that starts at `start` ends. */
  function PieceEnd(s: string, sep: char, start: nat): (e: nat)
    requires start <= |s|
    ensures start <= e <= |s| && (e < |s| ==> s[e] == sep)
  {
    var i := First(s, Is(sep), true, start);
    if i == NPOS then |s| else i
  }

  function NextSplitOf(s: string, sep: char, start: nat): (r: Next)
    ensures r.valid <==> start < |s| || (start == |s| && s != "")
    ensures start < |s| ==> r.out.In(s) && r.pos == start + r.out.len + 1
  {
    if start < |s| then
      var e := PieceEnd(s, sep, start);
      Next(true, e + 1, Sub(start, e - start))
    else
      var valid := s != "" && start == |s|;
      Next(valid, |s| + 1, Sub(if valid && s[|s| - 1] == sep then |s| else |s| + 1, 0))
  }

  /** From the end of the string on there is one more split, at the end itself: empty, inside the string
      after a final separator and past it otherwise. */
  lemma NextSplitAtEnd(s: string, sep: char, start: nat)
    requires start >= |s|
    ensures var r := NextSplitOf(s, sep, start);
      && r.pos == |s| + 1 && r.out.len == 0 && (r.valid <==> s != "" && start == |s|)
      && r.out.off == if s != "" && start == |s| && s[|s| - 1] == sep then |s| else |s| + 1
  {
  }

  method NextSplit(s: string, sep: char, start: nat) returns (r: Next)
    ensures r == NextSplitOf(s, sep, start)
  {
    if start < |s| {
      var i := start;
      while i < |s|
        invariant start <= i <= |s| && First(s, Is(sep), true, start) == First(s, Is(sep), true, i)
      {
        if s[i] == sep {
          return Next(true, i + 1, Sub(start, i - start));
        }
        i := i + 1;
      }
      return Next(true, |s| + 1, Sub(start, |s| - start));
    }
    var valid := s != "" && start == |s|;
    if valid && s != "" && s[|s| - 1] == sep {
      return Next(valid, |s| + 1, Sub(|s|, 0));
    }
    return Next(valid, |s| + 1, Sub(|s| + 1, 0));
  }

  /** What is left of the string when the splits before `pos` are taken: nothing once `pos` is past the end. */
  function Left(s: string, sep: char, pos: nat): seq<string> {
    if s == "" || pos > |s| then [] else Pieces(s[pos..], sep)
  }

  /** The positions next_split hands out: the end itself only after a final separator. */
  predicate Reached(s: string, sep: char, pos: nat) {
    pos <= |s| + 1 && (s != "" && pos == |s| ==> s[|s| - 1] == sep)
  }

  lemma LeftFrom(s: string, sep: char, start: nat)
    requires start < |s|
    ensures var e := PieceEnd(s, sep, start); Left(s, sep, start) == [s[start..e]] + Left(s, sep, e + 1)
  {
    var e := PieceEnd(s, sep, start);
    FreeUpTo(s, sep, start, e);
    if e == |s| {
      assert s[start..e] == s[start..];
      PiecesOfFree(s[start..], sep);
    } else {
      CutFrom(s, sep, start, e);
    }
  }

  lemma CutFrom(s: string, sep: char, start: nat, i: nat)
    requires start <= i < |s| && s[i] == sep && Without(s[start..i], sep)
    ensures Pieces(s[start..], sep) == [s[start..i]] + Pieces(s[i + 1..], sep)
  {
    PiecesAtFirst(s[start..i], s[i + 1..], sep);
    assert s[start..] == s[start..i] + [sep] + s[i + 1..];
  }

  /** One call of next_split takes the first piece off what is left of the string. */
  lemma NextSplitTakesFirst(s: string, sep: char, start: nat)
    requires s != "" && start <= |s| && Reached(s, sep, start)
    ensures var r := NextSplitOf(s, sep, start);
      && r.valid && r.out.In(s) && start < r.pos && Reached(s, sep, r.pos)
      && Left(s, sep, start) == [r.out.Of(s)] + Left(s, sep, r.pos)
  {
    if start < |s| {
      LeftFrom(s, sep, start);
    } else {
      LeftAtEnd(s, sep);
    }
  }

  lemma LeftAtEnd(s: string, sep: char)
    requires s != ""
    ensures Left(s, sep, |s|) == [""] && Sub(|s|, 0).Of(s) == ""
  {
    assert s[|s|..] == "";
    PiecesOfFree("", sep);
  }

  /** The client's loop `while(s.next_split(sep, &pos, &out))`. */
  method CollectByCalls(s: string, sep: char) returns (ps: seq<string>)
    ensures ps == Splits(s, sep)
  {
    ps := [];
    var pos := 0;
    var r := NextSplit(s, sep, pos);
    assert s[0..] == s;
    while r.valid
      invariant Reached(s, sep, pos) && r == NextSplitOf(s, sep, pos)
      invariant Splits(s, sep) == ps + Left(s, sep, pos)
      decreases |s| + 1 - pos
    {
      NextSplitTakesFirst(s, sep, pos);
      assert ps + Left(s, sep, pos) == (ps + [r.out.Of(s)]) + Left(s, sep, r.pos);
      ps := ps + [r.out.Of(s)];
      pos := r.pos;
      r := NextSplit(s, sep, pos);
    }
  }

  // ---- the split range

  class SplitIterator {
    const s: string
    const sep: char
    var str: Sub
    var pos: nat

    constructor (s: string, pos: nat, sep: char)
      ensures this.s == s && this.sep == sep
      ensures str == NextSplitOf(s, sep, pos).out && this.pos == NextSplitOf(s, sep, pos).pos
    {
      this.s, this.sep, this.pos := s, sep, pos;
      str := Sub(0, 0);
      new;
      Tick();
    }

    method Tick()
      modifies this
      ensures str == NextSplitOf(s, sep, old(pos)).out && pos == NextSplitOf(s, sep, old(pos)).pos
    {
      var r := NextSplit(s, sep, pos);
      str, pos := r.out, r.pos;
    }

    method Equals(that: SplitIterator) returns (b: bool)
      requires sep == that.sep
      ensures b <==> str == that.str && pos == that.pos
    {
      if str.len != that.str.len {
        return false;
      }
      if str.off != that.str.off {
        return false;
      }
      return pos == that.pos;
    }
  }

  /** An iterator equals the end iterator exactly when no split is left: no split, not even the empty
      one after a final separator, looks like the end. */
  lemma EndExactly(s: string, sep: char, from: nat)
    requires s == "" || Reached(s, sep, from)
    ensures NextSplitOf(s, sep, |s| + 1) == Next(false, |s| + 1, Sub(|s| + 1, 0))
    ensures var r := NextSplitOf(s, sep, from);
      r.out == Sub(|s| + 1, 0) && r.pos == |s| + 1 <==> Left(s, sep, from) == []
  {
  }

  /** Where the loop over the range is: `left` is to come. */
  ghost predicate At(it: SplitIterator, from: nat, left: seq<string>)
    reads it
  {
    && (it.s == "" || Reached(it.s, it.sep, from)) && left == Left(it.s, it.sep, from)
    && it.str == NextSplitOf(it.s, it.sep, from).out && it.pos == NextSplitOf(it.s, it.sep, from).pos
  }

  /** One round of the loop. */
  method TakeOne(it: SplitIterator, ghost from: nat, ghost left: seq<string>) returns (p: string)
    requires At(it, from, left) && left != []
    modifies it
    ensures from <= |it.s| && from < old(it.pos) && left[0] == p && At(it, old(it.pos), left[1..])
  {
    NextSplitTakesFirst(it.s, it.sep, from);
    p := it.str.Of(it.s);
    it.Tick();
  }

  method Ended(it: SplitIterator, end: SplitIterator, ghost from: nat, ghost left: seq<string>) returns (same: bool)
    requires At(it, from, left) && end.sep == it.sep && end.pos == |it.s| + 1 && end.str == Sub(|it.s| + 1, 0)
    ensures same <==> left == []
  {
    EndExactly(it.s, it.sep, from);
    same := it.Equals(end);
  }

  lemma LeftAtStart(s: string, sep: char, start: nat)
    requires start < |s| || s == ""
    ensures Left(s, sep, start) == if s == "" then [] else Splits(s[start..], sep)
  {
  }

  lemma TakeFirst(ps: seq<string>, left: seq<string>)
    requires left != []
    ensures ps + left == (ps + [left[0]]) + left[1..]
  {
  }

  /** `for(auto x : s.split(sep, start))` */
  method CollectByRange(s: string, sep: char, start: nat) returns (ps: seq<string>)
    requires start < |s| || s == ""
    ensures ps == if s == "" then [] else Splits(s[start..], sep)
  {
    ps := [];
    var it := new SplitIterator(s, start, sep);
    var end := new SplitIterator(s, |s| + 1, sep);
    ghost var all := Left(s, sep, start);
    LeftAtStart(s, sep, start);
    ghost var from, left := start, all;
    assert [] + all == all;
    var same := Ended(it, end, from, left);
    while !same
      invariant it.s == s && it.sep == end.sep == sep && fresh(it) && it != end && At(it, from, left)
      invariant end.pos == |s| + 1 && end.str == Sub(|s| + 1, 0)
      invariant same <==> left == []
      invariant all == ps + left
      decreases |left|
    {
      ghost var next := it.pos;
      TakeFirst(ps, left);
      var p := TakeOne(it, from, left);
      ps := ps + [p];
      from, left := next, left[1..];
      same := Ended(it, end, from, left);
    }
  }
}
