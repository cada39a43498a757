/** The substring operations of `_str_crtp` that take paths apart: trim*, popl, popr, gpopl, gpopr,
    basename and dirname (src/c4/string.hpp). Each computes a substring of the string it is called on. */
module Paths {
  import opened Common
  import opened Find
  import opened Splitting

  predicate AllIn(s: string, cl: CharSet) { forall k | 0 <= k < |s| :: cl.Has(s[k]) }

  // ---- the operations

  /** A substring of a substring, as a substring of the whole. */
  function Within(outer: Sub, inner: Sub): Sub { Sub(outer.off + inner.off, inner.len) }

  function TrimL(s: string, cl: CharSet): (r: Sub)
    ensures r.In(s)
    ensures r.Of(s) != "" ==> AllIn(s[..r.off], cl) && r.off + r.len == |s| && !cl.Has(s[r.off])
    ensures r.Of(s) == "" ==> AllIn(s, cl)
  {
    if s == "" then Sub(0, 0) else
    var pos := First(s, cl, false, 0);
    if pos != NPOS then Sub(pos, |s| - pos) else Sub(0, 0)
  }

  function TrimR(s: string, cl: CharSet): (r: Sub)
    ensures r.In(s) && r.off == 0 && AllIn(s[r.len..], cl)
    ensures r.len > 0 ==> !cl.Has(s[r.len - 1])
  {
    if s == "" then Sub(0, 0) else
    var pos := Last(s, cl, false, |s| - 1);
    if pos != NPOS then Sub(0, pos + 1) else Sub(0, 0)
  }

  function Trim(s: string, cl: CharSet): (r: Sub)
    ensures r.In(s) && AllIn(s[..r.off], cl) && (r.len > 0 ==> AllIn(s[r.off + r.len..], cl))
    ensures r.len > 0 ==> !cl.Has(s[r.off]) && !cl.Has(s[r.off + r.len - 1])
    ensures r.len == 0 ==> AllIn(s, cl)
  {
    if s == "" then Sub(0, 0) else
    var b := First(s, cl, false, 0);
    if b == NPOS then Sub(0, 0) else
    var e := Last(s, cl, false, |s| - 1);
    Sub(b, e - b + 1)
  }

  /** What lies before, and what lies after, a substring. */
  function CompLL(s: string, ss: Sub): Sub
    requires ss.In(s)
  {
    Sub(0, ss.off)
  }

  function CompLR(s: string, ss: Sub): Sub
    requires ss.In(s)
  {
    Sub(ss.off + ss.len, |s| - ss.off - ss.len)
  }

  predicate BeginsWith(s: string, c: char) { s != "" && s[0] == c }

  predicate EndsWith(s: string, c: char) { s != "" && s[|s| - 1] == c }

  function PopR(s: string, sep: char, skipEmpty: bool): (r: Sub)
    ensures r.In(s)
  {
    if |s| > 1 then
      var pos := Last(s, Is(sep), true, |s| - 1);
      if pos != NPOS then
        if pos < |s| - 1 then Sub(pos + 1, |s| - pos - 1)
        else if !skipEmpty then Sub(pos + 1, 0)
        else
          var ppos := Last(s, Is(sep), false, |s| - 1);
          if ppos == NPOS then Sub(0, 0) else
          var pos0 := Last(s, Is(sep), true, ppos);
          if pos0 == NPOS then Sub(0, |s|) else Sub(pos0 + 1, |s| - pos0 - 1)
      else Sub(0, |s|)
    else if |s| == 1 then
      if BeginsWith(s, sep) then Sub(0, 0) else Sub(0, |s|)
    else Sub(0, |s|)
  }

  function PopL(s: string, sep: char, skipEmpty: bool): (r: Sub)
    ensures r.In(s)
  {
    if |s| > 1 then
      var pos := First(s, Is(sep), true, 0);
      if pos != NPOS then
        if pos > 0 then Sub(0, pos)
        else if !skipEmpty then Sub(0, 0)
        else
          var ppos := First(s, Is(sep), false, 0);
          if ppos == NPOS then Sub(0, 0) else
          var pos0 := First(s, Is(sep), true, ppos);
          if pos0 == NPOS then Sub(0, |s|) else Sub(0, pos0)
      else Sub(0, |s|)
    else if |s| == 1 then
      if BeginsWith(s, sep) then Sub(0, 0) else Sub(0, |s|)
    else Sub(0, |s|)
  }

  function GPopR(s: string, sep: char, skipEmpty: bool): (r: Sub)
    ensures r.In(s)
  {
    var ss := CompLR(s, PopL(s, sep, skipEmpty));
    var t := ss.Of(s);
    if t != "" && First(t, Is(sep), true, 0) != NPOS && BeginsWith(t, sep) then
      if skipEmpty then Within(ss, TrimL(t, Is(sep))) else Within(ss, Sub(1, |t| - 1))
    else ss
  }

  function GPopL(s: string, sep: char, skipEmpty: bool): (r: Sub)
    ensures r.In(s) && r.off == 0
  {
    var ss := CompLL(s, PopR(s, sep, skipEmpty));
    var t := ss.Of(s);
    if t != "" && First(t, Is(sep), true, 0) != NPOS && EndsWith(t, sep) then
      if skipEmpty then Within(ss, TrimR(t, Is(sep))) else Within(ss, Sub(0, |t| - 1))
    else ss
  }

  function BaseName(s: string, sep: char): (r: Sub)
    ensures r.In(s)
  {
    var ss := PopR(s, sep, true);
    Within(ss, TrimR(ss.Of(s), Is(sep)))
  }

  function DirName(s: string, sep: char): (r: Sub)
    ensures r.In(s) && r.off == 0
  {
    var ss := GPopL(s, sep, true);
    if !EndsWith(ss.Of(s), sep) && |s| > ss.len then
      var rem := CompLR(s, ss);
      if multiset(rem.Of(s))[sep] == rem.len then Sub(0, |s|)
      else if s[ss.len] == sep then Sub(0, ss.len + 1)
      else ss
    else ss
  }

  // ---- pops and the splitter

  /** Popping on the left keeps to the splits: popl is the first, gpopr joins the others, and wherever
      the separator occurs the two and a separator make up the string. */
  lemma LeftPopsAgreeWithSplits(s: string, sep: char)
    requires s != ""
    ensures var ps := Splits(s, sep); var l, r := PopL(s, sep, false).Of(s), GPopR(s, sep, false).Of(s);
      l == ps[0] && r == Join(ps[1..], sep) && (!Without(s, sep) ==> l + [sep] + r == s)
  {
    if !Without(s, sep) {
      LeftPops(s, sep);
    } else {
      PiecesOfFree(s, sep);
      PopLOfFree(s, sep);
    }
  }

  /** Popping on the right: popr is the last split, gpopl joins the others. */
  lemma RightPopsAgreeWithSplits(s: string, sep: char)
    requires s != ""
    ensures var ps := Splits(s, sep); var l, r := GPopL(s, sep, false).Of(s), PopR(s, sep, false).Of(s);
      r == ps[|ps| - 1] && l == Join(ps[..|ps| - 1], sep) && (!Without(s, sep) ==> l + [sep] + r == s)
  {
    if !Without(s, sep) {
      RightPops(s, sep);
    } else {
      PiecesOfFree(s, sep);
      PopROfFree(s, sep);
    }
  }

  lemma PopLOfFree(s: string, sep: char)
    requires Without(s, sep)
    ensures PopL(s, sep, false).Of(s) == s && GPopR(s, sep, false).Of(s) == ""
  {
    assert CompLR(s, Sub(0, |s|)).Of(s) == "";
  }

  lemma PopROfFree(s: string, sep: char)
    requires Without(s, sep)
    ensures PopR(s, sep, false).Of(s) == s && GPopL(s, sep, false).Of(s) == ""
  {
  }

  lemma LeftPops(s: string, sep: char)
    requires !Without(s, sep)
    ensures var i := First(s, Is(sep), true, 0);
      && 0 <= i < |s| && s == s[..i] + [sep] + s[i + 1..]
      && PopL(s, sep, false).Of(s) == s[..i] == Pieces(s, sep)[0]
      && GPopR(s, sep, false).Of(s) == s[i + 1..] == Join(Pieces(s, sep)[1..], sep)
  {
    CutAtFirst(s, sep);
    var i := First(s, Is(sep), true, 0);
    assert Pieces(s, sep)[1..] == Pieces(s[i + 1..], sep);
    JoinOfPieces(s[i + 1..], sep);
    LeftPopsAt(s, sep, i);
  }

  lemma LeftPopsAt(s: string, sep: char, i: nat)
    requires i < |s| && First(s, Is(sep), true, 0) == i && s[i] == sep
    ensures PopL(s, sep, false) == Sub(0, i) && GPopR(s, sep, false) == Sub(i + 1, |s| - i - 1)
  {
    var t := CompLR(s, Sub(0, i)).Of(s);
    assert t[0] == sep;
    assert First(t, Is(sep), true, 0) == 0;
  }

  lemma LastFinds(s: string, sep: char)
    requires !Without(s, sep)
    ensures var i := Last(s, Is(sep), true, |s| - 1);
      0 <= i < |s| && s[i] == sep && forall k | i < k < |s| :: s[k] != sep
  {
    var k :| 0 <= k < |s| && s[k] == sep;
    assert Is(sep).Has(s[k]);
  }

  lemma CutAtLast(s: string, sep: char)
    requires !Without(s, sep)
    ensures var i := Last(s, Is(sep), true, |s| - 1);
      0 <= i < |s| && s[i] == sep && Without(s[i + 1..], sep) && s == s[..i] + [sep] + s[i + 1..]
  {
    LastFinds(s, sep);
    CutAt(s, Last(s, Is(sep), true, |s| - 1));
  }

  lemma RightPops(s: string, sep: char)
    requires !Without(s, sep)
    ensures var i := Last(s, Is(sep), true, |s| - 1); var ps := Pieces(s, sep);
      && 0 <= i < |s| && s == s[..i] + [sep] + s[i + 1..]
      && PopR(s, sep, false).Of(s) == s[i + 1..] == ps[|ps| - 1]
      && GPopL(s, sep, false).Of(s) == s[..i] == Join(ps[..|ps| - 1], sep)
  {
    CutAtLast(s, sep);
    var i := Last(s, Is(sep), true, |s| - 1);
    RightPopsAt(s, sep, i);
    LastPiece(s[..i], s[i + 1..], sep);
  }

  lemma LastPiece(a: string, b: string, sep: char)
    requires Without(b, sep)
    ensures var ps := Pieces(a + [sep] + b, sep); ps[|ps| - 1] == b && Join(ps[..|ps| - 1], sep) == a
  {
    PiecesCat(a, b, sep);
    PiecesOfFree(b, sep);
    JoinOfPieces(a, sep);
    var ps := Pieces(a + [sep] + b, sep);
    assert ps[..|ps| - 1] == Pieces(a, sep);
  }

  lemma RightPopsAt(s: string, sep: char, i: nat)
    requires i < |s| && Last(s, Is(sep), true, |s| - 1) == i && s[i] == sep
    ensures PopR(s, sep, false).Of(s) == s[i + 1..] && GPopL(s, sep, false) == Sub(0, i)
  {
    PopRAt(s, sep, i);
    if |s| > 1 {
      HeadUpTo(s, sep, i);
    }
  }

  lemma PopRAt(s: string, sep: char, i: nat)
    requires i < |s| && Last(s, Is(sep), true, |s| - 1) == i && s[i] == sep
    ensures PopR(s, sep, false).Of(s) == s[i + 1..]
    ensures |s| > 1 ==> PopR(s, sep, false) == Sub(i + 1, |s| - i - 1)
  {
  }

  lemma HeadUpTo(s: string, sep: char, i: nat)
    requires i < |s| && s[i] == sep
    ensures var t := CompLL(s, Sub(i + 1, |s| - i - 1)).Of(s);
      |t| == i + 1 && EndsWith(t, sep) && First(t, Is(sep), true, 0) != NPOS
  {
    var t := CompLL(s, Sub(i + 1, |s| - i - 1)).Of(s);
    assert t[i] == sep;
    assert Is(sep).Has(t[i]);
  }

  // ---- basename and dirname

  function NonEmpty(ps: seq<string>): seq<string> {
    if ps == [] then [] else (if ps[0] == "" then [] else [ps[0]]) + NonEmpty(ps[1..])
  }

  lemma {:induction false} NonEmptyCat(a: seq<string>, b: seq<string>)
    ensures NonEmpty(a + b) == NonEmpty(a) + NonEmpty(b)
    decreases |a|
  {
    if a == [] {
      assert a + b == b;
    } else {
      assert (a + b)[1..] == a[1..] + b;
      NonEmptyCat(a[1..], b);
    }
  }

  /** The names of a path: its splits that are not empty. */
  function Names(s: string, sep: char): seq<string> { NonEmpty(Splits(s, sep)) }

  lemma NamesOfPieces(s: string, sep: char)
    ensures Names(s, sep) == NonEmpty(Pieces(s, sep))
  {
    if s == "" {
      PiecesOfFree(s, sep);
    }
  }

  lemma NamesCat(a: string, b: string, sep: char)
    ensures Names(a + [sep] + b, sep) == Names(a, sep) + Names(b, sep)
  {
    PiecesCat(a, b, sep);
    NonEmptyCat(Pieces(a, sep), Pieces(b, sep));
    NamesOfPieces(a, sep);
    NamesOfPieces(b, sep);
  }

  /** Separators at the end, and at the start, of a path carry no name. */
  lemma {:induction false} NamesBeforeSeps(a: string, t: string, sep: char)
    requires AllIn(t, Is(sep))
    ensures Names(a + t, sep) == Names(a, sep)
    decreases |t|
  {
    if t == "" {
      assert a + t == a;
    } else {
      assert a + t == (a + [sep]) + t[1..];
      NamesBeforeSeps(a + [sep], t[1..], sep);
      assert a + [sep] == a + [sep] + "";
      NamesCat(a, "", sep);
    }
  }

  lemma {:induction false} NamesAfterSeps(t: string, b: string, sep: char)
    requires AllIn(t, Is(sep))
    ensures Names(t + b, sep) == Names(b, sep)
    decreases |t|
  {
    if t == "" {
      assert t + b == b;
    } else {
      assert t + b == "" + [sep] + (t[1..] + b);
      NamesCat("", t[1..] + b, sep);
      NamesAfterSeps(t[1..], b, sep);
    }
  }

  lemma NamesOfName(b: string, sep: char)
    requires b != "" && Without(b, sep)
    ensures Names(b, sep) == [b]
  {
    PiecesOfFree(b, sep);
    assert NonEmpty([b]) == [b] + NonEmpty([]);
  }

  lemma NamesOfSeps(t: string, sep: char)
    requires AllIn(t, Is(sep))
    ensures Names(t, sep) == []
  {
    NamesBeforeSeps("", t, sep);
    assert "" + t == t;
  }

  /** A path with a name: what comes before its last name, that name, and the separators after it.
      What comes before is empty or ends with a separator. */
  predicate LastName(s: string, sep: char, d: string, b: string, t: string) {
    s == d + b + t && b != "" && Without(b, sep) && AllIn(t, Is(sep)) && (d == "" || EndsWith(d, sep))
  }

  lemma HasLastName(s: string, sep: char) returns (d: string, b: string, t: string)
    requires !AllIn(s, Is(sep))
    ensures LastName(s, sep, d, b, t)
    ensures d == s[..|d|] && b == s[|d|..|d| + |b|] && t == s[|d| + |b|..]
    ensures PopR(s, sep, true) == Sub(|d|, |b| + |t|)
  {
    var o, e := LastNameAt(s, sep);
    FreeUpTo(s, sep, o, e);
    SepsFrom(s, sep, e);
    d, b, t := s[..o], s[o..e], s[e..];
    assert s == d + b + t;
  }

  /** Where the last name of a path starts and ends. */
  lemma LastNameAt(s: string, sep: char) returns (o: nat, e: nat)
    requires !AllIn(s, Is(sep))
    ensures o < e <= |s| && (o > 0 ==> s[o - 1] == sep)
    ensures (forall k | o <= k < e :: s[k] != sep) && (forall k | e <= k < |s| :: s[k] == sep)
    ensures PopR(s, sep, true) == Sub(o, |s| - o)
  {
    var k :| 0 <= k < |s| && s[k] != sep;
    assert !Is(sep).Has(s[k]);
    e := Last(s, Is(sep), false, |s| - 1) + 1;
    o := Last(s, Is(sep), true, e - 1) + 1;
    assert e == |s| ==> Last(s, Is(sep), true, |s| - 1) == o - 1;
  }

  lemma SepsFrom(s: string, sep: char, e: nat)
    requires e <= |s| && forall k | e <= k < |s| :: s[k] == sep
    ensures AllIn(s[e..], Is(sep))
  {
  }

  /** There is only one last name, and popr starts there. */
  lemma PopROfLastName(s: string, sep: char, d: string, b: string, t: string)
    requires LastName(s, sep, d, b, t)
    ensures PopR(s, sep, true) == Sub(|d|, |b| + |t|)
  {
    var m := |d| + |b|;
    assert s[|d|] == b[0] && s[m - 1] == b[|b| - 1];
    var o, e := LastNameAt(s, sep);
    assert s[m - 1] != sep;
    assert forall k | m <= k < |s| :: s[k] == t[k - m] == sep;
    assert s[e - 1] != sep;
    assert forall k | |d| <= k < m :: s[k] == b[k - |d|];
    if |d| > 0 {
      assert s[|d| - 1] == d[|d| - 1] == sep;
    }
  }

  lemma GPopLOfLastName(s: string, sep: char, d: string, b: string, t: string)
    requires LastName(s, sep, d, b, t)
    ensures GPopL(s, sep, true) == TrimR(d, Is(sep))
  {
    PopROfLastName(s, sep, d, b, t);
    assert d == s[..|d|];
    if d != "" {
      assert d[|d| - 1] == sep;
      var f := First(d, Is(sep), true, 0);
    }
  }

  /** basename and dirname take a path apart. With a name in it, basename is the last name, and the
      names of dirname are the others; without, basename is empty and dirname the whole path. dirname
      is always a prefix, and empty or ended by a separator. */
  lemma BaseAndDirDecompose(s: string, sep: char)
    ensures var base, dir := BaseName(s, sep).Of(s), DirName(s, sep).Of(s);
      && (Names(s, sep) != [] ==> base != "" && Without(base, sep) && Names(dir, sep) + [base] == Names(s, sep))
      && (Names(s, sep) == [] ==> base == "" && dir == s)
      && dir <= s && (dir == "" || EndsWith(dir, sep))
  {
    if AllIn(s, Is(sep)) {
      NamesOfSeps(s, sep);
      if s == "" {
        EmptyPath(sep);
      } else {
        BaseOfSeps(s, sep);
        DirOfSeps(s, sep);
        assert s[|s| - 1] == sep;
      }
    } else {
      var d, b, t := HasLastName(s, sep);
      NamesOfLastName(s, sep, d, b, t);
      BaseOfLastName(s, sep, d, b, t);
      DirOfLastName(s, sep, d, b, t);
      NamesOfDir(d, sep);
    }
  }

  /** dirname as a function of what comes before the last name: one separator of the last ones is kept. */
  function Dir(d: string, sep: char): string {
    if d == "" then "" else d[..TrimR(d, Is(sep)).len] + [sep]
  }

  lemma NamesOfDir(d: string, sep: char)
    ensures Names(Dir(d, sep), sep) == Names(d, sep)
  {
    if d != "" {
      var r := TrimR(d, Is(sep)).len;
      NamesBeforeSeps(d[..r], d[r..], sep);
      NamesBeforeSeps(d[..r], [sep], sep);
      assert d == d[..r] + d[r..];
    }
  }

  lemma EmptyPath(sep: char)
    ensures BaseName("", sep) == Sub(0, 0) && DirName("", sep) == Sub(0, 0)
  {
    assert PopR("", sep, true) == Sub(0, 0);
    assert GPopL("", sep, true) == Sub(0, 0);
  }

  lemma DirOfSeps(s: string, sep: char)
    requires s != "" && AllIn(s, Is(sep))
    ensures DirName(s, sep) == Sub(0, |s|)
  {
    PopROfSeps(s, sep);
    CountAll(s, sep);
    assert s[0..] == s;
    DirOfGPop(s, sep, 0);
  }

  lemma PopROfSeps(s: string, sep: char)
    requires s != "" && AllIn(s, Is(sep))
    ensures PopR(s, sep, true) == Sub(0, 0) && GPopL(s, sep, true) == Sub(0, 0)
  {
    assert s[0] == sep && s[|s| - 1] == sep;
  }

  lemma BaseOfSeps(s: string, sep: char)
    requires s != "" && AllIn(s, Is(sep))
    ensures BaseName(s, sep) == Sub(0, 0)
  {
    PopROfSeps(s, sep);
  }

  /** What dirname adds to the trimmed part before the last name. */
  lemma DirOfGPop(s: string, sep: char, r: nat)
    requires r < |s| && GPopL(s, sep, true) == Sub(0, r) && (r > 0 ==> s[r - 1] != sep)
    ensures DirName(s, sep) ==
      if multiset(s[r..])[sep] == |s| - r then Sub(0, |s|) else if s[r] == sep then Sub(0, r + 1) else Sub(0, r)
  {
    assert CompLR(s, Sub(0, r)).Of(s) == s[r..];
    assert Sub(0, r).Of(s) == s[..r];
  }

  lemma {:induction false} CountAll(s: string, sep: char)
    ensures multiset(s)[sep] == |s| <==> AllIn(s, Is(sep))
    ensures multiset(s)[sep] <= |s|
    decreases |s|
  {
    if s != "" {
      CountAll(s[1..], sep);
      assert s == [s[0]] + s[1..];
      assert multiset(s)[sep] == multiset([s[0]])[sep] + multiset(s[1..])[sep];
      assert AllIn(s, Is(sep)) <==> s[0] == sep && AllIn(s[1..], Is(sep)) by {
        if s[0] == sep && AllIn(s[1..], Is(sep)) {
          forall k | 0 <= k < |s| ensures s[k] == sep {
            if k > 0 {
              assert s[1..][k - 1] == sep;
            }
          }
        }
      }
    }
  }

  lemma NamesOfLastName(s: string, sep: char, d: string, b: string, t: string)
    requires LastName(s, sep, d, b, t)
    ensures Names(s, sep) == Names(d, sep) + [b]
  {
    NamesBeforeSeps(d + b, t, sep);
    NamesOfName(b, sep);
    if d == "" {
      assert d + b == b;
    } else {
      var h := d[..|d| - 1];
      assert d == h + [sep];
      NamesCat(h, b, sep);
      NamesBeforeSeps(h, [sep], sep);
    }
  }

  /** Trimming stops at a character that is not trimmed. */
  lemma TrimROfNameAndSeps(b: string, t: string, sep: char)
    requires b != "" && Without(b, sep) && AllIn(t, Is(sep))
    ensures TrimR(b + t, Is(sep)) == Sub(0, |b|)
  {
    var x := b + t;
    var r := TrimR(x, Is(sep));
    assert x[|b| - 1] == b[|b| - 1];
    assert x[|b| - 1] != sep;
    assert forall k | |b| <= k < |x| :: x[k] == t[k - |b|];
  }

  lemma BaseOfLastName(s: string, sep: char, d: string, b: string, t: string)
    requires LastName(s, sep, d, b, t)
    ensures BaseName(s, sep).Of(s) == b
  {
    PopROfLastName(s, sep, d, b, t);
    assert Sub(|d|, |b| + |t|).Of(s) == b + t;
    TrimROfNameAndSeps(b, t, sep);
  }

  lemma DirOfLastName(s: string, sep: char, d: string, b: string, t: string)
    requires LastName(s, sep, d, b, t)
    ensures DirName(s, sep).Of(s) == Dir(d, sep) <= s && (d == "" || EndsWith(Dir(d, sep), sep))
  {
    GPopLOfLastName(s, sep, d, b, t);
    var r := TrimR(d, Is(sep)).len;
    NotAllSeps(s, sep, d, b, t, r);
    FirstAfterTrimmed(s, sep, d, b, t, r);
    DirOfGPop(s, sep, r);
  }

  lemma FirstAfterTrimmed(s: string, sep: char, d: string, b: string, t: string, r: nat)
    requires LastName(s, sep, d, b, t) && r == TrimR(d, Is(sep)).len
    ensures r < |s| && (r > 0 ==> s[r - 1] != sep) && (d == "" ==> r == 0 && s[0] != sep && Dir(d, sep) == s[..r])
    ensures d != "" ==> s[r] == sep && Dir(d, sep) == s[..r + 1]
  {
    if d == "" {
      assert s[0] == b[0];
    } else {
      TrimRShorter(d, sep);
      assert s[r] == d[r];
      if r > 0 {
        assert d[r - 1] != sep;
        assert s[r - 1] == d[r - 1];
      }
    }
  }

  lemma NotAllSeps(s: string, sep: char, d: string, b: string, t: string, r: nat)
    requires s == d + b + t && b != "" && Without(b, sep) && r <= |d|
    ensures multiset(s[r..])[sep] != |s| - r
  {
    CountAll(s[r..], sep);
    assert s[r..][|d| - r] == b[0];
  }

  lemma TrimRShorter(d: string, sep: char)
    requires EndsWith(d, sep)
    ensures TrimR(d, Is(sep)).len < |d| && d[TrimR(d, Is(sep)).len] == sep
  {
    var r := TrimR(d, Is(sep)).len;
    assert d[|d| - 1] == sep;
    assert d[r..][0] == sep;
  }
}
