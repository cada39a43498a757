/** What the string operations undo of each other, and what erase leaves. */
module PushPop {
  import opened Common
  import opened Find
  import opened Splitting
  import opened Paths
  import opened StringSpec

  // ---- pushr, popr, gpopl

  lemma DropsOfFree(x: string, sep: char)
    requires Without(x, sep)
    ensures DropL(x, sep) == x && DropR(x, sep) == x
  {
  }

  lemma LastAtBoundary(a: string, b: string, sep: char)
    requires Without(b, sep)
    ensures var s := a + [sep] + b; Last(s, Is(sep), true, |s| - 1) == |a|
  {
    var s := a + [sep] + b;
    assert s[|a|] == sep;
    assert forall k | |a| < k < |s| :: s[k] == b[k - |a| - 1];
  }

  /** The pops of a string cut at its last separator, and of one cut at its first. */
  lemma PopsAtLastCut(a: string, b: string, sep: char)
    requires Without(b, sep)
    ensures var s := a + [sep] + b; PopR(s, sep, false).Of(s) == b && GPopL(s, sep, false).Of(s) == a
  {
    var s := a + [sep] + b;
    assert s[|a|] == sep;
    RightPops(s, sep);
    LastAtBoundary(a, b, sep);
    assert s[..|a|] == a && s[|a| + 1..] == b;
  }

  lemma PopsAtFirstCut(a: string, b: string, sep: char)
    requires Without(a, sep)
    ensures var s := a + [sep] + b; PopL(s, sep, false).Of(s) == a && GPopR(s, sep, false).Of(s) == b
  {
    var s := a + [sep] + b;
    assert s[|a|] == sep;
    LeftPops(s, sep);
    FirstAtBoundary(a, b, sep);
    assert s[..|a|] == a && s[|a| + 1..] == b;
  }

  /** Pushing a name on the right and popping it off: popr gives the name back and gpopl the string
      without the separators it ended with. pushr writes a slash whatever separator it is given, so
      this holds for the slash and for no other separator. */
  lemma PushRThenPopExactly(s: string, x: string, sep: char)
    requires Without(x, sep)
    ensures var t := PushedR(s, x, sep);
      && (PopR(t, sep, false).Of(t) == x <==> sep == '/')
      && (sep == '/' ==> GPopL(t, sep, false).Of(t) == DropR(s, sep))
  {
    if sep == '/' {
      PushSlashThenPop(s, x);
    } else {
      PushOtherThenPop(s, x, sep);
    }
  }

  /** The same with the parts named: pushing u + b onto a + t, where t and u are all separators and
      neither a ends nor b starts with one. */
  lemma PushRJoins(a: string, t: string, u: string, b: string, sep: char)
    requires AllIn(t, Is(sep)) && AllIn(u, Is(sep)) && !EndsWith(a, sep) && !BeginsWith(b, sep)
    ensures PushedR(a + t, u + b, sep) == a + ['/'] + b
  {
    AtBoundaries(a, t, u, b, sep);
    PushedRIs(a + t, u + b, sep, |a|, |u|);
  }

  lemma AtBoundaries(a: string, t: string, u: string, b: string, sep: char)
    requires AllIn(t, Is(sep)) && AllIn(u, Is(sep)) && !EndsWith(a, sep) && !BeginsWith(b, sep)
    ensures EndsAt(a + t, sep, |a|) && (a + t)[..|a|] == a
    ensures StartsAt(u + b, sep, |u|) && (u + b)[|u|..] == b
  {
    assert forall k | |a| <= k < |a + t| :: (a + t)[k] == t[k - |a|];
    assert forall k | 0 <= k < |u| :: (u + b)[k] == u[k];
  }

  /** ... and pushing a + t in front of u + b. */
  lemma PushLJoins(a: string, t: string, u: string, b: string, sep: char)
    requires AllIn(t, Is(sep)) && AllIn(u, Is(sep)) && !EndsWith(a, sep) && !BeginsWith(b, sep)
    ensures PushedL(u + b, a + t, sep) == a + [sep] + b
  {
    AtBoundaries(a, t, u, b, sep);
    PushedLIs(u + b, a + t, sep, |a|, |u|);
  }

  lemma PushSlashThenPop(s: string, x: string)
    requires Without(x, '/')
    ensures var t := PushedR(s, x, '/'); PopR(t, '/', false).Of(t) == x && GPopL(t, '/', false).Of(t) == DropR(s, '/')
  {
    DropsOfFree(x, '/');
    PopsAtLastCut(DropR(s, '/'), x, '/');
  }

  lemma PushOtherThenPop(s: string, x: string, sep: char)
    requires Without(x, sep) && sep != '/'
    ensures var t := PushedR(s, x, sep); PopR(t, sep, false).Of(t) != x
  {
    DropsOfFree(x, sep);
    var kept := DropR(s, sep);
    PopRIsLonger(kept, ['/'] + x, sep);
    assert PushedR(s, x, sep) == kept + (['/'] + x);
  }

  lemma PopRIsLonger(a: string, b: string, sep: char)
    requires Without(b, sep) && b != ""
    ensures PopR(a + b, sep, false).len >= |b|
  {
    var s := a + b;
    if !Without(s, sep) {
      CutAtLast(s, sep);
      var i := Last(s, Is(sep), true, |s| - 1);
      assert forall k | |a| <= k < |s| :: s[k] == b[k - |a|];
      RightPopsAt(s, sep, i);
      assert |PopR(s, sep, false).Of(s)| == |s| - i - 1;
    }
  }

  /** The same on the left, for every separator. */
  lemma PushLThenPop(s: string, x: string, sep: char)
    requires Without(x, sep)
    ensures var t := PushedL(s, x, sep);
      PopL(t, sep, false).Of(t) == x && GPopR(t, sep, false).Of(t) == DropL(s, sep)
  {
    DropsOfFree(x, sep);
    PopsAtFirstCut(x, DropL(s, sep), sep);
  }

  /** The loops of pushr and pushl trim as triml and trimr do. */
  lemma {:induction false} DropLIsTrimL(s: string, sep: char)
    ensures DropL(s, sep) == TrimL(s, Is(sep)).Of(s)
    decreases |s|
  {
    if BeginsWith(s, sep) {
      DropLIsTrimL(s[1..], sep);
      FirstNotOfTail(s, sep, 1);
    }
  }

  lemma {:induction false} DropRIsTrimR(s: string, sep: char)
    ensures DropR(s, sep) == TrimR(s, Is(sep)).Of(s)
    decreases |s|
  {
    if EndsWith(s, sep) {
      var h := s[..|s| - 1];
      DropRIsTrimR(h, sep);
      LastNotOfHead(s, h, sep);
      assert TrimR(h, Is(sep)) == TrimR(s, Is(sep));
      assert h[..TrimR(s, Is(sep)).len] == s[..TrimR(s, Is(sep)).len];
    }
  }

  lemma LastNotOfHead(s: string, h: string, sep: char)
    requires EndsWith(s, sep) && h == s[..|s| - 1]
    ensures Last(h, Is(sep), false, |h| - 1) == Last(s, Is(sep), false, |s| - 1)
  {
    var a, b := Last(s, Is(sep), false, |s| - 1), Last(h, Is(sep), false, |h| - 1);
    if a != NPOS {
      assert !Is(sep).Has(h[a]);
    }
    if b != NPOS {
      assert !Is(sep).Has(s[b]);
    }
  }

  lemma {:induction false} FirstNotOfTail(s: string, sep: char, from: nat)
    requires from <= |s|
    ensures var a, b := First(s, Is(sep), false, from), First(s[from..], Is(sep), false, 0);
      if a == NPOS then b == NPOS else b == a - from
  {
    var a, b := First(s, Is(sep), false, from), First(s[from..], Is(sep), false, 0);
    if a != NPOS {
      assert s[from..][a - from] != sep;
    }
    if b != NPOS {
      assert s[from + b] != sep;
    }
  }

  // ---- erase

  /** The positions from `from` on whose characters are outside the set, and the characters there. */
  function Positions(s: string, chars: string, from: nat): (ps: seq<nat>)
    requires from <= |s|
    ensures forall j | 0 <= j < |ps| :: from <= ps[j] < |s| && s[ps[j]] !in chars
    ensures forall j, k | 0 <= j < k < |ps| :: ps[j] < ps[k]
    decreases |s| - from
  {
    if from == |s| then [] else (if s[from] in chars then [] else [from]) + Positions(s, chars, from + 1)
  }

  lemma {:induction false} PositionsAreAll(s: string, chars: string, from: nat, k: nat)
    requires from <= k < |s| && s[k] !in chars
    ensures k in Positions(s, chars, from)
    decreases |s| - from
  {
    if from < k {
      PositionsAreAll(s, chars, from + 1, k);
    }
  }

  function Select(s: string, ps: seq<nat>): string
    requires forall j | 0 <= j < |ps| :: ps[j] < |s|
  {
    seq(|ps|, j requires 0 <= j < |ps| => s[ps[j]])
  }

  /** Erasing keeps exactly the characters outside the set, in order. */
  lemma {:induction false} ErasedSelects(s: string, chars: string, from: nat)
    requires from <= |s|
    ensures Erased(s[from..], chars) == Select(s, Positions(s, chars, from))
    decreases |s| - from
  {
    if from < |s| {
      ErasedSelects(s, chars, from + 1);
      assert s[from..][1..] == s[from + 1..];
    }
  }

  /** Erasing distributes over concatenation, and erasing again changes nothing. */
  lemma {:induction false} ErasedCat(a: string, b: string, chars: string)
    ensures Erased(a + b, chars) == Erased(a, chars) + Erased(b, chars)
    decreases |a|
  {
    if a == "" {
      assert a + b == b;
    } else {
      assert (a + b)[1..] == a[1..] + b;
      ErasedCat(a[1..], b, chars);
    }
  }

  lemma {:induction false} ErasedTwice(s: string, chars: string)
    ensures Erased(Erased(s, chars), chars) == Erased(s, chars)
    decreases |s|
  {
    if s != "" {
      ErasedTwice(s[1..], chars);
      if s[0] !in chars {
        ErasedCat([s[0]], Erased(s[1..], chars), chars);
        assert Erased([s[0]], chars) == [s[0]] + Erased("", chars);
      } else {
        assert Erased(s, chars) == Erased(s[1..], chars);
      }
    }
  }

  // ---- skipping pops

  /** Skipping empty splits, popr takes the last name with the separators after it and popl the first
      with those before it; the greedy pops keep the other names. Without names all four are empty. */
  lemma SkippingPopsTakeNames(s: string, sep: char)
    ensures Names(s, sep) == [] <==> AllIn(s, Is(sep))
    ensures Names(s, sep) == [] ==>
      PopR(s, sep, true).Of(s) == GPopL(s, sep, true).Of(s) == PopL(s, sep, true).Of(s) == GPopR(s, sep, true).Of(s) == ""
    ensures Names(s, sep) != [] ==>
      var ns := Names(s, sep); var r, l := PopR(s, sep, true).Of(s), PopL(s, sep, true).Of(s);
      && TrimR(r, Is(sep)).Of(r) == ns[|ns| - 1] && Names(GPopL(s, sep, true).Of(s), sep) == ns[..|ns| - 1]
      && TrimL(l, Is(sep)).Of(l) == ns[0] && Names(GPopR(s, sep, true).Of(s), sep) == ns[1..]
  {
    if AllIn(s, Is(sep)) {
      NamesOfSeps(s, sep);
      SkippingSeps(s, sep);
    } else {
      SkippingRight(s, sep);
      SkippingLeft(s, sep);
    }
  }

  lemma SkippingSeps(s: string, sep: char)
    requires AllIn(s, Is(sep))
    ensures PopR(s, sep, true).Of(s) == "" && GPopL(s, sep, true).Of(s) == ""
    ensures PopL(s, sep, true).Of(s) == "" && GPopR(s, sep, true).Of(s) == ""
  {
    if s != "" {
      PopROfSeps(s, sep);
      assert s[0] == sep;
      assert First(s, Is(sep), true, 0) == 0;
      assert PopL(s, sep, true) == Sub(0, 0);
      assert CompLR(s, Sub(0, 0)).Of(s) == s;
      assert TrimL(s, Is(sep)) == Sub(0, 0);
    }
  }

  /** Trimming separators loses no name. */
  lemma NamesOfTrimmedR(d: string, sep: char)
    ensures Names(TrimR(d, Is(sep)).Of(d), sep) == Names(d, sep)
  {
    var k := TrimR(d, Is(sep)).len;
    NamesBeforeSeps(d[..k], d[k..], sep);
    assert d == d[..k] + d[k..];
  }

  lemma NamesOfTrimmedL(d: string, sep: char)
    ensures Names(TrimL(d, Is(sep)).Of(d), sep) == Names(d, sep)
  {
    var l := TrimL(d, Is(sep));
    if l.len == 0 {
      NamesOfSeps(d, sep);
      NamesOfSeps("", sep);
    } else {
      assert |l.Of(d)| == l.len;
      assert l.Of(d) == d[l.off..];
      NamesAfterSeps(d[..l.off], d[l.off..], sep);
      assert d == d[..l.off] + d[l.off..];
    }
  }

  lemma SkippingRight(s: string, sep: char)
    requires !AllIn(s, Is(sep))
    ensures var ns := Names(s, sep); var r := PopR(s, sep, true).Of(s);
      ns != [] && TrimR(r, Is(sep)).Of(r) == ns[|ns| - 1] && Names(GPopL(s, sep, true).Of(s), sep) == ns[..|ns| - 1]
  {
    var d, b, t := HasLastName(s, sep);
    var ns := Names(d, sep) + [b];
    NamesOfLastName(s, sep, d, b, t);
    TrimROfNameAndSeps(b, t, sep);
    NamesOfTrimmedR(d, sep);
    PoppedRight(s, sep, d, b, t);
    assert ns[..|ns| - 1] == Names(d, sep);
  }

  lemma PoppedRight(s: string, sep: char, d: string, b: string, t: string)
    requires LastName(s, sep, d, b, t)
    ensures PopR(s, sep, true).Of(s) == b + t && GPopL(s, sep, true).Of(s) == TrimR(d, Is(sep)).Of(d)
  {
    PopROfLastName(s, sep, d, b, t);
    GPopLOfLastName(s, sep, d, b, t);
    assert s[..TrimR(d, Is(sep)).len] == d[..TrimR(d, Is(sep)).len];
  }

  /** A path with a name: the separators before its first name, that name, and the rest, which is
      empty or starts with a separator. */
  predicate FirstName(s: string, sep: char, t: string, b: string, d: string) {
    s == t + b + d && b != "" && Without(b, sep) && AllIn(t, Is(sep)) && (d == "" || BeginsWith(d, sep))
  }

  lemma HasFirstName(s: string, sep: char) returns (t: string, b: string, d: string)
    requires !AllIn(s, Is(sep))
    ensures FirstName(s, sep, t, b, d)
    ensures PopL(s, sep, true) == Sub(0, |t| + |b|)
  {
    var f, e := FirstNameAt(s, sep);
    t, b, d := s[..f], s[f..e], s[e..];
    assert s == t + b + d;
  }

  /** Where the first name of a path starts and ends. */
  lemma FirstNameAt(s: string, sep: char) returns (f: nat, e: nat)
    requires !AllIn(s, Is(sep))
    ensures f < e <= |s| && Without(s[f..e], sep) && AllIn(s[..f], Is(sep)) && (e < |s| ==> s[e] == sep)
    ensures PopL(s, sep, true) == Sub(0, e)
  {
    var first := First(s, Is(sep), false, 0);
    var k :| 0 <= k < |s| && s[k] != sep;
    assert !Is(sep).Has(s[k]);
    f := first;
    var o := First(s, Is(sep), true, f);
    e := if o == NPOS then |s| else o;
    FreeUpTo(s, sep, f, e);
    PopLFromName(s, sep, f, e);
  }

  lemma PopLFromName(s: string, sep: char, f: nat, e: nat)
    requires f < |s| && First(s, Is(sep), false, 0) == f
    requires e == if First(s, Is(sep), true, f) == NPOS then |s| else First(s, Is(sep), true, f)
    ensures PopL(s, sep, true) == Sub(0, e)
  {
    if f == 0 {
      assert s[0] != sep;
      assert First(s, Is(sep), true, 0) == First(s, Is(sep), true, f);
    } else {
      assert s[0] == sep;
      assert First(s, Is(sep), true, 0) == 0;
    }
  }

  lemma NamesOfFirstName(s: string, sep: char, t: string, b: string, d: string)
    requires FirstName(s, sep, t, b, d)
    ensures Names(s, sep) == [b] + Names(d, sep)
  {
    assert t + b + d == t + (b + d);
    NamesAfterSeps(t, b + d, sep);
    NamesOfName(b, sep);
    if d == "" {
      assert b + d == b;
      NamesOfSeps("", sep);
    } else {
      NamesOfRest(b, d, sep);
    }
  }

  lemma NamesOfRest(b: string, d: string, sep: char)
    requires BeginsWith(d, sep)
    ensures Names(b + d, sep) == Names(b, sep) + Names(d, sep)
  {
    var h := d[1..];
    assert d == [sep] + h;
    NamesBetween(b, h, sep);
    assert b + d == b + [sep] + h;
  }

  lemma NamesBetween(b: string, h: string, sep: char)
    ensures Names(b + [sep] + h, sep) == Names(b, sep) + Names([sep] + h, sep)
  {
    NamesCat(b, h, sep);
    NamesAfterSeps([sep], h, sep);
  }

  lemma TrimLOfSepsAndName(t: string, b: string, sep: char)
    requires b != "" && Without(b, sep) && AllIn(t, Is(sep))
    ensures TrimL(t + b, Is(sep)) == Sub(|t|, |b|)
  {
    var x := t + b;
    assert x[|t|] == b[0];
    assert x[|t|] != sep;
    assert forall k | 0 <= k < |t| :: x[k] == t[k];
  }

  lemma SkippingLeft(s: string, sep: char)
    requires !AllIn(s, Is(sep))
    ensures var ns := Names(s, sep); var l := PopL(s, sep, true).Of(s);
      ns != [] && TrimL(l, Is(sep)).Of(l) == ns[0] && Names(GPopR(s, sep, true).Of(s), sep) == ns[1..]
  {
    var t, b, d := HasFirstName(s, sep);
    NamesOfFirstName(s, sep, t, b, d);
    PoppedLeft(s, sep, t, b, d);
    TrimmedFirst(t, b, sep);
    NamesOfTrimmedL(d, sep);
    HeadAndTail(b, Names(d, sep));
  }

  lemma HeadAndTail(b: string, ns: seq<string>)
    ensures ([b] + ns)[0] == b && ([b] + ns)[1..] == ns
  {
  }

  lemma TrimmedFirst(t: string, b: string, sep: char)
    requires b != "" && Without(b, sep) && AllIn(t, Is(sep))
    ensures TrimL(t + b, Is(sep)).Of(t + b) == b
  {
    TrimLOfSepsAndName(t, b, sep);
  }

  lemma PoppedLeft(s: string, sep: char, t: string, b: string, d: string)
    requires FirstName(s, sep, t, b, d) && PopL(s, sep, true) == Sub(0, |t| + |b|)
    ensures PopL(s, sep, true).Of(s) == t + b && GPopR(s, sep, true).Of(s) == TrimL(d, Is(sep)).Of(d)
  {
    var n := |t| + |b|;
    assert s[n..] == d && s[..n] == t + b;
    var rest := CompLR(s, PopL(s, sep, true));
    assert rest == Sub(n, |d|) && rest.Of(s) == s[n..];
    if d != "" {
      assert d[0] == sep;
      assert First(d, Is(sep), true, 0) == 0;
      WithinRest(s, n, d, TrimL(d, Is(sep)));
    }
  }

  lemma WithinRest(s: string, n: nat, d: string, k: Sub)
    requires n <= |s| && d == s[n..] && k.In(d)
    ensures Within(Sub(n, |d|), k).In(s) && Within(Sub(n, |d|), k).Of(s) == k.Of(d)
  {
  }
}
