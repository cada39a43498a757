/** The expression templates for + and / on strings (src/c4/string.hpp). */
module StrExpr {
  import opened Buffers
  import opened StringSpec

  /** The buffer d2 is d1 with the text written from `at` on, and nothing else changed. */
  predicate Written(d1: string, d2: string, at: nat, t: string) {
    && |d1| == |d2| && at + |t| <= |d1|
    && forall k | 0 <= k < |d1| :: d2[k] == if at <= k < at + |t| then t[k - at] else d1[k]
  }

  lemma WrittenTwice(d1: string, d2: string, d3: string, at: nat, t: string, u: string)
    requires Written(d1, d2, at, t) && Written(d2, d3, at + |t|, u)
    ensures Written(d1, d3, at, t + u)
  {
  }

  lemma WrittenWithSlash(d: string, d1: string, d2: string, d3: string, at: nat, t: string, u: string)
    requires Written(d, d1, at, t) && Written(d1, d2, at + |t|, ['/']) && Written(d2, d3, at + |t| + 1, u)
    ensures Written(d, d3, at, t + ['/'] + u)
  {
    WrittenTwice(d, d1, d2, at, t, ['/']);
    WrittenTwice(d, d2, d3, at, t + ['/'], u);
  }

  method WriteWrapped(out: array<char>, pos: nat, text: string)
    requires pos + |text| <= out.Length
    modifies out
    ensures Written(old(out[..]), out[..], pos, text)
  {
    CopyIn(out, pos, text);
  }

  method WriteSlash(out: array<char>, pos: nat)
    requires pos < out.Length
    modifies out
    ensures Written(old(out[..]), out[..], pos, ['/'])
  {
    out[pos] := '/';
  }

  /** `_strWrapImpl` and `_strWrapCharPtr`, `_strPlus`, `_strSlash` */
  datatype Expr = Wrap(text: string) | Plus(l: Expr, r: Expr) | Slash(l: Expr, r: Expr) {

    /** What the expression means. */
    function Text(): string {
      match this
      case Wrap(text) => text
      case Plus(l, r) => l.Text() + r.Text()
      case Slash(l, r) => l.Text() + ['/'] + r.Text()
    }

    /** The texts it is written down with, from left to right, a slash for each /. */
    function Terms(): seq<string> {
      match this
      case Wrap(text) => [text]
      case Plus(l, r) => l.Terms() + r.Terms()
      case Slash(l, r) => l.Terms() + ["/"] + r.Terms()
    }

    function Size(): (n: nat)
      ensures n == |Text()|
    {
      match this
      case Wrap(text) => |text|
      case Plus(l, r) => l.Size() + r.Size()
      case Slash(l, r) => l.Size() + 1 + r.Size()
    }

    /** Writes the expression into the buffer from `pos` on and returns the position after it. */
    method Put(out: array<char>, start: nat) returns (pos: nat)
      requires start + Size() <= out.Length
      modifies out
      ensures pos == start + Size() && Written(old(out[..]), out[..], start, Text())
      decreases this
    {
      ghost var d := out[..];
      match this {
        case Wrap(text) =>
          WriteWrapped(out, start, text);
          pos := start + |text|;
        case Plus(l, r) =>
          pos := l.Put(out, start);
          ghost var d1 := out[..];
          pos := r.Put(out, pos);
          WrittenTwice(d, d1, out[..], start, l.Text(), r.Text());
        case Slash(l, r) =>
          pos := l.Put(out, start);
          ghost var d1 := out[..];
          WriteSlash(out, pos);
          ghost var d2 := out[..];
          pos := pos + 1;
          pos := r.Put(out, pos);
          WrittenWithSlash(d, d1, d2, out[..], start, l.Text(), r.Text());
      }
    }

    /** Evaluation without expression templates: each operator builds its string at once, + with
        append and / with pushr. */
    function Greedy(): string {
      match this
      case Wrap(text) => text
      case Plus(l, r) => l.Greedy() + r.Greedy()
      case Slash(l, r) => PushedR(l.Greedy(), r.Greedy(), '/')
    }

    /** No / has a left side that ends with a slash or a right side that starts with one. */
    predicate Clean() {
      match this
      case Wrap(_) => true
      case Plus(l, r) => l.Clean() && r.Clean()
      case Slash(l, r) => l.Clean() && r.Clean() && !Trimmed(l.Text(), r.Text())
    }
  }

  function Flat(ts: seq<string>): string {
    if ts == [] then "" else ts[0] + Flat(ts[1..])
  }

  lemma {:induction false} FlatCat(a: seq<string>, b: seq<string>)
    ensures Flat(a + b) == Flat(a) + Flat(b)
    decreases |a|
  {
    if a == [] {
      assert a + b == b;
    } else {
      assert (a + b)[1..] == a[1..] + b;
      FlatCat(a[1..], b);
    }
  }

  lemma FlatOfSlash(a: seq<string>, b: seq<string>)
    ensures Flat(a + ["/"] + b) == Flat(a) + ['/'] + Flat(b)
  {
    FlatCat(a + ["/"], b);
    FlatCat(a, ["/"]);
    FlatOfOne("/");
  }

  lemma FlatOfOne(t: string)
    ensures Flat([t]) == t
  {
    assert Flat([t][1..]) == "";
  }

  /** However the expression is nested, it means its texts in a row, nothing trimmed. */
  lemma {:induction false} TextIsFlat(e: Expr)
    ensures e.Text() == Flat(e.Terms())
  {
    match e
    case Wrap(text) => FlatOfOne(text);
    case Plus(l, r) =>
      TextIsFlat(l);
      TextIsFlat(r);
      FlatCat(l.Terms(), r.Terms());
    case Slash(l, r) =>
      TextIsFlat(l);
      TextIsFlat(r);
      FlatOfSlash(l.Terms(), r.Terms());
  }

  predicate Trimmed(l: string, r: string) {
    (l != "" && l[|l| - 1] == '/') || (r != "" && r[0] == '/')
  }

  lemma {:induction false} DropsAreShorter(s: string, sep: char)
    ensures |DropL(s, sep)| <= |s| && (|DropL(s, sep)| == |s| <==> s == "" || s[0] != sep)
    ensures |DropR(s, sep)| <= |s| && (|DropR(s, sep)| == |s| <==> s == "" || s[|s| - 1] != sep)
    decreases |s|
  {
    if s != "" {
      DropsAreShorter(s[1..], sep);
      DropsAreShorter(s[..|s| - 1], sep);
    }
  }

  /** Evaluating eagerly never gives more characters, and fewer as soon as one / trims. */
  lemma {:induction false} GreedyIsShorter(e: Expr)
    ensures |e.Greedy()| <= |e.Text()|
    ensures e.Clean() ==> e.Greedy() == e.Text()
    ensures !e.Clean() ==> |e.Greedy()| < |e.Text()|
  {
    match e
    case Wrap(_) =>
    case Plus(l, r) =>
      GreedyIsShorter(l);
      GreedyIsShorter(r);
    case Slash(l, r) =>
      GreedyIsShorter(l);
      GreedyIsShorter(r);
      DropsAreShorter(l.Greedy(), '/');
      DropsAreShorter(r.Greedy(), '/');
  }

  /** The lazy expression means what the eager evaluation means exactly when it is clean. */
  lemma LazyIsGreedyExactly(e: Expr)
    ensures e.Text() == e.Greedy() <==> e.Clean()
  {
    GreedyIsShorter(e);
  }

  predicate OnlyPlus(e: Expr) {
    match e
    case Wrap(_) => true
    case Plus(l, r) => OnlyPlus(l) && OnlyPlus(r)
    case Slash(_, _) => false
  }

  lemma {:induction false} SumsAreClean(e: Expr)
    requires OnlyPlus(e)
    ensures e.Clean() && e.Text() == e.Greedy()
  {
    match e
    case Wrap(_) =>
    case Plus(l, r) =>
      SumsAreClean(l);
      SumsAreClean(r);
  }
}
