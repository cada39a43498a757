/** sstream over the string of BasicString.dfy (src/c4/sstream.hpp, src/c4/sstream.def.hpp). */
module Stream {
  import opened Common
  import opened Buffers
  import opened BasicString
  import opened Splitting
  import opened Tokens
  import opened StreamSpec

  /** How a call ends: as it should, with C4_ERROR, or at a read of the character past the buffer. */
  datatype Outcome = Done | Raised | Outside

  class SStream {
    const s: Str
    var putpos: nat
    var getpos: nat
    var eofp: bool
    var eofg: bool
    var fail: bool
    var ignoreErr: bool

    ghost function Repr(): set<object>
      reads this, s
    {
      {this} + s.Repr()
    }

    /** What every call keeps. The size of the string is its capacity less the terminator, so all of the
        buffer is text to a reallocation; the put position is anywhere in the buffer or at its end. */
    ghost predicate Valid()
      reads this, s, s.arr, s.str
    {
      && s.Valid() && this !in s.Repr() && s.isLong && s.Capacity() == s.size + 1
      && putpos <= s.Capacity()
    }

    /** What every call but `seekp` and `reset` keeps: the get position is not past the put position, and
        the text ends with a terminator. */
    ghost predicate Ended()
      reads this, s, s.arr, s.str
    {
      Valid() && getpos <= putpos < s.Capacity() && s.Data()[putpos] == NUL
    }

    ghost function Buf(): string
      reads this, s, s.arr, s.str
    {
      s.Data()[..]
    }

    /** `strp()`, and what is left of it to read, `strg()`. */
    ghost function Text(): string
      reads this, s, s.arr, s.str
      requires putpos <= s.Capacity()
    {
      s.Data()[..putpos]
    }

    ghost function ToRead(): string
      reads this, s, s.arr, s.str
      requires getpos <= putpos <= s.Capacity()
    {
      Text()[getpos..]
    }

    predicate Clean()
      reads this
    {
      !eofg && !fail
    }

    /** All there is to read is white space, and so is the character at the put position. */
    ghost predicate Stuck()
      reads this, s, s.arr, s.str
      requires Valid() && getpos <= putpos
    {
      AllSpaces(ToRead()) && putpos < s.Capacity() && IsSpace(s.Data()[putpos])
    }

    /** How `>>` ends. */
    ghost function ExtractOutcome(): Outcome
      reads this, s, s.arr, s.str
      requires Valid() && getpos <= putpos
    {
      if !Clean() then (if ignoreErr then Done else Raised)
      else if getpos == s.Capacity() then Outside
      else if Stuck() then Raised
      else Done
    }

    /** A stream over a string, whose text stays in the buffer. */
    constructor (str: Str)
      requires str.Valid() && str.KeepsSize(str.Capacity())
      modifies str.Repr()
      ensures Valid() && s == str && fresh(Repr() - old(str.Repr())) && putpos == getpos == 0
      ensures s.Capacity() > old(str.size) && Buf() == old(str.Contents()) + Zeros(s.Capacity() - old(str.size))
      ensures Text() == "" && ToRead() == "" && Clean() && !eofp && !ignoreErr
    {
      s := str;
      putpos, getpos := 0, 0;
      eofp, eofg, fail, ignoreErr := false, false, false, false;
      new;
      TakeAll(str);
    }

    // ---- writing

    /** `growto_`: reserves, then takes all of the capacity for the size. No character of the buffer is
        lost, wherever the put position is; the new ones are NUL. */
    method GrowTo(sz: nat)
      requires Valid()
      modifies s.Repr()
      ensures Valid() && fresh(s.Repr() - old(s.Repr())) && s.size >= sz && s.Capacity() >= old(s.Capacity())
      ensures Buf() == old(Buf()) + Zeros(s.Capacity() - old(s.Capacity()))
    {
      if sz >= s.size {
        ghost var was := s.Contents();
        LastOf(Buf());
        s.Reserve(sz);
        Take(s, was);
        GrownBuffer(was, s.size - |was|);
      }
    }

    method Write(t: string)
      requires Valid()
      modifies Repr()
      ensures Valid() && fresh(Repr() - old(Repr())) && s.Capacity() >= old(s.Capacity())
      ensures getpos == old(getpos) && eofp == old(eofp) && eofg == old(eofg) && fail == old(fail)
      ensures ignoreErr == old(ignoreErr)
      ensures t == "" || eofp ==> putpos == old(putpos) && Text() == old(Text())
      ensures t == "" ==> Buf() == old(Buf())
      ensures t != "" && !eofp ==>
        && putpos == old(putpos) + |t| < s.Capacity() && Text() == old(Text()) + t && s.Data()[putpos] == NUL
        && forall k | putpos < k < s.Capacity() :: s.Data()[k] == if k < |old(Buf())| then old(Buf())[k] else NUL
    {
      var sz := |t|;
      if sz == 0 {
        return;
      }
      ghost var b, text := Buf(), Text();
      if !(sz + 1 <= s.Capacity() - putpos) {
        GrowTo(putpos + sz + 1);
      }
      GrownAt(b, Buf(), putpos);
      if eofp {
        return;
      }
      Terminated(s.Data(), putpos, t);
      putpos := putpos + sz;
    }

    // ---- positions

    /** `seekp`. `ok` is its C4_CHECK. */
    method SeekP(p: nat) returns (ok: bool)
      requires Valid()
      modifies this
      ensures Valid() && ok == (p <= s.Capacity()) && putpos == (if ok then p else old(putpos)) && getpos == old(getpos)
      ensures eofg == old(eofg) && fail == old(fail) && eofp == old(eofp) && ignoreErr == old(ignoreErr)
    {
      ok := p <= s.Capacity();
      if ok {
        putpos := p;
      }
    }

    method SeekG(g: nat) returns (ok: bool)
      requires Valid()
      modifies this
      ensures Valid() && ok == (g <= putpos) && getpos == (if ok then g else old(getpos)) && putpos == old(putpos)
      ensures eofg == old(eofg) && fail == old(fail) && eofp == old(eofp) && ignoreErr == old(ignoreErr)
    {
      ok := g <= s.Capacity() && g <= putpos;
      if ok {
        getpos := g;
      }
    }

    method Reset()
      requires Valid()
      modifies this
      ensures Valid() && putpos == getpos == 0 && Clean() && !eofp && ignoreErr == old(ignoreErr)
    {
      var ok := SeekP(0);
      ok := SeekG(0);
      eofg, eofp, fail := false, false, false;
    }

    /** `advg`. `ok` is its C4_CHECK. */
    method AdvG(g: nat) returns (ok: bool)
      requires Valid() && getpos <= putpos
      modifies this
      ensures Valid() && getpos <= putpos == old(putpos) && ok == (g <= |old(ToRead())|)
      ensures ToRead() == if ok then old(ToRead())[g..] else old(ToRead())
      ensures eofg == old(eofg) && fail == old(fail) && eofp == old(eofp) && ignoreErr == old(ignoreErr)
    {
      ok := g <= putpos - getpos;
      if ok {
        getpos := getpos + g;
      }
    }

    // ---- reading

    /** `errg_`. `raised` is C4_ERROR, which the flag IGNORE_ERR suppresses. */
    method ErrG() returns (raised: bool)
      modifies this
      ensures eofg && raised == !ignoreErr
      ensures putpos == old(putpos) && getpos == old(getpos) && eofp == old(eofp) && fail == old(fail)
      ensures ignoreErr == old(ignoreErr)
    {
      eofg := true;
      raised := !ignoreErr;
    }

    /** `read_` of n characters: all of them, or none and an error. Once an error is on record nothing
        is read until it is cleared. */
    method Read(n: nat) returns (r: string, raised: bool)
      requires Valid() && getpos <= putpos
      modifies this
      ensures Valid() && getpos <= putpos == old(putpos)
      ensures eofg == (old(eofg) || n > |old(ToRead())|) && fail == old(fail) && ignoreErr == old(ignoreErr)
        && eofp == old(eofp)
      ensures raised == (n > |old(ToRead())| && !ignoreErr)
      ensures if eofg then r == "" && getpos == old(getpos)
              else getpos == old(getpos) + n && r == old(ToRead())[..n] && ToRead() == old(ToRead())[n..]
    {
      r, raised := "", false;
      if !(n <= putpos - getpos) {
        raised := ErrG();
      }
      if eofg {
        return;
      }
      ReadOff(Buf(), getpos, putpos, n);
      r := s.Data()[getpos..getpos + n];
      getpos := getpos + n;
    }

    /** `peek`: looks up to the character at the put position, which may lie past the buffer. */
    method Peek(ahead: nat) returns (c: char, o: Outcome)
      requires Valid() && getpos <= putpos
      modifies this
      ensures Valid() && putpos == old(putpos) && getpos == old(getpos)
      ensures fail == old(fail) && ignoreErr == old(ignoreErr) && eofp == old(eofp)
      ensures old(Clean()) && ahead <= putpos - getpos ==>
        Clean() && if getpos + ahead < s.Capacity() then o == Done && c == s.Data()[getpos + ahead] else o == Outside && c == NUL
      ensures !old(Clean()) || ahead > putpos - getpos ==> eofg && c == NUL && o == if ignoreErr then Done else Raised
    {
      c, o := NUL, Done;
      if ahead > putpos - getpos {
        eofg := true;
      }
      if fail || eofg {
        var raised := ErrG();
        o := if raised then Raised else Done;
        return;
      }
      if getpos + ahead == s.Capacity() {
        return NUL, Outside;
      }
      c := s.Data()[getpos + ahead];
    }

    /** The first loop of `operator>>`: counts the white space ahead, the character at the put position
        included. That one is past the buffer only if both positions are at its end. */
    method CountSpaces() returns (pos: nat, o: Outcome)
      requires Valid() && getpos <= putpos
      modifies this
      ensures Valid() && putpos == old(putpos) && getpos == old(getpos)
      ensures fail == old(fail) && ignoreErr == old(ignoreErr) && eofp == old(eofp)
      ensures old(Clean()) ==> Clean() && o == if getpos == s.Capacity() then Outside else Done
      ensures old(Clean()) && o == Done ==> pos == SkipSpaces(ToRead()) + if Stuck() then 1 else 0
      ensures !old(Clean()) ==> eofg && pos == 0 && o == if ignoreErr then Done else Raised
    {
      pos, o := 0, Done;
      ghost var g := ToRead();
      while putpos - getpos >= pos
        invariant Valid() && putpos == old(putpos) && getpos == old(getpos) && pos <= |g| + 1 && o == Done
        invariant fail == old(fail) && ignoreErr == old(ignoreErr) && eofp == old(eofp) && eofg == old(eofg)
        invariant if Clean() then forall k | 0 <= k < pos && k < |g| :: IsSpace(g[k]) else pos == 0
        invariant pos > |g| ==> putpos < s.Capacity() && IsSpace(s.Data()[putpos])
        decreases |g| + 1 - pos
      {
        if Clean() && getpos < s.Capacity() {
          ReadableAt(Buf(), getpos, putpos, pos);
        }
        var c;
        c, o := Peek(pos);
        if !IsSpace(c) {
          if Clean() && o == Done {
            SkipSpacesIs(g, pos);
          }
          return;
        }
        pos := pos + 1;
      }
      if Clean() {
        SkipSpacesIs(g, |g|);
      }
    }

    /** The second loop: counts up to the next white space, NUL or end. */
    method CountWord() returns (pos: nat, o: Outcome)
      requires Valid() && getpos <= putpos
      modifies this
      ensures Valid() && putpos == old(putpos) && getpos == old(getpos)
      ensures fail == old(fail) && ignoreErr == old(ignoreErr) && eofp == old(eofp)
      ensures old(Clean()) ==> Clean() && o == Done && pos == WordLen(ToRead())
      ensures !old(Clean()) ==> pos == 0 && eofg == (old(eofg) || ToRead() != "")
      ensures !old(Clean()) ==> o == if ToRead() == "" || ignoreErr then Done else Raised
    {
      pos, o := 0, Done;
      ghost var g := ToRead();
      while putpos - getpos > pos
        invariant Valid() && putpos == old(putpos) && getpos == old(getpos)
        invariant fail == old(fail) && ignoreErr == old(ignoreErr) && eofp == old(eofp) && eofg == old(eofg)
        invariant if Clean() then pos <= |g| && forall k | 0 <= k < pos :: InWord(g[k]) else pos == 0
        invariant o == Done
        decreases |g| - pos
      {
        var c;
        c, o := Peek(pos);
        if IsSpace(c) || c == NUL {
          if Clean() {
            assert c == g[pos];
            WordLenIs(g, pos);
          }
          return;
        }
        pos := pos + 1;
      }
      if Clean() {
        WordLenIs(g, pos);
      }
    }

    /** The end of `operator>>`: the string is resized and read into. */
    method ReadInto(n: Str, pos: nat)
      requires Valid() && getpos <= putpos && n.Valid() && Repr() !! n.Repr()
      requires if Clean() then pos <= |ToRead()| else pos == 0
      modifies this, n.Repr()
      ensures Valid() && getpos <= putpos == old(putpos) && n.Valid() && fresh(n.Repr() - old(n.Repr()))
      ensures eofg == old(eofg) && fail == old(fail) && eofp == old(eofp) && ignoreErr == old(ignoreErr)
      ensures n.Contents() == old(ToRead())[..pos] && ToRead() == old(ToRead())[pos..] && Buf() == old(Buf())
      ensures getpos == old(getpos) + pos
    {
      n.Resize(pos);
      var r, raised := Read(pos);
      PlaceFirst(n.Data(), r);
      assert |r| == pos && n.Data()[pos] == n.Data()[pos..][0];
    }

    /** `operator>>` after the white space. */
    method ReadWord(n: Str)
      requires Valid() && getpos <= putpos && n.Valid() && Repr() !! n.Repr() && (Clean() || eofg)
      modifies this, n.Repr()
      ensures Valid() && getpos <= putpos == old(putpos) && n.Valid() && fresh(n.Repr() - old(n.Repr()))
      ensures Buf() == old(Buf()) && ignoreErr == old(ignoreErr) && eofp == old(eofp) && Clean() == old(Clean())
      ensures Clean() || eofg
      ensures var m := if Clean() then WordLen(old(ToRead())) else 0;
        n.Contents() == old(ToRead())[..m] && ToRead() == old(ToRead())[m..] && getpos == old(getpos) + m
    {
      var pos, o := CountWord();
      ReadInto(n, pos);
    }

    /** The check of `advg` that follows fails exactly when the stream is stuck. */
    method SkipAhead() returns (o: Outcome)
      requires Valid() && getpos <= putpos
      modifies this
      ensures Valid() && getpos <= putpos == old(putpos)
      ensures fail == old(fail) && ignoreErr == old(ignoreErr) && eofp == old(eofp)
      ensures Clean() == old(Clean()) && (Clean() || eofg) && o == old(ExtractOutcome())
      ensures o != Done || !Clean() ==> getpos == old(getpos)
      ensures o == Done && Clean() ==> ToRead() == old(ToRead())[SkipSpaces(old(ToRead()))..]
    {
      var pos: nat;
      pos, o := CountSpaces();
      if o != Done {
        return;
      }
      var ok := AdvG(pos);
      if !ok {
        o := Raised;
      }
    }

    /** `operator>>` into a string. C4_ERROR is that of the check of `advg`, or with an error on record
        that of `peek`. If that one is ignored the string comes back empty. */
    method Extract(n: Str) returns (o: Outcome)
      requires Valid() && getpos <= putpos && n.Valid() && Repr() !! n.Repr()
      modifies this, n.Repr()
      ensures Valid() && getpos <= putpos == old(putpos) && n.Valid() && fresh(n.Repr() - old(n.Repr()))
      ensures Buf() == old(Buf()) && ignoreErr == old(ignoreErr) && eofp == old(eofp) && Clean() == old(Clean())
      ensures o == old(ExtractOutcome())
      ensures o != Done || !Clean() ==> getpos == old(getpos)
      ensures o == Done && Clean() ==>
        n.Contents() == Word(old(ToRead())) && ToRead() == AfterWord(old(ToRead()))
      ensures o == Done && !Clean() ==> n.Contents() == "" && eofg
    {
      ghost var t := ToRead();
      o := SkipAhead();
      if o != Done {
        return;
      }
      ghost var u := ToRead();
      ReadWord(n);
      assert old(Clean()) ==> u == t[SkipSpaces(t)..];
    }
  }

  // ---- the buffer

  /** Where `>>` may peek: in the text, at the put position if that is in the buffer. It is, unless the
      last character of the buffer, which is no white space, is in the text. */
  lemma ReadableAt(b: string, get: nat, put: nat, pos: nat)
    requires get <= put <= |b| && get < |b| && b[|b| - 1] == NUL && get + pos <= put
    requires forall k | 0 <= k < pos :: IsSpace(b[..put][get..][k])
    ensures get + pos < |b|
    ensures get + pos < put ==> b[get + pos] == b[..put][get..][pos]
  {
    assert forall k | 0 <= k < put - get :: b[..put][get..][k] == b[get + k];
    assert pos > 0 ==> IsSpace(b[get + pos - 1]);
  }

  lemma ReadOff(b: string, get: nat, put: nat, n: nat)
    requires get + n <= put <= |b|
    ensures b[get..get + n] == b[..put][get..][..n] && b[..put][get + n..] == b[..put][get..][n..]
  {
  }

  /** A buffer that took up zeros. */
  lemma GrownAt(b: string, c: string, put: nat)
    requires put <= |b| <= |c| && c == b + Zeros(|c| - |b|)
    ensures c[..put] == b[..put]
    ensures forall k | put <= k < |c| :: c[k] == if k < |b| then b[k] else NUL
  {
  }

  /** The whole capacity becomes text, but for the terminator. */
  method Take(s: Str, ghost was: string)
    requires s.Formed() && s.size < s.Capacity() && s.Contents() == was
    requires s.factor(s.size) <= s.Capacity()
    modifies s.Repr()
    ensures s.Valid() && fresh(s.Repr() - old(s.Repr())) && s.Capacity() == s.size + 1 == old(s.Capacity()) + 1
    ensures s.isLong && s.Data()[..] == was + Zeros(s.size - |was|) + [NUL]
  {
    s.Resize(s.Capacity());
    assert was + Zeros(0) == was;
    LastOf(s.Data()[..]);
  }

  /** What the constructor of the stream does to its string. */
  method TakeAll(s: Str)
    requires s.Valid() && s.KeepsSize(s.Capacity())
    modifies s.Repr()
    ensures s.Valid() && fresh(s.Repr() - old(s.Repr())) && s.isLong && s.Capacity() == s.size + 1
    ensures s.size >= old(s.size) && s.Data()[..] == old(s.Contents()) + Zeros(s.Capacity() - old(s.size))
  {
    ghost var was := s.Contents();
    s.Reserve(s.Capacity());
    Take(s, was);
    assert Zeros(s.size - |was|) + [NUL] == Zeros(s.size + 1 - |was|);
  }

  // ---- sessions

  function Concat(parts: seq<string>): string {
    if parts == [] then "" else Concat(parts[..|parts| - 1]) + parts[|parts| - 1]
  }

  lemma ConcatStep(parts: seq<string>, k: nat)
    requires k < |parts|
    ensures Concat(parts[..k + 1]) == Concat(parts[..k]) + parts[k]
  {
    assert parts[..k + 1][..k] == parts[..k];
  }

  /** After any writes from any position `seekp` accepts, of any lengths and through any reallocations,
      strp() is what it was followed by everything written; the character after it is the terminator as
      soon as a character was written. */
  method WriteAll(ss: SStream, parts: seq<string>)
    requires ss.Valid() && !ss.eofp
    modifies ss.Repr()
    ensures ss.Valid() && fresh(ss.Repr() - old(ss.Repr())) && !ss.eofp
    ensures ss.Text() == old(ss.Text()) + Concat(parts)
    ensures Concat(parts) != "" ==> ss.putpos < ss.s.Capacity() && ss.s.Data()[ss.putpos] == NUL
  {
    var k := 0;
    while k < |parts|
      invariant 0 <= k <= |parts| && ss.Valid() && fresh(ss.Repr() - old(ss.Repr())) && !ss.eofp
      invariant ss.Text() == old(ss.Text()) + Concat(parts[..k])
      invariant Concat(parts[..k]) != "" ==> ss.putpos < ss.s.Capacity() && ss.s.Data()[ss.putpos] == NUL
    {
      ConcatStep(parts, k);
      AppendTwice(old(ss.Text()), Concat(parts[..k]), parts[k]);
      ss.Write(parts[k]);
      k := k + 1;
    }
    assert parts[..k] == parts;
  }

  /** The stream shows a tape: the same positions, and the buffer holds it. */
  ghost predicate Shows(ss: SStream, t: Tape)
    reads ss, ss.s, ss.s.arr, ss.s.str
  {
    ss.Valid() && t.Ok() && ss.putpos == t.put && ss.getpos == t.get && Holds(ss.Buf(), t.chars)
  }

  /** Where the capacity matters: `seekp` goes no further, and `>>` must not start at the end of the
      buffer. */
  predicate NeedsBuffer(t: Tape, call: Call, cap: nat) {
    match call
    case SeekP(p) => p > cap
    case GetWord => t.get == cap
    case _ => false
  }

  method Put(ss: SStream, ghost t: Tape, x: string)
    requires Shows(ss, t) && ss.Clean() && !ss.eofp
    modifies ss.Repr()
    ensures Shows(ss, t.Put(x)) && fresh(ss.Repr() - old(ss.Repr())) && ss.Clean() && !ss.eofp
  {
    ghost var b := ss.Buf();
    ss.Write(x);
    if x != "" {
      HoldsPut(b, ss.Buf(), t, x);
    }
  }

  method GetWord(ss: SStream, ghost t: Tape) returns (word: string, ok: bool)
    requires Shows(ss, t) && ss.Clean() && !ss.eofp && t.get <= t.put
    modifies ss
    ensures ss.Repr() == old(ss.Repr()) && ss.Clean() && !ss.eofp
    ensures ok == (Step(t, Call.GetWord).Some? && t.get != ss.s.Capacity())
    ensures Shows(ss, if ok then Step(t, Call.GetWord).value.tape else t)
    ensures ok ==> Step(t, Call.GetWord).value.outs == [word]
  {
    HoldsAt(ss.Buf(), t);
    LastIsNul(ss.Buf(), t);
    GetWordStep(t);
    assert ss.ToRead() == t.ToRead();
    assert t.get != ss.s.Capacity() ==> ss.Stuck() == t.Stuck();
    var o;
    word, o := ExtractWord(ss);
    ok := o == Done;
    assert ok ==> |ss.ToRead()| == ss.putpos - ss.getpos;
  }

  /** A put position at the end of the buffer: white space does not reach it, on the tape either. */
  lemma LastIsNul(b: string, t: Tape)
    requires t.Ok() && Holds(b, t.chars) && t.get <= t.put && b != "" && b[|b| - 1] == NUL
    ensures t.put >= |b| && t.get < |b| ==> !t.Stuck()
  {
    HoldsAt(b, t);
  }

  /** One call of a session on a stream does what it does on the tape; it is not made exactly when it
      fails there or needs more buffer than there is. */
  method Make(ss: SStream, ghost t: Tape, call: Call) returns (outs: seq<string>, ok: bool)
    requires Shows(ss, t) && ss.Clean() && !ss.eofp
    modifies ss.Repr()
    ensures fresh(ss.Repr() - old(ss.Repr())) && !ss.eofp
    ensures ok == (Step(t, call).Some? && !NeedsBuffer(t, call, old(ss.s.Capacity())))
    ensures ok ==> ss.Clean() && Shows(ss, Step(t, call).value.tape) && outs == Step(t, call).value.outs
    ensures !ok ==> Shows(ss, t) && outs == [] && ss.s.Capacity() == old(ss.s.Capacity())
  {
    outs, ok := [], true;
    HoldsAt(ss.Buf(), t);
    match call {
      case Put(x) => Put(ss, t, x);
      case GetWord =>
        if ss.getpos > ss.putpos {
          return [], false;
        }
        var word;
        word, ok := GetWord(ss, t);
        outs := if ok then [word] else [];
      case Get(n) =>
        if ss.getpos > ss.putpos {
          return [], false;
        }
        var r, raised := ss.Read(n);
        ok := !ss.eofg;
        outs := if ok then [r] else [];
      case SeekP(p) =>
        ok := ss.SeekP(p);
        if ok {
          HoldsSeek(ss.Buf(), t, p);
        }
      case SeekG(g) => ok := ss.SeekG(g);
      case Reset => ss.Reset();
    }
  }

  lemma RunStep(t: Tape, calls: seq<Call>, n: nat)
    requires t.Ok() && n < |calls|
    ensures calls[..n + 1][..n] == calls[..n] && calls[..n + 1][n] == calls[n]
  {
  }

  /** Every session on a stream is the same session on a tape, whenever the string is reallocated: it
      reads the same and leaves the same, up to the first call that fails on the tape or that needs more
      buffer than there is. */
  method Play(ss: SStream, ghost t: Tape, calls: seq<Call>) returns (outs: seq<string>, n: nat)
    requires Shows(ss, t) && ss.Clean() && !ss.eofp
    modifies ss.Repr()
    ensures n <= |calls| && Run(t, calls[..n]).Some?
    ensures Shows(ss, Run(t, calls[..n]).value.tape) && outs == Run(t, calls[..n]).value.outs
    ensures n < |calls| ==>
      || Run(t, calls[..n + 1]).None?
      || NeedsBuffer(Run(t, calls[..n]).value.tape, calls[n], ss.s.Capacity())
  {
    outs, n := [], 0;
    ghost var tape := t;
    while n < |calls|
      invariant 0 <= n <= |calls| && Run(t, calls[..n]) == Some(Played(tape, outs))
      invariant Shows(ss, tape) && ss.Clean() && !ss.eofp && fresh(ss.Repr() - old(ss.Repr()))
    {
      RunStep(t, calls, n);
      var more, ok := Make(ss, tape, calls[n]);
      if !ok {
        return;
      }
      tape := Step(tape, calls[n]).value.tape;
      outs := outs + more;
      n := n + 1;
    }
  }

  /** Without seeks, on a stream whose text is ended, it is the session on a plain text: what is read is
      what the plain text gives, nothing written is lost, and it ends with the first read that asks for
      too much. */
  method PlayPlainly(ss: SStream, calls: seq<Call>) returns (outs: seq<string>, n: nat)
    requires ss.Ended() && ss.Clean() && !ss.eofp && Seekless(calls)
    modifies ss.Repr()
    ensures ss.Ended() && n <= |calls| && Plainly(old(ss.ToRead()), calls[..n]).Some?
    ensures var s := Plainly(old(ss.ToRead()), calls[..n]).value;
      outs == s.outs && ss.ToRead() == s.left && ss.Text() == old(ss.Text()) + s.added
    ensures n < |calls| ==> Plainly(old(ss.ToRead()), calls[..n + 1]).None?
  {
    ghost var t := Tape(ss.Buf(), ss.putpos, ss.getpos);
    HoldsAt(ss.Buf(), t);
    outs, n := Play(ss, t, calls);
    SeeklessIsPlain(t, calls[..n]);
    ghost var w := Run(t, calls[..n]).value.tape;
    HoldsAt(ss.Buf(), w);
    if n < |calls| {
      SeeklessIsPlain(t, calls[..n + 1]);
    }
  }

  // ---- words on a stream

  /** `catsep` of one or more strings. */
  method CatSep(ss: SStream, sep: char, ts: seq<string>)
    requires ss.Valid() && !ss.eofp && ts != []
    modifies ss.Repr()
    ensures ss.Valid() && fresh(ss.Repr() - old(ss.Repr())) && !ss.eofp && (old(ss.Ended()) ==> ss.Ended())
    ensures ss.getpos == old(ss.getpos) && ss.Clean() == old(ss.Clean()) && ss.ignoreErr == old(ss.ignoreErr)
    ensures ss.Text() == old(ss.Text()) + Join(ts, sep)
    decreases |ts|
  {
    ghost var text := ss.Text();
    ss.Write(ts[0]);
    assert ss.Text() == text + ts[0];
    if |ts| > 1 {
      ss.Write([sep]);
      CatSep(ss, sep, ts[1..]);
      JoinStep(ts, sep);
      AppendTwice(text, ts[0], [sep]);
      AppendTwice(text, ts[0] + [sep], Join(ts[1..], sep));
    }
  }

  /** `ss >> word` into a new string. */
  method ExtractWord(ss: SStream) returns (word: string, o: Outcome)
    requires ss.Valid() && ss.getpos <= ss.putpos
    modifies ss
    ensures ss.Valid() && ss.getpos <= ss.putpos == old(ss.putpos) && ss.Buf() == old(ss.Buf())
    ensures ss.Repr() == old(ss.Repr()) && ss.ignoreErr == old(ss.ignoreErr) && ss.eofp == old(ss.eofp)
    ensures ss.Clean() == old(ss.Clean()) && o == old(ss.ExtractOutcome())
    ensures o != Done || !ss.Clean() ==> ss.getpos == old(ss.getpos)
    ensures o == Done && ss.Clean() ==> word == Word(old(ss.ToRead())) && ss.ToRead() == AfterWord(old(ss.ToRead()))
    ensures o == Done && !ss.Clean() ==> word == "" && ss.eofg
  {
    var w := new Str(ss.s.factor);
    o := ss.Extract(w);
    word := w.Data()[..w.size];
  }

  /** The same on a stream whose text is ended: no check fails. */
  method ExtractNext(ss: SStream) returns (word: string, raised: bool)
    requires ss.Ended()
    modifies ss
    ensures ss.Ended() && ss.Buf() == old(ss.Buf()) && ss.Repr() == old(ss.Repr()) && ss.ignoreErr == old(ss.ignoreErr)
    ensures ss.Clean() == old(ss.Clean()) && raised == (!ss.Clean() && !ss.ignoreErr)
    ensures !raised ==> word == (if ss.Clean() then Word(old(ss.ToRead())) else "") && (ss.Clean() || ss.eofg)
    ensures ss.ToRead() == if ss.Clean() then AfterWord(old(ss.ToRead())) else old(ss.ToRead())
  {
    assert !ss.Stuck();
    var o;
    word, o := ExtractWord(ss);
    raised := o == Raised;
  }

  /** n extractions one after another, `ss >> a >> b >> ...` */
  method ExtractAll(ss: SStream, n: nat) returns (ws: seq<string>)
    requires ss.Ended() && ss.Clean()
    modifies ss
    ensures ss.Ended() && ss.Repr() == old(ss.Repr()) && ss.Clean() && ss.Buf() == old(ss.Buf())
    ensures ws == Words(old(ss.ToRead()), n) && ss.ToRead() == AfterWords(old(ss.ToRead()), n)
    decreases n
  {
    if n == 0 {
      return [];
    }
    var word, raised := ExtractNext(ss);
    ws := ExtractAll(ss, n - 1);
    ws := [word] + ws;
  }

  /** `uncatsep` into n strings. C4_ERROR ends it; when errors are ignored it goes on and the strings
      after the first error come back empty. */
  method UncatSep(ss: SStream, n: nat) returns (r: Uncatted)
    requires ss.Ended() && n > 0
    modifies ss
    ensures ss.Ended() && ss.Repr() == old(ss.Repr()) && ss.Buf() == old(ss.Buf()) && ss.ignoreErr == old(ss.ignoreErr)
    ensures r == UncatWith(old(ss.ToRead()), n, old(ss.Clean()), ss.ignoreErr) && ss.Clean() == r.ok
    ensures ss.ToRead() == if old(ss.Clean()) then UncatLeft(old(ss.ToRead()), n) else old(ss.ToRead())
    decreases n, 0
  {
    var word, raised := ExtractNext(ss);
    if raised {
      return Uncatted([], false);
    }
    if n == 1 {
      return Uncatted([word], ss.Clean());
    }
    r := UncatRest(ss, n - 1);
    r := Uncatted([word] + r.words, r.ok);
  }

  method UncatRest(ss: SStream, n: nat) returns (r: Uncatted)
    requires ss.Ended() && n > 0 && (ss.Clean() || (ss.eofg && ss.ignoreErr))
    modifies ss
    ensures ss.Ended() && ss.Repr() == old(ss.Repr()) && ss.Buf() == old(ss.Buf()) && ss.ignoreErr == old(ss.ignoreErr)
    ensures r == UncatMore(old(ss.ToRead()), n, old(ss.Clean()), ss.ignoreErr) && ss.Clean() == r.ok
    ensures ss.ToRead() ==
      if old(ss.Clean()) && old(ss.ToRead()) != "" then UncatLeft(old(ss.ToRead())[1..], n) else old(ss.ToRead())
    decreases n, 1
  {
    ghost var rest := ss.ToRead();
    var c, raised := ss.Read(1);
    if raised {
      return Uncatted([], false);
    }
    assert ss.ToRead() == if ss.Clean() then rest[1..] else rest;
    r := UncatSep(ss, n);
  }

  lemma AllOf(t: string)
    ensures "" + t == t && t[0..] == t
  {
  }

  /** A stream holding strings written with a separator, not yet read from. */
  method Written(factor: nat -> nat, ts: seq<string>, sep: char) returns (ss: SStream)
    requires ts != []
    ensures fresh(ss.Repr()) && ss.Ended() && ss.Clean() && !ss.ignoreErr && !ss.eofp && ss.getpos == 0
    ensures ss.ToRead() == ss.Text() == Join(ts, sep)
  {
    var str := new Str(factor);
    ss := new SStream(str);
    assert ss.Buf()[0] == NUL;
    CatSep(ss, sep, ts);
    AllOf(Join(ts, sep));
  }

  /** Strings written with a white-space separator and extracted again come back, in order, exactly when
      they are wordy. */
  method CatThenExtract(factor: nat -> nat, ts: seq<string>, sep: char) returns (back: seq<string>)
    requires IsSpace(sep) && ts != []
    ensures back == ts <==> Wordy(ts)
  {
    var ss := Written(factor, ts, sep);
    back := ExtractAll(ss, |ts|);
    WordsComeBackExactly(ts, sep);
  }

  /** Through uncatsep they come back exactly when they are separable, and with NUL between exactly when
      they are plain. */
  method CatThenUncat(factor: nat -> nat, ts: seq<string>, sep: char) returns (back: Uncatted)
    requires (IsSpace(sep) || sep == NUL) && ts != []
    ensures back == Uncatted(ts, true) <==> if sep == NUL then AllPlain(ts) else Separable(ts)
  {
    var ss := Written(factor, ts, sep);
    back := UncatSep(ss, |ts|);
    UncatIsWithout(Join(ts, sep), |ts|);
    if sep == NUL {
      UncatByNulExactly(ts);
    } else {
      UncatSepUndoesCatSepExactly(ts, sep);
    }
  }

  // ---- where `>>` fails

  lemma AtOf(b: string, text: string, p: nat)
    requires p < |text| <= |b| && b[..|text|] == text
    ensures b[p] == text[p] && b[..p][p..] == ""
  {
  }

  /** `>>` with both positions at p, where a stream holds a text. */
  method NothingToRead(ss: SStream, ghost t: string, p: nat) returns (raised: bool)
    requires ss.Valid() && ss.Clean() && ss.putpos == ss.getpos == p < |t| <= ss.s.Capacity() && ss.Buf()[..|t|] == t
    modifies ss
    ensures raised <==> IsSpace(t[p])
  {
    AtOf(ss.Buf(), t, p);
    assert ss.ToRead() == "";
    var word, o := ExtractWord(ss);
    raised := o == Raised;
  }

  /** With both positions moved back to p there is nothing to read, and `>>` fails the check of `advg`
      exactly when what was written has white space there. */
  method ExtractAt(factor: nat -> nat, t: string, p: nat) returns (raised: bool)
    requires p < |t|
    ensures raised <==> IsSpace(t[p])
  {
    var ss := Written(factor, [t], ' ');
    var ok := ss.SeekP(p);
    ok := ss.SeekG(p);
    raised := NothingToRead(ss, t, p);
  }

  method ExtractAtSpace(factor: nat -> nat) returns (raised: bool)
    ensures raised
  {
    raised := ExtractAt(factor, "a b", 1);
  }

  /** `reset` makes both positions zero. */
  method ExtractAfterReset(factor: nat -> nat, t: string) returns (raised: bool)
    requires t != ""
    ensures raised <==> IsSpace(t[0])
  {
    var ss := Written(factor, [t], ' ');
    ss.Reset();
    raised := NothingToRead(ss, t, 0);
  }
}
