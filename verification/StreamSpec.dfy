/** A string stream as a tape: an unlimited buffer with a put and a get position, on which a session of
    calls can be followed without knowing when the string of the stream is reallocated. */
module StreamSpec {
  import opened Common
  import opened Buffers
  import opened Tokens

  /** The calls of a session. GetWord is `>>` into a string, Get reads n characters. */
  datatype Call = Put(t: string) | GetWord | Get(n: nat) | SeekP(p: nat) | SeekG(g: nat) | Reset

  /** What is not in `chars` is NUL. */
  datatype Tape = Tape(chars: string, put: nat, get: nat) {
    predicate Ok() { put <= |chars| && get <= |chars| }

    function At(k: nat): char { if k < |chars| then chars[k] else NUL }

    function Text(): string
      requires Ok()
    {
      chars[..put]
    }

    function ToRead(): string
      requires Ok() && get <= put
    {
      chars[get..put]
    }

    /** `>>` looks at the character at the put position when all it may read is white space; if that one
        is white space too, it counts one character more than there are. */
    predicate Stuck()
      requires Ok() && get <= put
    {
      AllSpaces(ToRead()) && IsSpace(At(put))
    }

    /** Nothing is left of what the buffer held after the put position, as far as `>>` can see. */
    predicate Ended() { get <= put < |chars| && chars[put] == NUL }

    function Put(t: string): (r: Tape)
      requires Ok()
      ensures r.Ok()
    {
      var end := put + |t|;
      if t == "" then this
      else Tape(chars[..put] + t + [NUL] + if end < |chars| then chars[end + 1..] else "", end, get)
    }

    function Seek(p: nat): (r: Tape)
      requires Ok()
      ensures r.Ok()
    {
      Tape(if p <= |chars| then chars else chars + Zeros(p - |chars|), p, get)
    }
  }

  datatype Played = Played(tape: Tape, outs: seq<string>)

  /** One call; none if it fails a check or reads too much. */
  function Step(t: Tape, call: Call): (r: Option<Played>)
    requires t.Ok()
    ensures r.Some? ==> r.value.tape.Ok()
  {
    match call
    case Put(x) => Some(Played(t.Put(x), []))
    case GetWord =>
      if t.get > t.put || t.Stuck() then None else
      var rest := t.ToRead();
      Some(Played(t.(get := t.put - |AfterWord(rest)|), [Word(rest)]))
    case Get(n) =>
      if t.get + n > t.put then None else Some(Played(t.(get := t.get + n), [t.ToRead()[..n]]))
    case SeekP(p) => Some(Played(t.Seek(p), []))
    case SeekG(g) => if g > t.put then None else Some(Played(t.(get := g), []))
    case Reset => Some(Played(t.(put := 0, get := 0), []))
  }

  lemma GetWordStep(t: Tape)
    requires t.Ok() && t.get <= t.put
    ensures |AfterWord(t.ToRead())| <= t.put - t.get
    ensures Step(t, GetWord) ==
      if t.Stuck() then None
      else Some(Played(t.(get := t.put - |AfterWord(t.ToRead())|), [Word(t.ToRead())]))
  {
    AfterWordIsSuffix(t.ToRead());
  }

  function Run(t: Tape, calls: seq<Call>): (r: Option<Played>)
    requires t.Ok()
    ensures r.Some? ==> r.value.tape.Ok()
  {
    if calls == [] then Some(Played(t, [])) else
    var r := Run(t, calls[..|calls| - 1]);
    if r.None? then None else
    var s := Step(r.value.tape, calls[|calls| - 1]);
    if s.None? then None else Some(Played(s.value.tape, r.value.outs + s.value.outs))
  }

  // ---- what a session on a tape means

  /** A write changes the characters it writes and the one after them. */
  lemma PutIsLocal(t: Tape, x: string, k: nat)
    requires t.Ok() && x != ""
    ensures t.Put(x).At(k) ==
      if k < t.put then t.At(k) else if k < t.put + |x| then x[k - t.put] else if k == t.put + |x| then NUL else t.At(k)
  {
  }

  /** Whatever the put position, what is written there is read back from there. */
  lemma WrittenIsRead(t: Tape, x: string)
    requires t.Ok()
    ensures var w := Step(t, Put(x)).value.tape;
      Step(w, SeekG(t.put)).Some? && Step(Step(w, SeekG(t.put)).value.tape, Get(|x|)).Some?
      && Step(Step(w, SeekG(t.put)).value.tape, Get(|x|)).value.outs == [x]
  {
    var w := t.Put(x);
    assert w.chars[t.put..w.put] == x;
    assert x[..|x|] == x;
  }

  /** Writing and reading in turns without moving back, on a plain text of which `left` is not read yet:
      what is read, what is added to the text, what is left. */
  datatype Session = Session(outs: seq<string>, added: string, left: string)

  predicate Seekless(calls: seq<Call>) {
    forall i | 0 <= i < |calls| :: calls[i].Put? || calls[i].GetWord? || calls[i].Get?
  }

  function PlainStep(rest: string, call: Call): Option<Session> {
    match call
    case Put(x) => Some(Session([], x, rest + x))
    case GetWord => Some(Session([Word(rest)], "", AfterWord(rest)))
    case Get(n) => if n > |rest| then None else Some(Session([rest[..n]], "", rest[n..]))
    case _ => None
  }

  function Plainly(rest: string, calls: seq<Call>): Option<Session> {
    if calls == [] then Some(Session([], "", rest)) else
    var r := Plainly(rest, calls[..|calls| - 1]);
    if r.None? then None else
    var s := PlainStep(r.value.left, calls[|calls| - 1]);
    if s.None? then None else Some(Session(r.value.outs + s.value.outs, r.value.added + s.value.added, s.value.left))
  }

  lemma PutOnEnded(t: Tape, x: string)
    requires t.Ended()
    ensures var w := t.Put(x);
      w.Ended() && w.get == t.get && w.Text() == t.Text() + x && w.ToRead() == t.ToRead() + x
  {
    if x == "" {
      assert t.Text() + x == t.Text() && t.ToRead() + x == t.ToRead();
    }
  }

  lemma AdvanceOnTape(t: Tape, n: nat)
    requires t.Ended() && t.get + n <= t.put
    ensures var w := t.(get := t.get + n); w.Ended() && w.Text() == t.Text() && w.ToRead() == t.ToRead()[n..]
  {
  }

  lemma AppendTwice(a: string, b: string, c: string)
    ensures (a + b) + c == a + (b + c)
  {
  }

  lemma GetWordIsPlain(t: Tape)
    requires t.Ended()
    ensures Step(t, GetWord).Some? && PlainStep(t.ToRead(), GetWord).Some?
    ensures var w, s := Step(t, GetWord).value, PlainStep(t.ToRead(), GetWord).value;
      w.tape.Ended() && w.outs == s.outs && w.tape.Text() == t.Text() && w.tape.ToRead() == s.left
  {
    assert !t.Stuck();
    AfterWordIsSuffix(t.ToRead());
    MovedUpTo(t, AfterWord(t.ToRead()));
  }

  lemma MovedUpTo(t: Tape, left: string)
    requires t.Ended() && |left| <= |t.ToRead()| && left == t.ToRead()[|t.ToRead()| - |left|..]
    ensures var w := t.(get := t.put - |left|); w.Ended() && w.Text() == t.Text() && w.ToRead() == left
  {
  }

  lemma StepIsPlain(t: Tape, call: Call)
    requires t.Ended() && (call.Put? || call.GetWord? || call.Get?)
    ensures Step(t, call).Some? <==> PlainStep(t.ToRead(), call).Some?
    ensures Step(t, call).Some? ==>
      var w, s := Step(t, call).value, PlainStep(t.ToRead(), call).value;
      w.tape.Ended() && w.outs == s.outs && w.tape.Text() == t.Text() + s.added && w.tape.ToRead() == s.left
  {
    assert t.Text() + "" == t.Text();
    match call {
      case Put(x) => PutOnEnded(t, x);
      case GetWord => GetWordIsPlain(t);
      case Get(n) =>
        if t.get + n <= t.put {
          AdvanceOnTape(t, n);
        }
    }
  }

  lemma AfterWordIsSuffix(rest: string)
    ensures |AfterWord(rest)| <= |rest| && AfterWord(rest) == rest[|rest| - |AfterWord(rest)|..]
  {
  }

  /** From a tape with nothing after its text, a session without seeks is a session on a plain text: it
      comes to its end for the same calls, reads the same and adds the same. */
  lemma {:induction false} SeeklessIsPlain(t: Tape, calls: seq<Call>)
    requires t.Ended() && Seekless(calls)
    ensures Run(t, calls).Some? <==> Plainly(t.ToRead(), calls).Some?
    ensures Run(t, calls).Some? ==>
      var w, s := Run(t, calls).value, Plainly(t.ToRead(), calls).value;
      w.tape.Ended() && w.outs == s.outs && w.tape.Text() == t.Text() + s.added && w.tape.ToRead() == s.left
    decreases |calls|
  {
    if calls == [] {
      assert t.Text() + "" == t.Text();
    } else {
      var before, call := calls[..|calls| - 1], calls[|calls| - 1];
      SeeklessIsPlain(t, before);
      if Run(t, before).Some? {
        var tape := Run(t, before).value.tape;
        StepIsPlain(tape, call);
        if Step(tape, call).Some? {
          AppendTwice(t.Text(), Plainly(t.ToRead(), before).value.added, PlainStep(tape.ToRead(), call).value.added);
        }
      }
    }
  }

  /** What was in the stream before a reset is gone once something is written. */
  lemma ResetForgets(t: Tape, x: string)
    requires t.Ok() && x != ""
    ensures var w := Step(Step(t, Reset).value.tape, Put(x)).value.tape; w.Ended() && w.Text() == w.ToRead() == x
  {
  }

  // ---- the buffer of a stream and its tape

  predicate Holds(b: string, chars: string) {
    |chars| <= |b| && b[..|chars|] == chars && forall k | |chars| <= k < |b| :: b[k] == NUL
  }

  lemma HoldsAt(b: string, t: Tape)
    requires t.Ok() && Holds(b, t.chars)
    ensures b[..t.put] == t.Text() && (t.get <= t.put ==> b[..t.put][t.get..] == t.ToRead())
    ensures t.put < |b| ==> b[t.put] == t.At(t.put)
  {
    var n := |t.chars|;
    assert b[..t.put] == b[..n][..t.put];
    if t.put < n {
      assert b[t.put] == b[..n][t.put];
    }
  }

  lemma HoldsSeek(b: string, t: Tape, p: nat)
    requires t.Ok() && Holds(b, t.chars) && p <= |b|
    ensures Holds(b, t.Seek(p).chars)
  {
  }

  /** A buffer that grew and was then written to. */
  lemma HoldsPut(b: string, c: string, t: Tape, x: string)
    requires t.Ok() && Holds(b, t.chars) && x != "" && t.put + |x| < |c| && |b| <= |c|
    requires c[..t.put + |x|] == b[..t.put] + x && c[t.put + |x|] == NUL
    requires forall k | t.put + |x| < k < |c| :: c[k] == if k < |b| then b[k] else NUL
    ensures Holds(c, t.Put(x).chars)
  {
    var r, end := t.Put(x).chars, t.put + |x|;
    HoldsAt(b, t);
    assert r[..end] == b[..t.put] + x;
    forall k | end < k < |r| ensures c[k] == r[k] {
      assert r[k] == t.chars[k] == b[..|t.chars|][k];
    }
    forall k | 0 <= k < |r| ensures c[k] == r[k] {
      if k < end {
        assert c[k] == c[..end][k] && r[k] == r[..end][k];
      }
    }
  }

  /** Resizing to all of the new capacity and terminating keeps the buffer and adds zeros. */
  lemma GrownBuffer(was: string, n: nat)
    ensures was + Zeros(n) + [NUL] == was + [NUL] + Zeros(n)
  {
  }

  lemma LastOf(b: string)
    requires b != ""
    ensures b == b[..|b| - 1] + [b[|b| - 1]]
  {
  }
}
