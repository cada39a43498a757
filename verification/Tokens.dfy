/** What `operator>>` into a string takes off the text of a stream (src/c4/string.hpp), and when words
    written with a separator come back. */
module Tokens {
  import opened Buffers
  import opened Splitting

  /** std::isspace of the C locale. */
  predicate IsSpace(c: char) {
    c == ' ' || c == '\n' || c == '\r' || c == '\t' || c == '\U{0B}' || c == '\U{0C}'
  }

  lemma SpacesAre(c: char)
    ensures IsSpace(c) <==> c == ' ' || 9 <= c as int <= 13
  {
  }

  function SkipSpaces(t: string): (n: nat)
    ensures n <= |t|
  {
    if t != "" && IsSpace(t[0]) then 1 + SkipSpaces(t[1..]) else 0
  }

  lemma {:induction false} SkipSpacesMeans(t: string)
    ensures forall k | 0 <= k < SkipSpaces(t) :: IsSpace(t[k])
    ensures SkipSpaces(t) < |t| ==> !IsSpace(t[SkipSpaces(t)])
    decreases |t|
  {
    if t != "" && IsSpace(t[0]) {
      SkipSpacesMeans(t[1..]);
      assert forall k | 1 <= k < SkipSpaces(t) :: t[k] == t[1..][k - 1];
    }
  }

  lemma SkipSpacesIs(t: string, n: nat)
    requires n <= |t| && (forall k | 0 <= k < n :: IsSpace(t[k])) && (n < |t| ==> !IsSpace(t[n]))
    ensures SkipSpaces(t) == n
  {
    SkipSpacesMeans(t);
  }

  predicate AllSpaces(t: string) { SkipSpaces(t) == |t| }

  predicate InWord(c: char) { !IsSpace(c) && c != NUL }

  predicate Plain(t: string) { forall k | 0 <= k < |t| :: InWord(t[k]) }

  predicate AllPlain(ts: seq<string>) { forall i | 0 <= i < |ts| :: Plain(ts[i]) }

  function WordLen(t: string): (n: nat)
    ensures n <= |t|
  {
    if t != "" && InWord(t[0]) then 1 + WordLen(t[1..]) else 0
  }

  lemma {:induction false} WordLenMeans(t: string)
    ensures forall k | 0 <= k < WordLen(t) :: InWord(t[k])
    ensures WordLen(t) < |t| ==> !InWord(t[WordLen(t)])
    decreases |t|
  {
    if t != "" && InWord(t[0]) {
      WordLenMeans(t[1..]);
      assert forall k | 1 <= k < WordLen(t) :: t[k] == t[1..][k - 1];
    }
  }

  lemma WordLenIs(t: string, n: nat)
    requires n <= |t| && (forall k | 0 <= k < n :: InWord(t[k])) && (n < |t| ==> !InWord(t[n]))
    ensures WordLen(t) == n
  {
    WordLenMeans(t);
  }

  /** One extraction: the word it gives, and the text it leaves. */
  function Word(t: string): string {
    var u := t[SkipSpaces(t)..];
    u[..WordLen(u)]
  }

  function AfterWord(t: string): string {
    var u := t[SkipSpaces(t)..];
    u[WordLen(u)..]
  }

  function Words(t: string, n: nat): (ws: seq<string>)
    ensures |ws| == n
    decreases n
  {
    if n == 0 then [] else [Word(t)] + Words(AfterWord(t), n - 1)
  }

  /** Words that extraction can give: no space and no NUL in any, and only empty ones after an empty
      one. */
  predicate Wordy(ts: seq<string>) {
    AllPlain(ts) && forall i, j | 0 <= i < j < |ts| && ts[i] == "" :: ts[j] == ""
  }

  lemma {:induction false} WordOfPlain(w: string, rest: string)
    requires Plain(w) && w != "" && (rest == "" || !InWord(rest[0]))
    ensures Word(w + rest) == w && AfterWord(w + rest) == rest
  {
    var t := w + rest;
    assert t[0] == w[0] && InWord(t[0]);
    assert SkipSpaces(t) == 0;
    WordLenOfPlain(w, rest);
    assert t[0..] == t;
  }

  lemma {:induction false} WordLenOfPlain(w: string, rest: string)
    requires Plain(w) && (rest == "" || !InWord(rest[0]))
    ensures WordLen(w + rest) == |w|
    decreases |w|
  {
    if w == "" {
      assert w + rest == rest;
    } else {
      assert (w + rest)[0] == w[0];
      assert (w + rest)[1..] == w[1..] + rest;
      WordLenOfPlain(w[1..], rest);
    }
  }

  /** A leading space changes no extraction. */
  lemma WordsAfterSpace(sep: char, t: string, n: nat)
    requires IsSpace(sep) && n > 0
    ensures Words([sep] + t, n) == Words(t, n)
  {
    var u := [sep] + t;
    assert u[1..] == t;
    assert SkipSpaces(u) == 1 + SkipSpaces(t);
    assert u[1 + SkipSpaces(t)..] == t[SkipSpaces(t)..];
  }

  lemma EmptyAfterEmpty(t: string)
    requires Word(t) == ""
    ensures Word(AfterWord(t)) == ""
  {
    var u := AfterWord(t);
    assert u == t[SkipSpaces(t)..];
    SkipSpacesMeans(t);
    assert SkipSpaces(u) == 0;
    assert u[0..] == u;
  }

  predicate AllEmpty(ts: seq<string>) { forall i | 0 <= i < |ts| :: ts[i] == "" }

  lemma AllEmptyCons(w: string, ws: seq<string>)
    requires w == "" && AllEmpty(ws)
    ensures AllEmpty([w] + ws)
  {
  }

  /** Once a word is empty, at the end of the text or at a NUL, all that follow are. */
  lemma {:induction false} EmptyStaysEmpty(t: string, n: nat)
    requires Word(t) == ""
    ensures AllEmpty(Words(t, n))
    decreases n
  {
    if n > 0 {
      var w, u := Word(t), AfterWord(t);
      EmptyAfterEmpty(t);
      EmptyStaysEmpty(u, n - 1);
      AllEmptyCons(w, Words(u, n - 1));
    }
  }

  lemma WordyCons(w: string, ws: seq<string>)
    requires Plain(w) && Wordy(ws) && (w == "" ==> AllEmpty(ws))
    ensures Wordy([w] + ws)
  {
    var all := [w] + ws;
    assert forall i | 0 < i < |all| :: all[i] == ws[i - 1];
  }

  lemma WordIsPlain(t: string)
    ensures Plain(Word(t))
  {
    var u := t[SkipSpaces(t)..];
    WordLenMeans(u);
    assert forall k | 0 <= k < WordLen(u) :: Word(t)[k] == u[k];
  }

  lemma EmptyAtEnd(t: string, n: nat)
    ensures Word(t) == "" ==> AllEmpty(Words(AfterWord(t), n))
  {
    if Word(t) == "" {
      EmptyAfterEmpty(t);
      EmptyStaysEmpty(AfterWord(t), n);
    }
  }

  /** Whatever the text, the words extracted are wordy. */
  lemma {:induction false} WordsAreWordy(t: string, n: nat)
    ensures Wordy(Words(t, n))
    decreases n
  {
    if n > 0 {
      var w, u := Word(t), AfterWord(t);
      WordIsPlain(t);
      WordsAreWordy(u, n - 1);
      EmptyAtEnd(t, n - 1);
      WordyCons(w, Words(u, n - 1));
    }
  }

  lemma {:induction false} EmptyWordsJoin(ts: seq<string>, sep: char)
    requires IsSpace(sep) && AllEmpty(ts)
    ensures Words(Join(ts, sep), |ts|) == ts
    decreases |ts|
  {
    if |ts| == 1 {
      assert Words("", 1) == [Word("")];
    } else if |ts| > 1 {
      var t := Join(ts, sep);
      var rest := Join(ts[1..], sep);
      assert t == [sep] + rest;
      EmptyWordsJoin(ts[1..], sep);
      WordsAfterSpace(sep, rest, |ts|);
      assert Words(rest, |ts| - 1)[0] == Word(rest) == "";
      EmptyStaysEmpty(rest, |ts|);
    }
  }

  lemma WordBeforeSep(w: string, sep: char, rest: string, n: nat)
    requires IsSpace(sep) && Plain(w) && w != "" && n > 0
    ensures Words(w + [sep] + rest, n + 1) == [w] + Words(rest, n)
  {
    var tail := [sep] + rest;
    assert w + [sep] + rest == w + tail;
    WordOfPlain(w, tail);
    WordsAfterSpace(sep, rest, n);
  }

  lemma WordyTail(ts: seq<string>)
    requires Wordy(ts) && ts != []
    ensures Wordy(ts[1..])
  {
    var rest := ts[1..];
    forall i, j | 0 <= i < j < |rest| && rest[i] == "" ensures rest[j] == "" {
      assert ts[i + 1] == "" && ts[j + 1] == rest[j];
    }
  }

  lemma OneWord(ts: seq<string>)
    requires |ts| == 1 && Plain(ts[0]) && ts[0] != ""
    ensures Words(ts[0], 1) == ts
  {
    WordOfPlain(ts[0], "");
    assert ts[0] + "" == ts[0];
    assert ts == [ts[0]];
  }

  lemma {:induction false} WordyJoin(ts: seq<string>, sep: char)
    requires IsSpace(sep) && Wordy(ts)
    ensures Words(Join(ts, sep), |ts|) == ts
    decreases |ts|
  {
    if ts == [] {
    } else if ts[0] == "" {
      EmptyWordsJoin(ts, sep);
    } else if |ts| == 1 {
      OneWord(ts);
    } else {
      WordyTail(ts);
      WordyJoin(ts[1..], sep);
      JoinStep(ts, sep);
      WordBeforeSep(ts[0], sep, Join(ts[1..], sep), |ts| - 1);
    }
  }

  /** Words written with one white-space character between them are extracted again, in order, exactly
      when they are wordy. */
  lemma WordsComeBackExactly(ts: seq<string>, sep: char)
    requires IsSpace(sep)
    ensures Words(Join(ts, sep), |ts|) == ts <==> Wordy(ts)
  {
    WordsAreWordy(Join(ts, sep), |ts|);
    if Wordy(ts) {
      WordyJoin(ts, sep);
    }
  }

  // ---- uncatsep

  /** `uncatsep` of n words: between two words one character is read. `ok` is false when there is none;
      what was extracted before is then all there is. */
  datatype Uncatted = Uncatted(words: seq<string>, ok: bool)

  function Uncat(t: string, n: nat): (r: Uncatted)
    requires n > 0
    ensures 0 < |r.words| <= n && (r.ok ==> |r.words| == n)
    decreases n
  {
    var rest := AfterWord(t);
    if n == 1 then Uncatted([Word(t)], true)
    else if rest == "" then Uncatted([Word(t)], false)
    else var r := Uncat(rest[1..], n - 1); Uncatted([Word(t)] + r.words, r.ok)
  }

  /** n words, when errors are ignored: those after the first error are empty. */
  function FilledUp(r: Uncatted, n: nat): Uncatted
    requires |r.words| <= n
  {
    Uncatted(r.words + seq(n - |r.words|, _ => ""), r.ok)
  }

  lemma FilledUpIs(r: Uncatted, n: nat)
    requires |r.words| <= n
    ensures var f := FilledUp(r, n);
      |f.words| == n && f.ok == r.ok && f.words[..|r.words|] == r.words && AllEmpty(f.words[|r.words|..])
  {
  }

  /** What uncatsep leaves to read. */
  function UncatLeft(t: string, n: nat): string
    requires n > 0
    decreases n
  {
    var rest := AfterWord(t);
    if n == 1 || rest == "" then rest else UncatLeft(rest[1..], n - 1)
  }

  function AfterWords(t: string, n: nat): string
    decreases n
  {
    if n == 0 then t else AfterWords(AfterWord(t), n - 1)
  }

  predicate IsWord(t: string) { Plain(t) && t != "" }

  predicate AllWords(ts: seq<string>) { ts == [] || (IsWord(ts[0]) && AllWords(ts[1..])) }

  lemma UncatBefore(w: string, sep: char, rest: string, n: nat)
    requires Plain(w) && !InWord(sep) && (w == "" ==> sep == NUL) && n > 0
    ensures var r, t := Uncat(rest, n), w + [sep] + rest;
      Uncat(t, n + 1) == Uncatted([w] + r.words, r.ok) && UncatLeft(t, n + 1) == UncatLeft(rest, n)
  {
    var tail := [sep] + rest;
    assert w + [sep] + rest == w + tail;
    if w == "" {
      WordBeforeNul(w, rest);
    } else {
      WordOfPlain(w, tail);
    }
    assert tail[1..] == rest;
  }

  lemma JoinThen(ts: seq<string>, sep: char, rest: string)
    requires |ts| > 1
    ensures Join(ts, sep) + rest == ts[0] + [sep] + (Join(ts[1..], sep) + rest)
  {
    JoinStep(ts, sep);
  }

  lemma Cons(ts: seq<string>)
    requires ts != []
    ensures ts == [ts[0]] + ts[1..]
    ensures |ts| == 1 ==> ts == [ts[0]]
  {
  }

  lemma UncatOfLast(w: string, rest: string)
    requires Plain(w) && w != "" && (rest == "" || !InWord(rest[0]))
    ensures Uncat(w + rest, 1) == Uncatted([w], true) && UncatLeft(w + rest, 1) == rest
  {
    WordOfPlain(w, rest);
  }

  lemma NothingAfter(t: string)
    ensures t + "" == t
  {
  }

  /** If it takes its words from the second on, it takes them from the first. */
  lemma UncatTakesCons(ts: seq<string>, sep: char, rest: string)
    requires |ts| > 1 && IsWord(ts[0]) && !InWord(sep)
    requires Uncat(Join(ts[1..], sep) + rest, |ts| - 1) == Uncatted(ts[1..], true)
    requires UncatLeft(Join(ts[1..], sep) + rest, |ts| - 1) == rest
    ensures Uncat(Join(ts, sep) + rest, |ts|) == Uncatted(ts, true) && UncatLeft(Join(ts, sep) + rest, |ts|) == rest
  {
    JoinThen(ts, sep, rest);
    UncatBefore(ts[0], sep, Join(ts[1..], sep) + rest, |ts| - 1);
    Cons(ts);
  }

  /** uncatsep takes the first words, whatever white space or NUL is between, and leaves the rest. */
  lemma {:induction false} UncatTakesFirst(ts: seq<string>, sep: char, rest: string)
    requires ts != [] && AllWords(ts) && !InWord(sep) && (rest == "" || !InWord(rest[0]))
    ensures Uncat(Join(ts, sep) + rest, |ts|) == Uncatted(ts, true) && UncatLeft(Join(ts, sep) + rest, |ts|) == rest
    decreases |ts|
  {
    if |ts| == 1 {
      UncatOfLast(ts[0], rest);
      assert ts == [ts[0]];
    } else {
      UncatTakesFirst(ts[1..], sep, rest);
      UncatTakesCons(ts, sep, rest);
    }
  }

  /** With one word in the text and more asked for it gives that one. */
  lemma UncatOfOnly(w: string, n: nat)
    requires IsWord(w) && n > 1
    ensures Uncat(w, n) == Uncatted([w], false) && UncatLeft(w, n) == ""
  {
    WordOfPlain(w, "");
    NothingAfter(w);
  }

  lemma WordBeforeNul(w: string, rest: string)
    requires Plain(w)
    ensures Word(w + ([NUL] + rest)) == w && AfterWord(w + ([NUL] + rest)) == [NUL] + rest
  {
    if w == "" {
      var t := [NUL] + rest;
      assert w + t == t && SkipSpaces(t) == 0 && t[0..] == t && WordLen(t) == 0;
    } else {
      WordOfPlain(w, [NUL] + rest);
    }
  }

  lemma {:induction false} UncatOfNuls(ts: seq<string>)
    requires AllPlain(ts) && ts != []
    ensures Uncat(Join(ts, NUL), |ts|) == Uncatted(ts, true)
    decreases |ts|
  {
    assert Plain(ts[0]);
    if |ts| == 1 {
      UncatOfOne(ts[0]);
      Cons(ts);
    } else {
      UncatOfNuls(ts[1..]);
      JoinStep(ts, NUL);
      UncatBefore(ts[0], NUL, Join(ts[1..], NUL), |ts| - 1);
    }
  }

  /** What catsep writes with NUL between comes back exactly when the words have no space and no NUL. */
  lemma UncatByNulExactly(ts: seq<string>)
    requires ts != []
    ensures Uncat(Join(ts, NUL), |ts|) == Uncatted(ts, true) <==> AllPlain(ts)
  {
    if AllPlain(ts) {
      UncatOfNuls(ts);
    }
    UncatIsPlain(Join(ts, NUL), |ts|);
  }

  /** `uncatsep` on a stream: with an error on record from the start or not, and with errors ignored or
      not. A word that is extracted with an error on record is empty. */
  function UncatWith(t: string, n: nat, clean: bool, ignoring: bool): Uncatted
    requires n > 0
    decreases n, 0
  {
    if !clean && !ignoring then Uncatted([], false) else
    var word, rest := if clean then Word(t) else "", if clean then AfterWord(t) else t;
    if n == 1 then Uncatted([word], clean) else
    var r := UncatMore(rest, n - 1, clean, ignoring);
    Uncatted([word] + r.words, r.ok)
  }

  /** Reads one character, then n words. */
  function UncatMore(t: string, n: nat, clean: bool, ignoring: bool): Uncatted
    requires n > 0
    decreases n, 1
  {
    var more := clean && t != "";
    if !more && !ignoring then Uncatted([], false) else
    UncatWith(if more then t[1..] else t, n, more, ignoring)
  }

  lemma {:induction false} UncatIsWithout(t: string, n: nat)
    requires n > 0
    ensures UncatWith(t, n, true, false) == Uncat(t, n)
    decreases n
  {
    var rest := AfterWord(t);
    if n > 1 && rest != "" {
      UncatIsWithout(rest[1..], n - 1);
    }
  }

  lemma {:induction false} AllEmptyAfterError(t: string, n: nat)
    requires n > 0
    ensures UncatWith(t, n, false, true) == FilledUp(Uncatted([], false), n)
    decreases n
  {
    if n > 1 {
      AllEmptyAfterError(t, n - 1);
    }
  }

  lemma FilledUpFirst(word: string, r: Uncatted, n: nat)
    requires |r.words| <= n
    ensures FilledUp(Uncatted([word] + r.words, r.ok), n + 1) == Uncatted([word] + FilledUp(r, n).words, r.ok)
  {
  }

  /** Ignoring errors gives the same words, filled up with empty ones. */
  lemma {:induction false} IgnoringFillsUp(t: string, n: nat)
    requires n > 0
    ensures UncatWith(t, n, true, true) == FilledUp(Uncat(t, n), n)
    decreases n
  {
    var word, rest := Word(t), AfterWord(t);
    if n > 1 && rest != "" {
      IgnoringFillsUp(rest[1..], n - 1);
      FilledUpFirst(word, Uncat(rest[1..], n - 1), n - 1);
    } else if n > 1 {
      AllEmptyAfterError(rest, n - 1);
      FilledUpFirst(word, Uncatted([], false), n - 1);
      assert [word] + [] == [word];
    }
  }

  /** Words with no space and no NUL in them, none of them empty but perhaps the last. */
  predicate Separable(ts: seq<string>) {
    AllPlain(ts) && forall i | 0 <= i < |ts| - 1 :: ts[i] != ""
  }

  lemma SeparableTail(ts: seq<string>)
    requires Separable(ts) && |ts| > 1
    ensures Separable(ts[1..]) && Plain(ts[0]) && ts[0] != ""
  {
    assert forall i | 0 <= i < |ts| - 1 :: ts[1..][i] == ts[i + 1];
  }

  lemma UncatOfOne(w: string)
    requires Plain(w)
    ensures Uncat(w, 1) == Uncatted([w], true)
  {
    if w != "" {
      WordOfPlain(w, "");
      assert w + "" == w;
    }
  }

  lemma {:induction false} UncatOfJoin(ts: seq<string>, sep: char)
    requires IsSpace(sep) && Separable(ts) && ts != []
    ensures Uncat(Join(ts, sep), |ts|) == Uncatted(ts, true)
    decreases |ts|
  {
    if |ts| == 1 {
      UncatOfOne(ts[0]);
      assert ts == [ts[0]];
    } else {
      SeparableTail(ts);
      UncatOfJoin(ts[1..], sep);
      JoinStep(ts, sep);
      UncatBefore(ts[0], sep, Join(ts[1..], sep), |ts| - 1);
    }
  }

  lemma JoinStep(ts: seq<string>, sep: char)
    requires |ts| > 1
    ensures Join(ts, sep) == ts[0] + [sep] + Join(ts[1..], sep) && ts == [ts[0]] + ts[1..]
  {
  }

  lemma {:induction false} PlainJoinHasNoNul(ts: seq<string>, sep: char)
    requires IsSpace(sep) && AllPlain(ts)
    ensures NUL !in Join(ts, sep)
    decreases |ts|
  {
    if |ts| > 1 {
      PlainJoinHasNoNul(ts[1..], sep);
    }
  }

  /** An empty word is only found at the end of the text, or before a NUL. */
  lemma EmptyWordIsLast(t: string)
    requires NUL !in t
    ensures Plain(Word(t)) && NUL !in AfterWord(t) && (Word(t) == "" ==> AfterWord(t) == "")
  {
    WordIsPlain(t);
    SkipSpacesMeans(t);
    WordLenMeans(t[SkipSpaces(t)..]);
    assert SkipSpaces(t) < |t| ==> t[SkipSpaces(t)] in t;
  }

  lemma SeparableCons(w: string, ws: seq<string>)
    requires Plain(w) && w != "" && Separable(ws)
    ensures Separable([w] + ws)
  {
    assert forall i | 0 <= i < |ws| :: ([w] + ws)[i + 1] == ws[i];
  }

  /** So uncatsep finds no character after an empty word. */
  lemma {:induction false} UncatIsSeparable(t: string, n: nat)
    requires n > 0 && NUL !in t && Uncat(t, n).ok
    ensures Separable(Uncat(t, n).words)
    decreases n
  {
    EmptyWordIsLast(t);
    if n > 1 {
      var rest := AfterWord(t);
      UncatIsSeparable(rest[1..], n - 1);
      SeparableCons(Word(t), Uncat(rest[1..], n - 1).words);
    }
  }

  lemma {:induction false} UncatIsPlain(t: string, n: nat)
    requires n > 0
    ensures AllPlain(Uncat(t, n).words)
    decreases n
  {
    WordIsPlain(t);
    if n > 1 && AfterWord(t) != "" {
      UncatIsPlain(AfterWord(t)[1..], n - 1);
      AllPlainCons(Word(t), Uncat(AfterWord(t)[1..], n - 1).words);
    }
  }

  lemma AllPlainCons(w: string, ws: seq<string>)
    requires Plain(w) && AllPlain(ws)
    ensures AllPlain([w] + ws)
  {
  }

  /** What catsep writes with a white-space separator comes back through uncatsep exactly when the words
      are separable. */
  lemma UncatSepUndoesCatSepExactly(ts: seq<string>, sep: char)
    requires IsSpace(sep) && ts != []
    ensures Uncat(Join(ts, sep), |ts|) == Uncatted(ts, true) <==> Separable(ts)
  {
    if Separable(ts) {
      UncatOfJoin(ts, sep);
    } else if Uncat(Join(ts, sep), |ts|) == Uncatted(ts, true) {
      UncatIsPlain(Join(ts, sep), |ts|);
      PlainJoinHasNoNul(ts, sep);
      UncatIsSeparable(Join(ts, sep), |ts|);
    }
  }
}
