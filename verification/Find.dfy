/** The read-only searches of `_str_crtp` (src/c4/string.hpp): what they find, and their loops. */
module Find {
  import opened Common

  /** What the searches look for: one character, or any of several. */
  datatype CharSet = Is(c: char) | In(pat: string) {
    predicate Has(x: char) {
      match this
      case Is(c) => x == c
      case In(pat) => x in pat
    }
  }

  /** The first position from `pos` on whose character is in the set (or is not, when `want` is false). */
  function First(s: string, cl: CharSet, want: bool, pos: nat): (r: int)
    requires pos <= |s|
    ensures r == NPOS || pos <= r < |s|
    ensures r != NPOS ==> cl.Has(s[r]) == want
    ensures forall k | pos <= k < (if r == NPOS then |s| else r) :: cl.Has(s[k]) != want
    decreases |s| - pos
  {
    if pos == |s| then NPOS else if cl.Has(s[pos]) == want then pos else First(s, cl, want, pos + 1)
  }

  /** The last such position up to and including `pos`. */
  function Last(s: string, cl: CharSet, want: bool, pos: int): (r: int)
    requires -1 <= pos < |s|
    ensures r == NPOS || 0 <= r <= pos
    ensures r != NPOS ==> cl.Has(s[r]) == want
    ensures forall k | r < k <= pos :: cl.Has(s[k]) != want
    decreases pos + 1
  {
    if pos == -1 then NPOS else if cl.Has(s[pos]) == want then pos else Last(s, cl, want, pos - 1)
  }

  /** The overloads that search for one character pass it on as a pattern of length one. */
  lemma {:induction false} OneCharacterPattern(s: string, c: char, want: bool, pos: nat)
    requires pos < |s|
    ensures First(s, Is(c), want, pos) == First(s, In([c]), want, pos)
    ensures Last(s, Is(c), want, pos) == Last(s, In([c]), want, pos)
  {
    var f, g := First(s, Is(c), want, pos), First(s, In([c]), want, pos);
    assert f != NPOS ==> (s[f] in [c]) == want;
    assert g != NPOS ==> (s[g] == c) == want;
    var k, l := Last(s, Is(c), want, pos), Last(s, In([c]), want, pos);
    assert k != NPOS ==> (s[k] in [c]) == want;
    assert l != NPOS ==> (s[l] == c) == want;
  }

  method FindFirstOf(s: string, pat: string, pos: nat) returns (r: int)
    requires s == "" || pos < |s|
    ensures r == if s == "" then NPOS else First(s, In(pat), true, pos)
    ensures r != NPOS ==> pos <= r < |s| && s[r] in pat
    ensures forall k | pos <= k < (if r == NPOS then |s| else r) :: s[k] !in pat
  {
    if s == "" {
      return NPOS;
    }
    var i := pos;
    while i < |s|
      invariant pos <= i <= |s| && First(s, In(pat), true, pos) == First(s, In(pat), true, i)
    {
      var j := 0;
      while j < |pat|
        invariant 0 <= j <= |pat| && s[i] !in pat[..j]
      {
        if s[i] == pat[j] {
          return i;
        }
        j := j + 1;
      }
      i := i + 1;
    }
    return NPOS;
  }

  method FindFirstNotOf(s: string, pat: string, pos: nat) returns (r: int)
    requires s == "" || pos < |s|
    ensures r == if s == "" then NPOS else First(s, In(pat), false, pos)
    ensures r != NPOS ==> pos <= r < |s| && s[r] !in pat
    ensures forall k | pos <= k < (if r == NPOS then |s| else r) :: s[k] in pat
  {
    if s == "" {
      return NPOS;
    }
    var i := pos;
    while i < |s|
      invariant pos <= i <= |s| && First(s, In(pat), false, pos) == First(s, In(pat), false, i)
    {
      var j := 0;
      while j < |pat| && s[i] != pat[j]
        invariant 0 <= j <= |pat| && s[i] !in pat[..j]
      {
        j := j + 1;
      }
      if j == |pat| {
        return i;
      }
      i := i + 1;
    }
    return NPOS;
  }

  /** `start` is npos for "from the end". */
  method FindLastOf(s: string, pat: string, start: int) returns (r: int)
    requires start == NPOS || s == "" || 0 <= start < |s|
    ensures r == if s == "" then NPOS else Last(s, In(pat), true, if start == NPOS then |s| - 1 else start)
    ensures r != NPOS ==> 0 <= r <= (if start == NPOS then |s| - 1 else start) && s[r] in pat
    ensures s != "" ==> forall k | r < k <= (if start == NPOS then |s| - 1 else start) :: s[k] !in pat
  {
    if s == "" {
      return NPOS;
    }
    var pos := if start == NPOS then |s| - 1 else start;
    var i := pos;
    while i != NPOS
      invariant -1 <= i <= pos && Last(s, In(pat), true, pos) == Last(s, In(pat), true, i)
      decreases i + 1
    {
      var j := 0;
      while j < |pat|
        invariant 0 <= j <= |pat| && s[i] !in pat[..j]
      {
        if s[i] == pat[j] {
          return i;
        }
        j := j + 1;
      }
      i := i - 1;
    }
    return NPOS;
  }

  method FindLastNotOf(s: string, pat: string, start: int) returns (r: int)
    requires start == NPOS || s == "" || 0 <= start < |s|
    ensures r == if s == "" then NPOS else Last(s, In(pat), false, if start == NPOS then |s| - 1 else start)
    ensures r != NPOS ==> 0 <= r <= (if start == NPOS then |s| - 1 else start) && s[r] !in pat
    ensures s != "" ==> forall k | r < k <= (if start == NPOS then |s| - 1 else start) :: s[k] in pat
  {
    if s == "" {
      return NPOS;
    }
    var pos := if start == NPOS then |s| - 1 else start;
    var i := pos;
    while i != NPOS
      invariant -1 <= i <= pos && Last(s, In(pat), false, pos) == Last(s, In(pat), false, i)
      decreases i + 1
    {
      var j := 0;
      while j < |pat| && s[i] != pat[j]
        invariant 0 <= j <= |pat| && s[i] !in pat[..j]
      {
        j := j + 1;
      }
      if j == |pat| {
        return i;
      }
      i := i - 1;
    }
    return NPOS;
  }

  predicate MatchAt(s: string, pat: string, i: nat) {
    i + |pat| <= |s| && s[i..i + |pat|] == pat
  }

  lemma Mismatch(s: string, pat: string, i: nat, j: nat)
    requires j < |pat| && (i + j >= |s| || s[i + j] != pat[j])
    ensures !MatchAt(s, pat, i)
  {
    if i + |pat| <= |s| {
      assert s[i..i + |pat|][j] == s[i + j];
    }
  }

  /** `find`: the first occurrence of the pattern from `pos` on. The loop compares one character before
      it looks at the length, so the empty pattern, whose terminator it reads, occurs nowhere. */
  method FindPattern(s: string, pat: string, pos: nat) returns (r: int)
    requires s == "" || pos < |s|
    ensures r == NPOS <==> pat == "" || forall i | pos <= i :: !MatchAt(s, pat, i)
    ensures r != NPOS ==> pos <= r && MatchAt(s, pat, r) && forall i | pos <= i < r :: !MatchAt(s, pat, i)
  {
    if s == "" {
      return NPOS;
    }
    var first := if pat == "" then '\0' else pat[0];
    var i := pos;
    while i < |s|
      invariant pos <= i <= |s| && (pat == "" || forall k | pos <= k < i :: !MatchAt(s, pat, k))
    {
      if s[i] == first {
        var j := 1;
        while j < |pat| && i + j < |s| && s[i + j] == pat[j]
          invariant 1 <= j && i + j <= |s| && (pat != "" ==> j <= |pat| && s[i..i + j] == pat[..j])
        {
          assert s[i..i + j + 1] == s[i..i + j] + [s[i + j]];
          assert pat[..j + 1] == pat[..j] + [pat[j]];
          j := j + 1;
        }
        if j == |pat| {
          assert MatchAt(s, pat, i);
          return i;
        }
        if pat != "" {
          Mismatch(s, pat, i, j);
        }
      } else if pat != "" {
        Mismatch(s, pat, i, 0);
      }
      i := i + 1;
    }
    return NPOS;
  }

  /** `count`: how often the character occurs. */
  method Count(s: string, c: char) returns (num: nat)
    ensures num == multiset(s)[c]
  {
    num := 0;
    var i := 0;
    while i != |s|
      invariant 0 <= i <= |s| && num == multiset(s[..i])[c]
    {
      assert s[..i + 1] == s[..i] + [s[i]];
      if s[i] == c {
        num := num + 1;
      }
      i := i + 1;
    }
    assert s[..i] == s;
  }
}
