/** What the modifying string operations do to a plain sequence of characters. */
module StringSpec {
  import opened Buffers
  import opened Paths

  function Resized(s: string, n: nat): string {
    if n <= |s| then s[..n] else s + Zeros(n - |s|)
  }

  /** The string without the separators it starts with, and without those it ends with. */
  function DropL(s: string, sep: char): string {
    if BeginsWith(s, sep) then DropL(s[1..], sep) else s
  }

  function DropR(s: string, sep: char): string {
    if EndsWith(s, sep) then DropR(s[..|s| - 1], sep) else s
  }

  /** `pushr`: whatever separators are trimmed, a slash is put between. */
  function PushedR(s: string, x: string, sep: char): string {
    DropR(s, sep) + ['/'] + DropL(x, sep)
  }

  function PushedL(s: string, x: string, sep: char): string {
    DropR(x, sep) + [sep] + DropL(s, sep)
  }

  /** i is where the separators at the end of s start, j where those at the start of x end. */
  predicate EndsAt(s: string, sep: char, i: int) {
    0 <= i <= |s| && (i > 0 ==> s[i - 1] != sep) && forall k | i <= k < |s| :: s[k] == sep
  }

  predicate StartsAt(x: string, sep: char, j: int) {
    0 <= j <= |x| && (j < |x| ==> x[j] != sep) && forall k | 0 <= k < j :: x[k] == sep
  }

  lemma {:induction false} DropRIs(s: string, sep: char, i: int)
    requires EndsAt(s, sep, i)
    ensures DropR(s, sep) == s[..i]
    decreases |s|
  {
    if i < |s| {
      var h := s[..|s| - 1];
      DropRIs(h, sep, i);
      assert h[..i] == s[..i];
    }
  }

  lemma {:induction false} DropLIs(x: string, sep: char, j: int)
    requires StartsAt(x, sep, j)
    ensures DropL(x, sep) == x[j..]
    decreases |x|
  {
    if j > 0 {
      DropLIs(x[1..], sep, j - 1);
      assert x[1..][j - 1..] == x[j..];
    }
  }

  lemma {:induction false} SomeEnd(s: string, sep: char) returns (i: int)
    ensures EndsAt(s, sep, i)
    decreases |s|
  {
    i := |s|;
    if EndsWith(s, sep) {
      i := SomeEnd(s[..|s| - 1], sep);
    }
  }

  lemma {:induction false} SomeStart(x: string, sep: char) returns (j: int)
    ensures StartsAt(x, sep, j)
    decreases |x|
  {
    j := 0;
    if BeginsWith(x, sep) {
      j := SomeStart(x[1..], sep);
      assert forall k | 1 <= k < j + 1 :: x[k] == x[1..][k - 1];
      j := j + 1;
    }
  }

  /** Whatever separators the string ends with and the pushed one starts with, all of them go: exactly
      those, and one slash is between. */
  lemma PushedRIs(s: string, x: string, sep: char, i: int, j: int)
    requires EndsAt(s, sep, i) && StartsAt(x, sep, j)
    ensures PushedR(s, x, sep) == s[..i] + ['/'] + x[j..]
  {
    DropRIs(s, sep, i);
    DropLIs(x, sep, j);
  }

  /** pushl: those the pushed one ends with and the string starts with, with one separator between. */
  lemma PushedLIs(s: string, x: string, sep: char, i: int, j: int)
    requires EndsAt(x, sep, i) && StartsAt(s, sep, j)
    ensures PushedL(s, x, sep) == x[..i] + [sep] + s[j..]
  {
    DropRIs(x, sep, i);
    DropLIs(s, sep, j);
  }

  function Erased(s: string, chars: string): string {
    if s == "" then "" else (if s[0] in chars then "" else [s[0]]) + Erased(s[1..], chars)
  }
}
