/**
 * trunc, which shortens a name or version for a table column.  Go strings are byte strings:
 * each char of a `string` here stands for one byte, so the ellipsis "…" is its three UTF-8
 * bytes E2 80 A6.
 */
module Display {
  /** U+2026 HORIZONTAL ELLIPSIS, UTF-8 encoded. */
  const Ellipsis: string := ['\U{E2}', '\U{80}', '\U{A6}']

  /**
   * trunc: s itself when it has at most n bytes; its first n bytes when n is 0 or 1; otherwise
   * its first n - 1 bytes followed by the ellipsis.  A negative n makes Go's slice panic, so
   * callers must pass n >= 0.
   */
  function Trunc(s: string, n: int): (r: string)
    requires n >= 0
  {
    if |s| <= n then s
    else if n <= 1 then s[..n]
    else s[..n - 1] + Ellipsis
  }

  /** A byte that is not a UTF-8 continuation byte (10xxxxxx) starts a character. */
  predicate StartsRune(c: char) {
    !(0x80 <= c as int < 0xC0)
  }

  /** The number of characters a terminal shows for a byte string: its rune-starting bytes. */
  function RuneCount(s: string): (k: nat)
    ensures k <= |s|
  {
    if s == [] then 0 else RuneCount(s[..|s| - 1]) + (if StartsRune(s[|s| - 1]) then 1 else 0)
  }

  predicate IsAscii(s: string) {
    forall k :: 0 <= k < |s| ==> s[k] as int < 0x80
  }

  // ---------------------------------------------------------------------------------------
  // Properties
  // ---------------------------------------------------------------------------------------

  lemma {:induction false} RuneCountAppend(a: string, b: string)
    ensures RuneCount(a + b) == RuneCount(a) + RuneCount(b)
    decreases |b|
  {
    if b != [] {
      assert (a + b)[..|a + b| - 1] == a + b[..|b| - 1];
      RuneCountAppend(a, b[..|b| - 1]);
    } else {
      assert a + b == a;
    }
  }

  lemma {:induction false} RuneCountAscii(s: string)
    requires IsAscii(s)
    ensures RuneCount(s) == |s|
  {
    if s != [] {
      RuneCountAscii(s[..|s| - 1]);
    }
  }

  lemma EllipsisIsOneRune()
    ensures |Ellipsis| == 3 && RuneCount(Ellipsis) == 1
  {
    assert Ellipsis[..2] == ['\U{E2}', '\U{80}'];
    assert Ellipsis[..2][..1] == ['\U{E2}'];
    assert Ellipsis[..2][..1][..0] == [];
  }

  /**
   * The three outcomes: a short string is kept; otherwise the result is a prefix of s, cut to n
   * bytes, or cut to n - 1 bytes and followed by the ellipsis when n >= 2.
   */
  lemma TruncShape(s: string, n: int)
    requires n >= 0
    ensures |s| <= n ==> Trunc(s, n) == s
    ensures |s| > n && n <= 1 ==> Trunc(s, n) == s[..n] && |Trunc(s, n)| == n
    ensures |s| > n && n >= 2 ==>
      Trunc(s, n)[..n - 1] == s[..n - 1] && Trunc(s, n)[n - 1..] == Ellipsis && |Trunc(s, n)| == n + 2
  {
  }

  /** Whatever s holds, the result shows at most n characters. */
  lemma TruncRuneBound(s: string, n: int)
    requires n >= 0
    ensures RuneCount(Trunc(s, n)) <= n
  {
    if |s| > n && n >= 2 {
      RuneCountAppend(s[..n - 1], Ellipsis);
      EllipsisIsOneRune();
    }
  }

  /** On ASCII text the result shows exactly min(|s|, n) characters: the column is filled. */
  lemma TruncAsciiWidth(s: string, n: int)
    requires n >= 0 && IsAscii(s)
    ensures RuneCount(Trunc(s, n)) == if |s| <= n then |s| else n
  {
    if |s| <= n {
      RuneCountAscii(s);
    } else if n <= 1 {
      RuneCountAscii(s[..n]);
    } else {
      RuneCountAppend(s[..n - 1], Ellipsis);
      EllipsisIsOneRune();
      RuneCountAscii(s[..n - 1]);
    }
  }

  /** Truncating twice to the same width gives the same result: the truncated text is either
   *  short enough already or cut again at the same byte. */
  lemma TruncIdempotent(s: string, n: int)
    requires 0 <= n
    ensures Trunc(Trunc(s, n), n) == Trunc(s, n)
  {
    if |s| > n && n >= 2 {
      var r := Trunc(s, n);
      assert r[..n - 1] == s[..n - 1];
    }
  }
}
