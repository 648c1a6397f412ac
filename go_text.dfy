/**
 * The parts of Go's `strings`, `strconv` and `bufio` packages that the inventory code uses.
 *
 * A Go string is a sequence of bytes and Go indexes and slices it by byte.  In this model a
 * `string` is read the same way: every `char` stands for one byte (so a multi-byte UTF-8
 * character is several chars).
 */
module GoText {
  import opened Wrappers

  const MinInt64: int := -0x8000_0000_0000_0000
  const MaxInt64: int := 0x7FFF_FFFF_FFFF_FFFF

  // ---------------------------------------------------------------------------------------
  // Prefixes and searching (strings.HasPrefix, TrimPrefix, CutPrefix, Contains, Index)
  // ---------------------------------------------------------------------------------------

  predicate HasPrefix(s: string, p: string) {
    |p| <= |s| && s[..|p|] == p
  }

  /** strings.TrimPrefix: removes `p` once when `s` starts with it. */
  function TrimPrefix(s: string, p: string): (r: string)
    ensures HasPrefix(s, p) ==> p + r == s
    ensures !HasPrefix(s, p) ==> r == s
  {
    if HasPrefix(s, p) then s[|p|..] else s
  }

  /** strings.CutPrefix: the remainder after `p`, or None when `s` does not start with `p`. */
  function CutPrefix(s: string, p: string): (r: Option<string>)
    ensures r.Some? <==> HasPrefix(s, p)
    ensures r.Some? ==> p + r.value == s
  {
    if HasPrefix(s, p) then Some(s[|p|..]) else None
  }

  /** strings.Contains: `sub` occurs somewhere in `s`. */
  predicate Contains(s: string, sub: string)
    decreases |s|
  {
    HasPrefix(s, sub) || (|s| > 0 && Contains(s[1..], sub))
  }

  /** strings.Index: the first position at which `sub` occurs in `s`. */
  function Index(s: string, sub: string): (r: Option<nat>)
    decreases |s|
    ensures r.Some? ==> r.value + |sub| <= |s| && s[r.value..r.value + |sub|] == sub
    ensures r.Some? ==> forall j :: 0 <= j < r.value ==> !HasPrefix(s[j..], sub)
    ensures r.None? <==> !Contains(s, sub)
  {
    if HasPrefix(s, sub) then Some(0)
    else if |s| == 0 then None
    else
      match Index(s[1..], sub)
      case None => None
      case Some(i) =>
        assert forall j :: 1 <= j <= i ==> s[1..][j - 1..] == s[j..];
        Some(i + 1)
  }

  /** bytes.IndexByte: the first position of byte `c` in `s`. */
  function IndexByte(s: string, c: char): (r: Option<nat>)
    decreases |s|
    ensures r.Some? ==> r.value < |s| && s[r.value] == c && c !in s[..r.value]
    ensures r.None? <==> c !in s
  {
    if |s| == 0 then None
    else if s[0] == c then Some(0)
    else
      match IndexByte(s[1..], c)
      case None => None
      case Some(i) =>
        assert s[..i + 1] == [s[0]] + s[1..][..i];
        Some(i + 1)
  }

  // ---------------------------------------------------------------------------------------
  // Whitespace (strings.TrimSpace on ASCII white space)
  // ---------------------------------------------------------------------------------------

  /** The single-byte characters unicode.IsSpace accepts. */
  predicate IsSpace(c: char) {
    c == ' ' || c == '\t' || c == '\n' || c == '\r' || c == '\U{0B}' || c == '\U{0C}'
  }

  /** The first index at or after `i` whose byte is not white space, or |s|. */
  function SpaceEnd(s: string, i: nat): (j: nat)
    requires i <= |s|
    decreases |s| - i
    ensures i <= j <= |s| && (j == |s| || !IsSpace(s[j]))
    ensures forall k :: i <= k < j ==> IsSpace(s[k])
  {
    if i < |s| && IsSpace(s[i]) then SpaceEnd(s, i + 1) else i
  }

  /** Going down from `j` but not below `lo`: the index just after the last byte that is not
   *  white space, or `lo`. */
  function SpaceStart(s: string, lo: nat, j: nat): (i: nat)
    requires lo <= j <= |s|
    decreases j
    ensures lo <= i <= j && (i == lo || !IsSpace(s[i - 1]))
    ensures forall k :: i <= k < j ==> IsSpace(s[k])
  {
    if j > lo && IsSpace(s[j - 1]) then SpaceStart(s, lo, j - 1) else j
  }

  /**
   * strings.TrimSpace: `s` without its leading and trailing white space.  The result is a
   * window of `s` that neither starts nor ends with white space, and every byte outside it is
   * white space.
   */
  function TrimSpace(s: string): (r: string)
    ensures |r| <= |s|
    ensures r == [] || (!IsSpace(r[0]) && !IsSpace(r[|r| - 1]))
    ensures var i := SpaceEnd(s, 0);
      i + |r| <= |s| && r == s[i..i + |r|] &&
      (forall k :: 0 <= k < i ==> IsSpace(s[k])) &&
      (forall k :: i + |r| <= k < |s| ==> IsSpace(s[k]))
  {
    var start := SpaceEnd(s, 0);
    s[start..SpaceStart(s, start, |s|)]
  }

  // ---------------------------------------------------------------------------------------
  // Building strings (strings.Join, strings.ReplaceAll with one-byte arguments)
  // ---------------------------------------------------------------------------------------

  /** strings.Join */
  function Join(parts: seq<string>, sep: string): string {
    if parts == [] then ""
    else if |parts| == 1 then parts[0]
    else parts[0] + sep + Join(parts[1..], sep)
  }

  /** strings.ReplaceAll(s, string(from), string(to)) for single bytes `from` and `to`. */
  function ReplaceByte(s: string, from: char, to: char): (r: string)
    ensures |r| == |s|
    ensures from != to ==> from !in r
    ensures forall k :: 0 <= k < |s| && s[k] != from ==> r[k] == s[k]
    ensures forall k :: 0 <= k < |s| && s[k] == from ==> r[k] == to
  {
    seq(|s|, k requires 0 <= k < |s| => if s[k] == from then to else s[k])
  }

  // ---------------------------------------------------------------------------------------
  // Integers (strconv.ParseInt(s, 10, 64) and Go's truncating division)
  // ---------------------------------------------------------------------------------------

  predicate IsDigit(c: char) {
    '0' <= c <= '9'
  }

  predicate AllDigits(s: string) {
    forall k :: 0 <= k < |s| ==> IsDigit(s[k])
  }

  function DigitValue(c: char): nat
    requires IsDigit(c)
  {
    c as int - '0' as int
  }

  /** The number a non-empty run of decimal digits denotes. */
  function DecimalValue(ds: string): nat
    requires AllDigits(ds)
  {
    if ds == [] then 0 else DecimalValue(ds[..|ds| - 1]) * 10 + DigitValue(ds[|ds| - 1])
  }

  /**
   * strconv.ParseInt(s, 10, 64): an optional sign, then one or more ASCII digits; a value
   * outside the int64 range is an error, like any malformed input.
   */
  function ParseInt(s: string): (r: Option<int>)
    ensures r.Some? ==> MinInt64 <= r.value <= MaxInt64
    ensures r.Some? ==> s != [] && (IsDigit(s[0]) || s[0] == '+' || s[0] == '-')
    ensures r.Some? <==>
      (s != [] && AllDigits(s) && DecimalValue(s) <= MaxInt64) ||
      (|s| > 1 && s[0] == '+' && AllDigits(s[1..]) && DecimalValue(s[1..]) <= MaxInt64) ||
      (|s| > 1 && s[0] == '-' && AllDigits(s[1..]) && DecimalValue(s[1..]) <= -MinInt64)
    ensures r.Some? && IsDigit(s[0]) ==> r.value == DecimalValue(s)
    ensures r.Some? && s[0] == '+' ==> r.value == DecimalValue(s[1..])
    ensures r.Some? && s[0] == '-' ==> r.value == -(DecimalValue(s[1..]) as int)
  {
    var neg := |s| > 0 && s[0] == '-';
    var digits := if |s| > 0 && (s[0] == '+' || s[0] == '-') then s[1..] else s;
    if digits == [] || !AllDigits(digits) then None
    else
      var mag: int := DecimalValue(digits);
      var v := if neg then -mag else mag;
      if MinInt64 <= v <= MaxInt64 then Some(v) else None
  }

  function DigitChar(d: nat): (c: char)
    requires d < 10
    ensures IsDigit(c) && DigitValue(c) == d
  {
    ('0' as int + d) as char
  }

  /** strconv.FormatInt(n, 10) for a non-negative n: the shortest decimal rendering. */
  function FormatNat(n: nat): (s: string)
    ensures s != [] && AllDigits(s)
  {
    if n < 10 then [DigitChar(n)] else FormatNat(n / 10) + [DigitChar(n % 10)]
  }

  lemma {:induction false} DecimalValueOfFormatNat(n: nat)
    ensures DecimalValue(FormatNat(n)) == n
  {
    if n >= 10 {
      var s := FormatNat(n);
      assert s[..|s| - 1] == FormatNat(n / 10);
      DecimalValueOfFormatNat(n / 10);
    }
  }

  /** ParseInt reads back what FormatInt writes, for every int64 value. */
  lemma ParseFormatRoundTrip(n: int)
    requires MinInt64 <= n <= MaxInt64
    ensures n >= 0 ==> ParseInt(FormatNat(n)) == Some(n)
    ensures n < 0 ==> ParseInt("-" + FormatNat(-n)) == Some(n)
  {
    if n >= 0 {
      DecimalValueOfFormatNat(n);
    } else {
      DecimalValueOfFormatNat(-n);
      assert ("-" + FormatNat(-n))[1..] == FormatNat(-n);
    }
  }

  /** Go's `n / 1024` on an int64: division truncating toward zero (bytes to kilobytes). */
  function DivKB(n: int): (r: int)
    ensures 0 <= n ==> 0 <= r && r * 1024 <= n < (r + 1) * 1024
    ensures n < 0 ==> r <= 0 && (r - 1) * 1024 < n <= r * 1024
  {
    if n >= 0 then n / 1024 else -((-n) / 1024)
  }

  /** At least one whole kilobyte exactly when there are at least 1024 bytes. */
  lemma DivKBPositive(n: int)
    ensures DivKB(n) > 0 <==> n >= 1024
  {
    if n >= 1024 {
      assert DivKB(n) * 1024 <= n < (DivKB(n) + 1) * 1024;
    }
  }

  // ---------------------------------------------------------------------------------------
  // Lines (bufio.Scanner with bufio.ScanLines)
  // ---------------------------------------------------------------------------------------

  function DropCR(s: string): string {
    if |s| > 0 && s[|s| - 1] == '\r' then s[..|s| - 1] else s
  }

  /**
   * The tokens bufio.ScanLines yields: `data` split at each '\n', one trailing '\r' dropped
   * from every line, and no empty final line after a trailing newline.
   */
  function ScanLines(data: string): (lines: seq<string>)
    decreases |data|
    ensures forall k :: 0 <= k < |lines| ==> '\n' !in lines[k]
  {
    if data == [] then []
    else
      match IndexByte(data, '\n')
      case None => [DropCR(data)]
      case Some(i) => [DropCR(data[..i])] + ScanLines(data[i + 1..])
  }

  /** The inverse direction: every line followed by a newline. */
  function Unlines(lines: seq<string>): string {
    if lines == [] then "" else lines[0] + "\n" + Unlines(lines[1..])
  }

  /** Without carriage returns, the lines give back the data, up to a final newline. */
  lemma {:induction false} ScanLinesRoundTrip(data: string)
    requires '\r' !in data
    ensures Unlines(ScanLines(data)) == if data == [] || data[|data| - 1] == '\n' then data else data + "\n"
  {
    if data != [] {
      match IndexByte(data, '\n')
      case None =>
        assert DropCR(data) == data;
      case Some(i) =>
        var line, rest := data[..i], data[i + 1..];
        assert data == line + "\n" + rest;
        assert '\r' !in rest && '\r' !in line;
        assert DropCR(line) == line;
        assert ScanLines(data) == [line] + ScanLines(rest);
        ScanLinesRoundTrip(rest);
        if rest != [] {
          assert data[|data| - 1] == rest[|rest| - 1];
        }
    }
  }

  /** Scanning a line followed by a newline yields that line, then the lines of the rest. */
  lemma ScanLinesCons(line: string, rest: string)
    requires '\n' !in line
    ensures ScanLines(line + "\n" + rest) == [DropCR(line)] + ScanLines(rest)
  {
    var data := line + "\n" + rest;
    assert data[|line|] == '\n';
    assert data[..|line|] == line;
    assert data[|line| + 1..] == rest;
  }
}
