/**
 * Where an image's cached tarball and metadata live: getCacheDir, hashImageRef and
 * getCachePaths.  The environment variable and the home-directory lookup are inputs, and
 * SHA-256 is an oracle returning 32 bytes.
 */
module CachePaths {
  import opened Wrappers
  import opened GoText
  import opened FilePath

  newtype byte = x: int | 0 <= x < 256

  /** A SHA-256 digest. */
  type Digest = s: seq<byte> | |s| == 32 witness seq(32, _ => 0 as byte)

  /**
   * getCacheDir: "$XDG_CACHE_HOME/pkgpulse" when the variable is set and non-empty, else
   * "$HOME/.cache/pkgpulse", else "" when the home directory is unknown (None).
   */
  function CacheDir(xdgCacheHome: string, home: Option<string>): string {
    if xdgCacheHome != "" then Join2(xdgCacheHome, "pkgpulse")
    else
      match home
      case None => ""
      case Some(h) => Join2(Join2(h, ".cache"), "pkgpulse")
  }

  predicate IsHexDigit(c: char) {
    '0' <= c <= '9' || 'a' <= c <= 'f'
  }

  /** The lower-case hexadecimal digit of a nibble. */
  function HexDigit(d: int): (c: char)
    requires 0 <= d < 16
    ensures IsHexDigit(c)
  {
    if d < 10 then ('0' as int + d) as char else ('a' as int + d - 10) as char
  }

  /** hex.EncodeToString: two lower-case digits per byte, high nibble first. */
  function HexEncode(bs: seq<byte>): (s: string)
    ensures |s| == 2 * |bs|
    ensures forall k :: 0 <= k < |s| ==> IsHexDigit(s[k])
  {
    if bs == [] then ""
    else
      var b := bs[0] as int;
      [HexDigit(b / 16), HexDigit(b % 16)] + HexEncode(bs[1..])
  }

  function HexValue(c: char): (d: int)
    requires IsHexDigit(c)
    ensures 0 <= d < 16
  {
    if '0' <= c <= '9' then c as int - '0' as int else c as int - 'a' as int + 10
  }

  /** hex.DecodeString on well-formed input: the inverse of HexEncode. */
  function HexDecode(s: string): seq<byte>
    requires |s| % 2 == 0 && forall k :: 0 <= k < |s| ==> IsHexDigit(s[k])
  {
    if s == [] then []
    else [(HexValue(s[0]) * 16 + HexValue(s[1])) as byte] + HexDecode(s[2..])
  }

  /** Decoding the hex text gives back the bytes. */
  lemma {:induction false} HexRoundTrip(bs: seq<byte>)
    ensures HexDecode(HexEncode(bs)) == bs
  {
    if bs != [] {
      var b := bs[0] as int;
      var s := HexEncode(bs);
      assert s[0] == HexDigit(b / 16) && s[1] == HexDigit(b % 16);
      assert HexValue(s[0]) == b / 16 && HexValue(s[1]) == b % 16;
      assert s[2..] == HexEncode(bs[1..]);
      HexRoundTrip(bs[1..]);
      assert bs == [bs[0]] + bs[1..];
    }
  }

  /** hashImageRef: the first 8 bytes of the SHA-256 of the reference, as 16 hex digits. */
  function HashImageRef(ref: string, sha256: string -> Digest): (h: string)
    ensures |h| == 16 && forall k :: 0 <= k < 16 ==> IsHexDigit(h[k])
  {
    HexEncode(sha256(ref)[..8])
  }

  /** The reference with "/" and then ":" replaced by "_". */
  function SafeName(ref: string): (r: string)
    ensures |r| == |ref| && '/' !in r && ':' !in r
    ensures forall k :: 0 <= k < |ref| ==>
      r[k] == (if ref[k] == '/' || ref[k] == ':' then '_' else ref[k])
  {
    ReplaceByte(ReplaceByte(ref, '/', '_'), ':', '_')
  }

  /** The file name shared by the tarball and the metadata, without its suffix. */
  function BaseName(ref: string, sha256: string -> Digest): string {
    SafeName(ref) + "_" + HashImageRef(ref, sha256)
  }

  /** getCachePaths: the tarball and metadata paths, or two empty strings without a cache
   *  directory. */
  function CachePaths(ref: string, xdgCacheHome: string, home: Option<string>, sha256: string -> Digest)
    : (string, string)
  {
    var dir := CacheDir(xdgCacheHome, home);
    if dir == "" then ("", "")
    else
      var base := BaseName(ref, sha256);
      (Join2(dir, base + ".tar"), Join2(dir, base + ".json"))
  }

  // ---------------------------------------------------------------------------------------
  // Properties
  // ---------------------------------------------------------------------------------------

  /** The directory is known unless the variable is unset and there is no home directory; it
   *  always ends in "pkgpulse". */
  lemma CacheDirShape(xdgCacheHome: string, home: Option<string>)
    ensures CacheDir(xdgCacheHome, home) == "" <==> xdgCacheHome == "" && home.None?
    ensures CacheDir(xdgCacheHome, home) != "" ==> Base(CacheDir(xdgCacheHome, home)) == "pkgpulse"
  {
    assert IsName("pkgpulse");
    if xdgCacheHome != "" {
      JoinName(xdgCacheHome, "pkgpulse");
    } else if home.Some? {
      JoinName(Join2(home.value, ".cache"), "pkgpulse");
    }
  }

  /** A set XDG_CACHE_HOME decides the directory whatever the home directory is. */
  lemma XdgOverridesHome(xdgCacheHome: string, home: Option<string>)
    requires xdgCacheHome != ""
    ensures CacheDir(xdgCacheHome, home) == CacheDir(xdgCacheHome, None) == Join2(xdgCacheHome, "pkgpulse")
  {
  }

  /** The base name is a single path element: no slash, and neither "." nor "..". */
  lemma BaseNameIsName(ref: string, sha256: string -> Digest, suffix: string)
    requires suffix == ".tar" || suffix == ".json"
    ensures IsName(BaseName(ref, sha256) + suffix)
  {
    var safe, h := SafeName(ref), HashImageRef(ref, sha256);
    var n := BaseName(ref, sha256) + suffix;
    assert n == safe + "_" + h + suffix;
    assert '/' !in h by {
      forall k | 0 <= k < |h| ensures h[k] != '/' {
        assert IsHexDigit(h[k]);
      }
    }
    assert '/' !in suffix;
    assert '/' !in n by {
      forall k | 0 <= k < |n| ensures n[k] != '/' {
        if k < |safe| {
          assert n[k] == safe[k];
        } else if k == |safe| {
          assert n[k] == '_';
        } else if k < |safe| + 1 + |h| {
          assert n[k] == h[k - |safe| - 1];
        } else {
          assert n[k] == suffix[k - |safe| - 1 - |h|];
        }
      }
    }
  }

  /**
   * The tarball and metadata share the directory and the stem "<safe name>_<hash>" and differ
   * only in the ".tar" and ".json" suffixes; both are empty exactly when the directory is
   * unknown.
   */
  lemma CachePathsShape(ref: string, xdgCacheHome: string, home: Option<string>, sha256: string -> Digest)
    ensures var (tar, meta) := CachePaths(ref, xdgCacheHome, home, sha256);
      var dir := CacheDir(xdgCacheHome, home);
      (tar == "" && meta == "" <==> dir == "") &&
      (dir != "" ==>
        var stem := DirPrefix(dir) + BaseName(ref, sha256);
        tar == stem + ".tar" && meta == stem + ".json" &&
        Base(tar) == BaseName(ref, sha256) + ".tar" && Base(meta) == BaseName(ref, sha256) + ".json")
  {
    var dir := CacheDir(xdgCacheHome, home);
    if dir != "" {
      CacheFile(ref, dir, sha256, ".tar");
      CacheFile(ref, dir, sha256, ".json");
    }
  }

  /** One cache file: the directory's prefix, the base name and the suffix. */
  lemma CacheFile(ref: string, dir: string, sha256: string -> Digest, suffix: string)
    requires suffix == ".tar" || suffix == ".json"
    ensures Join2(dir, BaseName(ref, sha256) + suffix) == DirPrefix(dir) + BaseName(ref, sha256) + suffix
    ensures Base(Join2(dir, BaseName(ref, sha256) + suffix)) == BaseName(ref, sha256) + suffix
  {
    BaseNameIsName(ref, sha256, suffix);
    JoinName(dir, BaseName(ref, sha256) + suffix);
  }
}
