/**
 * Go's path/filepath on a Unix host: Clean, Join, Dir and Base, which are purely lexical.
 * The inventory code uses Dir to recognise executables in binary directories, Base to name
 * them, and Join to build the cache paths.
 */
module FilePath {
  import opened Wrappers
  import opened GoText
  import opened SeqFacts

  /** strings.Split(p, "/"): the elements between slashes, empty ones included. */
  function SplitSlash(p: string): (r: seq<string>)
    decreases |p|
    ensures |r| >= 1
    ensures forall k :: 0 <= k < |r| ==> '/' !in r[k]
  {
    match IndexByte(p, '/')
    case None => [p]
    case Some(i) => [p[..i]] + SplitSlash(p[i + 1..])
  }

  /** An element Clean keeps: not empty, not ".", no slash (".." may remain in a relative path). */
  predicate IsKeptElement(e: string) {
    e != "" && e != "." && '/' !in e
  }

  /**
   * One step of Clean's lexical processing: drop "" and ".", let ".." remove the element before
   * it (or stay at the front of a relative path, or vanish at the root), keep anything else.
   */
  function CleanStep(stack: seq<string>, e: string, rooted: bool): seq<string> {
    if e == "" || e == "." then stack
    else if e == ".." then
      if |stack| > 0 && stack[|stack| - 1] != ".." then stack[..|stack| - 1]
      else if rooted then stack
      else stack + [".."]
    else stack + [e]
  }

  /** The elements Clean keeps, processing `es` from left to right. */
  function Reduce(es: seq<string>, rooted: bool): (st: seq<string>)
    requires forall k :: 0 <= k < |es| ==> '/' !in es[k]
    ensures forall k :: 0 <= k < |st| ==> IsKeptElement(st[k])
  {
    if es == [] then [] else CleanStep(Reduce(es[..|es| - 1], rooted), es[|es| - 1], rooted)
  }

  /** The path spelled by the kept elements: a leading slash when rooted, "." when nothing is left. */
  function Assemble(st: seq<string>, rooted: bool): string {
    if rooted then "/" + Join(st, "/")
    else if st == [] then "."
    else Join(st, "/")
  }

  /** filepath.Clean: the shortest path lexically equivalent to `p`; "." for the empty path. */
  function Clean(p: string): (r: string)
    ensures r != ""
  {
    if p == "" then "." else Assemble(Reduce(SplitSlash(p), p[0] == '/'), p[0] == '/')
  }

  /** filepath.Join(a, b): Clean of the two joined by a slash, leading empty elements ignored. */
  function Join2(a: string, b: string): string {
    if a == "" then (if b == "" then "" else Clean(b)) else Clean(a + "/" + b)
  }

  /** strings.LastIndexByte */
  function LastIndexByte(s: string, c: char): (r: Option<nat>)
    decreases |s|
    ensures r.Some? ==> r.value < |s| && s[r.value] == c && c !in s[r.value + 1..]
    ensures r.None? <==> c !in s
  {
    if s == [] then None
    else if s[|s| - 1] == c then Some(|s| - 1)
    else
      var r := LastIndexByte(s[..|s| - 1], c);
      assert r.Some? ==> s[r.value + 1..] == s[..|s| - 1][r.value + 1..] + [s[|s| - 1]];
      assert s == s[..|s| - 1] + [s[|s| - 1]];
      r
  }

  /** filepath.Dir: everything up to the last slash, cleaned. */
  function Dir(p: string): string {
    match LastIndexByte(p, '/')
    case None => "."
    case Some(i) => Clean(p[..i + 1])
  }

  function TrimTrailingSlashes(s: string): (r: string)
    decreases |s|
    ensures |r| <= |s| && r == s[..|r|] && (r == [] || r[|r| - 1] != '/')
  {
    if s != [] && s[|s| - 1] == '/' then TrimTrailingSlashes(s[..|s| - 1]) else s
  }

  /** filepath.Base: the last element, trailing slashes ignored; "." for "", "/" for all slashes. */
  function Base(p: string): (r: string)
    ensures r != ""
  {
    if p == "" then "."
    else
      var q := TrimTrailingSlashes(p);
      if q == "" then "/"
      else
        match LastIndexByte(q, '/')
        case None => q
        case Some(i) => q[i + 1..]
  }

  // ---------------------------------------------------------------------------------------
  // Properties
  // ---------------------------------------------------------------------------------------

  /** A single path element that Clean leaves alone. */
  predicate IsName(n: string) {
    n != "" && n != "." && n != ".." && '/' !in n
  }

  lemma {:induction false} JoinSnoc(parts: seq<string>, x: string, sep: string)
    ensures Join(parts + [x], sep) == if parts == [] then x else Join(parts, sep) + sep + x
  {
    if |parts| > 1 {
      assert (parts + [x])[1..] == parts[1..] + [x];
      JoinSnoc(parts[1..], x, sep);
    }
  }

  lemma {:induction false} JoinKeptShape(st: seq<string>)
    requires st != [] && forall k :: 0 <= k < |st| ==> IsKeptElement(st[k])
    ensures var j := Join(st, "/"); j != "" && j != "." && j[0] != '/' && j[0] == st[0][0]
  {
    if |st| > 1 {
      JoinKeptShape(st[1..]);
    }
  }

  lemma IndexByteAt(s: string, c: char, i: nat)
    requires i < |s| && s[i] == c && c !in s[..i]
    ensures IndexByte(s, c) == Some(i)
  {
    assert c in s by { assert s[i] == c; }
  }

  lemma LastIndexByteAt(s: string, c: char, i: nat)
    requires i < |s| && s[i] == c && c !in s[i + 1..]
    ensures LastIndexByte(s, c) == Some(i)
  {
    assert c in s by { assert s[i] == c; }
  }

  /** Splitting at a slash in the middle splits both sides independently. */
  lemma {:induction false} SplitSlashAppend(d: string, x: string)
    decreases |d|
    ensures SplitSlash(d + "/" + x) == SplitSlash(d) + SplitSlash(x)
  {
    var idx := IndexByte(d, '/');
    if idx.None? {
      SplitNoSlash(d, x);
    } else {
      var i := idx.value;
      SplitAtSlash(d, x, i);
      SplitSlashAppend(d[i + 1..], x);
      ConsAppend(d[..i], SplitSlash(d[i + 1..]), SplitSlash(x));
    }
  }

  lemma SplitNoSlash(d: string, x: string)
    requires '/' !in d
    ensures SplitSlash(d + "/" + x) == SplitSlash(d) + SplitSlash(x)
  {
    var p := d + "/" + x;
    assert p[..|d|] == d && p[|d| + 1..] == x;
    IndexByteAt(p, '/', |d|);
  }

  /** The first slash of d is the first slash of d + "/" + x. */
  lemma SplitAtSlash(d: string, x: string, i: nat)
    requires IndexByte(d, '/') == Some(i)
    ensures i < |d|
    ensures SplitSlash(d) == [d[..i]] + SplitSlash(d[i + 1..])
    ensures SplitSlash(d + "/" + x) == [d[..i]] + SplitSlash(d[i + 1..] + "/" + x)
  {
    var p := d + "/" + x;
    assert p[..i] == d[..i];
    IndexByteAt(p, '/', i);
    assert p[i + 1..] == d[i + 1..] + "/" + x;
  }

  /** The directory part of a join: what Join2(d, n) puts in front of a plain name `n`. */
  function DirPrefix(d: string): string {
    if d == "" then ""
    else
      var c := Clean(d);
      if c == "." then "" else if c == "/" then "/" else c + "/"
  }

  /** Joining a plain name to a directory appends the name to the cleaned directory. */
  lemma JoinName(d: string, n: string)
    requires IsName(n)
    ensures Join2(d, n) == DirPrefix(d) + n
    ensures Base(Join2(d, n)) == n
  {
    if d == "" {
      assert IndexByte(n, '/') == None;
      assert Reduce([n], false) == [n];
      assert Join2(d, n) == n;
    } else {
      CleanAppendName(d, n);
    }
    BaseOfName(DirPrefix(d), n);
  }

  lemma CleanAppendName(d: string, n: string)
    requires IsName(n) && d != ""
    ensures Clean(d + "/" + n) == DirPrefix(d) + n
  {
    var p := d + "/" + n;
    var rooted := d[0] == '/';
    assert p[0] == d[0];
    assert IndexByte(n, '/') == None;
    SplitSlashAppend(d, n);
    var es := SplitSlash(d);
    assert (es + [n])[..|es|] == es;
    var st := Reduce(es, rooted);
    assert Reduce(SplitSlash(p), rooted) == st + [n];
    AssembleSnoc(st, n, rooted);
  }

  /** Appending a plain name to the kept elements appends it to the spelled path. */
  lemma AssembleSnoc(st: seq<string>, n: string, rooted: bool)
    requires IsName(n) && forall k :: 0 <= k < |st| ==> IsKeptElement(st[k])
    ensures var c := Assemble(st, rooted);
      Assemble(st + [n], rooted) == (if c == "." then "" else if c == "/" then "/" else c + "/") + n
  {
    JoinSnoc(st, n, "/");
    if st != [] {
      JoinKeptShape(st);
    }
  }

  lemma BaseOfName(pre: string, n: string)
    requires IsName(n) && (pre == "" || pre[|pre| - 1] == '/')
    ensures Base(pre + n) == n
  {
    var p := pre + n;
    assert p[|p| - 1] == n[|n| - 1];
    assert TrimTrailingSlashes(p) == p;
    if pre == "" {
      assert p == n;
    } else {
      assert p[|pre| - 1] == '/';
      assert p[|pre|..] == n;
      LastIndexByteAt(p, '/', |pre| - 1);
    }
  }

  /** The directory of `d/n` is the cleaned `d`. */
  lemma DirOfJoin(d: string, n: string)
    requires d != "" && '/' !in n
    ensures Dir(d + "/" + n) == Clean(d)
  {
    var p := d + "/" + n;
    assert p[|d|] == '/' && p[|d| + 1..] == n;
    LastIndexByteAt(p, '/', |d|);
    assert p[..|d| + 1] == d + "/" + "";
    SplitSlashAppend(d, "");
    assert IndexByte("", '/') == None;
    var es := SplitSlash(d);
    assert (es + [""])[..|es|] == es;
    assert (d + "/" + "")[0] == d[0];
  }
}
