/**
 * The changelog header pattern of the release tool,
 *
 *   ^#\s*([0-9]+(?:\.[0-9]+){1,2}(?:-[0-9A-Za-z.-]+)?(?:\+[0-9A-Za-z.-]+)?)\s*-\s*(.+)$
 *
 * matched with Go's leftmost-first (backtracking-preference) semantics: of all the ways the
 * line can match, the one a backtracking matcher reaches first is reported, trying the longer
 * alternative of every greedy `*`, `+`, `?` and `{1,2}` before the shorter one.  The functions
 * below walk those alternatives in that order.  Some of the greedy runs never need to give
 * anything back, because the character after a shorter run could not continue the match:
 *   - the `\s*` after '#' (a white-space byte cannot start `[0-9]+`);
 *   - each `[0-9]+` of the version core (a digit cannot follow the core: the pattern goes on
 *     with '.', '-', '+' or white space there).
 * so they are taken at full length.
 */
module ChangelogHeader {
  import opened Wrappers

  datatype CharClass = Space | Digit | VersionChar

  /** `\s` in RE2 is [\t\n\f\r ] (no vertical tab); the version class is [0-9A-Za-z.-]. */
  predicate InClass(c: char, cls: CharClass) {
    match cls
    case Space => c == '\t' || c == '\n' || c == '\U{0C}' || c == '\r' || c == ' '
    case Digit => '0' <= c <= '9'
    case VersionChar => '0' <= c <= '9' || 'A' <= c <= 'Z' || 'a' <= c <= 'z' || c == '.' || c == '-'
  }

  /** The length of the longest run of `cls` characters starting at s[i]. */
  function Run(s: string, i: nat, cls: CharClass): (k: nat)
    requires i <= |s|
    ensures i + k <= |s|
    decreases |s| - i
  {
    if i < |s| && InClass(s[i], cls) then 1 + Run(s, i + 1, cls) else 0
  }

  /** The run is all of one class and stops at the end or at a character outside it. */
  lemma {:induction false} RunSpec(s: string, i: nat, cls: CharClass)
    requires i <= |s|
    ensures forall j :: i <= j < i + Run(s, i, cls) ==> InClass(s[j], cls)
    ensures i + Run(s, i, cls) == |s| || !InClass(s[i + Run(s, i, cls)], cls)
    decreases |s| - i
  {
    if i < |s| && InClass(s[i], cls) {
      RunSpec(s, i + 1, cls);
    }
  }

  /**
   * `\s*-\s*(.+)$` against s[i..]: the text of the second group.  The second `\s*` gives back
   * one character when nothing but white space follows the dash, since `.+` needs one; `.`
   * does not match a newline, and `$` is the end of the text.
   */
  function Tail(s: string, i: nat): (g: Option<string>)
    requires i <= |s|
    ensures g.Some? ==> g.value != [] && '\n' !in g.value
  {
    var a := i + Run(s, i, Space);
    if a < |s| && s[a] == '-' && a + 1 < |s| then
      var b := a + 1 + Run(s, a + 1, Space);
      var g := if b < |s| then s[b..] else s[|s| - 1..];
      if '\n' in g then None else Some(g)
    else None
  }

  /** The optional build part `(?:\+[0-9A-Za-z.-]+)?` at s[p..], then the tail: the end of the
   *  version and the summary group. */
  function AfterBuild(s: string, p: nat): (r: Option<(nat, string)>)
    requires p <= |s|
    ensures r.Some? ==> p <= r.value.0 <= |s|
  {
    var viaBuild := if p < |s| && s[p] == '+' then BuildLengths(s, p + 1, Run(s, p + 1, VersionChar)) else None;
    if viaBuild.Some? then viaBuild
    else
      match Tail(s, p)
      case Some(g) => Some((p, g))
      case None => None
  }

  /** The build run cut to k, k - 1, ..., 1 characters after s[q - 1] == '+'. */
  function BuildLengths(s: string, q: nat, k: nat): (r: Option<(nat, string)>)
    requires q + k <= |s|
    ensures r.Some? ==> q < r.value.0 <= q + k
    decreases k
  {
    if k == 0 then None
    else
      match Tail(s, q + k)
      case Some(g) => Some((q + k, g))
      case None => BuildLengths(s, q, k - 1)
  }

  /** The optional pre-release part `(?:-[0-9A-Za-z.-]+)?` at s[c..], then the rest. */
  function AfterPre(s: string, c: nat): (r: Option<(nat, string)>)
    requires c <= |s|
    ensures r.Some? ==> c <= r.value.0 <= |s|
  {
    var viaPre := if c < |s| && s[c] == '-' then PreLengths(s, c + 1, Run(s, c + 1, VersionChar)) else None;
    if viaPre.Some? then viaPre else AfterBuild(s, c)
  }

  /** The pre-release run cut to k, k - 1, ..., 1 characters after s[q - 1] == '-'. */
  function PreLengths(s: string, q: nat, k: nat): (r: Option<(nat, string)>)
    requires q + k <= |s|
    ensures r.Some? ==> q < r.value.0 <= |s|
    decreases k
  {
    if k == 0 then None
    else
      var r := AfterBuild(s, q + k);
      if r.Some? then r else PreLengths(s, q, k - 1)
  }

  /** `[0-9]+\.[0-9]+` at s[a..]: the end of the minor number. */
  function VersionCore(s: string, a: nat): (r: Option<nat>)
    requires a <= |s|
    ensures r.Some? ==> a < r.value <= |s|
  {
    var p1 := a + Run(s, a, Digit);
    if p1 == a || p1 == |s| || s[p1] != '.' then None
    else
      var p2 := p1 + 1 + Run(s, p1 + 1, Digit);
      if p2 == p1 + 1 then None else Some(p2)
  }

  /** The rest of `{1,2}` after the minor number: a second ".<digits>" is tried first, then
   *  the optional parts and the tail. */
  function AfterCore(s: string, p2: nat): (r: Option<(nat, string)>)
    requires p2 <= |s|
    ensures r.Some? ==> p2 <= r.value.0 <= |s|
  {
    var second := match PatchEnd(s, p2) case Some(p3) => AfterPre(s, p3) case None => None;
    if second.Some? then second else AfterPre(s, p2)
  }

  /** The end of a second ".<digits>" at s[p2..], if there is one. */
  function PatchEnd(s: string, p2: nat): (r: Option<nat>)
    requires p2 <= |s|
    ensures r.Some? ==> p2 + 1 < r.value <= |s|
  {
    if p2 < |s| && s[p2] == '.' && Run(s, p2 + 1, Digit) > 0 then Some(p2 + 1 + Run(s, p2 + 1, Digit)) else None
  }

  /** FindStringSubmatch with the header pattern: the two groups, or None without a match. */
  function Header(s: string): Option<(string, string)> {
    if |s| == 0 || s[0] != '#' then None
    else
      var a := 1 + Run(s, 1, Space);
      match VersionCore(s, a)
      case None => None
      case Some(p2) =>
        match AfterCore(s, p2)
        case None => None
        case Some((e, g)) => Some((s[a..e], g))
  }

  // ---------------------------------------------------------------------------------------
  // Properties
  // ---------------------------------------------------------------------------------------

  /** A run is pinned down by its characters and the one after it. */
  lemma RunExact(s: string, i: nat, cls: CharClass, k: nat)
    requires i + k <= |s|
    requires forall j :: i <= j < i + k ==> InClass(s[j], cls)
    requires i + k == |s| || !InClass(s[i + k], cls)
    ensures Run(s, i, cls) == k
  {
    RunSpec(s, i, cls);
  }

  predicate AllIn(s: string, cls: CharClass) {
    forall j :: 0 <= j < |s| ==> InClass(s[j], cls)
  }

  /** A release version written as the pattern's first group spells it: major.minor, an
   *  optional .patch, an optional -prerelease and an optional +build. */
  function Version(major: string, minor: string, patch: string, pre: string, build: string): string {
    major + "." + minor + (if patch == "" then "" else "." + patch)
    + (if pre == "" then "" else "-" + pre) + (if build == "" then "" else "+" + build)
  }

  predicate WellFormedVersion(major: string, minor: string, patch: string, pre: string, build: string) {
    major != "" && minor != "" && AllIn(major, Digit) && AllIn(minor, Digit) && AllIn(patch, Digit)
    && AllIn(pre, VersionChar) && AllIn(build, VersionChar)
  }

  /** The tail " - <summary>" yields the summary when it does not start with white space. */
  lemma TailWellFormed(s: string, i: nat, summary: string)
    requires i <= |s| && s[i..] == " - " + summary
    requires summary != [] && !InClass(summary[0], Space) && '\n' !in summary
    ensures Tail(s, i) == Some(summary)
  {
    assert s[i] == ' ' && s[i + 1] == '-' && s[i + 2] == ' ' && s[i + 3] == summary[0];
    RunExact(s, i, Space, 1);
    RunExact(s, i + 2, Space, 1);
    assert s[i + 3..] == summary;
  }

  /** The longest build run is tried first: when the tail matches after it, that is the match. */
  lemma AfterBuildLongest(s: string, p: nat)
    requires p < |s| && s[p] == '+' && Run(s, p + 1, VersionChar) > 0
    requires Tail(s, p + 1 + Run(s, p + 1, VersionChar)).Some?
    ensures AfterBuild(s, p)
      == Some((p + 1 + Run(s, p + 1, VersionChar), Tail(s, p + 1 + Run(s, p + 1, VersionChar)).value))
  {
    BuildTop(s, p + 1, Run(s, p + 1, VersionChar));
  }

  lemma BuildTop(s: string, q: nat, k: nat)
    requires q + k <= |s| && k > 0 && Tail(s, q + k).Some?
    ensures BuildLengths(s, q, k) == Some((q + k, Tail(s, q + k).value))
  {
  }

  lemma PreTop(s: string, q: nat, k: nat)
    requires q + k <= |s| && k > 0 && AfterBuild(s, q + k).Some?
    ensures PreLengths(s, q, k) == AfterBuild(s, q + k)
  {
  }

  /** Without a '+', the tail is tried right where the build part would start. */
  lemma AfterBuildAbsent(s: string, p: nat)
    requires p <= |s| && (p == |s| || s[p] != '+') && Tail(s, p).Some?
    ensures AfterBuild(s, p) == Some((p, Tail(s, p).value))
  {
  }

  /** The longest pre-release run is tried first. */
  lemma AfterPreLongest(s: string, c: nat)
    requires c < |s| && s[c] == '-' && Run(s, c + 1, VersionChar) > 0
    requires AfterBuild(s, c + 1 + Run(s, c + 1, VersionChar)).Some?
    ensures AfterPre(s, c) == AfterBuild(s, c + 1 + Run(s, c + 1, VersionChar))
  {
    PreTop(s, c + 1, Run(s, c + 1, VersionChar));
  }

  lemma AfterPreAbsent(s: string, c: nat)
    requires c <= |s| && (c == |s| || s[c] != '-')
    ensures AfterPre(s, c) == AfterBuild(s, c)
  {
  }

  /** A build part s[p..e] that the tail follows. */
  lemma BuildAt(s: string, p: nat, e: nat, summary: string)
    requires p + 1 < e < |s| && s[p] == '+' && !InClass(s[e], VersionChar)
    requires forall j :: p < j < e ==> InClass(s[j], VersionChar)
    requires Tail(s, e) == Some(summary)
    ensures AfterBuild(s, p) == Some((e, summary))
  {
    RunExact(s, p + 1, VersionChar, e - p - 1);
    AfterBuildLongest(s, p);
  }

  /** A pre-release part s[c..p] followed by a build part or the tail. */
  lemma PreAt(s: string, c: nat, p: nat)
    requires c + 1 < p < |s| && s[c] == '-' && !InClass(s[p], VersionChar)
    requires forall j :: c < j < p ==> InClass(s[j], VersionChar)
    requires AfterBuild(s, p).Some?
    ensures AfterPre(s, c) == AfterBuild(s, p)
  {
    RunExact(s, c + 1, VersionChar, p - c - 1);
    AfterPreLongest(s, c);
  }

  lemma AfterBuildWellFormed(s: string, p: nat, build: string, summary: string)
    requires p <= |s| && AllIn(build, VersionChar)
    requires s[p..] == (if build == "" then "" else "+" + build) + " - " + summary
    requires summary != [] && !InClass(summary[0], Space) && '\n' !in summary
    ensures AfterBuild(s, p) == Some((|s| - 3 - |summary|, summary))
  {
    if build == "" {
      NoBuildWellFormed(s, p, summary);
    } else {
      BuildWellFormed(s, p, build, summary);
    }
  }

  lemma NoBuildWellFormed(s: string, p: nat, summary: string)
    requires p <= |s| && s[p..] == " - " + summary
    requires summary != [] && !InClass(summary[0], Space) && '\n' !in summary
    ensures AfterBuild(s, p) == Some((p, summary))
  {
    TailWellFormed(s, p, summary);
    AfterBuildAbsent(s, p);
  }

  lemma BuildWellFormed(s: string, p: nat, build: string, summary: string)
    requires p <= |s| && build != "" && AllIn(build, VersionChar)
    requires s[p..] == "+" + build + " - " + summary
    requires summary != [] && !InClass(summary[0], Space) && '\n' !in summary
    ensures AfterBuild(s, p) == Some((p + 1 + |build|, summary))
  {
    var e := p + 1 + |build|;
    assert s[p] == '+';
    assert forall j :: p < j < e ==> s[j] == build[j - p - 1];
    assert s[e] == ' ';
    assert s[e..] == " - " + summary;
    TailWellFormed(s, e, summary);
    BuildAt(s, p, e, summary);
  }

  lemma AfterPreWellFormed(s: string, c: nat, pre: string, build: string, summary: string)
    requires c <= |s| && AllIn(pre, VersionChar) && AllIn(build, VersionChar)
    requires s[c..] == (if pre == "" then "" else "-" + pre) + (if build == "" then "" else "+" + build) + " - " + summary
    requires summary != [] && !InClass(summary[0], Space) && '\n' !in summary
    ensures AfterPre(s, c) == Some((|s| - 3 - |summary|, summary))
  {
    var bpart := if build == "" then "" else "+" + build;
    if pre == "" {
      assert s[c..] == bpart + " - " + summary;
      assert s[c] == ' ' || s[c] == '+';
      AfterBuildWellFormed(s, c, build, summary);
      AfterPreAbsent(s, c);
    } else {
      var p := c + 1 + |pre|;
      assert s[c] == '-';
      assert forall j :: c < j < p ==> s[j] == pre[j - c - 1];
      assert s[p] == ' ' || s[p] == '+';
      assert s[p..] == bpart + " - " + summary;
      AfterBuildWellFormed(s, p, build, summary);
      PreAt(s, c, p);
    }
  }

  /** The pieces of a header after "# ": the core ends at p2 and the rest matches. */
  lemma HeaderAt(s: string, p2: nat)
    requires |s| > 2 && s[0] == '#' && s[1] == ' ' && !InClass(s[2], Space)
    requires VersionCore(s, 2) == Some(p2) && AfterCore(s, p2).Some?
    ensures Header(s) == Some((s[2..AfterCore(s, p2).value.0], AfterCore(s, p2).value.1))
  {
    RunExact(s, 1, Space, 1);
  }

  /** major.minor at s[2..p2], with s[p1] the dot. */
  lemma VersionCoreAt(s: string, p1: nat, p2: nat)
    requires 2 < p1 && p1 + 1 < p2 <= |s| && s[p1] == '.'
    requires forall j :: 2 <= j < p1 ==> InClass(s[j], Digit)
    requires forall j :: p1 < j < p2 ==> InClass(s[j], Digit)
    requires p2 == |s| || !InClass(s[p2], Digit)
    ensures VersionCore(s, 2) == Some(p2)
  {
    RunExact(s, 2, Digit, p1 - 2);
    RunExact(s, p1 + 1, Digit, p2 - p1 - 1);
  }

  lemma AfterCoreNoPatch(s: string, p2: nat)
    requires p2 < |s| && s[p2] != '.'
    ensures AfterCore(s, p2) == AfterPre(s, p2)
  {
  }

  /** A patch number s[p2 + 1..p3] after the dot at s[p2]. */
  lemma AfterCorePatch(s: string, p2: nat, p3: nat)
    requires p2 + 1 < p3 < |s| && s[p2] == '.' && !InClass(s[p3], Digit)
    requires forall j :: p2 < j < p3 ==> InClass(s[j], Digit)
    requires AfterPre(s, p3).Some?
    ensures AfterCore(s, p2) == AfterPre(s, p3)
  {
    RunExact(s, p2 + 1, Digit, p3 - p2 - 1);
    assert PatchEnd(s, p2) == Some(p3);
  }

  lemma HeaderWithoutPatch(s: string, p1: nat, p2: nat, summary: string)
    requires 2 < p1 && p1 + 1 < p2 < |s| && s[0] == '#' && s[1] == ' ' && s[p1] == '.'
    requires forall j :: 2 <= j < p1 ==> InClass(s[j], Digit)
    requires forall j :: p1 < j < p2 ==> InClass(s[j], Digit)
    requires s[p2] == '-' || s[p2] == '+' || s[p2] == ' '
    requires |s| >= 3 + |summary| && AfterPre(s, p2) == Some((|s| - 3 - |summary|, summary))
    ensures Header(s) == Some((s[2..|s| - 3 - |summary|], summary))
  {
    AfterCoreNoPatch(s, p2);
    HeaderAfterCore(s, p1, p2, |s| - 3 - |summary|, summary);
  }

  /** A version core "# <digits>.<digits>" ending at p2, and whatever matches after it. */
  lemma HeaderAfterCore(s: string, p1: nat, p2: nat, e: nat, summary: string)
    requires 2 < p1 && p1 + 1 < p2 <= |s| && s[0] == '#' && s[1] == ' ' && s[p1] == '.'
    requires forall j :: 2 <= j < p1 ==> InClass(s[j], Digit)
    requires forall j :: p1 < j < p2 ==> InClass(s[j], Digit)
    requires p2 == |s| || !InClass(s[p2], Digit)
    requires 2 <= e <= |s| && AfterCore(s, p2) == Some((e, summary))
    ensures Header(s) == Some((s[2..e], summary))
  {
    VersionCoreAt(s, p1, p2);
    HeaderAt(s, p2);
  }

  lemma HeaderWithPatch(s: string, p1: nat, p2: nat, p3: nat, summary: string)
    requires 2 < p1 && p1 + 1 < p2 && p2 + 1 < p3 < |s| && s[0] == '#' && s[1] == ' ' && s[p1] == '.'
    requires s[p2] == '.'
    requires forall j :: 2 <= j < p1 ==> InClass(s[j], Digit)
    requires forall j :: p1 < j < p2 ==> InClass(s[j], Digit)
    requires forall j :: p2 < j < p3 ==> InClass(s[j], Digit)
    requires s[p3] == '-' || s[p3] == '+' || s[p3] == ' '
    requires |s| >= 3 + |summary| && AfterPre(s, p3) == Some((|s| - 3 - |summary|, summary))
    ensures Header(s) == Some((s[2..|s| - 3 - |summary|], summary))
  {
    AfterCorePatch(s, p2, p3);
    HeaderAfterCore(s, p1, p2, |s| - 3 - |summary|, summary);
  }

  /**
   * A header written "# <version> - <summary>" yields the version and the summary, whatever
   * characters of [0-9A-Za-z.-] the pre-release and build parts hold.
   */
  lemma HeaderWellFormed(major: string, minor: string, patch: string, pre: string, build: string, summary: string)
    requires WellFormedVersion(major, minor, patch, pre, build)
    requires summary != [] && !InClass(summary[0], Space) && '\n' !in summary
    ensures Header("# " + Version(major, minor, patch, pre, build) + " - " + summary)
      == Some((Version(major, minor, patch, pre, build), summary))
  {
    var s := "# " + Version(major, minor, patch, pre, build) + " - " + summary;
    var rest := (if pre == "" then "" else "-" + pre) + (if build == "" then "" else "+" + build) + " - " + summary;
    var tail := (if patch == "" then "" else "." + patch) + rest;
    Layout(major, minor, patch, pre, build, summary);
    LayoutCore(s, major, minor, tail);
    var p1 := 2 + |major|;
    var p2 := p1 + 1 + |minor|;
    RestStart(rest, pre, build, summary);
    if patch == "" {
      WellFormedNoPatch(s, p1, p2, pre, build, summary);
    } else {
      WellFormedPatch(s, p1, p2, patch, pre, build, summary);
    }
  }

  /** After the core, no patch: the pre-release part, the build part and the tail. */
  lemma WellFormedNoPatch(s: string, p1: nat, p2: nat, pre: string, build: string, summary: string)
    requires 2 < p1 && p1 + 1 < p2 <= |s| && s[0] == '#' && s[1] == ' ' && s[p1] == '.'
    requires forall j :: 2 <= j < p1 ==> InClass(s[j], Digit)
    requires forall j :: p1 < j < p2 ==> InClass(s[j], Digit)
    requires AllIn(pre, VersionChar) && AllIn(build, VersionChar)
    requires s[p2..] == (if pre == "" then "" else "-" + pre) + (if build == "" then "" else "+" + build) + " - " + summary
    requires summary != [] && !InClass(summary[0], Space) && '\n' !in summary
    ensures Header(s) == Some((s[2..|s| - 3 - |summary|], summary))
  {
    RestStart(s[p2..], pre, build, summary);
    assert s[p2] == s[p2..][0];
    AfterPreWellFormed(s, p2, pre, build, summary);
    HeaderWithoutPatch(s, p1, p2, summary);
  }

  /** After the core, a patch number, then the rest as without one. */
  lemma WellFormedPatch(s: string, p1: nat, p2: nat, patch: string, pre: string, build: string, summary: string)
    requires 2 < p1 && p1 + 1 < p2 <= |s| && s[0] == '#' && s[1] == ' ' && s[p1] == '.'
    requires forall j :: 2 <= j < p1 ==> InClass(s[j], Digit)
    requires forall j :: p1 < j < p2 ==> InClass(s[j], Digit)
    requires patch != "" && AllIn(patch, Digit) && AllIn(pre, VersionChar) && AllIn(build, VersionChar)
    requires s[p2..] == "." + patch + ((if pre == "" then "" else "-" + pre) + (if build == "" then "" else "+" + build) + " - " + summary)
    requires summary != [] && !InClass(summary[0], Space) && '\n' !in summary
    ensures Header(s) == Some((s[2..|s| - 3 - |summary|], summary))
  {
    var rest := (if pre == "" then "" else "-" + pre) + (if build == "" then "" else "+" + build) + " - " + summary;
    var p3 := p2 + 1 + |patch|;
    LayoutPatch(s, p2, patch, rest);
    RestStart(rest, pre, build, summary);
    assert s[p3] == rest[0];
    AfterPreWellFormed(s, p3, pre, build, summary);
    HeaderWithPatch(s, p1, p2, p3, summary);
  }

  lemma RestStart(rest: string, pre: string, build: string, summary: string)
    requires rest == (if pre == "" then "" else "-" + pre) + (if build == "" then "" else "+" + build) + " - " + summary
    ensures rest != [] && (rest[0] == '-' || rest[0] == '+' || rest[0] == ' ')
  {
  }

  /** The header text, split after the minor number. */
  lemma Layout(major: string, minor: string, patch: string, pre: string, build: string, summary: string)
    ensures var v := Version(major, minor, patch, pre, build);
      var s := "# " + v + " - " + summary;
      var rest := (if pre == "" then "" else "-" + pre) + (if build == "" then "" else "+" + build) + " - " + summary;
      s == "# " + major + "." + minor + ((if patch == "" then "" else "." + patch) + rest) &&
      |s| == 2 + |v| + 3 + |summary| && s[2..|s| - 3 - |summary|] == v
  {
    var v := Version(major, minor, patch, pre, build);
    var patchPart := if patch == "" then "" else "." + patch;
    var ppart := if pre == "" then "" else "-" + pre;
    var bpart := if build == "" then "" else "+" + build;
    assert v == major + "." + minor + patchPart + ppart + bpart;
    LayoutSplit(major + "." + minor, patchPart, ppart, bpart, summary);
    LayoutVersion(v, summary);
  }

  lemma LayoutSplit(core: string, patchPart: string, ppart: string, bpart: string, summary: string)
    ensures "# " + (core + patchPart + ppart + bpart) + " - " + summary
      == "# " + core + (patchPart + (ppart + bpart + " - " + summary))
  {
    var v := core + patchPart + ppart + bpart;
    var rest := ppart + bpart + " - " + summary;
    assert v + " - " + summary == core + (patchPart + rest);
  }

  lemma LayoutVersion(v: string, summary: string)
    ensures var s := "# " + v + " - " + summary;
      |s| == 2 + |v| + 3 + |summary| && s[2..|s| - 3 - |summary|] == v
  {
  }

  lemma LayoutCore(s: string, major: string, minor: string, tail: string)
    requires s == "# " + major + "." + minor + tail && AllIn(major, Digit) && AllIn(minor, Digit)
    ensures s[0] == '#' && s[1] == ' ' && s[2 + |major|] == '.'
    ensures forall j :: 2 <= j < 2 + |major| ==> InClass(s[j], Digit)
    ensures forall j :: 2 + |major| < j < 3 + |major| + |minor| ==> InClass(s[j], Digit)
    ensures s[3 + |major| + |minor|..] == tail
  {
    assert forall j :: 2 <= j < 2 + |major| ==> s[j] == major[j - 2];
    assert forall j :: 2 + |major| < j < 3 + |major| + |minor| ==> s[j] == minor[j - 3 - |major|];
  }

  lemma LayoutPatch(s: string, p2: nat, patch: string, rest: string)
    requires p2 <= |s| && s[p2..] == "." + patch + rest && AllIn(patch, Digit)
    ensures s[p2] == '.' && s[p2 + 1 + |patch|..] == rest
    ensures forall j :: p2 < j < p2 + 1 + |patch| ==> InClass(s[j], Digit)
  {
    assert forall j :: p2 < j < p2 + 1 + |patch| ==> s[j] == s[p2..][j - p2] == patch[j - p2 - 1];
    assert s[p2 + 1 + |patch|..] == s[p2..][1 + |patch|..];
  }

  /** The build part is absent and the tail fails: nothing matches from s[p..]. */
  lemma AfterBuildFails(s: string, p: nat)
    requires p <= |s| && (p == |s| || s[p] != '+')
    requires p + Run(s, p, Space) == |s| || s[p + Run(s, p, Space)] != '-'
    ensures AfterBuild(s, p) == None
  {
  }

  /** Every cut of the pre-release run fails when each of its ends does. */
  lemma {:induction false} PreLengthsFail(s: string, q: nat, k: nat)
    requires q + k <= |s|
    requires forall p :: q < p <= q + k ==> AfterBuild(s, p) == None
    ensures PreLengths(s, q, k) == None
    decreases k
  {
    if k > 0 {
      PreLengthsFail(s, q, k - 1);
    }
  }

  /** Only a version core: the header after it is matched from s[p2..]. */
  lemma HeaderCoreOnly(s: string, p1: nat, p2: nat)
    requires 2 < p1 && p1 + 1 < p2 < |s| && s[0] == '#' && s[1] == ' ' && s[p1] == '.'
    requires forall j :: 2 <= j < p1 ==> InClass(s[j], Digit)
    requires forall j :: p1 < j < p2 ==> InClass(s[j], Digit)
    requires s[p2] == '-' && AfterPre(s, p2).Some?
    ensures Header(s) == Some((s[2..AfterPre(s, p2).value.0], AfterPre(s, p2).value.1))
  {
    AfterCoreNoPatch(s, p2);
    HeaderAfterCore(s, p1, p2, AfterPre(s, p2).value.0, AfterPre(s, p2).value.1);
  }

  /**
   * Leftmost-first at work: in "# <major>.<minor>-<word><rest>" the pre-release group could
   * swallow "-<word>", but then no " - " follows, so the matcher backs off to the bare core
   * and the summary is "<word><rest>".  This holds when the word has no dash and what follows
   * it, after white space, is not a dash.
   */
  lemma DashRightAfterCore(s: string, p1: nat, p2: nat, e: nat)
    requires 2 < p1 && p1 + 1 < p2 && p2 + 1 < e <= |s| && s[0] == '#' && s[1] == ' ' && s[p1] == '.'
    requires forall j :: 2 <= j < p1 ==> InClass(s[j], Digit)
    requires forall j :: p1 < j < p2 ==> InClass(s[j], Digit)
    requires s[p2] == '-'
    requires forall j :: p2 < j < e ==> InClass(s[j], VersionChar) && s[j] != '-'
    requires e == |s| || InClass(s[e], Space)
    requires e + Run(s, e, Space) == |s| || s[e + Run(s, e, Space)] != '-'
    requires '\n' !in s[p2 + 1..]
    ensures Header(s) == Some((s[2..p2], s[p2 + 1..]))
  {
    PreReleaseFails(s, p2, e);
    DashTail(s, p2);
    HeaderCoreOnly(s, p1, p2);
  }

  /** A word after the dash that no " - " follows cannot be the pre-release part: every cut of
   *  it fails. */
  lemma PreReleaseFails(s: string, p2: nat, e: nat)
    requires p2 + 1 < e <= |s|
    requires forall j :: p2 < j < e ==> InClass(s[j], VersionChar) && s[j] != '-'
    requires e == |s| || InClass(s[e], Space)
    requires e + Run(s, e, Space) == |s| || s[e + Run(s, e, Space)] != '-'
    ensures PreLengths(s, p2 + 1, Run(s, p2 + 1, VersionChar)) == None
  {
    var m := e - p2 - 1;
    RunExact(s, p2 + 1, VersionChar, m);
    forall p | p2 + 1 < p <= e ensures AfterBuild(s, p) == None {
      if p < e {
        RunExact(s, p, Space, 0);
      }
      AfterBuildFails(s, p);
    }
    PreLengthsFail(s, p2 + 1, m);
  }

  /** With no pre-release cut matching, the dash right after the core is the pattern's dash
   *  and the rest of the line is the summary. */
  lemma DashTail(s: string, p2: nat)
    requires p2 + 1 < |s| && s[p2] == '-' && InClass(s[p2 + 1], VersionChar) && s[p2 + 1] != '-'
    requires '\n' !in s[p2 + 1..]
    requires PreLengths(s, p2 + 1, Run(s, p2 + 1, VersionChar)) == None
    ensures AfterPre(s, p2) == Some((p2, s[p2 + 1..]))
  {
    RunExact(s, p2, Space, 0);
    RunExact(s, p2 + 1, Space, 0);
    assert Tail(s, p2) == Some(s[p2 + 1..]);
  }

  /** "# 1.0-summary text" reports version "1.0" and summary "summary text". */
  lemma LeftmostFirstExample()
    ensures Header("# 1.0-summary text") == Some(("1.0", "summary text"))
  {
    var s := "# 1.0-summary text";
    ExampleShape(s);
    ExampleRest(s);
    ExampleText(s);
    DashRightAfterCore(s, 3, 5, 13);
  }

  lemma ExampleShape(s: string)
    requires s == "# 1.0-summary text"
    ensures |s| == 18 && s[0] == '#' && s[1] == ' ' && s[3] == '.' && s[5] == '-'
    ensures forall j :: 2 <= j < 3 ==> InClass(s[j], Digit)
    ensures forall j :: 3 < j < 5 ==> InClass(s[j], Digit)
    ensures forall j :: 5 < j < 13 ==> InClass(s[j], VersionChar) && s[j] != '-'
  {
  }

  lemma ExampleRest(s: string)
    requires s == "# 1.0-summary text"
    ensures InClass(s[13], Space) && 13 + Run(s, 13, Space) < |s| && s[13 + Run(s, 13, Space)] != '-'
  {
    assert s[13] == ' ' && s[14] == 't';
    RunExact(s, 13, Space, 1);
  }

  lemma ExampleText(s: string)
    requires s == "# 1.0-summary text"
    ensures '\n' !in s[6..] && s[6..] == "summary text" && s[2..5] == "1.0"
  {
  }
}
