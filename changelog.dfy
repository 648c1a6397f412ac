/**
 * parseLatestChangelogEntry of the release tool, over the lines the scanner yields: the first
 * '#' line that matches the header pattern gives the version and the summary, the '-' lines
 * after it give the bullets, and the next matching header ends the scan.
 */
module Changelog {
  import opened Wrappers
  import opened GoText
  import opened ChangelogHeader
  import opened SeqFacts

  datatype ChangelogEntry = ChangelogEntry(version: string, summary: string, description: string)

  const ParseError: string := "unable to parse latest changelog entry in changelog.md"

  /** The loop's variables: the `collecting` flag, the entry's fields, the bullets so far, and
   *  whether the loop has stopped at a second header. */
  datatype Progress = Progress(collecting: bool, version: string, summary: string, bullets: seq<string>,
                               stopped: bool)

  const Start := Progress(false, "", "", [], false)

  /** A header matcher: Header in the release tool.  The scan and its properties are stated for
   *  any matcher, so that their proofs never look inside the pattern. */
  type Matcher = string -> Option<(string, string)>

  /** A line that starts with '#' and matches the header pattern. */
  predicate IsHeaderLine(m: Matcher, line: string) {
    HasPrefix(line, "#") && m(line).Some?
  }

  /** What a line is to the scan: a matching header with its two groups trimmed, a bullet with
   *  its trimmed text, or a line the scan ignores ('#' lines that do not match, and text). */
  datatype LineKind = Heading(version: string, summary: string) | Bullet(text: string) | Ignored

  function Classify(m: Matcher, line: string): LineKind {
    if HasPrefix(line, "#") then
      match m(line)
      case None => Ignored
      case Some((g1, g2)) => Heading(TrimSpace(g1), TrimSpace(g2))
    else
      match CutPrefix(TrimSpace(line), "-")
      case Some(after) => Bullet(TrimSpace(after))
      case None => Ignored
  }

  /** The kind of each line, in order. */
  function Kinds(m: Matcher, lines: seq<string>): (ks: seq<LineKind>)
    ensures |ks| == |lines| && forall k :: 0 <= k < |lines| ==> ks[k] == Classify(m, lines[k])
  {
    seq(|lines|, k requires 0 <= k < |lines| => Classify(m, lines[k]))
  }

  /** What one line does to the loop's variables: the first header opens the entry, a second
   *  one stops the loop, and bullets count only while the entry is open. */
  function Step(st: Progress, kind: LineKind): Progress {
    if st.stopped then st
    else
      match kind
      case Heading(version, summary) =>
        if !st.collecting then st.(version := version, summary := summary, collecting := true)
        else st.(stopped := true)
      case Bullet(b) => if st.collecting then st.(bullets := st.bullets + [b]) else st
      case Ignored => st
  }

  /** The variables after the loop has seen lines of the kinds `ks`. */
  function Scan(ks: seq<LineKind>): Progress {
    if ks == [] then Start else Step(Scan(ks[..|ks| - 1]), ks[|ks| - 1])
  }

  function ScanEntry(m: Matcher, lines: seq<string>): Progress {
    Scan(Kinds(m, lines))
  }

  /** Each bullet prefixed with "- ". */
  function Bulleted(bullets: seq<string>): (r: seq<string>)
    ensures |r| == |bullets| && forall k :: 0 <= k < |r| ==> r[k] == "- " + bullets[k]
  {
    seq(|bullets|, k requires 0 <= k < |bullets| => "- " + bullets[k])
  }

  /** The description: the prefixed bullets joined by newlines, or "" without bullets. */
  function Description(bullets: seq<string>): string {
    if |bullets| > 0 then Join(Bulleted(bullets), "\n") else ""
  }

  /** The entry, or the error for a missing header or an empty summary. */
  function LatestEntry(m: Matcher, lines: seq<string>): Result<ChangelogEntry, string> {
    var st := ScanEntry(m, lines);
    if !st.collecting || st.summary == "" then Err(ParseError)
    else Ok(ChangelogEntry(st.version, st.summary, Description(st.bullets)))
  }

  /** parseLatestChangelogEntry, given the scanner's lines: the scan with the header pattern
   *  the function compiles. */
  method ParseLatestChangelogEntry(lines: seq<string>) returns (r: Result<ChangelogEntry, string>)
    ensures r == LatestEntry(Header, lines)
  {
    r := ScanChangelog(Header, lines);
  }

  /** The body of parseLatestChangelogEntry for any header matcher `m`. */
  method ScanChangelog(m: Matcher, lines: seq<string>) returns (r: Result<ChangelogEntry, string>)
    ensures r == LatestEntry(m, lines)
  {
    var version, summary := "", "";
    var collecting := false;
    var bulletLines: seq<string> := [];
    var stopped := false;
    var i := 0;
    while i < |lines| && !stopped
      invariant 0 <= i <= |lines|
      invariant ScanEntry(m, lines[..i]) == Progress(collecting, version, summary, bulletLines, stopped)
    {
      ScanSnoc(m, lines, i);
      stopped, collecting, version, summary, bulletLines :=
        ChangelogLine(m, lines[i], collecting, version, summary, bulletLines);
      i := i + 1;
    }
    if stopped {
      StoppedStays(m, lines, i);
    } else {
      TakeAll(lines, i);
    }
    if !collecting || summary == "" {
      return Err(ParseError);
    }
    var description := "";
    if |bulletLines| > 0 {
      ghost var bullets := bulletLines;
      var k := 0;
      while k < |bulletLines|
        invariant 0 <= k <= |bulletLines| == |bullets|
        invariant forall j :: 0 <= j < k ==> bulletLines[j] == "- " + bullets[j]
        invariant forall j :: k <= j < |bulletLines| ==> bulletLines[j] == bullets[j]
      {
        bulletLines := bulletLines[k := "- " + bulletLines[k]];
        k := k + 1;
      }
      assert bulletLines == Bulleted(bullets);
      description := Join(bulletLines, "\n");
    }
    return Ok(ChangelogEntry(version, summary, description));
  }

  /** One iteration of the scan loop: a '#' line that matches opens the entry or, once it is
   *  open, stops the loop; other '#' lines are skipped; a '-' line adds a bullet while the entry
   *  is open. */
  method ChangelogLine(m: Matcher, line: string, collecting: bool, version: string, summary: string,
                       bullets: seq<string>)
    returns (stop: bool, collecting': bool, version': string, summary': string, bullets': seq<string>)
    ensures Progress(collecting', version', summary', bullets', stop)
      == Step(Progress(collecting, version, summary, bullets, false), Classify(m, line))
  {
    stop, collecting', version', summary', bullets' := false, collecting, version, summary, bullets;
    if HasPrefix(line, "#") {
      var matches := m(line);
      if matches.None? {
        return;
      }
      if !collecting {
        version' := TrimSpace(matches.value.0);
        summary' := TrimSpace(matches.value.1);
        collecting' := true;
        return;
      }
      stop := true;
      return;
    }
    if collecting {
      var trimmed := TrimSpace(line);
      var after := CutPrefix(trimmed, "-");
      if after.Some? {
        var bullet := TrimSpace(after.value);
        bullets' := bullets + [bullet];
      }
    }
  }

  // ---------------------------------------------------------------------------------------
  // Properties of the scan over line kinds
  // ---------------------------------------------------------------------------------------

  /** One more line is one more step. */
  lemma ScanSnoc(m: Matcher, lines: seq<string>, i: nat)
    requires i < |lines|
    ensures ScanEntry(m, lines[..i + 1]) == Step(ScanEntry(m, lines[..i]), Classify(m, lines[i]))
  {
    var ks := Kinds(m, lines[..i + 1]);
    assert ks[..i] == Kinds(m, lines[..i]);
  }

  /** Once the scan has stopped at a second header, no later line changes anything. */
  lemma {:induction false} StoppedStaysKinds(ks: seq<LineKind>, i: nat)
    requires i <= |ks| && Scan(ks[..i]).stopped
    ensures Scan(ks) == Scan(ks[..i])
    decreases |ks|
  {
    if i < |ks| {
      var init := ks[..|ks| - 1];
      assert init[..i] == ks[..i];
      StoppedStaysKinds(init, i);
    } else {
      assert ks[..i] == ks;
    }
  }

  lemma StoppedStays(m: Matcher, lines: seq<string>, i: nat)
    requires i <= |lines| && ScanEntry(m, lines[..i]).stopped
    ensures ScanEntry(m, lines) == ScanEntry(m, lines[..i])
  {
    assert Kinds(m, lines)[..i] == Kinds(m, lines[..i]);
    StoppedStaysKinds(Kinds(m, lines), i);
  }

  /** Without a heading the scan never opens an entry. */
  lemma {:induction false} NoHeadingIgnored(ks: seq<LineKind>)
    requires forall k :: 0 <= k < |ks| ==> !ks[k].Heading?
    ensures Scan(ks) == Start
  {
    if ks != [] {
      NoHeadingIgnored(ks[..|ks| - 1]);
    }
  }

  /** Kinds before the first heading change nothing. */
  lemma {:induction false} PrefixIgnoredKinds(pre: seq<LineKind>, ks: seq<LineKind>)
    requires forall k :: 0 <= k < |pre| ==> !pre[k].Heading?
    ensures Scan(pre + ks) == Scan(ks)
    decreases |ks|
  {
    if ks == [] {
      assert pre + ks == pre;
      NoHeadingIgnored(pre);
    } else {
      var init := ks[..|ks| - 1];
      PrefixIgnoredKinds(pre, init);
      assert (pre + ks)[..|pre + ks| - 1] == pre + init;
    }
  }

  /** The texts of the bullets among `ks`, in order. */
  function BulletTexts(ks: seq<LineKind>): seq<string> {
    if ks == [] then []
    else BulletTexts(ks[..|ks| - 1]) + (if ks[|ks| - 1].Bullet? then [ks[|ks| - 1].text] else [])
  }

  /** The variables once the heading `h` has been read and `bullets` collected since. */
  function Opened(h: LineKind, bullets: seq<string>): Progress
    requires h.Heading?
  {
    Progress(true, h.version, h.summary, bullets, false)
  }

  /** After the first heading at j, while no other heading comes, the entry is open with that
   *  heading's groups and the bullets since. */
  lemma {:induction false} CollectingAfterHeading(ks: seq<LineKind>, j: nat, e: nat)
    requires j < e <= |ks| && ks[j].Heading?
    requires forall k :: 0 <= k < e && k != j ==> !ks[k].Heading?
    ensures Scan(ks[..e]) == Opened(ks[j], BulletTexts(ks[j + 1..e]))
    decreases e
  {
    if e == j + 1 {
      OpenAtHeading(ks, j);
    } else {
      CollectingAfterHeading(ks, j, e - 1);
      CollectOne(ks, j, e);
    }
  }

  lemma OpenAtHeading(ks: seq<LineKind>, j: nat)
    requires j < |ks| && ks[j].Heading?
    requires forall k :: 0 <= k < j ==> !ks[k].Heading?
    ensures Scan(ks[..j + 1]) == Opened(ks[j], BulletTexts(ks[j + 1..j + 1]))
  {
    assert ks[..j + 1][..j] == ks[..j];
    NoHeadingIgnored(ks[..j]);
    assert ks[j + 1..j + 1] == [];
  }

  lemma CollectOne(ks: seq<LineKind>, j: nat, e: nat)
    requires j + 1 < e <= |ks| && ks[j].Heading? && !ks[e - 1].Heading?
    requires Scan(ks[..e - 1]) == Opened(ks[j], BulletTexts(ks[j + 1..e - 1]))
    ensures Scan(ks[..e]) == Opened(ks[j], BulletTexts(ks[j + 1..e]))
  {
    assert ks[..e][..e - 1] == ks[..e - 1];
    assert ks[j + 1..e][..e - 1 - (j + 1)] == ks[j + 1..e - 1];
  }

  // ---------------------------------------------------------------------------------------
  // Properties of parseLatestChangelogEntry
  // ---------------------------------------------------------------------------------------

  /** A changelog without a matching header is an error. */
  lemma NoHeaderFails(m: Matcher, lines: seq<string>)
    requires forall k :: 0 <= k < |lines| ==> !IsHeaderLine(m, lines[k])
    ensures LatestEntry(m, lines) == Err(ParseError)
  {
    NoHeadingIgnored(Kinds(m, lines));
  }

  /** Lines before the first header, however many bullets they look like, change nothing. */
  lemma PrefixIgnored(m: Matcher, pre: seq<string>, lines: seq<string>)
    requires forall k :: 0 <= k < |pre| ==> !IsHeaderLine(m, pre[k])
    ensures ScanEntry(m, pre + lines) == ScanEntry(m, lines)
    ensures LatestEntry(m, pre + lines) == LatestEntry(m, lines)
  {
    KindsAppend(m, pre, lines);
    PrefixIgnoredKinds(Kinds(m, pre), Kinds(m, lines));
  }

  /** Classifying two runs of lines one after the other is classifying their concatenation. */
  lemma KindsAppend(m: Matcher, a: seq<string>, b: seq<string>)
    ensures Kinds(m, a + b) == Kinds(m, a) + Kinds(m, b)
  {
    var ks, kab := Kinds(m, a + b), Kinds(m, a) + Kinds(m, b);
    forall k | 0 <= k < |ks|
      ensures ks[k] == kab[k]
    {
      if k < |a| {
        assert (a + b)[k] == a[k];
      } else {
        assert (a + b)[k] == b[k - |a|];
      }
    }
  }

  /** The bullets the lines between two headers contribute: each line that does not start with
   *  '#' and whose trimmed form starts with '-' gives its trimmed remainder, in order. */
  function BulletsOf(lines: seq<string>): seq<string> {
    if lines == [] then [] else BulletsOf(lines[..|lines| - 1]) + BulletOf(lines[|lines| - 1])
  }

  function BulletOf(line: string): seq<string> {
    if HasPrefix(line, "#") then []
    else
      match CutPrefix(TrimSpace(line), "-")
      case Some(after) => [TrimSpace(after)]
      case None => []
  }

  /** Whatever the matcher, the bullets the scan collects from some lines are BulletsOf them. */
  lemma {:induction false} BulletTextsOfLines(m: Matcher, lines: seq<string>)
    ensures BulletTexts(Kinds(m, lines)) == BulletsOf(lines)
  {
    if lines != [] {
      var init := lines[..|lines| - 1];
      BulletTextsOfLines(m, init);
      assert Kinds(m, lines)[..|lines| - 1] == Kinds(m, init);
    }
  }

  /**
   * The whole result: with the first header at j and the next one at `end` (or none, end being
   * the number of lines), the entry holds that header's trimmed groups and the description of
   * the bullets between the two; it is an error exactly when the trimmed summary is empty.
   * Nothing after the second header matters.
   */
  lemma LatestEntryBetweenHeaders(m: Matcher, lines: seq<string>, j: nat, end: nat)
    requires j < end <= |lines| && IsHeaderLine(m, lines[j])
    requires forall k :: 0 <= k < end && k != j ==> !IsHeaderLine(m, lines[k])
    requires end < |lines| ==> IsHeaderLine(m, lines[end])
    ensures var (g1, g2) := m(lines[j]).value;
      LatestEntry(m, lines) ==
        if TrimSpace(g2) == "" then Err(ParseError)
        else Ok(ChangelogEntry(TrimSpace(g1), TrimSpace(g2), Description(BulletsOf(lines[j + 1..end]))))
  {
    HeadingsBetween(m, lines, j, end);
    ScanBetweenHeaders(m, lines, j, end);
  }

  /** The scan's variables with the first header at j and the next at `end`, if any. */
  lemma ScanBetweenHeaders(m: Matcher, lines: seq<string>, j: nat, end: nat)
    requires j < end <= |lines|
    requires var ks := Kinds(m, lines);
      ks[j].Heading? && (forall k :: 0 <= k < end && k != j ==> !ks[k].Heading?) && (end < |ks| ==> ks[end].Heading?)
    ensures var h := Kinds(m, lines)[j];
      ScanEntry(m, lines) == Progress(true, h.version, h.summary, BulletsOf(lines[j + 1..end]), end < |lines|)
  {
    EntryBetweenHeadings(Kinds(m, lines), j, end);
    BulletsBetween(m, lines, j + 1, end);
  }

  /** The bullets the scan collects from a run of lines are BulletsOf that run. */
  lemma BulletsBetween(m: Matcher, lines: seq<string>, a: nat, b: nat)
    requires a <= b <= |lines|
    ensures BulletTexts(Kinds(m, lines)[a..b]) == BulletsOf(lines[a..b])
  {
    KindsSlice(m, lines, a, b);
    BulletTextsOfLines(m, lines[a..b]);
  }

  /** The header lines of `lines` are the headings of its kinds. */
  lemma HeadingsBetween(m: Matcher, lines: seq<string>, j: nat, end: nat)
    requires j < end <= |lines| && IsHeaderLine(m, lines[j])
    requires forall k :: 0 <= k < end && k != j ==> !IsHeaderLine(m, lines[k])
    requires end < |lines| ==> IsHeaderLine(m, lines[end])
    ensures var ks := Kinds(m, lines);
      (forall k :: 0 <= k < end && k != j ==> !ks[k].Heading?) && (end < |ks| ==> ks[end].Heading?) &&
      ks[j] == Heading(TrimSpace(m(lines[j]).value.0), TrimSpace(m(lines[j]).value.1))
  {
    var ks := Kinds(m, lines);
    forall k | 0 <= k < end && k != j ensures !ks[k].Heading? {
      HeadingIff(m, lines[k]);
    }
    HeadingIff(m, lines[j]);
    if end < |lines| {
      HeadingIff(m, lines[end]);
    }
  }

  /** The kinds of a slice are the slice of the kinds. */
  lemma KindsSlice(m: Matcher, lines: seq<string>, a: nat, b: nat)
    requires a <= b <= |lines|
    ensures Kinds(m, lines)[a..b] == Kinds(m, lines[a..b])
  {
  }

  /** A line is a heading to the scan exactly when it is a header line; its groups, trimmed,
   *  are the heading's. */
  lemma HeadingIff(m: Matcher, line: string)
    ensures Classify(m, line).Heading? <==> IsHeaderLine(m, line)
    ensures IsHeaderLine(m, line) ==>
      Classify(m, line) == Heading(TrimSpace(m(line).value.0), TrimSpace(m(line).value.1))
  {
  }

  /** The scan over kinds with the first heading at j and the next at `end`, if any: the entry
   *  is that heading's, with the bullets between the two. */
  lemma EntryBetweenHeadings(ks: seq<LineKind>, j: nat, end: nat)
    requires j < end <= |ks| && ks[j].Heading?
    requires forall k :: 0 <= k < end && k != j ==> !ks[k].Heading?
    requires end < |ks| ==> ks[end].Heading?
    ensures Scan(ks) == Opened(ks[j], BulletTexts(ks[j + 1..end])).(stopped := end < |ks|)
  {
    CollectingAfterHeading(ks, j, end);
    if end < |ks| {
      StopAtHeading(ks, end);
      StoppedStaysKinds(ks, end + 1);
    } else {
      TakeAll(ks, end);
    }
  }

  /** A heading while the entry is open stops the scan and keeps the entry. */
  lemma StopAtHeading(ks: seq<LineKind>, e: nat)
    requires e < |ks| && ks[e].Heading? && Scan(ks[..e]).collecting && !Scan(ks[..e]).stopped
    ensures Scan(ks[..e + 1]) == Scan(ks[..e]).(stopped := true)
  {
    TakeSnoc(ks, e);
  }

  /** The second header ends the entry: the lines from it on can be dropped. */
  lemma StopsAtSecondHeader(m: Matcher, lines: seq<string>, j: nat, end: nat)
    requires j < end < |lines| && IsHeaderLine(m, lines[j]) && IsHeaderLine(m, lines[end])
    requires forall k :: 0 <= k < end && k != j ==> !IsHeaderLine(m, lines[k])
    ensures LatestEntry(m, lines) == LatestEntry(m, lines[..end])
  {
    ScanStopsAt(m, lines, j, end);
  }

  /** With a second header at `end`, the scan of all lines is the scan of the lines before it,
   *  stopped. */
  lemma ScanStopsAt(m: Matcher, lines: seq<string>, j: nat, end: nat)
    requires j < end < |lines| && IsHeaderLine(m, lines[j]) && IsHeaderLine(m, lines[end])
    requires forall k :: 0 <= k < end && k != j ==> !IsHeaderLine(m, lines[k])
    ensures ScanEntry(m, lines) == ScanEntry(m, lines[..end]).(stopped := true)
  {
    HeadingsBetween(m, lines, j, end);
    StopsAtSecondHeading(Kinds(m, lines), j, end);
    KindsSlice(m, lines, 0, end);
    assert lines[0..end] == lines[..end];
  }

  lemma StopsAtSecondHeading(ks: seq<LineKind>, j: nat, end: nat)
    requires j < end < |ks| && ks[j].Heading? && ks[end].Heading?
    requires forall k :: 0 <= k < end && k != j ==> !ks[k].Heading?
    ensures Scan(ks) == Scan(ks[0..end]).(stopped := true)
  {
    CollectingAfterHeading(ks, j, end);
    StopAtHeading(ks, end);
    StoppedStaysKinds(ks, end + 1);
    assert ks[0..end] == ks[..end];
  }

  /** The description is empty exactly without bullets; otherwise its lines, as the scanner
   *  reads them back, are the bullets each prefixed with "- ". */
  lemma DescriptionLines(bullets: seq<string>)
    requires forall k :: 0 <= k < |bullets| ==> '\n' !in bullets[k]
    requires forall k :: 0 <= k < |bullets| ==> bullets[k] == [] || bullets[k][|bullets[k]| - 1] != '\r'
    ensures Description(bullets) == "" <==> bullets == []
    ensures ScanLines(Description(bullets)) == Bulleted(bullets)
  {
    if bullets != [] {
      var ls := Bulleted(bullets);
      forall k | 0 <= k < |ls| ensures '\n' !in ls[k] && DropCR(ls[k]) == ls[k] {
        assert ls[k] == "- " + bullets[k];
        assert ls[k][0] == '-';
      }
      JoinScan(ls);
    } else {
      assert ScanLines("") == [];
    }
  }

  /** Lines without newlines or final carriage returns, joined by newlines, scan back. */
  lemma {:induction false} JoinScan(ls: seq<string>)
    requires ls != []
    requires forall k :: 0 <= k < |ls| ==> '\n' !in ls[k] && DropCR(ls[k]) == ls[k] && ls[k] != []
    ensures ScanLines(Join(ls, "\n")) == ls
    ensures Join(ls, "\n") != ""
  {
    if |ls| == 1 {
      var l := ls[0];
      assert IndexByte(l, '\n') == None;
    } else {
      JoinScan(ls[1..]);
      ScanLinesCons(ls[0], Join(ls[1..], "\n"));
      assert Join(ls, "\n") == ls[0] + "\n" + Join(ls[1..], "\n");
    }
  }
}
