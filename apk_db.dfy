/**
 * parseAPKDB: Alpine's lib/apk/db/installed.  Records are separated by empty lines; a line
 * `K:value` sets field K of the current record.  Only P (name), V (version), I (installed
 * size in bytes) and S (package size in bytes, used only while no size is known) are read.
 */
module ApkDb {
  import opened Wrappers
  import opened GoText
  import opened Packages
  import opened Stanzas
  import opened SeqFacts

  /** A line the parser reads as `key:value`: its second byte is a colon. */
  predicate IsField(line: string, key: char) {
    |line| >= 2 && line[1] == ':' && line[0] == key
  }

  /** The effect of one non-empty line on the current record. */
  function ApkLine(cur: Pkg, line: string): Pkg {
    if |line| < 2 || line[1] != ':' then cur
    else
      var key, value := line[0], line[2..];
      if key == 'P' then cur.(name := value)
      else if key == 'V' then cur.(version := value)
      else if key == 'I' then
        (match ParseInt(value) case Some(n) => cur.(sizeKB := DivKB(n)) case None => cur)
      else if key == 'S' && cur.sizeKB == 0 then
        (match ParseInt(value) case Some(n) => cur.(sizeKB := DivKB(n)) case None => cur)
      else cur
  }

  function FoldApk(lines: seq<string>, init: Pkg): Pkg {
    if lines == [] then init else ApkLine(FoldApk(lines[..|lines| - 1], init), lines[|lines| - 1])
  }

  /** The record built from the k-th group: it starts empty, typed "apk" except in the first. */
  function ApkRecord(block: seq<string>, k: nat): Pkg {
    FoldApk(block, Pkg("", "", 0, if k == 0 then "" else "apk"))
  }

  function KeepNamed(p: Pkg): seq<Pkg> {
    if p.name != "" then [p] else []
  }

  /** The records of the groups, in order, each kept only when it has a name. */
  function EmitApk(bs: seq<seq<string>>): seq<Pkg> {
    if bs == [] then [] else EmitApk(bs[..|bs| - 1]) + KeepNamed(ApkRecord(bs[|bs| - 1], |bs| - 1))
  }

  /** What parseAPKDB returns for the database bytes `data`. */
  function ApkPackages(data: string): seq<Pkg> {
    EmitApk(Blocks(ScanLines(data)))
  }

  /** The record being built after `lines`: the fold of the last group. */
  function ApkCurrent(lines: seq<string>): Pkg {
    var bs := Blocks(lines);
    ApkRecord(bs[|bs| - 1], |bs| - 1)
  }

  /** The records already reported after `lines`: those of the closed groups. */
  function ApkDone(lines: seq<string>): seq<Pkg> {
    var bs := Blocks(lines);
    EmitApk(bs[..|bs| - 1])
  }

  /** parseAPKDB (main.go): one pass over the lines with a current record. */
  method ParseApkDB(data: string) returns (packages: seq<Pkg>)
    ensures packages == ApkPackages(data)
  {
    var lines := ScanLines(data);
    packages := [];
    var current := Pkg("", "", 0, "");
    var i := 0;
    ApkStart();
    while i < |lines|
      invariant 0 <= i <= |lines|
      invariant packages == ApkDone(lines[..i]) && current == ApkCurrent(lines[..i])
    {
      TakeSnoc(lines, i);
      packages, current := ReadApkLine(lines[..i], lines[i], packages, current);
      i := i + 1;
    }
    TakeAll(lines, i);
    ApkFinal(lines);
    if current.name != "" {
      packages := packages + [current];
    }
  }

  /** One iteration of parseAPKDB's loop: an empty line closes the record, any other line may
   *  set one of its fields. */
  method ReadApkLine(ghost prefix: seq<string>, line: string, packages: seq<Pkg>, current: Pkg)
    returns (packages': seq<Pkg>, current': Pkg)
    requires packages == ApkDone(prefix) && current == ApkCurrent(prefix)
    ensures packages' == ApkDone(prefix + [line]) && current' == ApkCurrent(prefix + [line])
  {
    if line == "" {
      ApkClose(prefix);
      packages' := packages;
      if current.name != "" {
        packages' := packages + [current];
      }
      current' := Pkg("", "", 0, "apk");
    } else {
      ApkExtend(prefix, line);
      packages' := packages;
      current' := ApkFieldLine(line, current);
    }
  }

  /** The handling of a non-empty line in parseAPKDB's loop. */
  method ApkFieldLine(line: string, current: Pkg) returns (pkg: Pkg)
    ensures pkg == ApkLine(current, line)
  {
    pkg := current;
    if |line| >= 2 && line[1] == ':' {
      var key := line[0];
      var value := line[2..];
      if key == 'P' {
        pkg := pkg.(name := value);
      } else if key == 'V' {
        pkg := pkg.(version := value);
      } else if key == 'I' {
        var size := ParseInt(value);
        if size.Some? {
          pkg := pkg.(sizeKB := DivKB(size.value));
        }
      } else if key == 'S' {
        if pkg.sizeKB == 0 {
          var size := ParseInt(value);
          if size.Some? {
            pkg := pkg.(sizeKB := DivKB(size.value));
          }
        }
      }
    }
  }

  lemma ApkStart()
    ensures ApkDone([]) == [] && ApkCurrent([]) == Pkg("", "", 0, "")
  {
  }

  /** An empty line reports the current record if it is named and starts an "apk" record. */
  lemma ApkClose(lines: seq<string>)
    ensures ApkDone(lines + [""]) == ApkDone(lines) + KeepNamed(ApkCurrent(lines))
    ensures ApkCurrent(lines + [""]) == Pkg("", "", 0, "apk")
  {
    var bs := Blocks(lines);
    var next := Blocks(lines + [""]);
    assert (lines + [""])[..|lines|] == lines;
    assert next == bs + [[]];
    assert next[..|next| - 1] == bs;
  }

  /** A non-empty line applies to the current record. */
  lemma ApkExtend(lines: seq<string>, line: string)
    requires line != ""
    ensures ApkDone(lines + [line]) == ApkDone(lines)
    ensures ApkCurrent(lines + [line]) == ApkLine(ApkCurrent(lines), line)
  {
    var bs := Blocks(lines);
    var next := Blocks(lines + [line]);
    var block := bs[|bs| - 1];
    assert (lines + [line])[..|lines|] == lines;
    assert next == bs[..|bs| - 1] + [block + [line]];
    assert next[..|next| - 1] == bs[..|bs| - 1];
    assert |next| == |bs|;
    assert (block + [line])[..|block|] == block;
  }

  /** The end of input reports the last record if it is named. */
  lemma ApkFinal(lines: seq<string>)
    ensures EmitApk(Blocks(lines)) == ApkDone(lines) + KeepNamed(ApkCurrent(lines))
  {
  }

  // ---------------------------------------------------------------------------------------
  // Properties of the records
  // ---------------------------------------------------------------------------------------

  /** At most one record per group, each named; every record after the first is typed "apk". */
  lemma {:induction false} EmitApkShape(bs: seq<seq<string>>)
    ensures |EmitApk(bs)| <= |bs|
    ensures forall k :: 0 <= k < |EmitApk(bs)| ==> EmitApk(bs)[k].name != ""
    ensures forall k :: 0 < k < |EmitApk(bs)| ==> EmitApk(bs)[k].kind == "apk"
    ensures forall k :: 0 <= k < |EmitApk(bs)| ==> EmitApk(bs)[k].kind in {"", "apk"}
  {
    if bs != [] {
      var n := |bs|;
      EmitApkShape(bs[..n - 1]);
      FoldApkKeepsKind(bs[n - 1], Pkg("", "", 0, if n - 1 == 0 then "" else "apk"));
      if n - 1 == 0 {
        assert bs[..n - 1] == [];
      }
    }
  }

  /** A line never changes the record's type. */
  lemma {:induction false} FoldApkKeepsKind(lines: seq<string>, init: Pkg)
    ensures FoldApk(lines, init).kind == init.kind
  {
    if lines != [] {
      FoldApkKeepsKind(lines[..|lines| - 1], init);
    }
  }

  /** The name (P) or version (V) a record holds. */
  function Field(p: Pkg, key: char): string {
    if key == 'P' then p.name else p.version
  }

  /** The record's name is the value of the last P line of its group, its version that of the
   *  last V line. */
  lemma {:induction false} ApkFieldIsLast(lines: seq<string>, init: Pkg, key: char, j: nat)
    requires key == 'P' || key == 'V'
    requires j < |lines| && IsField(lines[j], key)
    requires forall k :: j < k < |lines| ==> !IsField(lines[k], key)
    ensures Field(FoldApk(lines, init), key) == lines[j][2..]
  {
    var n := |lines|;
    if j < n - 1 {
      ApkFieldIsLast(lines[..n - 1], init, key, j);
      assert lines[..n - 1][j] == lines[j];
      assert forall k :: j < k < n - 1 ==> lines[..n - 1][k] == lines[k];
    }
  }

  /** Without a P (or V) line the record keeps its initial name (or version): fields never carry
   *  over from one group to the next. */
  lemma {:induction false} ApkFieldAbsent(lines: seq<string>, init: Pkg, key: char)
    requires key == 'P' || key == 'V'
    requires forall k :: 0 <= k < |lines| ==> !IsField(lines[k], key)
    ensures Field(FoldApk(lines, init), key) == Field(init, key)
  {
    if lines != [] {
      var n := |lines|;
      assert forall k :: 0 <= k < n - 1 ==> lines[..n - 1][k] == lines[k];
      ApkFieldAbsent(lines[..n - 1], init, key);
    }
  }

  /** The last I line whose value parses gives the size.  S lines after it are ignored when
   *  its kilobyte count is non-zero; when it is 0 (under 1024 bytes) a later S line would
   *  still set the size, so none may give a non-zero count. */
  lemma {:induction false} ApkInstalledSizeWins(lines: seq<string>, init: Pkg, j: nat)
    requires j < |lines| && IsField(lines[j], 'I')
    requires ParseInt(lines[j][2..]).Some?
    requires forall k :: j < k < |lines| ==> !(IsField(lines[k], 'I') && ParseInt(lines[k][2..]).Some?)
    requires DivKB(ParseInt(lines[j][2..]).value) == 0 ==> forall k :: j < k < |lines| ==> !SetsSize(lines[k])
    ensures FoldApk(lines, init).sizeKB == DivKB(ParseInt(lines[j][2..]).value)
  {
    var n := |lines|;
    if j < n - 1 {
      ApkInstalledSizeWins(lines[..n - 1], init, j);
      assert lines[..n - 1][j] == lines[j];
      assert forall k :: j < k < n - 1 ==> lines[..n - 1][k] == lines[k];
    }
  }

  /** Without a parsable I or S line the size stays as it was (0 for a fresh record). */
  lemma {:induction false} ApkSizeNeedsSizeLine(lines: seq<string>, init: Pkg)
    requires forall k :: 0 <= k < |lines| ==>
      !((IsField(lines[k], 'I') || IsField(lines[k], 'S')) && ParseInt(lines[k][2..]).Some?)
    ensures FoldApk(lines, init).sizeKB == init.sizeKB
  {
    if lines != [] {
      var n := |lines|;
      assert forall k :: 0 <= k < n - 1 ==> lines[..n - 1][k] == lines[k];
      ApkSizeNeedsSizeLine(lines[..n - 1], init);
    }
  }

  /** An S line that parses to a non-zero kilobyte count, the kind that fixes the size. */
  predicate SetsSize(line: string) {
    IsField(line, 'S') && ParseInt(line[2..]).Some? && DivKB(ParseInt(line[2..]).value) != 0
  }

  /** Without a parsable I line and without an S line that gives a non-zero count, a record
   *  whose size is 0 keeps size 0. */
  lemma {:induction false} ApkSizeZero(lines: seq<string>, init: Pkg)
    requires init.sizeKB == 0
    requires forall k :: 0 <= k < |lines| ==> !(IsField(lines[k], 'I') && ParseInt(lines[k][2..]).Some?)
    requires forall k :: 0 <= k < |lines| ==> !SetsSize(lines[k])
    ensures FoldApk(lines, init).sizeKB == 0
  {
    if lines != [] {
      var n := |lines|;
      assert forall k :: 0 <= k < n - 1 ==> lines[..n - 1][k] == lines[k];
      ApkSizeZero(lines[..n - 1], init);
    }
  }

  /** With no parsable I line, the first S line giving a non-zero kilobyte count sets the size
   *  of a record that had none, and every later S line is ignored. */
  lemma {:induction false} ApkPackageSizeFallback(lines: seq<string>, init: Pkg, j: nat)
    requires init.sizeKB == 0
    requires forall k :: 0 <= k < |lines| ==> !(IsField(lines[k], 'I') && ParseInt(lines[k][2..]).Some?)
    requires j < |lines| && SetsSize(lines[j])
    requires forall k :: 0 <= k < j ==> !SetsSize(lines[k])
    ensures FoldApk(lines, init).sizeKB == DivKB(ParseInt(lines[j][2..]).value)
  {
    var n := |lines|;
    var prefix := lines[..n - 1];
    assert forall k :: 0 <= k < n - 1 ==> prefix[k] == lines[k];
    if j == n - 1 {
      ApkSizeZero(prefix, init);
      SizeLineSets(FoldApk(prefix, init), lines[j]);
    } else {
      ApkPackageSizeFallback(prefix, init, j);
      SizeKept(FoldApk(prefix, init), lines[n - 1]);
    }
  }

  /** An S line giving a non-zero count sets the size of a record that has none. */
  lemma SizeLineSets(cur: Pkg, line: string)
    requires cur.sizeKB == 0 && SetsSize(line)
    ensures ApkLine(cur, line).sizeKB == DivKB(ParseInt(line[2..]).value)
  {
  }

  /** Once the size is non-zero only a parsable I line changes it. */
  lemma SizeKept(cur: Pkg, line: string)
    requires cur.sizeKB != 0 && !(IsField(line, 'I') && ParseInt(line[2..]).Some?)
    ensures ApkLine(cur, line).sizeKB == cur.sizeKB
  {
  }

  // ---------------------------------------------------------------------------------------
  // Example: an S line after an I line under one kilobyte
  // ---------------------------------------------------------------------------------------

  /** An I line under 1024 bytes leaves the size at 0, so a later S line still sets it: the S
   *  line is consulted whenever the size is 0, not only when no I line is present. */
  lemma SizeAfterSmallInstalledSize()
    ensures FoldApk(["I:100", "S:2048"], Pkg("", "", 0, "apk")).sizeKB == 2
  {
    var lines := ["I:100", "S:2048"];
    assert lines[0][2..] == "100" && lines[1][2..] == "2048";
    SmallSizesParse();
    assert lines[..1] == ["I:100"];
  }

  lemma SmallSizesParse()
    ensures ParseInt("100") == Some(100) && ParseInt("2048") == Some(2048)
  {
    assert FormatNat(1) == "1" && FormatNat(10) == "10" && FormatNat(100) == "100";
    assert FormatNat(2) == "2" && FormatNat(20) == "20" && FormatNat(204) == "204";
    assert FormatNat(2048) == "2048";
    ParseFormatRoundTrip(100);
    ParseFormatRoundTrip(2048);
  }

  // ---------------------------------------------------------------------------------------
  // Example: a database holding busybox
  // ---------------------------------------------------------------------------------------

  lemma ParseInt768000()
    ensures ParseInt("768000") == Some(768000)
  {
    assert FormatNat(7) == "7";
    assert FormatNat(76) == "76";
    assert FormatNat(768) == "768";
    assert FormatNat(7680) == "7680";
    assert FormatNat(76800) == "76800";
    assert FormatNat(768000) == "768000";
    ParseFormatRoundTrip(768000);
  }

  /** The first group's record keeps an empty type; 768000 bytes are 750 kilobytes. */
  lemma BusyboxRecord()
    ensures ApkRecord(["P:busybox", "V:1.37.0-r50", "I:768000"], 0) == Pkg("busybox", "1.37.0-r50", 750, "")
  {
    var lines := ["P:busybox", "V:1.37.0-r50", "I:768000"];
    ParseInt768000();
    assert lines[2][2..] == "768000";
    var p0 := Pkg("", "", 0, "");
    ApkFieldIsLast(lines, p0, 'P', 0);
    ApkFieldIsLast(lines, p0, 'V', 1);
    ApkInstalledSizeWins(lines, p0, 2);
    FoldApkKeepsKind(lines, p0);
  }

  lemma BusyboxDatabase()
    ensures EmitApk(Blocks(["P:busybox", "V:1.37.0-r50", "I:768000"])) == [Pkg("busybox", "1.37.0-r50", 750, "")]
  {
    var lines := ["P:busybox", "V:1.37.0-r50", "I:768000"];
    BlocksWithoutBlank(lines);
    BusyboxRecord();
    var none: seq<seq<string>> := [];
    assert [lines][..0] == none;
  }
}
