/**
 * parseDpkgDB: Debian's var/lib/dpkg/status.  Records are separated by empty lines; a line
 * `Key: value` sets a field of the current record, and lines starting with a space continue the
 * previous field and are skipped.  Package, Version, Installed-Size (already in kilobytes) and
 * Status are read; a record is reported only when it has a name and its Status value contains
 * the text "installed".
 */
module DpkgDb {
  import opened Wrappers
  import opened GoText
  import opened Packages
  import opened Stanzas
  import opened SeqFacts

  /** The record being built and whether its Status said it is installed. */
  datatype DpkgState = DpkgState(pkg: Pkg, installed: bool)

  /** A field line split at its first ": "; None for continuation lines and lines without one. */
  function SplitField(line: string): (r: Option<(string, string)>)
    ensures r.Some? <==> !HasPrefix(line, " ") && Contains(line, ": ")
    ensures r.Some? ==> line == r.value.0 + ": " + r.value.1
  {
    if HasPrefix(line, " ") then None
    else
      match Index(line, ": ")
      case None => None
      case Some(idx) =>
        assert line == line[..idx] + line[idx..idx + 2] + line[idx + 2..];
        Some((line[..idx], line[idx + 2..]))
  }

  /** `line` is a field line with key `key`. */
  predicate IsKey(line: string, key: string) {
    SplitField(line).Some? && SplitField(line).value.0 == key
  }

  /** The value of a field line. */
  function ValueOf(line: string): string
    requires SplitField(line).Some?
  {
    SplitField(line).value.1
  }

  /** What a non-empty line sets: one of the four fields read, or nothing (other keys,
   *  continuation lines, and an Installed-Size that does not parse). */
  datatype Field = Name(name: string) | Version(version: string) | Size(kb: int) | Status(installed: bool)
                 | NoField

  function FieldOf(line: string): Field {
    match SplitField(line)
    case None => NoField
    case Some((key, value)) =>
      if key == "Package" then Name(value)
      else if key == "Version" then Version(value)
      else if key == "Installed-Size" then
        (match ParseInt(value) case Some(n) => Size(n) case None => NoField)
      else if key == "Status" then Status(Contains(value, "installed"))
      else NoField
  }

  function SetField(st: DpkgState, f: Field): DpkgState {
    match f
    case Name(v) => st.(pkg := st.pkg.(name := v))
    case Version(v) => st.(pkg := st.pkg.(version := v))
    case Size(n) => st.(pkg := st.pkg.(sizeKB := n))
    case Status(b) => st.(installed := b)
    case NoField => st
  }

  /** The field each line sets, in order. */
  function Fields(lines: seq<string>): (fs: seq<Field>)
    ensures |fs| == |lines| && forall k :: 0 <= k < |lines| ==> fs[k] == FieldOf(lines[k])
  {
    seq(|lines|, k requires 0 <= k < |lines| => FieldOf(lines[k]))
  }

  function FoldFields(fs: seq<Field>, init: DpkgState): DpkgState {
    if fs == [] then init else SetField(FoldFields(fs[..|fs| - 1], init), fs[|fs| - 1])
  }

  /** The record after the non-empty lines of a group. */
  function FoldDpkg(lines: seq<string>, init: DpkgState): DpkgState {
    FoldFields(Fields(lines), init)
  }

  /** The state built from the k-th group: empty, not installed, typed "deb" except in the first. */
  function DpkgRecord(block: seq<string>, k: nat): DpkgState {
    FoldDpkg(block, DpkgState(Pkg("", "", 0, if k == 0 then "" else "deb"), false))
  }

  function KeepInstalled(st: DpkgState): seq<Pkg> {
    if st.pkg.name != "" && st.installed then [st.pkg] else []
  }

  /** The records of the groups, in order, each kept only when named and installed. */
  function EmitDpkg(bs: seq<seq<string>>): seq<Pkg> {
    if bs == [] then [] else EmitDpkg(bs[..|bs| - 1]) + KeepInstalled(DpkgRecord(bs[|bs| - 1], |bs| - 1))
  }

  /** What parseDpkgDB returns for the status file's bytes `data`. */
  function DpkgPackages(data: string): seq<Pkg> {
    EmitDpkg(Blocks(ScanLines(data)))
  }

  /** The record being built after `lines`: the fold of the last group. */
  function DpkgCurrent(lines: seq<string>): DpkgState {
    var bs := Blocks(lines);
    DpkgRecord(bs[|bs| - 1], |bs| - 1)
  }

  /** The records already reported after `lines`: those of the closed groups. */
  function DpkgDone(lines: seq<string>): seq<Pkg> {
    var bs := Blocks(lines);
    EmitDpkg(bs[..|bs| - 1])
  }

  /** parseDpkgDB (main.go): one pass over the lines with a current record and its status. */
  method ParseDpkgDB(data: string) returns (packages: seq<Pkg>)
    ensures packages == DpkgPackages(data)
  {
    var lines := ScanLines(data);
    packages := [];
    var current := Pkg("", "", 0, "");
    var isInstalled := false;
    var i := 0;
    DpkgStart();
    while i < |lines|
      invariant 0 <= i <= |lines|
      invariant packages == DpkgDone(lines[..i]) && DpkgState(current, isInstalled) == DpkgCurrent(lines[..i])
    {
      TakeSnoc(lines, i);
      packages, current, isInstalled := DpkgLine(lines[..i], lines[i], packages, current, isInstalled);
      i := i + 1;
    }
    TakeAll(lines, i);
    DpkgFinal(lines);
    if current.name != "" && isInstalled {
      packages := packages + [current];
    }
  }

  /** One iteration of parseDpkgDB's loop: an empty line closes the record, any other line
   *  sets its field. */
  method DpkgLine(ghost prefix: seq<string>, line: string, packages: seq<Pkg>, current: Pkg, isInstalled: bool)
    returns (packages': seq<Pkg>, current': Pkg, isInstalled': bool)
    requires packages == DpkgDone(prefix) && DpkgState(current, isInstalled) == DpkgCurrent(prefix)
    ensures packages' == DpkgDone(prefix + [line]) && DpkgState(current', isInstalled') == DpkgCurrent(prefix + [line])
  {
    if line == "" {
      DpkgClose(prefix);
      packages' := packages;
      if current.name != "" && isInstalled {
        packages' := packages + [current];
      }
      current', isInstalled' := Pkg("", "", 0, "deb"), false;
    } else {
      DpkgExtend(prefix, line);
      packages' := packages;
      current', isInstalled' := DpkgFieldLine(line, current, isInstalled);
    }
  }

  lemma DpkgStart()
    ensures DpkgDone([]) == [] && DpkgCurrent([]) == DpkgState(Pkg("", "", 0, ""), false)
  {
    assert Fields([]) == [];
  }

  /** An empty line reports the current record if it qualifies and starts a "deb" record. */
  lemma DpkgClose(lines: seq<string>)
    ensures DpkgDone(lines + [""]) == DpkgDone(lines) + KeepInstalled(DpkgCurrent(lines))
    ensures DpkgCurrent(lines + [""]) == DpkgState(Pkg("", "", 0, "deb"), false)
  {
    var bs := Blocks(lines);
    var next := Blocks(lines + [""]);
    assert (lines + [""])[..|lines|] == lines;
    assert next == bs + [[]];
    assert next[..|next| - 1] == bs;
    assert Fields([]) == [];
  }

  /** A non-empty line sets its field of the current record. */
  lemma DpkgExtend(lines: seq<string>, line: string)
    requires line != ""
    ensures DpkgDone(lines + [line]) == DpkgDone(lines)
    ensures DpkgCurrent(lines + [line]) == SetField(DpkgCurrent(lines), FieldOf(line))
  {
    var bs := Blocks(lines);
    var next := Blocks(lines + [line]);
    var block := bs[|bs| - 1];
    assert (lines + [line])[..|lines|] == lines;
    assert next == bs[..|bs| - 1] + [block + [line]];
    assert next[..|next| - 1] == bs[..|bs| - 1];
    assert |next| == |bs|;
    FoldSnoc(block, line, DpkgState(Pkg("", "", 0, if |bs| - 1 == 0 then "" else "deb"), false));
  }

  /** The end of input reports the last record if it qualifies. */
  lemma DpkgFinal(lines: seq<string>)
    ensures EmitDpkg(Blocks(lines)) == DpkgDone(lines) + KeepInstalled(DpkgCurrent(lines))
  {
  }

  /** The handling of a non-empty line in parseDpkgDB's loop. */
  method DpkgFieldLine(line: string, current: Pkg, isInstalled: bool) returns (pkg: Pkg, installed: bool)
    ensures DpkgState(pkg, installed) == SetField(DpkgState(current, isInstalled), FieldOf(line))
  {
    pkg, installed := current, isInstalled;
    if !HasPrefix(line, " ") {
      var idx := Index(line, ": ");
      if idx.Some? {
        var key := line[..idx.value];
        var value := line[idx.value + 2..];
        if key == "Package" {
          pkg := pkg.(name := value);
        } else if key == "Version" {
          pkg := pkg.(version := value);
        } else if key == "Installed-Size" {
          var size := ParseInt(value);
          if size.Some? {
            pkg := pkg.(sizeKB := size.value);
          }
        } else if key == "Status" {
          installed := Contains(value, "installed");
        }
      }
    }
  }

  // ---------------------------------------------------------------------------------------
  // Properties of the records
  // ---------------------------------------------------------------------------------------

  /** One more line sets one more field. */
  lemma FoldSnoc(block: seq<string>, line: string, init: DpkgState)
    ensures FoldDpkg(block + [line], init) == SetField(FoldDpkg(block, init), FieldOf(line))
  {
    var fs := Fields(block + [line]);
    assert fs[..|block|] == Fields(block);
  }

  /** A line never changes the record's type. */
  lemma {:induction false} FoldDpkgKeepsKind(lines: seq<string>, init: DpkgState)
    ensures FoldDpkg(lines, init).pkg.kind == init.pkg.kind
  {
    FieldsKeepKind(Fields(lines), init);
  }

  lemma {:induction false} FieldsKeepKind(fs: seq<Field>, init: DpkgState)
    ensures FoldFields(fs, init).pkg.kind == init.pkg.kind
  {
    if fs != [] {
      FieldsKeepKind(fs[..|fs| - 1], init);
    }
  }

  /** At most one record per group, each named; every record after the first is typed "deb". */
  lemma {:induction false} EmitDpkgShape(bs: seq<seq<string>>)
    ensures |EmitDpkg(bs)| <= |bs|
    ensures forall k :: 0 <= k < |EmitDpkg(bs)| ==> EmitDpkg(bs)[k].name != ""
    ensures forall k :: 0 < k < |EmitDpkg(bs)| ==> EmitDpkg(bs)[k].kind == "deb"
    ensures forall k :: 0 <= k < |EmitDpkg(bs)| ==> EmitDpkg(bs)[k].kind in {"", "deb"}
  {
    if bs != [] {
      var n := |bs|;
      EmitDpkgShape(bs[..n - 1]);
      RecordKind(bs[n - 1], n - 1);
      if n - 1 == 0 {
        assert bs[..n - 1] == [];
      }
      KeepShape(EmitDpkg(bs[..n - 1]), DpkgRecord(bs[n - 1], n - 1), n - 1);
    }
  }

  lemma RecordKind(block: seq<string>, k: nat)
    ensures DpkgRecord(block, k).pkg.kind == if k == 0 then "" else "deb"
  {
    FoldDpkgKeepsKind(block, DpkgState(Pkg("", "", 0, if k == 0 then "" else "deb"), false));
  }

  /** Appending the k-th group's record keeps the shape of the records before it. */
  lemma KeepShape(done: seq<Pkg>, st: DpkgState, k: nat)
    requires |done| <= k && (k == 0 ==> done == [])
    requires forall i :: 0 <= i < |done| ==> done[i].name != ""
    requires forall i :: 0 < i < |done| ==> done[i].kind == "deb"
    requires forall i :: 0 <= i < |done| ==> done[i].kind in {"", "deb"}
    requires st.pkg.kind == if k == 0 then "" else "deb"
    ensures var ps := done + KeepInstalled(st);
      |ps| <= k + 1 && (forall i :: 0 <= i < |ps| ==> ps[i].name != "") &&
      (forall i :: 0 < i < |ps| ==> ps[i].kind == "deb") && (forall i :: 0 <= i < |ps| ==> ps[i].kind in {"", "deb"})
  {
  }

  /** The four fields a record takes from its lines. */
  datatype Tag = NameTag | VersionTag | SizeTag | StatusTag

  predicate Sets(f: Field, t: Tag) {
    match t
    case NameTag => f.Name?
    case VersionTag => f.Version?
    case SizeTag => f.Size?
    case StatusTag => f.Status?
  }

  /** A record's value for one of the fields. */
  function Read(st: DpkgState, t: Tag): Field {
    match t
    case NameTag => Name(st.pkg.name)
    case VersionTag => Version(st.pkg.version)
    case SizeTag => Size(st.pkg.sizeKB)
    case StatusTag => Status(st.installed)
  }

  lemma SetFieldRead(st: DpkgState, f: Field, t: Tag)
    ensures Read(SetField(st, f), t) == if Sets(f, t) then f else Read(st, t)
  {
  }

  /** Each field holds what the last line setting it said. */
  lemma {:induction false} LastFieldWins(fs: seq<Field>, init: DpkgState, j: nat, t: Tag)
    requires j < |fs| && Sets(fs[j], t)
    requires forall k :: j < k < |fs| ==> !Sets(fs[k], t)
    ensures Read(FoldFields(fs, init), t) == fs[j]
  {
    var n := |fs|;
    var init' := fs[..n - 1];
    SetFieldRead(FoldFields(init', init), fs[n - 1], t);
    if j < n - 1 {
      assert init'[j] == fs[j];
      assert forall k :: j < k < n - 1 ==> init'[k] == fs[k];
      LastFieldWins(init', init, j, t);
    }
  }

  /** A field no line sets keeps its initial value. */
  lemma {:induction false} FieldUnset(fs: seq<Field>, init: DpkgState, t: Tag)
    requires forall k :: 0 <= k < |fs| ==> !Sets(fs[k], t)
    ensures Read(FoldFields(fs, init), t) == Read(init, t)
  {
    if fs != [] {
      var n := |fs|;
      var init' := fs[..n - 1];
      assert forall k :: 0 <= k < n - 1 ==> init'[k] == fs[k];
      FieldUnset(init', init, t);
      SetFieldRead(FoldFields(init', init), fs[n - 1], t);
    }
  }

  /** The field of a line, by its key. */
  lemma FieldOfLine(line: string)
    ensures IsKey(line, "Package") <==> FieldOf(line).Name?
    ensures IsKey(line, "Package") ==> FieldOf(line).name == ValueOf(line)
    ensures IsKey(line, "Version") <==> FieldOf(line).Version?
    ensures IsKey(line, "Version") ==> FieldOf(line).version == ValueOf(line)
    ensures IsKey(line, "Installed-Size") && ParseInt(ValueOf(line)).Some? <==> FieldOf(line).Size?
    ensures FieldOf(line).Size? ==> FieldOf(line).kb == ParseInt(ValueOf(line)).value
    ensures IsKey(line, "Status") <==> FieldOf(line).Status?
    ensures IsKey(line, "Status") ==> FieldOf(line).installed == Contains(ValueOf(line), "installed")
  {
  }

  /** Whether a record is installed is decided by the last Status line of its group: whether
   *  that line's value contains "installed". */
  lemma DpkgStatusIsLast(lines: seq<string>, init: DpkgState, j: nat)
    requires j < |lines| && IsKey(lines[j], "Status")
    requires forall k :: j < k < |lines| ==> !IsKey(lines[k], "Status")
    ensures FoldDpkg(lines, init).installed == Contains(ValueOf(lines[j]), "installed")
  {
    var fs := Fields(lines);
    forall k | j <= k < |lines| ensures IsKey(lines[k], "Status") <==> Sets(fs[k], StatusTag) {
      FieldOfLine(lines[k]);
    }
    FieldOfLine(lines[j]);
    LastFieldWins(fs, init, j, StatusTag);
  }

  /** A group without a Status line is never installed. */
  lemma DpkgStatusAbsent(lines: seq<string>, init: DpkgState)
    requires forall k :: 0 <= k < |lines| ==> !IsKey(lines[k], "Status")
    ensures FoldDpkg(lines, init).installed == init.installed
  {
    var fs := Fields(lines);
    forall k | 0 <= k < |lines| ensures !Sets(fs[k], StatusTag) {
      FieldOfLine(lines[k]);
    }
    FieldUnset(fs, init, StatusTag);
  }

  /** The record's name is the value of the last Package line of its group. */
  lemma DpkgNameIsLast(lines: seq<string>, init: DpkgState, j: nat)
    requires j < |lines| && IsKey(lines[j], "Package")
    requires forall k :: j < k < |lines| ==> !IsKey(lines[k], "Package")
    ensures FoldDpkg(lines, init).pkg.name == ValueOf(lines[j])
  {
    var fs := Fields(lines);
    forall k | j <= k < |lines| ensures IsKey(lines[k], "Package") <==> Sets(fs[k], NameTag) {
      FieldOfLine(lines[k]);
    }
    FieldOfLine(lines[j]);
    LastFieldWins(fs, init, j, NameTag);
  }

  /** The record's version is the value of the last Version line of its group. */
  lemma DpkgVersionIsLast(lines: seq<string>, init: DpkgState, j: nat)
    requires j < |lines| && IsKey(lines[j], "Version")
    requires forall k :: j < k < |lines| ==> !IsKey(lines[k], "Version")
    ensures FoldDpkg(lines, init).pkg.version == ValueOf(lines[j])
  {
    var fs := Fields(lines);
    forall k | j <= k < |lines| ensures IsKey(lines[k], "Version") <==> Sets(fs[k], VersionTag) {
      FieldOfLine(lines[k]);
    }
    FieldOfLine(lines[j]);
    LastFieldWins(fs, init, j, VersionTag);
  }

  /** The size is the value of the last Installed-Size line that parses, taken as kilobytes. */
  lemma DpkgSizeIsLastParsable(lines: seq<string>, init: DpkgState, j: nat)
    requires j < |lines| && IsKey(lines[j], "Installed-Size") && ParseInt(ValueOf(lines[j])).Some?
    requires forall k :: j < k < |lines| ==>
      !(IsKey(lines[k], "Installed-Size") && ParseInt(ValueOf(lines[k])).Some?)
    ensures FoldDpkg(lines, init).pkg.sizeKB == ParseInt(ValueOf(lines[j])).value
  {
    var fs := Fields(lines);
    forall k | j < k < |lines| ensures !Sets(fs[k], SizeTag) {
      FieldOfLine(lines[k]);
    }
    FieldOfLine(lines[j]);
    LastFieldWins(fs, init, j, SizeTag);
  }

  /** Without a parsable Installed-Size line the size stays as it was (0 for a fresh record). */
  lemma DpkgSizeNeedsSizeLine(lines: seq<string>, init: DpkgState)
    requires forall k :: 0 <= k < |lines| ==>
      !(IsKey(lines[k], "Installed-Size") && ParseInt(ValueOf(lines[k])).Some?)
    ensures FoldDpkg(lines, init).pkg.sizeKB == init.pkg.sizeKB
  {
    var fs := Fields(lines);
    forall k | 0 <= k < |lines| ensures !Sets(fs[k], SizeTag) {
      FieldOfLine(lines[k]);
    }
    FieldUnset(fs, init, SizeTag);
  }

  /** A continuation line (one starting with a space) sets nothing, whatever it holds. */
  lemma ContinuationIgnored(line: string)
    requires |line| > 0 && line[0] == ' '
    ensures FieldOf(line) == NoField
  {
    assert HasPrefix(line, " ");
  }

  // ---------------------------------------------------------------------------------------
  // Status values
  // ---------------------------------------------------------------------------------------

  /** The status test is a substring test: "install ok installed" passes ... */
  lemma InstalledStatus()
    ensures Contains("install ok installed", "installed")
  {
    var s := "install ok installed";
    assert HasPrefix(s[11..], "installed");
    ContainsSuffix(s, 11, "installed");
  }

  /** ... and so do "not-installed" and "half-installed", which dpkg uses for packages that are
   *  not (fully) installed. */
  lemma NotInstalledStatusPasses()
    ensures Contains("deinstall ok not-installed", "installed")
    ensures Contains("install reinstreq half-installed", "installed")
  {
    var s := "deinstall ok not-installed";
    assert HasPrefix(s[17..], "installed");
    ContainsSuffix(s, 17, "installed");
    var t := "install reinstreq half-installed";
    assert HasPrefix(t[23..], "installed");
    ContainsSuffix(t, 23, "installed");
  }

  /** A status without the word, such as a removed package's, fails. */
  lemma ConfigFilesStatusFails()
    ensures !Contains("deinstall ok config-files", "installed")
  {
    var s := "deinstall ok config-files";
    forall j | 0 <= j <= |s|
      ensures !HasPrefix(s[j..], "installed")
    {
      if j + 9 <= |s| {
        assert s[j..][..9][0] == s[j] && s[j..][..9][7] == s[j + 7];
      }
    }
    NotContains(s, "installed");
  }

  /** A suffix's occurrence is an occurrence. */
  lemma {:induction false} ContainsSuffix(s: string, j: nat, sub: string)
    requires j <= |s| && HasPrefix(s[j..], sub)
    ensures Contains(s, sub)
    decreases j
  {
    if j > 0 {
      assert s[1..][j - 1..] == s[j..];
      ContainsSuffix(s[1..], j - 1, sub);
    }
  }

  /** No suffix starts with `sub`, so `s` does not contain it. */
  lemma {:induction false} NotContains(s: string, sub: string)
    requires forall j :: 0 <= j <= |s| ==> !HasPrefix(s[j..], sub)
    ensures !Contains(s, sub)
    decreases |s|
  {
    assert s[0..] == s;
    if |s| > 0 {
      assert forall j :: 0 <= j <= |s| - 1 ==> s[1..][j..] == s[j + 1..];
      NotContains(s[1..], sub);
    }
  }
}
