/**
 * The first pass of extractPackagesFromImage: the image's layers are read in order and every
 * tar entry updates three database slots (APK, dpkg, and one slot shared by the three RPM
 * database files) and a map from executable paths to their sizes.
 *
 * A whiteout is recognised only when the whole normalised path starts with ".wh."; it clears
 * the slot of the database at exactly the remaining path, and the candidate at exactly that
 * path.  (Whiteouts placed on a base name, such as "var/lib/dpkg/.wh.status", and opaque
 * directory whiteouts are ordinary entries here.)
 */
module LayerScan {
  import opened Wrappers
  import opened GoText
  import opened FilePath
  import opened SeqFacts

  /** A decoded tar header with the bytes io.ReadAll returns for it. */
  datatype Entry = Entry(name: string, typeflag: char, mode: int, size: int, content: string)

  /** The layers of an image, each the entries its tar stream yields, in order. */
  type Layer = seq<Entry>

  const ApkDBPath: string := "lib/apk/db/installed"
  const DpkgDBPath: string := "var/lib/dpkg/status"
  const RpmDBPathSqlite: string := "var/lib/rpm/rpmdb.sqlite"
  const RpmDBPathBDB: string := "var/lib/rpm/Packages"
  const RpmDBPathNDB: string := "var/lib/rpm/Packages.db"

  /** tar.TypeReg */
  const TypeReg: char := '0'

  /** The directories whose executables may be Go binaries. */
  predicate IsBinDir(d: string) {
    d == "usr/bin" || d == "usr/local/bin" || d == "bin" || d == "usr/sbin" || d == "sbin"
  }

  const WhiteoutPrefix: string := ".wh."

  predicate IsRpmPath(p: string) {
    p == RpmDBPathSqlite || p == RpmDBPathBDB || p == RpmDBPathNDB
  }

  predicate IsDbPath(p: string) {
    p == ApkDBPath || p == DpkgDBPath || IsRpmPath(p)
  }

  /** The entry's path without one leading "/" and then one leading "./". */
  function Norm(name: string): string {
    TrimPrefix(TrimPrefix(name, "/"), "./")
  }

  /** `mode & 0111 != 0`: some execute bit (owner, group or other) is set.  Floor division by a
   *  power of two reads the same bits as Go's two's-complement `&` on negative modes. */
  predicate ExecBit(mode: int) {
    mode % 2 == 1 || (mode / 8) % 2 == 1 || (mode / 64) % 2 == 1
  }

  /** An entry at normalised path `p` that is recorded as a possible Go binary. */
  predicate IsCandidate(e: Entry, p: string) {
    e.typeflag == TypeReg && ExecBit(e.mode) && e.size > 0 && IsBinDir(Dir(p))
  }

  /** The variables the scan updates: a slot holds "" where Go holds nil. */
  datatype ScanState = ScanState(apk: string, dpkg: string, rpm: string, rpmFormat: string,
                                 cands: map<string, int>)

  const Start: ScanState := ScanState("", "", "", "", map[])

  /** The three slots. */
  datatype Db = Apk | Dpkg | Rpm

  /** The paths whose entries fill a slot. */
  predicate AtDbPath(p: string, db: Db) {
    match db
    case Apk => p == ApkDBPath
    case Dpkg => p == DpkgDBPath
    case Rpm => IsRpmPath(p)
  }

  /** The format recorded with an RPM database read from path p. */
  function FormatOf(p: string): string {
    if p == RpmDBPathSqlite then "sqlite" else if p == RpmDBPathBDB then "bdb" else "ndb"
  }

  /** What one entry does: whiteout a path, fill a slot from a database path, record a
   *  candidate, or nothing. */
  datatype Action =
    | Whiteout(target: string)
    | Write(db: Db, path: string, content: string)
    | AddCandidate(path: string, size: int)
    | Skip

  /** The action of an entry, decided on its normalised path. */
  function Classify(e: Entry): Action {
    var p := Norm(e.name);
    match CutPrefix(p, WhiteoutPrefix)
    case Some(b) => Whiteout(b)
    case None => ReadAction(e, p)
  }

  /** The action of an entry at path p that is not a whiteout. */
  function ReadAction(e: Entry, p: string): Action {
    if p == ApkDBPath then Write(Apk, p, e.content)
    else if p == DpkgDBPath then Write(Dpkg, p, e.content)
    else if IsRpmPath(p) then Write(Rpm, p, e.content)
    else if IsCandidate(e, p) then AddCandidate(p, e.size)
    else Skip
  }

  /** The effect of an action on the scan's variables. */
  function Apply(st: ScanState, a: Action): ScanState {
    match a
    case Whiteout(b) =>
      st.(apk := if b == ApkDBPath then "" else st.apk,
          dpkg := if b == DpkgDBPath then "" else st.dpkg,
          rpm := if IsRpmPath(b) then "" else st.rpm,
          cands := st.cands - {b})
    case Write(db, p, content) =>
      (match db
       case Apk => st.(apk := content)
       case Dpkg => st.(dpkg := content)
       case Rpm => st.(rpm := content, rpmFormat := FormatOf(p)))
    case AddCandidate(p, size) => st.(cands := st.cands[p := size])
    case Skip => st
  }

  /** The state after the actions `acts`, in order. */
  function Run(acts: seq<Action>): ScanState {
    if acts == [] then Start else Apply(Run(acts[..|acts| - 1]), acts[|acts| - 1])
  }

  /** The action of each entry, in order. */
  function Actions(es: seq<Entry>): (acts: seq<Action>)
    ensures |acts| == |es| && forall k :: 0 <= k < |es| ==> acts[k] == Classify(es[k])
  {
    seq(|es|, k requires 0 <= k < |es| => Classify(es[k]))
  }

  /** The state after the entries `es`, in order. */
  function Scan(es: seq<Entry>): ScanState {
    Run(Actions(es))
  }

  /** All entries of all layers, layer by layer. */
  function Flatten(layers: seq<Layer>): seq<Entry> {
    if layers == [] then [] else Flatten(layers[..|layers| - 1]) + layers[|layers| - 1]
  }

  /** One more entry is one more action. */
  lemma ScanSnoc(before: seq<Entry>, layer: seq<Entry>, j: nat)
    requires j < |layer|
    ensures Scan(before + layer[..j + 1]) == Apply(Scan(before + layer[..j]), Classify(layer[j]))
  {
    var es := before + layer[..j + 1];
    SnocParts(before, layer, j);
    ActionsPrefix(es, |es| - 1);
  }

  /** The actions of a prefix are the prefix of the actions. */
  lemma ActionsPrefix(es: seq<Entry>, n: nat)
    requires n <= |es|
    ensures Actions(es)[..n] == Actions(es[..n])
  {
  }

  /** The layer loop of extractPackagesFromImage (main.go). */
  method ScanLayers(layers: seq<Layer>)
    returns (apkData: string, dpkgData: string, rpmData: string, rpmFormat: string,
             goBinaries: map<string, int>)
    ensures ScanState(apkData, dpkgData, rpmData, rpmFormat, goBinaries) == Scan(Flatten(layers))
  {
    apkData, dpkgData, rpmData, rpmFormat, goBinaries := "", "", "", "", map[];
    var i := 0;
    while i < |layers|
      invariant 0 <= i <= |layers|
      invariant ScanState(apkData, dpkgData, rpmData, rpmFormat, goBinaries) == Scan(Flatten(layers[..i]))
    {
      var layer := layers[i];
      ghost var before := Flatten(layers[..i]);
      var j := 0;
      assert before + layer[..0] == before;
      while j < |layer|
        invariant 0 <= j <= |layer|
        invariant ScanState(apkData, dpkgData, rpmData, rpmFormat, goBinaries) == Scan(before + layer[..j])
      {
        var hdr := layer[j];
        ScanSnoc(before, layer, j);
        apkData, dpkgData, rpmData, rpmFormat, goBinaries := ScanEntry(hdr, apkData, dpkgData, rpmData, rpmFormat, goBinaries);
        j := j + 1;
      }
      assert layer[..j] == layer;
      assert layers[..i + 1][..i] == layers[..i];
      assert Flatten(layers[..i + 1]) == before + layer;
      i := i + 1;
    }
    assert layers[..i] == layers;
  }

  /** The body of the entry loop: one tar header and its bytes. */
  method ScanEntry(hdr: Entry, apk: string, dpkg: string, rpm: string, format: string, cands: map<string, int>)
    returns (apkData: string, dpkgData: string, rpmData: string, rpmFormat: string,
             goBinaries: map<string, int>)
    ensures ScanState(apkData, dpkgData, rpmData, rpmFormat, goBinaries)
      == Apply(ScanState(apk, dpkg, rpm, format, cands), Classify(hdr))
  {
    apkData, dpkgData, rpmData, rpmFormat, goBinaries := apk, dpkg, rpm, format, cands;
    var path := TrimPrefix(hdr.name, "/");
    path := TrimPrefix(path, "./");
    var whiteout := CutPrefix(path, WhiteoutPrefix);
    assert path == Norm(hdr.name);
    if whiteout.Some? {
      var whiteoutBase := whiteout.value;
      assert Classify(hdr) == Whiteout(whiteoutBase);
      if whiteoutBase == ApkDBPath {
        apkData := "";
      } else if whiteoutBase == DpkgDBPath {
        dpkgData := "";
      } else if whiteoutBase == RpmDBPathSqlite {
        rpmData := "";
      } else if whiteoutBase == RpmDBPathBDB {
        rpmData := "";
      } else if whiteoutBase == RpmDBPathNDB {
        rpmData := "";
      }
      goBinaries := goBinaries - {whiteoutBase};
      return;
    }
    assert Classify(hdr) == ReadAction(hdr, path);
    apkData, dpkgData, rpmData, rpmFormat, goBinaries := ReadEntry(hdr, path, apk, dpkg, rpm, format, cands);
  }

  /** The switch on the path of an entry that is not a whiteout: a database file is read into
   *  its slot, an executable in a binary directory is recorded with its size. */
  method ReadEntry(hdr: Entry, path: string, apk: string, dpkg: string, rpm: string, format: string,
                   cands: map<string, int>)
    returns (apkData: string, dpkgData: string, rpmData: string, rpmFormat: string,
             goBinaries: map<string, int>)
    ensures ScanState(apkData, dpkgData, rpmData, rpmFormat, goBinaries)
      == Apply(ScanState(apk, dpkg, rpm, format, cands), ReadAction(hdr, path))
  {
    apkData, dpkgData, rpmData, rpmFormat, goBinaries := apk, dpkg, rpm, format, cands;
    if path == ApkDBPath {
      apkData := hdr.content;
    } else if path == DpkgDBPath {
      dpkgData := hdr.content;
    } else if path == RpmDBPathSqlite {
      rpmData := hdr.content;
      rpmFormat := "sqlite";
    } else if path == RpmDBPathBDB {
      rpmData := hdr.content;
      rpmFormat := "bdb";
    } else if path == RpmDBPathNDB {
      rpmData := hdr.content;
      rpmFormat := "ndb";
    } else if hdr.typeflag == TypeReg && ExecBit(hdr.mode) && hdr.size > 0 {
      var dir := Dir(path);
      if IsBinDir(dir) {
        goBinaries := goBinaries[path := hdr.size];
      }
    }
  }

  // ---------------------------------------------------------------------------------------
  // Database slots
  // ---------------------------------------------------------------------------------------

  function SlotOf(st: ScanState, db: Db): string {
    match db
    case Apk => st.apk
    case Dpkg => st.dpkg
    case Rpm => st.rpm
  }

  /** The entry is a whiteout of one of the slot's paths. */
  predicate WhitesOut(e: Entry, db: Db) {
    var c := CutPrefix(Norm(e.name), WhiteoutPrefix);
    c.Some? && AtDbPath(c.value, db)
  }

  /** The entry writes one of the slot's paths. */
  predicate Writes(e: Entry, db: Db) {
    AtDbPath(Norm(e.name), db)
  }

  predicate Touches(e: Entry, db: Db) {
    WhitesOut(e, db) || Writes(e, db)
  }

  /** A database path does not begin with the whiteout prefix. */
  lemma DbPathNotWhiteout(p: string, db: Db)
    requires AtDbPath(p, db)
    ensures !HasPrefix(p, WhiteoutPrefix)
  {
    assert p[0] != '.';
  }

  /** The action of an entry, seen from one slot: a whiteout of one of its paths, a write of
   *  one of them with the entry's bytes, or neither. */
  lemma ClassifySlot(e: Entry, db: Db)
    ensures WhitesOut(e, db) <==> Classify(e).Whiteout? && AtDbPath(Classify(e).target, db)
    ensures Writes(e, db) <==> Classify(e).Write? && Classify(e).db == db
    ensures Writes(e, db) ==> Classify(e).content == e.content && Classify(e).path == Norm(e.name)
  {
    if AtDbPath(Norm(e.name), db) {
      DbPathNotWhiteout(Norm(e.name), db);
    }
  }

  /** The action whites out or writes one of the slot's paths. */
  predicate ActTouches(a: Action, db: Db) {
    (a.Whiteout? && AtDbPath(a.target, db)) || (a.Write? && a.db == db)
  }

  /** A slot after one action. */
  function SlotAfter(a: Action, db: Db, slot: string): string {
    if a.Whiteout? && AtDbPath(a.target, db) then ""
    else if a.Write? && a.db == db then a.content
    else slot
  }

  lemma ApplySlot(st: ScanState, a: Action, db: Db)
    ensures SlotOf(Apply(st, a), db) == SlotAfter(a, db, SlotOf(st, db))
  {
  }

  /** Each slot holds what the last entry touching it left: that entry's bytes for a write,
   *  nothing for a whiteout. */
  lemma SlotIsLastTouch(es: seq<Entry>, db: Db, j: nat)
    requires j < |es| && Touches(es[j], db)
    requires forall k :: j < k < |es| ==> !Touches(es[k], db)
    ensures SlotOf(Scan(es), db) == if WhitesOut(es[j], db) then "" else es[j].content
  {
    var acts := Actions(es);
    forall k | j <= k < |es|
      ensures ActTouches(acts[k], db) <==> Touches(es[k], db)
    {
      ClassifySlot(es[k], db);
    }
    ClassifySlot(es[j], db);
    RunSlotLast(acts, db, j);
  }

  /** Over actions: the slot is what the last action that sets it leaves. */
  lemma {:induction false} RunSlotLast(acts: seq<Action>, db: Db, j: nat)
    requires j < |acts| && ActTouches(acts[j], db)
    requires forall k :: j < k < |acts| ==> !ActTouches(acts[k], db)
    ensures SlotOf(Run(acts), db) == SlotAfter(acts[j], db, "")
  {
    var n := |acts|;
    var init := acts[..n - 1];
    ApplySlot(Run(init), acts[n - 1], db);
    if j < n - 1 {
      assert init[j] == acts[j];
      assert forall k :: j < k < n - 1 ==> init[k] == acts[k];
      RunSlotLast(init, db, j);
    }
  }

  /** A slot no entry touches stays empty. */
  lemma SlotUntouched(es: seq<Entry>, db: Db)
    requires forall k :: 0 <= k < |es| ==> !Touches(es[k], db)
    ensures SlotOf(Scan(es), db) == ""
  {
    var acts := Actions(es);
    forall k | 0 <= k < |es|
      ensures !ActTouches(acts[k], db)
    {
      ClassifySlot(es[k], db);
    }
    RunSlotUntouched(acts, db);
  }

  lemma {:induction false} RunSlotUntouched(acts: seq<Action>, db: Db)
    requires forall k :: 0 <= k < |acts| ==> !ActTouches(acts[k], db)
    ensures SlotOf(Run(acts), db) == ""
  {
    if acts != [] {
      var n := |acts|;
      var init := acts[..n - 1];
      assert forall k :: 0 <= k < n - 1 ==> init[k] == acts[k];
      RunSlotUntouched(init, db);
      ApplySlot(Run(init), acts[n - 1], db);
    }
  }

  /** The RPM format names the path of the last RPM write; whiteouts do not reset it. */
  lemma RpmFormatIsLastWrite(es: seq<Entry>, j: nat)
    requires j < |es| && Writes(es[j], Rpm)
    requires forall k :: j < k < |es| ==> !Writes(es[k], Rpm)
    ensures Scan(es).rpmFormat == FormatOf(Norm(es[j].name))
  {
    var acts := Actions(es);
    forall k | j <= k < |es|
      ensures Writes(es[k], Rpm) <==> acts[k].Write? && acts[k].db == Rpm
    {
      ClassifySlot(es[k], Rpm);
    }
    ClassifySlot(es[j], Rpm);
    RunFormatLast(acts, j);
  }

  lemma {:induction false} RunFormatLast(acts: seq<Action>, j: nat)
    requires j < |acts| && acts[j].Write? && acts[j].db == Rpm
    requires forall k :: j < k < |acts| ==> !(acts[k].Write? && acts[k].db == Rpm)
    ensures Run(acts).rpmFormat == FormatOf(acts[j].path)
  {
    var n := |acts|;
    var init := acts[..n - 1];
    if j < n - 1 {
      assert init[j] == acts[j];
      assert forall k :: j < k < n - 1 ==> init[k] == acts[k];
      RunFormatLast(init, j);
    }
  }

  // ---------------------------------------------------------------------------------------
  // Executable candidates
  // ---------------------------------------------------------------------------------------

  /** The entry records path `p` as a candidate. */
  predicate CandidateWrite(e: Entry, p: string) {
    Norm(e.name) == p && !HasPrefix(p, WhiteoutPrefix) && !IsDbPath(p) && IsCandidate(e, p)
  }

  /** The entry is a whiteout of exactly path `p`. */
  predicate WhiteoutOf(e: Entry, p: string) {
    CutPrefix(Norm(e.name), WhiteoutPrefix) == Some(p)
  }

  /** Seen from path p, an entry's action records p as a candidate with the entry's size,
   *  whites out exactly p, or neither. */
  lemma ClassifyCandidate(e: Entry, p: string)
    ensures CandidateWrite(e, p) <==> Classify(e).AddCandidate? && Classify(e).path == p
    ensures CandidateWrite(e, p) ==> Classify(e).size == e.size
    ensures WhiteoutOf(e, p) <==> Classify(e) == Whiteout(p)
    ensures Classify(e).AddCandidate? ==> IsBinDir(Dir(Classify(e).path)) && Classify(e).size > 0
  {
  }

  /** Only candidate records and whiteouts of exactly `p` change the candidate at `p`. */
  lemma ApplyCandidate(st: ScanState, a: Action, p: string)
    ensures a.AddCandidate? && a.path == p ==> p in Apply(st, a).cands && Apply(st, a).cands[p] == a.size
    ensures a == Whiteout(p) ==> p !in Apply(st, a).cands
    ensures !(a.AddCandidate? && a.path == p) && a != Whiteout(p) ==>
      (p in Apply(st, a).cands <==> p in st.cands) &&
      (p in st.cands ==> Apply(st, a).cands[p] == st.cands[p])
  {
  }

  /** A path is a candidate with the size of its last candidate write, when no whiteout of
   *  exactly that path follows that write; later writes that are not candidates (another type,
   *  no execute bit, empty) leave it in place. */
  lemma CandidateIsLastWrite(es: seq<Entry>, p: string, j: nat)
    requires j < |es| && CandidateWrite(es[j], p)
    requires forall k :: j < k < |es| ==> !CandidateWrite(es[k], p) && !WhiteoutOf(es[k], p)
    ensures p in Scan(es).cands && Scan(es).cands[p] == es[j].size
  {
    var acts := Actions(es);
    forall k | j < k < |es|
      ensures !(acts[k].AddCandidate? && acts[k].path == p) && acts[k] != Whiteout(p)
    {
      ClassifyCandidate(es[k], p);
    }
    ClassifyCandidate(es[j], p);
    RunCandidateLast(acts, p, j);
  }

  lemma {:induction false} RunCandidateLast(acts: seq<Action>, p: string, j: nat)
    requires j < |acts| && acts[j].AddCandidate? && acts[j].path == p
    requires forall k :: j < k < |acts| ==> !(acts[k].AddCandidate? && acts[k].path == p) && acts[k] != Whiteout(p)
    ensures p in Run(acts).cands && Run(acts).cands[p] == acts[j].size
  {
    var n := |acts|;
    var init := acts[..n - 1];
    ApplyCandidate(Run(init), acts[n - 1], p);
    if j < n - 1 {
      assert init[j] == acts[j];
      assert forall k :: j < k < n - 1 ==> init[k] == acts[k];
      RunCandidateLast(init, p, j);
    }
  }

  /** A whiteout of exactly `p` removes the candidate, unless a candidate write follows it. */
  lemma CandidateWhitedOut(es: seq<Entry>, p: string, j: nat)
    requires j < |es| && WhiteoutOf(es[j], p)
    requires forall k :: j < k < |es| ==> !CandidateWrite(es[k], p)
    ensures p !in Scan(es).cands
  {
    var acts := Actions(es);
    forall k | j < k < |es|
      ensures !(acts[k].AddCandidate? && acts[k].path == p)
    {
      ClassifyCandidate(es[k], p);
    }
    ClassifyCandidate(es[j], p);
    RunWhitedOut(acts, p, j);
  }

  lemma {:induction false} RunWhitedOut(acts: seq<Action>, p: string, j: nat)
    requires j < |acts| && acts[j] == Whiteout(p)
    requires forall k :: j < k < |acts| ==> !(acts[k].AddCandidate? && acts[k].path == p)
    ensures p !in Run(acts).cands
  {
    var n := |acts|;
    var init := acts[..n - 1];
    ApplyCandidate(Run(init), acts[n - 1], p);
    if j < n - 1 {
      assert init[j] == acts[j];
      assert forall k :: j < k < n - 1 ==> init[k] == acts[k];
      RunWhitedOut(init, p, j);
    }
  }

  /** Without a candidate write, a path is never a candidate. */
  lemma CandidateNeedsWrite(es: seq<Entry>, p: string)
    requires forall k :: 0 <= k < |es| ==> !CandidateWrite(es[k], p)
    ensures p !in Scan(es).cands
  {
    var acts := Actions(es);
    forall k | 0 <= k < |es|
      ensures !(acts[k].AddCandidate? && acts[k].path == p)
    {
      ClassifyCandidate(es[k], p);
    }
    RunNeedsWrite(acts, p);
  }

  lemma {:induction false} RunNeedsWrite(acts: seq<Action>, p: string)
    requires forall k :: 0 <= k < |acts| ==> !(acts[k].AddCandidate? && acts[k].path == p)
    ensures p !in Run(acts).cands
  {
    if acts != [] {
      var n := |acts|;
      var init := acts[..n - 1];
      assert forall k :: 0 <= k < n - 1 ==> init[k] == acts[k];
      RunNeedsWrite(init, p);
      ApplyCandidate(Run(init), acts[n - 1], p);
    }
  }

  predicate CandidatesOk(cands: map<string, int>) {
    forall p :: p in cands ==> IsBinDir(Dir(p)) && cands[p] > 0
  }

  /** Every candidate sits directly in a binary directory and has a positive size. */
  lemma CandidatesWellFormed(es: seq<Entry>)
    ensures CandidatesOk(Scan(es).cands)
  {
    var acts := Actions(es);
    forall k | 0 <= k < |es|
      ensures acts[k].AddCandidate? ==> IsBinDir(Dir(acts[k].path)) && acts[k].size > 0
    {
      ClassifyCandidate(es[k], "");
    }
    RunCandidatesOk(acts);
  }

  lemma {:induction false} RunCandidatesOk(acts: seq<Action>)
    requires forall k :: 0 <= k < |acts| ==> acts[k].AddCandidate? ==> IsBinDir(Dir(acts[k].path)) && acts[k].size > 0
    ensures CandidatesOk(Run(acts).cands)
  {
    if acts != [] {
      var n := |acts|;
      var init := acts[..n - 1];
      assert forall k :: 0 <= k < n - 1 ==> init[k] == acts[k];
      RunCandidatesOk(init);
      var a := acts[n - 1];
      var next := Apply(Run(init), a).cands;
      forall q | q in next
        ensures IsBinDir(Dir(q)) && next[q] > 0
      {
        ApplyCandidate(Run(init), a, q);
      }
    }
  }
}
