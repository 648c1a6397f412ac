/**
 * extractPackagesFromImage: scan the layers, parse each database slot that holds bytes, and,
 * when those parsers together report nothing, probe the executable candidates for Go build
 * information.
 */
module Extract {
  import opened Wrappers
  import opened GoText
  import opened Packages
  import opened Stanzas
  import opened ApkDb
  import opened DpkgDb
  import opened RpmDb
  import opened LayerScan
  import opened BinaryProbe

  /** The packages of the operating-system databases left by the scan, in APK, dpkg, RPM order;
   *  a slot is parsed only when it holds at least one byte. */
  function OsPackages(st: ScanState, rpmdb: string -> Option<seq<RpmRecord>>): seq<Pkg> {
    ApkPart(st.apk) + DpkgPart(st.dpkg) + RpmPart(st.rpm, rpmdb)
  }

  function ApkPart(data: string): seq<Pkg> {
    if |data| > 0 then ApkPackages(data) else []
  }

  function DpkgPart(data: string): seq<Pkg> {
    if |data| > 0 then DpkgPackages(data) else []
  }

  function RpmPart(data: string, rpmdb: string -> Option<seq<RpmRecord>>): seq<Pkg> {
    if |data| > 0 && rpmdb(data).Some? then RpmPackages(rpmdb(data).value) else []
  }

  /** What extractPackagesFromImage returns: None stands for an image whose layers cannot be
   *  listed. */
  function Extracted(layers: Option<seq<Layer>>, rpmdb: string -> Option<seq<RpmRecord>>,
                     buildinfo: string -> Option<BuildInfo>): seq<Pkg> {
    match layers
    case None => []
    case Some(ls) =>
      var st := Scan(Flatten(ls));
      var os := OsPackages(st, rpmdb);
      if |os| == 0 && |st.cands| > 0 then os + ProbeAll(Flatten(ls), st.cands, buildinfo).pkgs else os
  }

  /** extractPackagesFromImage (main.go). */
  method ExtractPackagesFromImage(layers: Option<seq<Layer>>, rpmdb: string -> Option<seq<RpmRecord>>,
                                  buildinfo: string -> Option<BuildInfo>)
    returns (packages: seq<Pkg>)
    ensures packages == Extracted(layers, rpmdb, buildinfo)
  {
    if layers.None? {
      return [];
    }
    var apkData, dpkgData, rpmData, rpmFormat, goBinaries := ScanLayers(layers.value);
    packages := ParseDatabases(apkData, dpkgData, rpmData, rpmdb);
    if |packages| == 0 && |goBinaries| > 0 {
      var pkgs, _ := DetectGoBinaries(layers, goBinaries, buildinfo);
      packages := packages + pkgs;
    }
  }

  /** The parsing half of extractPackagesFromImage: each non-empty slot is parsed in turn. */
  method ParseDatabases(apkData: string, dpkgData: string, rpmData: string,
                        rpmdb: string -> Option<seq<RpmRecord>>)
    returns (packages: seq<Pkg>)
    ensures packages == ApkPart(apkData) + DpkgPart(dpkgData) + RpmPart(rpmData, rpmdb)
  {
    packages := [];
    if |apkData| > 0 {
      var pkgs := ParseApkDB(apkData);
      packages := packages + pkgs;
    }
    assert packages == ApkPart(apkData);
    if |dpkgData| > 0 {
      var pkgs := ParseDpkgDB(dpkgData);
      packages := packages + pkgs;
    }
    assert packages == ApkPart(apkData) + DpkgPart(dpkgData);
    if |rpmData| > 0 {
      var pkgs := ParseRpmDB(rpmData, rpmdb);
      packages := packages + pkgs;
    }
  }

  // ---------------------------------------------------------------------------------------
  // Properties
  // ---------------------------------------------------------------------------------------

  /** The line-oriented parsers find nothing in empty input, so skipping an empty APK or dpkg
   *  slot is the same as parsing it. */
  lemma EmptyDatabases()
    ensures ApkPackages("") == [] && DpkgPackages("") == []
  {
    assert ScanLines("") == [];
    var none: seq<seq<string>> := [];
    assert Blocks([]) == [[]];
    assert [[]][..0] == none;
  }

  /** No operating-system record is typed "binary". */
  lemma OsPackagesNotBinary(st: ScanState, rpmdb: string -> Option<seq<RpmRecord>>)
    ensures forall p :: p in OsPackages(st, rpmdb) ==> p.kind != "binary"
  {
    ApkNotBinary(st.apk);
    DpkgNotBinary(st.dpkg);
    RpmNotBinary(st.rpm, rpmdb);
  }

  lemma ApkNotBinary(data: string)
    ensures forall p :: p in ApkPart(data) ==> p.kind != "binary"
  {
    var a := ApkPart(data);
    EmitApkShape(Blocks(ScanLines(data)));
    forall p | p in a ensures p.kind != "binary" {
      var k :| 0 <= k < |a| && a[k] == p;
    }
  }

  lemma DpkgNotBinary(data: string)
    ensures forall p :: p in DpkgPart(data) ==> p.kind != "binary"
  {
    var d := DpkgPart(data);
    EmitDpkgShape(Blocks(ScanLines(data)));
    forall p | p in d ensures p.kind != "binary" {
      var k :| 0 <= k < |d| && d[k] == p;
    }
  }

  lemma RpmNotBinary(data: string, rpmdb: string -> Option<seq<RpmRecord>>)
    ensures forall p :: p in RpmPart(data, rpmdb) ==> p.kind != "binary"
  {
    var r := RpmPart(data, rpmdb);
    if |data| > 0 && rpmdb(data).Some? {
      RpmPackagesShape(rpmdb(data).value);
      forall p | p in r ensures p.kind != "binary" {
        var k :| 0 <= k < |r| && r[k] == p;
      }
    }
  }

  /**
   * Binary records and operating-system records never mix: either every record is typed
   * "binary", or none is; and there are no more binary records than candidates left by the scan.
   */
  lemma ExtractedKinds(layers: Option<seq<Layer>>, rpmdb: string -> Option<seq<RpmRecord>>,
                       buildinfo: string -> Option<BuildInfo>)
    requires layers.Some?
    ensures var r := Extracted(layers, rpmdb, buildinfo);
      (forall p :: p in r ==> p.kind == "binary") || (forall p :: p in r ==> p.kind != "binary")
    ensures var r := Extracted(layers, rpmdb, buildinfo);
      (exists p :: p in r && p.kind == "binary") ==> |r| <= |Scan(Flatten(layers.value)).cands|
  {
    var es := Flatten(layers.value);
    var st := Scan(es);
    OsPackagesNotBinary(st, rpmdb);
    if |OsPackages(st, rpmdb)| == 0 && |st.cands| > 0 {
      ProbedBinaries(es, st.cands, buildinfo);
      assert OsPackages(st, rpmdb) + ProbeAll(es, st.cands, buildinfo).pkgs == ProbeAll(es, st.cands, buildinfo).pkgs;
    }
  }
}
