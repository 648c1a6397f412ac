/**
 * parseRPMDB: the RPM database library is an oracle from the database bytes to its package list
 * (None when the database cannot be opened or listed); the inventory code maps every named
 * package to a record typed "rpm".
 */
module RpmDb {
  import opened Wrappers
  import opened GoText
  import opened Packages

  /** The fields of the library's package description that the mapping reads. */
  datatype RpmRecord = RpmRecord(name: string, version: string, release: string, size: int)

  /** The record for one named RPM package: version "<version>-<release>", bytes to kilobytes. */
  function RpmPkg(r: RpmRecord): Pkg {
    Pkg(r.name, r.version + "-" + r.release, DivKB(r.size), "rpm")
  }

  /** The named packages, mapped and in order. */
  function RpmPackages(rs: seq<RpmRecord>): seq<Pkg> {
    if rs == [] then []
    else RpmPackages(rs[..|rs| - 1]) + (if rs[|rs| - 1].name != "" then [RpmPkg(rs[|rs| - 1])] else [])
  }

  /** The mapping loop of parseRPMDB (main.go). */
  method MapRpmRecords(pkgList: seq<RpmRecord>) returns (packages: seq<Pkg>)
    ensures packages == RpmPackages(pkgList)
  {
    packages := [];
    var i := 0;
    while i < |pkgList|
      invariant 0 <= i <= |pkgList|
      invariant packages == RpmPackages(pkgList[..i])
    {
      var p := pkgList[i];
      assert pkgList[..i + 1][..i] == pkgList[..i];
      if p.name != "" {
        packages := packages + [Pkg(p.name, p.version + "-" + p.release, DivKB(p.size), "rpm")];
      }
      i := i + 1;
    }
    assert pkgList[..i] == pkgList;
  }

  /** parseRPMDB: no packages when the library fails, otherwise the mapped list. */
  method ParseRpmDB(data: string, rpmdb: string -> Option<seq<RpmRecord>>) returns (packages: seq<Pkg>)
    ensures rpmdb(data).None? ==> packages == []
    ensures rpmdb(data).Some? ==> packages == RpmPackages(rpmdb(data).value)
  {
    var pkgList := rpmdb(data);
    if pkgList.None? {
      return [];
    }
    packages := MapRpmRecords(pkgList.value);
  }

  /** A record is produced exactly for each named package, in the library's order. */
  lemma {:induction false} RpmPackagesMembership(rs: seq<RpmRecord>)
    ensures |RpmPackages(rs)| <= |rs|
    ensures forall p :: p in RpmPackages(rs) <==> exists r :: r in rs && r.name != "" && p == RpmPkg(r)
  {
    if rs != [] {
      var init := rs[..|rs| - 1];
      var last := rs[|rs| - 1];
      RpmPackagesMembership(init);
      assert rs == init + [last];
      forall p
        ensures p in RpmPackages(rs) <==> exists r :: r in rs && r.name != "" && p == RpmPkg(r)
      {
        if p in RpmPackages(rs) && p !in RpmPackages(init) {
          assert p == RpmPkg(last) && last in rs;
        }
        if exists r :: r in rs && r.name != "" && p == RpmPkg(r) {
          var r :| r in rs && r.name != "" && p == RpmPkg(r);
          if r != last {
            assert r in init;
          }
        }
      }
    }
  }

  /** Every record is typed "rpm", named, and joins version and release with a hyphen. */
  lemma {:induction false} RpmPackagesShape(rs: seq<RpmRecord>)
    ensures forall k :: 0 <= k < |RpmPackages(rs)| ==>
      RpmPackages(rs)[k].kind == "rpm" && RpmPackages(rs)[k].name != "" && '-' in RpmPackages(rs)[k].version
  {
    if rs != [] {
      RpmPackagesShape(rs[..|rs| - 1]);
      var r := rs[|rs| - 1];
      assert (r.version + "-" + r.release)[|r.version|] == '-';
    }
  }
}
