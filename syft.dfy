/**
 * The size normalisation of runSyftAndParse: the fallback scanner's already-decoded SBOM
 * (artifacts, relationships, files) becomes package records in kilobytes.  Every artifact type
 * reports its size in its own unit; a binary's size is that of the file its last "evident-by"
 * relationship points to.  Artifacts whose size comes out as zero are dropped.
 */
module Syft {
  import opened Wrappers
  import opened GoText
  import opened Packages

  datatype Artifact = Artifact(id: string, name: string, version: string, kind: string,
                               installedSize: int, size: int)
  datatype Relationship = Relationship(parent: string, child: string, relType: string)
  datatype File = File(id: string, size: int)
  datatype Sbom = Sbom(artifacts: seq<Artifact>, relationships: seq<Relationship>, files: seq<File>)

  /** File ID to size, for files with a positive size; a later file with the same ID wins. */
  function FileSizes(fs: seq<File>): map<string, int> {
    if fs == [] then map[]
    else
      var m := FileSizes(fs[..|fs| - 1]);
      var f := fs[|fs| - 1];
      if f.size > 0 then m[f.id := f.size] else m
  }

  /** Artifact ID to file ID along "evident-by" relationships; a later one wins. */
  function Evidence(rels: seq<Relationship>): map<string, string> {
    if rels == [] then map[]
    else
      var m := Evidence(rels[..|rels| - 1]);
      var r := rels[|rels| - 1];
      if r.relType == "evident-by" then m[r.parent := r.child] else m
  }

  /** The artifact's size in kilobytes under the rules for its type; 0 when it has none. */
  function ArtifactSizeKB(a: Artifact, fileMap: map<string, int>, artifactToFile: map<string, string>): int {
    if a.kind == "apk" then
      if a.installedSize > 0 then DivKB(a.installedSize)
      else if a.size > 0 then DivKB(a.size)
      else 0
    else if a.kind == "rpm" then
      if a.size > 0 then DivKB(a.size) else 0
    else if a.kind == "deb" then
      if a.installedSize > 0 then a.installedSize else 0
    else if a.kind == "binary" then
      if a.id in artifactToFile && artifactToFile[a.id] in fileMap then DivKB(fileMap[artifactToFile[a.id]])
      else 0
    else
      if a.installedSize > 0 then a.installedSize
      else if a.size > 0 then DivKB(a.size)
      else 0
  }

  /** The records for the artifacts with a positive size, in artifact order. */
  function SizedPackages(arts: seq<Artifact>, fileMap: map<string, int>, artifactToFile: map<string, string>): seq<Pkg> {
    if arts == [] then []
    else
      var a := arts[|arts| - 1];
      var kb := ArtifactSizeKB(a, fileMap, artifactToFile);
      SizedPackages(arts[..|arts| - 1], fileMap, artifactToFile) +
        (if kb > 0 then [Pkg(a.name, a.version, kb, a.kind)] else [])
  }

  /** What runSyftAndParse returns for a decoded SBOM. */
  function SyftPackages(sbom: Sbom): seq<Pkg> {
    SizedPackages(sbom.artifacts, FileSizes(sbom.files), Evidence(sbom.relationships))
  }

  /** The three loops of runSyftAndParse after the JSON is decoded (main.go). */
  method NormaliseSbom(sbom: Sbom) returns (packages: seq<Pkg>)
    ensures packages == SyftPackages(sbom)
  {
    var fileMap: map<string, int> := map[];
    var i := 0;
    while i < |sbom.files|
      invariant 0 <= i <= |sbom.files|
      invariant fileMap == FileSizes(sbom.files[..i])
    {
      var f := sbom.files[i];
      assert sbom.files[..i + 1][..i] == sbom.files[..i];
      if f.size > 0 {
        fileMap := fileMap[f.id := f.size];
      }
      i := i + 1;
    }
    assert sbom.files[..i] == sbom.files;

    var artifactToFile: map<string, string> := map[];
    i := 0;
    while i < |sbom.relationships|
      invariant 0 <= i <= |sbom.relationships|
      invariant artifactToFile == Evidence(sbom.relationships[..i])
    {
      var rel := sbom.relationships[i];
      assert sbom.relationships[..i + 1][..i] == sbom.relationships[..i];
      if rel.relType == "evident-by" {
        artifactToFile := artifactToFile[rel.parent := rel.child];
      }
      i := i + 1;
    }
    assert sbom.relationships[..i] == sbom.relationships;

    packages := [];
    i := 0;
    while i < |sbom.artifacts|
      invariant 0 <= i <= |sbom.artifacts|
      invariant packages == SizedPackages(sbom.artifacts[..i], fileMap, artifactToFile)
    {
      var a := sbom.artifacts[i];
      assert sbom.artifacts[..i + 1][..i] == sbom.artifacts[..i];
      var sizeKB := 0;
      if a.kind == "apk" {
        if a.installedSize > 0 {
          sizeKB := DivKB(a.installedSize);
        } else if a.size > 0 {
          sizeKB := DivKB(a.size);
        }
      } else if a.kind == "rpm" {
        if a.size > 0 {
          sizeKB := DivKB(a.size);
        }
      } else if a.kind == "deb" {
        if a.installedSize > 0 {
          sizeKB := a.installedSize;
        }
      } else if a.kind == "binary" {
        if a.id in artifactToFile {
          var fileID := artifactToFile[a.id];
          if fileID in fileMap {
            sizeKB := DivKB(fileMap[fileID]);
          }
        }
      } else {
        if a.installedSize > 0 {
          sizeKB := a.installedSize;
        } else if a.size > 0 {
          sizeKB := DivKB(a.size);
        }
      }
      if sizeKB > 0 {
        packages := packages + [Pkg(a.name, a.version, sizeKB, a.kind)];
      }
      i := i + 1;
    }
    assert sbom.artifacts[..i] == sbom.artifacts;
  }

  // ---------------------------------------------------------------------------------------
  // Properties
  // ---------------------------------------------------------------------------------------

  /** A file's recorded size is that of the last file with its ID and a positive size; files with
   *  a size of zero or less are never recorded. */
  lemma {:induction false} FileSizeIsLast(fs: seq<File>, j: nat)
    requires j < |fs| && fs[j].size > 0
    requires forall k :: j < k < |fs| ==> !(fs[k].id == fs[j].id && fs[k].size > 0)
    ensures fs[j].id in FileSizes(fs) && FileSizes(fs)[fs[j].id] == fs[j].size
  {
    var n := |fs|;
    if j < n - 1 {
      FileSizeIsLast(fs[..n - 1], j);
      assert fs[..n - 1][j] == fs[j];
      assert forall k :: j < k < n - 1 ==> fs[..n - 1][k] == fs[k];
    }
  }

  lemma {:induction false} FileSizesPositive(fs: seq<File>)
    ensures forall id :: id in FileSizes(fs) ==> FileSizes(fs)[id] > 0
    ensures forall id :: id in FileSizes(fs) <==> exists k :: 0 <= k < |fs| && fs[k].id == id && fs[k].size > 0
  {
    if fs != [] {
      var n := |fs|;
      var init := fs[..n - 1];
      FileSizesPositive(init);
      forall id ensures id in FileSizes(fs) <==> exists k :: 0 <= k < |fs| && fs[k].id == id && fs[k].size > 0 {
        if exists k :: 0 <= k < n - 1 && init[k].id == id && init[k].size > 0 {
          var k :| 0 <= k < n - 1 && init[k].id == id && init[k].size > 0;
          assert fs[k] == init[k];
        }
        if exists k :: 0 <= k < |fs| && fs[k].id == id && fs[k].size > 0 {
          var k :| 0 <= k < |fs| && fs[k].id == id && fs[k].size > 0;
          if k < n - 1 {
            assert init[k] == fs[k];
          }
        }
      }
    }
  }

  /** An artifact's file is the child of its last "evident-by" relationship. */
  lemma {:induction false} EvidenceIsLast(rels: seq<Relationship>, j: nat)
    requires j < |rels| && rels[j].relType == "evident-by"
    requires forall k :: j < k < |rels| ==> !(rels[k].relType == "evident-by" && rels[k].parent == rels[j].parent)
    ensures rels[j].parent in Evidence(rels) && Evidence(rels)[rels[j].parent] == rels[j].child
  {
    var n := |rels|;
    if j < n - 1 {
      EvidenceIsLast(rels[..n - 1], j);
      assert rels[..n - 1][j] == rels[j];
      assert forall k :: j < k < n - 1 ==> rels[..n - 1][k] == rels[k];
    }
  }

  /** Without an "evident-by" relationship a binary artifact has no size, and is dropped. */
  lemma {:induction false} NoEvidence(rels: seq<Relationship>, id: string)
    requires forall k :: 0 <= k < |rels| ==> !(rels[k].relType == "evident-by" && rels[k].parent == id)
    ensures id !in Evidence(rels)
  {
    if rels != [] {
      var n := |rels|;
      assert forall k :: 0 <= k < n - 1 ==> rels[..n - 1][k] == rels[k];
      NoEvidence(rels[..n - 1], id);
    }
  }

  /** A record exists exactly for each artifact with a positive size under its type's rule, and
   *  keeps the artifact's name, version and type. */
  lemma {:induction false} SizedPackagesMembership(arts: seq<Artifact>, fileMap: map<string, int>,
                                                 artifactToFile: map<string, string>)
    ensures forall p :: p in SizedPackages(arts, fileMap, artifactToFile) <==>
      exists a :: a in arts && ArtifactSizeKB(a, fileMap, artifactToFile) > 0 &&
        p == Pkg(a.name, a.version, ArtifactSizeKB(a, fileMap, artifactToFile), a.kind)
  {
    if arts != [] {
      var init := arts[..|arts| - 1];
      var last := arts[|arts| - 1];
      SizedPackagesMembership(init, fileMap, artifactToFile);
      assert arts == init + [last];
      forall p
        ensures p in SizedPackages(arts, fileMap, artifactToFile) <==>
          exists a :: a in arts && ArtifactSizeKB(a, fileMap, artifactToFile) > 0 &&
            p == Pkg(a.name, a.version, ArtifactSizeKB(a, fileMap, artifactToFile), a.kind)
      {
        if p in SizedPackages(arts, fileMap, artifactToFile) && p !in SizedPackages(init, fileMap, artifactToFile) {
          assert last in arts;
        }
        if exists a :: a in arts && ArtifactSizeKB(a, fileMap, artifactToFile) > 0 &&
            p == Pkg(a.name, a.version, ArtifactSizeKB(a, fileMap, artifactToFile), a.kind) {
          var a :| a in arts && ArtifactSizeKB(a, fileMap, artifactToFile) > 0 &&
            p == Pkg(a.name, a.version, ArtifactSizeKB(a, fileMap, artifactToFile), a.kind);
          if a != last {
            assert a in init;
          }
        }
      }
    }
  }

  /** The units: dpkg and unknown types report kilobytes, apk and rpm bytes that are divided by
   *  1024 toward zero; apk and unknown types prefer their installed size and fall back to the
   *  plain size; a type with neither positive has no size. */
  lemma SizeUnits(a: Artifact, fileMap: map<string, int>, artifactToFile: map<string, string>)
    ensures a.kind == "deb" && a.installedSize > 0 ==> ArtifactSizeKB(a, fileMap, artifactToFile) == a.installedSize
    ensures a.kind == "deb" && a.installedSize <= 0 ==> ArtifactSizeKB(a, fileMap, artifactToFile) == 0
    ensures a.kind == "apk" && a.installedSize > 0 ==>
      ArtifactSizeKB(a, fileMap, artifactToFile) * 1024 <= a.installedSize < (ArtifactSizeKB(a, fileMap, artifactToFile) + 1) * 1024
    ensures a.kind == "apk" && a.installedSize > 0 ==> ArtifactSizeKB(a, fileMap, artifactToFile) == DivKB(a.installedSize)
    ensures a.kind == "apk" && a.installedSize <= 0 && a.size > 0 ==>
      ArtifactSizeKB(a, fileMap, artifactToFile) == DivKB(a.size)
    ensures a.kind == "apk" && a.installedSize <= 0 && a.size <= 0 ==> ArtifactSizeKB(a, fileMap, artifactToFile) == 0
    ensures a.kind == "rpm" && a.size > 0 ==> ArtifactSizeKB(a, fileMap, artifactToFile) == DivKB(a.size)
    ensures a.kind == "rpm" && a.size <= 0 ==> ArtifactSizeKB(a, fileMap, artifactToFile) == 0
    ensures a.kind == "rpm" ==> (ArtifactSizeKB(a, fileMap, artifactToFile) > 0 <==> a.size >= 1024)
    ensures a.kind !in {"apk", "rpm", "deb", "binary"} && a.installedSize > 0 ==>
      ArtifactSizeKB(a, fileMap, artifactToFile) == a.installedSize
    ensures a.kind !in {"apk", "rpm", "deb", "binary"} && a.installedSize <= 0 && a.size > 0 ==>
      ArtifactSizeKB(a, fileMap, artifactToFile) == DivKB(a.size)
    ensures a.kind !in {"apk", "rpm", "deb", "binary"} && a.installedSize <= 0 && a.size <= 0 ==>
      ArtifactSizeKB(a, fileMap, artifactToFile) == 0
  {
    DivKBPositive(a.size);
  }

  /** A binary artifact's size is its last evidence file's size divided by 1024, or 0 when that
   *  file is not listed with a positive size; so it has a size exactly when the file was listed
   *  with at least a kilobyte. */
  lemma BinarySize(sbom: Sbom, a: Artifact)
    requires a.kind == "binary"
    ensures var fm, ev := FileSizes(sbom.files), Evidence(sbom.relationships);
      a.id in ev && ev[a.id] in fm ==> ArtifactSizeKB(a, fm, ev) == DivKB(fm[ev[a.id]])
    ensures var fm, ev := FileSizes(sbom.files), Evidence(sbom.relationships);
      !(a.id in ev && ev[a.id] in fm) ==> ArtifactSizeKB(a, fm, ev) == 0
    ensures var fm, ev := FileSizes(sbom.files), Evidence(sbom.relationships);
      ArtifactSizeKB(a, fm, ev) > 0 <==> a.id in ev && ev[a.id] in fm && fm[ev[a.id]] >= 1024
  {
    var fm, ev := FileSizes(sbom.files), Evidence(sbom.relationships);
    if a.id in ev && ev[a.id] in fm {
      DivKBPositive(fm[ev[a.id]]);
    }
  }
}
