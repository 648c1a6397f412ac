/**
 * detectGoBinaries: a second pass over the layers that asks the Go build-information reader
 * (an oracle here, None for a file that is not a Go binary) about every entry at a candidate
 * path.  The first successful read for a path yields its record and removes the path from the
 * candidates, so later copies of the same path are not read.
 */
module BinaryProbe {
  import opened Wrappers
  import opened GoText
  import opened FilePath
  import opened Packages
  import opened LayerScan
  import opened SeqFacts

  /** The fields of debug/buildinfo.BuildInfo that the inventory reads. */
  datatype BuildInfo = BuildInfo(mainVersion: string, goVersion: string)

  /** The main module's version, unless it is empty or "(devel)"; then the toolchain version. */
  function BinaryVersion(info: BuildInfo): (v: string)
    ensures v == info.mainVersion || v == info.goVersion
    ensures v == info.mainVersion <== info.mainVersion != "" && info.mainVersion != "(devel)"
    ensures v == info.goVersion <== info.mainVersion == "" || info.mainVersion == "(devel)"
  {
    if info.mainVersion != "" && info.mainVersion != "(devel)" then info.mainVersion else info.goVersion
  }

  /** The record for the Go binary at `path`, with the size recorded in the first pass. */
  function BinaryPkg(path: string, size: int, info: BuildInfo): Pkg {
    Pkg(Base(path), BinaryVersion(info), DivKB(size), "binary")
  }

  /** The records so far, the path each came from, and the candidates not yet identified. */
  datatype Probe = Probe(pkgs: seq<Pkg>, paths: seq<string>, remaining: map<string, int>)

  function ProbeStep(st: Probe, e: Entry, buildinfo: string -> Option<BuildInfo>): Probe {
    var p := Norm(e.name);
    if p in st.remaining && buildinfo(e.content).Some? then
      Probe(st.pkgs + [BinaryPkg(p, st.remaining[p], buildinfo(e.content).value)],
            st.paths + [p], st.remaining - {p})
    else st
  }

  /** The state after probing the entries `es`, starting from the candidates `c0`. */
  function ProbeAll(es: seq<Entry>, c0: map<string, int>, buildinfo: string -> Option<BuildInfo>): (pr: Probe)
    ensures |pr.pkgs| == |pr.paths|
  {
    if es == [] then Probe([], [], c0)
    else ProbeStep(ProbeAll(es[..|es| - 1], c0, buildinfo), es[|es| - 1], buildinfo)
  }

  /**
   * detectGoBinaries (main.go).  `candidates` is the caller's map, which the Go code shrinks in
   * place; `remaining` is what is left of it.  `layers` is None when the image's layers cannot
   * be listed.
   */
  method DetectGoBinaries(layers: Option<seq<Layer>>, candidates: map<string, int>,
                          buildinfo: string -> Option<BuildInfo>)
    returns (packages: seq<Pkg>, remaining: map<string, int>)
    ensures layers.None? ==> packages == [] && remaining == candidates
    ensures layers.Some? ==>
      var pr := ProbeAll(Flatten(layers.value), candidates, buildinfo);
      packages == pr.pkgs && remaining == pr.remaining
  {
    packages, remaining := [], candidates;
    if layers.None? {
      return;
    }
    var ls := layers.value;
    ghost var paths: seq<string> := [];
    var i := 0;
    while i < |ls|
      invariant 0 <= i <= |ls|
      invariant Probe(packages, paths, remaining) == ProbeAll(Flatten(ls[..i]), candidates, buildinfo)
    {
      ghost var before := Flatten(ls[..i]);
      packages, paths, remaining := ProbeLayer(ls[i], before, candidates, buildinfo, packages, paths, remaining);
      assert ls[..i + 1][..i] == ls[..i];
      assert Flatten(ls[..i + 1]) == before + ls[i];
      i := i + 1;
    }
    assert ls[..i] == ls;
  }

  /** The loop over one layer's entries, continuing from the state after the entries `before`. */
  method ProbeLayer(layer: Layer, ghost before: seq<Entry>, ghost c0: map<string, int>,
                    buildinfo: string -> Option<BuildInfo>,
                    packages0: seq<Pkg>, ghost paths0: seq<string>, remaining0: map<string, int>)
    returns (packages: seq<Pkg>, ghost paths: seq<string>, remaining: map<string, int>)
    requires Probe(packages0, paths0, remaining0) == ProbeAll(before, c0, buildinfo)
    ensures Probe(packages, paths, remaining) == ProbeAll(before + layer, c0, buildinfo)
  {
    packages, paths, remaining := packages0, paths0, remaining0;
    assert before + layer[..0] == before;
    var j := 0;
    while j < |layer|
      invariant 0 <= j <= |layer|
      invariant Probe(packages, paths, remaining) == ProbeAll(before + layer[..j], c0, buildinfo)
    {
      ProbeSnoc(before, layer, j, c0, buildinfo);
      packages, paths, remaining := ProbeEntry(layer[j], buildinfo, packages, paths, remaining);
      j := j + 1;
    }
    TakeAll(layer, j);
  }

  /** One entry of the layer loop: a candidate path that reads as a Go binary becomes a record
   *  and leaves the candidates. */
  method ProbeEntry(hdr: Entry, buildinfo: string -> Option<BuildInfo>,
                    packages0: seq<Pkg>, ghost paths0: seq<string>, remaining0: map<string, int>)
    returns (packages: seq<Pkg>, ghost paths: seq<string>, remaining: map<string, int>)
    ensures Probe(packages, paths, remaining) == ProbeStep(Probe(packages0, paths0, remaining0), hdr, buildinfo)
  {
    packages, paths, remaining := packages0, paths0, remaining0;
    var path := TrimPrefix(hdr.name, "/");
    path := TrimPrefix(path, "./");
    if path in remaining {
      var size := remaining[path];
      var info := buildinfo(hdr.content);
      if info.Some? {
        var name := Base(path);
        var version := info.value.goVersion;
        if info.value.mainVersion != "" && info.value.mainVersion != "(devel)" {
          version := info.value.mainVersion;
        }
        packages := packages + [Pkg(name, version, DivKB(size), "binary")];
        paths := paths + [path];
        remaining := remaining - {path};
      }
    }
  }

  /** One more entry of the layer is one more probe step. */
  lemma ProbeSnoc(before: seq<Entry>, layer: Layer, j: nat, c0: map<string, int>,
                  buildinfo: string -> Option<BuildInfo>)
    requires j < |layer|
    ensures ProbeAll(before + layer[..j + 1], c0, buildinfo)
      == ProbeStep(ProbeAll(before + layer[..j], c0, buildinfo), layer[j], buildinfo)
  {
    SnocParts(before, layer, j);
  }

  // ---------------------------------------------------------------------------------------
  // Properties
  // ---------------------------------------------------------------------------------------

  /** The entry at `j` is the first successful read of path `p` among `es`. */
  predicate ReadsAs(e: Entry, p: string, buildinfo: string -> Option<BuildInfo>) {
    Norm(e.name) == p && buildinfo(e.content).Some?
  }

  /**
   * The accounting invariant: every record comes from a distinct candidate path, which has left
   * the candidates; the record is named by the path's base name and sized by the candidate's
   * recorded size; the remaining candidates are the others, with their sizes unchanged.
   */
  ghost predicate Accounted(st: Probe, c0: map<string, int>) {
    |st.pkgs| == |st.paths| &&
    (forall k, l :: 0 <= k < l < |st.paths| ==> st.paths[k] != st.paths[l]) &&
    (forall k :: 0 <= k < |st.paths| ==>
      st.paths[k] in c0 && st.pkgs[k].name == Base(st.paths[k]) &&
      st.pkgs[k].sizeKB == DivKB(c0[st.paths[k]]) && st.pkgs[k].kind == "binary") &&
    (forall p :: p in st.remaining <==> p in c0 && p !in st.paths) &&
    (forall p :: p in st.remaining ==> st.remaining[p] == c0[p])
  }

  lemma {:induction false} ProbeAccounted(es: seq<Entry>, c0: map<string, int>, buildinfo: string -> Option<BuildInfo>)
    ensures Accounted(ProbeAll(es, c0, buildinfo), c0)
  {
    if es != [] {
      ProbeAccounted(es[..|es| - 1], c0, buildinfo);
    }
  }

  /** Each candidate yields at most one record, so there are never more records than candidates. */
  lemma ProbeCount(es: seq<Entry>, c0: map<string, int>, buildinfo: string -> Option<BuildInfo>)
    ensures var pr := ProbeAll(es, c0, buildinfo);
      |pr.pkgs| + |pr.remaining| == |c0|
  {
    var pr := ProbeAll(es, c0, buildinfo);
    ProbeAccounted(es, c0, buildinfo);
    PathsCount(pr.paths, c0, pr.remaining);
  }

  /** Every probed record is typed "binary", and there are no more of them than candidates. */
  lemma ProbedBinaries(es: seq<Entry>, c0: map<string, int>, buildinfo: string -> Option<BuildInfo>)
    ensures var pr := ProbeAll(es, c0, buildinfo);
      (forall p :: p in pr.pkgs ==> p.kind == "binary") && |pr.pkgs| <= |c0|
  {
    ProbeCount(es, c0, buildinfo);
    ProbedKinds(es, c0, buildinfo);
  }

  lemma ProbedKinds(es: seq<Entry>, c0: map<string, int>, buildinfo: string -> Option<BuildInfo>)
    ensures forall p :: p in ProbeAll(es, c0, buildinfo).pkgs ==> p.kind == "binary"
  {
    var pr := ProbeAll(es, c0, buildinfo);
    ProbeAccounted(es, c0, buildinfo);
    forall p | p in pr.pkgs ensures p.kind == "binary" {
      var k :| 0 <= k < |pr.pkgs| && pr.pkgs[k] == p;
    }
  }

  /** Distinct paths of `c0` plus the keys of `c0` not among them number |c0|. */
  lemma {:induction false} PathsCount(paths: seq<string>, c0: map<string, int>, rest: map<string, int>)
    requires forall k, l :: 0 <= k < l < |paths| ==> paths[k] != paths[l]
    requires forall k :: 0 <= k < |paths| ==> paths[k] in c0
    requires forall p :: p in rest <==> p in c0 && p !in paths
    ensures |paths| + |rest| == |c0|
    decreases |paths|
  {
    if paths == [] {
      assert rest.Keys == c0.Keys;
    } else {
      var last := paths[|paths| - 1];
      var init := paths[..|paths| - 1];
      assert last !in init by {
        forall k | 0 <= k < |init| ensures init[k] != last {
          assert init[k] == paths[k];
        }
      }
      var rest' := rest[last := c0[last]];
      forall p ensures p in rest' <==> p in c0 && p !in init {
        if p != last {
          assert p in paths <==> p in init by {
            if p in paths {
              var k :| 0 <= k < |paths| && paths[k] == p;
              assert init[k] == p;
            }
          }
        }
      }
      PathsCount(init, c0, rest');
      assert last !in rest;
    }
  }

  /** The first entry at path `p` that the build-information reader accepts. */
  function FirstRead(es: seq<Entry>, p: string, buildinfo: string -> Option<BuildInfo>): (r: Option<nat>)
    ensures r.Some? ==> r.value < |es| && ReadsAs(es[r.value], p, buildinfo)
    ensures r.Some? ==> forall i :: 0 <= i < r.value ==> !ReadsAs(es[i], p, buildinfo)
    ensures r.None? ==> forall i :: 0 <= i < |es| ==> !ReadsAs(es[i], p, buildinfo)
  {
    if es == [] then None
    else
      var init := es[..|es| - 1];
      assert forall i :: 0 <= i < |init| ==> init[i] == es[i];
      match FirstRead(init, p, buildinfo)
      case Some(j) => Some(j)
      case None => if ReadsAs(es[|es| - 1], p, buildinfo) then Some(|es| - 1) else None
  }

  /** The version of each record comes from the first entry at its path that the
   *  build-information reader accepts (an earlier layer's copy of a file shadows a later one). */
  lemma {:induction false} ProbeVersionIsFirstRead(es: seq<Entry>, c0: map<string, int>,
                                                 buildinfo: string -> Option<BuildInfo>, k: nat)
    requires k < |ProbeAll(es, c0, buildinfo).pkgs|
    ensures var pr := ProbeAll(es, c0, buildinfo);
      var first := FirstRead(es, pr.paths[k], buildinfo);
      first.Some? && pr.pkgs[k].version == BinaryVersion(buildinfo(es[first.value].content).value)
  {
    var n := |es|;
    var init := es[..n - 1];
    var before := ProbeAll(init, c0, buildinfo);
    var pr := ProbeAll(es, c0, buildinfo);
    if k < |before.pkgs| {
      ProbeVersionIsFirstRead(init, c0, buildinfo, k);
      assert pr.paths[k] == before.paths[k] && pr.pkgs[k] == before.pkgs[k];
      var j := FirstRead(init, before.paths[k], buildinfo).value;
      assert es[j] == init[j];
    } else {
      var p := Norm(es[n - 1].name);
      assert pr.paths[k] == p;
      if FirstRead(init, p, buildinfo).Some? {
        ReadMeansProbed(init, c0, buildinfo, FirstRead(init, p, buildinfo).value);
      }
    }
  }

  /** An entry whose read succeeds leaves its path outside the remaining candidates. */
  lemma {:induction false} ReadMeansProbed(es: seq<Entry>, c0: map<string, int>,
                                         buildinfo: string -> Option<BuildInfo>, j: nat)
    requires j < |es| && buildinfo(es[j].content).Some?
    ensures Norm(es[j].name) !in ProbeAll(es, c0, buildinfo).remaining
  {
    var n := |es|;
    if j < n - 1 {
      ReadMeansProbed(es[..n - 1], c0, buildinfo, j);
      assert es[..n - 1][j] == es[j];
    }
  }

  /** A candidate with no successful read remains, with its size. */
  lemma {:induction false} UnreadCandidateRemains(es: seq<Entry>, c0: map<string, int>,
                                                buildinfo: string -> Option<BuildInfo>, p: string)
    requires p in c0
    requires forall j :: 0 <= j < |es| ==> !ReadsAs(es[j], p, buildinfo)
    ensures var pr := ProbeAll(es, c0, buildinfo);
      p in pr.remaining && pr.remaining[p] == c0[p] && p !in pr.paths
  {
    if es != [] {
      var n := |es|;
      assert forall j :: 0 <= j < n - 1 ==> es[..n - 1][j] == es[j];
      UnreadCandidateRemains(es[..n - 1], c0, buildinfo, p);
      assert !ReadsAs(es[n - 1], p, buildinfo);
    }
  }
}
