/**
 * The aggregation at the end of analyzeImage: every package with a positive size becomes a
 * table row, the rows are sorted largest first, the sizes are totalled, and a map from package
 * name to row is built for the comparison view.  Sizes stay in kilobytes here (the Go rows carry
 * them as floating-point megabytes, SizeKB / 1024, which orders them the same way).
 */
module Aggregate {
  import opened Wrappers
  import opened Packages

  /** `row` in main.go, with the size in kilobytes. */
  datatype Row = Row(name: string, ver: string, sizeKB: int)

  function RowOf(p: Pkg): Row {
    Row(p.name, p.version, p.sizeKB)
  }

  /** The rows of the packages with a positive size, in package order. */
  function Rows(ps: seq<Pkg>): seq<Row> {
    if ps == [] then []
    else Rows(ps[..|ps| - 1]) + (if ps[|ps| - 1].sizeKB > 0 then [RowOf(ps[|ps| - 1])] else [])
  }

  /** The sum of the rows' sizes. */
  function SumKB(rs: seq<Row>): int {
    if rs == [] then 0 else SumKB(rs[..|rs| - 1]) + rs[|rs| - 1].sizeKB
  }

  /** The name-to-row map: each package with a positive size overwrites its name's entry. */
  function PackageMap(ps: seq<Pkg>): map<string, Row> {
    if ps == [] then map[]
    else
      var m := PackageMap(ps[..|ps| - 1]);
      var p := ps[|ps| - 1];
      if p.sizeKB > 0 then m[p.name := RowOf(p)] else m
  }

  predicate SortedDesc(rs: seq<Row>) {
    forall k, l :: 0 <= k < l < |rs| ==> rs[k].sizeKB >= rs[l].sizeKB
  }

  /** The table of one image: rows sorted largest first, their total, their count, and the map. */
  method AggregateRows(packages: seq<Pkg>)
    returns (rows: array<Row>, totalInstalled: int, packageCount: int, pkgMap: map<string, Row>)
    ensures fresh(rows)
    ensures multiset(rows[..]) == multiset(Rows(packages)) && SortedDesc(rows[..])
    ensures totalInstalled == SumKB(Rows(packages)) == SumKB(rows[..])
    ensures packageCount == rows.Length == |Rows(packages)|
    ensures pkgMap == PackageMap(packages)
  {
    var collected: seq<Row> := [];
    pkgMap := map[];
    totalInstalled := 0;
    var i := 0;
    while i < |packages|
      invariant 0 <= i <= |packages|
      invariant collected == Rows(packages[..i])
      invariant totalInstalled == SumKB(collected)
      invariant pkgMap == PackageMap(packages[..i])
    {
      var p := packages[i];
      assert packages[..i + 1][..i] == packages[..i];
      if p.sizeKB > 0 {
        totalInstalled := totalInstalled + p.sizeKB;
        var r := Row(p.name, p.version, p.sizeKB);
        assert (collected + [r])[..|collected|] == collected;
        collected := collected + [r];
        pkgMap := pkgMap[p.name := r];
      }
      i := i + 1;
    }
    assert packages[..i] == packages;
    rows := new Row[|collected|](k requires 0 <= k < |collected| => collected[k]);
    assert rows[..] == collected;
    SortBySizeDesc(rows);
    SumKBPermutation(collected, rows[..]);
    assert |multiset(rows[..])| == |multiset(collected)|;
    packageCount := rows.Length;
  }

  /** sort.Slice(rows, larger MB first), as an insertion sort in place. */
  method SortBySizeDesc(a: array<Row>)
    modifies a
    ensures SortedDesc(a[..])
    ensures multiset(a[..]) == multiset(old(a[..]))
  {
    var i := 0;
    while i < a.Length
      invariant 0 <= i <= a.Length
      invariant SortedDesc(a[..i])
      invariant multiset(a[..]) == multiset(old(a[..]))
    {
      InsertLast(a, i);
      i := i + 1;
    }
    assert a[..i] == a[..];
  }

  /** Moves a[i] down into the sorted prefix a[..i] by adjacent swaps. */
  method InsertLast(a: array<Row>, i: nat)
    requires i < a.Length && SortedDesc(a[..i])
    modifies a
    ensures SortedDesc(a[..i + 1])
    ensures multiset(a[..]) == multiset(old(a[..]))
  {
    var j := i;
    while j > 0 && a[j - 1].sizeKB < a[j].sizeKB
      invariant 0 <= j <= i
      invariant forall k, l :: 0 <= k < l <= i && k != j && l != j ==> a[k].sizeKB >= a[l].sizeKB
      invariant forall l :: j < l <= i ==> a[j].sizeKB >= a[l].sizeKB
      invariant multiset(a[..]) == multiset(old(a[..]))
    {
      Swap(a, j - 1, j);
      j := j - 1;
    }
  }

  /** Exchanges two entries of the table. */
  method Swap(a: array<Row>, x: nat, y: nat)
    requires x < a.Length && y < a.Length
    modifies a
    ensures a[x] == old(a[y]) && a[y] == old(a[x])
    ensures forall k :: 0 <= k < a.Length && k != x && k != y ==> a[k] == old(a[k])
    ensures multiset(a[..]) == multiset(old(a[..]))
  {
    a[x], a[y] := a[y], a[x];
  }

  /** manifest.Layers summed: the compressed size, in bytes, of an image fetched from the
   *  registry.  An image loaded from the cache reads no manifest (None) and reports 0. */
  method CompressedSize(manifestLayerSizes: Option<seq<int>>) returns (totalCompressed: int)
    ensures manifestLayerSizes.None? ==> totalCompressed == 0
    ensures manifestLayerSizes.Some? ==> totalCompressed == Sum(manifestLayerSizes.value)
  {
    totalCompressed := 0;
    if manifestLayerSizes.Some? {
      var sizes := manifestLayerSizes.value;
      var i := 0;
      while i < |sizes|
        invariant 0 <= i <= |sizes|
        invariant totalCompressed == Sum(sizes[..i])
      {
        assert sizes[..i + 1][..i] == sizes[..i];
        totalCompressed := totalCompressed + sizes[i];
        i := i + 1;
      }
      assert sizes[..i] == sizes;
    }
  }

  function Sum(xs: seq<int>): int {
    if xs == [] then 0 else Sum(xs[..|xs| - 1]) + xs[|xs| - 1]
  }

  // ---------------------------------------------------------------------------------------
  // Properties
  // ---------------------------------------------------------------------------------------

  /** A row exists exactly for each package with a positive size; there are never more rows than
   *  packages. */
  lemma {:induction false} RowsMembership(ps: seq<Pkg>)
    ensures |Rows(ps)| <= |ps|
    ensures forall r :: r in Rows(ps) <==> exists p :: p in ps && p.sizeKB > 0 && r == RowOf(p)
  {
    if ps != [] {
      var init := ps[..|ps| - 1];
      var last := ps[|ps| - 1];
      RowsMembership(init);
      assert ps == init + [last];
      forall r
        ensures r in Rows(ps) <==> exists p :: p in ps && p.sizeKB > 0 && r == RowOf(p)
      {
        if r in Rows(ps) && r !in Rows(init) {
          assert r == RowOf(last) && last in ps;
        }
        if exists p :: p in ps && p.sizeKB > 0 && r == RowOf(p) {
          var p :| p in ps && p.sizeKB > 0 && r == RowOf(p);
          if p != last {
            assert p in init;
          }
        }
      }
    }
  }

  /** Every row has a positive size, so the total is positive as soon as there is a row. */
  lemma {:induction false} RowsPositive(ps: seq<Pkg>)
    ensures forall k :: 0 <= k < |Rows(ps)| ==> Rows(ps)[k].sizeKB > 0
    ensures SumKB(Rows(ps)) >= |Rows(ps)|
  {
    if ps != [] {
      var init := ps[..|ps| - 1];
      RowsPositive(init);
      var r := Rows(ps);
      var p := ps[|ps| - 1];
      if p.sizeKB > 0 {
        assert r == Rows(init) + [RowOf(p)];
        assert r[..|r| - 1] == Rows(init);
        assert SumKB(r) == SumKB(Rows(init)) + p.sizeKB;
      } else {
        assert r == Rows(init);
      }
    }
  }

  /** The total does not depend on the order of the rows: it is also the sum over the sorted
   *  table. */
  lemma {:induction false} SumKBPermutation(a: seq<Row>, b: seq<Row>)
    requires multiset(a) == multiset(b)
    ensures SumKB(a) == SumKB(b)
    decreases |a|
  {
    if a != [] {
      var x := a[|a| - 1];
      assert x in multiset(b);
      var k :| 0 <= k < |b| && b[k] == x;
      var b' := b[..k] + b[k + 1..];
      assert b == b[..k] + [x] + b[k + 1..];
      assert a == a[..|a| - 1] + [x];
      assert multiset(a) == multiset(a[..|a| - 1]) + multiset{x};
      assert multiset(b) == multiset(b[..k]) + multiset{x} + multiset(b[k + 1..]);
      assert multiset(b') == multiset(b[..k]) + multiset(b[k + 1..]);
      assert multiset(a[..|a| - 1]) == multiset(a) - multiset{x};
      assert multiset(b') == multiset(b) - multiset{x};
      SumKBPermutation(a[..|a| - 1], b');
      SumKBRemove(b, k);
    }
  }

  /** Removing one row removes its size from the sum. */
  lemma {:induction false} SumKBRemove(b: seq<Row>, k: nat)
    requires k < |b|
    ensures SumKB(b) == SumKB(b[..k] + b[k + 1..]) + b[k].sizeKB
    decreases |b|
  {
    var n := |b|;
    if k < n - 1 {
      SumKBRemove(b[..n - 1], k);
      assert b[..n - 1][..k] == b[..k];
      assert b[..n - 1][k + 1..] + [b[n - 1]] == b[k + 1..];
      var c := b[..k] + b[k + 1..];
      assert c[..|c| - 1] == b[..k] + b[..n - 1][k + 1..];
    } else {
      assert b[..k] + b[k + 1..] == b[..n - 1];
    }
  }

  /** The map holds exactly the names of the rows, each mapped to the row of the last package
   *  with that name and a positive size; so it has at most as many entries as there are rows. */
  lemma {:induction false} PackageMapIsLast(ps: seq<Pkg>, j: nat)
    requires j < |ps| && ps[j].sizeKB > 0
    requires forall k :: j < k < |ps| ==> !(ps[k].sizeKB > 0 && ps[k].name == ps[j].name)
    ensures ps[j].name in PackageMap(ps) && PackageMap(ps)[ps[j].name] == RowOf(ps[j])
  {
    var n := |ps|;
    if j < n - 1 {
      PackageMapIsLast(ps[..n - 1], j);
      assert ps[..n - 1][j] == ps[j];
      assert forall k :: j < k < n - 1 ==> ps[..n - 1][k] == ps[k];
    }
  }

  lemma {:induction false} PackageMapKeys(ps: seq<Pkg>)
    ensures forall name :: name in PackageMap(ps) <==> exists r :: r in Rows(ps) && r.name == name
    ensures |PackageMap(ps).Keys| <= |Rows(ps)|
  {
    if ps != [] {
      var init := ps[..|ps| - 1];
      var p := ps[|ps| - 1];
      PackageMapKeys(init);
      if p.sizeKB > 0 {
        assert Rows(ps) == Rows(init) + [RowOf(p)];
        assert PackageMap(ps).Keys == PackageMap(init).Keys + {p.name};
        forall name ensures name in PackageMap(ps) <==> exists r :: r in Rows(ps) && r.name == name {
          if name in PackageMap(init) {
            var r :| r in Rows(init) && r.name == name;
            assert r in Rows(ps);
          }
          if exists r :: r in Rows(ps) && r.name == name {
            var r :| r in Rows(ps) && r.name == name;
            if r != RowOf(p) {
              assert r in Rows(init);
            }
          }
        }
      }
    }
  }
}
