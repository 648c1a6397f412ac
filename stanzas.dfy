/**
 * The record produced by every package parser, and the blank-line structure shared by the
 * Alpine and Debian package databases.
 */
module Packages {

  /** `pkg` in main.go.  `kind` is its Type field: "apk", "deb", "rpm", "binary", a syft
   *  artifact type, or "" for a record that was never given one. */
  datatype Pkg = Pkg(name: string, version: string, sizeKB: int, kind: string)
}

module Stanzas {

  /**
   * The groups of lines between empty lines, in order.  A line-by-line parser that closes its
   * current record at each empty line and at the end of input sees exactly these groups.
   */
  function Blocks(lines: seq<string>): (bs: seq<seq<string>>)
    ensures |bs| >= 1
  {
    if lines == [] then [[]]
    else
      var bs := Blocks(lines[..|lines| - 1]);
      var line := lines[|lines| - 1];
      if line == "" then bs + [[]]
      else bs[..|bs| - 1] + [bs[|bs| - 1] + [line]]
  }

  /** The inverse of Blocks: the groups separated by one empty line each. */
  function Rejoin(bs: seq<seq<string>>): seq<string>
    requires |bs| >= 1
  {
    if |bs| == 1 then bs[0] else Rejoin(bs[..|bs| - 1]) + [""] + bs[|bs| - 1]
  }

  function CountBlank(lines: seq<string>): nat {
    if lines == [] then 0
    else CountBlank(lines[..|lines| - 1]) + (if lines[|lines| - 1] == "" then 1 else 0)
  }

  /** Putting the groups back together gives the lines. */
  lemma {:induction false} BlocksRoundTrip(lines: seq<string>)
    ensures Rejoin(Blocks(lines)) == lines
  {
    if lines != [] {
      var init := lines[..|lines| - 1];
      var line := lines[|lines| - 1];
      BlocksRoundTrip(init);
      var bs := Blocks(init);
      var n := |bs|;
      assert lines == init + [line];
      if line == "" {
        assert (bs + [[]])[..n] == bs;
      } else {
        var bs' := bs[..n - 1] + [bs[n - 1] + [line]];
        assert bs'[..n - 1] == bs[..n - 1];
        if n > 1 {
          assert Rejoin(bs') == Rejoin(bs[..n - 1]) + [""] + (bs[n - 1] + [line]);
        }
      }
    }
  }

  /** There is one group more than there are empty lines, and no group holds an empty line. */
  lemma {:induction false} BlocksShape(lines: seq<string>)
    ensures |Blocks(lines)| == CountBlank(lines) + 1
    ensures forall k :: 0 <= k < |Blocks(lines)| ==> "" !in Blocks(lines)[k]
  {
    if lines != [] {
      var init := lines[..|lines| - 1];
      BlocksShape(init);
    }
  }

  /** Lines without an empty one form a single group. */
  lemma {:induction false} BlocksWithoutBlank(lines: seq<string>)
    requires "" !in lines
    ensures Blocks(lines) == [lines]
  {
    if lines != [] {
      var init := lines[..|lines| - 1];
      assert "" !in init by { assert forall k :: 0 <= k < |init| ==> init[k] == lines[k]; }
      BlocksWithoutBlank(init);
      assert lines == init + [lines[|lines| - 1]];
    }
  }
}
