/**
 * The git arguments the release tool builds from a changelog entry: the tag name checked and
 * created, the tag's annotation, and the commit's message options.  Running git is not modelled;
 * where a property needs git's reading of the arguments, git's rule is written out
 * (CommitMessage).
 */
module Release {
  import opened Wrappers
  import opened GoText

  /** The tag of a version, as ensureTagAbsent checks it and gitTag creates it. */
  function TagName(version: string): string {
    "v" + version
  }

  /** The version a release tag names. */
  function TagVersion(tag: string): Option<string> {
    CutPrefix(tag, "v")
  }

  /** gitTag's annotation: the summary alone, or the summary, a blank line and the description. */
  function TagMessage(summary: string, description: string): string {
    if description != "" then summary + "\n\n" + description else summary
  }

  /** gitCommitIfNeeded's arguments: one -m for the summary, and one for the description when
   *  there is one. */
  function CommitArgs(summary: string, description: string): seq<string> {
    ["commit", "-m", summary] + (if description != "" then ["-m", description] else [])
  }

  /** The values of git's -m options among `args`, in order; an option consumes the argument
   *  after it whatever that argument says. */
  function MessageOptions(args: seq<string>): seq<string>
    decreases |args|
  {
    if |args| < 2 then []
    else if args[0] == "-m" then [args[1]] + MessageOptions(args[2..])
    else MessageOptions(args[1..])
  }

  /** git's commit message for several -m options: their values as paragraphs, separated by a
   *  blank line. */
  function CommitMessage(args: seq<string>): string {
    Join(MessageOptions(args), "\n\n")
  }

  /** The summary and description back from an annotation: the text before the first blank
   *  line, and the text after it. */
  function SplitMessage(message: string): (string, string) {
    match Index(message, "\n\n")
    case None => (message, "")
    case Some(i) => (message[..i], message[i + 2..])
  }

  // ---------------------------------------------------------------------------------------
  // Properties
  // ---------------------------------------------------------------------------------------

  /** The tag names its version, and distinct versions get distinct tags. */
  lemma TagRoundTrip(version: string, other: string)
    ensures TagVersion(TagName(version)) == Some(version)
    ensures TagName(version) == TagName(other) <==> version == other
  {
    assert TagName(version)[1..] == version;
    assert TagName(other)[1..] == other;
  }

  /** The commit records the same message the tag is annotated with. */
  lemma CommitMatchesTag(summary: string, description: string)
    ensures CommitMessage(CommitArgs(summary, description)) == TagMessage(summary, description)
  {
    CommitOptions(summary, description);
    if description != "" {
      var paragraphs := [summary, description];
      assert paragraphs[1..] == [description];
      assert Join(paragraphs, "\n\n") == summary + "\n\n" + description;
    }
  }

  lemma CommitOptions(summary: string, description: string)
    ensures MessageOptions(CommitArgs(summary, description))
      == if description != "" then [summary, description] else [summary]
  {
    var tail: seq<string> := if description != "" then ["-m", description] else [];
    var args := CommitArgs(summary, description);
    assert args == ["commit", "-m", summary] + tail;
    assert args[1..] == ["-m", summary] + tail;
    assert args[1..][2..] == tail;
    if description != "" {
      assert tail[2..] == [];
      assert MessageOptions(tail) == [description];
    }
    assert MessageOptions(args[1..]) == [summary] + MessageOptions(tail);
    assert MessageOptions(args) == MessageOptions(args[1..]);
  }

  /** A one-line summary, as the changelog header yields, is recovered from the annotation
   *  together with the description. */
  lemma MessageRoundTrip(summary: string, description: string)
    requires '\n' !in summary
    ensures SplitMessage(TagMessage(summary, description)) == (summary, description)
  {
    var message := TagMessage(summary, description);
    if description != "" {
      var n := |summary|;
      assert message[n..][..2] == "\n\n";
      ContainsAt(message, "\n\n", n);
      var i := Index(message, "\n\n").value;
      assert forall k :: 0 <= k < n ==> message[k] == summary[k];
      assert message[i..i + 2] == "\n\n";
      assert message[i] == message[i..i + 2][0] == '\n';
      assert !(i > n);
      assert message[..n] == summary && message[n + 2..] == description;
    } else {
      NoBlankLine(summary);
    }
  }

  /** An occurrence at j makes the text contain `sub`. */
  lemma {:induction false} ContainsAt(s: string, sub: string, j: nat)
    requires j <= |s| && HasPrefix(s[j..], sub)
    ensures Contains(s, sub)
    decreases j
  {
    if j > 0 {
      assert s[1..][j - 1..] == s[j..];
      ContainsAt(s[1..], sub, j - 1);
    } else {
      assert s[0..] == s;
    }
  }

  /** A text without newlines has no blank line. */
  lemma {:induction false} NoBlankLine(s: string)
    requires '\n' !in s
    ensures !Contains(s, "\n\n")
    decreases |s|
  {
    if |s| > 0 {
      assert '\n' !in s[1..] by {
        forall k | 0 <= k < |s[1..]| ensures s[1..][k] != '\n' {
          assert s[1..][k] == s[k + 1];
        }
      }
      NoBlankLine(s[1..]);
      assert s[0] != '\n';
    }
  }
}
