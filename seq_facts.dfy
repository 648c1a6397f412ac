/**
 * Facts about slicing and concatenating sequences, stated over an arbitrary element type so
 * that using them never looks at what the elements mean.
 */
module SeqFacts {

  lemma TakeAll<T>(s: seq<T>, n: nat)
    requires n == |s|
    ensures s[..n] == s
  {
  }

  lemma TakeSnoc<T>(s: seq<T>, i: nat)
    requires i < |s|
    ensures s[..i + 1] == s[..i] + [s[i]] && s[..i + 1][..i] == s[..i] && s[..i + 1][i] == s[i]
  {
  }

  lemma SnocParts<T>(a: seq<T>, b: seq<T>, j: nat)
    requires j < |b|
    ensures (a + b[..j + 1])[..|a| + j] == a + b[..j] && (a + b[..j + 1])[|a| + j] == b[j]
  {
  }

  lemma ConsAppend<T>(h: T, a: seq<T>, b: seq<T>)
    ensures [h] + (a + b) == ([h] + a) + b
  {
  }
}
