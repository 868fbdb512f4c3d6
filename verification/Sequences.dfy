/** Facts about slices that the wire formats use over and over. */
module Sequences {
  lemma Middle<T>(a: seq<T>, b: seq<T>, c: seq<T>)
    ensures (a + b + c)[|a|..|a| + |b|] == b
  {
  }

  /** A stretch of a stretch. */
  lemma SubSlice<T>(s: seq<T>, start: nat, w: seq<T>, i: nat, j: nat)
    requires start + |w| <= |s| && s[start..start + |w|] == w && i <= j <= |w|
    ensures s[start + i..start + j] == w[i..j]
    ensures i < |w| ==> s[start + i] == w[i]
  {
    forall k | 0 <= k < |w|
      ensures s[start + k] == w[k]
    {
      assert s[start + k] == s[start..start + |w|][k];
    }
  }

  lemma HeadAndTail<T>(s: seq<T>, k: nat)
    requires k < |s|
    ensures s[k..] == [s[k]] + s[k + 1..]
  {
  }

  lemma InitAndLast<T>(s: seq<T>, k: nat)
    requires k < |s|
    ensures s[..k + 1] == s[..k] + [s[k]]
    ensures s[..k + 1][..k] == s[..k]
  {
  }

  lemma SplitAt<T>(s: seq<T>, k: nat)
    requires k <= |s|
    ensures s == s[..k] + s[k..]
  {
  }

  lemma TailOfConcat<T>(a: seq<T>, b: seq<T>)
    requires a != []
    ensures (a + b)[1..] == a[1..] + b
  {
  }

  lemma Associative<T>(a: seq<T>, b: seq<T>, c: seq<T>)
    ensures a + (b + c) == (a + b) + c
  {
  }

  lemma WholeSlice<T>(s: seq<T>)
    ensures s[..|s|] == s && s[0..] == s && s[..0] == [] && s[|s|..] == []
  {
  }
}
