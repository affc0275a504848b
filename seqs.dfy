/** Facts about sequence concatenation and slicing that the stream proofs cite by name. */
module Seqs {
  lemma AppendAssoc<T>(a: seq<T>, b: seq<T>, c: seq<T>)
    ensures (a + b) + c == a + (b + c)
  {
  }

  lemma SliceSplit<T>(s: seq<T>, a: nat, b: nat)
    requires a <= b <= |s|
    ensures s[..b] == s[..a] + s[a..b]
  {
  }

  lemma DropTake<T>(s: seq<T>, a: nat, k: nat)
    requires a + k <= |s|
    ensures s[a..][..k] == s[a .. a + k]
    ensures s[a..][k..] == s[a + k..]
  {
  }

  /** A non-empty sequence is its front followed by its last element. */
  lemma FrontLast<T>(s: seq<T>)
    requires |s| > 0
    ensures s == s[..|s| - 1] + [s[|s| - 1]]
  {
  }

  /** `s` cut before `a`, before `k` and after `k`. */
  lemma SplitAround<T>(s: seq<T>, a: nat, k: nat)
    requires a <= k < |s|
    ensures s == s[..a] + s[a..k] + [s[k]] + s[k + 1..]
  {
    assert s == s[..k] + s[k..];
    assert s[..k] == s[..a] + s[a..k];
    assert s[k..] == [s[k]] + s[k + 1..];
  }

  /** The front and the last element of `s + [x]`. */
  lemma SnocParts<T>(s: seq<T>, x: T)
    ensures (s + [x])[..|s|] == s && (s + [x])[|s|] == x
  {
  }

  lemma PrefixSnoc<T>(s: seq<T>, i: nat)
    requires i < |s|
    ensures s[..i + 1] == s[..i] + [s[i]]
  {
  }

  /** `f` applied to every element. */
  function Map<A, B>(f: A -> B, s: seq<A>): (r: seq<B>)
    ensures |r| == |s|
  {
    seq(|s|, i requires 0 <= i < |s| => f(s[i]))
  }

  lemma MapSnoc<A, B>(f: A -> B, s: seq<A>, x: A)
    ensures Map(f, s + [x]) == Map(f, s) + [f(x)]
  {
  }
}
