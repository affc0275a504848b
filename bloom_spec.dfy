/**
 * Abstract semantics shared by the two Bloom-filter engines (BloomFilter.cpp and
 * libbloom.c): the filter's bits as a sequence of booleans, the k bit indices of a
 * key, and what inserting, testing and merging do to that sequence.  Each engine
 * is proved against these definitions in its own module.
 */
module BloomSpec {
  import opened Ints

  datatype Option<T> = None | Some(value: T)

  /**
   * The injected hash function: (seed, key) to a 32-bit digest.  It stands for the
   * function pointer of both sources (MurmurHash3 in main.cpp, PMurHash32 in main.c).
   */
  type HashFn = (uint32, seq<uint8>) -> uint32

  predicate InRange(indices: seq<nat>, n: nat)
  {
    forall j :: 0 <= j < |indices| ==> indices[j] < n
  }

  /** The bit indices `hash(seed = i, key) % size` for `i < hashCount`. */
  function Indices(hash: HashFn, hashCount: uint32, size: nat, key: seq<uint8>): (r: seq<nat>)
    requires hashCount == 0 || size > 0
    ensures |r| == hashCount
    ensures InRange(r, size)
  {
    seq(hashCount, i requires 0 <= i < hashCount => hash(i, key) % size)
  }

  /** `bits` with every position in `indices` set, set in order. */
  function SetAll(bits: seq<bool>, indices: seq<nat>): (r: seq<bool>)
    requires InRange(indices, |bits|)
    ensures |r| == |bits|
    ensures forall i :: 0 <= i < |bits| ==> r[i] == (bits[i] || i in indices)
  {
    if indices == [] then bits
    else
      var n := |indices| - 1;
      SetAll(bits, indices[..n])[indices[n] := true]
  }

  /** Every position in `indices` is set: the membership test. */
  predicate AllSet(bits: seq<bool>, indices: seq<nat>)
    requires InRange(indices, |bits|)
  {
    forall j :: 0 <= j < |indices| ==> bits[indices[j]]
  }

  /**
   * Setting `indices` one after the other, some set finds its bit already set in
   * the state the earlier sets of the same sequence left.
   */
  predicate AnyAlreadySet(bits: seq<bool>, indices: seq<nat>)
    requires InRange(indices, |bits|)
  {
    if indices == [] then false
    else
      var n := |indices| - 1;
      AnyAlreadySet(bits, indices[..n]) || SetAll(bits, indices[..n])[indices[n]]
  }

  /** One more set of the sequence: found-already-set accumulates by disjunction. */
  lemma AnyAlreadySetStep(bits: seq<bool>, indices: seq<nat>, k: nat)
    requires InRange(indices, |bits|) && k < |indices|
    ensures AnyAlreadySet(bits, indices[..k + 1])
        == (AnyAlreadySet(bits, indices[..k]) || SetAll(bits, indices[..k])[indices[k]])
  {
    assert indices[..k + 1][..k] == indices[..k];
  }

  /** Some index was set before the call, or repeats an earlier index of the same key. */
  predicate HitsSetOrRepeat(bits: seq<bool>, indices: seq<nat>)
    requires InRange(indices, |bits|)
  {
    exists j :: 0 <= j < |indices| && (bits[indices[j]] || indices[j] in indices[..j])
  }

  lemma {:induction false} AlreadySetHits(bits: seq<bool>, indices: seq<nat>)
    requires InRange(indices, |bits|) && AnyAlreadySet(bits, indices)
    ensures HitsSetOrRepeat(bits, indices)
  {
    var n := |indices| - 1;
    var p := indices[..n];
    if AnyAlreadySet(bits, p) {
      AlreadySetHits(bits, p);
      var j :| 0 <= j < |p| && (bits[p[j]] || p[j] in p[..j]);
      assert p[..j] == indices[..j];
      assert indices[j] == p[j];
    } else {
      assert bits[indices[n]] || indices[n] in indices[..n];
    }
  }

  lemma {:induction false} HitsAlreadySet(bits: seq<bool>, indices: seq<nat>)
    requires InRange(indices, |bits|) && HitsSetOrRepeat(bits, indices)
    ensures AnyAlreadySet(bits, indices)
  {
    var n := |indices| - 1;
    var p := indices[..n];
    var j :| 0 <= j < |indices| && (bits[indices[j]] || indices[j] in indices[..j]);
    if j < n {
      assert p[..j] == indices[..j];
      assert p[j] == indices[j];
      assert bits[p[j]] || p[j] in p[..j];
      HitsAlreadySet(bits, p);
    } else {
      assert SetAll(bits, p)[indices[n]];
    }
  }

  /**
   * "Already set" means: some index was set before the call, or repeats an earlier
   * index of the same key.
   */
  lemma AnyAlreadySetMeans(bits: seq<bool>, indices: seq<nat>)
    requires InRange(indices, |bits|)
    ensures AnyAlreadySet(bits, indices) <==> HitsSetOrRepeat(bits, indices)
  {
    if AnyAlreadySet(bits, indices) {
      AlreadySetHits(bits, indices);
    }
    if HitsSetOrRepeat(bits, indices) {
      HitsAlreadySet(bits, indices);
    }
  }

  /** Bitwise OR of the first `n` bits of two filters. */
  function Or(a: seq<bool>, b: seq<bool>, n: nat): (r: seq<bool>)
    requires n <= |a| && n <= |b|
    ensures |r| == n
  {
    seq(n, i requires 0 <= i < n => a[i] || b[i])
  }

  /** No false negatives: once a key's bits are set, the key tests present. */
  lemma NoFalseNegative(bits: seq<bool>, indices: seq<nat>)
    requires InRange(indices, |bits|)
    ensures AllSet(SetAll(bits, indices), indices)
  {
    forall j | 0 <= j < |indices|
      ensures SetAll(bits, indices)[indices[j]]
    {
      assert indices[j] in indices;
    }
  }

  /** Inserting never clears a bit, so a key that tests present stays present. */
  lemma StaysPresent(bits: seq<bool>, indices: seq<nat>, other: seq<nat>)
    requires InRange(indices, |bits|) && InRange(other, |bits|)
    requires AllSet(bits, other)
    ensures AllSet(SetAll(bits, indices), other)
  {
  }

  /** A key that already tests present makes some set find its bit already set. */
  lemma AllSetIsAlreadySet(bits: seq<bool>, indices: seq<nat>)
    requires InRange(indices, |bits|)
    requires |indices| > 0 && AllSet(bits, indices)
    ensures AnyAlreadySet(bits, indices)
  {
    AnyAlreadySetMeans(bits, indices);
    assert bits[indices[0]];
  }

  /**
   * The converse fails: two hashes of one absent key landing on the same bit make
   * "some bit already set" true although the key was never present.
   */
  lemma AlreadySetWithoutPresence()
    ensures AnyAlreadySet([false, false], [1, 1]) && !AllSet([false, false], [1, 1])
  {
    var idx: seq<nat> := [1, 1];
    assert idx[..1] == [1];
    assert idx[..0] == [];
  }

  /** Merging is commutative bit for bit. */
  lemma OrCommutes(a: seq<bool>, b: seq<bool>, n: nat)
    requires n <= |a| && n <= |b|
    ensures Or(a, b, n) == Or(b, a, n)
  {
  }

  /** A key present in either operand is present in the merge. */
  lemma OrKeepsMembers(a: seq<bool>, b: seq<bool>, n: nat, indices: seq<nat>)
    requires n <= |a| && n <= |b| && InRange(indices, n)
    requires AllSet(a, indices) || AllSet(b, indices)
    ensures AllSet(Or(a, b, n), indices)
  {
  }
}
