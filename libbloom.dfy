/**
 * The C engine (libbloom.c): a filter whose bits live in an array of 64-bit words,
 * bit `b` being bit `b % 64` (counted from the least significant end) of word
 * `b / 64`, and a file layout of a big-endian header followed by the words.
 *
 * `FILE` streams are the values of module Serde; libbloom.c carries its own copy of
 * the four big-endian helpers, which are the ones modelled there.
 */
module LibBloom {
  import opened Ints
  import opened BloomSpec
  import opened Seqs
  import Serde

  const MAGIC_HEADER: uint32 := 0xb100f11e

  /** `word_length`: the number of 64-bit words that hold `bits` bits. */
  function WordLength(bits: uint64): uint64
  {
    bits / 64 + (if bits % 64 > 0 then 1 else 0)
  }

  /** `word_length(bits)` is the least `l` with `64 * l >= bits`. */
  lemma WordLengthIsCeiling(bits: uint64)
    ensures 64 * WordLength(bits) >= bits
    ensures WordLength(bits) == 0 || 64 * (WordLength(bits) - 1) < bits
  {
  }

  /**
   * A `hash_func` pointer: bf_merge compares pointers, so the model keeps an address
   * next to the function the pointer calls.
   */
  datatype HashPtr = HashPtr(addr: nat, fn: HashFn)

  // ---------------------------------------------------------------------------
  // Words and bits.

  /** The shift amount `b % 64`. */
  function Offset(b: nat): bv8
  {
    (b % 64) as bv8
  }

  /** Bit `b` of `len` words lies in word `b / 64`, at offset `b % 64`. */
  lemma Locate(b: nat, len: nat)
    requires b < 64 * len
    ensures b / 64 < len && Offset(b) < 64 && Offset(b) as int == b % 64
  {
    var r := b % 64;
    assert (r as bv8) as int == r;
  }

  /** `(x >> k) & 0x1`. */
  predicate WordBit(x: bv64, k: bv8)
    requires k < 64
  {
    (x >> k) & 1 == 1
  }

  /**
   * `x | 1 << k`.  The source shifts the `int` constant `0x1`, which is undefined for
   * offsets of 32 and more; the model shifts a 64-bit one, the offset bf_bit_is_set reads.
   */
  function WithBit(x: bv64, k: bv8): bv64
    requires k < 64
  {
    x | (1 << k)
  }

  lemma SameBit(x: bv64, k: bv8)
    requires k < 64
    ensures WordBit(WithBit(x, k), k)
  {
  }

  lemma OtherBit(x: bv64, k: bv8, j: bv8)
    requires k < 64 && j < 64 && j != k
    ensures WordBit(WithBit(x, k), j) == WordBit(x, j)
  {
  }

  /** The word is unchanged by setting bit `k` iff bit `k` was already set. */
  lemma WithBitSame(x: bv64, k: bv8)
    requires k < 64
    ensures (WithBit(x, k) == x) == WordBit(x, k)
  {
  }

  lemma OrAt(a: bv64, b: bv64, j: bv8)
    requires j < 64
    ensures WordBit(a | b, j) == (WordBit(a, j) || WordBit(b, j))
  {
  }

  lemma ZeroAt(j: bv8)
    requires j < 64
    ensures !WordBit(0, j)
  {
  }

  /** Bit `b` of a word array. */
  predicate BitAt(w: seq<bv64>, b: nat)
    requires b < 64 * |w|
  {
    Locate(b, |w|);
    WordBit(w[b / 64], Offset(b))
  }

  /** The first `n` bits of a word array. */
  function View(w: seq<bv64>, n: nat): seq<bool>
    requires n <= 64 * |w|
  {
    seq(n, b requires 0 <= b < n => BitAt(w, b))
  }

  /** The words after `bf_bit_set(b)`. */
  function SetBitW(w: seq<bv64>, b: nat): (r: seq<bv64>)
    requires b < 64 * |w|
    ensures |r| == |w|
  {
    Locate(b, |w|);
    w[b / 64 := WithBit(w[b / 64], Offset(b))]
  }

  /** The words after setting every index of `indices`, in order. */
  function SetBitsW(w: seq<bv64>, indices: seq<nat>): (r: seq<bv64>)
    requires InRange(indices, 64 * |w|)
    ensures |r| == |w|
  {
    if indices == [] then w
    else
      var n := |indices| - 1;
      SetBitW(SetBitsW(w, indices[..n]), indices[n])
  }

  /** Word-wise OR. */
  function OrW(a: seq<bv64>, b: seq<bv64>): (r: seq<bv64>)
    requires |a| == |b|
    ensures |r| == |a|
  {
    seq(|a|, i requires 0 <= i < |a| => a[i] | b[i])
  }

  /** Two bits in the same word at the same offset are the same bit. */
  lemma SameSpot(b: nat, c: nat)
    requires b / 64 == c / 64 && b % 64 == c % 64
    ensures b == c
  {
  }

  /** Setting bit `b` sets bit `b` and leaves every other bit as it was. */
  lemma SetBitAt(w: seq<bv64>, b: nat, c: nat)
    requires b < 64 * |w| && c < 64 * |w|
    ensures BitAt(SetBitW(w, b), c) == (BitAt(w, c) || c == b)
  {
    Locate(b, |w|);
    Locate(c, |w|);
    var i := b / 64;
    if c / 64 == i {
      if c % 64 == b % 64 {
        SameSpot(b, c);
        SameBit(w[i], Offset(b));
      } else {
        OtherBit(w[i], Offset(b), Offset(c));
      }
    }
  }

  lemma OrWordAt(a: seq<bv64>, b: seq<bv64>, i: nat, k: bv8)
    requires |a| == |b| && i < |a| && k < 64
    ensures WordBit(OrW(a, b)[i], k) == (WordBit(a[i], k) || WordBit(b[i], k))
  {
    var x := OrW(a, b)[i];
    assert x == a[i] | b[i];
    OrAt(a[i], b[i], k);
  }

  /** A bit of the word-wise OR is the OR of the two bits. */
  lemma OrBitAt(a: seq<bv64>, b: seq<bv64>, c: nat)
    requires |a| == |b| && c < 64 * |a|
    ensures BitAt(OrW(a, b), c) == (BitAt(a, c) || BitAt(b, c))
  {
    Locate(c, |a|);
    OrWordAt(a, b, c / 64, Offset(c));
  }

  lemma ZeroBitAt(k: nat, c: nat)
    requires c < 64 * k
    ensures !BitAt(seq(k, _ => 0), c)
  {
    Locate(c, k);
    ZeroAt(Offset(c));
  }

  /** Setting one bit of the words sets exactly that bit of the view. */
  lemma ViewSetBit(w: seq<bv64>, n: nat, b: nat)
    requires b < n <= 64 * |w|
    ensures View(SetBitW(w, b), n) == View(w, n)[b := true]
  {
    forall c | 0 <= c < n
      ensures View(SetBitW(w, b), n)[c] == View(w, n)[b := true][c]
    {
      SetBitAt(w, b, c);
    }
  }

  /** Setting the key's indices in the words is SetAll on the view. */
  lemma {:induction false} ViewSetBits(w: seq<bv64>, n: nat, indices: seq<nat>)
    requires n <= 64 * |w| && InRange(indices, n)
    ensures View(SetBitsW(w, indices), n) == SetAll(View(w, n), indices)
  {
    if indices != [] {
      var m := |indices| - 1;
      ViewSetBits(w, n, indices[..m]);
      ViewSetBit(SetBitsW(w, indices[..m]), n, indices[m]);
    }
  }

  /**
   * The bits from `n` on agree: for a filter of `size` bits, the padding at the end of
   * its last word, which bf_write_to_file saves with the rest.
   */
  predicate SamePadding(a: seq<bv64>, b: seq<bv64>, n: nat)
    requires |a| == |b|
  {
    forall c :: n <= c < 64 * |a| ==> BitAt(a, c) == BitAt(b, c)
  }

  /** Setting indices below `n` leaves every bit from `n` on as it was. */
  lemma {:induction false} SetBitsPadding(w: seq<bv64>, n: nat, indices: seq<nat>)
    requires n <= 64 * |w| && InRange(indices, n)
    ensures SamePadding(SetBitsW(w, indices), w, n)
  {
    if indices != [] {
      var m := |indices| - 1;
      SetBitsPadding(w, n, indices[..m]);
      forall c | n <= c < 64 * |w|
        ensures BitAt(SetBitsW(w, indices), c) == BitAt(w, c)
      {
        SetBitAt(SetBitsW(w, indices[..m]), indices[m], c);
      }
    }
  }

  /** Word-wise OR is bit-wise OR of the views. */
  lemma ViewOr(a: seq<bv64>, b: seq<bv64>, n: nat)
    requires |a| == |b| && n <= 64 * |a|
    ensures View(OrW(a, b), n) == Or(View(a, n), View(b, n), n)
  {
    forall c | 0 <= c < n
      ensures View(OrW(a, b), n)[c] == (View(a, n)[c] || View(b, n)[c])
    {
      OrBitAt(a, b, c);
    }
  }

  /** Zeroed words hold no bit. */
  lemma ViewZero(k: nat, n: nat)
    requires n <= 64 * k
    ensures View(seq(k, _ => 0), n) == seq(n, _ => false)
  {
    var zero: seq<bv64> := seq(k, _ => 0);
    forall c | 0 <= c < n
      ensures !View(zero, n)[c]
    {
      ZeroBitAt(k, c);
    }
  }

  /**
   * One iteration of bf_add's loop in terms of the view: setting the next index
   * extends SetBitsW, and the bit it finds is the one SetAll has left there.
   */
  lemma AddStep(w: seq<bv64>, n: nat, indices: seq<nat>, i: nat)
    requires n <= 64 * |w| && InRange(indices, n) && i < |indices|
    ensures SetBitW(SetBitsW(w, indices[..i]), indices[i]) == SetBitsW(w, indices[..i + 1])
    ensures BitAt(SetBitsW(w, indices[..i]), indices[i]) == SetAll(View(w, n), indices[..i])[indices[i]]
    ensures AnyAlreadySet(View(w, n), indices[..i + 1])
         == (AnyAlreadySet(View(w, n), indices[..i]) || SetAll(View(w, n), indices[..i])[indices[i]])
  {
    assert indices[..i + 1][..i] == indices[..i];
    ViewSetBits(w, n, indices[..i]);
    assert View(SetBitsW(w, indices[..i]), n)[indices[i]] == BitAt(SetBitsW(w, indices[..i]), indices[i]);
    AnyAlreadySetStep(View(w, n), indices, i);
  }

  // ---------------------------------------------------------------------------
  // The filter.

  class Filter {
    const func: HashPtr
    const hashes: uint32
    const size: uint64
    const content: array<bv64>

    /** `content` holds `word_length(size)` words. */
    ghost predicate Valid()
    {
      content.Length == WordLength(size)
    }

    /** bf_add and bf_has divide by `size`; with no hashes nothing is divided. */
    ghost predicate Usable()
    {
      hashes == 0 || size > 0
    }

    /** The filter's `size` bits. */
    ghost function Bits(): (bits: seq<bool>)
      reads content
      requires Valid()
      ensures |bits| == size
    {
      WordLengthIsCeiling(size);
      View(content[..], size)
    }

    ghost function KeyIndices(key: seq<uint8>): (r: seq<nat>)
      requires Valid() && Usable()
      ensures InRange(r, size) && InRange(r, 64 * content.Length)
    {
      WordLengthIsCeiling(size);
      Indices(func.fn, hashes, size, key)
    }

    /** `bf_mk`: `word_length(number_of_bits)` words, all zero. */
    constructor Mk(hf: HashPtr, hashes: uint32, numberOfBits: uint64)
      ensures func == hf && this.hashes == hashes && size == numberOfBits
      ensures fresh(content) && Valid()
      ensures content[..] == seq(WordLength(numberOfBits), _ => 0)
      ensures Bits() == seq(numberOfBits, _ => false)
    {
      func, this.hashes, size := hf, hashes, numberOfBits;
      content := new bv64[WordLength(numberOfBits)](_ => 0);
      new;
      WordLengthIsCeiling(size);
      ViewZero(content.Length, size);
    }

    /** `bf_bit_is_set`: bit `bit % 64` of word `bit / 64`. */
    predicate BitIsSet(bit: uint64)
      reads content
      requires bit < 64 * content.Length
    {
      var word := bit / 64;
      Locate(bit, content.Length);
      WordBit(content[word], Offset(bit))
    }

    /** bf_bit_is_set reads the filter's bit. */
    lemma BitIsSetIsBit(bit: uint64)
      requires Valid() && bit < size
      ensures BitIsSet(bit) == Bits()[bit]
    {
      WordLengthIsCeiling(size);
    }

    /** `bf_bit_set`: sets the bit; true iff its word did not change, which is iff the bit was set. */
    method BitSet(bit: uint64) returns (wasSet: bool)
      requires bit < 64 * content.Length
      modifies content
      ensures content[..] == SetBitW(old(content[..]), bit)
      ensures wasSet == BitAt(old(content[..]), bit)
    {
      var word := bit / 64;
      Locate(bit, content.Length);
      var prev := content[word];
      content[word] := content[word] | (1 << Offset(bit));
      WithBitSame(prev, Offset(bit));
      wasSet := prev == content[word];
    }

    /**
     * `bf_add`: sets the key's bits.  Returns true iff some of the k sets found its
     * bit already set, counting bits set earlier in the same call.
     */
    method Add(key: seq<uint8>) returns (found: bool)
      requires Valid() && Usable()
      modifies content
      ensures content[..] == SetBitsW(old(content[..]), KeyIndices(key))
      ensures Bits() == SetAll(old(Bits()), KeyIndices(key))
      ensures found == AnyAlreadySet(old(Bits()), KeyIndices(key))
      ensures AllSet(Bits(), KeyIndices(key))
    {
      WordLengthIsCeiling(size);
      ghost var w0 := content[..];
      ghost var b0 := Bits();
      ghost var indices := KeyIndices(key);
      found := false;
      var i: uint32 := 0;
      while i < hashes
        invariant i <= hashes
        invariant content[..] == SetBitsW(w0, indices[..i])
        invariant found == AnyAlreadySet(b0, indices[..i])
      {
        ModLe(func.fn(i, key), size);
        var hash: uint32 := func.fn(i, key) % size;
        AddStep(w0, size, indices, i);
        var already := BitSet(hash);
        found := found || already;
        i := i + 1;
      }
      assert indices[..i] == indices;
      ViewSetBits(w0, size, indices);
      NoFalseNegative(b0, indices);
    }

    /** `bf_has`: true iff all k bits of the key are set; changes nothing. */
    method Has(key: seq<uint8>) returns (present: bool)
      requires Valid() && Usable()
      ensures present == AllSet(Bits(), KeyIndices(key))
    {
      WordLengthIsCeiling(size);
      ghost var indices := KeyIndices(key);
      present := true;
      var i: uint32 := 0;
      while i < hashes
        invariant i <= hashes
        invariant present == AllSet(Bits(), indices[..i])
      {
        ModLe(func.fn(i, key), size);
        var hash: uint32 := func.fn(i, key) % size;
        assert hash == indices[i];
        if present {
          BitIsSetIsBit(hash);
        }
        present := present && BitIsSet(hash);
        i := i + 1;
      }
      assert indices[..i] == indices;
    }
  }

  /** The loop of bf_merge: `dst[i] = a[i] | b[i]` for every word. */
  method OrWords(dst: array<bv64>, a: array<bv64>, b: array<bv64>)
    requires dst.Length == a.Length == b.Length && dst != a && dst != b
    modifies dst
    ensures dst[..] == OrW(a[..], b[..])
  {
    ghost var want := OrW(a[..], b[..]);
    var i := 0;
    while i < dst.Length
      invariant i <= dst.Length
      invariant forall j :: 0 <= j < i ==> dst[j] == want[j]
    {
      dst[i] := a[i] | b[i];
      i := i + 1;
    }
    assert dst[..] == want;
  }

  /**
   * `bf_merge`: a new filter holding the word-wise OR, or null when the hash
   * pointers, the sizes or the hash counts differ.  Neither input changes.
   */
  method Merge(f1: Filter, f2: Filter) returns (res: Filter?)
    requires f1.Valid() && f2.Valid()
    ensures res == null <==> f1.func.addr != f2.func.addr || f1.size != f2.size || f1.hashes != f2.hashes
    ensures res != null ==> fresh(res) && fresh(res.content) && res.Valid()
    ensures res != null ==> res.func == f1.func && res.hashes == f1.hashes && res.size == f1.size
    ensures res != null ==> res.content[..] == OrW(f1.content[..], f2.content[..])
    ensures res != null ==> res.Bits() == Or(f1.Bits(), f2.Bits(), f1.size)
  {
    if f1.func.addr != f2.func.addr || f1.size != f2.size || f1.hashes != f2.hashes {
      return null;
    }
    res := new Filter.Mk(f1.func, f1.hashes, f1.size);
    OrWords(res.content, f1.content, f2.content);
    WordLengthIsCeiling(f1.size);
    ViewOr(f1.content[..], f2.content[..], f1.size);
  }

  // ---------------------------------------------------------------------------
  // The file format.

  /** The numeric value of each word, as `out64` takes it. */
  function Nums(ws: seq<bv64>): (r: seq<uint64>)
    ensures |r| == |ws|
  {
    seq(|ws|, i requires 0 <= i < |ws| => ws[i] as int)
  }

  /** The 64-bit words holding the numbers, as `read64` stores them. */
  function Words(ns: seq<uint64>): (r: seq<bv64>)
    ensures |r| == |ns|
  {
    Map((n: uint64) => n as bv64, ns)
  }

  lemma WordsSnoc(ns: seq<uint64>, n: uint64)
    ensures Words(ns + [n]) == Words(ns) + [n as bv64]
  {
    MapSnoc((n: uint64) => n as bv64, ns, n);
  }

  /** Storing the numeric value of each word gives the words back. */
  lemma WordsNums(ws: seq<bv64>)
    ensures Words(Nums(ws)) == ws
  {
    forall i | 0 <= i < |ws|
      ensures Words(Nums(ws))[i] == ws[i]
    {
      var n := Nums(ws)[i];
      assert n == ws[i] as int;
    }
  }

  /** The words, each written with `out64`. */
  function WordsBE(ws: seq<uint64>): (bytes: seq<uint8>)
    ensures |bytes| == 8 * |ws|
  {
    if ws == [] then [] else WordsBE(ws[..|ws| - 1]) + Serde.ToBE(ws[|ws| - 1], 8)
  }

  /** `n` words read with `read64`. */
  function ParseWords(bytes: seq<uint8>, n: nat): (ws: seq<uint64>)
    requires 8 * n <= |bytes|
    ensures |ws| == n
  {
    if n == 0 then []
    else
      Serde.Pow256Widths();
      ParseWords(bytes, n - 1) + [Serde.FromBE(bytes[8 * (n - 1) .. 8 * n])]
  }

  /** The bytes bf_write_to_file produces: magic, hashes, size, then every word. */
  function Encode(hashes: uint32, size: uint64, words: seq<uint64>): (bytes: seq<uint8>)
    ensures |bytes| == 16 + 8 * |words|
  {
    Serde.ToBE(MAGIC_HEADER, 4) + Serde.ToBE(hashes, 4) + Serde.ToBE(size, 8) + WordsBE(words)
  }

  datatype Decoded = Decoded(hashes: uint32, size: uint64, words: seq<uint64>)

  /** What bf_read_from_file accepts: a 16-byte header with the magic word, then all words. */
  function Decode(bytes: seq<uint8>): Option<Decoded>
  {
    if |bytes| < 16 || Serde.FromBE(bytes[..4]) != MAGIC_HEADER then None
    else
      Serde.Pow256Widths();
      var hashes: uint32 := Serde.FromBE(bytes[4..8]);
      var size: uint64 := Serde.FromBE(bytes[8..16]);
      if |bytes| < 16 + 8 * WordLength(size) then None
      else Some(Decoded(hashes, size, ParseWords(bytes[16..], WordLength(size))))
  }

  lemma ParseWordsLast(prefix: seq<uint8>, word: seq<uint8>, rest: seq<uint8>, n: nat)
    requires n > 0 && |prefix| == 8 * (n - 1) && |word| == 8
    ensures ParseWords(prefix + (word + rest), n)
         == ParseWords(prefix + (word + rest), n - 1) + [Serde.FromBE(word)]
  {
    assert (prefix + (word + rest))[8 * (n - 1) .. 8 * n] == word;
  }

  lemma {:induction false} ParseWordsBE(ws: seq<uint64>, rest: seq<uint8>)
    ensures ParseWords(WordsBE(ws) + rest, |ws|) == ws
  {
    if ws != [] {
      var n := |ws|;
      var front := ws[..n - 1];
      var prefix := WordsBE(front);
      var word := Serde.ToBE(ws[n - 1], 8);
      var bytes := prefix + (word + rest);
      AppendAssoc(prefix, word, rest);
      assert WordsBE(ws) + rest == bytes;
      ParseWordsBE(front, word + rest);
      assert ParseWords(bytes, n - 1) == front;
      ParseWordsLast(prefix, word, rest, n);
      Serde.Pow256Widths();
      Serde.FromBEToBE(ws[n - 1], 8);
      FrontLast(ws);
    }
  }

  /** Reading back what bf_write_to_file wrote reproduces hashes, size and every word. */
  lemma {:induction false} DecodeEncode(hashes: uint32, size: uint64, words: seq<uint64>, rest: seq<uint8>)
    requires |words| == WordLength(size)
    ensures Decode(Encode(hashes, size, words) + rest) == Some(Decoded(hashes, size, words))
  {
    var body := WordsBE(words);
    var bytes := Encode(hashes, size, words) + rest;
    var h1, h2, h3 := Serde.ToBE(MAGIC_HEADER, 4), Serde.ToBE(hashes, 4), Serde.ToBE(size, 8);
    assert bytes == h1 + h2 + h3 + body + rest;
    assert bytes[..4] == h1;
    assert bytes[4..8] == h2;
    assert bytes[8..16] == h3;
    assert bytes[16..] == body + rest;
    Serde.Pow256Widths();
    Serde.FromBEToBE(MAGIC_HEADER, 4);
    Serde.FromBEToBE(hashes, 4);
    Serde.FromBEToBE(size, 8);
    ParseWordsBE(words, rest);
  }

  /** A short header, a wrong magic word or a short body is refused. */
  lemma DecodeRefuses(bytes: seq<uint8>)
    ensures |bytes| < 16 ==> Decode(bytes).None?
    ensures |bytes| >= 16 && Serde.FromBE(bytes[..4]) != 0xb100f11e ==> Decode(bytes).None?
    ensures |bytes| >= 16 && Serde.FromBE(bytes[8..16]) < 0x1_0000_0000_0000_0000
            && |bytes| < 16 + 8 * WordLength(Serde.FromBE(bytes[8..16]))
            ==> Decode(bytes).None?
  {
  }

  /** What one more `out64` of a word adds to the words written so far. */
  lemma WriteStep(written: seq<uint8>, ns: seq<uint64>, i: nat)
    requires i < |ns|
    ensures written + WordsBE(ns[..i]) + Serde.ToBE(ns[i], 8) == written + WordsBE(ns[..i + 1])
  {
    assert ns[..i + 1][..i] == ns[..i];
    AppendAssoc(written, WordsBE(ns[..i]), Serde.ToBE(ns[i], 8));
  }

  /** `bf_write_to_file`: true iff every write succeeded; the first failure stops the writes. */
  method WriteToFile(f: Filter, file: Serde.Sink) returns (ok: bool, file': Serde.Sink)
    requires f.Valid()
    ensures ok == (|Encode(f.hashes, f.size, Nums(f.content[..]))| <= file.room)
    ensures ok ==> file' == Serde.Sink(file.written + Encode(f.hashes, f.size, Nums(f.content[..])),
                                       file.room - |Encode(f.hashes, f.size, Nums(f.content[..]))|)
  {
    ghost var header := Serde.ToBE(MAGIC_HEADER, 4) + Serde.ToBE(f.hashes, 4) + Serde.ToBE(f.size, 8);
    ghost var ns := Nums(f.content[..]);
    var failure := false;
    file' := file;
    if !failure {
      failure, file' := Serde.Out32(file', MAGIC_HEADER);
    }
    if !failure {
      failure, file' := Serde.Out32(file', f.hashes);
    }
    if !failure {
      failure, file' := Serde.Out64(file', f.size);
    }
    if !failure {
      AppendAssoc(file.written, Serde.ToBE(MAGIC_HEADER, 4), Serde.ToBE(f.hashes, 4));
      AppendAssoc(file.written, Serde.ToBE(MAGIC_HEADER, 4) + Serde.ToBE(f.hashes, 4), Serde.ToBE(f.size, 8));
    }
    var i: uint64 := 0;
    while i < WordLength(f.size) && !failure
      invariant i <= WordLength(f.size)
      invariant !failure ==> 16 + 8 * i <= file.room
      invariant !failure ==> file' == Serde.Sink(file.written + header + WordsBE(ns[..i]), file.room - (16 + 8 * i))
      invariant failure ==> file.room < 16 + 8 * WordLength(f.size)
    {
      failure, file' := Serde.Out64(file', f.content[i] as int);
      if !failure {
        WriteStep(file.written + header, ns, i);
      }
      i := i + 1;
    }
    if !failure {
      assert ns[..i] == ns;
      AppendAssoc(file.written, header, WordsBE(ns));
    }
    ok := !failure;
  }

  /**
   * `bf_read_from_file`: null on a short header, a wrong magic word or a short body;
   * otherwise a new filter with the file's hashes, size and words, calling `hf`.
   */
  method ReadFromFile(file: Serde.Source, hf: HashPtr) returns (f: Filter?, file': Serde.Source)
    ensures f == null <==> Decode(file.rest).None?
    ensures f != null ==> fresh(f) && fresh(f.content) && f.Valid() && f.func == hf
    ensures f != null ==> Decode(file.rest).Some? && f.hashes == Decode(file.rest).value.hashes
                          && f.size == Decode(file.rest).value.size
                          && f.content[..] == Words(Decode(file.rest).value.words)
  {
    var header: uint32 := 0;
    var hashes: uint32 := 0;
    var size: uint64 := 0;
    var failure := false;
    if !failure {
      failure, header, file' := Serde.Read32(file);
    }
    if !failure {
      failure, hashes, file' := Serde.Read32(file');
    }
    if !failure {
      failure, size, file' := Serde.Read64(file');
    }
    if failure || header != MAGIC_HEADER {
      return null, file';
    }
    DropTake(file.rest, 4, 4);
    DropTake(file.rest, 8, 8);
    assert file.rest[4..][4..] == file.rest[8..];
    assert hashes == Serde.FromBE(file.rest[4..8]) && size == Serde.FromBE(file.rest[8..16]);
    ghost var body := file.rest[16..];
    f := new Filter.Mk(hf, hashes, size);
    failure, file' := ReadWords(f, body, file');
    if failure {
      return null, file';
    }
  }

  /** What one more `read64` of the body adds to the words read so far. */
  lemma ReadStep(body: seq<uint8>, i: nat, ns: seq<uint64>, w: uint64)
    requires 8 * (i + 1) <= |body| && ns == ParseWords(body, i)
    requires w == Serde.FromBE(body[8 * i..][..8])
    ensures ns + [w] == ParseWords(body, i + 1)
    ensures body[8 * i..][8..] == body[8 * (i + 1)..]
  {
    DropTake(body, 8 * i, 8);
  }

  /** The word loop of bf_read_from_file, filling the words of the new filter `f`. */
  method ReadWords(f: Filter, ghost body: seq<uint8>, file: Serde.Source)
    returns (failure: bool, file': Serde.Source)
    requires f.Valid() && file.rest == body
    modifies f.content
    ensures failure <==> |body| < 8 * WordLength(f.size)
    ensures !failure ==> f.content[..] == Words(ParseWords(body, WordLength(f.size)))
  {
    failure := false;
    file' := file;
    ghost var ns: seq<uint64> := [];
    var i: uint64 := 0;
    while i < WordLength(f.size) && !failure
      invariant i <= WordLength(f.size) && f.Valid()
      invariant !failure ==> 8 * i <= |body| && file'.rest == body[8 * i..] && ns == ParseWords(body, i)
      invariant !failure ==> f.content[..i] == Words(ns)
      invariant failure ==> |body| < 8 * WordLength(f.size)
    {
      var w: uint64;
      failure, w, file' := Serde.Read64(file');
      f.content[i] := w as bv64;
      if !failure {
        ReadStep(body, i, ns, w);
        PrefixSnoc(f.content[..], i);
        WordsSnoc(ns, w);
        ns := ns + [w];
      }
      i := i + 1;
    }
    if !failure {
      assert f.content[..] == f.content[..i];
    }
  }
}
