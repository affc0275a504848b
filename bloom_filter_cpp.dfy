/**
 * The C++ engine (BloomFilter.cpp): class BloomFilter over a growable bit vector,
 * and BloomFilterSerializer, which writes a magic word, the header and the bits in
 * 64-bit chunks whose most significant bit is the chunk's first bit.
 *
 * `std::istream` and `std::ostream` are values here: the bytes not read yet (or
 * written so far, with the room left on the device) and the sticky eof/fail flags.
 */
module BloomFilterCpp {
  import opened Ints
  import opened BloomSpec
  import opened Seqs
  import Serde

  const MAGIC_HEADER: uint32 := 0xb100f11e

  class BloomFilter {
    var hashCount: uint32
    var func: HashFn
    var size: uint64
    var contents: seq<bool>

    /** `contents_` covers `size_` bits; after ReadFromFile it holds whole 64-bit chunks. */
    ghost predicate Valid()
      reads this
    {
      size <= |contents|
    }

    /** Add and Check divide by `size_`; with no hashes nothing is divided. */
    ghost predicate Usable()
      reads this
    {
      hashCount == 0 || size > 0
    }

    /** The bit indices Add and Check visit for `key`. */
    ghost function KeyIndices(key: seq<uint8>): (r: seq<nat>)
      reads this
      requires Valid() && Usable()
      ensures InRange(r, |contents|)
    {
      Indices(func, hashCount, size, key)
    }

    /**
     * `BloomFilter()`: no hashes, no bits.  The source leaves `func_` null; the model
     * has no null function, so it takes the one ReadFromFile installs right after.
     */
    constructor Empty(h: HashFn)
      ensures hashCount == 0 && func == h && size == 0 && contents == []
      ensures Valid()
    {
      hashCount, func, size, contents := 0, h, 0, [];
    }

    /** `BloomFilter(hashCount, func, size)`: `size` bits, all clear. */
    constructor (hashCount: uint32, func: HashFn, size: uint64)
      ensures this.hashCount == hashCount && this.func == func && this.size == size
      ensures contents == seq(size, _ => false)
      ensures Valid()
    {
      this.hashCount, this.func, this.size := hashCount, func, size;
      contents := seq(size, _ => false);
    }

    /** A new filter holding the union of both, or null when the shapes differ. */
    method Merge(other: BloomFilter) returns (bf: BloomFilter?)
      requires Valid() && other.Valid()
      ensures bf == null <==> size != other.size || hashCount != other.hashCount
      ensures bf != null ==> fresh(bf) && bf.Valid()
      ensures bf != null ==> bf.hashCount == hashCount && bf.func == func && bf.size == size
      ensures bf != null ==> bf.contents == Or(contents, other.contents, size)
    {
      if size != other.size || hashCount != other.hashCount {
        return null;
      }
      bf := new BloomFilter(hashCount, func, size);
      var i := 0;
      while i < size
        invariant 0 <= i <= size
        invariant bf.hashCount == hashCount && bf.func == func && bf.size == size
        invariant |bf.contents| == size
        invariant forall j :: 0 <= j < i ==> bf.contents[j] == (contents[j] || other.contents[j])
      {
        bf.contents := bf.contents[i := contents[i] || other.contents[i]];
        i := i + 1;
      }
    }

    function IsSet(index: nat): bool
      reads this
      requires index < |contents|
    {
      contents[index]
    }

    /** Stores `val` at `index`; true iff the bit had the other value. */
    method Set(index: nat, val: bool) returns (changed: bool)
      requires index < |contents|
      modifies this`contents
      ensures contents == old(contents)[index := val]
      ensures changed == (old(contents[index]) != val)
    {
      var prev := contents[index];
      contents := contents[index := val];
      changed := prev != val;
    }

    /**
     * Sets the key's k bits.  Returns true iff none of the k sets changed a bit,
     * which is exactly "the key tested present before the call".
     */
    method Add(key: seq<uint8>) returns (present: bool)
      requires Valid() && Usable()
      modifies this`contents
      ensures Valid()
      ensures contents == SetAll(old(contents), old(KeyIndices(key)))
      ensures present == AllSet(old(contents), old(KeyIndices(key)))
      ensures AllSet(contents, old(KeyIndices(key)))
    {
      ghost var before := contents;
      ghost var indices := KeyIndices(key);
      var changed := false;
      var idx: uint32 := 0;
      while idx < hashCount
        invariant idx <= hashCount
        invariant |contents| == |before|
        invariant contents == SetAll(before, indices[..idx])
        invariant changed == !AllSet(before, indices[..idx])
      {
        var hash := func(idx, key);
        var index := hash % size;
        assert index == indices[idx];
        var c := Set(index, true);
        assert indices[..idx + 1][..idx] == indices[..idx];
        assert index in indices[..idx] ==> !before[index] ==> !AllSet(before, indices[..idx]);
        changed := changed || c;
        idx := idx + 1;
      }
      assert indices[..idx] == indices;
      present := !changed;
      NoFalseNegative(before, indices);
    }

    /** True iff all k bits of the key are set; changes nothing. */
    method Check(key: seq<uint8>) returns (present: bool)
      requires Valid() && Usable()
      ensures present == AllSet(contents, KeyIndices(key))
    {
      ghost var indices := KeyIndices(key);
      present := true;
      var idx: uint32 := 0;
      while idx < hashCount
        invariant idx <= hashCount
        invariant present == AllSet(contents, indices[..idx])
      {
        var hash := func(idx, key);
        var index := hash % size;
        assert index == indices[idx];
        present := present && IsSet(index);
        idx := idx + 1;
      }
      assert indices[..idx] == indices;
    }
  }

  // ---------------------------------------------------------------------------
  // Bit strings, most significant bit first.

  function Pow2(n: nat): (r: nat)
    ensures r >= 1
  {
    if n == 0 then 1 else 2 * Pow2(n - 1)
  }

  lemma {:induction false} Pow2Add(a: nat, b: nat)
    ensures Pow2(a + b) == Pow2(a) * Pow2(b)
  {
    if a > 0 {
      Pow2Add(a - 1, b);
    }
  }

  lemma Pow2Chunk()
    ensures Pow2(64) == 0x1_0000_0000_0000_0000
  {
    var p8 := Pow2(8);
    assert p8 == 0x100;
    Pow2Add(8, 8);
    var p16 := Pow2(16);
    assert p16 == 0x1_0000;
    Pow2Add(16, 16);
    var p32 := Pow2(32);
    assert p32 == 0x1_0000_0000;
    Pow2Add(32, 32);
  }

  /** `x >> k` on unsigned integers. */
  function Shr(x: nat, k: nat): nat
  {
    if k == 0 then x else Shr(x / 2, k - 1)
  }

  /** `(x >> k) & 0x1`: bit `k` of `x`. */
  predicate Bit(x: nat, k: nat)
  {
    Shr(x, k) % 2 == 1
  }

  /** The low `n` bits of `x`, most significant first. */
  function ToBits(x: nat, n: nat): (r: seq<bool>)
    ensures |r| == n
  {
    if n == 0 then [] else ToBits(x / 2, n - 1) + [x % 2 == 1]
  }

  /** The number a bit string denotes when read most significant bit first. */
  function FromBits(s: seq<bool>): nat
  {
    if s == [] then 0 else 2 * FromBits(s[..|s| - 1]) + (if s[|s| - 1] then 1 else 0)
  }

  /** `n` bits denote a number below 2^n. */
  lemma {:induction false} FromBitsBound(s: seq<bool>)
    ensures FromBits(s) < Pow2(|s|)
  {
    if s != [] {
      FromBitsBound(s[..|s| - 1]);
    }
  }

  /** A 64-bit chunk denotes a `uint64`. */
  lemma FromBits64(s: seq<bool>)
    requires |s| == 64
    ensures FromBits(s) < 0x1_0000_0000_0000_0000
  {
    FromBitsBound(s);
    Pow2Chunk();
  }

  /** Position `j` of the `n`-bit string of `x` holds bit `n - 1 - j` of `x`. */
  lemma {:induction false} ToBitsAt(x: nat, n: nat, j: nat)
    requires j < n
    ensures ToBits(x, n)[j] == Bit(x, n - 1 - j)
  {
    if j < n - 1 {
      ToBitsAt(x / 2, n - 1, j);
    }
  }

  lemma {:induction false} FromBitsToBits(x: nat, n: nat)
    requires x < Pow2(n)
    ensures FromBits(ToBits(x, n)) == x
  {
    if n > 0 {
      FromBitsToBits(x / 2, n - 1);
      assert ToBits(x, n)[..n - 1] == ToBits(x / 2, n - 1);
    }
  }

  lemma {:induction false} ToBitsFromBits(s: seq<bool>)
    ensures ToBits(FromBits(s), |s|) == s
  {
    if s != [] {
      var p := s[..|s| - 1];
      ToBitsFromBits(p);
      assert FromBits(s) / 2 == FromBits(p);
      assert s == p + [s[|s| - 1]];
    }
  }

  // ---------------------------------------------------------------------------
  // Streams.

  /** An input stream: unread bytes and the eof and fail flags. */
  datatype IStream = IStream(rest: seq<uint8>, eof: bool, fail: bool)
  {
    predicate Good() { !eof && !fail }
  }

  /** An output stream: bytes written, room left on the device, and the fail flag. */
  datatype OStream = OStream(written: seq<uint8>, room: nat, fail: bool)

  /**
   * `f.read(buf, n)`; a stream that is not good (eof or fail set) reads nothing and sets
   * fail, and a short read consumes what is left and sets eof and fail.
   */
  method ReadBytes(f: IStream, n: nat) returns (bytes: seq<uint8>, f': IStream)
    ensures f'.fail == (!f.Good() || |f.rest| < n)
    ensures !f'.fail ==> bytes == f.rest[..n] && f' == IStream(f.rest[n..], false, false)
    ensures f.Good() && |f.rest| < n ==> f' == IStream([], true, true)
    ensures !f.Good() ==> f' == f.(fail := true)
  {
    if !f.Good() {
      bytes, f' := [], f.(fail := true);
    } else if |f.rest| < n {
      bytes, f' := f.rest, IStream([], true, true);
    } else {
      bytes, f' := f.rest[..n], IStream(f.rest[n..], false, false);
    }
  }

  /** `f.write(buf, n)`; a write that does not fit writes nothing and sets fail. */
  method WriteBytes(f: OStream, bytes: seq<uint8>) returns (f': OStream)
    ensures f'.fail == (f.fail || f.room < |bytes|)
    ensures !f'.fail ==> f' == OStream(f.written + bytes, f.room - |bytes|, false)
    ensures f'.fail ==> f'.written == f.written
    ensures f.fail ==> f' == f
  {
    if f.fail {
      f' := f;
    } else if f.room < |bytes| {
      f' := OStream(f.written, f.room, true);
    } else {
      f' := OStream(f.written + bytes, f.room - |bytes|, false);
    }
  }

  /** `read32`: the value is meaningful only while the stream has not failed. */
  method Read32(f: IStream) returns (i: uint32, f': IStream)
    ensures f'.fail == (!f.Good() || |f.rest| < 4)
    ensures !f'.fail ==> i == Serde.FromBE(f.rest[..4]) && f' == IStream(f.rest[4..], false, false)
    ensures f.Good() && |f.rest| < 4 ==> f' == IStream([], true, true)
    ensures !f.Good() ==> f' == f.(fail := true)
  {
    var bytes;
    bytes, f' := ReadBytes(f, 4);
    i := 0;
    if !f'.fail {
      Serde.Pow256Widths();
      i := Serde.FromBE(bytes);
    }
  }

  method Read64(f: IStream) returns (i: uint64, f': IStream)
    ensures f'.fail == (!f.Good() || |f.rest| < 8)
    ensures !f'.fail ==> i == Serde.FromBE(f.rest[..8]) && f' == IStream(f.rest[8..], false, false)
    ensures f.Good() && |f.rest| < 8 ==> f' == IStream([], true, true)
    ensures !f.Good() ==> f' == f.(fail := true)
  {
    var bytes;
    bytes, f' := ReadBytes(f, 8);
    i := 0;
    if !f'.fail {
      Serde.Pow256Widths();
      i := Serde.FromBE(bytes);
    }
  }

  method Out32(f: OStream, i: uint32) returns (f': OStream)
    ensures f'.fail == (f.fail || f.room < 4)
    ensures !f'.fail ==> f' == OStream(f.written + Serde.ToBE(i, 4), f.room - 4, false)
    ensures f'.fail ==> f'.written == f.written
    ensures f.fail ==> f' == f
  {
    f' := WriteBytes(f, Serde.ToBE(i, 4));
  }

  method Out64(f: OStream, i: uint64) returns (f': OStream)
    ensures f'.fail == (f.fail || f.room < 8)
    ensures !f'.fail ==> f' == OStream(f.written + Serde.ToBE(i, 8), f.room - 8, false)
    ensures f'.fail ==> f'.written == f.written
    ensures f.fail ==> f' == f
  {
    f' := WriteBytes(f, Serde.ToBE(i, 8));
  }

  // ---------------------------------------------------------------------------
  // The file format.

  /** Number of 64-bit chunks the loops `for (i = 0; i < size; i += 64)` visit. */
  function ChunkCount(size: nat): nat
  {
    (size + 63) / 64
  }

  /** Chunk `j` starts below `size` exactly when it is one of the ChunkCount(size) chunks. */
  lemma ChunkIndex(j: nat, size: nat)
    ensures 64 * j < size <==> j < ChunkCount(size)
  {
  }

  /** The loops stop after the first chunk that reaches `size`: they visit ChunkCount(size) chunks. */
  lemma ChunkEnd(j: nat, size: nat)
    requires size <= 64 * j && (j == 0 || 64 * (j - 1) < size)
    ensures j == ChunkCount(size)
  {
    ChunkIndex(j, size);
    if j > 0 {
      ChunkIndex(j - 1, size);
    }
  }

  /** The first `n` chunks of `bits`, each written with `out64` as the chunk's value. */
  function EncodeBody(bits: seq<bool>, n: nat): (body: seq<uint8>)
    requires 64 * n <= |bits|
    ensures |body| == 8 * n
  {
    if n == 0 then []
    else EncodeBody(bits, n - 1) + Serde.ToBE(FromBits(bits[64 * (n - 1) .. 64 * n]), 8)
  }

  /** The bits of `n` chunks read with `read64` and appended with PushBack. */
  function DecodeBody(body: seq<uint8>, n: nat): (bits: seq<bool>)
    requires 8 * n <= |body|
    ensures |bits| == 64 * n
  {
    if n == 0 then []
    else DecodeBody(body, n - 1) + ToBits(Serde.FromBE(body[8 * (n - 1) .. 8 * n]), 64)
  }

  /** The bytes WriteToFile produces: magic, hash count, size, then the padded chunks. */
  function Encode(hashCount: uint32, size: uint64, contents: seq<bool>): (bytes: seq<uint8>)
    requires size <= |contents|
    ensures |bytes| == 16 + 8 * ChunkCount(size)
  {
    Serde.ToBE(MAGIC_HEADER, 4) + Serde.ToBE(hashCount, 4) + Serde.ToBE(size, 8)
      + EncodeBody(contents + ToBits(0, 64), ChunkCount(size))
  }

  datatype Decoded = Decoded(hashCount: uint32, size: uint64, contents: seq<bool>)

  /** What ReadFromFile accepts: a 16-byte header with the magic word, then every chunk. */
  function Decode(bytes: seq<uint8>): Option<Decoded>
  {
    if |bytes| < 16 || Serde.FromBE(bytes[..4]) != MAGIC_HEADER then None
    else
      Serde.Pow256Widths();
      var hashCount: uint32 := Serde.FromBE(bytes[4..8]);
      var size: uint64 := Serde.FromBE(bytes[8..16]);
      if |bytes| < 16 + 8 * ChunkCount(size) then None
      else Some(Decoded(hashCount, size, DecodeBody(bytes[16..], ChunkCount(size))))
  }

  /** One chunk written with `out64` and read back with `read64` and PushBack. */
  lemma ChunkRoundTrip(chunk: seq<bool>)
    requires |chunk| == 64
    ensures ToBits(Serde.FromBE(Serde.ToBE(FromBits(chunk), 8)), 64) == chunk
  {
    FromBits64(chunk);
    Serde.Pow256Widths();
    Serde.FromBEToBE(FromBits(chunk), 8);
    ToBitsFromBits(chunk);
  }

  /** Decoding one chunk more reads the 8 bytes that follow the first `n - 1` chunks. */
  lemma DecodeBodyLast(prefix: seq<uint8>, word: seq<uint8>, rest: seq<uint8>, n: nat)
    requires n > 0 && |prefix| == 8 * (n - 1) && |word| == 8
    ensures DecodeBody(prefix + (word + rest), n)
         == DecodeBody(prefix + (word + rest), n - 1) + ToBits(Serde.FromBE(word), 64)
  {
    assert (prefix + (word + rest))[8 * (n - 1) .. 8 * n] == word;
  }

  lemma {:induction false} DecodeEncodeBody(bits: seq<bool>, n: nat, rest: seq<uint8>)
    requires 64 * n <= |bits|
    ensures DecodeBody(EncodeBody(bits, n) + rest, n) == bits[..64 * n]
  {
    if n > 0 {
      var chunk := bits[64 * (n - 1) .. 64 * n];
      var word := Serde.ToBE(FromBits(chunk), 8);
      var prefix := EncodeBody(bits, n - 1);
      AppendAssoc(prefix, word, rest);
      DecodeEncodeBody(bits, n - 1, word + rest);
      DecodeBodyLast(prefix, word, rest, n);
      ChunkRoundTrip(chunk);
      SliceSplit(bits, 64 * (n - 1), 64 * n);
    }
  }

  /**
   * Reading back what WriteToFile wrote gives the same hash count and size, and the
   * filter's bits followed by zero padding up to a whole number of chunks.
   */
  lemma {:induction false} DecodeEncode(hashCount: uint32, size: uint64, contents: seq<bool>, rest: seq<uint8>)
    requires size <= |contents|
    ensures Decode(Encode(hashCount, size, contents) + rest)
         == Some(Decoded(hashCount, size, (contents + ToBits(0, 64))[..64 * ChunkCount(size)]))
  {
    var padded := contents + ToBits(0, 64);
    var body := EncodeBody(padded, ChunkCount(size));
    var bytes := Encode(hashCount, size, contents) + rest;
    var h1, h2, h3 := Serde.ToBE(MAGIC_HEADER, 4), Serde.ToBE(hashCount, 4), Serde.ToBE(size, 8);
    assert bytes == h1 + h2 + h3 + body + rest;
    assert bytes[..4] == h1;
    assert bytes[4..8] == h2;
    assert bytes[8..16] == h3;
    assert bytes[16..] == body + rest;
    Serde.Pow256Widths();
    Serde.FromBEToBE(MAGIC_HEADER, 4);
    Serde.FromBEToBE(hashCount, 4);
    Serde.FromBEToBE(size, 8);
    DecodeEncodeBody(padded, ChunkCount(size), rest);
  }

  /** Every bit below `size` survives the round trip. */
  lemma RoundTripBits(hashCount: uint32, size: uint64, contents: seq<bool>, rest: seq<uint8>)
    requires size <= |contents|
    ensures var d := Decode(Encode(hashCount, size, contents) + rest);
      && d.Some? && d.value.hashCount == hashCount && d.value.size == size
      && size <= |d.value.contents|
      && forall i :: 0 <= i < size ==> d.value.contents[i] == contents[i]
  {
    DecodeEncode(hashCount, size, contents, rest);
  }

  /** A wrong magic word or a stream shorter than header plus chunks is refused. */
  lemma DecodeRefuses(bytes: seq<uint8>)
    ensures |bytes| < 16 ==> Decode(bytes).None?
    ensures |bytes| >= 16 && Serde.FromBE(bytes[..4]) != 0xb100f11e ==> Decode(bytes).None?
    ensures |bytes| >= 16 && |bytes| < 16 + 8 * ChunkCount(Serde.FromBE(bytes[8..16])) ==> Decode(bytes).None?
  {
  }

  // ---------------------------------------------------------------------------
  // BloomFilterSerializer.

  /** The 64 bits of `c` from `offset`, first bit most significant. */
  method ReadOutOffset(c: seq<bool>, offset: nat) returns (out: uint64)
    requires offset + 64 <= |c|
    ensures out == FromBits(c[offset .. offset + 64])
  {
    var acc: nat := 0;
    var i := 0;
    while i < 64
      invariant 0 <= i <= 64
      invariant acc == FromBits(c[offset .. offset + i])
    {
      assert c[offset .. offset + i + 1][..i] == c[offset .. offset + i];
      acc := acc * 2 + (if c[offset + i] then 1 else 0);
      i := i + 1;
    }
    // `out << 1` never drops a bit: 64 bits denote a number below 2^64.
    FromBits64(c[offset .. offset + 64]);
    out := acc;
  }

  /** Appends the 64 bits of `d`, most significant first. */
  method PushBack(c: seq<bool>, d: uint64) returns (c': seq<bool>)
    ensures c' == c + ToBits(d, 64)
  {
    c' := c;
    var idx: int := 63;
    while idx >= 0
      invariant -1 <= idx <= 63
      invariant c' == c + ToBits(d, 64)[..63 - idx]
    {
      var insert := Bit(d, idx);
      ToBitsAt(d, 64, 63 - idx);
      assert ToBits(d, 64)[..64 - idx] == ToBits(d, 64)[..63 - idx] + [insert];
      c' := c' + [insert];
      idx := idx - 1;
    }
  }

  /** ReadOutOffset at the position where PushBack appended `d` gives `d` back. */
  lemma PushBackReadOut(c: seq<bool>, d: uint64)
    ensures FromBits((c + ToBits(d, 64))[|c| .. |c| + 64]) == d
  {
    assert (c + ToBits(d, 64))[|c| .. |c| + 64] == ToBits(d, 64);
    Pow2Chunk();
    FromBitsToBits(d, 64);
  }

  lemma EncodeBodyStep(bits: seq<bool>, j: nat)
    requires 64 * (j + 1) <= |bits|
    ensures EncodeBody(bits, j + 1) == EncodeBody(bits, j) + Serde.ToBE(FromBits(bits[64 * j .. 64 * j + 64]), 8)
  {
  }

  /** The `for (i = 0; i < size; i += 64)` loop of WriteToFile: one `out64` per chunk of `copy`. */
  method WriteChunks(f: OStream, copy: seq<bool>, size: uint64) returns (f': OStream)
    requires size + 64 <= |copy|
    ensures f'.fail == (f.fail || f.room < 8 * ChunkCount(size))
    ensures !f'.fail ==> f' == OStream(f.written + EncodeBody(copy, ChunkCount(size)), f.room - 8 * ChunkCount(size), false)
    ensures f.fail ==> f' == f
  {
    f' := f;
    var i: nat := 0;
    ghost var j := 0;
    while i < size
      invariant i == 64 * j && (j == 0 || 64 * (j - 1) < size)
      invariant f.fail ==> f' == f
      invariant !f.fail ==> f'.fail == (f.room < 8 * j)
      invariant !f'.fail ==> f' == OStream(f.written + EncodeBody(copy, j), f.room - 8 * j, false)
    {
      var chunk := ReadOutOffset(copy, i);
      EncodeBodyStep(copy, j);
      AppendAssoc(f.written, EncodeBody(copy, j), Serde.ToBE(chunk, 8));
      f' := Out64(f', chunk);
      j := j + 1;
      i := i + 64;
    }
    ChunkEnd(j, size);
  }

  /** Writes Encode of the filter; true iff the stream took it all. */
  method WriteToFile(f: OStream, bf: BloomFilter) returns (ok: bool, f': OStream)
    requires bf.Valid()
    ensures ok == (!f.fail && |Encode(bf.hashCount, bf.size, bf.contents)| <= f.room)
    ensures ok ==> f'.written == f.written + Encode(bf.hashCount, bf.size, bf.contents)
  {
    ghost var header := Serde.ToBE(MAGIC_HEADER, 4) + Serde.ToBE(bf.hashCount, 4) + Serde.ToBE(bf.size, 8);
    var f1 := Out32(f, MAGIC_HEADER);
    var f2 := Out32(f1, bf.hashCount);
    var f3 := Out64(f2, bf.size);
    var copy := PushBack(bf.contents, 0);
    f' := WriteChunks(f3, copy, bf.size);
    ok := !f'.fail;
    ghost var body := EncodeBody(copy, ChunkCount(bf.size));
    assert Encode(bf.hashCount, bf.size, bf.contents) == header + body;
    if !f3.fail {
      ghost var m, h := Serde.ToBE(MAGIC_HEADER, 4), Serde.ToBE(bf.hashCount, 4);
      AppendAssoc(f.written, m, h);
      AppendAssoc(f.written, m + h, Serde.ToBE(bf.size, 8));
      assert f3 == OStream(f.written + header, f.room - 16, false);
      AppendAssoc(f.written, header, body);
    }
  }

  /** The three header reads of ReadFromFile. */
  method ReadHeader(f: IStream) returns (header: uint32, hashes: uint32, size: uint64, f': IStream)
    ensures f'.fail == (!f.Good() || |f.rest| < 16)
    ensures !f'.fail ==> f' == IStream(f.rest[16..], false, false)
    ensures !f'.fail ==> header == Serde.FromBE(f.rest[..4])
    ensures !f'.fail ==> hashes == Serde.FromBE(f.rest[4..8]) && size == Serde.FromBE(f.rest[8..16])
  {
    var f1, f2;
    header, f1 := Read32(f);
    hashes, f2 := Read32(f1);
    size, f' := Read64(f2);
    if !f'.fail {
      assert f.rest[4..][..4] == f.rest[4..8];
      assert f.rest[8..][..8] == f.rest[8..16];
    }
  }

  /** One more `read64` from the position of chunk `j` extends the decoded bits by that chunk. */
  lemma DecodeBodyStep(rest: seq<uint8>, j: nat, contents: seq<bool>, c: seq<bool>)
    requires 8 * (j + 1) <= |rest|
    requires c == contents + DecodeBody(rest, j)
    ensures rest[8 * j..][..8] == rest[8 * j .. 8 * (j + 1)]
    ensures rest[8 * j..][8..] == rest[8 * (j + 1)..]
    ensures c + ToBits(Serde.FromBE(rest[8 * j .. 8 * (j + 1)]), 64) == contents + DecodeBody(rest, j + 1)
  {
    DropTake(rest, 8 * j, 8);
    AppendAssoc(contents, DecodeBody(rest, j), ToBits(Serde.FromBE(rest[8 * j .. 8 * (j + 1)]), 64));
  }

  /** The `for (i = 0; i < size; i += 64)` loop of ReadFromFile: one `read64` and PushBack per chunk. */
  method ReadChunks(f: IStream, contents: seq<bool>, size: uint64) returns (c: seq<bool>, f': IStream)
    ensures f'.fail == (f.fail || (ChunkCount(size) > 0 && (f.eof || |f.rest| < 8 * ChunkCount(size))))
    ensures !f'.fail ==> c == contents + DecodeBody(f.rest, ChunkCount(size))
    ensures !f'.fail ==> f'.rest == f.rest[8 * ChunkCount(size)..]
    ensures f.Good() && !f'.fail ==> f'.Good()
  {
    c, f' := contents, f;
    var i: nat := 0;
    ghost var j := 0;
    while i < size
      invariant i == 64 * j && (j == 0 || 64 * (j - 1) < size)
      invariant j == 0 ==> f' == f && c == contents
      invariant j > 0 ==> f'.fail == (f.fail || f.eof || |f.rest| < 8 * j)
      invariant j > 0 && !f'.fail ==> !f'.eof
      invariant !f'.fail ==> f'.rest == f.rest[8 * j..] && c == contents + DecodeBody(f.rest, j)
    {
      var chunk;
      chunk, f' := Read64(f');
      ghost var c0 := c;
      c := PushBack(c, chunk);
      if !f'.fail {
        DecodeBodyStep(f.rest, j, contents, c0);
      }
      j := j + 1;
      i := i + 64;
    }
    ChunkEnd(j, size);
  }

  /**
   * Reads a filter; null on a stream that is not good to begin with, a wrong magic word
   * or a stream that runs short.  The filter uses `h` as its hash function.
   */
  method ReadFromFile(f: IStream, h: HashFn) returns (bf: BloomFilter?, f': IStream)
    ensures bf == null <==> !f.Good() || Decode(f.rest).None?
    ensures bf != null ==> fresh(bf) && bf.Valid() && bf.func == h
    ensures bf != null ==> Decoded(bf.hashCount, bf.size, bf.contents) == Decode(f.rest).value
    ensures bf != null ==> f' == IStream(f.rest[16 + 8 * ChunkCount(bf.size)..], false, false)
  {
    var header, hashes, size, f1 := ReadHeader(f);
    if header != MAGIC_HEADER {
      return null, f1;
    }
    bf := new BloomFilter.Empty(h);
    bf.hashCount := hashes;
    bf.size := size;
    bf.func := h;
    var c;
    c, f' := ReadChunks(f1, bf.contents, size);
    bf.contents := c;
    if f'.fail {
      return null, f';
    }
    assert f.rest[16..][8 * ChunkCount(size)..] == f.rest[16 + 8 * ChunkCount(size)..];
  }
}
