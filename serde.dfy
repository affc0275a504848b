/**
 * Big-endian integer serialization over C `FILE` streams (libserde.c; libbloom.c
 * carries an identical copy of these four helpers).
 *
 * A stream is a value: a `Source` is the part of a file not yet read, a `Sink` is
 * what has been written so far together with the number of bytes the file still
 * accepts, so that a short write can happen.  Every helper returns `true` on
 * failure, as the C functions do.
 */
module Serde {
  import opened Ints

  function Pow256(n: nat): (r: nat)
    ensures r >= 1
  {
    if n == 0 then 1 else 256 * Pow256(n - 1)
  }

  lemma Pow256Widths()
    ensures Pow256(4) == 0x1_0000_0000
    ensures Pow256(8) == 0x1_0000_0000_0000_0000
  {
    assert Pow256(2) == 0x1_0000;
    assert Pow256(4) == 0x1_0000_0000;
    assert Pow256(6) == 0x1_0000_0000_0000;
  }

  /** The `n`-byte big-endian representation of `x`: most significant byte first. */
  function ToBE(x: nat, n: nat): (r: seq<uint8>)
    ensures |r| == n
  {
    if n == 0 then [] else ToBE(x / 256, n - 1) + [x % 256]
  }

  /** The number whose big-endian representation is `b`. */
  function FromBE(b: seq<uint8>): (r: nat)
    ensures r < Pow256(|b|)
  {
    if b == [] then 0 else FromBE(b[..|b| - 1]) * 256 + b[|b| - 1]
  }

  /** Decoding an encoding gives the number back whenever it fits in `n` bytes. */
  lemma {:induction false} FromBEToBE(x: nat, n: nat)
    requires x < Pow256(n)
    ensures FromBE(ToBE(x, n)) == x
  {
    if n > 0 {
      FromBEToBE(x / 256, n - 1);
      var r := ToBE(x, n);
      assert r[..n - 1] == ToBE(x / 256, n - 1);
    }
  }

  /** Encoding a decoded byte string gives the same bytes back. */
  lemma {:induction false} ToBEFromBE(b: seq<uint8>)
    ensures ToBE(FromBE(b), |b|) == b
  {
    if b != [] {
      var p := b[..|b| - 1];
      ToBEFromBE(p);
      assert FromBE(b) / 256 == FromBE(p);
      assert b == p + [b[|b| - 1]];
    }
  }

  /** Dividing by 256 once more moves one byte further. */
  lemma ByteShifts(x: nat)
    ensures x / 0x100 / 0x100 == x / 0x1_0000
    ensures x / 0x1_0000 / 0x100 == x / 0x100_0000
    ensures x / 0x100_0000 / 0x100 == x / 0x1_0000_0000
    ensures x / 0x1_0000_0000 / 0x100 == x / 0x100_0000_0000
    ensures x / 0x100_0000_0000 / 0x100 == x / 0x1_0000_0000_0000
    ensures x / 0x1_0000_0000_0000 / 0x100 == x / 0x100_0000_0000_0000
  {
  }

  /** `out32` puts the most significant byte first. */
  lemma BE32Bytes(x: uint32)
    ensures ToBE(x, 4) == [x / 0x100_0000, x / 0x1_0000 % 0x100, x / 0x100 % 0x100, x % 0x100]
  {
    ByteShifts(x);
    assert ToBE(x, 4) == ToBE(x / 0x100, 3) + [x % 0x100];
    assert ToBE(x / 0x100, 3) == ToBE(x / 0x1_0000, 2) + [x / 0x100 % 0x100];
    assert ToBE(x / 0x1_0000, 2) == ToBE(x / 0x100_0000, 1) + [x / 0x1_0000 % 0x100];
    assert ToBE(x / 0x100_0000, 1) == [x / 0x100_0000];
  }

  /** `out64` puts the most significant byte first. */
  lemma BE64Bytes(x: uint64)
    ensures ToBE(x, 8) ==
      [x / 0x100_0000_0000_0000, x / 0x1_0000_0000_0000 % 0x100,
       x / 0x100_0000_0000 % 0x100, x / 0x1_0000_0000 % 0x100,
       x / 0x100_0000 % 0x100, x / 0x1_0000 % 0x100,
       x / 0x100 % 0x100, x % 0x100]
  {
    ByteShifts(x);
    assert ToBE(x, 8) == ToBE(x / 0x100, 7) + [x % 0x100];
    assert ToBE(x / 0x100, 7) == ToBE(x / 0x1_0000, 6) + [x / 0x100 % 0x100];
    assert ToBE(x / 0x1_0000, 6) == ToBE(x / 0x100_0000, 5) + [x / 0x1_0000 % 0x100];
    assert ToBE(x / 0x100_0000, 5) == ToBE(x / 0x1_0000_0000, 4) + [x / 0x100_0000 % 0x100];
    assert ToBE(x / 0x1_0000_0000, 4) == ToBE(x / 0x100_0000_0000, 3) + [x / 0x1_0000_0000 % 0x100];
    assert ToBE(x / 0x100_0000_0000, 3) == ToBE(x / 0x1_0000_0000_0000, 2) + [x / 0x100_0000_0000 % 0x100];
    assert ToBE(x / 0x1_0000_0000_0000, 2) == ToBE(x / 0x100_0000_0000_0000, 1) + [x / 0x1_0000_0000_0000 % 0x100];
    assert ToBE(x / 0x100_0000_0000_0000, 1) == [x / 0x100_0000_0000_0000];
  }

  /** What `read32` yields from the bytes `out32` wrote, whatever follows them. */
  lemma {:induction false} RoundTrip32(x: uint32, rest: seq<uint8>)
    ensures FromBE((ToBE(x, 4) + rest)[..4]) == x
  {
    Pow256Widths();
    assert (ToBE(x, 4) + rest)[..4] == ToBE(x, 4);
    FromBEToBE(x, 4);
  }

  /** What `read64` yields from the bytes `out64` wrote, whatever follows them. */
  lemma {:induction false} RoundTrip64(x: uint64, rest: seq<uint8>)
    ensures FromBE((ToBE(x, 8) + rest)[..8]) == x
  {
    Pow256Widths();
    assert (ToBE(x, 8) + rest)[..8] == ToBE(x, 8);
    FromBEToBE(x, 8);
  }

  /** A file open for reading: the bytes not read yet. */
  datatype Source = Source(rest: seq<uint8>)

  /** A file open for writing: the bytes written so far and how many more it accepts. */
  datatype Sink = Sink(written: seq<uint8>, room: nat)

  /** `fwrite(item, |item|, 1, f) != 1`: the item is written whole if it fits, else nothing is. */
  method WriteItem(f: Sink, item: seq<uint8>) returns (failure: bool, f': Sink)
    ensures failure <==> f.room < |item|
    ensures !failure ==> f' == Sink(f.written + item, f.room - |item|)
    ensures failure ==> f' == f
  {
    if |item| <= f.room {
      failure, f' := false, Sink(f.written + item, f.room - |item|);
    } else {
      failure, f' := true, f;
    }
  }

  /** `fread(i, n, 1, f) != 1`: fails when fewer than `n` bytes remain, consuming them. */
  method ReadItem(f: Source, n: nat) returns (failure: bool, item: seq<uint8>, f': Source)
    ensures failure <==> |f.rest| < n
    ensures !failure ==> item == f.rest[..n] && f' == Source(f.rest[n..])
    ensures failure ==> f' == Source([])
  {
    if n <= |f.rest| {
      failure, item, f' := false, f.rest[..n], Source(f.rest[n..]);
    } else {
      failure, item, f' := true, f.rest, Source([]);
    }
  }

  method Out32(f: Sink, i: uint32) returns (failure: bool, f': Sink)
    ensures failure <==> f.room < 4
    ensures !failure ==> f' == Sink(f.written + ToBE(i, 4), f.room - 4)
    ensures failure ==> f' == f
  {
    failure, f' := WriteItem(f, ToBE(i, 4));
  }

  method Out64(f: Sink, i: uint64) returns (failure: bool, f': Sink)
    ensures failure <==> f.room < 8
    ensures !failure ==> f' == Sink(f.written + ToBE(i, 8), f.room - 8)
    ensures failure ==> f' == f
  {
    failure, f' := WriteItem(f, ToBE(i, 8));
  }

  /**
   * On failure `*i` holds whatever the partial read left: the contract leaves it
   * unspecified, and the body stores 0.
   */
  method Read32(f: Source) returns (failure: bool, i: uint32, f': Source)
    ensures failure <==> |f.rest| < 4
    ensures !failure ==> i == FromBE(f.rest[..4]) && f' == Source(f.rest[4..])
    ensures failure ==> f' == Source([])
  {
    var item;
    failure, item, f' := ReadItem(f, 4);
    i := 0;
    if !failure {
      Pow256Widths();
      i := FromBE(item);
    }
  }

  method Read64(f: Source) returns (failure: bool, i: uint64, f': Source)
    ensures failure <==> |f.rest| < 8
    ensures !failure ==> i == FromBE(f.rest[..8]) && f' == Source(f.rest[8..])
    ensures failure ==> f' == Source([])
  {
    var item;
    failure, item, f' := ReadItem(f, 8);
    i := 0;
    if !failure {
      Pow256Widths();
      i := FromBE(item);
    }
  }
}
