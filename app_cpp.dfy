/**
 * The C++ command-line state machine (class BloomFilterApp of main.cpp): an optional
 * filter, an optional save target and a filter mode, each set at most once, and the
 * loop that streams lines from an input stream through Add or Check.
 *
 * Streams are the values of module BloomFilterCpp; the output of Filter is the
 * sequence of bytes it writes.
 */
module AppCpp {
  import opened Ints
  import opened BloomSpec
  import opened FilterRun
  import opened BloomFilterCpp
  import Seqs

  const FILTER_MODE_REMOVE_DUP: int := 1
  const FILTER_MODE_ONLY_DUPS: int := 2

  // ---------------------------------------------------------------------------
  // std::getline and the lines Filter reads.

  datatype GotLine = GotLine(line: seq<uint8>, rest: IStream)

  /**
   * `std::getline(i, buffer)` on a good stream: the bytes up to the next '\n', which is
   * consumed and not stored.  Reaching the end sets eof, and fail as well when not a
   * single byte was extracted.
   */
  function GetLine(f: IStream): (r: GotLine)
    requires f.Good()
    ensures |r.rest.rest| <= |f.rest|
    ensures |r.rest.rest| < |f.rest| || !r.rest.Good()
  {
    var k := NextNewline(f.rest);
    if k < |f.rest| then GotLine(f.rest[..k], IStream(f.rest[k + 1..], false, false))
    else GotLine(f.rest, IStream([], true, f.rest == []))
  }

  /** The non-empty lines `while (i.good())` hands to Add or Check, in order. */
  function Records(f: IStream): (keys: seq<seq<uint8>>)
    decreases |f.rest|, if f.Good() then 1 else 0
  {
    if !f.Good() then []
    else
      var g := GetLine(f);
      (if g.line == [] then [] else [g.line]) + Records(g.rest)
  }

  /** Every line read is non-empty and holds no '\n'. */
  lemma {:induction false} RecordsAreLines(f: IStream)
    ensures forall j :: 0 <= j < |Records(f)| ==> Records(f)[j] != [] && NEWLINE !in Records(f)[j]
    decreases |f.rest|, if f.Good() then 1 else 0
  {
    if f.Good() {
      var g := GetLine(f);
      RecordsAreLines(g.rest);
      var k := NextNewline(f.rest);
      assert forall j :: 0 <= j < |g.line| ==> g.line[j] == f.rest[j] && j < k;
    }
  }

  /** An empty line is skipped. */
  lemma RecordsSkipBlank(rest: seq<uint8>)
    ensures Records(IStream([NEWLINE] + rest, false, false)) == Records(IStream(rest, false, false))
  {
    var f := IStream([NEWLINE] + rest, false, false);
    assert NextNewline(f.rest) == 0;
    assert f.rest[1..] == rest;
  }

  /** A last line without '\n' is still read. */
  lemma RecordsKeepTrailing(tail: seq<uint8>)
    requires tail != [] && NEWLINE !in tail
    ensures Records(IStream(tail, false, false)) == [tail]
  {
    assert forall j :: 0 <= j < |tail| ==> tail[j] != NEWLINE;
  }

  // ---------------------------------------------------------------------------
  // What Filter writes.

  /** Whether Filter writes a line whose test answered `found`. */
  predicate Emits(mode: int, found: bool)
  {
    (mode == FILTER_MODE_REMOVE_DUP && !found) || (mode == FILTER_MODE_ONLY_DUPS && found)
  }

  /**
   * The lines fed one after the other to Add (`update`) or to Check, starting from the
   * filter's `bits` (of which the first `size` are its bits); both answer whether the
   * line was present before.
   */
  function RunRecords(mode: int, hash: HashFn, hashCount: uint32, size: nat, bits: seq<bool>,
                      keys: seq<seq<uint8>>, update: bool): (r: Run)
    requires size <= |bits| && (hashCount == 0 || size > 0)
    ensures |r.bits| == |bits| && |r.written| == |keys|
  {
    if keys == [] then Run(bits, [])
    else
      var n := |keys| - 1;
      var prev := RunRecords(mode, hash, hashCount, size, bits, keys[..n], update);
      var indices := Indices(hash, hashCount, size, keys[n]);
      Run(if update then SetAll(prev.bits, indices) else prev.bits,
          prev.written + [Emits(mode, AllSet(prev.bits, indices))])
  }

  /** Checking without `update` leaves the filter as it was. */
  lemma {:induction false} QueryKeepsBits(mode: int, hash: HashFn, hashCount: uint32, size: nat,
                                         bits: seq<bool>, keys: seq<seq<uint8>>)
    requires size <= |bits| && (hashCount == 0 || size > 0)
    ensures RunRecords(mode, hash, hashCount, size, bits, keys, false).bits == bits
  {
    if keys != [] {
      QueryKeepsBits(mode, hash, hashCount, size, bits, keys[..|keys| - 1]);
    }
  }

  /** An earlier part of the input is decided the same way whatever follows it. */
  lemma {:induction false} RunRecordsPrefix(mode: int, hash: HashFn, hashCount: uint32, size: nat,
                                           bits: seq<bool>, keys: seq<seq<uint8>>, update: bool, m: nat)
    requires size <= |bits| && (hashCount == 0 || size > 0)
    requires m <= |keys|
    ensures RunRecords(mode, hash, hashCount, size, bits, keys[..m], update).written
         == RunRecords(mode, hash, hashCount, size, bits, keys, update).written[..m]
  {
    if m < |keys| {
      var n := |keys| - 1;
      RunRecordsPrefix(mode, hash, hashCount, size, bits, keys[..n], update, m);
      assert keys[..n][..m] == keys[..m];
    } else {
      assert keys[..m] == keys;
    }
  }

  /** The decision about line `j` is taken on the run of the lines before it. */
  lemma WrittenAt(mode: int, hash: HashFn, hashCount: uint32, size: nat, bits: seq<bool>,
                  keys: seq<seq<uint8>>, update: bool, j: nat)
    requires size <= |bits| && (hashCount == 0 || size > 0)
    requires j < |keys|
    ensures var prev := RunRecords(mode, hash, hashCount, size, bits, keys[..j], update);
      RunRecords(mode, hash, hashCount, size, bits, keys, update).written[j]
        == Emits(mode, AllSet(prev.bits, Indices(hash, hashCount, size, keys[j])))
  {
    RunRecordsPrefix(mode, hash, hashCount, size, bits, keys, update, j + 1);
    assert keys[..j + 1][..j] == keys[..j];
  }

  /** With `update`, every line read so far tests present. */
  lemma {:induction false} SeenArePresent(mode: int, hash: HashFn, hashCount: uint32, size: nat,
                                         bits: seq<bool>, keys: seq<seq<uint8>>, i: nat)
    requires size <= |bits| && (hashCount == 0 || size > 0)
    requires i < |keys|
    ensures AllSet(RunRecords(mode, hash, hashCount, size, bits, keys, true).bits,
                   Indices(hash, hashCount, size, keys[i]))
  {
    var n := |keys| - 1;
    var prev := RunRecords(mode, hash, hashCount, size, bits, keys[..n], true);
    var indices := Indices(hash, hashCount, size, keys[n]);
    if i == n {
      NoFalseNegative(prev.bits, indices);
    } else {
      SeenArePresent(mode, hash, hashCount, size, bits, keys[..n], i);
      StaysPresent(prev.bits, indices, Indices(hash, hashCount, size, keys[i]));
    }
  }

  /** Removing duplicates while adding: a repeat of an earlier line is never written. */
  lemma RemovesRepeats(hash: HashFn, hashCount: uint32, size: nat, bits: seq<bool>,
                       keys: seq<seq<uint8>>, i: nat, j: nat)
    requires size <= |bits| && (hashCount == 0 || size > 0)
    requires i < j < |keys| && keys[i] == keys[j]
    ensures !RunRecords(FILTER_MODE_REMOVE_DUP, hash, hashCount, size, bits, keys, true).written[j]
  {
    WrittenAt(FILTER_MODE_REMOVE_DUP, hash, hashCount, size, bits, keys, true, j);
    SeenArePresent(FILTER_MODE_REMOVE_DUP, hash, hashCount, size, bits, keys[..j], i);
  }

  /** Keeping only duplicates while adding: every repeat of an earlier line is written. */
  lemma KeepsRepeats(hash: HashFn, hashCount: uint32, size: nat, bits: seq<bool>,
                     keys: seq<seq<uint8>>, i: nat, j: nat)
    requires size <= |bits| && (hashCount == 0 || size > 0)
    requires i < j < |keys| && keys[i] == keys[j]
    ensures RunRecords(FILTER_MODE_ONLY_DUPS, hash, hashCount, size, bits, keys, true).written[j]
  {
    WrittenAt(FILTER_MODE_ONLY_DUPS, hash, hashCount, size, bits, keys, true, j);
    SeenArePresent(FILTER_MODE_ONLY_DUPS, hash, hashCount, size, bits, keys[..j], i);
  }

  /** Checking against a filter: a line present in it is written exactly when only duplicates are kept. */
  lemma QueryWritesPresent(mode: int, hash: HashFn, hashCount: uint32, size: nat, bits: seq<bool>,
                           keys: seq<seq<uint8>>, j: nat)
    requires size <= |bits| && (hashCount == 0 || size > 0)
    requires j < |keys| && (mode == FILTER_MODE_REMOVE_DUP || mode == FILTER_MODE_ONLY_DUPS)
    ensures RunRecords(mode, hash, hashCount, size, bits, keys, false).written[j]
        == (AllSet(bits, Indices(hash, hashCount, size, keys[j])) == (mode == FILTER_MODE_ONLY_DUPS))
  {
    WrittenAt(mode, hash, hashCount, size, bits, keys, false, j);
    QueryKeepsBits(mode, hash, hashCount, size, bits, keys[..j]);
  }

  /** One more line tested: the run takes the test's answer and the filter's new bits. */
  lemma FilterStep(mode: int, hash: HashFn, hashCount: uint32, size: nat, bits: seq<bool>,
                   done: seq<seq<uint8>>, key: seq<uint8>, update: bool, found: bool, after: seq<bool>)
    requires size <= |bits| && (hashCount == 0 || size > 0)
    requires var prev := RunRecords(mode, hash, hashCount, size, bits, done, update);
      var indices := Indices(hash, hashCount, size, key);
      && found == AllSet(prev.bits, indices)
      && after == (if update then SetAll(prev.bits, indices) else prev.bits)
    ensures var prev := RunRecords(mode, hash, hashCount, size, bits, done, update);
      var next := RunRecords(mode, hash, hashCount, size, bits, done + [key], update);
      && next == Run(after, prev.written + [Emits(mode, found)])
      && Output(done + [key], next.written)
         == Output(done, prev.written) + (if Emits(mode, found) then key + [NEWLINE] else [])
  {
    var prev := RunRecords(mode, hash, hashCount, size, bits, done, update);
    var next := RunRecords(mode, hash, hashCount, size, bits, done + [key], update);
    Seqs.SnocParts(done, key);
    Seqs.SnocParts(prev.written, Emits(mode, found));
    assert next == Run(after, prev.written + [Emits(mode, found)]);
  }

  /** One more getline: the lines still to come lose the one just read, if it is not empty. */
  lemma RecordsStep(done: seq<seq<uint8>>, f: IStream)
    requires f.Good()
    ensures var g := GetLine(f);
      done + Records(f) == (if g.line == [] then done else done + [g.line]) + Records(g.rest)
  {
    var g := GetLine(f);
    if g.line != [] {
      Seqs.AppendAssoc(done, [g.line], Records(g.rest));
    }
  }

  /**
   * The state of Filter's loop after the lines `done` of `i`, with `cur` the stream
   * left: when the filter can be used (`live`) the bits and the output are the run's,
   * otherwise no line has been tested and nothing has changed.
   */
  ghost predicate FilterInv(mode: int, hash: HashFn, update: bool, live: bool, hashCount: uint32, size: nat,
                            bits0: seq<bool>, i: IStream, cur: IStream, done: seq<seq<uint8>>,
                            out: seq<uint8>, bits: seq<bool>)
  {
    && Records(i) == done + Records(cur)
    && (!cur.Good() ==> cur == i || cur.rest == [])
    && (!live ==> Records(i) == [] && done == [] && out == [] && bits == bits0)
    && (live ==> && size <= |bits0| && (hashCount == 0 || size > 0)
                 && var r := RunRecords(mode, hash, hashCount, size, bits0, done, update);
                    bits == r.bits && out == Output(done, r.written))
  }

  /** An empty line is read and skipped. */
  lemma FilterInvSkip(mode: int, hash: HashFn, update: bool, live: bool, hashCount: uint32, size: nat,
                      bits0: seq<bool>, i: IStream, cur: IStream, done: seq<seq<uint8>>,
                      out: seq<uint8>, bits: seq<bool>)
    requires FilterInv(mode, hash, update, live, hashCount, size, bits0, i, cur, done, out, bits)
    requires cur.Good() && GetLine(cur).line == []
    ensures FilterInv(mode, hash, update, live, hashCount, size, bits0, i, GetLine(cur).rest, done, out, bits)
  {
    RecordsStep(done, cur);
  }

  /**
   * A non-empty line is read: the filter must be live, and after its test the loop's
   * state covers one line more.
   */
  lemma FilterInvLine(mode: int, hash: HashFn, update: bool, live: bool, hashCount: uint32, size: nat,
                      bits0: seq<bool>, i: IStream, cur: IStream, done: seq<seq<uint8>>,
                      out: seq<uint8>, bits: seq<bool>)
    requires FilterInv(mode, hash, update, live, hashCount, size, bits0, i, cur, done, out, bits)
    requires cur.Good() && GetLine(cur).line != []
    ensures live
  {
    RecordsStep(done, cur);
  }

  lemma FilterInvTest(mode: int, hash: HashFn, update: bool, hashCount: uint32, size: nat,
                      bits0: seq<bool>, i: IStream, cur: IStream, done: seq<seq<uint8>>,
                      out: seq<uint8>, bits: seq<bool>, found: bool, after: seq<bool>)
    requires FilterInv(mode, hash, update, true, hashCount, size, bits0, i, cur, done, out, bits)
    requires cur.Good() && GetLine(cur).line != []
    requires var indices := Indices(hash, hashCount, size, GetLine(cur).line);
      && found == AllSet(bits, indices)
      && after == (if update then SetAll(bits, indices) else bits)
    ensures var key := GetLine(cur).line;
      FilterInv(mode, hash, update, true, hashCount, size, bits0, i, GetLine(cur).rest, done + [key],
                out + (if Emits(mode, found) then key + [NEWLINE] else []), after)
  {
    RecordsStep(done, cur);
    FilterStep(mode, hash, hashCount, size, bits0, done, GetLine(cur).line, update, found, after);
  }

  /** At the end of the stream every line has been read. */
  lemma FilterInvEnd(mode: int, hash: HashFn, update: bool, live: bool, hashCount: uint32, size: nat,
                     bits0: seq<bool>, i: IStream, cur: IStream, done: seq<seq<uint8>>,
                     out: seq<uint8>, bits: seq<bool>)
    requires FilterInv(mode, hash, update, live, hashCount, size, bits0, i, cur, done, out, bits)
    requires !cur.Good()
    ensures Records(i) == done
    ensures live && !update ==> bits == bits0
  {
    assert Records(cur) == [];
    if live && !update {
      QueryKeepsBits(mode, hash, hashCount, size, bits0, done);
    }
  }

  // ---------------------------------------------------------------------------
  // class BloomFilterApp.

  /** The shape BloomFilterBuilder::Build computes from the item estimate and the rate. */
  datatype Shape = Shape(hashes: uint32, bits: uint64)

  class BloomFilterApp {
    /** CoercedHashFn, the hash every filter of the application is built with. */
    const hash: HashFn
    var bf: BloomFilter?
    var save: Option<string>
    var filterMode: int

    ghost predicate Valid()
      reads this, bf
    {
      bf != null ==> bf.Valid() && bf.func == hash
    }

    /** `BloomFilterApp()`: no filter, nothing queued. */
    constructor (hash: HashFn)
      ensures this.hash == hash && bf == null && save == None && filterMode == 0
      ensures Valid()
    {
      this.hash := hash;
      bf := null;
      save := None;
      filterMode := 0;
    }

    /**
     * `CreateFilter`: refused when a filter exists.  `shape` is None when Build returns
     * nullptr (an estimate or a rate that is not positive); the call succeeds anyway
     * and leaves no filter.
     */
    method CreateFilter(shape: Option<Shape>) returns (ok: bool)
      requires Valid()
      modifies this
      ensures Valid() && save == old(save) && filterMode == old(filterMode)
      ensures ok == (old(bf) == null)
      ensures !ok ==> bf == old(bf)
      ensures ok && shape.None? ==> bf == null
      ensures ok && shape.Some? ==> (fresh(bf) && bf.hashCount == shape.value.hashes
                                     && bf.size == shape.value.bits
                                     && bf.contents == seq(shape.value.bits, _ => false))
    {
      if bf != null {
        return false;
      }
      if shape.None? {
        bf := null;
      } else {
        bf := new BloomFilter(shape.value.hashes, hash, shape.value.bits);
      }
      ok := true;
    }

    /**
     * `Load`: false when the stream holds no filter or its shape differs from the
     * current filter's; otherwise the loaded filter is adopted or merged in.
     */
    method Load(f: IStream) returns (ok: bool)
      requires Valid()
      modifies this
      ensures Valid() && save == old(save) && filterMode == old(filterMode)
      ensures ok == (&& f.Good() && Decode(f.rest).Some?
                     && (old(bf) != null ==> (Decode(f.rest).value.hashCount == old(bf.hashCount)
                                              && Decode(f.rest).value.size == old(bf.size))))
      ensures !ok ==> bf == old(bf)
      ensures ok ==> var d := Decode(f.rest).value;
        && fresh(bf) && bf.hashCount == d.hashCount && bf.size == d.size
        && (old(bf) == null ==> bf.contents == d.contents)
        && (old(bf) != null ==> bf.contents == Or(old(bf.contents), d.contents, d.size))
    {
      var loaded, _ := ReadFromFile(f, hash);
      if loaded == null {
        return false;
      }
      if bf == null {
        bf := loaded;
        return true;
      }
      var next := bf.Merge(loaded);
      if next == null {
        return false;
      }
      bf := next;
      ok := true;
    }

    /** `QueueSave`: refused when a save target is already queued. */
    method QueueSave(file: string) returns (ok: bool)
      modifies this
      ensures ok == old(save).None?
      ensures save == if ok then Some(file) else old(save)
      ensures bf == old(bf) && filterMode == old(filterMode)
    {
      if save.Some? {
        return false;
      }
      save := Some(file);
      ok := true;
    }

    /** `QueueFilter`: refused when a mode is already chosen. */
    method QueueFilter(removeDups: bool) returns (ok: bool)
      modifies this
      ensures ok == (old(filterMode) == 0)
      ensures filterMode == if !ok then old(filterMode)
                            else if removeDups then FILTER_MODE_REMOVE_DUP else FILTER_MODE_ONLY_DUPS
      ensures bf == old(bf) && save == old(save)
    {
      if filterMode != 0 {
        return false;
      }
      if removeDups {
        filterMode := FILTER_MODE_REMOVE_DUP;
      } else {
        filterMode := FILTER_MODE_ONLY_DUPS;
      }
      ok := true;
    }

    /**
     * `MaybeSaveOnExit` with `o` the stream opened at the queued path: nothing to do
     * without a queued save, otherwise WriteToFile.
     */
    method MaybeSaveOnExit(o: OStream) returns (ok: bool, o': OStream)
      requires Valid() && (save.Some? ==> bf != null)
      ensures save.None? ==> ok && o' == o
      ensures save.Some? ==>
        var bytes := Encode(bf.hashCount, bf.size, bf.contents);
        && ok == (!o.fail && |bytes| <= o.room)
        && (ok ==> o'.written == o.written + bytes)
    {
      if save.None? {
        return true, o;
      }
      ok, o' := WriteToFile(o, bf);
    }

    /** The test of one line: Add when `update`, otherwise Check. */
    method Test(key: seq<uint8>, update: bool) returns (found: bool)
      requires Valid() && bf != null && bf.Usable()
      modifies bf`contents
      ensures Valid()
      ensures bf.contents == if update then SetAll(old(bf.contents), old(bf.KeyIndices(key))) else old(bf.contents)
      ensures found == AllSet(old(bf.contents), old(bf.KeyIndices(key)))
    {
      if update {
        found := bf.Add(key);
      } else {
        found := bf.Check(key);
      }
    }

    /**
     * One turn of Filter's loop: getline, and for a non-empty line its test and, as
     * the mode says, its output.
     */
    method FilterLine(update: bool, ghost live: bool, ghost hc: uint32, ghost sz: nat, ghost bits0: seq<bool>,
                      ghost i: IStream, ghost done: seq<seq<uint8>>, cur: IStream, out: seq<uint8>)
      returns (cur': IStream, out': seq<uint8>, ghost done': seq<seq<uint8>>)
      requires Valid() && cur.Good()
      requires bf != null ==> bf.hashCount == hc && bf.size == sz
      requires live ==> bf != null && bf.Usable()
      requires FilterInv(filterMode, hash, update, live, hc, sz, bits0, i, cur, done, out,
                         if bf != null then bf.contents else [])
      modifies (if bf != null then {bf} else {})`contents
      ensures Valid() && (bf != null ==> bf.hashCount == hc && bf.size == sz)
      ensures |cur'.rest| <= |cur.rest| && (|cur'.rest| < |cur.rest| || !cur'.Good())
      ensures FilterInv(filterMode, hash, update, live, hc, sz, bits0, i, cur', done', out',
                        if bf != null then bf.contents else [])
    {
      ghost var bits := if bf != null then bf.contents else [];
      var g := GetLine(cur);
      cur' := g.rest;
      if g.line == [] {
        FilterInvSkip(filterMode, hash, update, live, hc, sz, bits0, i, cur, done, out, bits);
        return cur', out, done;
      }
      var key := g.line;
      FilterInvLine(filterMode, hash, update, live, hc, sz, bits0, i, cur, done, out, bits);
      var found := Test(key, update);
      FilterInvTest(filterMode, hash, update, hc, sz, bits0, i, cur, done, out, bits, found, bf.contents);
      // `o << buffer << std::endl` when the mode asks for the line.
      out' := out + (if Emits(filterMode, found) then key + [NEWLINE] else []);
      done' := done + [key];
    }

    /**
     * `Filter`: every non-empty line of `i` goes through Add (`update`) or Check, and is
     * written with a '\n' as Emits says.  Without a mode nothing is read.  The source
     * dereferences the filter without a check, so a line to test needs one.
     */
    method Filter(i: IStream, update: bool) returns (out: seq<uint8>, i': IStream)
      requires Valid()
      requires filterMode != 0 && Records(i) != [] ==> bf != null && bf.Usable()
      modifies (if bf != null then {bf} else {})`contents
      ensures filterMode == 0 ==> out == [] && i' == i
      ensures filterMode != 0 ==> !i'.Good() && (i.Good() ==> i'.rest == [])
      ensures bf != null && (filterMode == 0 || !update) ==> bf.contents == old(bf.contents)
      ensures filterMode != 0 && Records(i) == [] ==> out == [] && (bf != null ==> bf.contents == old(bf.contents))
      ensures filterMode != 0 && bf != null && bf.Usable() ==>
        var r := RunRecords(filterMode, hash, bf.hashCount, bf.size, old(bf.contents), Records(i), update);
        bf.contents == r.bits && out == Output(Records(i), r.written)
    {
      if filterMode == 0 {
        return [], i;
      }
      ghost var live := bf != null && bf.Usable();
      ghost var bits0 := if bf != null then bf.contents else [];
      ghost var hc: uint32 := if bf != null then bf.hashCount else 0;
      ghost var sz: nat := if bf != null then bf.size else 0;
      ghost var done: seq<seq<uint8>> := [];
      out := [];
      i' := i;
      while i'.Good()
        invariant Valid() && (bf != null ==> bf.hashCount == hc && bf.size == sz)
        invariant live ==> bf != null && bf.Usable()
        invariant FilterInv(filterMode, hash, update, live, hc, sz, bits0, i, i', done, out,
                            if bf != null then bf.contents else [])
        decreases |i'.rest|, if i'.Good() then 1 else 0
      {
        i', out, done := FilterLine(update, live, hc, sz, bits0, i, done, i', out);
      }
      FilterInvEnd(filterMode, hash, update, live, hc, sz, bits0, i, i', done, out,
                   if bf != null then bf.contents else []);
    }
  }
}
