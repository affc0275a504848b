/**
 * The C command-line state machine (app.c): an optional filter, an optional save
 * target and a filter mode, each set at most once, and the loop that streams
 * newline-terminated keys from an input file through bf_add or bf_has.
 *
 * Files are values of module Serde; the input of app_filter is the sequence of its
 * bytes and the output the bytes it writes.
 */
module AppC {
  import opened Ints
  import opened BloomSpec
  import LibBloom
  import Serde
  import Seqs
  import opened FilterRun

  /** Keys longer than this are truncated. */
  const MAX_KEY_LEN: uint32 := 4096

  datatype Mode = Unset | RemoveDuplicates | OnlyDuplicates

  // ---------------------------------------------------------------------------
  // read_key.

  datatype KeyRead = KeyRead(key: seq<uint8>, rest: seq<uint8>)

  /**
   * What `read_key(in, buf, length, &read)` yields from the bytes `data`: None when
   * it returns false, otherwise the key stored in `buf` and the bytes left in `in`.
   */
  function ReadKeySpec(data: seq<uint8>, length: nat): (r: Option<KeyRead>)
    ensures r.Some? && length > 0 ==> |r.value.rest| < |data|
  {
    var k := NextNewline(data);
    if k < length then
      if k == |data| then None else Some(KeyRead(data[..k], data[k + 1..]))
    else
      Some(KeyRead(data[..length], if k < |data| then data[k + 1..] else []))
  }

  /** End of file before a newline and before `length` bytes: the partial line is dropped. */
  lemma ReadKeyDrops(data: seq<uint8>, length: nat)
    ensures ReadKeySpec(data, length).None? <==> |data| < length && NEWLINE !in data
  {
    var k := NextNewline(data);
    if NEWLINE in data {
      var j :| 0 <= j < |data| && data[j] == NEWLINE;
      assert k <= j;
    }
  }

  /** The key never holds a '\n', and is at most `length` bytes of the line. */
  lemma ReadKeyNoNewline(data: seq<uint8>, length: nat)
    requires ReadKeySpec(data, length).Some?
    ensures var key := ReadKeySpec(data, length).value.key;
      |key| <= length && key == data[..|key|] && NEWLINE !in key
  {
    var key := ReadKeySpec(data, length).value.key;
    var k := NextNewline(data);
    assert forall j :: 0 <= j < |key| ==> key[j] == data[j] && j < k;
  }

  /** A line shorter than `length` is the key followed by its '\n'. */
  lemma ReadKeyShort(data: seq<uint8>, length: nat)
    requires ReadKeySpec(data, length).Some?
    requires |ReadKeySpec(data, length).value.key| < length
    ensures var r := ReadKeySpec(data, length).value;
      data == r.key + [NEWLINE] + r.rest
  {
    var k := NextNewline(data);
    var r := ReadKeySpec(data, length).value;
    assert r.key == data[..k] && r.rest == data[k + 1..] && data[k] == NEWLINE;
    Seqs.SplitAround(data, k, k);
    assert data[k..k] == [];
  }

  /** A line of `length` bytes or more is truncated to its first `length` bytes. */
  lemma ReadKeyLong(data: seq<uint8>, length: nat)
    requires ReadKeySpec(data, length).Some?
    requires |ReadKeySpec(data, length).value.key| >= length
    ensures ReadKeySpec(data, length).value.key == data[..length]
    ensures length <= NextNewline(data) && NEWLINE !in data[length..NextNewline(data)]
  {
    var k := NextNewline(data);
    var skipped := data[length..k];
    forall j | 0 <= j < |skipped|
      ensures skipped[j] != NEWLINE
    {
      assert skipped[j] == data[length + j];
    }
  }

  /**
   * After a truncated key the rest of the line is consumed up to and including its
   * '\n', or to the end of the file.
   */
  lemma ReadKeyLongRest(data: seq<uint8>, length: nat)
    requires ReadKeySpec(data, length).Some?
    requires |ReadKeySpec(data, length).value.key| >= length
    ensures var r := ReadKeySpec(data, length).value;
      var k := NextNewline(data);
      && (k == |data| ==> r.rest == [])
      && (k < |data| ==> data == r.key + data[length..k] + [NEWLINE] + r.rest)
  {
    var k := NextNewline(data);
    var r := ReadKeySpec(data, length).value;
    if k < |data| {
      assert r.key == data[..length] && r.rest == data[k + 1..] && data[k] == NEWLINE;
      Seqs.SplitAround(data, length, k);
    }
  }

  /**
   * `read_key`: stores at most `length` bytes of the next line in `buf`, never the
   * '\n'.  The source leaves `*read` unset when it returns false; the model returns 0.
   */
  method ReadKey(input: seq<uint8>, buf: array<uint8>, length: uint32)
    returns (ok: bool, read: uint32, rest: seq<uint8>)
    requires length as int <= buf.Length
    modifies buf
    ensures ok == ReadKeySpec(input, length).Some?
    ensures ok ==> && read as int == |ReadKeySpec(input, length).value.key|
                   && buf[..read] == ReadKeySpec(input, length).value.key
                   && rest == ReadKeySpec(input, length).value.rest
    ensures !ok ==> rest == []
    ensures forall j :: length as int <= j < buf.Length ==> buf[j] == old(buf[j])
  {
    ghost var k := NextNewline(input);
    var len: uint32 := 0;
    rest := input;
    while len < length
      invariant len <= length && len as int <= k
      invariant rest == input[len..]
      invariant buf[..len] == input[..len]
      invariant forall j :: length as int <= j < buf.Length ==> buf[j] == old(buf[j])
    {
      if rest == [] {
        // fgetc returned EOF.
        return false, 0, [];
      }
      var c := rest[0];
      rest := rest[1..];
      if c == NEWLINE {
        assert k == len as int;
        break;
      }
      buf[len] := c;
      assert buf[..len + 1] == buf[..len] + [c];
      len := len + 1;
    }
    read := len;
    if len >= length {
      assert input[..len] == input[..length];
      var c: int := 0;
      while c != NEWLINE as int && c != -1
        invariant c == -1 ==> rest == [] && k == |input|
        invariant c != -1 ==> |rest| <= |input| && rest == input[|input| - |rest|..]
        invariant c != -1 && c != NEWLINE as int ==> |input| - |rest| <= k
        invariant c == NEWLINE as int ==> |input| - |rest| == k + 1
        decreases |rest|, if c == -1 then 0 else 1
      {
        if rest == [] {
          c := -1;
        } else {
          c := rest[0];
          rest := rest[1..];
        }
      }
    }
    ok := true;
  }

  // ---------------------------------------------------------------------------
  // The keys app_filter reads and what it writes.

  /** The keys `read_key(in, buffer, MAX_KEY_LEN, &length)` yields from `data`, in order. */
  function Keys(data: seq<uint8>): (keys: seq<seq<uint8>>)
    decreases |data|
  {
    match ReadKeySpec(data, MAX_KEY_LEN as nat)
    case None => []
    case Some(r) => [r.key] + Keys(r.rest)
  }

  /** A blank line is the empty key. */
  lemma KeysBlankLine(rest: seq<uint8>)
    ensures Keys([NEWLINE] + rest) == [[]] + Keys(rest)
  {
    assert NextNewline([NEWLINE] + rest) == 0;
    assert ([NEWLINE] + rest)[1..] == rest;
  }

  /** A last line without '\n', shorter than MAX_KEY_LEN, yields no key. */
  lemma KeysDropTrailing(tail: seq<uint8>)
    requires |tail| < MAX_KEY_LEN as int && NEWLINE !in tail
    ensures Keys(tail) == []
  {
    ReadKeyDrops(tail, MAX_KEY_LEN as nat);
  }

  /** Whether app_filter writes a key whose test answered `found`. */
  predicate Emits(mode: Mode, found: bool)
  {
    (mode == RemoveDuplicates && !found) || (mode == OnlyDuplicates && found)
  }

  /**
   * The keys fed one after the other to `bf_add` (`update`) or to `bf_has`, starting
   * from `bits`; a key is written when Emits holds of the test's answer.
   */
  function RunKeys(mode: Mode, hash: HashFn, hashes: uint32, bits: seq<bool>,
                   keys: seq<seq<uint8>>, update: bool): (r: Run)
    requires hashes == 0 || |bits| > 0
    ensures |r.bits| == |bits| && |r.written| == |keys|
  {
    if keys == [] then Run(bits, [])
    else
      var n := |keys| - 1;
      var prev := RunKeys(mode, hash, hashes, bits, keys[..n], update);
      var indices := Indices(hash, hashes, |bits|, keys[n]);
      var found := if update then AnyAlreadySet(prev.bits, indices) else AllSet(prev.bits, indices);
      Run(if update then SetAll(prev.bits, indices) else prev.bits, prev.written + [Emits(mode, found)])
  }

  /** Testing without `update` leaves the filter as it was. */
  lemma {:induction false} QueryKeepsBits(mode: Mode, hash: HashFn, hashes: uint32, bits: seq<bool>,
                                         keys: seq<seq<uint8>>)
    requires hashes == 0 || |bits| > 0
    ensures RunKeys(mode, hash, hashes, bits, keys, false).bits == bits
  {
    if keys != [] {
      QueryKeepsBits(mode, hash, hashes, bits, keys[..|keys| - 1]);
    }
  }

  /** An earlier part of the input is decided the same way whatever follows it. */
  lemma {:induction false} RunKeysPrefix(mode: Mode, hash: HashFn, hashes: uint32, bits: seq<bool>,
                                        keys: seq<seq<uint8>>, update: bool, m: nat)
    requires hashes == 0 || |bits| > 0
    requires m <= |keys|
    ensures RunKeys(mode, hash, hashes, bits, keys[..m], update).written
         == RunKeys(mode, hash, hashes, bits, keys, update).written[..m]
  {
    if m < |keys| {
      var n := |keys| - 1;
      RunKeysPrefix(mode, hash, hashes, bits, keys[..n], update, m);
      assert keys[..n][..m] == keys[..m];
    } else {
      assert keys[..m] == keys;
    }
  }

  /** With `update`, every key read so far tests present. */
  lemma {:induction false} SeenArePresent(mode: Mode, hash: HashFn, hashes: uint32, bits: seq<bool>,
                                         keys: seq<seq<uint8>>, i: nat)
    requires hashes == 0 || |bits| > 0
    requires i < |keys|
    ensures AllSet(RunKeys(mode, hash, hashes, bits, keys, true).bits, Indices(hash, hashes, |bits|, keys[i]))
  {
    var n := |keys| - 1;
    var prev := RunKeys(mode, hash, hashes, bits, keys[..n], true);
    var indices := Indices(hash, hashes, |bits|, keys[n]);
    if i == n {
      NoFalseNegative(prev.bits, indices);
    } else {
      SeenArePresent(mode, hash, hashes, bits, keys[..n], i);
      StaysPresent(prev.bits, indices, Indices(hash, hashes, |bits|, keys[i]));
    }
  }

  /** The last key of a run tests present when it repeats an earlier one. */
  lemma RepeatIsFound(mode: Mode, hash: HashFn, hashes: uint32, bits: seq<bool>,
                      keys: seq<seq<uint8>>, i: nat, j: nat)
    requires hashes > 0 && |bits| > 0
    requires i < j < |keys| && keys[i] == keys[j]
    ensures var prev := RunKeys(mode, hash, hashes, bits, keys[..j], true);
      AnyAlreadySet(prev.bits, Indices(hash, hashes, |bits|, keys[j]))
  {
    var prev := RunKeys(mode, hash, hashes, bits, keys[..j], true);
    var indices := Indices(hash, hashes, |bits|, keys[j]);
    SeenArePresent(mode, hash, hashes, bits, keys[..j], i);
    AllSetIsAlreadySet(prev.bits, indices);
  }

  /** The decision about key `j` is taken on the run of the keys before it. */
  lemma WrittenAt(mode: Mode, hash: HashFn, hashes: uint32, bits: seq<bool>,
                  keys: seq<seq<uint8>>, update: bool, j: nat)
    requires hashes == 0 || |bits| > 0
    requires j < |keys|
    ensures var prev := RunKeys(mode, hash, hashes, bits, keys[..j], update);
      var indices := Indices(hash, hashes, |bits|, keys[j]);
      RunKeys(mode, hash, hashes, bits, keys, update).written[j]
        == Emits(mode, if update then AnyAlreadySet(prev.bits, indices) else AllSet(prev.bits, indices))
  {
    RunKeysPrefix(mode, hash, hashes, bits, keys, update, j + 1);
    assert keys[..j + 1][..j] == keys[..j];
  }

  /**
   * Removing duplicates while adding: a key that repeats an earlier key of the input
   * is never written again (the filter has at least one hash).
   */
  lemma RemovesRepeats(hash: HashFn, hashes: uint32, bits: seq<bool>, keys: seq<seq<uint8>>, i: nat, j: nat)
    requires hashes > 0 && |bits| > 0
    requires i < j < |keys| && keys[i] == keys[j]
    ensures !RunKeys(RemoveDuplicates, hash, hashes, bits, keys, true).written[j]
  {
    WrittenAt(RemoveDuplicates, hash, hashes, bits, keys, true, j);
    RepeatIsFound(RemoveDuplicates, hash, hashes, bits, keys, i, j);
  }

  /** Keeping only duplicates while adding: every repeat of an earlier key is written. */
  lemma KeepsRepeats(hash: HashFn, hashes: uint32, bits: seq<bool>, keys: seq<seq<uint8>>, i: nat, j: nat)
    requires hashes > 0 && |bits| > 0
    requires i < j < |keys| && keys[i] == keys[j]
    ensures RunKeys(OnlyDuplicates, hash, hashes, bits, keys, true).written[j]
  {
    WrittenAt(OnlyDuplicates, hash, hashes, bits, keys, true, j);
    RepeatIsFound(OnlyDuplicates, hash, hashes, bits, keys, i, j);
  }

  /** Querying a filter: a key present in it is written exactly when only duplicates are kept. */
  lemma QueryWritesPresent(mode: Mode, hash: HashFn, hashes: uint32, bits: seq<bool>,
                           keys: seq<seq<uint8>>, j: nat)
    requires hashes == 0 || |bits| > 0
    requires j < |keys| && mode != Unset
    ensures RunKeys(mode, hash, hashes, bits, keys, false).written[j]
        == (AllSet(bits, Indices(hash, hashes, |bits|, keys[j])) == (mode == OnlyDuplicates))
  {
    WrittenAt(mode, hash, hashes, bits, keys, false, j);
    QueryKeepsBits(mode, hash, hashes, bits, keys[..j]);
  }

  /** One more key read: the keys still to come lose their first. */
  lemma KeysStep(done: seq<seq<uint8>>, key: seq<uint8>, rest: seq<uint8>, rest': seq<uint8>)
    requires ReadKeySpec(rest, MAX_KEY_LEN as nat) == Some(KeyRead(key, rest'))
    ensures done + Keys(rest) == (done + [key]) + Keys(rest')
  {
    Seqs.AppendAssoc(done, [key], Keys(rest'));
  }

  /**
   * One more key tested: the run takes the test's answer `found` and the filter's new
   * `after` bits, and the output grows by the key's line when it is written.
   */
  lemma FilterStep(mode: Mode, hash: HashFn, hashes: uint32, bits: seq<bool>, done: seq<seq<uint8>>,
                   key: seq<uint8>, update: bool, found: bool, after: seq<bool>)
    requires hashes == 0 || |bits| > 0
    requires var prev := RunKeys(mode, hash, hashes, bits, done, update);
      var indices := Indices(hash, hashes, |bits|, key);
      && found == (if update then AnyAlreadySet(prev.bits, indices) else AllSet(prev.bits, indices))
      && after == (if update then SetAll(prev.bits, indices) else prev.bits)
    ensures var prev := RunKeys(mode, hash, hashes, bits, done, update);
      var next := RunKeys(mode, hash, hashes, bits, done + [key], update);
      && next == Run(after, prev.written + [Emits(mode, found)])
      && Output(done + [key], next.written)
         == Output(done, prev.written) + (if Emits(mode, found) then key + [NEWLINE] else [])
  {
    var prev := RunKeys(mode, hash, hashes, bits, done, update);
    var next := RunKeys(mode, hash, hashes, bits, done + [key], update);
    Seqs.SnocParts(done, key);
    Seqs.SnocParts(prev.written, Emits(mode, found));
    assert next == Run(after, prev.written + [Emits(mode, found)]);
  }

  /**
   * What the filter loop keeps of the words it started from: all of them before the first
   * key and in a run without updates, and in every run the padding after the `size` bits.
   */
  ghost predicate WordsKept(update: bool, done: seq<seq<uint8>>, output: seq<uint8>,
                            words0: seq<bv64>, words: seq<bv64>, size: nat)
  {
    && |words| == |words0|
    && (done == [] ==> output == [] && words == words0)
    && (!update ==> words == words0)
    && LibBloom.SamePadding(words, words0, size)
  }

  /** One key tested: its bits lie below `size`, and bf_has changes no word. */
  lemma WordsKeptStep(update: bool, done: seq<seq<uint8>>, output: seq<uint8>, words0: seq<bv64>,
                      words: seq<bv64>, words': seq<bv64>, size: nat, key: seq<uint8>, written: seq<uint8>)
    requires WordsKept(update, done, output, words0, words, size)
    requires |words'| == |words| && (!update ==> words' == words)
    requires LibBloom.SamePadding(words', words, size)
    ensures WordsKept(update, done + [key], output + written, words0, words', size)
  {
  }

  // ---------------------------------------------------------------------------
  // struct bloom_app.

  class App {
    /** The hash function every filter of the application is built with. */
    const func: LibBloom.HashPtr
    var filter: LibBloom.Filter?
    var save: Option<string>
    var mode: Mode

    ghost predicate Valid()
      reads this
    {
      filter != null ==> filter.Valid() && filter.func == func
    }

    /** `app_init`: no filter, nothing queued. */
    constructor Init(func: LibBloom.HashPtr)
      ensures this.func == func && filter == null && save == None && mode == Unset
      ensures Valid()
    {
      this.func := func;
      filter := null;
      save := None;
      mode := Unset;
    }

    /**
     * `app_create_filter`, given the shape bf_init computes from the item estimate
     * and the false-positive rate; refused when a filter already exists.
     */
    method CreateFilter(hashes: uint32, bits: uint64) returns (ok: bool)
      requires Valid()
      modifies this
      ensures Valid() && save == old(save) && mode == old(mode)
      ensures ok == (old(filter) == null)
      ensures !ok ==> filter == old(filter)
      ensures ok ==> (fresh(filter) && fresh(filter.content) && filter.hashes == hashes && filter.size == bits
                      && filter.content[..] == seq(LibBloom.WordLength(bits), _ => 0)
                      && filter.Bits() == seq(bits, _ => false))
    {
      if filter != null {
        return false;
      }
      filter := new LibBloom.Filter.Mk(func, hashes, bits);
      ok := true;
    }

    /**
     * `app_load`: 1 when the file holds no filter, 0 when it is adopted or merged into
     * the current filter, 2 when its shape differs from the current filter's.
     */
    method Load(file: Serde.Source) returns (code: int)
      requires Valid()
      modifies this
      ensures Valid() && save == old(save) && mode == old(mode)
      ensures code == 1 <==> LibBloom.Decode(file.rest).None?
      ensures code != 0 ==> filter == old(filter)
      ensures code != 1 ==> var d := LibBloom.Decode(file.rest).value;
        && (old(filter) == null ==> code == 0)
        && (old(filter) != null ==> (code == 2 <==> d.hashes != old(filter).hashes || d.size != old(filter).size))
        && (code == 0 ==> fresh(filter) && fresh(filter.content) && filter.hashes == d.hashes && filter.size == d.size)
        && (code == 0 && old(filter) == null ==> filter.content[..] == LibBloom.Words(d.words))
        && (code == 0 && old(filter) != null ==>
              filter.content[..] == LibBloom.OrW(old(filter.content[..]), LibBloom.Words(d.words)))
    {
      var loaded, _ := LibBloom.ReadFromFile(file, func);
      if loaded == null {
        return 1;
      }
      if filter == null {
        filter := loaded;
        return 0;
      }
      var merged := LibBloom.Merge(filter, loaded);
      if merged == null {
        return 2;
      }
      filter := merged;
      code := 0;
    }

    /** `app_queue_save`: refused when a save target is already queued. */
    method QueueSave(file: string) returns (ok: bool)
      modifies this
      ensures ok == old(save).None?
      ensures save == if ok then Some(file) else old(save)
      ensures filter == old(filter) && mode == old(mode)
    {
      if save.Some? {
        return false;
      }
      save := Some(file);
      ok := true;
    }

    /** `app_queue_filter`: refused when a mode is already chosen. */
    method QueueFilter(removeDuplicates: bool) returns (ok: bool)
      modifies this
      ensures ok == (old(mode) == Unset)
      ensures mode == if !ok then old(mode) else if removeDuplicates then RemoveDuplicates else OnlyDuplicates
      ensures filter == old(filter) && save == old(save)
    {
      if mode != Unset {
        return false;
      }
      mode := if removeDuplicates then RemoveDuplicates else OnlyDuplicates;
      ok := true;
    }

    /**
     * `app_maybe_save_on_exit` with `out` the file opened at the queued path: nothing to
     * do without a queued save, otherwise bf_write_to_file.
     */
    method MaybeSaveOnExit(out: Serde.Sink) returns (ok: bool, out': Serde.Sink)
      requires Valid() && (save.Some? ==> filter != null)
      ensures save.None? ==> ok && out' == out
      ensures save.Some? ==>
        var bytes := LibBloom.Encode(filter.hashes, filter.size, LibBloom.Nums(filter.content[..]));
        && ok == (|bytes| <= out.room)
        && (ok ==> out' == Serde.Sink(out.written + bytes, out.room - |bytes|))
    {
      if save.None? {
        return true, out;
      }
      ok, out' := LibBloom.WriteToFile(filter, out);
    }

    /** The test of one key: bf_add when `update`, otherwise bf_has. */
    method Test(key: seq<uint8>, update: bool) returns (found: bool)
      requires Valid() && filter != null && filter.Usable()
      modifies filter.content
      ensures filter.content[..] == if update then LibBloom.SetBitsW(old(filter.content[..]), filter.KeyIndices(key))
                                    else old(filter.content[..])
      ensures LibBloom.SamePadding(filter.content[..], old(filter.content[..]), filter.size)
      ensures filter.Bits() == if update then SetAll(old(filter.Bits()), filter.KeyIndices(key)) else old(filter.Bits())
      ensures found == if update then AnyAlreadySet(old(filter.Bits()), filter.KeyIndices(key))
                       else AllSet(old(filter.Bits()), filter.KeyIndices(key))
    {
      if update {
        found := filter.Add(key);
        LibBloom.WordLengthIsCeiling(filter.size);
        LibBloom.SetBitsPadding(old(filter.content[..]), filter.size, filter.KeyIndices(key));
      } else {
        found := filter.Has(key);
      }
    }

    /** `buffer[length] = '\n'`: the key and its newline, the `length + 1` bytes `fwrite` emits. */
    static method Terminate(buffer: array<uint8>, length: uint32) returns (line: seq<uint8>)
      requires length as int < buffer.Length
      modifies buffer
      ensures line == old(buffer[..length]) + [NEWLINE] && line == buffer[..length + 1]
    {
      buffer[length] := NEWLINE;
      line := buffer[..length + 1];
      assert line == old(buffer[..length]) + [NEWLINE];
    }

    /** One turn of the loop of `app_filter`: the key is tested and, as Emits says, written. */
    method FilterKey(update: bool, ghost bits0: seq<bool>, ghost words0: seq<bv64>, ghost done: seq<seq<uint8>>,
                     key: seq<uint8>, line: seq<uint8>, output: seq<uint8>) returns (output': seq<uint8>)
      requires Valid() && filter != null && filter.Usable()
      requires |bits0| == filter.size as int && line == key + [NEWLINE]
      requires WordsKept(update, done, output, words0, filter.content[..], filter.size)
      requires var run := RunKeys(mode, func.fn, filter.hashes, bits0, done, update);
        filter.Bits() == run.bits && output == Output(done, run.written)
      modifies filter.content
      ensures WordsKept(update, done + [key], output', words0, filter.content[..], filter.size)
      ensures var run := RunKeys(mode, func.fn, filter.hashes, bits0, done + [key], update);
        filter.Bits() == run.bits && output' == Output(done + [key], run.written)
    {
      ghost var indices := Indices(func.fn, filter.hashes, |bits0|, key);
      assert filter.KeyIndices(key) == indices;
      ghost var words := filter.content[..];
      var found := Test(key, update);
      WordsKeptStep(update, done, output, words0, words, filter.content[..], filter.size, key,
                    if Emits(mode, found) then line else []);
      FilterStep(mode, func.fn, filter.hashes, bits0, done, key, update, found, filter.Bits());
      output' := output;
      if Emits(mode, found) {
        output' := output + line;
      }
    }

    /**
     * `app_filter`: every key of `input` goes through bf_add (`update`) or bf_has, and is
     * written with its '\n' as Emits says.  Without a mode or a filter nothing happens.
     * The filter must admit `hash % size` only once a key arrives.
     */
    method Filter(input: seq<uint8>, update: bool) returns (output: seq<uint8>)
      requires Valid()
      requires mode != Unset && filter != null && Keys(input) != [] ==> filter.Usable()
      modifies if filter != null then {filter.content} else {}
      ensures mode == Unset || filter == null || Keys(input) == [] ==> output == []
      ensures filter != null && (mode == Unset || !update || Keys(input) == []) ==>
        filter.content[..] == old(filter.content[..]) && filter.Bits() == old(filter.Bits())
      ensures filter != null ==> LibBloom.SamePadding(filter.content[..], old(filter.content[..]), filter.size)
      ensures mode != Unset && filter != null && filter.Usable() ==>
        var r := RunKeys(mode, func.fn, filter.hashes, old(filter.Bits()), Keys(input), update);
        filter.Bits() == r.bits && output == Output(Keys(input), r.written)
    {
      if mode == Unset || filter == null {
        return [];
      }
      var buffer := new uint8[MAX_KEY_LEN + 1](_ => 0);
      ghost var live := filter.Usable();
      ghost var words0 := filter.content[..];
      ghost var bits0 := filter.Bits();
      ghost var done: seq<seq<uint8>> := [];
      ghost var run := Run(bits0, []);
      var rest := input;
      output := [];
      while true
        invariant filter != null && filter.Valid() && filter.func == func && live == filter.Usable()
        invariant Keys(input) == done + Keys(rest)
        invariant WordsKept(update, done, output, words0, filter.content[..], filter.size)
        invariant live ==> run == RunKeys(mode, func.fn, filter.hashes, bits0, done, update)
        invariant live ==> filter.Bits() == run.bits && output == Output(done, run.written)
        decreases |rest|
      {
        var ok, length, rest' := ReadKey(rest, buffer, MAX_KEY_LEN);
        if !ok {
          assert Keys(rest) == [];
          assert Keys(input) == done;
          break;
        }
        var key := buffer[..length];
        KeysStep(done, key, rest, rest');
        assert live;
        var line := Terminate(buffer, length);
        output := FilterKey(update, bits0, words0, done, key, line, output);
        done := done + [key];
        run := RunKeys(mode, func.fn, filter.hashes, bits0, done, update);
        rest := rest';
      }
    }
  }
}
