# Bloom filter command-line tool, modelled in Dafny

The tool removes duplicate lines from a stream, or keeps only the duplicates, using a
Bloom filter. A Bloom filter is a bit array of `size` bits plus `hashCount` hash
seeds. Adding a key sets the bit `hash(seed, key) % size` for every seed. A key tests
present when all of its bits are set. A filter can be saved to a file and loaded back, and
loaded filters of the same shape are merged by bitwise OR. The repository has two
engines and two front ends:

- `BloomFilter.cpp`, the C++ engine.
  - Its bits are a `std::vector<bool>`.
  - The file format is a big-endian header (magic `0xb100f11e`, hash count, size)
    followed by 64-bit chunks, which are written and read MSB first through
    `PushBack` and `ReadOutOffset`.
- `libbloom.c`, the C engine.
  - Its bits are an array of 64-bit words, and bit `b` is bit `b % 64` of word `b / 64`.
  - It writes the same header, followed by the words in big-endian order.
  - `libserde.c` holds its big-endian `out32`/`out64`/`read32`/`read64`.
- `app.c`, the C front end. Its `app_filter` reads keys of at most 4096 bytes through
  `read_key` and writes each key with its newline according to the filter mode.
- `main.cpp`, the C++ front end. Class `BloomFilterApp` reads lines with
  `std::getline`, skips empty ones and writes each kept line back with a newline.

The model has one module per source file. Modules `Ints`, `Seqs` and `FilterRun` hold
integer types, sequence lemmas and the definitions the two front ends share.

- `BloomSpec` gives the abstract meaning of a filter that both engines are proved against:
  - the bits as a `seq<bool>`;
  - `Indices`, the k bit positions of a key;
  - `SetAll`, which sets those positions;
  - `AllSet`, the membership test;
  - `AnyAlreadySet`, what `bf_add` returns;
  - `Or`, the merge.
- `LibBloom` models `filter_t` as a class whose `content` is an `array<bv64>`.
  - Each operation is proved against `Bits()`, the view of those words as booleans.
  - The file encoding is the function `Encode`, its parser is `Decode`, and a
    round-trip lemma connects the two.
- `BloomFilterCpp` models `BloomFilter` as a class with a `contents: seq<bool>` field.
  - Its chunk encoding `EncodeBody`/`DecodeBody` is built on `ToBits`/`FromBits`, the
    meaning of `PushBack`/`ReadOutOffset`.
- `Serde` models big-endian coding (`ToBE`/`FromBE`) and the four I/O helpers.
- `AppC.App` and `AppCpp.BloomFilterApp` are the two application state machines.
  - Their `Filter` loops are proved against folds: `RunKeys` and `RunRecords` fold over
    the keys of the input, which are `Keys` and `Records`, and `Output` gives the bytes
    written.
  - On those folds the model proves that a repeated key is never written in
    remove-duplicates mode and always written in only-duplicates mode, and that a
    query-only run leaves the bits unchanged.

Files and streams are values passed in and returned:

- `Serde.Source`/`Serde.Sink` stand for a C `FILE*`;
- `BloomFilterCpp.IStream`/`OStream` stand for a C++ stream with its eof and fail flags;
- the hash function is a parameter (`HashFn`, or `LibBloom.HashPtr` in C, where the
  address matters because `bf_merge` compares function pointers).

Where the documented behaviour of the tool and the code disagree, the model follows the code:

- **The C engine's add result.** `bf_add` (libbloom.c:81-88) returns true when some
  bit it set was already set. That bit may have been set before the call or earlier in
  the same call. This is not "the key was present":
  - `BloomSpec.AnyAlreadySetMeans` states exactly what it means;
  - `BloomSpec.AlreadySetWithoutPresence` gives an absent key for which it is true.
  - The C++ `Add` (BloomFilter.cpp:65-74) returns "no bit changed", which is membership
    before the call.
- **A trailing line without a newline.**
  - The C `read_key` drops it when it is shorter than 4096 bytes, and returns its
    first 4096 bytes when it is 4096 bytes or longer.
  - The C++ `getline` loop processes it.
- **Empty lines.** `app.c` processes an empty line as the empty key; `main.cpp` skips
  it.
- **Merging.** The C++ `Merge` does not compare hash functions; `bf_merge` does.

## Model

| member | source | states |
|---|---|---|
| Serde.FromBEToBE | libserde.c:21-39 | decoding the n big-endian bytes of a value below 256^n gives the value back |
| Serde.ToBEFromBE | libserde.c:21-39 | encoding a decoded n-byte string gives the same bytes: the coding is a bijection |
| Serde.BE32Bytes | libserde.c:21-24 | `htobe32` layout: the most significant byte comes first |
| Serde.BE64Bytes | libserde.c:25-28 | `htobe64` layout: the most significant byte comes first |
| Serde.RoundTrip32 | libserde.c:21-34 | read32 of what out32 wrote, with anything after it, is the written value |
| Serde.RoundTrip64 | libserde.c:25-39 | read64 of what out64 wrote, with anything after it, is the written value |
| Serde.WriteItem | libserde.c:21-28 | fwrite of one item: fails exactly when it does not fit; on success it appends the bytes; on failure the file is unchanged |
| Serde.ReadItem | libserde.c:30-39 | fread of one item: fails exactly when fewer bytes remain; on success it takes them off the front |
| Serde.Out32 | libserde.c:21-24 | appends the 4 big-endian bytes; reports failure exactly when they do not fit |
| Serde.Out64 | libserde.c:25-28 | appends the 8 big-endian bytes; reports failure exactly when they do not fit |
| Serde.Read32 | libserde.c:30-34 | on success returns the big-endian value of the next 4 bytes and consumes them; fails exactly on a short file |
| Serde.Read64 | libserde.c:35-39 | on success returns the big-endian value of the next 8 bytes and consumes them; fails exactly on a short file |
| BloomSpec.Indices | libbloom.c:83-85 | a key has hashCount bit indices, each below size |
| BloomSpec.SetAll | libbloom.c:81-88 | after setting, a bit is set iff it was set before or is one of the key's indices |
| BloomSpec.AnyAlreadySetStep | libbloom.c:83-86 | each turn of the add loop ORs "this set found its bit already set" into the result |
| BloomSpec.AlreadySetHits | libbloom.c:81-88 | if add reports true, some index was set before or repeats an earlier index |
| BloomSpec.HitsAlreadySet | libbloom.c:81-88 | if some index was set before or repeats an earlier index, add reports true |
| BloomSpec.AnyAlreadySetMeans | libbloom.c:81-88 | both directions: add's result holds iff some index was set before the call or repeats an earlier index of the key |
| BloomSpec.AllSetIsAlreadySet | libbloom.c:81-96 | with at least one hash, a key that tests present makes add report true |
| BloomSpec.AlreadySetWithoutPresence | libbloom.c:81-96 | add can report true for a key that does not test present (two hashes on one bit) |
| BloomSpec.NoFalseNegative | libbloom.c:81-96 | once a key is added, it tests present |
| BloomSpec.StaysPresent | libbloom.c:73-79 | adding never clears a bit, so a present key stays present |
| BloomSpec.OrCommutes | BloomFilter.cpp:41-53 | merging is commutative bit for bit |
| BloomSpec.OrKeepsMembers | libbloom.c:99-110 | a key present in either operand is present in the merge |
| LibBloom.WordLengthIsCeiling | libbloom.c:38-41 | `word_length` is the ceiling of bits / 64 |
| LibBloom.Locate | libbloom.c:68-71 | a bit below 64 * words lies in word bit / 64 at offset bit % 64 |
| LibBloom.SameBit | libbloom.c:73-79 | OR-ing `1 << bit` into the word sets that bit |
| LibBloom.OtherBit | libbloom.c:73-79 | OR-ing `1 << bit` into the word leaves every other bit as it was |
| LibBloom.WithBitSame | libbloom.c:76-78 | the word is unchanged iff its bit was already set: what bf_bit_set returns |
| LibBloom.OrAt | libbloom.c:107 | a bit of the OR of two words is set iff it is set in either |
| LibBloom.ZeroAt | libbloom.c:50 | a zero word has no bit set |
| LibBloom.SetBitAt | libbloom.c:73-79 | after setting bit b of the word array, bit c is set iff it was before or c == b |
| LibBloom.SetBitsPadding | libbloom.c:81-88 | setting the indices of a key, all below size, leaves every bit from size to the end of the last word unchanged |
| LibBloom.OrWordAt | libbloom.c:106-108 | bit k of word i of the OR of two arrays is the OR of their bits |
| LibBloom.OrBitAt | libbloom.c:106-108 | bit c of the OR of two arrays is set iff it is set in either |
| LibBloom.ZeroBitAt | libbloom.c:50 | a zeroed array has no bit set |
| LibBloom.ViewSetBit | libbloom.c:73-79 | setting a bit in the words sets exactly that bit of the boolean view |
| LibBloom.ViewSetBits | libbloom.c:81-88 | setting a key's bits in the words is SetAll on the boolean view |
| LibBloom.ViewOr | libbloom.c:99-110 | OR of the words is Or of the boolean views |
| LibBloom.ViewZero | libbloom.c:43-52 | zeroed words view as all-false bits |
| LibBloom.AddStep | libbloom.c:83-86 | one turn of the bf_add loop: the word state, the bit it tests, and the accumulated result |
| LibBloom.Filter.Mk | libbloom.c:43-52 | `bf_mk`: the given function, hash count and size; word_length(size) zero words; all bits clear |
| LibBloom.Filter.KeyIndices | libbloom.c:84 | the key's indices are below size and within the word array |
| LibBloom.Filter.BitIsSetIsBit | libbloom.c:68-72 | `bf_bit_is_set` reads bit `bit` of the filter's bits |
| LibBloom.Filter.BitSet | libbloom.c:73-79 | sets the bit in the words; returns whether it was already set |
| LibBloom.Filter.Add | libbloom.c:81-88 | the new bits are SetAll of the old bits on the key's indices; returns AnyAlreadySet of the old bits; afterwards the key tests present |
| LibBloom.Filter.Has | libbloom.c:89-96 | returns whether every index of the key is set; changes nothing |
| LibBloom.OrWords | libbloom.c:106-108 | the destination words are the wordwise OR of the two sources |
| LibBloom.Merge | libbloom.c:99-110 | null iff function, size or hash count differ; otherwise a fresh filter of that shape whose bits are the OR of both |
| LibBloom.WordsBE | libbloom.c:125-127 | the body of the file is 8 bytes per word |
| LibBloom.ParseWords | libbloom.c:157-159 | reading n words takes n values |
| LibBloom.Encode | libbloom.c:120-129 | the file is a 16-byte header followed by 8 bytes per word |
| LibBloom.ParseWordsLast | libbloom.c:157-159 | reading n words is reading n - 1 words, then the big-endian value of the next 8 bytes |
| LibBloom.ParseWordsBE | libbloom.c:125-159 | reading back the body written from a word list gives that list |
| LibBloom.DecodeEncode | libbloom.c:120-166 | reading what bf_write_to_file wrote, with anything after it, gives back the hash count, size and words |
| LibBloom.DecodeRefuses | libbloom.c:143-166 | a short header, a wrong magic number or a short body reads as no filter |
| LibBloom.WriteStep | libbloom.c:125-127 | one turn of the write loop appends the next word's bytes |
| LibBloom.WriteToFile | libbloom.c:120-129 | succeeds iff the encoding fits; on success the file gains exactly Encode(hashes, size, words) |
| LibBloom.ReadStep | libbloom.c:157-159 | one turn of the read loop adds the next parsed word |
| LibBloom.ReadWords | libbloom.c:157-160 | fails iff the body is shorter than word_length(size) words; otherwise the content is those words |
| LibBloom.ReadFromFile | libbloom.c:143-166 | null iff Decode refuses the file; otherwise a fresh filter with the given function and the decoded hash count, size and words |
| BloomFilterCpp.BloomFilter.Empty | BloomFilter.cpp:35-36 | the default filter: no hashes, size 0, empty contents |
| BloomFilterCpp.BloomFilter.constructor | BloomFilter.cpp:38-39 | the given hash count, function and size; size bits, all clear |
| BloomFilterCpp.BloomFilter.KeyIndices | BloomFilter.cpp:67-70 | the key's indices lie within the contents |
| BloomFilterCpp.BloomFilter.Merge | BloomFilter.cpp:41-53 | null iff size or hash count differ; otherwise a fresh filter of that shape whose bits are the OR of both |
| BloomFilterCpp.BloomFilter.Set | BloomFilter.cpp:59-63 | stores val at index, nothing else changes; returns whether the bit changed |
| BloomFilterCpp.BloomFilter.Add | BloomFilter.cpp:65-74 | the new contents are SetAll of the old on the key's indices; returns whether the key was present before the call; afterwards it tests present |
| BloomFilterCpp.BloomFilter.Check | BloomFilter.cpp:75-84 | returns whether every index of the key is set; changes nothing |
| BloomFilterCpp.FromBitsBound | BloomFilter.cpp:151-157 | n bits read MSB first give a value below 2^n |
| BloomFilterCpp.FromBits64 | BloomFilter.cpp:151-157 | ReadOutOffset's 64 bits fit a uint64_t |
| BloomFilterCpp.ToBitsAt | BloomFilter.cpp:158-163 | PushBack's bit j is bit 63 - j of the word: MSB first |
| BloomFilterCpp.FromBitsToBits | BloomFilter.cpp:151-163 | reading back the bits PushBack appended gives the word |
| BloomFilterCpp.ToBitsFromBits | BloomFilter.cpp:151-163 | pushing back the word ReadOutOffset read gives the same 64 bits |
| BloomFilterCpp.ReadBytes | BloomFilter.cpp:86-95 | `f.read`: a stream with eof or fail set reads nothing and gets fail set; a short read of a good stream consumes what is left and sets eof and fail; otherwise it takes the bytes off the front and leaves the stream good |
| BloomFilterCpp.WriteBytes | BloomFilter.cpp:124-131 | `f.write`: sets fail when the bytes do not fit, otherwise appends them; a failed stream is left as it is |
| BloomFilterCpp.Read32 | BloomFilter.cpp:86-90 | the big-endian value of the next 4 bytes and a good stream past them, or fail on a stream that is not good, or eof and fail with nothing left on a short good stream |
| BloomFilterCpp.Read64 | BloomFilter.cpp:91-95 | the big-endian value of the next 8 bytes and a good stream past them, or fail on a stream that is not good, or eof and fail with nothing left on a short good stream |
| BloomFilterCpp.Out32 | BloomFilter.cpp:124-127 | appends the 4 big-endian bytes, or sets fail with nothing written |
| BloomFilterCpp.Out64 | BloomFilter.cpp:128-131 | appends the 8 big-endian bytes, or sets fail with nothing written |
| BloomFilterCpp.ChunkIndex | BloomFilter.cpp:112 | the loop `i = 64 * j` runs while 64 * j < size: exactly ceil(size / 64) turns |
| BloomFilterCpp.ChunkEnd | BloomFilter.cpp:139 | the loop stops after exactly ceil(size / 64) chunks |
| BloomFilterCpp.EncodeBody | BloomFilter.cpp:139-141 | n chunks are 8 * n bytes |
| BloomFilterCpp.DecodeBody | BloomFilter.cpp:112-115 | n chunks read give 64 * n bits |
| BloomFilterCpp.Encode | BloomFilter.cpp:133-148 | the file is a 16-byte header followed by 8 bytes per 64-bit chunk |
| BloomFilterCpp.ChunkRoundTrip | BloomFilter.cpp:113-140 | a chunk read out, written as 8 big-endian bytes, read and pushed back gives the same 64 bits |
| BloomFilterCpp.DecodeBodyLast | BloomFilter.cpp:112-115 | reading n chunks is reading n - 1 chunks, then pushing back the next word |
| BloomFilterCpp.DecodeEncodeBody | BloomFilter.cpp:112-141 | reading back n written chunks gives the first 64 * n bits |
| BloomFilterCpp.DecodeEncode | BloomFilter.cpp:97-148 | reading a written filter gives its hash count and size; its contents are the bits padded with WriteToFile's zero chunk, up to a whole number of chunks |
| BloomFilterCpp.RoundTripBits | BloomFilter.cpp:97-148 | after a round trip, the first size bits are exactly the filter's bits |
| BloomFilterCpp.DecodeRefuses | BloomFilter.cpp:97-122 | a short header, a wrong magic number or a short body reads as no filter |
| BloomFilterCpp.ReadOutOffset | BloomFilter.cpp:151-157 | the 64 bits from offset as a number, MSB first |
| BloomFilterCpp.PushBack | BloomFilter.cpp:158-163 | appends the 64 bits of d, MSB first |
| BloomFilterCpp.PushBackReadOut | BloomFilter.cpp:151-163 | ReadOutOffset at the old end after PushBack(d) gives d back |
| BloomFilterCpp.EncodeBodyStep | BloomFilter.cpp:139-141 | one turn of the write loop appends the next chunk's bytes |
| BloomFilterCpp.WriteChunks | BloomFilter.cpp:139-141 | fails iff the body does not fit or the stream had already failed; otherwise appends exactly the body |
| BloomFilterCpp.WriteToFile | BloomFilter.cpp:133-148 | succeeds iff the stream is good and Encode fits; on success the stream gains exactly Encode(filter) |
| BloomFilterCpp.ReadHeader | BloomFilter.cpp:98-100 | the three header fields from the first 16 bytes and a good stream past them, or fail on a short stream or one that is not good |
| BloomFilterCpp.DecodeBodyStep | BloomFilter.cpp:112-115 | one turn of the read loop pushes back the next chunk |
| BloomFilterCpp.ReadChunks | BloomFilter.cpp:112-115 | fails iff the stream had failed, or at least one chunk is due and eof is set or fewer than ceil(size / 64) chunks remain; otherwise appends DecodeBody of them and leaves a good stream good |
| BloomFilterCpp.ReadFromFile | BloomFilter.cpp:97-122 | null iff the stream is not good (eof or fail set) or Decode refuses it; otherwise a fresh filter with the decoded hash count, size and contents, the function h, and a good stream past the filter |
| FilterRun.NextNewline | app.c:109-115 | the position of the first '\n', or the end; no earlier byte is '\n' |
| AppC.ReadKeySpec | app.c:107-129 | every successful read consumes input, so the filter loop ends |
| AppC.ReadKeyDrops | app.c:109-112 | read_key returns false iff the input ends within the first `length` bytes without a '\n' |
| AppC.ReadKeyNoNewline | app.c:109-118 | the key is a prefix of the input, at most length bytes, with no '\n' |
| AppC.ReadKeyShort | app.c:109-114 | a key shorter than length is followed in the input by '\n' and then the rest |
| AppC.ReadKeyLong | app.c:109-118 | a full-length key is the first length bytes, and the line goes on without '\n' up to the first one |
| AppC.ReadKeyLongRest | app.c:121-127 | after a full-length key, the rest of the line and its '\n' are consumed (or everything, at end of file) |
| AppC.ReadKey | app.c:107-129 | returns true iff ReadKeySpec does; the buffer holds the key, read is its length, and the input is advanced to the rest; nothing past length is touched |
| AppC.KeysBlankLine | app.c:139-140 | an empty line is an (empty) key |
| AppC.KeysDropTrailing | app.c:109-112 | a trailing unterminated line shorter than 4096 bytes yields no key |
| AppC.RunKeys | app.c:139-151 | the run leaves as many bits as it started with and makes one write decision per key |
| AppC.QueryKeepsBits | app.c:144-146 | a run with bf_has leaves the bits unchanged |
| AppC.RunKeysPrefix | app.c:139-151 | the decisions for a prefix of the keys are a prefix of the decisions |
| AppC.SeenArePresent | app.c:142-143 | after an updating run, every key seen tests present |
| AppC.RepeatIsFound | app.c:142-143 | with at least one hash, bf_add of a repeated key reports true |
| AppC.WrittenAt | app.c:141-150 | key j is written iff the mode's test holds for what bf_add or bf_has returned on the bits before it |
| AppC.RemovesRepeats | app.c:147-148 | in remove-duplicates mode with updates, a repeated key is never written |
| AppC.KeepsRepeats | app.c:147-148 | in only-duplicates mode with updates, a repeated key is always written |
| AppC.QueryWritesPresent | app.c:144-148 | without updates, a key is written iff (it tests present in the starting filter) == (only-duplicates mode) |
| AppC.KeysStep | app.c:139 | one successful read_key moves one key from the input to the keys done |
| AppC.WordsKeptStep | app.c:139-151 | one loop turn keeps the word array when not updating and the padding bits past size always |
| AppC.FilterStep | app.c:139-151 | one loop turn extends the run by one decision and the output by the key and '\n' when it is written |
| AppC.App.Init | app.c:32-39 | `app_init`: the given function, no filter, no save, no mode |
| AppC.App.CreateFilter | app.c:47-57 | succeeds iff there was no filter; then a fresh filter, with a fresh word array of WordLength(bits) zero words (padding included), of the given shape with all bits clear; otherwise the filter is untouched |
| AppC.App.Load | app.c:59-81 | 1 iff the file does not decode; 2 iff it decodes with a shape other than the filter's; 0 otherwise, with the loaded filter (a fresh one with a fresh word array) adopted or OR-merged; the filter is unchanged unless 0 |
| AppC.App.QueueSave | app.c:82-88 | succeeds iff no save was queued, and then queues the file; nothing else changes |
| AppC.App.QueueFilter | app.c:99-105 | succeeds iff no mode was set, and then sets remove- or only-duplicates; nothing else changes |
| AppC.App.MaybeSaveOnExit | app.c:89-97 | true when nothing is queued; otherwise bf_write_to_file's result, with the encoded filter written on success |
| AppC.App.Test | app.c:141-146 | bf_add (words SetBitsW of the key's indices, bits SetAll, result AnyAlreadySet) or bf_has (words unchanged, result AllSet); the padding bits past size are unchanged either way |
| AppC.App.Terminate | app.c:140 | stores '\n' after the key; the key and '\n' are the length + 1 bytes written |
| AppC.App.Filter | app.c:131-152 | needs a usable filter only once a mode, a filter and a key exist; no output without a mode, a filter or a key; otherwise the bits after are RunKeys over Keys(input), and the output is those keys with their '\n' as RunKeys decides; without updates (or mode, or keys) the word array is unchanged, and the padding bits past size are always unchanged |
| AppC.App.FilterKey | app.c:140-150 | one turn of the loop: extends RunKeys and the output by one key, and keeps the word array (without updates) and the padding |
| AppCpp.GetLine | main.cpp:110-111 | each getline consumes input or ends the stream, so the loop ends |
| AppCpp.RecordsAreLines | main.cpp:109-113 | every record processed is non-empty and contains no '\n' |
| AppCpp.RecordsSkipBlank | main.cpp:113 | an empty line is skipped |
| AppCpp.RecordsKeepTrailing | main.cpp:109-113 | a trailing line without '\n' is still a record |
| AppCpp.RunRecords | main.cpp:109-128 | the run leaves as many bits as it started with and makes one write decision per record |
| AppCpp.QueryKeepsBits | main.cpp:118-119 | a run with Check leaves the bits unchanged |
| AppCpp.RunRecordsPrefix | main.cpp:109-128 | the decisions for a prefix of the records are a prefix of the decisions |
| AppCpp.WrittenAt | main.cpp:115-127 | record j is written iff the mode's test holds for whether it was present in the bits before it |
| AppCpp.SeenArePresent | main.cpp:116-117 | after an updating run, every record seen tests present |
| AppCpp.RemovesRepeats | main.cpp:124-125 | in remove-duplicates mode with updates, a repeated record is never written |
| AppCpp.KeepsRepeats | main.cpp:124-125 | in only-duplicates mode with updates, a repeated record is always written |
| AppCpp.QueryWritesPresent | main.cpp:118-125 | without updates, a record is written iff (it tests present in the starting filter) == (only-duplicates mode) |
| AppCpp.FilterStep | main.cpp:115-127 | one processed line extends the run by one decision and the output by the line and '\n' when it is written |
| AppCpp.RecordsStep | main.cpp:109-113 | one getline moves its line, unless empty, from the stream to the records done |
| AppCpp.FilterInvSkip | main.cpp:113 | skipping an empty line keeps the loop invariant |
| AppCpp.FilterInvLine | main.cpp:113-117 | a non-empty line is only reached with a filter to test it against |
| AppCpp.FilterInvTest | main.cpp:115-127 | testing and writing one line keeps the loop invariant |
| AppCpp.FilterInvEnd | main.cpp:109 | when the stream stops being good, every record was processed, and a run without updates left the bits as they were |
| AppCpp.BloomFilterApp.constructor | main.cpp:34 | no filter, no save, mode 0 |
| AppCpp.BloomFilterApp.CreateFilter | main.cpp:36-49 | succeeds iff there was no filter; then Build's result: no filter when Build returns nullptr, otherwise a fresh filter of the shape with all bits clear |
| AppCpp.BloomFilterApp.Load | main.cpp:51-73 | true iff the stream decodes and, when a filter exists, has its size and hash count; then the loaded filter is adopted or OR-merged; otherwise the filter is unchanged |
| AppCpp.BloomFilterApp.QueueSave | main.cpp:75-81 | succeeds iff no save was queued, and then queues the file; nothing else changes |
| AppCpp.BloomFilterApp.MaybeSaveOnExit | main.cpp:83-89 | true when nothing is queued; otherwise WriteToFile's result, with the encoded filter written on success |
| AppCpp.BloomFilterApp.QueueFilter | main.cpp:91-101 | succeeds iff the mode was 0, and then sets mode 1 or 2; nothing else changes |
| AppCpp.BloomFilterApp.Test | main.cpp:115-120 | Add (contents SetAll) or Check (contents unchanged); the result is whether the line was present before |
| AppCpp.BloomFilterApp.FilterLine | main.cpp:110-127 | one loop turn consumes input or ends the stream, and keeps the loop invariant |
| AppCpp.BloomFilterApp.Filter | main.cpp:103-129 | mode 0 does nothing; otherwise the stream is read to its end, the contents after are RunRecords over Records(input), and the output is those records with '\n' as RunRecords decides; without updates the contents are unchanged |

## Left out

- Filter sizing: `BloomFilterBuilder::Build` and `bf_init` (BloomFilter.cpp:22-33,
  libbloom.c:54-62) compute the shape with `log2`, `log` and `ceil` on doubles. The
  model takes the computed shape as a parameter: `AppC.App.CreateFilter` takes the hash
  count and bit count, and `AppCpp.BloomFilterApp.CreateFilter` takes Build's result as
  an `Option<Shape>`. The builder setters and `strtod`/`atol` are left out with it.
- Concrete hash functions: MurmurHash3 and PMurHash32 are left out, as is
  `CoercedHashFn`'s 128-bit output into a 32-bit variable. The hash is a parameter.
- Command-line parsing: `main.c`, the option loop of `main.cpp`, `usage` and `req_open`
  are left out. A file that cannot be opened exits the C program; the model takes the
  opened file as a value.
- Error messages on `std::cerr`, and `perror`.
- Memory management: `app_del`, `bf_del`, `delete` and the leaked filters are left out.
- Byte-order macros: the model states the big-endian format directly, so the host's
  byte order does not appear.
- `libbloom.c` defines its own `out32`/`out64`/`read32`/`read64` (libbloom.c:112-141),
  identical to those of `libserde.c`. Module `LibBloom` uses module `Serde` for both.
- Partial writes: a write that does not fit writes nothing and fails. A real `fwrite` or
  `ostream::write` may write part of the item.
- A failed read: a value read from a short file is indeterminate in the source. The
  contracts of the read methods leave it unspecified (their bodies store 0), and a failed
  read consumes the rest of the file. `bf_read_from_file` discards the value.
- BloomFilterCpp.ReadFromFile: `ReadFromFile` does not check the header reads
  (BloomFilter.cpp:98-100). It compares the indeterminate header with the magic word and
  runs its chunk loop (BloomFilter.cpp:112-115) up to the indeterminate size before
  testing `f.fail()`. The null result is proved for every header and size value, because
  `ReadHeader` leaves them unspecified on failure. The memory and time of up to 2^58 failed
  `read64` calls and `PushBack`s, on a file of 4 to 15 bytes that starts with the magic
  word, are not modelled.
- LibBloom.WriteToFile: does not state what is left in the file on failure, because
  bf_write_to_file stops at the first failed write, which leaves a prefix of the
  encoding.
- BloomFilterCpp.WriteToFile: does not state the stream on failure, where a prefix of
  the encoding may have been written.
- AppC.ReadKey: does not state `*read` when read_key returns false, because the source
  leaves it unassigned and app_filter does not use it.
- `0x1 << bit` (libbloom.c:77) is an `int` shift, undefined for bits 31 and above. It is
  modelled as the 64-bit shift the format clearly intends.
- The `size_t` counter `i += 64` in the C++ chunk loops (BloomFilter.cpp:112, 139) is not
  modelled as wrapping; it would wrap only for sizes within 64 of 2^64.
- LibBloom.Filter.Add, LibBloom.Filter.Has, BloomFilterCpp.BloomFilter.Add and
  BloomFilterCpp.BloomFilter.Check: require a filter with no hashes or a non-zero size,
  because the source computes `hash % size`, which is undefined for size 0.
- BloomFilterCpp.BloomFilter.Empty: the default constructor stores a null function
  pointer. The model stores the function it is given, because only ReadFromFile uses that
  constructor, and it assigns the function at once.
- AppC.App.Filter and AppCpp.BloomFilterApp.Filter: write failures on the output stream,
  and input read errors other than end of file, are not modelled. The output is the
  sequence of bytes written.
- AppC.App.Filter and AppC.App.FilterKey: require a filter with no hashes or a non-zero
  size once a mode is set and a key arrives, because `bf_add` and `bf_has` compute
  `hash % size`, which is undefined for size 0.
- AppCpp.BloomFilterApp.Filter: requires a usable filter once a mode is set and a
  non-empty line arrives, because `bf_->Add` dereferences the filter without a null
  check.
- AppC.App.MaybeSaveOnExit and AppCpp.BloomFilterApp.MaybeSaveOnExit: require a filter
  when a save is queued, because the source passes the filter to the writer without a
  null check.
- LibBloom.ReadFromFile: states the loaded content as the word array read from the file.
  The remaining position in the file is not stated, because the caller closes the file.
