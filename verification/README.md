# DeltaDB: codec, write-ahead log and crash recovery

A Dafny model of the part of DeltaDB (an LSM-tree key-value store in C++) on which durability rests:
how numbers, strings and operations become bytes, how batches of operations go through the
write-ahead log, and what a database finds again after a crash. Each layer is proved against the one
below it.

| file | models |
|---|---|
| `Words.dfy`, `Memory.dfy` | unsigned words with their bit operations, and the three kinds of memory the code writes to: an out-parameter, a string that is appended to, a string view |
| `FixedCoding.dfy` | fixed-width little-endian numbers (`coding.h`, `coding.cc`) |
| `Leb128.dfy` | the varint format as mathematics: unsigned LEB128 (section 7.6 of DWARF Version 5), read into a word of 32 or 64 bits |
| `VarintCoding.dfy` | the varint writers and readers of `coding.cc` and `coding.h`, each proved to compute what `Leb128` says |
| `SliceCoding.dfy` | length-prefixed slices, streams of them, and streams of mixed fields |
| `CleanupChain.dfy` | the chain of cleanup nodes of an iterator |
| `WalFormat.dfy` | the write-ahead log on plain file offsets: what writing makes of a list of records, what reading makes of any bytes |
| `WalReading.dfy` | what the reader makes of any file at all: which records it may return, and what it must report |
| `WalReuse.dfy` | a log file that a second writer continues |
| `WalDamage.dfy` | a log of which blocks are damaged |
| `WalDetection.dfy` | which damage a checksum detects, and what is lost by it |
| `WalLog.dfy` | the log writer and the buffered log reader as objects, proved to do just that |
| `BatchFormat.dfy` | the serialised write batch and what iterating over any bytes hands over |
| `WriteBatches.dfy` | write batches as objects: building, appending, iterating, filling the memtable |
| `Recovery.dfy` | replaying a log file of which a crash left only the front, and what that means for a log of commits |
| `ReuseRecovery.dfy` | recovering a log file that a second run continued |
| `DamageRecovery.dfy` | recovering a log in which one byte is changed |
| `Store.dfy` | the writing side: numbering, logging and entering batches |

A byte is a number below 256 and a word one below 2^32 or 2^64; every shift, `|`, `&` and narrowing
conversion is written out. A pointer is an offset into an array, a null pointer `None`. Checksums are
a parameter, any function that consumes one byte at a time, as CRC-32C does. The definitions use named
constants; the statements that pin them down (`RecordLayout`, `HeaderRead`, `Tags`, `RepInNumbers` and
all of `WalReading`) have the numbers written out.

The main results:

* The readers of varints are characterised completely, for all bytes, including overlong and
  overflowing input (`ParseCharacterised`, `ReencodeRestores`, `ReadersAgree`).
* A stream of slices that is cut anywhere gives back exactly the slices before the cut
  (`TruncationRecovery`).
* A log that is cut anywhere gives back exactly the records before the cut, and no report of
  corruption (`CrashRecovery`), for every record length and position in a block.
* Of any file at all, the reader returns exactly the whole records: single fragments, and first, middle
  and last ones that directly follow one another (`ReturnsWholeRecords`). Every byte of a fragment is
  returned, or reported, or belongs to a record the file breaks off (`NothingUnaccountedFor`), and
  nothing is reported exactly if all fragments are in order (`SilentIfInOrder`).
* So a paranoid recovery of any file succeeds exactly if that is so and all records can be replayed
  (`RecoverParanoid`); any other replays all records that are returned (`RecoverAny`).
* A fragment is returned exactly where the file holds what a writer leaves for it
  (`ReadExactlyIfWritten`). Whichever byte of a log is changed, exactly the records are lost that have a
  part between the damaged fragment's header and the end of its block (`AnyByteChanged`,
  `ByteChangedRecovered`), provided that the checksum tells its states apart. Bytes of padding do not
  matter; a changed length has the same effect unless the checksum fits by chance (`LengthDamaged`).
* A log of which any blocks in a row are damaged, with any bytes, gives back all records that end in
  front of them, and all that begin behind them exactly if the reader passes the damage
  (`BlocksDamaged`): that is, if none of the fragments it comes to has the type 5, by which it knows
  the end of the file. An undamaged log always passes (`UndamagedPasses`); a fragment of that type
  at the start of a block loses everything behind it (`ForgedEnd`).
* At every moment the memtable is what replaying the log would restore, whatever has been committed
  (`StoreReplays`, of an invariant kept by `Write`). So wherever the log is cut, recovery restores the
  memtable as it was after one of the commits, the last whose record is complete (`StoreSurvives`).
* If all keys and values fit, that is a prefix of the commits, each of them whole and numbered without
  a gap (`CommitsSurvive`, `BatchesSurvive`). The same holds of a second run after the first crash,
  whether it has a log file of its own (`SecondCrash`) or continues that of the first behind a whole
  record (`ReusedLogSurvives`).

Some laws do not hold of the code for all inputs. They are stated with the condition under which
they do:

* A slice makes the round trip exactly if its length fits in 32 bits (`SliceRoundTrip`), and so does
  an operation (`OpReadBack`).
* Iterating over a batch hands over its operations, without an error, exactly if all keys and values
  are shorter than 2^32 bytes and there are fewer than 2^31 operations (`ReplayBack`).
* The repository's documentation promises that a batch succeeds or fails as a whole (line 401). It is
  entered as a whole, and without an error, exactly under that condition (`EnteredWhole`, `Write`). A
  batch that ends with the deletion of a long key is a counterexample (`PartlyEntered`): it is logged,
  entered with another deletion in its place, and makes a paranoid recovery stop (`UnreadableCommit`).
  All or nothing of a batch is handed over exactly if all of it fits, or if already its first record
  cannot be read (`AllOrNothing`), and of a cut-off batch exactly if the cut is in or before the first
  operation, or nothing is missing (`CutAllOrNothing`).
* A log file can be reused without a loss if it ends with a whole record or in the padding behind one
  (`ReusedLog`). If it ends at a block boundary in the middle of a record, all records of the new run
  are read, but one report is made of what there is of the old one (`ReusedAtBlock`). Recovery
  without paranoid checks then restores both runs. With them it loses the second run, although the
  recovery before it succeeded, exactly if the old record has bytes in front of the boundary and the
  new run has written a fragment (`AtBlockSurvives`). Behind a record torn elsewhere a complete commit
  can disappear without a report (`TornLogReused`), even under paranoid checks (`TornRunLost`).

The sources under `src/wal` and `src/db` are not UTF-8 text. A row about them cites what the
repository's own `README.md` says, and names the lines of the code in its last column; the model
follows the code. They disagree on the tags: that document gives values the tag 0 and deletions
the tag 1 (line 469), while `src/utils/include/dbformat.h` (line 31) has it the other way round.

## Model

| member | source | states |
|---|---|---|
| FixedCoding.EncodeFixed32 | src/utils/include/coding.h:53-61 | writes exactly the four little-endian bytes of the value at the offset and leaves every other byte of the buffer alone |
| FixedCoding.EncodeFixed64 | src/utils/include/coding.h:63-75 | the same for the eight bytes of a 64-bit value |
| FixedCoding.DecodeFixed32 | src/utils/include/coding.h:80-88 | the shifts and ORs compute the number the first four bytes denote |
| FixedCoding.DecodeFixed64 | src/utils/include/coding.h:90-102 | the shifts and ORs compute the number the first eight bytes denote |
| FixedCoding.PutFixed32 | src/utils/coding.cc:9-13 | appends exactly the four bytes, the old contents staying in front |
| FixedCoding.PutFixed64 | src/utils/coding.cc:15-19 | appends exactly the eight bytes, the old contents staying in front |
| FixedCoding.FixedBijection32 | src/utils/include/coding.h:53-88 | for 32 bits, decoding inverts encoding and encoding inverts decoding |
| FixedCoding.FixedBijection64 | src/utils/include/coding.h:63-102 | for 64 bits, decoding inverts encoding and encoding inverts decoding |
| FixedCoding.FixedHalves | src/utils/include/coding.h:53-75 | the eight bytes of v are the four of v mod 2^32 followed by the four of v div 2^32 |
| VarintCoding.EncodeVarint32 | src/utils/coding.cc:21-47 | the five unrolled branches write the same bytes as the recursive format, return the offset past them, and touch nothing else |
| VarintCoding.EncodeVarint64 | src/utils/coding.cc:55-64 | the loop writes the same format, so for a zero-extended 32-bit value both writers agree byte for byte |
| VarintCoding.VarintLength | src/utils/coding.cc:77-84 | counts the bytes of the encoding: the least n >= 1 with v < 2^(7n), at most 10 |
| VarintCoding.PutVarint32 | src/utils/coding.cc:49-53 | appends the encoding; the local buffer of five bytes always suffices |
| VarintCoding.PutVarint64 | src/utils/coding.cc:66-70 | appends the encoding; the local buffer of ten bytes always suffices |
| VarintCoding.GetVarint32PtrFallback | src/utils/coding.cc:86-101 | the result is a function of the bytes from the start to the limit alone: the position past the first group and its value mod 2^32, or null with the value unchanged |
| VarintCoding.GetVarint32Ptr | src/utils/include/coding.h:107-117 | the fast path gives the same result and stores the same value as the fallback, on every input |
| VarintCoding.GetVarint64Ptr | src/utils/coding.cc:115-130 | the same for 64 bits and ten bytes |
| VarintCoding.GetVarint32 | src/utils/coding.cc:103-113 | on success drops exactly the value's bytes from the view, otherwise changes nothing |
| VarintCoding.GetVarint64 | src/utils/coding.cc:132-142 | the same for 64 bits |
| Leb128.VarintSpells | src/utils/coding.cc:21-64 | an encoding ends with its only byte below 128, denotes the value, and has no superfluous last byte |
| Leb128.VarintUnique | src/utils/coding.cc:21-64 | and it is the only byte string of which that is true |
| Leb128.LengthExact | src/utils/coding.cc:77-84 | the length is n if and only if n is the least number >= 1 with v < 2^(7n) |
| Leb128.LengthMonotone | src/utils/coding.cc:77-84 | a larger value never has a shorter encoding |
| Leb128.LengthFits | src/utils/coding.cc:49-70 | a 32-bit value takes at most five bytes and a 64-bit value at most ten |
| Leb128.ParseCharacterised | src/utils/coding.cc:86-130 | a reader succeeds if and only if a byte below 128 is among the first five (ten) it may look at, stops past the first such byte, and returns the number denoted mod 2^32 (2^64) |
| Leb128.RoundTrip | src/utils/coding.cc:21-142 | reading what was written, whatever follows, returns the value and stops exactly behind it |
| Leb128.ReencodeRestores | src/utils/coding.cc:21-130 | re-encoding what was read restores the bytes if and only if there is one byte or the last is not zero, and a fifth byte is below 16 (a tenth below 2) |
| Leb128.FitsWord | src/utils/coding.cc:86-130 | no bit is shifted out of the word if and only if the last possible byte is below 16 (below 2) |
| Leb128.WriterIsShortest | src/utils/coding.cc:55-130 | whatever bytes a reader accepts for a value, the writer's are at most as many |
| Leb128.ReadersAgree | src/utils/coding.cc:86-130 | on every input the 32-bit reader is the 64-bit one, failing if that took more than five bytes, with the value mod 2^32 |
| Leb128.CrossWidth | src/utils/coding.cc:55-101 | the 32-bit reader takes a 64-bit encoding if and only if v < 2^35, and then returns v mod 2^32 |
| Leb128.PrefixFree | src/utils/coding.cc:21-70 | no encoding is a proper prefix of another |
| Leb128.TruncatedRejected | src/utils/coding.cc:86-130 | every proper prefix of an encoding is rejected |
| Leb128.UniqueParsing | src/utils/coding.cc:21-70 | if the concatenated encodings of one list are a prefix of those of another, so is the list |
| Leb128.VarintsInjective | src/utils/coding.cc:21-70 | different lists of values have different concatenated encodings |
| SliceCoding.PutLengthPrefixedSlice | src/utils/coding.cc:72-75 | appends the length, narrowed to 32 bits, and then all the bytes |
| SliceCoding.GetLengthPrefixedSlice | src/utils/coding.cc:144-153 | returns the slice and leaves the rest; without a header changes nothing; with a short payload drops the header alone and leaves the result as it was |
| SliceCoding.SliceConservation | src/utils/coding.cc:144-153 | header, slice and rest are the input cut in order: no byte is lost or read twice |
| SliceCoding.SliceReadBack | src/utils/coding.cc:72-75 | for any slice, what is read back is its first (length mod 2^32) bytes |
| SliceCoding.SliceRoundTrip | src/utils/coding.cc:72-153 | a slice comes back, with what followed it, if and only if it is shorter than 2^32 bytes |
| SliceCoding.SliceTruncated | src/utils/coding.cc:144-153 | a slice that is not wholly there is not read |
| SliceCoding.TruncationRecovery | src/utils/coding.cc:72-153 | reading the first k bytes of a written list until the reader fails yields the slices wholly before k, and nothing else |
| SliceCoding.FittingIsLongest | src/utils/coding.cc:72-75 | these are the longest prefix of the list whose encoding fits in k bytes |
| SliceCoding.FieldRoundTrip | src/utils/coding.cc:49-153 | a varint32, varint64 or slice field comes back if and only if it fits |
| SliceCoding.StreamRoundTrip | src/utils/coding.cc:49-153 | any fields, written and read by the same schema, come back and leave exactly what followed |
| SliceCoding.StreamTruncated | src/utils/coding.cc:86-153 | a stream that lost any part of its end does not read by its schema |
| CleanupChain.Iterator.RegisterCleanup | src/utils/iterator.cc:5-18 | the first call fills the inline head; each later one links a new node in behind the head and changes no other link and no triple |
| CleanupChain.Iterator.Follow | src/utils/iterator.cc:8-14 | following `next` k times from the head reaches the k-th node of the chain, or null behind its end |
| CleanupChain.ChainAcyclic | src/utils/iterator.cc:8-14 | no node is reached twice |
| CleanupChain.OneMore | src/utils/iterator.cc:8-14 | a new registration comes second |
| CleanupChain.ChainOrderAt | src/utils/iterator.cc:5-18 | after n calls the order is first, n-th, (n-1)-th, ..., second |
| CleanupChain.ChainOrderPermutes | src/utils/iterator.cc:5-18 | each registration is there exactly as often as it was made |
| WalFormat.ChecksumConsumes | README.md:228 | the checksum of a longer string is one step, with its last byte, behind that of the shorter one; of no bytes it is 0, where it starts (wal_writer.cc, lines 9-14 and 103) |
| WalFormat.ChecksumContinues | README.md:235 | extending the checksum precomputed for a type by the fragment gives the checksum of both (wal_writer.cc, lines 9-14) |
| WalFormat.RecordLayout | README.md:213-236 | in numbers, at every position in a block: zeros where fewer than 7 of 32768 bytes are left, then checksum, length with its low byte first, type 1 to 4 and as much of the record as there is room for, then the rest in the next block (wal_writer.cc, lines 35-119) |
| WalLog.Writer.constructor | README.md:236-250 | a writer starts at position (length mod 32768) of a file, behind what it holds (wal_writer.cc, lines 19-28) |
| WalLog.Writer.AddRecord | README.md:213-236 | the file is what it was, followed by the log of every record added so far (wal_writer.cc, lines 35-80) |
| WalLog.Writer.EmitPhysicalRecord | README.md:217-230 | appends checksum, length, type and fragment, and advances the position in the block by as much (wal_writer.cc, lines 91-119) |
| WalLog.SequentialFile.Read | README.md:252-255 | returns the next n bytes, fewer only at the end of the file (sequential_file.cc, lines 17-34) |
| WalLog.Reader.ReadPhysicalRecord | README.md:238-243 | for any file: the buffered reader returns and reports what a reading by file offsets does, and stands where that stands (wal_reader.cc, lines 75-145) |
| WalLog.Reader.ReadRecord | README.md:238-243 | for any file: the loop over fragments returns, reports and consumes what the recursive reading does (wal_reader.cc, lines 158-278) |
| WalLog.Reader.Dispatch | README.md:238-243 | for each type: what is returned, what is kept for later, and how many bytes are reported lost (wal_reader.cc, lines 196-273) |
| WalReading.WholeRead | README.md:240-242 | a fragment of type 1 is returned; what is held of another record is one report, unless it is empty (wal_reader.cc, lines 197-209) |
| WalReading.FirstRead | README.md:240-242 | a fragment of type 2 is held from then on; what was held is one report, unless it is empty (wal_reader.cc, lines 211-222) |
| WalReading.MiddleRead | README.md:240 | a fragment of type 3 goes behind what is held (wal_reader.cc, lines 229-231) |
| WalReading.LastRead | README.md:240 | a fragment of type 4 completes what is held, which is returned (wal_reader.cc, lines 239-244) |
| WalReading.OrphanRead | README.md:240-242 | a fragment of type 3 or 4 where nothing is held is one report, of its length, and nothing is held afterwards (wal_reader.cc, lines 227-228 and 237-238) |
| WalReading.BadRead | README.md:241-242 | at a bad record what is held is given up: one report of its length, besides that of the physical reader (wal_reader.cc, lines 256-263) |
| WalReading.UnknownRead | README.md:242 | at any other type what is held is given up: one report of both lengths together (wal_reader.cc, lines 265-272) |
| WalReading.EndRead | README.md:243 | at the end of the file what is held is dropped without a report (wal_reader.cc, lines 247-254) |
| WalReading.ReturnsWholeRecords | README.md:240-243 | of any file: exactly the records are returned that are one fragment of type 1, or one of type 2, any of type 3 and one of type 4 directly behind one another (wal_reader.cc, lines 158-278) |
| WalReading.NothingUnaccountedFor | README.md:240-243 | of any file: the bytes in all fragments are those returned, those reported and those of a record that the file breaks off (wal_reader.cc, lines 158-278) |
| WalReading.SilentIfInOrder | README.md:242-243 | of any file: no report is made if and only if the fragments are in order and none is damaged (wal_reader.cc, lines 75-278) |
| WalDetection.HeaderRead | README.md:217-241 | of any file and any 7 bytes of a block, in numbers: end of file, bad record and how much of it is reported, or the fragment (wal_reader.cc, lines 100-144) |
| WalDetection.ReadExactlyIfWritten | README.md:241 | a fragment is returned if and only if the file holds there what the writer leaves for it (wal_reader.cc, lines 100-144; wal_writer.cc, lines 91-119) |
| WalDetection.EveryByteMatters | README.md:228 | if the checksum tells its states apart, changing one byte changes it (wal_reader.cc, lines 121-125) |
| WalDetection.ByteDetected | README.md:228 | a fragment of which one byte of checksum, type or contents is changed is rejected with the rest of its block, which is reported, but for a lone header that becomes zero (wal_reader.cc, lines 116-131) |
| WalDetection.FragmentDamaged | README.md:240-242 | where the reader rejects a fragment of a log, just the records come back that end in front of it or begin behind its block, and nothing else (wal_reader.cc, lines 158-278) |
| WalDetection.ByteDamaged | README.md:228 | so it is for every byte of a fragment but its length (wal_reader.cc, lines 116-131 and 256-263) |
| WalDetection.LengthDamaged | README.md:228-243 | a changed length: the same records, if the checksum differs or the length is too long; if that is in a block the log does not fill, without a report (wal_reader.cc, lines 106-114) |
| WalDetection.PaddingDamaged | README.md:234 | a changed byte of padding: all records, without a report (wal_reader.cc, lines 77-98) |
| WalDetection.EveryByte | README.md:213-236 | a byte of a log is in padding or in a fragment, whose header starts a block or a record (wal_writer.cc, lines 35-80) |
| WalDetection.AnyByteChanged | README.md:228 | every byte of every log changed to any other: which records come back (wal_reader.cc, lines 75-278) |
| WalFormat.FragmentReadBack | README.md:217-241 | an intact fragment is read back, wherever the block boundaries are (wal_reader.cc, lines 100-144) |
| WalFormat.FragmentTorn | README.md:243 | a fragment whose end is missing reads as the end of the file and is not reported (wal_reader.cc, lines 77-114) |
| WalFormat.RecordCut | README.md:240-243 | of a file that ends in or behind a record: the record, if all its fragments are there, otherwise the end of the file, and never a report (wal_reader.cc, lines 158-278) |
| WalFormat.CrashRecovery | README.md:207-243 | a log cut anywhere reads as its complete records, in order, without a report (wal_reader.cc, lines 158-278) |
| WalFormat.CompleteIsLongest | README.md:232-236 | these are the longest list of records whose log ends before the cut (wal_writer.cc, lines 35-80) |
| WalFormat.LogRoundTrip | README.md:722-724 | a whole log reads as all its records (wal_writer.cc, lines 35-80) |
| WalFormat.LogContinues | README.md:236 | a log continued where another ended is the log of both lists (wal_writer.cc, lines 24-28) |
| WalReuse.LengthIsEnough | README.md:250 | a file that ends with a whole record, or anywhere in the padding behind it, is continued by a writer that knows its length only exactly as the first writer would have (wal_writer.cc, lines 24-51; db_impl.cc, lines 403-411) |
| WalReuse.ReusedLog | README.md:250 | so all records of both runs are read, without a report (db_impl.cc, lines 403-411) |
| WalReuse.ReusedAtBlock | README.md:240-250 | behind a record that breaks off at a block boundary, all records of the new run are read, and one report, if anything, of as many bytes as the fragments in front carry (wal_reader.cc, lines 196-222; db_impl.cc, lines 403-411) |
| WalReuse.TornLogReused | README.md:243-250 | behind a single torn byte, whatever it is, a complete record of 1 to 255 bytes that still fits in the block is not read, and no report is made (wal_reader.cc, lines 106-116; db_impl.cc, lines 403-411) |
| WalReuse.HeldAtBlock | README.md:240 | a reader that is at a block boundary in the middle of a record holds just the part of it in front (wal_reader.cc, lines 158-278) |
| WalDamage.AcrossBlocks | README.md:241-243 | whatever bytes are in the blocks in front of a boundary, the reader goes on at that boundary if it passes them, and otherwise returns nothing from there (wal_reader.cc, lines 75-145) |
| WalDamage.RestRead | README.md:240-243 | the rest of a record whose front was lost yields at most one record, none if nothing else is held, and reading goes on behind it (wal_reader.cc, lines 224-245) |
| WalDamage.BlocksDamaged | README.md:240-243 | of a log with any bytes in any blocks in a row: all records that end in front are returned first, all that begin behind last if and only if the reader passes the damage, and what is made of the damage between them (wal_reader.cc, lines 106-131) |
| WalDamage.BegunExactly | README.md:232-236 | a record begins in front of an offset if and only if the log of those before it and its padding end there (wal_writer.cc, lines 35-80) |
| WalDamage.UndamagedPasses | README.md:240-243 | the reader passes every block of an undamaged log, whatever its records contain (wal_reader.cc, lines 75-145) |
| WalDamage.ForgedEnd | README.md:240-243 | a fragment of the type that stands for the end of the file, at the start of a damaged block, is not passed: just the records in front are returned (wal_reader.h, line 37; wal_reader.cc, lines 247-254) |
| BatchFormat.OpReadBack | README.md:472-481 | a serialised operation is read back, whatever follows, if and only if its key and value fit; one that does not is never read back as itself (write_batch.cc, lines 69-94) |
| BatchFormat.OpTruncated | README.md:472-481 | an operation that is not wholly there ends the iteration with the error for a bad `Put` or a bad `Delete` (write_batch.cc, lines 69-94) |
| BatchFormat.Tags | README.md:472-481 | the tag is 1 for a `Put` and 0 for a `Delete`, in what is written and in what is read, and any other is an error (write_batch.cc, lines 69-94, 148 and 163; dbformat.h, line 31) |
| BatchFormat.ShortOps | README.md:472-481 | with keys and values below 128 bytes, the tag, one byte for each length and the bytes themselves (write_batch.cc, lines 146-165) |
| BatchFormat.RepInNumbers | README.md:402-403 | eight bytes of sequence number, four of count, and the operations (write_batch.cc, lines 38-41 and 108-132) |
| BatchFormat.CountDecides | README.md:402-403 | a header that counts n operations is accepted if and only if there are just as many, for any n below 2^31 (write_batch.cc, lines 96-100) |
| BatchFormat.WholeIsLongest | README.md:472-481 | the operations in front of a cut are the longest list that fits (write_batch.cc, lines 55-101) |
| BatchFormat.ReplayBack | README.md:401-404 | iterating over a serialised batch hands over its operations if and only if every key and value is shorter than 2^32 bytes, and ends well besides if and only if there are also fewer than 2^31 (write_batch.cc, lines 55-101) |
| BatchFormat.TruncationNoticed | README.md:401-404 | a batch that lost any part of its end: the operations before the cut are handed over, and the error is that for a short header, a wrong count, a bad `Put` or a bad `Delete`, whichever the cut is in (write_batch.cc, lines 55-101) |
| BatchFormat.CutAllOrNothing | README.md:401 | of a batch cut anywhere, all or nothing is handed over if and only if the cut is in or before the first operation or nothing is missing (write_batch.cc, lines 55-101) |
| BatchFormat.AllOrNothing | README.md:401 | of a batch of any operations, all or nothing is handed over if and only if every key and value fits or the first record cannot be read: a value behind a key of 2^32 bytes or more, which the bytes left of the key are not (write_batch.cc, lines 55-101) |
| BatchFormat.PartlyEntered | README.md:401 | any operations that fit, and the deletion of a key of 2^32 bytes: all of them and the deletion of the empty key are handed over before the error (write_batch.cc, lines 69-94 and 161-165) |
| BatchFormat.ExtendedIsConcat | README.md:402-405 | adding to a batch, or appending another, serialises the two lists one after the other under the first one's sequence number (write_batch.cc, lines 220-226) |
| WriteBatches.NumberedAt | README.md:402-404 | operation i is entered under the batch's sequence number plus i, mod 2^64 (write_batch.cc, lines 182-195) |
| WriteBatches.EnteredWhole | README.md:401-404 | a batch is entered whole and without an error if and only if every key and value fits and there are fewer than 2^31 operations (write_batch.cc, lines 55-101) |
| WriteBatches.Inserter.Add | README.md:404 | enters one operation under the current sequence number and advances it (write_batch.cc, lines 182-195) |
| WriteBatches.WriteBatch.Clear | README.md:402 | leaves the serialisation of no operations under number 0 (write_batch.cc, lines 38-41) |
| WriteBatches.WriteBatch.CountOf | README.md:402-403 | reads the count as a signed 32-bit number (write_batch.cc, line 108) |
| WriteBatches.WriteBatch.SetCount | README.md:402-403 | replaces the four bytes of the count and nothing else (write_batch.cc, line 114) |
| WriteBatches.WriteBatch.SequenceOf | README.md:402-403 | reads the sequence number from the header (write_batch.cc, lines 123-125) |
| WriteBatches.WriteBatch.SetSequence | README.md:402-403 | replaces the eight bytes of the sequence number and nothing else (write_batch.cc, line 132) |
| WriteBatches.WriteBatch.SetContents | README.md:402-403 | replaces the whole serialisation (write_batch.cc, lines 212-215) |
| WriteBatches.WriteBatch.Put | README.md:472-481 | adds one to the count and appends the tagged record of the key and the value (write_batch.cc, lines 146-151) |
| WriteBatches.WriteBatch.Delete | README.md:472-481 | adds one to the count and appends the tagged record of the key (write_batch.cc, lines 161-165) |
| WriteBatches.WriteBatch.Append | README.md:403-405 | adds the other batch's count and appends its records without its header (write_batch.cc, lines 220-226) |
| WriteBatches.WriteBatch.Iterate | README.md:402-404 | for any bytes: hands over the operations up to the first malformed record, in order, each under the next number, and returns which of the five errors it met, if any (write_batch.cc, lines 55-101) |
| WriteBatches.WriteBatch.InsertInto | README.md:404 | the same, numbered from the batch's own sequence number (write_batch.cc, lines 202-207) |
| Recovery.RecoverWalFile | README.md:252-254 | for any file, with and without paranoid checks: the memtable, the largest sequence number and the status are those of a replay by file offsets (db_impl.cc, lines 328-398) |
| Recovery.ApplyRecord | README.md:404 | one record: too small, a malformed batch, or a batch entered and its last number taken into account (db_impl.cc, lines 368-386) |
| Recovery.RecoverLog | README.md:252-254 | a log of any records, cut anywhere, recovers to the effect of its complete records one after another (db_impl.cc, lines 367-398) |
| Recovery.ShortRecord | README.md:404 | a record of less than 12 bytes is passed over, or under paranoid checks an error (db_impl.cc, lines 368-372) |
| Recovery.LargestNumber | README.md:402-404 | whatever the records hold: the number recovered is at least that of every batch and the one before, and is one of them (db_impl.cc, lines 383-386) |
| Recovery.RecoverAny | README.md:241-243 | of any file, without paranoid checks: all records that are read are replayed (db_impl.cc, lines 367-398) |
| Recovery.RecoverParanoid | README.md:241-243 | of any file, with paranoid checks: success if and only if nothing is reported and all records can be replayed; otherwise the records in front of the first report are (db_impl.cc, lines 334-339 and 367-398) |
| Recovery.OrphanStops | README.md:241-243 | a middle or last fragment without a first one stops it (db_impl.cc, lines 334-339) |
| Recovery.ApplyCommit | README.md:401-404 | replaying a commit enters what its batch hands over, and either counts all its operations even if some are not, or stops, under paranoid checks, if there was an error (db_impl.cc, lines 378-386) |
| Recovery.ApplyCommits | README.md:401-404 | replaying commits that fit enters their operations, numbered without a gap, and ends with the number of the last (db_impl.cc, lines 367-386) |
| Recovery.CommitsSurvive | README.md:207-254 | a log of commits that fit, cut anywhere: exactly the batches whose record is complete are restored, each whole and in order; paranoid checks object to nothing (db_impl.cc, lines 328-398) |
| Recovery.SecondCrash | README.md:207-254 | a second run that starts with the recovered number, with a log file of its own, and crashes too: the survivors of both are numbered as one list (db_impl.cc, lines 312-324) |
| DamageRecovery.ByteChangedRecovered | README.md:228-254 | a log in which a byte of a fragment, but not of a length, is changed: paranoid checks stop in front of the damage; without them the records behind the block are replayed too (db_impl.cc, lines 334-339 and 367-398) |
| ReuseRecovery.RecoverThenMore | README.md:252-254 | a log in front of any other bytes: its records are replayed, and then whatever is found behind it (db_impl.cc, lines 367-398) |
| ReuseRecovery.ReusedLogSurvives | README.md:207-254 | a second run in the log file of the first, behind a whole record, cut anywhere behind the first run's commits: both are recovered as one list (db_impl.cc, lines 328-411) |
| ReuseRecovery.AtBlockSurvives | README.md:207-254 | a second run behind a record that breaks off at a block boundary, cut anywhere: the complete commits of both runs are recovered as one list, except that paranoid checks give up behind the first run if part of that record is in the file and a fragment of the second run too (db_impl.cc, lines 334-339, 367 and 403-411) |
| ReuseRecovery.TornRunLost | README.md:243-254 | behind a single torn byte, a short commit of the second run that is completely written is not recovered, and paranoid checks find nothing wrong (db_impl.cc, lines 334-339 and 403-411) |
| Stores.Store.Write | README.md:485-502 | for any batch: logs it, numbered, before entering it; afterwards the memtable is again what replaying the log restores; it is entered whole and without an error if and only if its keys and values fit (db_impl.cc, lines 1140-1165) |
| Stores.UnreadableCommit | README.md:401-404 | a logged batch that ends with the deletion of a key of 2^32 bytes: the recovery enters another deletion, or stops under paranoid checks (db_impl.cc, lines 378-382) |
| Stores.StoreReplays | README.md:401-404 | for every state a store can reach: its log consists of the records of its commits, its memtable of what their batches hand over, and replaying the one gives the other (db_impl.cc, lines 1140-1165) |
| Stores.StoreSurvives | README.md:207-254 | for every state a store can reach, whatever was committed, and every cut of its log: recovery restores the memtable as it was after the last complete commit, and its number (db_impl.cc, lines 1140-1165 and 328-398) |
| Stores.BatchesSurvive | README.md:401-404 | if all that was committed fits, that is a prefix of the commits, each of them whole, with or without paranoid checks (db_impl.cc, lines 1140-1165 and 328-398) |

## Left out

- CleanupChain.Iterator: its constructor starts from an empty head with a null `next`, which is what `RegisterCleanup` relies on; `src/utils/include/iterator.h` itself leaves the fields of `cleanup_head_` uninitialised unless the object is value-initialised. The destructor there is defaulted and runs no cleanup function although the comment beside `RegisterCleanup` promises it; the code is followed and nothing is run.
- SliceCoding.GetLengthPrefixedSlice: the input and the result are different objects, as in every caller; in the same way a string that is appended to does not alias the view appended, and a batch is not appended to itself.
- WriteBatches.WriteBatch.Put: required not to overflow the signed count, which is undefined behaviour in the source; the same for `Delete` and `Append`.
- WalReuse.ReusedLog: what is read behind a record torn elsewhere than at a block boundary is not characterised; it depends on the torn header, the end of the block and the checksum.
- WalDamage.BlocksDamaged: what is returned from the damaged blocks themselves is not said in terms of the log, only that it is made of whole records (`ReturnsWholeRecords`); blocks are whole, so a damaged end of a log that does not fill its last block is not covered.
- BatchFormat.ReplayBack: from 2^31 operations on, the `int` in which the source counts them (write_batch.cc, lines 66-70) overflows, which is undefined; the model counts on and compares with the signed count, so that half of the equivalence says nothing of the code.
- WriteBatches.EnteredWhole: the same for 2^31 operations and more.
- WriteBatches.WriteBatch.Iterate: the same, its counter is unbounded.
- WalLog.Reader: an initial offset other than 0 and resynchronisation (both callers pass 0), the offset of the last record, and the reasons passed to the reporter; a report is modelled as its number of bytes. The buffer and the returned records are values, so their aliasing of the block buffer and of `scratch` is not modelled.
- WalLog.SequentialFile.Read: errors of the operating system and short reads before the end of a file; likewise all failures of writing, flushing and syncing.
- Recovery.RecoverWalFile: the memtable is the list of its entries; flushing it to a table file when it has grown, the manifest, and the decision to reuse the log are left out.
- Stores.Store.Write: the queue of writers, the mutex, and making room; the batch written is the one that grouping (a sequence of appends) has produced. It has fewer than 2^31 operations, as counting more is undefined behaviour, and sequence numbers stay below 2^64 - 1. The memtable itself packs a sequence number with a type into 64 bits (memtable.cc, line 100), so numbers of 2^56 and above would collide there; the model's entries keep them apart.
- Recovery.CommitsSurvive: stated for commits whose keys and values fit; of others `RecoverLog` and `StoreSurvives` say what is recovered.
- ReuseRecovery.AtBlockSurvives: stated for commits that fit, as is `ReusedLogSurvives`; `RecoverAtBlock` is for any records.
- CRC-32C itself: the checksum is any function that consumes bytes one at a time. What is said of damage that it detects is said of those that tell their states apart (`TellsApart`), as the plain sum does (`SumTellsApart`): that CRC-32C is one of them is not proved, and of damage to several bytes of a fragment nothing more is said than that it is returned only if the checksum fits (`ReadExactlyIfWritten`).
- Skip list, tables, bloom filters, caches, version sets, compaction and iterators over the database.
- Allocation failure, character signedness and pointer casts.
