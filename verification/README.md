# A verified model of the RaftBitcask storage engine

RaftBitcask keeps a key-value map in an append-only log with an index in memory. This project models
the parts of it that have to agree with one another and proves that they do:

- **The engine** (`ByteStrings` to `Space`, `LiveStores`, `Iterators`). Records are encoded byte by
  byte, appended, scanned back, replayed into an index, merged and hinted. `Engine.dfy` says what each
  operation does to the state as a function; the classes `DataFiles.DataFile`, `DB.Database` and
  `DB.WriteBatch` compute exactly these functions with the program's own loops and fields. On top
  stands a state machine (`Runs.dfy`) whose steps are plain operations, batches, merges, crashes at any
  record boundary (inside a commit too) and reopens. Its specification is a history of events, plain writes and
  batches with their numbers, whose effect on a map is defined without log, index or bytes. A merge
  replaces the history by the plain writes of the merged log, and is proved to leave the effect as it was.
- **The skip list** (`SkipList`, `SkipListIterators`): nodes with forward pointers, a predecessor vector, any level
  from 0 to 16 for a new node; proved to be a sorted map.
- **The radix tree** (`ChildTables`, `ArtTree`, `ArtNodes`, `ArtIndexes`): the four node layouts on
  arrays, prefix splits, growth and Node48 compaction on the heap, refined to a pure tree, and the tree
  to a map.
- **The B+ index** (`BPlusFile`, `BPlusLeaves`): the index file, and leaves as sorted arrays.
- **Redis lists** (`RedisLists`, `RedisDeques`): metadata and element records over a key-value store,
  proved to be independent double-ended queues.
- **The Redis protocol** (`Resp`, `RespLoops`, `RespInputs`, `RespReplies`): printing responses, parsing
  commands, and a reader of replies to measure the printing by.
- **The formats** (`Formats.dfy`): where each field stands in records, keys, places, metadata and nodes, in
  literal numbers.

A file is a sequence of bytes; the checksum is a parameter (`Checksum`), so every result holds for any
checksum function. The time, the level of a new skip list node, the merge ratio and the free disk space
are parameters as well. `reclaim` and similar counters are unbounded integers; sizes, offsets, indices
and sequence numbers that the program stores in 32 or 64 bits are reduced explicitly.

Some promises hold only under a condition. The model keeps the code as it is and states the condition:

- What any history leaves on disk, whatever its keys and numbers, is given event by event
  (`LogMeansAnyHistory`): a plain write under an ambiguous key waits like a batch record for the number
  the key ends in, and a later batch with that number publishes it (`AmbiguousPutIsPublished`).
- A plain key survives a reopen if and only if it is *unambiguous*: shorter than eight bytes, or ending
  in eight zero bytes (`PutRecoveredIff`, `AmbiguousPutIsForgotten`). The same condition decides merge
  and hint (`MergePreservesIff`, `HintAgreesIff`). Keys written by batches need it only for merge.
- An append that would pass the file limit starts the same file over from offset zero
  (`AppendExtendsLogIff`): src/db.cpp:436 moves the active file away before src/db.cpp:506 asks for its id.
- Whatever a store's file holds, a rotated one included, an append leaves every byte it does not write
  (`AppendWritesRecord`), and merge copies exactly the records the index points at, twice after a rotation
  (`MergeCopies`). Which answers that keeps is stated for every store whose copies fit one file
  (`MergeAnswers`).
- A wrong checksum is an error only if it is 0, 0xDEADBEEF or 0x12345678 (`ReadsWithAnyChecksum`), and a
  record cut short behind its header is accepted as it is (`CutRecordReads`, `CutWriteScans`).
- After a reopen the write offset is the end of the log, unless exactly five or six zero bytes stand
  behind it (`ReopenRestores`): the 15-byte header window then ends inside an incomplete varint, which is
  not read as the end of the file.
- Inserting into the radix tree is right exactly when the tree is open for the key (`InsertIff`): the key
  may not end inside the tree where others go on, nor go on where another ends. Keys from a prefix-free
  set always find it open.
- A backward iteration with a prefix visits at most the prefix itself (`VisitAll`).
- A B+ index file is read back exactly when no node has more than 128 keys (`FileRoundTripIff`). Since a
  put never splits, that is a bound on the whole index (`IndexReloadsIff`).
- A push that would bring the size of a Redis list to 2^32 empties the list (`PushValue`). Element keys
  are ambiguous whenever their index is not zero, so elements are gone after a reopen
  (`ListElementIsForgotten`).
- RESP commands parse back whatever their arguments hold, up to the first without arguments, unless one
  in front of it has an argument of 2147483646 or 2147483647 bytes: src/redis_server.cpp:306 adds two to the
  length in an `int`, which overflows, and the model reports that (`ParseInvertsSerialize`).
- The loop over RESP commands does not end if and only if, within as many iterations as the input has
  characters, it comes to an offset it has been at (`RunsForeverIff`). It ends whenever every command it
  comes to leads forward (`EndsGoingForward`), which no negative length on the way guarantees
  (`EndsWithoutNegativeLength`) and a negative one can break (`NegativeLengthRunsForever`).

## Model

| member | source | states |
|---|---|---|
| Varints.EncodeVarint | src/log_record.cpp:101-109 | the loop writes the varint of any value, whose inverse is proved below |
| Varints.ReadVarint | src/log_record.cpp:112-136 | the loop returns the decoded value with its length, or the empty, incomplete or too-long error |
| Varints.DecodeEncodeVarint | src/log_record.cpp:101-136 | every 64-bit number decodes to itself, taking exactly its own bytes, whatever follows |
| Varints.VarintWidth | src/log_record.cpp:101-109 | at most 10 bytes for 64 bits, at most 5 for 32 bits |
| Varints.VarintPrefixFree | src/log_record.cpp:101-136 | two buffers that start with a varint are equal only if the numbers and the rests are |
| Varints.VarintLength | src/log_record.cpp:250-264 | the length loop of encoded_size agrees with the bytes written |
| VarintBuffers.DecodeVarintMeans | src/log_record.cpp:112-136 | for any bytes: the groups up to the first byte without the top bit, cut to 64 bits, if that is among the first ten; otherwise which error |
| VarintBuffers.CutVarint | src/log_record.cpp:134-135 | a varint cut short is not decoded |
| Formats.LittleEndianAt | src/log_record.cpp:213-217 | byte i of a number is worth 256^i |
| Formats.VarintIs | src/log_record.cpp:101-109 | groups lowest first, the top bit on all but the last, no needless group |
| Formats.RecordLayout | src/log_record.cpp:186-220 | where checksum, type, lengths, key and value stand; the checksum is that of everything behind it; types are 1, 2 and 3 |
| Formats.TagLayout | src/db.cpp:838-852 | the number of a batch stands in the last eight bytes of the key |
| Formats.PlaceLayout | src/log_record.cpp:139-159 | file id, offset and size in this order |
| Formats.MetadataLayout | src/redis_data_structure.cpp:13-45 | the fields at bytes 0, 1, 9, 17, 21 and 29 |
| Formats.ElementKeyLayout | src/redis_data_structure.cpp:122-136 | user key, version, index |
| Formats.LeafLayout | src/bplus_tree_index.cpp:172-190 | kind, number of keys, keys and places of a leaf |
| Formats.PlaceInLeaf | src/bplus_tree_index.cpp:381-385 | sixteen bytes for each place: id, offset, size |
| LogRecords.EncodePosition | src/log_record.cpp:139-159 | appends the three varints of a position |
| LogRecords.DecodePosition | src/log_record.cpp:161-183 | reads three varints, truncating file id and size to 32 bits, or fails |
| LogRecords.DecodeEncodePos | src/log_record.cpp:139-183 | a position with 32-bit id and size and 64-bit offset decodes to itself |
| LogRecords.DecodePosIff | src/log_record.cpp:161-183 | any 64-bit position comes back cut to 32 bits, and as it was if and only if it fits |
| LogRecords.DecodeWideHeader | src/log_record.cpp:286-294 | lengths of 32 bits and more come back cut to 32 bits |
| LogRecords.Encode | src/log_record.cpp:186-220 | checksum, type, lengths, key and value in this order, with the size |
| LogRecords.EncodedSize | src/log_record.cpp:246-268 | equals the number of bytes that encoding produces |
| LogRecords.ReadHeader | src/log_record.cpp:271-297 | decodes checksum, type and lengths, or fails as a varint does |
| LogRecords.HeaderFitsWindow | include/bitcask/common.h:22 | the 15-byte window holds every header with lengths below 2^32 |
| LogRecords.DecodeEncodeHeader | src/log_record.cpp:271-297 | the header of a record decodes to its fields whatever follows |
| Keys.LogRecordKeyWithSeq | src/db.cpp:838-852 | appends a nonzero number as eight little-endian bytes, leaves the key otherwise |
| Keys.ParseLogRecordKey | src/db.cpp:819-836 | splits a nonzero trailing number off, leaves the key otherwise |
| Keys.ParseTagIff | src/db.cpp:819-852 | parsing inverts tagging for every nonzero number, and for zero if and only if the key is unambiguous |
| Keys.TagParse | src/db.cpp:819-852 | tagging inverts parsing for every key, and the real key is never longer |
| DataFiles.DataFile.Write | src/data_file.cpp:147-156 | overwrites the bytes at the write offset, keeps the others, advances the offset |
| DataFiles.DataFile.ReadNBytes | src/data_file.cpp:211-249 | the bytes at the offset, cut at the end of the file; the end-of-file error exactly when there are none to read |
| DataFiles.DataFile.ReadLogRecord | src/data_file.cpp:38-145 | every outcome of a read: end of file, damaged header, size limit, partial data, selective checksum rejection |
| DataFiles.ReadBackIff | src/data_file.cpp:38-145 | a record between any bytes is read back as it was written if and only if key and value are at most 64 MB and it is not taken for the end of the file |
| DamagedRecords.ReadsWithAnyChecksum | src/data_file.cpp:62-144 | for any number where the checksum belongs, any record and any surroundings, which of the five outcomes a read has |
| DamagedRecords.CutRecordReads | src/data_file.cpp:51-117 | for every length to which a record at the end of the file is cut: the end of the file, an error, or the cut record with the size of the whole |
| AnyStores.OverwriteBytes | src/data_file.cpp:147-156 | a write puts its data at its offset, leaves every other byte, and leaves zeros in a gap |
| DataFiles.DataFile.WriteHintRecord | src/data_file.cpp:158-166 | appends a record that holds the encoded position |
| Logs.ReadLogAt | src/data_file.cpp:38-145 | the i-th record of a log is read at the sum of the sizes before it, whatever follows the log |
| Logs.ScanInvertsWrite | src/db.cpp:645-703 | scanning a written log with any number of zeros behind it yields exactly its records, offsets and sizes, and stops at the end (plus 1 or 2 for 5 or 6 zeros) |
| DamagedLogs.ScanGoesOn | src/db.cpp:645-698 | the records of a log are found whatever stands behind it, and the scan goes on there, one byte further for each thing it cannot read |
| DamagedLogs.CutWriteScans | src/db.cpp:645-698 | what recovery sees of a write cut off inside a record: nothing, or the cut record as if it were whole |
| Logs.EncodeLogInjective | src/log_record.cpp:186-220 | two readable logs with the same bytes are the same log |
| DB.Database.Open | src/db.cpp:45-94 | opening is recovery from the bytes of the file |
| DB.Database.OpenDirectory | src/db.cpp:62-87 | with a data file, an unreadable hint file makes the open fail and a readable one is overruled by the rebuild; without one the hint file is not looked at |
| DB.Database.UpdateIndex | src/db.cpp:590-605 | the index and reclaim update of one replayed record |
| DB.Database.PublishStaged | src/db.cpp:665-672 | publishing applies the staged records in the order they were written |
| DB.Database.ReplayRecord | src/db.cpp:654-684 | plain records are applied, batch records wait, a marker publishes those with its number, the highest number is kept |
| DB.Database.LoadIndexFromDataFiles | src/db.cpp:566-707 | the scanning loop leaves index, reclaimable bytes, sequence number and write offset as recovery defines them, for every content of the file |
| DB.Database.AppendLogRecord | src/db.cpp:420-476 | appends at the write offset, or, past the limit, starts file 0 over; returns the place |
| DB.Database.Put | src/db.cpp:96-117 | empty keys are refused; otherwise one record is appended and indexed, the old one is reclaimable |
| DB.Database.Remove | src/db.cpp:136-166 | empty keys are refused, absent keys leave everything as it is; otherwise a deletion is appended and both records are reclaimable |
| DB.Database.GetValueByPosition | src/db.cpp:478-502 | the value of the record at the place, or which of the errors ends the read |
| DB.Database.Get | src/db.cpp:119-134 | the value found through index and bytes, with the error cases |
| DB.Database.CopyCurrentRecords | src/db.cpp:938-981 | one pass copies exactly the records the index points at, untagged, in log order, and writes a hint for each |
| DB.Database.Merge | src/db.cpp:855-1099 | which guard stops it; otherwise file, index, reclaim and number are those of the merged log, and the hint file lists its places; were the hint file unreadable, only what was loaded from it would be left |
| DB.Database.LoadIndexFromHintFile | src/db.cpp:722-746 | the index a hint file stands for, or failure with the part loaded so far |
| DB.WriteBatch.constructor | src/write_batch.cpp:6-9 | takes the next number after the database's, which may wrap |
| DB.WriteBatch.Put | src/write_batch.cpp:15-29 | one pending write more, unless the key is empty or the batch is full |
| DB.WriteBatch.Remove | src/write_batch.cpp:31-44 | one pending deletion more, unless the key is empty or the batch is full |
| DB.WriteBatch.Commit | src/write_batch.cpp:46-113 | tagged records and marker are appended, then index and reclaim are updated in order and the number is set; the batch is empty afterwards |
| Recovery.StagingBelowMax | src/db.cpp:681-684 | no record waits under a number above the highest one seen |
| Readings.ReplayMirrors | src/db.cpp:607-684 | the index and the staging that replay builds are the positions of the record numbers that a reading of the log without any bytes finds |
| Readings.GetReadsContents | src/db.cpp:119-134 | reading any key through index and bytes returns what the log says, whatever stands behind the log |
| Readings.IndexEntryPointsAtRecord | src/db.cpp:478-502 | each replayed index entry has the place and size of a record of its key that is no deletion; the bytes there are its encoding and are read back as it |
| Consistency.AppendExtendsLogIff | src/db.cpp:430-446 | an append extends the log if and only if the file is empty or the record fits under the limit |
| AnyStores.AppendWritesRecord | src/db.cpp:430-475 | on any store the record stands where the file ended, or at its start when it would pass the limit; every byte before and behind it is as it was |
| AnyStores.OthersStand | src/db.cpp:430-475 | a record that a new one does not overlap stands as before |
| AnyStores.GetThroughEntry | src/db.cpp:478-502 | what get answers when the entry leads to a record, a deletion, another file or a place that cannot be read |
| AnyStores.PutAnswers | src/db.cpp:96-117 | on any store a put is read back, and a key whose record it does not overlap keeps its answer |
| AnyStores.RemoveAnswers | src/db.cpp:136-166 | on any store a remove leaves no answer, takes one entry out and writes a deletion |
| AnyStores.AppendAllTwice | src/write_batch.cpp:60-68 | on any store, writing two lists of records is writing one after the other |
| AnyStores.CommitAnswers | src/write_batch.cpp:60-106 | on any store the marker of a commit stands, and its last put is read back unless the marker has been written over it |
| Numbering.RecoveredNumberIsLargest | src/db.cpp:681-707 | recovery continues from the largest number a record of the log carries, or from zero |
| Numbering.StepChangesNumber | src/write_batch.cpp:109 | in a run a commit leaves the number one above its batch, opening again takes the largest number of a batch in the history or zero, a new batch gets the next one, and nothing else touches it |
| Runs.NothingToDo | src/db.cpp:143-147 | an empty key, an absent key, an empty batch and an empty file leave the store exactly as it is |
| Consistency.RecoverLog | src/db.cpp:566-707 | recovering a written log gives its replay, its end as write offset and its highest number |
| Consistency.ReopenRestores | src/db.cpp:566-707 | reopening restores index and reclaim exactly, and the write offset if and only if not 5 or 6 zeros follow |
| Consistency.PutRecoveredIff | src/db.cpp:96-117 | after a put the file is the longer log, and memory is its replay if and only if the key is unambiguous |
| Consistency.RemoveRecoveredIff | src/db.cpp:136-166 | the same for removing a key that is there |
| Consistency.ReplayCommit | src/db.cpp:662-679 | replaying a whole batch publishes its writes at their places and leaves nothing of it waiting |
| Consistency.CommitConsistent | src/write_batch.cpp:46-113 | after a commit under a number nothing waits for, memory is the replay of the longer log, positions and reclaim included, for any keys |
| LiveStores.HoldsReads | src/db.cpp:119-134 | between opens, get answers as a map, found or absent, for every key |
| LiveStores.PutHolds | src/db.cpp:96-117 | a put changes that map at its key only, ambiguous keys included: later appends never disturb older records |
| LiveStores.RemoveHolds | src/db.cpp:136-166 | a remove takes exactly its key out of that map |
| LiveStores.CommitHolds | src/write_batch.cpp:46-113 | a commit applies the writes of its batch to that map in order, whatever other keys live |
| LiveStores.AmbiguousPutIsForgotten | src/db.cpp:654-679 | a put under an ambiguous key is read back at once, and after the next open the key answers as before the put |
| LiveStores.ListElementIsForgotten | src/redis_data_structure.cpp:395-401 | an element pushed under a nonzero index is there until the next open and absent after it |
| Histories.LogMeansHistory | src/db.cpp:607-683 | if no batch takes the number of an earlier unfinished one, the log holds exactly what the plain writes and the finished batches leave, in order |
| Histories.ReusedNumberPublishesOrphan | src/db.cpp:664-672 | a finished batch under the number of an unfinished one publishes the records of both |
| Meanings.ReadingMeans | src/db.cpp:654-684 | contents and waiting records of any log are those of applying it record by record to a map |
| Meanings.LogMeansAnyHistory | src/db.cpp:607-683 | the log of any history, keys and numbers unrestricted, holds what the history means event by event |
| Meanings.IsolatedHistoriesAgree | src/db.cpp:607-683 | under the conditions of atomicity that meaning is the atomic one |
| Meanings.RecoveryAnswersAnyHistory | src/db.cpp:566-707 | recovery from the bytes of any written history answers every key with that meaning |
| Meanings.AmbiguousPutIsPublished | src/db.cpp:819-836 | a batch that takes the number an ambiguous plain key ends in publishes that put under the front of the key, before its own writes |
| Truncation.TruncateCuts | src/write_batch.cpp:60-79 | cutting the log at any record keeps a prefix of the events, the last batch of them perhaps in part and without its marker |
| Truncation.BatchNumberSeen | src/db.cpp:681-707 | the number recovery continues from is at least that of every batch in the log, finished or not |
| Runs.StepKeepsInv | src/db.cpp:96-166 | every step, crash and reopen included, keeps the invariant that ties disk, memory and history |
| Runs.RunKeepsInv | src/db.cpp:96-166 | so does every run |
| Runs.RunsAreAtomic | src/db.cpp:607-707 | after any run, recovery from the bytes and the running database both answer every key with what the plain writes and the whole batches left |
| Runs.StepChangesContents | src/write_batch.cpp:46-113 | put, remove and commit change the keys they name, merge, reopen and building a batch change nothing, a crash that keeps some number of records goes back to exactly the events all of whose records are among them |
| Runs.MemoryIsReplay | src/db.cpp:566-704 | in any run, the index in memory, positions and reclaim included, is the one recovery would rebuild |
| Runs.CrashInCommitIsAtomic | src/write_batch.cpp:60-79 | a commit cut off by a crash has its whole effect if the marker was kept and none otherwise |
| Merging.MergedHoldsLiveRecords | src/db.cpp:938-966 | the merged log has exactly one plain record per live key, with its value |
| Merging.MergedNoLonger | src/db.cpp:954-961 | it is never longer than the log it came from |
| Merging.MergeConsistent | src/db.cpp:1007-1088 | after merge the file is the merged log, memory is its replay, and the sequence number is kept |
| Merging.MergeKeepsUnambiguous | src/db.cpp:946-966 | the keys that survive merge and replay are exactly the unambiguous ones, with their values |
| Merging.MergePreservesIff | src/db.cpp:927-981 | every key keeps its value or absence if and only if all live keys are unambiguous |
| MergedStores.MergeCopies | src/db.cpp:938-981 | from any store merge copies, untagged and in the order of the file, exactly the records that the index points at and that are no deletions, twice after a rotation |
| MergedStores.CopiedIff | src/db.cpp:946-966 | so a record is in the merged log if and only if such an entry was scanned |
| MergedStores.MergeAnswers | src/db.cpp:855-1099 | through the merge of any store whose copies are puts and fit one file, an unambiguous key keeps its answer if its entry was scanned and has none otherwise |
| HintFiles.HintFileMeans | src/db.cpp:722-746 | for any written hint file: what it loads, and that a value that is no place, or five or six zeros behind it, make it fail with what was loaded before |
| Merging.MergeHintLoads | src/db.cpp:961-964 | the hint file a merge writes can always be loaded and gives every merged record its place |
| Merging.HintAgreesIff | src/db.cpp:722-746 | loading the hint file gives the places of the merged records, and that is the scanned index if and only if all live keys are unambiguous |
| Space.UpdateBalance | src/db.cpp:590-605 | one index update moves exactly the size of its record between live and reclaimable |
| Space.EveryByteIsAccounted | src/db.cpp:590-684 | for every log: bytes = live entries + reclaimable + markers + waiting batch records |
| Space.SpaceIsConserved | src/write_batch.cpp:94-105 | the same for the running database after any run |
| Iterators.InOrder | src/index.cpp:81-94 | the snapshot holds exactly the entries of the index in key order |
| Iterators.BTreeIterator.constructor | src/index.cpp:81-94 | the same, reversed for a backward iterator |
| Iterators.BTreeIterator.Seek | src/index.cpp:100-120 | stops at the first entry that has reached the key in the direction of the iteration |
| Iterators.DBIterator.Rewind | src/iterator.cpp:15-26 | stands at the start, or at the place a seek for the prefix finds |
| Iterators.DBIterator.Valid | src/iterator.cpp:42-63 | stands on an entry whose key starts with the prefix |
| Iterators.DBIterator.Value | src/iterator.cpp:72-79 | the value of that entry read through the database, or the error of an invalid iterator |
| Iterators.DBIterator.Close | src/iterator.cpp:81-86 | a closed iterator has no index iterator, so it is invalid |
| Iterators.PrefixBlock | src/iterator.cpp:15-63 | behind the sought place the keys with the prefix form one block |
| Iterators.NoPrefixBefore | src/index.cpp:100-120 | before it none has the prefix |
| Iterators.NoLongerKeyBackwards | src/index.cpp:101-109 | backwards, only the prefix itself can have it from the sought place on |
| Iterators.DBIterator.VisitAll | src/iterator.cpp:15-79 | the rewind, valid, next loop visits, in strict order, exactly the live keys with the prefix, each with the value get returns; backward with a prefix only the prefix itself |
| KeyOrder.CompareKeys | src/bplus_tree_index.cpp:337-348 | the sign decides the lexicographic order, both ways |
| KeyOrder.LessTotal | src/bplus_tree_index.cpp:337-348 | any two keys are equal or ordered |
| KeyOrder.LessTransitive | src/bplus_tree_index.cpp:337-348 | the order is transitive |
| KeyOrder.LessAsymmetric | src/bplus_tree_index.cpp:337-348 | the order is asymmetric |
| KeyOrder.PrefixConvex | src/iterator.cpp:15-63 | a key between the prefix and a key with it has the prefix too |
| SkipListIndex.SkipList.FindNode | src/skiplist_index.cpp:152-164 | finds the node whose key splits the map as the sought key does and, on every level in use, the last node before it |
| SkipListIndex.SkipList.Get | src/skiplist_index.cpp:47-58 | the position in the map, or none |
| SkipListIndex.SkipList.Put | src/skiplist_index.cpp:13-45 | with any level from 0 to 16: the map with the key set, the old position, and a valid list |
| SkipListIndex.SkipList.Remove | src/skiplist_index.cpp:60-86 | the map without the key, the old position and the found flag, and a valid list |
| SkipListIndex.SkipList.ListKeys | src/skiplist_index.cpp:88-100 | all keys of the map in strict order |
| SkipListIndex.SkipList.Size | src/skiplist_index.cpp:102-114 | the size of the map |
| SkipListIndex.SkipList.Seek | src/skiplist_index.cpp:202-212 | from level 15 down: a node whose key splits the keys of the map as the sought key does, or none when all are smaller |
| SkipListIterators.SkipListIterator.Seek | src/skiplist_index.cpp:201-218 | the cursor stands on the first node from the lower bound on that has the prefix |
| SkipListIterators.SkipListIterator.Next | src/skiplist_index.cpp:224-233 | the cursor goes to the next node that has the prefix, or to the end |
| SkipListIterators.SkipListIterator.VisitAll | src/skiplist_index.cpp:178-241 | from the start the loop visits, in strict order, exactly the keys of the map with the prefix, with their positions |
| SkipListIterators.SkipListIterator.VisitFrom | src/skiplist_index.cpp:191-241 | from a seek on it visits exactly those of them that are not below the key |
| SkipListIterators.SkipListIterator.VisitPrefix | src/iterator.cpp:15-63 | the database iterator's loop over it visits exactly the keys with the wanted prefix |
| SkipListIndex.NextInsert | src/skiplist_index.cpp:39-42 | a new tower catches exactly the links that pass over it below its height |
| SkipListIndex.NextDelete | src/skiplist_index.cpp:73-78 | a removed tower hands its links on to where it was linked itself |
| SkipListIndex.LevelsAreSublists | src/skiplist_index.cpp:13-86 | in a valid list the pointers of each level visit strictly increasing keys, level 0 all nodes, and each level is a sublist of the one below |
| ChildTables.ChildTable.FindChild | src/art_index.cpp:8-15 | in all four layouts: the child the map has under the byte, or none |
| ChildTables.ChildTable.AddChild | src/art_index.cpp:17-38 | in all four layouts: the map with the child, replacing one in a Node256, or no change when another layout is full |
| ChildTables.ChildTable.RemoveChild | src/art_index.cpp:149-169 | in all four layouts: the map without the byte; Node48 stays compact |
| ChildTables.ChildTable.Grow | src/art_index.cpp:115-130 | the next layout stands for the same map |
| ChildTables.PlacesAreBijection | src/art_index.cpp:133-147 | the nonzero indices of Node48 number its children from 1 without gaps |
| ChildTables.DeletePlace | src/art_index.cpp:149-169 | removing a child lowers exactly the higher indices by one |
| ArtNodes.CheckPrefix | src/art_index.cpp:495-506 | the number of prefix bytes the key agrees with |
| ArtNodes.Insert | src/art_index.cpp:320-436 | on the heap: the tree becomes the pure insert of the old one, and the old value is what a search would have found |
| ArtNodes.Delete | src/art_index.cpp:438-493 | on the heap: the tree becomes the pure delete of the old one, with old value and found flag |
| ArtNodes.Search | src/art_index.cpp:287-318 | the leaf of the key exactly when the pure search finds its value |
| ArtTree.InsertSearch | src/art_index.cpp:320-436 | if the tree is open for the key, every search after an insert answers as the updated map |
| ArtTree.ClosedInsertLoses | src/art_index.cpp:361-370 | if it is not, some search answers wrongly afterwards |
| ArtTree.InsertIff | src/art_index.cpp:320-436 | so insert is right for all searches if and only if the tree is open for the key |
| ArtTree.InsertMeans | src/art_index.cpp:320-436 | after any insert, open or not, what every search finds: a key that ends inside the tree is dropped, and one that goes on where a stored key ends takes that one's place |
| ArtTree.InsertPlaced | src/art_index.cpp:320-436 | insert keeps every leaf below the path its key spells |
| ArtTree.DeleteSearch | src/art_index.cpp:438-493 | every search after a delete answers as the map without the key, for any keys |
| ArtTree.DeletePlaced | src/art_index.cpp:438-493 | delete keeps every leaf below the path its key spells |
| ArtTree.UniverseIsOpen | src/art_index.cpp:320-436 | a tree over a prefix-free universe, empty nodes included, is open for every key of it |
| ArtTree.RunsAgreeWithMap | src/art_index.cpp:287-506 | after any run of puts of keys from a prefix-free universe and removes of any keys, searching any key answers as the map |
| ArtIndexes.ArtIndex.Put | src/art_index.cpp:320-436 | the map with the key set, and the old value |
| ArtIndexes.ArtIndex.Get | src/art_index.cpp:287-318 | the value in the map, or none |
| ArtIndexes.ArtIndex.Remove | src/art_index.cpp:438-493 | for any key: the map without it, the old value and the found flag |
| BPlusFile.SerializeNode | src/bplus_tree_index.cpp:172-197 | appends the bytes of the node, its keys, and its positions or children |
| BPlusFile.ByteStream.DeserializeNode | src/bplus_tree_index.cpp:199-244 | reads a node at the cursor and moves the cursor behind it, refuses more than 128 keys, reports an end of data |
| BPlusFile.ReadInvertsWrite | src/bplus_tree_index.cpp:172-244 | in the middle of any data, reading inverts writing and takes exactly the bytes written, or refuses when some node has more than 128 keys |
| BPlusFile.CutFileIsTooShort | src/bplus_tree_index.cpp:199-244 | a file cut short anywhere is found too short |
| BPlusFile.FileRoundTripIff | src/bplus_tree_index.cpp:172-244 | a whole index file is read back if and only if no node has more than 128 keys |
| BPlusLeaves.FindKeyPosition | src/bplus_tree_index.cpp:350-363 | the binary search returns the lower bound |
| BPlusLeaves.FoundIff | src/bplus_tree_index.cpp:43-55 | the key is in the map if and only if it stands at its lower bound |
| BPlusLeaves.InsertToLeaf | src/bplus_tree_index.cpp:267-289 | the leaf stays sorted and stands for the updated map; the old position is returned |
| BPlusLeaves.DeleteFromLeaf | src/bplus_tree_index.cpp:318-335 | the leaf stays sorted and stands for the map without the key; old position and found flag |
| BPlusLeaves.SplitKeepsChain | src/bplus_tree_index.cpp:291-310 | linking a new leaf with the upper half behind a leaf leaves the keys and positions of the whole chain as they were |
| BPlusLeaves.SplitLeaf | src/bplus_tree_index.cpp:291-310 | the split does that on the heap, for a leaf anywhere in a chain, and halves the leaf |
| BPlusLeaves.KeysOfChain | src/bplus_tree_index.cpp:64-78 | following the next pointers lists the keys of the chain |
| BPlusLeaves.IndexReloadsIff | src/bplus_tree_index.cpp:133-170 | an index of one leaf survives its file if and only if it holds at most 128 keys |
| BPlusLeaves.BPlusTreeIndex.Put | src/bplus_tree_index.cpp:32-41 | the map with the key set, and the old position |
| BPlusLeaves.BPlusTreeIndex.Get | src/bplus_tree_index.cpp:43-55 | the position in the map, or none |
| BPlusLeaves.BPlusTreeIndex.Remove | src/bplus_tree_index.cpp:57-62 | the map without the key, the old position and the found flag |
| BPlusLeaves.BPlusTreeIndex.Size | src/bplus_tree_index.cpp:80-102 | the size of the map |
| RedisLists.Encode | src/redis_data_structure.cpp:13-45 | writes the fields of the metadata, head and tail for lists only |
| RedisLists.Decode | src/redis_data_structure.cpp:47-89 | reads them back, head and tail only when there are 37 bytes, or fails below 21 |
| RedisLists.DecodeEncodeMetadata | src/redis_data_structure.cpp:13-89 | metadata decodes to itself, head and tail being lost for other types |
| RedisLists.EncodeDecodeMetadata | src/redis_data_structure.cpp:47-89 | decoding fails exactly below 21 bytes, and what it returns encodes to the bytes it was read from |
| RedisLists.InternalKeyInjective | src/redis_data_structure.cpp:122-136 | an element key determines user key, version and index |
| RedisLists.SeparateIff | src/redis_data_structure.cpp:122-136 | a user key can be an element key of another exactly when it is that key and sixteen bytes more |
| RedisLists.ElementKeyIsAmbiguous | src/redis_data_structure.cpp:122-136 | an element key is unambiguous for recovery if and only if its index is zero |
| RedisLists.RedisDataStructure.FindMetadata | src/redis_data_structure.cpp:642-678 | for any type: existing metadata, fresh metadata for an absent or expired key, or the error for a wrong type, bad bytes or an empty key; the clock is read twice |
| RedisLists.RedisDataStructure.LPush | src/redis_data_structure.cpp:385-409 | stores element and metadata as the push at the head defines them, with 64-bit indices and a 32-bit size |
| RedisLists.RedisDataStructure.RPush | src/redis_data_structure.cpp:411-435 | the same at the tail |
| RedisLists.RedisDataStructure.LPop | src/redis_data_structure.cpp:437-466 | removes element, and metadata when it was the last, as the pop at the head defines |
| RedisLists.RedisDataStructure.RPop | src/redis_data_structure.cpp:468-497 | the same at the tail |
| RedisDeques.PushKeeps | src/redis_data_structure.cpp:385-435 | after a push every index from head to tail is stored, tail - head is the size modulo 2^64, and the elements are the old ones with the new one at its end |
| RedisDeques.PopKeeps | src/redis_data_structure.cpp:437-497 | after a pop the same holds, and the reply was the element at that end |
| RedisDeques.OthersUntouched | src/redis_data_structure.cpp:122-136 | what one list changes leaves every other list as it was |
| RedisDeques.RefusedOp | src/redis_data_structure.cpp:642-650 | a push or pop on a key of another type, on bytes too short for metadata or on the empty key gives the error that belongs to it and leaves the whole store as it was |
| RedisDeques.OneElementChanges | src/redis_data_structure.cpp:395-463 | a push writes one element record next to its end and a pop removes the one at its end; besides the metadata no other record changes |
| RedisDeques.FirstPushStores | src/redis_data_structure.cpp:667-677 | the first push starts at the middle of the index range, with the later clock reading as version and no expiry |
| RedisDeques.PopFindsNothingIff | src/redis_data_structure.cpp:680-682 | a pop finds nothing exactly when the list is empty or its time has come |
| RedisDeques.PopOfLostElement | src/redis_data_structure.cpp:450 | when metadata have survived their elements, a pop finds nothing and changes nothing |
| RedisDeques.OpIsQueueOp | src/redis_data_structure.cpp:385-497 | each operation is one operation on one queue, or is refused, and leaves all other keys |
| RedisDeques.RunsAreQueues | src/redis_data_structure.cpp:385-497 | any run of pushes, pops and deletions, at any times, over separate keys that hold lists, other things or nothing, answers what the queues answer or refuses, and leaves the contents and the other things as they should be |
| RedisDeques.NewListsAreQueues | src/redis_data_structure.cpp:122-136 | starting from nothing, lists under keys of one length answer as queues over any run |
| Resp.StoiInvertsPrint | src/redis_server.cpp:279 | reading a printed integer returns it exactly within the range of int |
| RespInputs.StoiMeans | src/redis_server.cpp:279 | white space in front, a sign and anything behind the digits do not matter; without digits or out of range there is no number |
| Resp.ParseSingleCommand | src/redis_server.cpp:263-310 | the loop returns arguments and next offset for every input, with wrapping offsets, the number errors and the overflow of the step over an argument |
| Resp.ParseCommands | src/redis_server.cpp:247-261 | all commands up to the first empty one, the error of a bad number, the overflow, or that the loop does not end |
| Resp.CommandParses | src/redis_server.cpp:53-86 | a printed array of bulk strings in the middle of any data parses to its strings and the offset behind it, or overflows exactly when a length plus two exceeds an int |
| Resp.ParseInvertsSerialize | src/redis_server.cpp:247-310 | printed commands with lengths in int range parse back in order up to the first without arguments, or overflow; all of them come back if and only if none is empty and every length plus two fits an int |
| RespReplies.PrintedIsReadIff | src/redis_server.cpp:53-86 | in the middle of any data, a reader written from the five type bytes reads a printed response back, and ends where it ends, if and only if its lines hold no line end; nested arrays and the null string included |
| RespInputs.CutCommand | src/redis_server.cpp:284-302 | the front part of a printed command never yields arguments |
| RespInputs.CommandIsSpelled | src/redis_server.cpp:263-310 | when arguments are returned and no length was negative, the input has been a line with their number and each of them behind a line with its length |
| RespInputs.SpelledIsParsed | src/redis_server.cpp:263-310 | whatever is spelled like that is parsed to its arguments |
| RespInputs.BadLine | src/redis_server.cpp:266-296 | a line without a number is an error, a wrong mark is no command |
| RespInputs.NegativeLength | src/redis_server.cpp:296-306 | a negative length makes all that follows the argument and steps back, or gives no command |
| RespLoops.OutcomeMeans | src/redis_server.cpp:247-261 | a loop that ends returns the arguments of all its commands before the last try, unless that one was an error |
| RespLoops.RunsForeverIff | src/redis_server.cpp:251-258 | the loop does not end if and only if it returns to an offset within as many iterations as the input is long; that is when every iteration has a next one |
| RespLoops.EndsGoingForward | src/redis_server.cpp:251-306 | the loop ends if every command it comes to leads forward |
| RespLoops.EndsWithoutNegativeLength | src/redis_server.cpp:296-306 | the same if no length it comes to is negative, whatever the arguments contain |
| RespLoops.NegativeLengthRunsForever | src/redis_server.cpp:296-306 | an input with one on which it does not end |

## Left out

- fold, stat, list_keys and close of the database: loops and wrappers over what is modelled.
- Sockets, HTTP, JSON-RPC, request routing, the command handlers and the example programs.
- fsync, memory mapping, file locks, directory copies, backup, and the disk space and merge ratio computations: the last two are parameters of merge, and zeros left behind the log are allowed in any number.
- Concurrency: put, get, remove, commit and the body of merge hold the database lock and are one atomic step each. list_keys, the first guard of merge and the value of an iterator take no database lock; what they see in between is not modelled.
- Several data files: the engine model has file 0 only, which is what rotation as written produces; a rotated state is modelled by a flag and covered by AppendExtendsLogIff, and the run theorems speak of runs whose appends fit under the limit.
- A crash inside merge: old files are deleted before the new ones are copied, and the merge directory is looked for in another place at open.
- A crash inside a record: CutRecordReads and CutWriteScans say what is read then, but the run theorems crash at record boundaries.
- DB.Database.LoadIndexFromDataFiles: one file instead of several in id order.
- DB.Database.Open: one data file, and no hint file; OpenDirectory adds the hint file.
- DB.Database.OpenDirectory: at most one data file.
- DB.Database.GetValueByPosition: file 0 is the only one that exists.
- BPlusFile.ByteStream.DeserializeNode: a short read is one outcome, since the program goes on with uninitialised bytes.
- ArtNodes.Insert: keys of at most 255 bytes, because a longer prefix overflows its 8-bit length.
- ArtIndexes.ArtIndex.Put: keys of at most 255 bytes from the prefix-free universe; InsertIff says exactly which others would be right.
- ChildTables.ChildTable.AddChild: a second child for a byte of a Node4, Node16 or Node48 with room, which no caller asks for and which would break the layout.
- Sequence numbers that reach 2^64: the wrap is modelled, the run theorems exclude it.
- The B+ tree as the engine's index, which replay does not clear; the engine's index is a map, which the skip list, the radix tree and the B+ leaf are proved to be.
- The map `simple_map_` that the radix index's put, get and remove go through at present; ArtIndex runs the tree functions that are meant to agree with it.
- A radix tree node is one object in the program; here it is an ArtNode that owns a ChildTable, so that all four layouts share the tree code.
- Skip list: the forward vector of a node is a field of type seq that is reassigned; the items its iterator copies for backward iteration are not modelled.
- B+ trees of several levels: the program never builds one. The next pointers are not in the file and so not in the file model; what the program makes of uninitialised bytes after a short read is left open (TooShort).
- Redis strings, hashes, sets, sorted sets and expiry commands; lists with an expiry time in their metadata are covered.
- The store under the Redis lists is a map with the answers of get; LiveStores proves that the engine is such a map between two opens.
- Resuming the RESP parser on partial network data, where the offset has moved before the data is known to be complete.
- Null bulk strings inside a command, which the parser takes for a negative length.
