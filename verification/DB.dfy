/** The engine: a database with its data file and index, and write batches. */
module DB {
  import opened Options
  import opened ByteStrings
  import opened LogRecords
  import opened DataFiles
  import opened Keys
  import opened Logs
  import opened Recovery
  import opened Engine

  datatype Status =
    | Done
    | EmptyKey
    | BatchTooLarge
    | MergeInProgress
    | MergeRatioUnreached
    | NoSpaceForMerge

  class Database {
    const config: Config
    var file: DataFile
    var rotated: bool
    var index: Index
    var reclaimSize: int
    var seqNo: nat
    var isMerging: bool

    ghost function State(): Store
      reads this, file
    {
      Store(file.content, file.writeOff, rotated, Indexed(index, reclaimSize), seqNo)
    }

    constructor Open(config: Config, content: Bytes)
      ensures this.config == config && !isMerging
      ensures fresh(file)
      ensures State() == Recover(config, content)
    {
      this.config := config;
      file := new DataFile(content);
      rotated, index, reclaimSize, seqNo, isMerging := false, map[], 0, NON_TRANSACTION_SEQ_NO, false;
      new;
      LoadIndexFromDataFiles();
    }

    /** A database with this content in its file that has not been read yet. */
    constructor Unread(config: Config, content: Bytes)
      ensures this.config == config && !isMerging
      ensures fresh(file)
      ensures State() == Store(content, 0, false, Indexed(map[], 0), NON_TRANSACTION_SEQ_NO)
    {
      this.config := config;
      file := new DataFile(content);
      rotated, index, reclaimSize, seqNo, isMerging := false, map[], 0, NON_TRANSACTION_SEQ_NO, false;
    }

    /** Opens a directory. With a data file, the hint file is loaded first, and one that cannot be read
        makes the open fail; then the index is rebuilt. Without one, the hint file is not looked at. */
    static method OpenDirectory(config: Config, content: Option<Bytes>, hint: Option<Bytes>) returns (db: Database?)
      ensures db == null <==> content.Some? && hint.Some? && LoadHint(config.crc, hint.value, 0, map[]).Failed?
      ensures db != null ==> fresh(db) && fresh(db.file) && db.config == config && !db.isMerging
      ensures db != null ==> db.State() == Recover(config, if content.Some? then content.value else [])
    {
      hide Scan, ReplayEntries, LoadHint, Recover;
      db := new Database.Unread(config, if content.Some? then content.value else []);
      if content.None? {
        RecoverNothing(config);
        return;
      }
      if hint.Some? {
        var hintFile := new DataFile(hint.value);
        var loaded := db.LoadIndexFromHintFile(hintFile);
        db.index := loaded.index;
        if loaded.Failed? {
          return null;
        }
      }
      db.LoadIndexFromDataFiles();
    }

    /** The index update of recovery. */
    method UpdateIndex(key: Bytes, kind: byte, pos: LogRecordPos)
      modifies this`index, this`reclaimSize
      ensures Indexed(index, reclaimSize) == Update(old(Indexed(index, reclaimSize)), key, kind, pos)
    {
      if kind == DELETED {
        reclaimSize := reclaimSize + pos.size;
        if key in index {
          reclaimSize := reclaimSize + index[key].size;
        }
        index := index - {key};
      } else {
        if key in index {
          reclaimSize := reclaimSize + index[key].size;
        }
        index := index[key := pos];
      }
    }

    method PublishStaged(ops: seq<Staged>)
      modifies this`index, this`reclaimSize
      ensures Indexed(index, reclaimSize) == UpdateAll(old(Indexed(index, reclaimSize)), ops)
    {
      for i := 0 to |ops|
        invariant Indexed(index, reclaimSize) == UpdateAll(old(Indexed(index, reclaimSize)), ops[..i])
      {
        UpdateIndex(ops[i].key, ops[i].kind, ops[i].pos);
        assert ops[..i + 1][..i] == ops[..i];
      }
      assert ops[..|ops|] == ops;
    }

    /** Applies one record of the log, or stages it until its marker comes. */
    method ReplayRecord(entry: Entry, pos: LogRecordPos, staging: Staging, maxSeqNo: nat)
      returns (staging': Staging, maxSeqNo': nat)
      requires pos == EntryPos(entry)
      modifies this`index, this`reclaimSize
      ensures Recovered(Indexed(index, reclaimSize), staging', maxSeqNo')
           == ReplayEntry(Recovered(old(Indexed(index, reclaimSize)), staging, maxSeqNo), entry)
    {
      hide ParseKey, Update;
      var record := entry.record;
      staging', maxSeqNo' := staging, maxSeqNo;
      var parsed := ParseLogRecordKey(record.key);
      if parsed.seqNo == NON_TRANSACTION_SEQ_NO {
        UpdateIndex(parsed.realKey, record.kind, pos);
      } else {
        if record.kind == TXN_FINISHED {
          if parsed.seqNo in staging {
            PublishStaged(staging[parsed.seqNo]);
            staging' := staging - {parsed.seqNo};
          }
        } else {
          var waiting := if parsed.seqNo in staging then staging[parsed.seqNo] else [];
          staging' := staging[parsed.seqNo := waiting + [Staged(parsed.realKey, record.kind, pos)]];
        }
        if parsed.seqNo > maxSeqNo {
          maxSeqNo' := parsed.seqNo;
        }
      }
    }

    /** Rebuilds the index from whatever the data file holds. */
    method LoadIndexFromDataFiles()
      requires reclaimSize == 0 && !rotated
      modifies this`index, this`reclaimSize, this`seqNo, file
      ensures State() == Recover(config, old(file.content))
    {
      hide ReadRecord, ReplayEntry, Scan, Scanned;
      index := map[];
      var staging: Staging := map[];
      var currentSeqNo := NON_TRANSACTION_SEQ_NO;
      var offset := 0;
      ghost var done: seq<Entry> := [];
      ScanStart(config.crc, file.content);
      while true
        invariant file.content == old(file.content)
        invariant 0 <= currentSeqNo
        invariant Recovered(Indexed(index, reclaimSize), staging, currentSeqNo) == ReplayEntries(done)
        invariant Scanned(config.crc, file.content, done, offset)
        decreases if offset < |file.content| then |file.content| - offset else 0
      {
        ScanStep(config.crc, file.content, done, offset);
        var read := file.ReadLogRecord(config.crc, offset);
        if read.EndOfFile? {
          break;
        } else if read.Read? {
          var entry := Entry(read.record, offset, read.size);
          var pos := LogRecordPos(INITIAL_FILE_ID, offset, read.size % UINT32_LIMIT);
          staging, currentSeqNo := ReplayRecord(entry, pos, staging, currentSeqNo);
          assert (done + [entry])[..|done|] == done;
          done := done + [entry];
          offset := offset + read.size;
        } else {
          offset := offset + 1;
        }
      }
      file.SetWriteOff(offset);
      seqNo := currentSeqNo;
    }

    /** Appends one record, opening the next active file when the record does not fit. */
    method AppendLogRecord(record: LogRecord) returns (pos: LogRecordPos)
      modifies this`file, this`rotated, file
      ensures file == old(file) || fresh(file)
      ensures State() == Append(config, old(State()), record)
      ensures pos == AppendPos(config, old(State()), record)
    {
      var data, size := Encode(config.crc, record);
      RecordSizeIsLength(config.crc, record);
      if file.writeOff + size > config.fileLimit {
        rotated := true;
        file := new DataFile(file.content);
      }
      var writeOff := file.writeOff;
      file.Write(data);
      return LogRecordPos(INITIAL_FILE_ID, writeOff, size % UINT32_LIMIT);
    }

    method Put(key: Bytes, value: Bytes) returns (status: Status)
      modifies this, file
      ensures status == if key == [] then EmptyKey else Done
      ensures file == old(file) || fresh(file)
      ensures State() == Engine.Put(config, old(State()), key, value) && isMerging == old(isMerging)
    {
      if key == [] {
        return EmptyKey;
      }
      var tagged := LogRecordKeyWithSeq(key, NON_TRANSACTION_SEQ_NO);
      var pos := AppendLogRecord(LogRecord(tagged, value, NORMAL));
      if key in index {
        reclaimSize := reclaimSize + index[key].size;
      }
      index := index[key := pos];
      return Done;
    }

    method Remove(key: Bytes) returns (status: Status)
      modifies this, file
      ensures status == if key == [] then EmptyKey else Done
      ensures file == old(file) || fresh(file)
      ensures State() == Engine.Remove(config, old(State()), key) && isMerging == old(isMerging)
    {
      if key == [] {
        return EmptyKey;
      }
      if key !in index {
        return Done;
      }
      var tagged := LogRecordKeyWithSeq(key, NON_TRANSACTION_SEQ_NO);
      var pos := AppendLogRecord(LogRecord(tagged, [], DELETED));
      reclaimSize := reclaimSize + pos.size;
      var oldPos := index[key];
      index := index - {key};
      reclaimSize := reclaimSize + oldPos.size;
      return Done;
    }

    method GetValueByPosition(pos: LogRecordPos) returns (r: GetResult)
      ensures r == ReadAt(config, file.content, pos)
    {
      if pos.fid != INITIAL_FILE_ID {
        return DataFileNotFound;
      }
      var read := file.ReadLogRecord(config.crc, pos.offset);
      if !read.Read? {
        return ReadFailed(read);
      }
      if read.record.kind == DELETED {
        return KeyNotFound;
      }
      return Found(read.record.value);
    }

    method Get(key: Bytes) returns (r: GetResult)
      ensures r == Engine.Get(config, State(), key)
    {
      if key == [] {
        return KeyEmpty;
      }
      if key !in index {
        return KeyNotFound;
      }
      r := GetValueByPosition(index[key]);
    }

    /** One pass of merge over `source`: every record the index still points at goes, untagged,
        to the merge database, and its new place to the hint file. `seen` is what earlier passes
        have read. */
    method CopyCurrentRecords(source: DataFile, valid: Index, mergeDb: Database, hintFile: DataFile,
                              ghost seen: seq<Entry>)
      requires mergeDb.config == config
      requires source != hintFile && source != mergeDb.file && hintFile != mergeDb.file
      requires Copied(valid, seen, mergeDb, hintFile)
      modifies mergeDb`file, mergeDb`rotated, mergeDb.file, hintFile
      ensures mergeDb.file == old(mergeDb.file) || fresh(mergeDb.file)
      ensures Copied(valid, seen + Scan(config.crc, source.content, 0).entries, mergeDb, hintFile)
    {
      hide ReadRecord, Scan, Scanned, Copied;
      var offset := 0;
      ghost var done: seq<Entry> := [];
      ScanStart(config.crc, source.content);
      assert seen + done == seen;
      while true
        invariant source.content == old(source.content)
        invariant source != mergeDb.file && hintFile != mergeDb.file
        invariant mergeDb.file == old(mergeDb.file) || fresh(mergeDb.file)
        invariant Copied(valid, seen + done, mergeDb, hintFile)
        invariant Scanned(config.crc, source.content, done, offset)
        decreases if offset < |source.content| then |source.content| - offset else 0
      {
        ScanStep(config.crc, source.content, done, offset);
        var read := source.ReadLogRecord(config.crc, offset);
        if read.EndOfFile? {
          break;
        } else if read.Read? {
          ghost var entry := Entry(read.record, offset, read.size);
          CopyIfCurrent(read.record, offset, valid, mergeDb, hintFile, seen + done, entry);
          assert seen + (done + [entry]) == seen + done + [entry];
          done := done + [entry];
          offset := offset + read.size;
        } else {
          offset := offset + 1;
        }
      }
    }

    ghost predicate Copied(valid: Index, seen: seq<Entry>, mergeDb: Database, hintFile: DataFile)
      reads mergeDb, mergeDb.file, hintFile
    {
      var merged := MergedRecords(valid, seen);
      && mergeDb.State() == AppendAll(config, EMPTY_STORE, merged)
      && hintFile.content
         == EncodeLog(config.crc, HintRecords(merged, AppendPositions(config, EMPTY_STORE, merged)))
      && hintFile.writeOff == |hintFile.content|
    }

    method CopyIfCurrent(record: LogRecord, offset: nat, valid: Index, mergeDb: Database, hintFile: DataFile,
                         ghost seen: seq<Entry>, ghost entry: Entry)
      requires mergeDb.config == config && hintFile != mergeDb.file
      requires entry.record == record && entry.offset == offset
      requires Copied(valid, seen, mergeDb, hintFile)
      modifies mergeDb`file, mergeDb`rotated, mergeDb.file, hintFile
      ensures mergeDb.file == old(mergeDb.file) || fresh(mergeDb.file)
      ensures Copied(valid, seen + [entry], mergeDb, hintFile)
    {
      hide ParseKey, EncodeLog, EncodeRecord, RecordSize, EncodePos, Overwrite;
      assert (seen + [entry])[..|seen|] == seen;
      var parsed := ParseLogRecordKey(record.key);
      if parsed.realKey in valid && valid[parsed.realKey].fid == INITIAL_FILE_ID
         && valid[parsed.realKey].offset == offset && record.kind != DELETED {
        var key := LogRecordKeyWithSeq(parsed.realKey, NON_TRANSACTION_SEQ_NO);
        var merged := record.(key := key);
        ghost var before := MergedRecords(valid, seen);
        ghost var hints := hintFile.content;
        var newPos := mergeDb.AppendLogRecord(merged);
        hintFile.WriteHintRecord(config.crc, parsed.realKey, newPos);
        assert (before + [merged])[..|before|] == before;
        ghost var positions := AppendPositions(config, EMPTY_STORE, before);
        EncodeLogSnoc(config.crc, HintRecords(before, positions), HintRecord(key, newPos));
        RecordSizeIsLength(config.crc, HintRecord(key, newPos));
        assert HintRecords(before + [merged], positions + [newPos])
            == HintRecords(before, positions) + [HintRecord(key, newPos)];
        OverwriteAtEnd(hints, EncodeRecord(config.crc, HintRecord(key, newPos)));
        assert MergedRecords(valid, seen + [entry]) == before + [merged];
      }
    }

    /** Rewrites the current records into a fresh file and a hint file, then reopens on them. The
        merge ratio and the free space are outside the model and come in as arguments. */
    method Merge(shouldMerge: bool, enoughSpace: bool) returns (status: Status, hint: Bytes)
      modifies this, file
      ensures file == old(file) || fresh(file)
      ensures isMerging == old(isMerging)
      ensures status ==
        if old(file.writeOff) == 0 && !old(rotated) then Done
        else if old(isMerging) then MergeInProgress
        else if !shouldMerge then MergeRatioUnreached
        else if !enoughSpace then NoSpaceForMerge
        else Done
      ensures State() == if status == Done then Engine.Merge(config, old(State())) else old(State())
      ensures status == Done && (old(file.writeOff) > 0 || old(rotated)) ==> hint == MergeHint(config, old(State()))
    {
      hide ReadRecord, Scan, EncodeRecord, ReplayEntries, Reopen, LoadHint;
      hint := [];
      if file.writeOff == 0 && !rotated {
        return Done, hint;
      }
      if isMerging {
        return MergeInProgress, hint;
      }
      if !shouldMerge {
        return MergeRatioUnreached, hint;
      }
      if !enoughSpace {
        return NoSpaceForMerge, hint;
      }
      isMerging := true;
      var mergeDb := new Database.Open(config, []);
      var hintFile := new DataFile([]);
      RecoverNothing(config);
      assert Copied(index, [], mergeDb, hintFile) by {
        assert MergedRecords(index, []) == [];
      }
      CopyCurrentRecords(file, index, mergeDb, hintFile, []);
      ghost var entries := Scan(config.crc, file.content, 0).entries;
      assert [] + entries == entries;
      if rotated {
        CopyCurrentRecords(file, index, mergeDb, hintFile, entries);
      }
      hint := hintFile.content;
      ReopenOn(mergeDb.file.content, hintFile);
      isMerging := false;
      return Done, hint;
    }

    /** The merged file takes the place of the old one; the sequence number is kept. */
    method ReopenOn(content: Bytes, hintFile: DataFile)
      modifies this
      ensures fresh(file) && isMerging == old(isMerging)
      ensures State() == Reopen(config, content, hintFile.content, old(seqNo))
    {
      hide Scan, ReplayEntries, LoadHint;
      var currentSeqNo := seqNo;
      file := new DataFile(content);
      rotated := false;
      reclaimSize := 0;
      var hint := LoadIndexFromHintFile(hintFile);
      index := hint.index;
      if hint.Failed? {
        return;
      }
      LoadIndexFromDataFiles();
      seqNo := currentSeqNo;
      reclaimSize := 0;
    }

    method LoadIndexFromHintFile(hintFile: DataFile) returns (r: HintResult)
      ensures r == LoadHint(config.crc, hintFile.content, 0, map[])
    {
      hide ReadRecord, DecodePos;
      var offset := 0;
      var loaded: Index := map[];
      while true
        invariant LoadHint(config.crc, hintFile.content, 0, map[])
               == LoadHint(config.crc, hintFile.content, offset, loaded)
        decreases if offset < |hintFile.content| then |hintFile.content| - offset else 0
      {
        var read := hintFile.ReadLogRecord(config.crc, offset);
        if read.EndOfFile? {
          return Loaded(loaded);
        }
        if !read.Read? {
          return Failed(loaded);
        }
        var pos := DecodePosition(read.record.value);
        if pos.BadPos? {
          return Failed(loaded);
        }
        loaded := loaded[read.record.key := pos.pos];
        offset := offset + read.size;
      }
    }
  }

  /** A batch collects writes and commits them under one sequence number. */
  class WriteBatch {
    const db: Database
    const maxBatchNum: nat
    const seqNo: nat
    var pending: Log

    constructor (db: Database, maxBatchNum: nat)
      ensures this.db == db && this.maxBatchNum == maxBatchNum && pending == []
      ensures seqNo == (db.seqNo + 1) % UINT64_LIMIT
    {
      this.db, this.maxBatchNum, pending := db, maxBatchNum, [];
      seqNo := (db.seqNo + 1) % UINT64_LIMIT;
    }

    method Put(key: Bytes, value: Bytes) returns (status: Status)
      modifies this
      ensures status == if key == [] then EmptyKey else if |old(pending)| >= maxBatchNum then BatchTooLarge else Done
      ensures pending == if status == Done then old(pending) + [LogRecord(key, value, NORMAL)] else old(pending)
    {
      if key == [] {
        return EmptyKey;
      }
      if |pending| >= maxBatchNum {
        return BatchTooLarge;
      }
      pending := pending + [LogRecord(key, value, NORMAL)];
      return Done;
    }

    method Remove(key: Bytes) returns (status: Status)
      modifies this
      ensures status == if key == [] then EmptyKey else if |old(pending)| >= maxBatchNum then BatchTooLarge else Done
      ensures pending == if status == Done then old(pending) + [LogRecord(key, [], DELETED)] else old(pending)
    {
      if key == [] {
        return EmptyKey;
      }
      if |pending| >= maxBatchNum {
        return BatchTooLarge;
      }
      pending := pending + [LogRecord(key, [], DELETED)];
      return Done;
    }

    /** Appends the tagged records and the marker, then updates the index. */
    method Commit()
      requires forall r <- pending :: r.kind == NORMAL || r.kind == DELETED
      modifies this, db, db.file
      ensures db.file == old(db.file) || fresh(db.file)
      ensures db.State() == Engine.Commit(db.config, old(db.State()), seqNo, old(pending))
      ensures pending == []
    {
      hide TagKey, UpdateAll, Append, AppendAll, AppendPositions;
      if |pending| == 0 {
        return;
      }
      var positions := AppendTagged();
      var markerKey := LogRecordKeyWithSeq([], seqNo);
      var _ := db.AppendLogRecord(LogRecord(markerKey, [], TXN_FINISHED));
      UpdateIndexAfterCommit(positions);
      db.seqNo := (seqNo + 1) % UINT64_LIMIT;
      pending := [];
    }

    /** Appends a copy of every pending record, tagged with the number of the batch. */
    method AppendTagged() returns (positions: seq<LogRecordPos>)
      modifies db`file, db`rotated, db.file
      ensures db.file == old(db.file) || fresh(db.file)
      ensures db.State() == AppendAll(db.config, old(db.State()), TagAll(pending, seqNo))
      ensures positions == AppendPositions(db.config, old(db.State()), TagAll(pending, seqNo))
    {
      hide TagKey, Append, AppendPos;
      ghost var tagged := TagAll(pending, seqNo);
      positions := [];
      for i := 0 to |pending|
        invariant |positions| == i
        invariant db.file == old(db.file) || fresh(db.file)
        invariant db.State() == AppendAll(db.config, old(db.State()), tagged[..i])
        invariant positions == AppendPositions(db.config, old(db.State()), tagged[..i])
      {
        var key := LogRecordKeyWithSeq(pending[i].key, seqNo);
        var pos := db.AppendLogRecord(pending[i].(key := key));
        positions := positions + [pos];
        assert tagged[..i + 1][..i] == tagged[..i];
      }
      assert tagged[..|pending|] == tagged;
    }

    method UpdateIndexAfterCommit(positions: seq<LogRecordPos>)
      requires |positions| == |pending|
      requires forall r <- pending :: r.kind == NORMAL || r.kind == DELETED
      modifies db`index, db`reclaimSize
      ensures Indexed(db.index, db.reclaimSize)
           == UpdateAll(old(Indexed(db.index, db.reclaimSize)), Writes(pending, positions))
    {
      ghost var before := Indexed(db.index, db.reclaimSize);
      ghost var ops := Writes(pending, positions);
      for i := 0 to |pending|
        invariant Indexed(db.index, db.reclaimSize) == UpdateAll(before, ops[..i])
      {
        assert ops[..i + 1][..i] == ops[..i];
        assert pending[i] in pending;
        var key, pos := pending[i].key, positions[i];
        var oldSize := if key in db.index then db.index[key].size else 0;
        if pending[i].kind == NORMAL {
          db.index := db.index[key := pos];
          db.reclaimSize := db.reclaimSize + oldSize;
        } else if pending[i].kind == DELETED {
          db.index := db.index - {key};
          db.reclaimSize := db.reclaimSize + pos.size;
          db.reclaimSize := db.reclaimSize + oldSize;
        }
      }
      assert ops[..|pending|] == ops;
    }
  }
}
