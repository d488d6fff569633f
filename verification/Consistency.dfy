/** The live state and the log say the same: every operation leaves in memory exactly what
    replaying the bytes it wrote would build, positions and reclaimable bytes included. */
module Consistency {
  import opened ByteStrings
  import opened LogRecords
  import opened DataFiles
  import opened Keys
  import opened Logs
  import opened Recovery
  import opened Engine
  import opened Readings

  /** The file holds `log` and `pad` zero bytes, and memory is the replay of the log. */
  ghost predicate Consistent(c: Config, s: Store, log: Log, pad: nat) {
    && AllReadable(c.crc, log)
    && s.content == EncodeLog(c.crc, log) + Zeros(pad)
    && s.writeOff == LogSize(log)
    && !s.rotated
    && s.indexed == Replay(log).indexed
  }

  /** The zeros that are left when `n` bytes have been written over `pad` of them. */
  function PadLeft(pad: nat, n: nat): nat {
    if n < pad then pad - n else 0
  }

  predicate FitsLimit(c: Config, s: Store, records: Log) {
    s.writeOff + LogSize(records) <= c.fileLimit
  }

  // ----- appending

  lemma OverwriteZeros(content: Bytes, pad: nat, data: Bytes)
    ensures Overwrite(content + Zeros(pad), |content|, data) == content + data + Zeros(PadLeft(pad, |data|))
  {
    var whole := content + Zeros(pad);
    assert whole[..|content|] == content;
    if |data| < pad {
      assert whole[|content| + |data|..] == Zeros(pad - |data|);
    } else {
      assert Zeros(0) == [];
    }
  }

  lemma AppendWrites(c: Config, s: Store, log: Log, pad: nat, r: LogRecord)
    requires s.content == EncodeLog(c.crc, log) + Zeros(pad) && s.writeOff == LogSize(log)
    requires !Rotates(c, s, r)
    ensures Append(c, s, r) == s.(content := EncodeLog(c.crc, log + [r]) + Zeros(PadLeft(pad, RecordSize(r))),
                                  writeOff := LogSize(log + [r]))
    ensures AppendPos(c, s, r) == EntryPos(Entry(r, LogSize(log), RecordSize(r)))
  {
    hide EncodeRecord, EncodeLog, RecordSize, Overwrite;
    EncodeLogLength(c.crc, log);
    OverwriteZeros(EncodeLog(c.crc, log), pad, EncodeRecord(c.crc, r));
    RecordSizeIsLength(c.crc, r);
    EncodeLogSnoc(c.crc, log, r);
    LogSizeSnoc(log, r);
  }

  /** The places a sequence of records is written to when it follows `log`. */
  function PlacesAfter(log: Log, records: Log): (ps: seq<LogRecordPos>)
    ensures |ps| == |records|
  {
    if records == [] then []
    else
      var n := |records| - 1;
      PlacesAfter(log, records[..n]) + [EntryPos(Entry(records[n], LogSize(log + records[..n]), RecordSize(records[n])))]
  }

  /** They are the places of the records in the longer log. */
  lemma {:induction false} PlacesArePositions(log: Log, records: Log, n: nat, j: nat)
    requires j < n <= |records|
    ensures PlacesAfter(log, records[..n])[j] == PosOf(log + records, |log| + j)
  {
    hide LogSize, RecordSize;
    assert records[..n][..n - 1] == records[..n - 1];
    if j < n - 1 {
      PlacesArePositions(log, records, n - 1, j);
    } else {
      assert log + records[..j] == (log + records)[..|log| + j];
    }
  }

  lemma {:induction false} AppendAllWrites(c: Config, s: Store, log: Log, pad: nat, records: Log)
    requires s.content == EncodeLog(c.crc, log) + Zeros(pad) && s.writeOff == LogSize(log)
    requires FitsLimit(c, s, records)
    ensures AppendAll(c, s, records)
         == s.(content := EncodeLog(c.crc, log + records) + Zeros(PadLeft(pad, LogSize(records))),
               writeOff := LogSize(log + records))
    ensures AppendPositions(c, s, records) == PlacesAfter(log, records)
  {
    hide EncodeLog, RecordSize, Append, AppendPos;
    if records == [] {
      assert log + records == log;
    } else {
      var n := |records| - 1;
      AppendAllWrites(c, s, log, pad, records[..n]);
      LogSizeConcat(log, records[..n]);
      assert log + records == log + records[..n] + [records[n]];
      AppendWrites(c, AppendAll(c, s, records[..n]), log + records[..n],
                   PadLeft(pad, LogSize(records[..n])), records[n]);
    }
  }

  /** With no zeros behind the log, appending a record gives the longer log if and only if the file
      is empty or the record fits under the limit: rotation starts the same file over. */
  lemma AppendExtendsLogIff(c: Config, s: Store, log: Log, r: LogRecord)
    requires s.content == EncodeLog(c.crc, log) && s.writeOff == LogSize(log)
    ensures Append(c, s, r).content == EncodeLog(c.crc, log + [r])
       <==> log == [] || s.writeOff + |EncodeRecord(c.crc, r)| <= c.fileLimit
  {
    hide EncodeRecord, EncodeLog, RecordSize, LogSize;
    EncodeLogLength(c.crc, log);
    EncodeLogLength(c.crc, log + [r]);
    LogSizeSnoc(log, r);
    RecordSizeIsLength(c.crc, r);
    EncodeLogSnoc(c.crc, log, r);
    if Rotates(c, s, r) {
      EmptyLogSize(log);
    } else {
      OverwriteAtEnd(s.content, EncodeRecord(c.crc, r));
    }
  }

  lemma EmptyLogSize(log: Log)
    ensures log == [] <==> LogSize(log) == 0
  {
  }

  // ----- recovery

  lemma RecoverLog(c: Config, log: Log, pad: nat)
    requires AllReadable(c.crc, log)
    ensures Recover(c, EncodeLog(c.crc, log) + Zeros(pad))
         == Store(EncodeLog(c.crc, log) + Zeros(pad), LogSize(log) + Slack(pad), false,
                  Replay(log).indexed, Replay(log).maxSeqNo)
  {
    hide EncodeLog, ReadRecord, LogSize, Entries, Scan, Slack, Readable;
    ScanInvertsWrite(c.crc, log, pad);
  }

  /** Reopening gives back the memory that was lost, whatever zeros stand behind the log; the write
      offset as well, unless there are five or six of them. */
  lemma ReopenRestores(c: Config, s: Store, log: Log, pad: nat)
    requires Consistent(c, s, log, pad)
    ensures Recover(c, s.content).indexed == s.indexed
    ensures Recover(c, s.content).writeOff == s.writeOff <==> pad != 5 && pad != 6
  {
    hide EncodeLog, LogSize, Replay;
    RecoverLog(c, log, pad);
  }

  // ----- single writes

  lemma ReplayPlain(log: Log, r: LogRecord)
    requires Unambiguous(r.key)
    ensures Replay(log + [r]) == Replay(log).(indexed :=
              Update(Replay(log).indexed, r.key, r.kind, EntryPos(Entry(r, LogSize(log), RecordSize(r)))))
  {
    hide ParseKey, Update, Unambiguous;
    ReplaySnoc(log, r);
    PlainKeyIff(r.key);
  }

  lemma ReplayAmbiguous(log: Log, r: LogRecord)
    requires !Unambiguous(r.key) && r.kind != TXN_FINISHED
    ensures Replay(log + [r]).indexed == Replay(log).indexed
  {
    hide ParseKey, Unambiguous;
    ReplaySnoc(log, r);
    PlainKeyIff(r.key);
  }

  /** Every place in a replayed index lies before the end of the log. */
  lemma {:induction false} IndexBeforeEnd(entries: seq<Entry>, end: nat)
    requires forall e <- entries :: e.offset < end
    ensures PlacesBefore(ReplayEntries(entries), end)
  {
    hide ParseKey;
    if entries != [] {
      var n := |entries| - 1;
      IndexBeforeEnd(entries[..n], end);
      var s, e := ReplayEntries(entries[..n]), entries[n];
      assert e in entries;
      var q := ParseKey(e.record.key).seqNo;
      assert StagedBefore(StagedAt(s.staging, q), end);
      UpdateAllBefore(s.indexed, StagedAt(s.staging, q), end);
      assert StagedBefore(StagedAt(s.staging, q) + [Staged(ParseKey(e.record.key).realKey, e.record.kind, EntryPos(e))], end);
    }
  }

  ghost predicate StagedBefore(ops: seq<Staged>, end: nat) {
    forall i | 0 <= i < |ops| :: ops[i].pos.offset < end
  }

  ghost predicate PlacesBefore(s: Recovered, end: nat) {
    && (forall k <- s.indexed.index :: s.indexed.index[k].offset < end)
    && (forall q <- s.staging :: StagedBefore(s.staging[q], end))
  }

  lemma {:induction false} UpdateAllBefore(x: Indexed, ops: seq<Staged>, end: nat)
    requires forall k <- x.index :: x.index[k].offset < end
    requires StagedBefore(ops, end)
    ensures forall k <- UpdateAll(x, ops).index :: UpdateAll(x, ops).index[k].offset < end
  {
    if ops != [] {
      UpdateAllBefore(x, ops[..|ops| - 1], end);
    }
  }

  lemma LogIndexBeforeEnd(log: Log)
    ensures PlacesBefore(Replay(log), LogSize(log))
  {
    hide ReplayEntries, PlacesBefore;
    forall e <- Entries(log)
      ensures e.offset < LogSize(log)
    {
      var i :| 0 <= i < |log| && Entries(log)[i] == e;
      EntryAt(log, i);
      LogSizeMonotone(log, i, |log|);
      assert log[..|log|] == log;
    }
    IndexBeforeEnd(Entries(log), LogSize(log));
  }

  /** After a plain put that fits, the file is the longer log, and memory is its replay exactly
      when the key is unambiguous. */
  lemma PutRecoveredIff(c: Config, s: Store, log: Log, pad: nat, key: Bytes, value: Bytes)
    requires Consistent(c, s, log, pad) && key != []
    requires |key| <= MAX_RECORD_SIZE && |value| <= MAX_RECORD_SIZE
    requires FitsLimit(c, s, [PlainRecord(key, value, NORMAL)])
    ensures var r, s' := PlainRecord(key, value, NORMAL), Put(c, s, key, value);
            && s'.content == EncodeLog(c.crc, log + [r]) + Zeros(PadLeft(pad, RecordSize(r)))
            && (Consistent(c, s', log + [r], PadLeft(pad, RecordSize(r))) <==> Unambiguous(key))
            && (Recover(c, s'.content).indexed.index == s'.indexed.index <==> Unambiguous(key))
  {
    hide EncodeLog, RecordSize, Unambiguous, ParseKey;
    var r := PlainRecord(key, value, NORMAL);
    PlainAppend(c, s, log, pad, r);
    var s' := Put(c, s, key, value);
    RecoverLog(c, log + [r], PadLeft(pad, RecordSize(r)));
    if Unambiguous(key) {
      ReplayPlain(log, r);
    } else {
      ReplayAmbiguous(log, r);
      LogIndexBeforeEnd(log);
      assert s'.indexed.index[key].offset == LogSize(log);
    }
  }

  /** The same for a plain remove of a key that is there. */
  lemma RemoveRecoveredIff(c: Config, s: Store, log: Log, pad: nat, key: Bytes)
    requires Consistent(c, s, log, pad) && key != [] && key in s.indexed.index
    requires |key| <= MAX_RECORD_SIZE
    requires FitsLimit(c, s, [PlainRecord(key, [], DELETED)])
    ensures var r, s' := PlainRecord(key, [], DELETED), Remove(c, s, key);
            && s'.content == EncodeLog(c.crc, log + [r]) + Zeros(PadLeft(pad, RecordSize(r)))
            && (Consistent(c, s', log + [r], PadLeft(pad, RecordSize(r))) <==> Unambiguous(key))
            && (Recover(c, s'.content).indexed.index == s'.indexed.index <==> Unambiguous(key))
  {
    hide EncodeLog, RecordSize, Unambiguous, ParseKey;
    var r := PlainRecord(key, [], DELETED);
    PlainAppend(c, s, log, pad, r);
    RecoverLog(c, log + [r], PadLeft(pad, RecordSize(r)));
    if Unambiguous(key) {
      ReplayPlain(log, r);
    } else {
      ReplayAmbiguous(log, r);
      assert key in Replay(log + [r]).indexed.index;
      assert key !in Remove(c, s, key).indexed.index;
    }
  }

  lemma PlainAppend(c: Config, s: Store, log: Log, pad: nat, r: LogRecord)
    requires Consistent(c, s, log, pad) && FitsLimit(c, s, [r]) && Readable(c.crc, r)
    ensures AllReadable(c.crc, log + [r])
    ensures Append(c, s, r) == s.(content := EncodeLog(c.crc, log + [r]) + Zeros(PadLeft(pad, RecordSize(r))),
                                  writeOff := LogSize(log + [r]))
    ensures AppendPos(c, s, r) == EntryPos(Entry(r, LogSize(log), RecordSize(r)))
  {
    hide EncodeLog, RecordSize, Readable;
    SingleSize(r);
    AppendWrites(c, s, log, pad, r);
  }

  lemma SingleSize(r: LogRecord)
    ensures LogSize([r]) == RecordSize(r)
  {
    LogSizeSnoc([], r);
    assert [] + [r] == [r];
  }

  // ----- batches

  lemma {:induction false} ReplayTagged(log: Log, pending: Log, seqNo: nat)
    requires 0 < seqNo < UINT64_LIMIT && seqNo !in Replay(log).staging
    requires forall w <- pending :: w.kind != TXN_FINISHED
    ensures var s, tagged := Replay(log), TagAll(pending, seqNo);
            && Replay(log + tagged).indexed == s.indexed
            && StagedAt(Replay(log + tagged).staging, seqNo) == Writes(pending, PlacesAfter(log, tagged))
            && Replay(log + tagged).staging - {seqNo} == s.staging
  {
    hide RecordSize, LogSize, Replay, Tag;
    var tagged := TagAll(pending, seqNo);
    if pending == [] {
      assert log + tagged == log;
    } else {
      var n := |pending| - 1;
      var before := TagAll(pending[..n], seqNo);
      ReplayTagged(log, pending[..n], seqNo);
      assert tagged == before + [Tag(pending[n], seqNo)];
      assert log + tagged == log + before + [Tag(pending[n], seqNo)];
      assert pending[n] in pending;
      StagesRecord(log + before, pending[n], seqNo);
      var places := PlacesAfter(log, tagged);
      assert tagged[..n] == before && places[..n] == PlacesAfter(log, before);
      WritesSnoc(pending, places);
    }
  }

  lemma StagesRecord(log: Log, write: LogRecord, seqNo: nat)
    requires 0 < seqNo < UINT64_LIMIT && write.kind != TXN_FINISHED
    ensures var s, r := Replay(log), Tag(write, seqNo);
            var pos := EntryPos(Entry(r, LogSize(log), RecordSize(r)));
            && Replay(log + [r]).indexed == s.indexed
            && Replay(log + [r]).staging == s.staging[seqNo := StagedAt(s.staging, seqNo) + [Staged(write.key, write.kind, pos)]]
  {
    hide ParseKey, TagKey, RecordSize, LogSize, Replay;
    ReplaySnoc(log, Tag(write, seqNo));
    TaggedKeyParses(write.key, seqNo);
  }

  lemma WritesSnoc(pending: Log, places: seq<LogRecordPos>)
    requires pending != [] && |places| == |pending|
    ensures var n := |pending| - 1;
            Writes(pending, places) == Writes(pending[..n], places[..n]) + [Staged(pending[n].key, pending[n].kind, places[n])]
  {
  }

  function CommitRecords(pending: Log, seqNo: nat): Log {
    TagAll(pending, seqNo) + [Marker(seqNo)]
  }

  lemma ReplayCommit(log: Log, pending: Log, seqNo: nat)
    requires 0 < seqNo < UINT64_LIMIT && seqNo !in Replay(log).staging
    requires forall w <- pending :: w.kind != TXN_FINISHED
    ensures var s, tagged := Replay(log), TagAll(pending, seqNo);
            && Replay(log + CommitRecords(pending, seqNo)).indexed
               == UpdateAll(s.indexed, Writes(pending, PlacesAfter(log, tagged)))
            && Replay(log + CommitRecords(pending, seqNo)).staging == s.staging
  {
    hide ParseKey, TagKey, RecordSize, Replay, UpdateAll;
    ReplayTagged(log, pending, seqNo);
    var tagged := TagAll(pending, seqNo);
    assert log + CommitRecords(pending, seqNo) == log + tagged + [Marker(seqNo)];
    ReplaySnoc(log + tagged, Marker(seqNo));
    TaggedKeyParses([], seqNo);
  }

  /** After a commit that fits, under a number that no record waits for, the file is the log with
      the tagged records and the marker, and memory is its replay. Nothing is asked of the keys. */
  lemma CommitConsistent(c: Config, s: Store, log: Log, pad: nat, seqNo: nat, pending: Log)
    requires Consistent(c, s, log, pad) && pending != []
    requires 0 < seqNo < UINT64_LIMIT && seqNo !in Replay(log).staging
    requires forall w <- pending ::
      (w.kind == NORMAL || w.kind == DELETED) && |w.key| + 8 <= MAX_RECORD_SIZE && |w.value| <= MAX_RECORD_SIZE
    requires FitsLimit(c, s, CommitRecords(pending, seqNo))
    ensures Consistent(c, Commit(c, s, seqNo, pending), log + CommitRecords(pending, seqNo),
                       PadLeft(pad, LogSize(CommitRecords(pending, seqNo))))
  {
    hide EncodeLog, UpdateAll, Commit, Replay, CommitRecords, TagAll, Writes, PlacesAfter, Readable;
    CommitRecordsReadable(c.crc, pending, seqNo);
    CommitWrites(c, s, log, pad, seqNo, pending);
    ReplayCommit(log, pending, seqNo);
  }

  lemma CommitWrites(c: Config, s: Store, log: Log, pad: nat, seqNo: nat, pending: Log)
    requires s.content == EncodeLog(c.crc, log) + Zeros(pad) && s.writeOff == LogSize(log)
    requires pending != [] && FitsLimit(c, s, CommitRecords(pending, seqNo))
    ensures var records, tagged := CommitRecords(pending, seqNo), TagAll(pending, seqNo);
            Commit(c, s, seqNo, pending) ==
              s.(content := EncodeLog(c.crc, log + records) + Zeros(PadLeft(pad, LogSize(records))),
                 writeOff := LogSize(log + records),
                 indexed := UpdateAll(s.indexed, Writes(pending, PlacesAfter(log, tagged))),
                 seqNo := (seqNo + 1) % UINT64_LIMIT)
  {
    hide EncodeLog, RecordSize, TagAll, UpdateAll, Append, AppendAll, AppendPositions, Writes, PlacesAfter, Marker, LogSize;
    var tagged, marker := TagAll(pending, seqNo), Marker(seqNo);
    LogSizeSnoc(tagged, marker);
    AppendAllWrites(c, s, log, pad, tagged);
    LogSizeConcat(log, tagged);
    AppendWrites(c, AppendAll(c, s, tagged), log + tagged, PadLeft(pad, LogSize(tagged)), marker);
    assert log + CommitRecords(pending, seqNo) == log + tagged + [marker];
  }

  lemma CommitRecordsReadable(crc: Checksum, pending: Log, seqNo: nat)
    requires 0 < seqNo
    requires forall w <- pending :: |w.key| + 8 <= MAX_RECORD_SIZE && |w.value| <= MAX_RECORD_SIZE
    ensures AllReadable(crc, CommitRecords(pending, seqNo))
  {
    hide RecordBody;
    forall r <- CommitRecords(pending, seqNo)
      ensures Readable(crc, r)
    {
      var i :| 0 <= i <= |pending| && CommitRecords(pending, seqNo)[i] == r;
      if i < |pending| {
        assert pending[i] in pending;
        assert r == Tag(pending[i], seqNo);
        assert |r.key| == |pending[i].key| + 8;
      } else {
        assert |r.key| == 8;
      }
    }
  }
}
