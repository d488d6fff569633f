/** Between two opens the engine is a map, for every key: also for those that recovery would take
    for batch records. */
module LiveStores {
  import opened ByteStrings
  import opened LogRecords
  import opened DataFiles
  import opened Keys
  import opened Logs
  import opened Recovery
  import opened Engine
  import opened Readings
  import opened Consistency
  import opened Histories
  import RedisLists

  /** The index entry is the place of a record in the log that is no deletion and has this value. */
  ghost predicate PointsAtValue(log: Log, pos: LogRecordPos, value: Bytes) {
    exists i | 0 <= i < |log| :: pos == PosOf(log, i) && log[i].kind != DELETED && log[i].value == value
  }

  /** The file holds the log and `pad` zero bytes, and the index finds in it exactly the values of `m`. */
  ghost predicate Holds(c: Config, s: Store, log: Log, pad: nat, m: Contents) {
    && AllReadable(c.crc, log)
    && s.content == EncodeLog(c.crc, log) + Zeros(pad)
    && s.writeOff == LogSize(log)
    && s.indexed.index.Keys == m.Keys
    && forall key <- m :: PointsAtValue(log, s.indexed.index[key], m[key])
  }

  lemma HoldsReads(c: Config, s: Store, log: Log, pad: nat, m: Contents, key: Bytes)
    requires Holds(c, s, log, pad, m)
    ensures Get(c, s, key) == Lookup(m, key)
  {
    hide ReadRecord, EncodeLog, LogSize, Readable;
    if key != [] && key in m {
      assert PointsAtValue(log, s.indexed.index[key], m[key]);
      var i :| 0 <= i < |log| && s.indexed.index[key] == PosOf(log, i) && log[i].kind != DELETED && log[i].value == m[key];
      ReadLogAt(c.crc, log, i, Zeros(pad));
    }
  }

  lemma LongerLogKeepsPlaces(log: Log, more: Log, pos: LogRecordPos, value: Bytes)
    requires PointsAtValue(log, pos, value)
    ensures PointsAtValue(log + more, pos, value)
  {
    hide LogSize, RecordSize;
    var i :| 0 <= i < |log| && pos == PosOf(log, i) && log[i].kind != DELETED && log[i].value == value;
    assert (log + more)[..i] == log[..i];
    assert (log + more)[i] == log[i];
  }

  /** A database just opened holds what its log means. */
  lemma OpenedHolds(c: Config, s: Store, log: Log, pad: nat)
    requires Consistent(c, s, log, pad)
    ensures Holds(c, s, log, pad, ContentsOf(log))
  {
    hide EncodeLog, Readable, ParseKey, Replay, LogSize;
    ReplayIndex(log);
    var live, m := ReadLog(log).live, ContentsOf(log);
    forall key <- m ensures PointsAtValue(log, s.indexed.index[key], m[key]) {
      var i := live[key];
      assert s.indexed.index[key] == PosOf(log, i);
    }
  }

  /** Read your writes, for any key: a put that fits changes the map at its key and nowhere else. */
  lemma PutHolds(c: Config, s: Store, log: Log, pad: nat, m: Contents, key: Bytes, value: Bytes)
    requires Holds(c, s, log, pad, m) && key != []
    requires |key| <= MAX_RECORD_SIZE && |value| <= MAX_RECORD_SIZE
    requires FitsLimit(c, s, [PlainRecord(key, value, NORMAL)])
    ensures var r := PlainRecord(key, value, NORMAL);
            Holds(c, Put(c, s, key, value), log + [r], PadLeft(pad, RecordSize(r)), m[key := value])
  {
    hide EncodeLog, RecordSize, LogSize, PointsAtValue;
    var r := PlainRecord(key, value, NORMAL);
    SingleSize(r);
    AppendWrites(c, s, log, pad, r);
    AppendedPlace(log, r);
    var s', m' := Put(c, s, key, value), m[key := value];
    forall k <- m' ensures PointsAtValue(log + [r], s'.indexed.index[k], m'[k]) {
      if k != key {
        LongerLogKeepsPlaces(log, [r], s.indexed.index[k], m[k]);
      }
    }
  }

  lemma RemoveHolds(c: Config, s: Store, log: Log, pad: nat, m: Contents, key: Bytes)
    requires Holds(c, s, log, pad, m) && key != [] && key in m
    requires |key| <= MAX_RECORD_SIZE
    requires FitsLimit(c, s, [PlainRecord(key, [], DELETED)])
    ensures var r := PlainRecord(key, [], DELETED);
            Holds(c, Remove(c, s, key), log + [r], PadLeft(pad, RecordSize(r)), m - {key})
  {
    hide EncodeLog, RecordSize, LogSize, PointsAtValue;
    var r := PlainRecord(key, [], DELETED);
    SingleSize(r);
    AppendWrites(c, s, log, pad, r);
    var s', m' := Remove(c, s, key), m - {key};
    forall k <- m' ensures PointsAtValue(log + [r], s'.indexed.index[k], m'[k]) {
      LongerLogKeepsPlaces(log, [r], s.indexed.index[k], m[k]);
    }
  }

  /** A commit that fits applies the writes of the batch to the map, in order, whatever other keys live. */
  lemma CommitHolds(c: Config, s: Store, log: Log, pad: nat, m: Contents, seqNo: nat, pending: Log)
    requires Holds(c, s, log, pad, m) && pending != [] && 0 < seqNo
    requires forall w <- pending ::
      (w.kind == NORMAL || w.kind == DELETED) && |w.key| + 8 <= MAX_RECORD_SIZE && |w.value| <= MAX_RECORD_SIZE
    requires FitsLimit(c, s, CommitRecords(pending, seqNo))
    ensures var records := CommitRecords(pending, seqNo);
            Holds(c, Commit(c, s, seqNo, pending), log + records, PadLeft(pad, LogSize(records)), ApplyWrites(m, pending))
  {
    hide EncodeLog, LogSize, UpdateAll, ApplyWrites, Commit, PointsAtValue, TagAll, PlacesAfter, Writes, Readable, CommitRecords, FitsLimit;
    var records, tagged := CommitRecords(pending, seqNo), TagAll(pending, seqNo);
    var longer := log + records;
    CommitRecordsReadable(c.crc, pending, seqNo);
    CommitWrites(c, s, log, pad, seqNo, pending);
    forall key <- m ensures PointsAtValue(longer, s.indexed.index[key], m[key]) {
      LongerLogKeepsPlaces(log, records, s.indexed.index[key], m[key]);
    }
    var places := PlacesAfter(log, tagged);
    forall i | 0 <= i < |pending| && pending[i].kind != DELETED
      ensures PointsAtValue(longer, places[i], pending[i].value)
    {
      WrittenPlace(log, pending, seqNo, i);
    }
    WritesHold(longer, s.indexed, m, pending, places);
  }

  lemma WrittenPlace(log: Log, pending: Log, seqNo: nat, i: nat)
    requires i < |pending| && pending[i].kind != DELETED
    ensures PointsAtValue(log + CommitRecords(pending, seqNo), PlacesAfter(log, TagAll(pending, seqNo))[i], pending[i].value)
  {
    hide PlacesAfter, PosOf, TagKey;
    var tagged, records := TagAll(pending, seqNo), CommitRecords(pending, seqNo);
    assert records[..|tagged|] == tagged;
    PlacesArePositions(log, records, |tagged|, i);
    var longer := log + records;
    assert longer[|log| + i] == tagged[i];
    assert PlacesAfter(log, tagged)[i] == PosOf(longer, |log| + i);
  }

  /** Index and map change alike under the writes of a batch. */
  lemma {:induction false} WritesHold(log: Log, x: Indexed, m: Contents, pending: Log, places: seq<LogRecordPos>)
    requires |places| == |pending|
    requires x.index.Keys == m.Keys && forall key <- m :: PointsAtValue(log, x.index[key], m[key])
    requires forall i | 0 <= i < |pending| && pending[i].kind != DELETED :: PointsAtValue(log, places[i], pending[i].value)
    ensures var y, m' := UpdateAll(x, Writes(pending, places)), ApplyWrites(m, pending);
            y.index.Keys == m'.Keys && forall key <- m' :: PointsAtValue(log, y.index[key], m'[key])
    decreases |pending|
  {
    hide PointsAtValue;
    if pending != [] {
      var n := |pending| - 1;
      WritesHold(log, x, m, pending[..n], places[..n]);
      WritesSnoc(pending, places);
      assert Writes(pending, places)[..n] == Writes(pending[..n], places[..n]);
    }
  }

  lemma AppendedPlace(log: Log, r: LogRecord)
    requires r.kind != DELETED
    ensures PointsAtValue(log + [r], EntryPos(Entry(r, LogSize(log), RecordSize(r))), r.value)
  {
    hide LogSize, RecordSize;
    assert (log + [r])[..|log|] == log;
    assert PosOf(log + [r], |log|) == EntryPos(Entry(r, LogSize(log), RecordSize(r)));
  }

  /** A plain put under an ambiguous key is read back while the database stays open, and after the
      next open the key has the value, or absence, it had before the put. */
  lemma AmbiguousPutIsForgotten(c: Config, s: Store, log: Log, pad: nat, key: Bytes, value: Bytes)
    requires Consistent(c, s, log, pad) && key != [] && !Unambiguous(key)
    requires |key| <= MAX_RECORD_SIZE && |value| <= MAX_RECORD_SIZE
    requires FitsLimit(c, s, [PlainRecord(key, value, NORMAL)])
    ensures var s' := Put(c, s, key, value);
            && Get(c, s', key) == Found(value)
            && Get(c, Recover(c, s'.content), key) == Get(c, s, key)
  {
    hide EncodeLog, RecordSize, LogSize, Unambiguous, Holds, Replay, Get;
    var r := PlainRecord(key, value, NORMAL);
    OpenedHolds(c, s, log, pad);
    PutHolds(c, s, log, pad, ContentsOf(log), key, value);
    var pad' := PadLeft(pad, RecordSize(r));
    var s' := Put(c, s, key, value);
    HoldsReads(c, s', log + [r], pad', ContentsOf(log)[key := value], key);
    PlainAppend(c, s, log, pad, r);
    RecoverLog(c, log + [r], pad');
    ReplayAmbiguous(log, r);
    var rest := EncodeRecord(c.crc, r) + Zeros(pad');
    EncodeLogSnoc(c.crc, log, r);
    ConcatAssociative(EncodeLog(c.crc, log), EncodeRecord(c.crc, r), Zeros(pad'));
    GetReadsContents(c, Recover(c, s'.content), log, rest, key);
    GetReadsContents(c, s, log, Zeros(pad), key);
  }

  /** The element a push stores for a list is such a put: it is gone after the next open. */
  lemma ListElementIsForgotten(c: Config, s: Store, log: Log, pad: nat,
                               user: Bytes, version: uint64, index: uint64, element: Bytes)
    requires Consistent(c, s, log, pad) && 0 < index
    requires |user| + 16 <= MAX_RECORD_SIZE && |element| <= MAX_RECORD_SIZE
    requires FitsLimit(c, s, [PlainRecord(RedisLists.InternalKey(user, version, index), element, NORMAL)])
    requires RedisLists.InternalKey(user, version, index) !in s.indexed.index
    ensures var key := RedisLists.InternalKey(user, version, index);
            var s' := Put(c, s, key, element);
            && Get(c, s', key) == Found(element)
            && Get(c, Recover(c, s'.content), key) == KeyNotFound
  {
    hide Holds, Consistent, FitsLimit, Recover, Unambiguous;
    RedisLists.ElementKeyIsAmbiguous(user, version, index);
    AmbiguousPutIsForgotten(c, s, log, pad, RedisLists.InternalKey(user, version, index), element);
  }
}
