/** Rebuilding the index from a log: plain records are applied where they stand, batch records
    are held back until the marker with their sequence number. */
module Recovery {
  import opened ByteStrings
  import opened LogRecords
  import opened Keys
  import opened Logs

  const INITIAL_FILE_ID := 0

  type Index = map<Bytes, LogRecordPos>

  /** An index and the number of bytes its updates have made reclaimable. */
  datatype Indexed = Indexed(index: Index, reclaim: int)

  /** A batch record that waits for its marker. */
  datatype Staged = Staged(key: Bytes, kind: byte, pos: LogRecordPos)

  type Staging = map<nat, seq<Staged>>

  datatype Recovered = Recovered(indexed: Indexed, staging: Staging, maxSeqNo: nat)

  const NOTHING := Recovered(Indexed(map[], 0), map[], NON_TRANSACTION_SEQ_NO)

  function SizeOfOld(index: Index, key: Bytes): nat {
    if key in index then index[key].size else 0
  }

  function Update(x: Indexed, key: Bytes, kind: byte, pos: LogRecordPos): Indexed {
    if kind == DELETED then
      Indexed(x.index - {key}, x.reclaim + pos.size + SizeOfOld(x.index, key))
    else
      Indexed(x.index[key := pos], x.reclaim + SizeOfOld(x.index, key))
  }

  function UpdateAll(x: Indexed, ops: seq<Staged>): Indexed {
    if ops == [] then x
    else
      var n := |ops| - 1;
      Update(UpdateAll(x, ops[..n]), ops[n].key, ops[n].kind, ops[n].pos)
  }

  function EntryPos(e: Entry): LogRecordPos {
    LogRecordPos(INITIAL_FILE_ID, e.offset, e.size % UINT32_LIMIT)
  }

  function StagedAt(staging: Staging, seqNo: nat): seq<Staged> {
    if seqNo in staging then staging[seqNo] else []
  }

  function Max(a: nat, b: nat): nat {
    if a < b then b else a
  }

  function ReplayEntry(s: Recovered, e: Entry): Recovered {
    var p := ParseKey(e.record.key);
    var pos := EntryPos(e);
    if p.seqNo == NON_TRANSACTION_SEQ_NO then
      s.(indexed := Update(s.indexed, p.realKey, e.record.kind, pos))
    else if e.record.kind == TXN_FINISHED then
      Recovered(UpdateAll(s.indexed, StagedAt(s.staging, p.seqNo)), s.staging - {p.seqNo},
                Max(s.maxSeqNo, p.seqNo))
    else
      var waiting := StagedAt(s.staging, p.seqNo) + [Staged(p.realKey, e.record.kind, pos)];
      Recovered(s.indexed, s.staging[p.seqNo := waiting], Max(s.maxSeqNo, p.seqNo))
  }

  function ReplayEntries(entries: seq<Entry>): Recovered {
    if entries == [] then NOTHING
    else ReplayEntry(ReplayEntries(entries[..|entries| - 1]), entries[|entries| - 1])
  }

  function Replay(log: Log): Recovered {
    ReplayEntries(Entries(log))
  }

  lemma ReplaySnoc(log: Log, r: LogRecord)
    ensures Replay(log + [r]) == ReplayEntry(Replay(log), Entry(r, LogSize(log), RecordSize(r)))
  {
    LogSizeSnoc(log, r);
    assert Entries(log + [r])[..|log|] == Entries(log);
  }

  /** A number still waiting for its marker is never above the highest number seen. */
  lemma {:induction false} StagingBelowMax(entries: seq<Entry>)
    ensures forall q <- ReplayEntries(entries).staging :: 0 < q <= ReplayEntries(entries).maxSeqNo
  {
    if entries != [] {
      StagingBelowMax(entries[..|entries| - 1]);
    }
  }
}
