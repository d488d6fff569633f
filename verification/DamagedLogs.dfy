/** Scanning a log behind which something damaged stands: a record that cannot be read, or one cut short
    by a crash in the middle of writing it. */
module DamagedLogs {
  import opened ByteStrings
  import opened LogRecords
  import opened DataFiles
  import opened Logs
  import opened DamagedRecords

  lemma {:induction false} ScanThrough(crc: Checksum, log: Log, i: nat, rest: Bytes)
    requires AllReadable(crc, log) && i <= |log|
    ensures var content := EncodeLog(crc, log) + rest;
            var tail := Scan(crc, content, LogSize(log));
            Scan(crc, content, LogSize(log[..i])) == ScanResult(Entries(log)[i..] + tail.entries, tail.end)
    decreases |log| - i
  {
    hide ReadRecord, EncodeRecord, EncodeLog, RecordSize;
    if i == |log| {
      assert log[..i] == log;
    } else {
      ReadLogAt(crc, log, i, rest);
      assert log[..i + 1] == log[..i] + [log[i]];
      LogSizeSnoc(log[..i], log[i]);
      ScanThrough(crc, log, i + 1, rest);
      EntryAt(log, i);
      assert Entries(log)[i..] == [Entries(log)[i]] + Entries(log)[i + 1..];
    }
  }

  /** The records of a log are found whatever stands behind it, and then the scan goes on there: one byte
      further for each thing it cannot read, until it can, or comes to the end. */
  lemma ScanGoesOn(crc: Checksum, log: Log, rest: Bytes)
    requires AllReadable(crc, log)
    ensures var content, end := EncodeLog(crc, log) + rest, LogSize(log);
            match ReadRecord(crc, content, end)
            case EndOfFile => Scan(crc, content, 0) == ScanResult(Entries(log), end)
            case Read(r, size) =>
              var tail := Scan(crc, content, end + size);
              Scan(crc, content, 0) == ScanResult(Entries(log) + ([Entry(r, end, size)] + tail.entries), tail.end)
            case _ =>
              var tail := Scan(crc, content, end + 1);
              Scan(crc, content, 0) == ScanResult(Entries(log) + tail.entries, tail.end)
  {
    hide ReadRecord, EncodeLog, Scan, Entries, LogSize;
    EmptyLogIsSmall();
    assert log[..0] == [] && Entries(log)[0..] == Entries(log);
    ScanThrough(crc, log, 0, rest);
    ScanOnce(crc, EncodeLog(crc, log) + rest, LogSize(log));
    assert Entries(log) + [] == Entries(log);
  }

  lemma EmptyLogIsSmall()
    ensures LogSize([]) == 0
  {
  }

  lemma ScanOnce(crc: Checksum, content: Bytes, offset: nat)
    ensures Scan(crc, content, offset) ==
      match ReadRecord(crc, content, offset)
      case EndOfFile => ScanResult([], offset)
      case Read(r, size) =>
        var tail := Scan(crc, content, offset + size);
        ScanResult([Entry(r, offset, size)] + tail.entries, tail.end)
      case _ => Scan(crc, content, offset + 1)
  {
    hide ReadRecord;
  }

  lemma ScanPastEnd(crc: Checksum, content: Bytes, offset: nat)
    requires offset >= |content|
    ensures Scan(crc, content, offset) == ScanResult([], offset)
  {
  }

  /** What recovery sees of a write that a crash cut off inside a record. Nothing, if no more than the
      header was written, and either less than five bytes of it or all. Otherwise, behind the header,
      the cut record, as if it were whole: with what there is of key and value, and the walk ends where
      the whole record would have ended. */
  lemma CutWriteScans(crc: Checksum, log: Log, r: LogRecord, k: nat)
    requires AllReadable(crc, log) && |r.key| <= MAX_RECORD_SIZE && |r.value| <= MAX_RECORD_SIZE
    requires k < RecordSize(r) && (k < 5 || HeaderSize(r) <= k) && k <= |EncodeRecord(crc, r)|
    ensures var content := EncodeLog(crc, log) + EncodeRecord(crc, r)[..k];
            Scan(crc, content, 0) ==
              if k < 5 || k == HeaderSize(r) then ScanResult(Entries(log), LogSize(log))
              else
                var kv := (r.key + r.value)[..k - HeaderSize(r)];
                var cut := if |r.key| < |kv| then |r.key| else |kv|;
                ScanResult(Entries(log) + [Entry(LogRecord(kv[..cut], kv[cut..], r.kind), LogSize(log), RecordSize(r))],
                           LogSize(log) + RecordSize(r))
  {
    hide ReadRecord, EncodeLog, EncodeRecord, RecordSize, HeaderSize, Scan;
    var content := EncodeLog(crc, log) + EncodeRecord(crc, r)[..k];
    EncodeLogLength(crc, log);
    CutRecordReads(crc, EncodeLog(crc, log), r, k);
    ScanGoesOn(crc, log, EncodeRecord(crc, r)[..k]);
    ScanPastEnd(crc, content, LogSize(log) + RecordSize(r));
    var tail: seq<Entry> := [];
    assert forall e: Entry :: [e] + tail == [e];
  }
}
