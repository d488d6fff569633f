/** A log is a list of records written one after the other. Scanning a file is the inverse of
    writing a log. */
module Logs {
  import opened ByteStrings
  import opened Varints
  import opened LogRecords
  import opened DataFiles

  type Log = seq<LogRecord>

  /** A record together with the place it was read from. */
  datatype Entry = Entry(record: LogRecord, offset: nat, size: nat)

  datatype ScanResult = ScanResult(entries: seq<Entry>, end: nat)

  /** The walk recovery makes over a file from `offset`: a record is skipped by its size, any
      error but the end of the file by one byte. `end` is where the walk stops. */
  function Scan(crc: Checksum, content: Bytes, offset: nat): ScanResult
    decreases if offset < |content| then |content| - offset else 0
  {
    match ReadRecord(crc, content, offset)
    case EndOfFile => ScanResult([], offset)
    case Read(record, size) =>
      var tail := Scan(crc, content, offset + size);
      ScanResult([Entry(record, offset, size)] + tail.entries, tail.end)
    case _ => Scan(crc, content, offset + 1)
  }

  /** A walk that has read `done` and stands at `offset`. */
  ghost predicate Scanned(crc: Checksum, content: Bytes, done: seq<Entry>, offset: nat) {
    var rest := Scan(crc, content, offset);
    Scan(crc, content, 0) == ScanResult(done + rest.entries, rest.end)
  }

  lemma ScanStart(crc: Checksum, content: Bytes)
    ensures Scanned(crc, content, [], 0)
  {
    hide ReadRecord, Scan;
    assert [] + Scan(crc, content, 0).entries == Scan(crc, content, 0).entries;
  }

  lemma ScanStep(crc: Checksum, content: Bytes, done: seq<Entry>, offset: nat)
    requires Scanned(crc, content, done, offset)
    ensures match ReadRecord(crc, content, offset)
            case EndOfFile => Scan(crc, content, 0) == ScanResult(done, offset)
            case Read(record, size) =>
              Scanned(crc, content, done + [Entry(record, offset, size)], offset + size)
            case _ => Scanned(crc, content, done, offset + 1)
  {
    hide ReadRecord;
    match ReadRecord(crc, content, offset) {
      case EndOfFile =>
        assert done + [] == done;
      case Read(record, size) =>
        var entry, rest := Entry(record, offset, size), Scan(crc, content, offset + size).entries;
        assert done + ([entry] + rest) == done + [entry] + rest;
      case _ =>
    }
  }

  function EncodeLog(crc: Checksum, log: Log): Bytes {
    if log == [] then [] else EncodeLog(crc, log[..|log| - 1]) + EncodeRecord(crc, log[|log| - 1])
  }

  function LogSize(log: Log): nat {
    if log == [] then 0 else LogSize(log[..|log| - 1]) + RecordSize(log[|log| - 1])
  }

  /** The records of a log with the places they are written to. */
  function Entries(log: Log): (entries: seq<Entry>)
    ensures |entries| == |log|
  {
    if log == [] then []
    else
      var n := |log| - 1;
      Entries(log[..n]) + [Entry(log[n], LogSize(log[..n]), RecordSize(log[n]))]
  }

  ghost predicate AllReadable(crc: Checksum, log: Log) {
    forall r <- log :: Readable(crc, r)
  }

  // ----- writing more

  lemma {:induction false} EncodeLogLength(crc: Checksum, log: Log)
    ensures |EncodeLog(crc, log)| == LogSize(log)
  {
    if log != [] {
      EncodeLogLength(crc, log[..|log| - 1]);
      RecordSizeIsLength(crc, log[|log| - 1]);
    }
  }

  lemma {:induction false} EncodeLogConcat(crc: Checksum, log: Log, more: Log)
    ensures EncodeLog(crc, log + more) == EncodeLog(crc, log) + EncodeLog(crc, more)
  {
    hide EncodeRecord;
    if more == [] {
      assert log + more == log;
    } else {
      var n := |more| - 1;
      EncodeLogConcat(crc, log, more[..n]);
      assert (log + more)[..|log| + n] == log + more[..n];
      ConcatAssociative(EncodeLog(crc, log), EncodeLog(crc, more[..n]), EncodeRecord(crc, more[n]));
    }
  }

  lemma {:induction false} LogSizeConcat(log: Log, more: Log)
    ensures LogSize(log + more) == LogSize(log) + LogSize(more)
  {
    if more == [] {
      assert log + more == log;
    } else {
      var n := |more| - 1;
      LogSizeConcat(log, more[..n]);
      assert (log + more)[..|log| + n] == log + more[..n];
    }
  }

  lemma LogSizeSnoc(log: Log, r: LogRecord)
    ensures LogSize(log + [r]) == LogSize(log) + RecordSize(r)
    ensures Entries(log + [r]) == Entries(log) + [Entry(r, LogSize(log), RecordSize(r))]
  {
    assert (log + [r])[..|log|] == log;
  }

  lemma EncodeLogSnoc(crc: Checksum, log: Log, r: LogRecord)
    ensures EncodeLog(crc, log + [r]) == EncodeLog(crc, log) + EncodeRecord(crc, r)
  {
    assert (log + [r])[..|log|] == log;
  }

  lemma {:induction false} EntryAt(log: Log, i: nat)
    requires i < |log|
    ensures Entries(log)[i] == Entry(log[i], LogSize(log[..i]), RecordSize(log[i]))
  {
    var n := |log| - 1;
    if i < n {
      EntryAt(log[..n], i);
      assert log[..n][..i] == log[..i];
    }
  }

  lemma {:induction false} LogSizeMonotone(log: Log, i: nat, j: nat)
    requires i < j <= |log|
    ensures LogSize(log[..i]) + RecordSize(log[i]) <= LogSize(log[..j])
  {
    assert log[..j] == log[..i + 1] + log[i + 1..j];
    LogSizeConcat(log[..i + 1], log[i + 1..j]);
    assert log[..i + 1] == log[..i] + [log[i]];
    LogSizeSnoc(log[..i], log[i]);
  }

  // ----- reading it back

  lemma SplitAt(log: Log, i: nat)
    requires i < |log|
    ensures log == log[..i] + [log[i]] + log[i + 1..]
  {
  }

  lemma EncodeLogSplit(crc: Checksum, log: Log, i: nat)
    requires i < |log|
    ensures EncodeLog(crc, log)
         == EncodeLog(crc, log[..i]) + EncodeRecord(crc, log[i]) + EncodeLog(crc, log[i + 1..])
  {
    hide EncodeRecord, EncodeLog;
    var before, after := log[..i], log[i + 1..];
    SplitAt(log, i);
    EncodeLogConcat(crc, before + [log[i]], after);
    EncodeLogSnoc(crc, before, log[i]);
  }

  /** Every record of a log is read at its place, whatever follows the log. */
  lemma ReadLogAt(crc: Checksum, log: Log, i: nat, rest: Bytes)
    requires AllReadable(crc, log) && i < |log|
    ensures ReadRecord(crc, EncodeLog(crc, log) + rest, LogSize(log[..i])) == Read(log[i], RecordSize(log[i]))
  {
    hide EncodeRecord, EncodeLog, LogSize, ReadRecord, RecordSize;
    var before, after := EncodeLog(crc, log[..i]), EncodeLog(crc, log[i + 1..]);
    EncodeLogLength(crc, log[..i]);
    EncodeLogSplit(crc, log, i);
    ConcatAssociative(before + EncodeRecord(crc, log[i]), after, rest);
    assert log[i] in log;
    ReadBackIff(crc, before, log[i], after + rest);
  }

  lemma ReadZeros(crc: Checksum, before: Bytes, k: nat)
    ensures ReadRecord(crc, before + Zeros(k), |before|) == if k == 5 || k == 6 then Corrupt else EndOfFile
  {
    if k >= 5 {
      var content := before + Zeros(k);
      var window := Window(content, |before|, MAX_LOG_RECORD_HEADER_SIZE);
      assert window == Zeros(Min(k, MAX_LOG_RECORD_HEADER_SIZE));
      assert window[..4] == Zeros(4);
      FromLittleEndianZero(window[..4]);
      if k >= 6 {
        DecodeEncodeVarint(0, window[6..]);
        assert window[5..] == Varint(0) + window[6..];
      }
      if k >= 7 {
        DecodeEncodeVarint(0, window[7..]);
        assert window[6..] == Varint(0) + window[7..];
      }
    }
  }

  /** How far behind the log the walk stops when `k` zero bytes follow: five or six zeros are
      too many for the end of the file and too few for a header. */
  function Slack(k: nat): nat {
    if k == 5 then 1 else if k == 6 then 2 else 0
  }

  lemma {:induction false} ScanZeros(crc: Checksum, before: Bytes, k: nat)
    ensures Scan(crc, before + Zeros(k), |before|) == ScanResult([], |before| + Slack(k))
    decreases k
  {
    hide ReadRecord;
    ReadZeros(crc, before, k);
    if k == 5 || k == 6 {
      assert Zeros(k) == [0] + Zeros(k - 1);
      ConcatAssociative(before, [0], Zeros(k - 1));
      ScanZeros(crc, before + [0], k - 1);
    }
  }

  lemma {:induction false} ScanFromEntry(crc: Checksum, log: Log, i: nat, k: nat)
    requires AllReadable(crc, log) && i <= |log|
    ensures Scan(crc, EncodeLog(crc, log) + Zeros(k), LogSize(log[..i]))
         == ScanResult(Entries(log)[i..], LogSize(log) + Slack(k))
    decreases |log| - i
  {
    hide ReadRecord, EncodeRecord, EncodeLog, RecordSize;
    if i == |log| {
      EncodeLogLength(crc, log);
      assert log[..i] == log;
      ScanZeros(crc, EncodeLog(crc, log), k);
    } else {
      ReadLogAt(crc, log, i, Zeros(k));
      assert log[..i + 1] == log[..i] + [log[i]];
      LogSizeSnoc(log[..i], log[i]);
      ScanFromEntry(crc, log, i + 1, k);
      EntryAt(log, i);
      assert Entries(log)[i..] == [Entries(log)[i]] + Entries(log)[i + 1..];
    }
  }

  /** Scanning a written log, with any number of zero bytes behind it, returns exactly its
      records, offsets and sizes. The walk stops at the end of the log unless there are five or
      six zeros. */
  lemma ScanInvertsWrite(crc: Checksum, log: Log, k: nat)
    requires AllReadable(crc, log)
    ensures Scan(crc, EncodeLog(crc, log) + Zeros(k), 0)
         == ScanResult(Entries(log), LogSize(log) + Slack(k))
  {
    assert log[..0] == [];
    ScanFromEntry(crc, log, 0, k);
    assert Entries(log)[0..] == Entries(log);
  }

  /** A log can be told from its bytes. */
  lemma EncodeLogInjective(crc: Checksum, log: Log, other: Log)
    requires AllReadable(crc, log) && AllReadable(crc, other)
    requires EncodeLog(crc, log) == EncodeLog(crc, other)
    ensures log == other
  {
    ScanInvertsWrite(crc, log, 0);
    ScanInvertsWrite(crc, other, 0);
    forall i | 0 <= i < |log|
      ensures log[i] == other[i]
    {
      EntryAt(log, i);
      EntryAt(other, i);
    }
  }
}
