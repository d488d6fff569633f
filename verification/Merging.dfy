/** Merge keeps what the database says. It rewrites the current record of every key, untagged and
    in log order; the hint file it writes beside them agrees with a scan of them. Both hold for
    exactly those databases whose live keys are all unambiguous. */
module Merging {
  import opened ByteStrings
  import opened Varints
  import opened LogRecords
  import opened DataFiles
  import opened Keys
  import opened Logs
  import opened Recovery
  import opened Engine
  import opened Readings
  import opened Consistency

  // ----- which records merge keeps

  /** Record `i` holds the value of its key. */
  predicate Current(log: Log, live: Live, i: nat)
    requires i < |log|
  {
    RealKey(log[i]) in live && live[RealKey(log[i])] == i
  }

  /** The numbers of the current records among the first `n`, in log order. */
  function CurrentNumbers(log: Log, live: Live, n: nat): (numbers: seq<nat>)
    requires n <= |log|
    ensures forall j | 0 <= j < |numbers| :: numbers[j] < n && Current(log, live, numbers[j])
    ensures forall i, j | 0 <= i < j < |numbers| :: numbers[i] < numbers[j]
    ensures forall i | 0 <= i < n && Current(log, live, i) :: i in numbers
  {
    if n == 0 then []
    else
      var before := CurrentNumbers(log, live, n - 1);
      if Current(log, live, n - 1) then before + [n - 1] else before
  }

  function UntagAll(log: Log, numbers: seq<nat>): (merged: Log)
    requires forall j | 0 <= j < |numbers| :: numbers[j] < |log|
    ensures |merged| == |numbers|
  {
    seq(|numbers|, j requires 0 <= j < |numbers| => Untag(log[numbers[j]]))
  }

  lemma SameOffsetSameRecord(log: Log, i: nat, j: nat)
    requires i < |log| && j < |log|
    ensures LogSize(log[..i]) == LogSize(log[..j]) <==> i == j
  {
    hide LogSize;
    if i < j {
      LogSizeMonotone(log, i, j);
    } else if j < i {
      LogSizeMonotone(log, j, i);
    }
  }

  lemma CurrentIff(log: Log, live: Live, i: nat)
    requires LiveFaithful(log, live) && i < |log|
    ensures IsCurrent(IndexOf(log, live), Entries(log)[i]) <==> Current(log, live, i)
  {
    hide ParseKey, LogSize, Entries;
    EntryAt(log, i);
    var key := RealKey(log[i]);
    if key in live {
      SameOffsetSameRecord(log, live[key], i);
    }
  }

  lemma {:induction false} MergedAreCurrent(log: Log, live: Live, n: nat)
    requires LiveFaithful(log, live) && n <= |log|
    ensures MergedRecords(IndexOf(log, live), Entries(log)[..n]) == UntagAll(log, CurrentNumbers(log, live, n))
  {
    hide IsCurrent, Current, Untag, IndexOf, Entries;
    if n > 0 {
      MergedAreCurrent(log, live, n - 1);
      CurrentIff(log, live, n - 1);
      EntryAt(log, n - 1);
      assert Entries(log)[..n][..n - 1] == Entries(log)[..n - 1];
    }
  }

  // ----- a log of untagged records with distinct keys

  ghost predicate DistinctNormal(m: Log) {
    && (forall j | 0 <= j < |m| :: m[j].kind == NORMAL)
    && (forall i, j | 0 <= i < j < |m| :: m[i].key != m[j].key)
  }

  /** The keys of an untagged log that are read as what they are. */
  ghost predicate ReadsUnambiguous(m: Log, live: Live) {
    && (forall j | 0 <= j < |m| && Unambiguous(m[j].key) :: m[j].key in live && live[m[j].key] == j)
    && (forall k <- live :: live[k] < |m| && Unambiguous(k) && m[live[k]].key == k)
  }

  lemma {:induction false} DistinctLogReads(m: Log)
    requires DistinctNormal(m)
    ensures ReadsUnambiguous(m, ReadLog(m).live)
    ensures Replay(m).indexed.reclaim == 0
  {
    hide ReadLog, Replay, Unambiguous, ReadsUnambiguous;
    if m == [] {
      NothingIsRead();
    } else {
      var n := |m| - 1;
      var before := m[..n];
      DistinctLogReads(before);
      assert m == before + [m[n]];
      OneMoreIsRead(before, m[n]);
      NothingReclaimed(before, m[n]);
    }
  }

  lemma NothingIsRead()
    ensures ReadsUnambiguous([], ReadLog([]).live) && Replay([]).indexed.reclaim == 0
  {
  }

  lemma OneMoreIsRead(before: Log, r: LogRecord)
    requires DistinctNormal(before + [r]) && ReadsUnambiguous(before, ReadLog(before).live)
    ensures ReadsUnambiguous(before + [r], ReadLog(before + [r]).live)
  {
    hide Unambiguous, ReadLog;
    var m, live := before + [r], ReadLog(before).live;
    assert m[|before|] == r;
    NormalIsPlaced(before, r);
    assert forall j | 0 <= j < |before| :: m[j] == before[j];
    forall k <- live
      ensures k != r.key
    {
      assert m[live[k]].key == k;
    }
  }

  lemma NormalIsPlaced(before: Log, r: LogRecord)
    requires r.kind == NORMAL
    ensures ReadLog(before + [r]).live == if Unambiguous(r.key) then ReadLog(before).live[r.key := |before|] else ReadLog(before).live
  {
    hide ParseKey, Unambiguous, Faithful;
    assert (before + [r])[..|before|] == before;
    PlainKeyIff(r.key);
  }

  lemma NothingReclaimed(before: Log, r: LogRecord)
    requires DistinctNormal(before + [r]) && ReadsUnambiguous(before, ReadLog(before).live)
    requires Replay(before).indexed.reclaim == 0
    ensures Replay(before + [r]).indexed.reclaim == 0
  {
    hide ParseKey, Unambiguous, ReadLog, Replay, LogSize, RecordSize;
    assert (before + [r])[|before|] == r;
    ReplaySnoc(before, r);
    ReplayIndex(before);
    PlainKeyIff(r.key);
    var live := ReadLog(before).live;
    forall k <- live
      ensures k != r.key
    {
      assert (before + [r])[live[k]].key == k;
    }
  }

  // ----- the theorem

  /** Every live record is a put. */
  ghost predicate LiveNormal(log: Log) {
    var live := ReadLog(log).live;
    forall k <- live :: live[k] < |log| && log[live[k]].kind == NORMAL
  }

  function Merged(log: Log): Log {
    UntagAll(log, CurrentNumbers(log, ReadLog(log).live, |log|))
  }

  lemma MergeLogIsMerged(c: Config, s: Store, log: Log, pad: nat)
    requires Consistent(c, s, log, pad)
    ensures MergeLog(c, s) == Merged(log)
  {
    hide EncodeLog, Entries, ReadLog, CurrentNumbers, MergedRecords, IndexOf;
    ScanInvertsWrite(c.crc, log, pad);
    ReplayIndex(log);
    MergedAreCurrent(log, ReadLog(log).live, |log|);
    assert Entries(log)[..|log|] == Entries(log);
  }

  /** Exactly one untagged put per live key, in log order, with the value of that key. */
  lemma MergedHoldsLiveRecords(log: Log)
    requires LiveNormal(log)
    ensures DistinctNormal(Merged(log))
    ensures forall j | 0 <= j < |Merged(log)| ::
      Merged(log)[j].key in ContentsOf(log) && Merged(log)[j].value == ContentsOf(log)[Merged(log)[j].key]
    ensures forall k <- ContentsOf(log) :: exists j | 0 <= j < |Merged(log)| :: Merged(log)[j].key == k
  {
    hide ParseKey, CurrentNumbers, ReadLog;
    var live := ReadLog(log).live;
    var numbers := CurrentNumbers(log, live, |log|);
    var m := Merged(log);
    forall k <- ContentsOf(log)
      ensures exists j | 0 <= j < |m| :: m[j].key == k
    {
      assert Current(log, live, live[k]);
      var j :| 0 <= j < |numbers| && numbers[j] == live[k];
      assert m[j].key == k;
    }
  }

  lemma {:induction false} UntaggedSize(log: Log, live: Live, n: nat)
    requires n <= |log|
    ensures LogSize(UntagAll(log, CurrentNumbers(log, live, n))) <= LogSize(log[..n])
  {
    hide Current, RecordSize, Untag, LogSize, UntagAll;
    if n == 0 {
      EmptyLogSize(UntagAll(log, []));
      EmptyLogSize(log[..0]);
    } else {
      UntaggedSize(log, live, n - 1);
      assert log[..n] == log[..n - 1] + [log[n - 1]];
      LogSizeSnoc(log[..n - 1], log[n - 1]);
      OneMoreUntagged(log, CurrentNumbers(log, live, n - 1), n - 1);
    }
  }

  lemma OneMoreUntagged(log: Log, numbers: seq<nat>, i: nat)
    requires i < |log| && forall j | 0 <= j < |numbers| :: numbers[j] < |log|
    ensures LogSize(UntagAll(log, numbers + [i])) <= LogSize(UntagAll(log, numbers)) + RecordSize(log[i])
  {
    hide RecordSize, Untag, LogSize;
    UntagShortens(log[i]);
    assert UntagAll(log, numbers + [i]) == UntagAll(log, numbers) + [Untag(log[i])];
    LogSizeSnoc(UntagAll(log, numbers), Untag(log[i]));
  }

  lemma UntagShortens(r: LogRecord)
    ensures RecordSize(Untag(r)) <= RecordSize(r)
    ensures |Untag(r).key| <= |r.key|
  {
    TagParse(r.key);
    VarintLengthMonotone(|Untag(r).key|, |r.key|);
  }

  lemma MergedNoLonger(log: Log)
    ensures LogSize(Merged(log)) <= LogSize(log)
  {
    hide CurrentNumbers;
    UntaggedSize(log, ReadLog(log).live, |log|);
    assert log[..|log|] == log;
  }

  lemma MergedReadable(crc: Checksum, log: Log)
    requires AllReadable(crc, log) && [] !in ContentsOf(log) && LiveNormal(log)
    ensures AllReadable(crc, Merged(log))
  {
    hide ParseKey, CurrentNumbers, ReadLog, RecordBody;
    MergedHoldsLiveRecords(log);
    var numbers := CurrentNumbers(log, ReadLog(log).live, |log|);
    forall r <- Merged(log)
      ensures Readable(crc, r)
    {
      var j :| 0 <= j < |numbers| && Merged(log)[j] == r;
      assert log[numbers[j]] in log;
      UntagShortens(log[numbers[j]]);
    }
  }

  /** What merge leaves: the merged records and nothing else in the file, no longer than before, and
      memory that is their replay, with the sequence number kept. */
  lemma MergeConsistent(c: Config, s: Store, log: Log, pad: nat)
    requires Consistent(c, s, log, pad) && LiveNormal(log) && [] !in ContentsOf(log)
    requires LogSize(log) <= c.fileLimit && log != []
    ensures Consistent(c, Merge(c, s), Merged(log), 0)
    ensures Merge(c, s).content == EncodeLog(c.crc, Merged(log))
    ensures LogSize(Merged(log)) <= LogSize(log)
    ensures Merge(c, s).seqNo == s.seqNo
  {
    hide EncodeLog, LogSize, Merged, ReadLog, Scan, AppendAll, LoadHint, MergeHint, DirectIndex;
    var m := Merged(log);
    MergeLogIsMerged(c, s, log, pad);
    MergedNoLonger(log);
    MergedReadable(c.crc, log);
    MergedHoldsLiveRecords(log);
    MergeHintLoads(c, s, log, pad);
    AppendToEmpty(c, m);
    RecoverLog(c, m, 0);
    assert EncodeLog(c.crc, m) + Zeros(0) == EncodeLog(c.crc, m);
    DistinctLogReads(m);
    EmptyLogSize(log);
  }

  lemma AppendToEmpty(c: Config, m: Log)
    requires LogSize(m) <= c.fileLimit
    ensures AppendAll(c, EMPTY_STORE, m).content == EncodeLog(c.crc, m)
    ensures AppendPositions(c, EMPTY_STORE, m) == PlacesAfter([], m)
  {
    hide EncodeRecord, RecordSize;
    assert EncodeLog(c.crc, []) + Zeros(0) == [];
    AppendAllWrites(c, EMPTY_STORE, [], 0, m);
    assert [] + m == m;
    assert EncodeLog(c.crc, m) + Zeros(0) == EncodeLog(c.crc, m);
  }

  function UnambiguousPart(contents: Contents): Contents {
    map k <- contents | Unambiguous(k) :: contents[k]
  }

  ghost predicate AllUnambiguous(contents: Contents) {
    forall k <- contents :: Unambiguous(k)
  }

  /** Merge keeps the values of exactly the unambiguous keys. */
  lemma MergeKeepsUnambiguous(log: Log)
    requires LiveNormal(log)
    ensures ContentsOf(Merged(log)) == UnambiguousPart(ContentsOf(log))
  {
    hide Merged, ReadLog, Unambiguous;
    var m := Merged(log);
    MergedHoldsLiveRecords(log);
    DistinctLogReads(m);
    var live := ReadLog(m).live;
    forall k | k in ContentsOf(log) && Unambiguous(k)
      ensures k in ContentsOf(m) && ContentsOf(m)[k] == ContentsOf(log)[k]
    {
      var j :| 0 <= j < |m| && m[j].key == k;
    }
    forall k <- ContentsOf(m)
      ensures k in ContentsOf(log) && Unambiguous(k)
    {
      assert m[live[k]].key == k;
    }
  }

  /** So every key keeps its value or its absence if and only if all live keys are unambiguous. */
  lemma MergePreservesIff(log: Log)
    requires LiveNormal(log)
    ensures ContentsOf(Merged(log)) == ContentsOf(log) <==> AllUnambiguous(ContentsOf(log))
  {
    hide Merged, ReadLog, Unambiguous, ContentsOf;
    MergeKeepsUnambiguous(log);
    assert UnambiguousPart(ContentsOf(log)) == ContentsOf(log) <==> AllUnambiguous(ContentsOf(log));
  }

  // ----- the hint file

  /** Key and place of the first `n` records of a log. */
  function DirectIndex(m: Log, n: nat): Index
    requires n <= |m|
  {
    if n == 0 then map[] else DirectIndex(m, n - 1)[m[n - 1].key := PosOf(m, n - 1)]
  }

  lemma HintRecordReadable(crc: Checksum, m: Log, j: nat)
    requires j < |m| && AllReadable(crc, m) && LogSize(m) < UINT64_LIMIT
    ensures Readable(crc, HintRecord(m[j].key, PosOf(m, j)))
    ensures DecodePos(HintRecord(m[j].key, PosOf(m, j)).value) == Pos(PosOf(m, j))
  {
    hide RecordBody, LogSize, RecordSize;
    var pos := PosOf(m, j);
    assert m[j] in m;
    LogSizeMonotone(m, j, |m|);
    assert m[..|m|] == m;
    DecodeEncodePos(pos);
    VarintWidth(pos.fid);
    VarintWidth(pos.offset);
    VarintWidth(pos.size);
  }

  lemma {:induction false} LoadHintFrom(crc: Checksum, m: Log, hints: Log, j: nat)
    requires AllReadable(crc, m) && LogSize(m) < UINT64_LIMIT && j <= |m| == |hints|
    requires forall i | 0 <= i < |m| :: hints[i] == HintRecord(m[i].key, PosOf(m, i))
    requires AllReadable(crc, hints)
    ensures LoadHint(crc, EncodeLog(crc, hints), LogSize(hints[..j]), DirectIndex(m, j)) == Loaded(DirectIndex(m, |m|))
    decreases |m| - j
  {
    hide EncodeLog, ReadRecord, LogSize, RecordSize, PosOf, DecodePos, EncodePos, Readable;
    if j == |m| {
      assert hints[..j] == hints;
      EncodeLogLength(crc, hints);
      assert EncodeLog(crc, hints) + Zeros(0) == EncodeLog(crc, hints);
      ReadZeros(crc, EncodeLog(crc, hints), 0);
    } else {
      ReadLogAt(crc, hints, j, []);
      assert EncodeLog(crc, hints) + [] == EncodeLog(crc, hints);
      HintRecordReadable(crc, m, j);
      assert hints[..j + 1] == hints[..j] + [hints[j]];
      LogSizeSnoc(hints[..j], hints[j]);
      LoadHintFrom(crc, m, hints, j + 1);
    }
  }

  lemma {:induction false} DirectIndexLookup(m: Log, n: nat)
    requires n <= |m| && DistinctNormal(m)
    ensures forall j | 0 <= j < n :: m[j].key in DirectIndex(m, n) && DirectIndex(m, n)[m[j].key] == PosOf(m, j)
    ensures forall k <- DirectIndex(m, n) :: exists j | 0 <= j < n :: m[j].key == k
  {
    hide PosOf;
    if n > 0 {
      DirectIndexLookup(m, n - 1);
    }
  }

  /** The index loaded from the hint file holds every merged record at its place; the scan of the
      merged file finds the same index exactly when all merged keys are unambiguous. */
  lemma HintAgreesIff(c: Config, s: Store, log: Log, pad: nat)
    requires Consistent(c, s, log, pad) && LiveNormal(log) && [] !in ContentsOf(log)
    requires LogSize(log) <= c.fileLimit
    ensures LoadHint(c.crc, MergeHint(c, s), 0, map[]) == Loaded(DirectIndex(Merged(log), |Merged(log)|))
    ensures DirectIndex(Merged(log), |Merged(log)|) == Recover(c, EncodeLog(c.crc, Merged(log))).indexed.index
       <==> AllUnambiguous(ContentsOf(log))
  {
    hide EncodeLog, LogSize, Merged, ReadLog, Scan, LoadHint, MergeHint, DirectIndex, Readable, Replay, LiveNormal, AllUnambiguous, ContentsOf;
    var m := Merged(log);
    MergedReadable(c.crc, log);
    MergeHintLoads(c, s, log, pad);
    RecoverLog(c, m, 0);
    assert EncodeLog(c.crc, m) + Zeros(0) == EncodeLog(c.crc, m);
    HintIndexIff(log);
  }

  /** The hint file of a merge can always be loaded, and holds every merged record at its place. */
  lemma MergeHintLoads(c: Config, s: Store, log: Log, pad: nat)
    requires Consistent(c, s, log, pad) && LiveNormal(log) && [] !in ContentsOf(log)
    requires LogSize(log) <= c.fileLimit
    ensures LoadHint(c.crc, MergeHint(c, s), 0, map[]) == Loaded(DirectIndex(Merged(log), |Merged(log)|))
  {
    hide EncodeLog, LogSize, Merged, ReadLog, AppendAll, PosOf, HintRecords, Readable, LoadHint, MergeLog, ContentsOf, LiveNormal, DirectIndex;
    var m := Merged(log);
    MergeLogIsMerged(c, s, log, pad);
    MergedNoLonger(log);
    MergedReadable(c.crc, log);
    AppendToEmpty(c, m);
    HintsLoad(c.crc, m);
  }

  lemma HintsLoad(crc: Checksum, m: Log)
    requires AllReadable(crc, m) && LogSize(m) < UINT64_LIMIT
    ensures LoadHint(crc, EncodeLog(crc, HintRecords(m, PlacesAfter([], m))), 0, map[]) == Loaded(DirectIndex(m, |m|))
  {
    hide EncodeLog, LogSize, RecordSize, PosOf, PlacesAfter, HintRecord, Readable, LoadHint;
    var hints := HintRecords(m, PlacesAfter([], m));
    forall j | 0 <= j < |m|
      ensures hints[j] == HintRecord(m[j].key, PosOf(m, j)) && Readable(crc, hints[j])
    {
      PlacesInOneLog(m, j);
      HintRecordReadable(crc, m, j);
    }
    LoadHintFrom(crc, m, hints, 0);
    EmptyLogSize(hints[..0]);
  }

  lemma PlacesInOneLog(m: Log, j: nat)
    requires j < |m|
    ensures PlacesAfter([], m)[j] == PosOf(m, j)
  {
    hide PlacesAfter, PosOf;
    PlacesArePositions([], m, |m|, j);
    assert m[..|m|] == m && [] + m == m;
  }

  lemma HintIndexIff(log: Log)
    requires LiveNormal(log)
    ensures DirectIndex(Merged(log), |Merged(log)|) == Replay(Merged(log)).indexed.index
       <==> AllUnambiguous(ContentsOf(log))
  {
    hide Merged, ReadLog, PosOf, Unambiguous, Replay, DirectIndex, ContentsOf;
    var m := Merged(log);
    MergedHoldsLiveRecords(log);
    DistinctLogReads(m);
    ReplayIndex(m);
    DirectIndexLookup(m, |m|);
    var direct, scanned, live := DirectIndex(m, |m|), Replay(m).indexed.index, ReadLog(m).live;
    assert forall k <- direct :: k in ContentsOf(log);
    assert forall k <- ContentsOf(log) :: k in direct;
    ScannedIsUnambiguousPart(m, live, direct, scanned);
  }

  lemma ScannedIsUnambiguousPart(m: Log, live: Live, direct: Index, scanned: Index)
    requires ReadsUnambiguous(m, live) && scanned == IndexOf(m, live)
    requires forall j | 0 <= j < |m| :: m[j].key in direct && direct[m[j].key] == PosOf(m, j)
    requires forall k <- direct :: exists j | 0 <= j < |m| :: m[j].key == k
    ensures direct == scanned <==> forall k <- direct :: Unambiguous(k)
  {
    hide PosOf, Unambiguous;
    forall k <- scanned
      ensures k in direct && Unambiguous(k) && direct[k] == scanned[k]
    {
      assert m[live[k]].key == k;
    }
    forall k <- direct | Unambiguous(k)
      ensures k in scanned
    {
      var j :| 0 <= j < |m| && m[j].key == k;
    }
  }
}
