/** A log read by record numbers: which record holds the value of each key, and which records
    wait for a marker. Positions and values are both looked up through these numbers, which ties
    the index that replay builds to the values that reading returns. */
module Readings {
  import opened ByteStrings
  import opened LogRecords
  import opened DataFiles
  import opened Keys
  import opened Logs
  import opened Recovery
  import opened Engine

  type Live = map<Bytes, nat>

  datatype Reading = Reading(live: Live, waiting: map<nat, seq<nat>>)

  type Contents = map<Bytes, Bytes>

  function RealKey(r: LogRecord): Bytes {
    ParseKey(r.key).realKey
  }

  ghost predicate Below(numbers: seq<nat>, n: nat) {
    forall j | 0 <= j < |numbers| :: numbers[j] < n
  }

  function Place(log: Log, live: Live, i: nat): Live
    requires i < |log|
  {
    if log[i].kind == DELETED then live - {RealKey(log[i])} else live[RealKey(log[i]) := i]
  }

  function PlaceAll(log: Log, live: Live, numbers: seq<nat>): Live
    requires Below(numbers, |log|)
  {
    if numbers == [] then live
    else
      var n := |numbers| - 1;
      Place(log, PlaceAll(log, live, numbers[..n]), numbers[n])
  }

  function WaitingAt(waiting: map<nat, seq<nat>>, seqNo: nat): seq<nat> {
    if seqNo in waiting then waiting[seqNo] else []
  }

  /** Numbers belong to records, a key is held by a record that carries it and is no deletion,
      and a waiting record carries the number it waits for. */
  ghost predicate Faithful(log: Log, r: Reading) {
    && (forall k <- r.live :: r.live[k] < |log| && RealKey(log[r.live[k]]) == k && log[r.live[k]].kind != DELETED)
    && (forall q <- r.waiting :: WaitFaithful(log, q, r.waiting[q]))
  }

  ghost predicate WaitFaithful(log: Log, seqNo: nat, numbers: seq<nat>) {
    && Below(numbers, |log|)
    && forall j | 0 <= j < |numbers| :: ParseKey(log[numbers[j]].key).seqNo == seqNo
  }

  ghost predicate LiveFaithful(log: Log, live: Live) {
    forall k <- live :: live[k] < |log| && RealKey(log[live[k]]) == k && log[live[k]].kind != DELETED
  }

  lemma {:induction false} PlaceAllFaithful(log: Log, live: Live, numbers: seq<nat>)
    requires LiveFaithful(log, live)
    requires Below(numbers, |log|)
    ensures LiveFaithful(log, PlaceAll(log, live, numbers))
  {
    if numbers != [] {
      PlaceAllFaithful(log, live, numbers[..|numbers| - 1]);
    }
  }

  function ReadLog(log: Log): (r: Reading)
    ensures Faithful(log, r)
  {
    if log == [] then Reading(map[], map[])
    else
      var n := |log| - 1;
      var s := ReadLog(log[..n]);
      var seqNo := ParseKey(log[n].key).seqNo;
      assert LiveFaithful(log, s.live);
      assert forall q <- s.waiting :: WaitFaithful(log[..n], q, s.waiting[q]) && WaitFaithful(log, q, s.waiting[q]);
      if seqNo == NON_TRANSACTION_SEQ_NO then
        Reading(Place(log, s.live, n), s.waiting)
      else if log[n].kind == TXN_FINISHED then
        PlaceAllFaithful(log, s.live, WaitingAt(s.waiting, seqNo));
        Reading(PlaceAll(log, s.live, WaitingAt(s.waiting, seqNo)), s.waiting - {seqNo})
      else
        Reading(s.live, s.waiting[seqNo := WaitingAt(s.waiting, seqNo) + [n]])
  }

  // ----- positions and values

  function PosOf(log: Log, i: nat): LogRecordPos
    requires i < |log|
  {
    LogRecordPos(INITIAL_FILE_ID, LogSize(log[..i]), RecordSize(log[i]) % UINT32_LIMIT)
  }

  function IndexOf(log: Log, live: Live): Index
    requires forall k <- live :: live[k] < |log|
  {
    map k <- live :: PosOf(log, live[k])
  }

  function ValuesOf(log: Log, live: Live): Contents
    requires forall k <- live :: live[k] < |log|
  {
    map k <- live :: log[live[k]].value
  }

  function StagedOf(log: Log, numbers: seq<nat>): seq<Staged>
    requires Below(numbers, |log|)
  {
    seq(|numbers|, j requires 0 <= j < |numbers| =>
      Staged(RealKey(log[numbers[j]]), log[numbers[j]].kind, PosOf(log, numbers[j])))
  }

  /** What a log says: the value of every key. */
  function ContentsOf(log: Log): Contents {
    ValuesOf(log, ReadLog(log).live)
  }

  // ----- replay builds exactly the index of the reading

  lemma PosOfPrefix(log: Log, n: nat, i: nat)
    requires i < n <= |log|
    ensures PosOf(log[..n], i) == PosOf(log, i)
  {
    assert log[..n][..i] == log[..i];
  }

  lemma StagedOfPrefix(log: Log, n: nat, numbers: seq<nat>)
    requires n <= |log| && Below(numbers, n)
    ensures StagedOf(log[..n], numbers) == StagedOf(log, numbers)
  {
    forall j | 0 <= j < |numbers|
      ensures StagedOf(log[..n], numbers)[j] == StagedOf(log, numbers)[j]
    {
      PosOfPrefix(log, n, numbers[j]);
    }
  }

  lemma IndexOfPrefix(log: Log, n: nat, live: Live)
    requires n <= |log| && forall k <- live :: live[k] < n
    ensures IndexOf(log[..n], live) == IndexOf(log, live)
    ensures ValuesOf(log[..n], live) == ValuesOf(log, live)
  {
    forall k <- live
      ensures PosOf(log[..n], live[k]) == PosOf(log, live[k])
    {
      PosOfPrefix(log, n, live[k]);
    }
  }

  lemma UpdatePlaces(log: Log, x: Indexed, live: Live, i: nat)
    requires LiveFaithful(log, live) && x.index == IndexOf(log, live)
    requires i < |log|
    ensures LiveFaithful(log, Place(log, live, i))
    ensures Update(x, RealKey(log[i]), log[i].kind, PosOf(log, i)).index == IndexOf(log, Place(log, live, i))
  {
    hide RealKey, PosOf;
  }

  lemma {:induction false} UpdateAllPlaces(log: Log, x: Indexed, live: Live, numbers: seq<nat>)
    requires LiveFaithful(log, live) && x.index == IndexOf(log, live)
    requires Below(numbers, |log|)
    ensures LiveFaithful(log, PlaceAll(log, live, numbers))
    ensures UpdateAll(x, StagedOf(log, numbers)).index == IndexOf(log, PlaceAll(log, live, numbers))
  {
    hide RealKey, PosOf, Update, Place, IndexOf, LiveFaithful;
    PlaceAllFaithful(log, live, numbers);
    if numbers != [] {
      var n := |numbers| - 1;
      UpdateAllPlaces(log, x, live, numbers[..n]);
      var ops := StagedOf(log, numbers);
      assert ops[..n] == StagedOf(log, numbers[..n]);
      UpdatePlaces(log, UpdateAll(x, ops[..n]), PlaceAll(log, live, numbers[..n]), numbers[n]);
    }
  }

  ghost predicate StagingMirrors(log: Log, staging: Staging, waiting: map<nat, seq<nat>>) {
    && staging.Keys == waiting.Keys
    && forall q <- waiting :: WaitFaithful(log, q, waiting[q]) && staging[q] == StagedOf(log, waiting[q])
  }

  ghost predicate Mirrors(log: Log, s: Recovered, r: Reading) {
    && LiveFaithful(log, r.live)
    && s.indexed.index == IndexOf(log, r.live)
    && StagingMirrors(log, s.staging, r.waiting)
  }

  lemma MirrorsLonger(log: Log, n: nat, s: Recovered, r: Reading)
    requires n <= |log| && Mirrors(log[..n], s, r)
    ensures Mirrors(log, s, r)
  {
    hide PosOf;
    IndexOfPrefix(log, n, r.live);
    forall q <- r.waiting
      ensures WaitFaithful(log, q, r.waiting[q])
      ensures StagedOf(log, r.waiting[q]) == StagedOf(log[..n], r.waiting[q])
    {
      assert WaitFaithful(log[..n], q, r.waiting[q]);
      StagedOfPrefix(log, n, r.waiting[q]);
    }
  }

  lemma {:induction false} ReplayMirrors(log: Log)
    ensures Mirrors(log, Replay(log), ReadLog(log))
  {
    if log != [] {
      var n := |log| - 1;
      var prefix, r := log[..n], log[n];
      ReplayMirrors(prefix);
      assert log == prefix + [r];
      ReplaySnoc(prefix, r);
      MirrorsLonger(log, n, Replay(prefix), ReadLog(prefix));
      ReplayStepMirrors(log, Replay(prefix), ReadLog(prefix));
    } else {
      assert Replay(log) == NOTHING;
    }
  }

  function LastEntry(log: Log): Entry
    requires log != []
  {
    var n := |log| - 1;
    Entry(log[n], LogSize(log[..n]), RecordSize(log[n]))
  }

  lemma ReplayStepMirrors(log: Log, s: Recovered, r: Reading)
    requires log != [] && Mirrors(log, s, r)
    requires ReadLog(log[..|log| - 1]) == r
    ensures Mirrors(log, ReplayEntry(s, LastEntry(log)), ReadLog(log))
  {
    hide ParseKey, PosOf, Update, UpdateAll, Place, PlaceAll, IndexOf, StagedOf, LogSize, RecordSize, LiveFaithful,
      Faithful, StagingMirrors, WaitFaithful;
    var n := |log| - 1;
    var seqNo := ParseKey(log[n].key).seqNo;
    var numbers := WaitingAt(r.waiting, seqNo);
    LastEntryPos(log);
    if seqNo == NON_TRANSACTION_SEQ_NO {
      UpdatePlaces(log, s.indexed, r.live, n);
    } else {
      WaitingMirrors(log, s.staging, r.waiting, seqNo);
      if log[n].kind == TXN_FINISHED {
        UpdateAllPlaces(log, s.indexed, r.live, numbers);
      }
    }
  }

  lemma WaitingMirrors(log: Log, staging: Staging, waiting: map<nat, seq<nat>>, seqNo: nat)
    requires StagingMirrors(log, staging, waiting)
    ensures var numbers := WaitingAt(waiting, seqNo);
            && Below(numbers, |log|)
            && StagedAt(staging, seqNo) == StagedOf(log, numbers)
            && StagingMirrors(log, staging - {seqNo}, waiting - {seqNo})
            && forall i: nat | i < |log| && ParseKey(log[i].key).seqNo == seqNo ::
                 StagingMirrors(log,
                   staging[seqNo := StagedAt(staging, seqNo) + [Staged(RealKey(log[i]), log[i].kind, PosOf(log, i))]],
                   waiting[seqNo := numbers + [i]])
  {
    hide ParseKey, PosOf;
    var numbers := WaitingAt(waiting, seqNo);
    assert WaitFaithful(log, seqNo, numbers);
    forall i: nat | i < |log| && ParseKey(log[i].key).seqNo == seqNo
      ensures StagingMirrors(log,
                staging[seqNo := StagedAt(staging, seqNo) + [Staged(RealKey(log[i]), log[i].kind, PosOf(log, i))]],
                waiting[seqNo := numbers + [i]])
    {
      assert StagedOf(log, numbers + [i])
          == StagedOf(log, numbers) + [Staged(RealKey(log[i]), log[i].kind, PosOf(log, i))];
      assert WaitFaithful(log, seqNo, numbers + [i]);
    }
  }

  lemma LastEntryPos(log: Log)
    requires log != []
    ensures EntryPos(LastEntry(log)) == PosOf(log, |log| - 1)
  {
  }

  lemma ReplayIndex(log: Log)
    ensures Replay(log).indexed.index == IndexOf(log, ReadLog(log).live)
    ensures Replay(log).indexed.index.Keys == ContentsOf(log).Keys
  {
    ReplayMirrors(log);
  }

  // ----- reading through the index

  function Lookup(contents: Contents, key: Bytes): GetResult {
    if key == [] then KeyEmpty
    else if key in contents then Found(contents[key])
    else KeyNotFound
  }

  /** When the file starts with the log and the index is the replayed one, reading any key
      through the bytes returns what the log says, whatever stands behind the log. */
  lemma GetReadsContents(c: Config, s: Store, log: Log, rest: Bytes, key: Bytes)
    requires AllReadable(c.crc, log)
    requires s.content == EncodeLog(c.crc, log) + rest
    requires s.indexed.index == Replay(log).indexed.index
    ensures Get(c, s, key) == Lookup(ContentsOf(log), key)
  {
    hide ReadRecord, EncodeLog, Readable, ParseKey;
    ReplayIndex(log);
    var live := ReadLog(log).live;
    if key in live {
      ReadLogAt(c.crc, log, live[key], rest);
    }
  }

  /** Every index entry is the place and the size of a record of its key that is no deletion: the
      bytes at that place are the record's encoding, and that is what a read there returns. */
  lemma IndexEntryPointsAtRecord(c: Config, log: Log, rest: Bytes, key: Bytes)
    requires AllReadable(c.crc, log) && key in Replay(log).indexed.index
    ensures exists r <- log ::
      var content, pos := EncodeLog(c.crc, log) + rest, Replay(log).indexed.index[key];
      && RealKey(r) == key && r.kind != DELETED
      && pos.size == RecordSize(r) % UINT32_LIMIT
      && pos.offset + RecordSize(r) <= |content|
      && content[pos.offset..pos.offset + RecordSize(r)] == EncodeRecord(c.crc, r)
      && ReadRecord(c.crc, content, pos.offset) == Read(r, RecordSize(r))
  {
    hide ReadRecord, EncodeLog, EncodeRecord, RecordSize, Readable, ParseKey;
    ReplayIndex(log);
    var i := ReadLog(log).live[key];
    ReadLogAt(c.crc, log, i, rest);
    BytesOfRecord(c.crc, log, i, rest);
    assert log[i] in log;
  }

  lemma BytesOfRecord(crc: Checksum, log: Log, i: nat, rest: Bytes)
    requires i < |log|
    ensures var content, start := EncodeLog(crc, log) + rest, LogSize(log[..i]);
            && start + RecordSize(log[i]) <= |content|
            && content[start..start + RecordSize(log[i])] == EncodeRecord(crc, log[i])
  {
    hide EncodeLog, EncodeRecord, RecordSize, LogSize;
    var before, here, after := EncodeLog(crc, log[..i]), EncodeRecord(crc, log[i]), EncodeLog(crc, log[i + 1..]);
    EncodeLogSplit(crc, log, i);
    EncodeLogLength(crc, log[..i]);
    RecordSizeIsLength(crc, log[i]);
    assert before + here + after + rest == before + (here + (after + rest));
  }
}
