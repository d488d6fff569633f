/** What any log means, and so what recovery makes of any history: also of one with ambiguous plain
    keys, or with batches that share a number with an unfinished one. */
module Meanings {
  import opened ByteStrings
  import opened LogRecords
  import opened Keys
  import opened Logs
  import opened Engine
  import opened Readings
  import opened Histories
  import opened Consistency

  /** The contents, and the writes that wait for a marker. */
  datatype Meaning = Meaning(contents: Contents, waiting: map<nat, Log>)

  const NO_MEANING := Meaning(map[], map[])

  function WaitingFor(m: Meaning, seqNo: nat): Log {
    if seqNo in m.waiting then m.waiting[seqNo] else []
  }

  function Hold(m: Meaning, seqNo: nat, writes: Log): Meaning {
    m.(waiting := m.waiting[seqNo := WaitingFor(m, seqNo) + writes])
  }

  function Publish(m: Meaning, seqNo: nat): Meaning {
    Meaning(ApplyWrites(m.contents, WaitingFor(m, seqNo)), m.waiting - {seqNo})
  }

  function WriteOf(r: LogRecord): LogRecord {
    r.(key := RealKey(r))
  }

  // ----- record by record

  function MeanRecord(m: Meaning, r: LogRecord): Meaning {
    var seqNo := ParseKey(r.key).seqNo;
    if seqNo == NON_TRANSACTION_SEQ_NO then m.(contents := ApplyWrite(m.contents, WriteOf(r)))
    else if r.kind == TXN_FINISHED then Publish(m, seqNo)
    else Hold(m, seqNo, [WriteOf(r)])
  }

  function MeaningOf(log: Log): Meaning {
    if log == [] then NO_MEANING else MeanRecord(MeaningOf(log[..|log| - 1]), log[|log| - 1])
  }

  function WritesOf(log: Log, numbers: seq<nat>): (writes: Log)
    requires Below(numbers, |log|)
    ensures |writes| == |numbers|
  {
    seq(|numbers|, j requires 0 <= j < |numbers| => WriteOf(log[numbers[j]]))
  }

  ghost predicate WaitsFor(log: Log, waiting: map<nat, seq<nat>>, writes: map<nat, Log>) {
    && waiting.Keys == writes.Keys
    && forall q <- waiting :: Below(waiting[q], |log|) && WritesOf(log, waiting[q]) == writes[q]
  }

  lemma {:induction false} PlaceWaiting(log: Log, live: Live, numbers: seq<nat>)
    requires LiveFaithful(log, live) && Below(numbers, |log|)
    ensures LiveFaithful(log, PlaceAll(log, live, numbers))
    ensures ValuesOf(log, PlaceAll(log, live, numbers)) == ApplyWrites(ValuesOf(log, live), WritesOf(log, numbers))
  {
    hide ParseKey, Place, ApplyWrite, ValuesOf, LiveFaithful, RealKey;
    PlaceAllFaithful(log, live, numbers);
    if numbers != [] {
      var n := |numbers| - 1;
      PlaceWaiting(log, live, numbers[..n]);
      assert WritesOf(log, numbers)[..n] == WritesOf(log, numbers[..n]);
      PlaceKey(log, PlaceAll(log, live, numbers[..n]), numbers[n], WriteOf(log[numbers[n]]));
    }
  }

  lemma WaitsLonger(log: Log, r: LogRecord, waiting: map<nat, seq<nat>>, writes: map<nat, Log>, seqNo: nat)
    requires WaitsFor(log, waiting, writes)
    ensures WaitsFor(log + [r], waiting, writes)
    ensures WaitsFor(log + [r], waiting - {seqNo}, writes - {seqNo})
    ensures WaitsFor(log + [r],
              waiting[seqNo := WaitingAt(waiting, seqNo) + [|log|]],
              writes[seqNo := (if seqNo in writes then writes[seqNo] else []) + [WriteOf(r)]])
    ensures Below(WaitingAt(waiting, seqNo), |log + [r]|)
    ensures WritesOf(log + [r], WaitingAt(waiting, seqNo)) == if seqNo in writes then writes[seqNo] else []
  {
    hide WriteOf;
    forall q <- waiting ensures WritesOf(log + [r], waiting[q]) == writes[q] {
      assert Below(waiting[q], |log|);
    }
    var numbers := WaitingAt(waiting, seqNo);
    assert WritesOf(log + [r], numbers + [|log|]) == WritesOf(log + [r], numbers) + [WriteOf(r)];
  }

  /** A log read by record numbers, and through them by values, is what it means record by record. */
  lemma {:induction false} ReadingMeans(log: Log)
    ensures ContentsOf(log) == MeaningOf(log).contents
    ensures WaitsFor(log, ReadLog(log).waiting, MeaningOf(log).waiting)
  {
    if log == [] {
      EmptyLog();
    } else {
      hide ParseKey, ReadLog, ContentsOf, WaitsFor, MeanRecord;
      var n := |log| - 1;
      ReadingMeans(log[..n]);
      assert log == log[..n] + [log[n]];
      RecordMeans(log[..n], log[n], MeaningOf(log[..n]));
    }
  }

  lemma RecordMeans(log: Log, r: LogRecord, m: Meaning)
    requires ContentsOf(log) == m.contents && WaitsFor(log, ReadLog(log).waiting, m.waiting)
    ensures ContentsOf(log + [r]) == MeanRecord(m, r).contents
    ensures WaitsFor(log + [r], ReadLog(log + [r]).waiting, MeanRecord(m, r).waiting)
  {
    hide ParseKey, ReadLog, ValuesOf, WaitsFor, Place, PlaceAll, ApplyWrite, ApplyWrites, LiveFaithful, WritesOf;
    var seqNo, reading, longer := ParseKey(r.key).seqNo, ReadLog(log), log + [r];
    ReadLogSnoc(log, r);
    FaithfulLive(log, r);
    LiveStays(log, longer);
    WaitsLonger(log, r, reading.waiting, m.waiting, seqNo);
    if seqNo == NON_TRANSACTION_SEQ_NO {
      PlaceKey(longer, reading.live, |log|, WriteOf(r));
    } else if r.kind == TXN_FINISHED {
      PlaceWaiting(longer, reading.live, WaitingAt(reading.waiting, seqNo));
    }
  }

  // ----- event by event

  predicate WriteKind(w: LogRecord) {
    w.kind == NORMAL || w.kind == DELETED
  }

  /** An event that the engine can write. Nothing is asked of its keys. */
  predicate Written(e: Event) {
    match e
    case Plain(write) => WriteKind(write)
    case Batch(seqNo, writes, _) => 0 < seqNo < UINT64_LIMIT && writes != [] && forall w <- writes :: WriteKind(w)
  }

  /** A plain write under an ambiguous key waits, under the front of the key, for the number the key
      ends in. A batch waits behind whatever waits for its number, and its marker publishes it all. */
  function MeanEvent(m: Meaning, e: Event): Meaning {
    match e
    case Plain(write) =>
      if Unambiguous(write.key) then m.(contents := ApplyWrite(m.contents, write))
      else Hold(m, ParseKey(write.key).seqNo, [WriteOf(write)])
    case Batch(seqNo, writes, finished) =>
      if finished then Publish(Hold(m, seqNo, writes), seqNo) else Hold(m, seqNo, writes)
  }

  function HistoryMeaning(h: History): Meaning {
    if h == [] then NO_MEANING else MeanEvent(HistoryMeaning(h[..|h| - 1]), h[|h| - 1])
  }

  lemma MeaningSnoc(log: Log, r: LogRecord)
    ensures MeaningOf(log + [r]) == MeanRecord(MeaningOf(log), r)
  {
    assert (log + [r])[..|log|] == log;
  }

  lemma TaggedMeans(m: Meaning, write: LogRecord, seqNo: nat)
    requires 0 < seqNo < UINT64_LIMIT && WriteKind(write)
    ensures MeanRecord(m, Tag(write, seqNo)) == Hold(m, seqNo, [write])
  {
    hide ParseKey, TagKey;
    TaggedKeyParses(write.key, seqNo);
  }

  lemma MarkerMeans(m: Meaning, seqNo: nat)
    requires 0 < seqNo < UINT64_LIMIT
    ensures MeanRecord(m, Marker(seqNo)) == Publish(m, seqNo)
  {
    hide ParseKey, TagKey, ApplyWrites;
    TaggedKeyParses([], seqNo);
  }

  lemma PlainMeans(m: Meaning, write: LogRecord)
    requires WriteKind(write)
    ensures MeanRecord(m, Tag(write, NON_TRANSACTION_SEQ_NO)) == MeanEvent(m, Plain(write))
  {
    hide ParseKey, Unambiguous, ApplyWrite;
    PlainKeyIff(write.key);
  }

  lemma {:induction false} BatchMeans(log: Log, writes: Log, seqNo: nat)
    requires 0 < seqNo < UINT64_LIMIT && writes != [] && forall w <- writes :: WriteKind(w)
    ensures MeaningOf(log + TagAll(writes, seqNo)) == Hold(MeaningOf(log), seqNo, writes)
    decreases |writes|
  {
    hide MeaningOf, MeanRecord, TagAll, Tag;
    var n := |writes| - 1;
    TaggedSnoc(log, writes, seqNo);
    assert writes[n] in writes;
    MeaningSnoc(log + TagAll(writes[..n], seqNo), Tag(writes[n], seqNo));
    TaggedMeans(MeaningOf(log + TagAll(writes[..n], seqNo)), writes[n], seqNo);
    assert writes == writes[..n] + [writes[n]];
    if n == 0 {
      NothingTagged(log, seqNo);
      assert writes[..0] == [];
    } else {
      BatchMeans(log, writes[..n], seqNo);
      HoldTwice(MeaningOf(log), seqNo, writes[..n], [writes[n]]);
    }
  }

  lemma HoldTwice(m: Meaning, seqNo: nat, a: Log, b: Log)
    ensures Hold(Hold(m, seqNo, a), seqNo, b) == Hold(m, seqNo, a + b)
  {
    assert WaitingFor(m, seqNo) + a + b == WaitingFor(m, seqNo) + (a + b);
  }

  lemma EventMeans(log: Log, e: Event)
    requires Written(e)
    ensures MeaningOf(log + RecordsOf(e)) == MeanEvent(MeaningOf(log), e)
  {
    hide MeaningOf, MeanRecord, TagAll, Tag, Marker, Hold, Publish;
    match e
    case Plain(write) =>
      MeaningSnoc(log, Tag(write, NON_TRANSACTION_SEQ_NO));
      PlainMeans(MeaningOf(log), write);
    case Batch(seqNo, writes, finished) =>
      var tagged := log + TagAll(writes, seqNo);
      BatchMeans(log, writes, seqNo);
      assert log + (TagAll(writes, seqNo) + []) == tagged;
      assert log + (TagAll(writes, seqNo) + [Marker(seqNo)]) == tagged + [Marker(seqNo)];
      MeaningSnoc(tagged, Marker(seqNo));
      MarkerMeans(MeaningOf(tagged), seqNo);
  }

  /** The log of any history whatsoever, its keys and its numbers unrestricted, holds what the history
      means event by event. */
  lemma {:induction false} LogMeansAnyHistory(h: History)
    requires forall e <- h :: Written(e)
    ensures MeaningOf(Flatten(h)) == HistoryMeaning(h)
    ensures ContentsOf(Flatten(h)) == HistoryMeaning(h).contents
  {
    hide Written, MeanEvent, RecordsOf, ContentsOf, ReadLog;
    if h != [] {
      var n := |h| - 1;
      LogMeansAnyHistory(h[..n]);
      assert h[n] in h;
      EventMeans(Flatten(h[..n]), h[n]);
    }
    ReadingMeans(Flatten(h));
  }

  /** Under the conditions of atomicity the two readings of a history agree. */
  lemma IsolatedHistoriesAgree(h: History)
    requires EventsOk(h) && OrphansIsolated(h)
    ensures HistoryMeaning(h).contents == Effect(h)
  {
    hide HistoryMeaning, Flatten, Effect, ContentsOf, WriteOk;
    forall e <- h ensures Written(e) {
      assert EventOk(e);
      OkIsWritten(e);
    }
    LogMeansAnyHistory(h);
    LogMeansHistory(h);
  }

  lemma OkIsWritten(e: Event)
    requires EventOk(e)
    ensures Written(e)
  {
  }

  /** So recovery answers every key with what any written history means. */
  lemma RecoveryAnswersAnyHistory(c: Config, h: History, pad: nat, key: Bytes)
    requires AllReadable(c.crc, Flatten(h)) && forall e <- h :: Written(e)
    ensures Get(c, Recover(c, EncodeLog(c.crc, Flatten(h)) + Zeros(pad)), key) == Lookup(HistoryMeaning(h).contents, key)
  {
    hide EncodeLog, Get, Lookup, Flatten, HistoryMeaning, ContentsOf, Written, AllReadable;
    var log := Flatten(h);
    RecoverLog(c, log, pad);
    LogMeansAnyHistory(h);
    GetReadsContents(c, Recover(c, EncodeLog(c.crc, log) + Zeros(pad)), log, Zeros(pad), key);
  }

  /** A plain put under an ambiguous key is not only forgotten: a batch that later takes the number the
      key ends in publishes it, under the front of the key and before its own writes. */
  lemma AmbiguousPutIsPublished(log: Log, front: Bytes, seqNo: nat, value: Bytes, writes: Log)
    requires seqNo !in ReadLog(log).waiting && Written(Batch(seqNo, writes, true))
    ensures var put := PlainRecord(TagKey(front, seqNo), value, NORMAL);
            ContentsOf(log + [put] + RecordsOf(Batch(seqNo, writes, true)))
            == ApplyWrites(ContentsOf(log)[front := value], writes)
  {
    hide ReadLog, ContentsOf, MeaningOf, RecordsOf, WaitsFor, TagKey;
    var write, put := LogRecord(front, value, NORMAL), PlainRecord(TagKey(front, seqNo), value, NORMAL);
    ReadingMeans(log);
    NotWaiting(log, seqNo);
    PutIsTagged(front, seqNo, value);
    MeaningSnoc(log, put);
    TaggedMeans(MeaningOf(log), write, seqNo);
    EventMeans(log + [put], Batch(seqNo, writes, true));
    ReadingMeans(log + [put] + RecordsOf(Batch(seqNo, writes, true)));
    var m := MeaningOf(log);
    assert WaitingFor(m, seqNo) + [write] == [write];
    ApplyFirst(m.contents, write, writes);
  }

  lemma PutIsTagged(front: Bytes, seqNo: nat, value: Bytes)
    ensures PlainRecord(TagKey(front, seqNo), value, NORMAL) == Tag(LogRecord(front, value, NORMAL), seqNo)
  {
  }

  lemma NotWaiting(log: Log, seqNo: nat)
    requires WaitsFor(log, ReadLog(log).waiting, MeaningOf(log).waiting) && seqNo !in ReadLog(log).waiting
    ensures seqNo !in MeaningOf(log).waiting
  {
    hide ReadLog, MeaningOf;
  }

  lemma {:induction false} ApplyFirst(m: Contents, write: LogRecord, writes: Log)
    ensures ApplyWrites(m, [write] + writes) == ApplyWrites(ApplyWrite(m, write), writes)
    decreases |writes|
  {
    hide ApplyWrite;
    var all := [write] + writes;
    if writes == [] {
      assert all[..0] == [] && ApplyWrites(m, []) == m;
    } else {
      var n := |writes| - 1;
      assert all[..n + 1] == [write] + writes[..n];
      ApplyFirst(m, write, writes[..n]);
    }
  }
}
