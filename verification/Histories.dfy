/** What was done to the database, as the log tells it: plain writes, whole batches, and batches
    cut off by a crash before their marker. The log of a history says exactly what its plain
    writes and its whole batches say. */
module Histories {
  import opened ByteStrings
  import opened LogRecords
  import opened DataFiles
  import opened Keys
  import opened Logs
  import opened Engine
  import opened Readings

  /** The writes of a batch are its pending records, with the keys as the user gave them. A batch
      that is not `finished` has no marker in the log. */
  datatype Event =
    | Plain(write: LogRecord)
    | Batch(seqNo: nat, writes: Log, finished: bool)

  type History = seq<Event>

  function RecordsOf(e: Event): Log {
    match e
    case Plain(write) => [Tag(write, NON_TRANSACTION_SEQ_NO)]
    case Batch(seqNo, writes, finished) => TagAll(writes, seqNo) + if finished then [Marker(seqNo)] else []
  }

  function Flatten(h: History): Log {
    if h == [] then [] else Flatten(h[..|h| - 1]) + RecordsOf(h[|h| - 1])
  }

  // ----- the meaning of a history, without any log

  function ApplyWrite(m: Contents, write: LogRecord): Contents {
    if write.kind == DELETED then m - {write.key} else m[write.key := write.value]
  }

  function ApplyWrites(m: Contents, writes: Log): Contents {
    if writes == [] then m
    else ApplyWrite(ApplyWrites(m, writes[..|writes| - 1]), writes[|writes| - 1])
  }

  /** Plain writes and finished batches take effect, in order; an unfinished batch has none. */
  function EffectOf(m: Contents, e: Event): Contents {
    match e
    case Plain(write) => ApplyWrite(m, write)
    case Batch(_, writes, finished) => if finished then ApplyWrites(m, writes) else m
  }

  function Effect(h: History): Contents {
    if h == [] then map[] else EffectOf(Effect(h[..|h| - 1]), h[|h| - 1])
  }

  // ----- histories that the engine can write

  predicate WriteOk(write: LogRecord) {
    && (write.kind == NORMAL || write.kind == DELETED)
    && write.key != []
    && |write.key| + 8 <= MAX_RECORD_SIZE
    && |write.value| <= MAX_RECORD_SIZE
  }

  predicate EventOk(e: Event) {
    match e
    case Plain(write) => WriteOk(write) && Unambiguous(write.key)
    case Batch(seqNo, writes, _) => 0 < seqNo < UINT64_LIMIT && writes != [] && forall w <- writes :: WriteOk(w)
  }

  ghost predicate EventsOk(h: History) {
    forall e <- h :: EventOk(e)
  }

  /** No batch has the number of an earlier unfinished one. */
  ghost predicate OrphansIsolated(h: History) {
    forall i, j | 0 <= i < j < |h| && h[i].Batch? && !h[i].finished && h[j].Batch? :: h[i].seqNo != h[j].seqNo
  }

  predicate IsOrphan(e: Event, seqNo: nat) {
    e.Batch? && !e.finished && e.seqNo == seqNo
  }

  // ----- one record more

  lemma ReadLogSnoc(log: Log, r: LogRecord)
    ensures
      var s, n, p := ReadLog(log), |log|, ParseKey(r.key);
      && Below(WaitingAt(s.waiting, p.seqNo), |log|)
      && ReadLog(log + [r]) ==
        if p.seqNo == NON_TRANSACTION_SEQ_NO then Reading(Place(log + [r], s.live, n), s.waiting)
        else if r.kind == TXN_FINISHED then
          Reading(PlaceAll(log + [r], s.live, WaitingAt(s.waiting, p.seqNo)), s.waiting - {p.seqNo})
        else Reading(s.live, s.waiting[p.seqNo := WaitingAt(s.waiting, p.seqNo) + [n]])
  {
    hide ParseKey, Place, PlaceAll;
    assert (log + [r])[..|log|] == log;
    var q := ParseKey(r.key).seqNo;
    assert q in ReadLog(log).waiting ==> WaitFaithful(log, q, ReadLog(log).waiting[q]);
  }

  lemma ContentsLonger(log: Log, r: LogRecord, live: Live)
    requires forall k <- live :: live[k] < |log|
    ensures ValuesOf(log + [r], live) == ValuesOf(log, live)
  {
  }

  lemma PlainEvent(log: Log, write: LogRecord)
    requires Unambiguous(write.key)
    ensures var log' := log + [Tag(write, NON_TRANSACTION_SEQ_NO)];
            && ContentsOf(log') == ApplyWrite(ContentsOf(log), write)
            && ReadLog(log').waiting == ReadLog(log).waiting
  {
    hide ParseKey, Unambiguous, ReadLog, Place, ValuesOf, ApplyWrite;
    var r := Tag(write, NON_TRANSACTION_SEQ_NO);
    ReadLogSnoc(log, r);
    PlainKeyIff(write.key);
    FaithfulLive(log, r);
    PlaceKey(log + [r], ReadLog(log).live, |log|, write);
    ContentsLonger(log, r, ReadLog(log).live);
  }

  lemma FaithfulLive(log: Log, r: LogRecord)
    ensures LiveFaithful(log, ReadLog(log).live) && LiveFaithful(log + [r], ReadLog(log).live)
  {
    hide ParseKey, ReadLog;
  }

  /** Placing a record that carries a write applies the write. */
  lemma PlaceKey(log: Log, live: Live, i: nat, write: LogRecord)
    requires LiveFaithful(log, live) && i < |log|
    requires RealKey(log[i]) == write.key && log[i].kind == write.kind && log[i].value == write.value
    ensures LiveFaithful(log, Place(log, live, i))
    ensures ValuesOf(log, Place(log, live, i)) == ApplyWrite(ValuesOf(log, live), write)
  {
    hide ParseKey;
  }

  // ----- the records of a batch

  /** The numbers of `count` records that follow the first `start`. */
  function Numbers(start: nat, count: nat): (numbers: seq<nat>)
    ensures |numbers| == count
  {
    seq(count, j requires 0 <= j < count => start + j)
  }

  /** While its records are written a batch changes nothing; its records wait, in order. */
  lemma {:induction false} BatchWaits(log: Log, writes: Log, seqNo: nat)
    requires 0 < seqNo < UINT64_LIMIT && seqNo !in ReadLog(log).waiting
    requires forall w <- writes :: WriteOk(w)
    ensures ReadLog(log + TagAll(writes, seqNo)) ==
            if writes == [] then ReadLog(log)
            else Reading(ReadLog(log).live, ReadLog(log).waiting[seqNo := Numbers(|log|, |writes|)])
  {
    hide ReadLog, WriteOk, Tag, TagAll, Numbers;
    if writes == [] {
      NothingTagged(log, seqNo);
    } else {
      var n := |writes| - 1;
      var first, last := writes[..n], writes[n];
      BatchWaits(log, first, seqNo);
      assert last.kind != TXN_FINISHED by { assert writes[n] in writes; KindOfWrite(last); }
      RecordWaits(log + TagAll(first, seqNo), last, seqNo);
      TaggedSnoc(log, writes, seqNo);
      NumbersSnoc(|log|, n);
    }
  }

  lemma NothingTagged(log: Log, seqNo: nat)
    ensures log + TagAll([], seqNo) == log
  {
  }

  lemma TaggedSnoc(log: Log, writes: Log, seqNo: nat)
    requires writes != []
    ensures var n := |writes| - 1;
            log + TagAll(writes, seqNo) == log + TagAll(writes[..n], seqNo) + [Tag(writes[n], seqNo)]
  {
    hide Tag;
  }

  lemma NumbersSnoc(start: nat, n: nat)
    ensures Numbers(start, 0) == [] && Numbers(start, n + 1) == Numbers(start, n) + [start + n]
  {
  }

  lemma RecordWaits(log: Log, write: LogRecord, seqNo: nat)
    requires 0 < seqNo < UINT64_LIMIT && write.kind != TXN_FINISHED
    ensures ReadLog(log + [Tag(write, seqNo)]) ==
            Reading(ReadLog(log).live, ReadLog(log).waiting[seqNo := WaitingAt(ReadLog(log).waiting, seqNo) + [|log|]])
  {
    hide ParseKey, ReadLog, TagKey, Place, PlaceAll;
    ReadLogSnoc(log, Tag(write, seqNo));
    TaggedKeyParses(write.key, seqNo);
  }

  lemma KindOfWrite(w: LogRecord)
    requires WriteOk(w)
    ensures w.kind != TXN_FINISHED
  {
  }

  lemma PlaceWrite(log: Log, live: Live, i: nat, write: LogRecord, seqNo: nat)
    requires LiveFaithful(log, live) && i < |log|
    requires log[i] == Tag(write, seqNo) && 0 < seqNo < UINT64_LIMIT
    ensures LiveFaithful(log, Place(log, live, i))
    ensures ValuesOf(log, Place(log, live, i)) == ApplyWrite(ValuesOf(log, live), write)
  {
    hide ParseKey, TagKey, Place, ValuesOf, ApplyWrite;
    TaggedKeyParses(write.key, seqNo);
    PlaceKey(log, live, i, write);
  }

  /** Publishing the first `n` records of a batch applies its first `n` writes. */
  lemma {:induction false} PlaceBatch(log: Log, live: Live, start: nat, writes: Log, seqNo: nat, n: nat)
    requires LiveFaithful(log, live) && 0 < seqNo < UINT64_LIMIT
    requires n <= |writes| && start + |writes| <= |log|
    requires forall j | 0 <= j < |writes| :: log[start + j] == Tag(writes[j], seqNo)
    ensures Below(Numbers(start, n), |log|)
    ensures LiveFaithful(log, PlaceAll(log, live, Numbers(start, n)))
    ensures ValuesOf(log, PlaceAll(log, live, Numbers(start, n))) == ApplyWrites(ValuesOf(log, live), writes[..n])
  {
    hide ParseKey, TagKey, Place, ApplyWrite, ValuesOf, RealKey;
    PlaceAllFaithful(log, live, Numbers(start, n));
    if n > 0 {
      PlaceBatch(log, live, start, writes, seqNo, n - 1);
      assert Numbers(start, n)[..n - 1] == Numbers(start, n - 1);
      assert writes[..n][..n - 1] == writes[..n - 1];
      PlaceWrite(log, PlaceAll(log, live, Numbers(start, n - 1)), start + n - 1, writes[n - 1], seqNo);
    }
  }

  lemma UnfinishedBatch(log: Log, writes: Log, seqNo: nat)
    requires EventOk(Batch(seqNo, writes, false)) && seqNo !in ReadLog(log).waiting
    ensures var log' := log + RecordsOf(Batch(seqNo, writes, false));
            && ContentsOf(log') == ContentsOf(log)
            && ReadLog(log').waiting.Keys == ReadLog(log).waiting.Keys + {seqNo}
  {
    hide ReadLog, TagKey, WriteOk;
    BatchWaits(log, writes, seqNo);
    var tagged := log + TagAll(writes, seqNo);
    assert log + (TagAll(writes, seqNo) + []) == tagged;
    assert ValuesOf(tagged, ReadLog(log).live) == ValuesOf(log, ReadLog(log).live);
  }

  lemma WholeBatch(log: Log, writes: Log, seqNo: nat)
    requires EventOk(Batch(seqNo, writes, true)) && seqNo !in ReadLog(log).waiting
    ensures var log' := log + RecordsOf(Batch(seqNo, writes, true));
            && ContentsOf(log') == ApplyWrites(ContentsOf(log), writes)
            && ReadLog(log').waiting == ReadLog(log).waiting
  {
    hide ReadLog, WriteOk, PlaceAll, ApplyWrites, Numbers, Tag, TagAll, Marker, RecordsOf;
    BatchWaits(log, writes, seqNo);
    var live, waiting := ReadLog(log).live, ReadLog(log).waiting;
    var whole := log + RecordsOf(Batch(seqNo, writes, true));
    MarkerPublishes(log, writes, seqNo);
    LiveStays(log, whole);
    WritesAreTagged(log, writes, seqNo);
    PlaceBatch(whole, live, |log|, writes, seqNo, |writes|);
    assert writes[..|writes|] == writes;
    assert waiting[seqNo := Numbers(|log|, |writes|)] - {seqNo} == waiting;
  }

  lemma WritesAreTagged(log: Log, writes: Log, seqNo: nat)
    ensures var whole := log + RecordsOf(Batch(seqNo, writes, true));
            |log| + |writes| <= |whole| && forall j | 0 <= j < |writes| :: whole[|log| + j] == Tag(writes[j], seqNo)
  {
    hide Tag;
  }

  lemma LiveStays(log: Log, longer: Log)
    requires log <= longer
    ensures LiveFaithful(longer, ReadLog(log).live)
    ensures ValuesOf(longer, ReadLog(log).live) == ContentsOf(log)
  {
    hide ParseKey, ReadLog;
  }

  /** The marker places the records that wait for it, in the order they were written. */
  lemma MarkerPublishes(log: Log, writes: Log, seqNo: nat)
    requires 0 < seqNo < UINT64_LIMIT && writes != []
    requires ReadLog(log + TagAll(writes, seqNo)) ==
             Reading(ReadLog(log).live, ReadLog(log).waiting[seqNo := Numbers(|log|, |writes|)])
    ensures var whole := log + RecordsOf(Batch(seqNo, writes, true));
            && Below(Numbers(|log|, |writes|), |whole|)
            && ReadLog(whole) == Reading(PlaceAll(whole, ReadLog(log).live, Numbers(|log|, |writes|)),
                                         ReadLog(log).waiting[seqNo := Numbers(|log|, |writes|)] - {seqNo})
  {
    hide ReadLog, TagAll, PlaceAll, Marker, Numbers;
    var tagged := log + TagAll(writes, seqNo);
    assert log + (TagAll(writes, seqNo) + [Marker(seqNo)]) == tagged + [Marker(seqNo)];
    MarkerPlaces(tagged, seqNo);
  }

  lemma MarkerPlaces(log: Log, seqNo: nat)
    requires 0 < seqNo < UINT64_LIMIT
    ensures var r, whole := ReadLog(log), log + [Marker(seqNo)];
            && Below(WaitingAt(r.waiting, seqNo), |whole|)
            && ReadLog(whole) == Reading(PlaceAll(whole, r.live, WaitingAt(r.waiting, seqNo)), r.waiting - {seqNo})
  {
    hide ParseKey, ReadLog, TagKey, PlaceAll, Place;
    ReadLogSnoc(log, Marker(seqNo));
    TaggedKeyParses([], seqNo);
  }

  /** Why the numbers matter: a whole batch that takes the number of an unfinished one publishes the
      records of both. */
  lemma ReusedNumberPublishesOrphan(log: Log, orphan: Log, writes: Log, seqNo: nat)
    requires EventOk(Batch(seqNo, orphan, false)) && EventOk(Batch(seqNo, writes, true))
    requires seqNo !in ReadLog(log).waiting
    ensures ContentsOf(log + RecordsOf(Batch(seqNo, orphan, false)) + RecordsOf(Batch(seqNo, writes, true)))
         == ApplyWrites(ContentsOf(log), orphan + writes)
  {
    hide ReadLog, ContentsOf, ApplyWrites, WriteOk, Tag;
    WholeBatch(log, orphan + writes, seqNo);
    assert TagAll(orphan + writes, seqNo) == TagAll(orphan, seqNo) + TagAll(writes, seqNo);
    assert log + (TagAll(orphan, seqNo) + []) + (TagAll(writes, seqNo) + [Marker(seqNo)])
        == log + (TagAll(orphan + writes, seqNo) + [Marker(seqNo)]);
  }

  /** Every history in which no batch takes the number of an earlier unfinished one is atomic: its
      log holds exactly what its plain writes and its whole batches leave, in order, and only
      unfinished batches keep records waiting. */
  lemma {:induction false} LogMeansHistory(h: History)
    requires EventsOk(h) && OrphansIsolated(h)
    ensures ContentsOf(Flatten(h)) == Effect(h)
    ensures forall q <- ReadLog(Flatten(h)).waiting :: exists e <- h :: IsOrphan(e, q)
  {
    hide ReadLog, ContentsOf, RecordsOf, ApplyWrite, ApplyWrites, EventOk;
    if h == [] {
      EmptyLog();
    } else {
      var n := |h| - 1;
      var before, e := h[..n], h[n];
      LogMeansHistory(before);
      assert EventOk(e);
      EventStep(Flatten(before), before, e, Effect(before));
      forall q <- ReadLog(Flatten(h)).waiting
        ensures exists e <- h :: IsOrphan(e, q)
      {
        if q in ReadLog(Flatten(before)).waiting {
          var orphan :| orphan in before && IsOrphan(orphan, q);
          assert orphan in h;
        } else {
          assert IsOrphan(h[n], q);
        }
      }
    }
  }

  lemma EmptyLog()
    ensures ReadLog([]) == Reading(map[], map[]) && ContentsOf([]) == map[]
  {
  }

  lemma EventStep(log: Log, before: History, e: Event, m: Contents)
    requires EventOk(e) && OrphansIsolated(before + [e])
    requires ContentsOf(log) == m
    requires forall q <- ReadLog(log).waiting :: exists o <- before :: IsOrphan(o, q)
    ensures ContentsOf(log + RecordsOf(e)) == EffectOf(m, e)
    ensures ReadLog(log + RecordsOf(e)).waiting.Keys
         <= ReadLog(log).waiting.Keys + if e.Batch? && !e.finished then {e.seqNo} else {}
  {
    hide ReadLog, ContentsOf, ApplyWrite, ApplyWrites, WriteOk, Unambiguous;
    match e {
      case Plain(write) => PlainEvent(log, write);
      case Batch(seqNo, writes, finished) =>
        NumberIsNew(before, e);
        if finished {
          WholeBatch(log, writes, seqNo);
        } else {
          UnfinishedBatch(log, writes, seqNo);
        }
    }
  }

  lemma NumberIsNew(before: History, e: Event)
    requires OrphansIsolated(before + [e]) && e.Batch?
    ensures forall o <- before :: !IsOrphan(o, e.seqNo)
  {
    forall o <- before
      ensures !IsOrphan(o, e.seqNo)
    {
      var i :| 0 <= i < |before| && before[i] == o;
      assert (before + [e])[i] == o && (before + [e])[|before|] == e;
    }
  }
}
