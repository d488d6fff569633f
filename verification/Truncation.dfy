/** A crash leaves the records before some record boundary. What is left is again the log of a
    history: the events that are complete, and perhaps one batch without its marker. */
module Truncation {
  import opened LogRecords
  import opened DataFiles
  import opened Keys
  import opened Logs
  import opened Recovery
  import opened Engine
  import opened Readings
  import opened Histories

  /** Sequence numbers grow past every unfinished batch. */
  ghost predicate OrphansBelow(h: History) {
    forall i, j | 0 <= i < j < |h| && h[i].Batch? && !h[i].finished && h[j].Batch? :: h[i].seqNo < h[j].seqNo
  }

  lemma OrphansBelowIsolated(h: History)
    requires OrphansBelow(h)
    ensures OrphansIsolated(h)
  {
  }

  lemma FlattenSnoc(h: History, e: Event)
    ensures Flatten(h + [e]) == Flatten(h) + RecordsOf(e)
    ensures Effect(h + [e]) == EffectOf(Effect(h), e)
  {
    assert (h + [e])[..|h|] == h;
  }

  /** The history that the first `n` records of a log tell. */
  function Truncate(h: History, n: nat): History
    requires n <= |Flatten(h)|
  {
    if n == |Flatten(h)| then h
    else
      var before, last := h[..|h| - 1], h[|h| - 1];
      if n <= |Flatten(before)| then Truncate(before, n)
      else if last.Plain? then before
      else before + [Batch(last.seqNo, last.writes[..n - |Flatten(before)|], false)]
  }

  /** Of the events of a history, the ones a crash keeps are a prefix; the next one, a batch, may be
      kept in part. */
  ghost predicate CutOf(h: History, cut: History) {
    || cut <= h
    || (|cut| > 0 && |cut| <= |h| && cut[..|cut| - 1] == h[..|cut| - 1]
        && var whole, part := h[|cut| - 1], cut[|cut| - 1];
           part.Batch? && !part.finished && whole.Batch? && part.seqNo == whole.seqNo
           && part.writes != [] && part.writes <= whole.writes)
  }

  lemma {:induction false} TruncateCuts(h: History, n: nat)
    requires n <= |Flatten(h)| && EventsOk(h)
    ensures Flatten(Truncate(h, n)) == Flatten(h)[..n]
    ensures CutOf(h, Truncate(h, n))
  {
    hide EventOk, TagKey, RecordsOf, CutOf;
    if n < |Flatten(h)| {
      var before, last := h[..|h| - 1], h[|h| - 1];
      if n <= |Flatten(before)| {
        TruncateCuts(before, n);
        assert Flatten(before)[..n] == Flatten(h)[..n];
        ShorterCut(h, Truncate(before, n));
      } else {
        LastEventCuts(h, n);
      }
    } else {
      assert Flatten(h)[..n] == Flatten(h);
      WholeCut(h);
    }
  }

  lemma WholeCut(h: History)
    ensures CutOf(h, h)
  {
  }

  lemma ShorterCut(h: History, cut: History)
    requires h != [] && CutOf(h[..|h| - 1], cut)
    ensures CutOf(h, cut)
  {
    var before := h[..|h| - 1];
    assert |cut| > 0 ==> before[..|cut| - 1] == h[..|cut| - 1];
  }

  lemma LastEventCuts(h: History, n: nat)
    requires h != [] && EventOk(h[|h| - 1])
    requires |Flatten(h[..|h| - 1])| < n < |Flatten(h)|
    ensures Flatten(Truncate(h, n)) == Flatten(h)[..n]
    ensures CutOf(h, Truncate(h, n))
  {
    hide EventOk, Flatten, Truncate, TagAll;
    var before, last := h[..|h| - 1], h[|h| - 1];
    assert h == before + [last];
    FlattenSnoc(before, last);
    TruncatedInLast(h, n);
    var k := n - |Flatten(before)|;
    var part := Batch(last.seqNo, last.writes[..k], false);
    FlattenSnoc(before, part);
    PartOfBatch(last.writes, last.seqNo, k, if last.finished then [Marker(last.seqNo)] else []);
    PrefixOfConcat(Flatten(before), RecordsOf(last), n);
  }

  lemma TruncatedInLast(h: History, n: nat)
    requires h != [] && |Flatten(h[..|h| - 1])| < n < |Flatten(h)|
    ensures var before, last := h[..|h| - 1], h[|h| - 1];
            && last.Batch? && n - |Flatten(before)| <= |last.writes|
            && Truncate(h, n) == before + [Batch(last.seqNo, last.writes[..n - |Flatten(before)|], false)]
  {
    hide TagKey;
  }

  lemma PartOfBatch(writes: Log, seqNo: nat, k: nat, rest: Log)
    requires k <= |writes|
    ensures TagAll(writes[..k], seqNo) + [] == (TagAll(writes, seqNo) + rest)[..k]
  {
    hide Tag;
  }

  lemma PrefixOfConcat(a: Log, b: Log, n: nat)
    requires |a| <= n <= |a + b|
    ensures (a + b)[..n] == a + b[..n - |a|]
  {
  }

  lemma CutKeepsOrder(h: History, cut: History)
    requires EventsOk(h) && OrphansBelow(h) && CutOf(h, cut)
    ensures EventsOk(cut) && OrphansBelow(cut)
  {
    hide WriteOk, Unambiguous;
    var n := |cut| - 1;
    if !(cut <= h) {
      var whole, part := h[n], cut[n];
      forall e <- cut
        ensures EventOk(e)
      {
        var i :| 0 <= i < |cut| && cut[i] == e;
        assert i < n ==> e == cut[..n][i] == h[i];
        assert h[i] in h;
      }
      assert forall i | 0 <= i < n :: cut[..n][i] == h[..n][i];
    } else {
      forall e <- cut
        ensures EventOk(e)
      {
        var i :| 0 <= i < |cut| && cut[i] == e;
        assert h[i] == e;
      }
    }
  }

  // ----- sequence numbers seen by replay

  lemma {:induction false} SeqNosSeen(entries: seq<Entry>, i: nat)
    requires i < |entries|
    ensures ParseKey(entries[i].record.key).seqNo <= ReplayEntries(entries).maxSeqNo
  {
    hide ParseKey;
    var n := |entries| - 1;
    if i < n {
      SeqNosSeen(entries[..n], i);
    }
  }

  /** Recovery has seen the number of every batch of which anything is in the log. */
  lemma {:induction false} BatchNumberSeen(h: History, e: Event)
    requires EventsOk(h) && e in h && e.Batch?
    ensures e.seqNo <= Replay(Flatten(h)).maxSeqNo
  {
    hide ParseKey, TagKey, ReplayEntries;
    assert EventOk(e);
    var i := RecordOfEvent(h, e);
    TaggedKeyParses(e.writes[0].key, e.seqNo);
    EntryAt(Flatten(h), i);
    SeqNosSeen(Entries(Flatten(h)), i);
  }

  lemma {:induction false} RecordOfEvent(h: History, e: Event) returns (i: nat)
    requires e in h && e.Batch? && e.writes != []
    ensures i < |Flatten(h)| && Flatten(h)[i] == Tag(e.writes[0], e.seqNo)
  {
    hide TagKey;
    var before, last := h[..|h| - 1], h[|h| - 1];
    if e == last {
      i := |Flatten(before)|;
    } else {
      assert e in before;
      i := RecordOfEvent(before, e);
    }
  }

  // ----- the records of a history

  predicate WriteRecordOk(r: LogRecord) {
    if r.kind == TXN_FINISHED then
      ParseKey(r.key).seqNo != NON_TRANSACTION_SEQ_NO && |r.key| == 8 && r.value == []
    else
      WriteOk(LogRecord(RealKey(r), r.value, r.kind)) && |r.key| <= MAX_RECORD_SIZE
  }

  lemma EventRecordsOk(e: Event)
    requires EventOk(e)
    ensures forall r <- RecordsOf(e) :: WriteRecordOk(r)
  {
    hide ParseKey, Unambiguous;
    forall r <- RecordsOf(e)
      ensures WriteRecordOk(r)
    {
      match e {
        case Plain(write) =>
          PlainKeyIff(write.key);
        case Batch(seqNo, writes, finished) =>
          var i :| 0 <= i < |RecordsOf(e)| && RecordsOf(e)[i] == r;
          if i < |writes| {
            assert writes[i] in writes;
            TaggedKeyParses(writes[i].key, seqNo);
          } else {
            TaggedKeyParses([], seqNo);
          }
      }
    }
  }

  lemma {:induction false} HistoryRecordsOk(h: History)
    requires EventsOk(h)
    ensures forall r <- Flatten(h) :: WriteRecordOk(r)
  {
    hide WriteRecordOk, EventOk, RecordsOf;
    if h != [] {
      HistoryRecordsOk(h[..|h| - 1]);
      assert h[|h| - 1] in h;
      EventRecordsOk(h[|h| - 1]);
    }
  }

  lemma RecordOkReadable(crc: Checksum, r: LogRecord)
    requires WriteRecordOk(r)
    ensures Readable(crc, r)
  {
    hide RecordBody;
    TagParse(r.key);
  }

  lemma HistoryReadable(crc: Checksum, h: History)
    requires EventsOk(h)
    ensures AllReadable(crc, Flatten(h))
  {
    hide Readable, WriteRecordOk, Flatten;
    HistoryRecordsOk(h);
    forall r <- Flatten(h)
      ensures Readable(crc, r)
    {
      RecordOkReadable(crc, r);
    }
  }

  /** Markers are neither live nor waiting. */
  ghost predicate NoMarkers(log: Log, r: Reading) {
    && (forall k <- r.live :: r.live[k] < |log| && log[r.live[k]].kind != TXN_FINISHED)
    && (forall q <- r.waiting :: WaitsNoMarker(log, r.waiting[q]))
  }

  ghost predicate WaitsNoMarker(log: Log, numbers: seq<nat>) {
    forall j | 0 <= j < |numbers| :: numbers[j] < |log| && log[numbers[j]].kind != TXN_FINISHED
  }

  lemma {:induction false} PlaceAllNoMarkers(log: Log, live: Live, numbers: seq<nat>)
    requires forall k <- live :: live[k] < |log| && log[live[k]].kind != TXN_FINISHED
    requires WaitsNoMarker(log, numbers)
    ensures forall k <- PlaceAll(log, live, numbers) ::
      PlaceAll(log, live, numbers)[k] < |log| && log[PlaceAll(log, live, numbers)[k]].kind != TXN_FINISHED
  {
    hide RealKey;
    if numbers != [] {
      PlaceAllNoMarkers(log, live, numbers[..|numbers| - 1]);
    }
  }

  lemma {:induction false} MarkersNeverRead(log: Log)
    requires forall r <- log :: r.kind == TXN_FINISHED ==> ParseKey(r.key).seqNo != NON_TRANSACTION_SEQ_NO
    ensures NoMarkers(log, ReadLog(log))
  {
    hide ParseKey, Faithful;
    if log != [] {
      var n := |log| - 1;
      MarkersNeverRead(log[..n]);
      var s, q := ReadLog(log[..n]), ParseKey(log[n].key).seqNo;
      assert log[n] in log;
      assert WaitsNoMarker(log[..n], WaitingAt(s.waiting, q));
      assert forall q <- s.waiting :: WaitsNoMarker(log[..n], s.waiting[q]) && WaitsNoMarker(log, s.waiting[q]);
      assert WaitsNoMarker(log, WaitingAt(s.waiting, q));
      PlaceAllNoMarkers(log, s.live, WaitingAt(s.waiting, q));
    }
  }

  /** No key of a history is empty. */
  lemma {:induction false} EffectHasNoEmptyKey(h: History)
    requires EventsOk(h)
    ensures [] !in Effect(h)
  {
    if h != [] {
      EffectHasNoEmptyKey(h[..|h| - 1]);
      var e := h[|h| - 1];
      assert EventOk(e);
      if e.Batch? {
        WritesHaveNoEmptyKey(Effect(h[..|h| - 1]), e.writes);
      }
    }
  }

  lemma {:induction false} WritesHaveNoEmptyKey(m: Contents, writes: Log)
    requires [] !in m && forall w <- writes :: w.key != []
    ensures [] !in ApplyWrites(m, writes)
  {
    if writes != [] {
      WritesHaveNoEmptyKey(m, writes[..|writes| - 1]);
      assert writes[|writes| - 1] in writes;
    }
  }
}
