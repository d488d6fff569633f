/** Sequence numbers: which one recovery continues from, and how each step of a run changes it. */
module Numbering {
  import opened ByteStrings
  import opened LogRecords
  import opened Keys
  import opened Logs
  import opened Recovery
  import opened Engine
  import opened Consistency
  import opened Histories
  import opened Truncation
  import opened Runs

  /** `n` is the largest number a record of the log carries, or zero when none carries one. */
  ghost predicate IsLargestNumber(n: nat, log: Log) {
    && (forall r <- log :: ParseKey(r.key).seqNo <= n)
    && (n == 0 || exists r <- log :: ParseKey(r.key).seqNo == n)
  }

  lemma {:induction false} ReplayedNumber(log: Log)
    ensures IsLargestNumber(Replay(log).maxSeqNo, log)
  {
    if log != [] {
      hide ParseKey, Replay, IsLargestNumber;
      var n := |log| - 1;
      ReplayedNumber(log[..n]);
      assert log == log[..n] + [log[n]];
      ReplaySnoc(log[..n], log[n]);
      NumberSnoc(Replay(log[..n]), log[..n], log[n]);
    }
  }

  lemma NumberSnoc(s: Recovered, log: Log, r: LogRecord)
    requires IsLargestNumber(s.maxSeqNo, log)
    ensures IsLargestNumber(ReplayEntry(s, Entry(r, LogSize(log), RecordSize(r))).maxSeqNo, log + [r])
  {
    hide ParseKey, Update, UpdateAll, LogSize, RecordSize;
    var longer := log + [r];
    assert forall x <- longer :: x in log || x == r;
    assert forall x <- log :: x in longer;
    assert longer[|log|] == r;
  }

  /** Recovery continues from the largest number in the log, or from zero. */
  lemma RecoveredNumberIsLargest(c: Config, log: Log, pad: nat)
    requires AllReadable(c.crc, log)
    ensures IsLargestNumber(Recover(c, EncodeLog(c.crc, log) + Zeros(pad)).seqNo, log)
  {
    hide Recover, EncodeLog, Replay, IsLargestNumber, AllReadable;
    RecoverLog(c, log, pad);
    ReplayedNumber(log);
  }

  // ----- histories

  /** `n` is the largest number of a batch, finished or not, or zero when there is none. */
  ghost predicate IsLargestBatch(n: nat, h: History) {
    && (forall e <- h | e.Batch? :: e.seqNo <= n)
    && (n == 0 || exists e <- h :: e.Batch? && e.seqNo == n)
  }

  lemma EventNumbers(e: Event)
    requires EventOk(e)
    ensures e.Plain? ==> forall r <- RecordsOf(e) :: ParseKey(r.key).seqNo == 0
    ensures e.Batch? ==> RecordsOf(e) != [] && forall r <- RecordsOf(e) :: ParseKey(r.key).seqNo == e.seqNo
  {
    hide ParseKey, WriteOk, Unambiguous;
    match e
    case Plain(write) => PlainKeyIff(write.key);
    case Batch(seqNo, writes, finished) =>
      TaggedKeyParses([], seqNo);
      forall r <- RecordsOf(e) ensures ParseKey(r.key).seqNo == seqNo {
        var i :| 0 <= i < |RecordsOf(e)| && RecordsOf(e)[i] == r;
        if i < |writes| {
          TaggedKeyParses(writes[i].key, seqNo);
        }
      }
  }

  lemma {:induction false} LargestOfHistory(h: History, n: nat)
    requires EventsOk(h)
    ensures IsLargestNumber(n, Flatten(h)) <==> IsLargestBatch(n, h)
    decreases |h|
  {
    hide ParseKey, RecordsOf, EventOk;
    forall e <- h ensures forall r <- RecordsOf(e) :: r in Flatten(h) {
      RecordsAreThere(h, e);
    }
    forall e <- h
      ensures EventOk(e)
      ensures e.Plain? ==> forall r <- RecordsOf(e) :: ParseKey(r.key).seqNo == 0
      ensures e.Batch? ==> RecordsOf(e) != [] && forall r <- RecordsOf(e) :: ParseKey(r.key).seqNo == e.seqNo
    {
      assert EventOk(e);
      EventNumbers(e);
    }
    forall r <- Flatten(h) ensures exists e <- h :: r in RecordsOf(e) {
      RecordsComeFromEvents(h, r);
    }
    if IsLargestNumber(n, Flatten(h)) {
      forall e <- h | e.Batch? ensures e.seqNo <= n {
        assert RecordsOf(e)[0] in RecordsOf(e);
      }
    }
    if IsLargestBatch(n, h) && n > 0 {
      var e :| e in h && e.Batch? && e.seqNo == n;
      assert RecordsOf(e)[0] in RecordsOf(e);
    }
  }

  lemma {:induction false} RecordsAreThere(h: History, e: Event)
    requires e in h
    ensures forall r <- RecordsOf(e) :: r in Flatten(h)
  {
    hide RecordsOf;
    var n := |h| - 1;
    if e != h[n] {
      RecordsAreThere(h[..n], e);
    }
  }

  lemma {:induction false} RecordsComeFromEvents(h: History, r: LogRecord)
    requires r in Flatten(h)
    ensures exists e <- h :: r in RecordsOf(e)
  {
    hide RecordsOf;
    var n := |h| - 1;
    if r in RecordsOf(h[n]) {
      assert h[n] in h;
    } else {
      RecordsComeFromEvents(h[..n], r);
      var e :| e in h[..n] && r in RecordsOf(e);
      assert e in h;
    }
  }

  // ----- runs

  /** How a step changes the number of the database: a commit leaves it one above the batch, opening
      again takes the largest number of a batch the disk still tells of, and nothing else touches it.
      A new batch gets the next one. */
  lemma StepChangesNumber(c: Config, w: World, step: Step)
    requires Inv(c, w) && StepOk(c, w, step)
    ensures var w' := Next(c, w, step);
            match step
            case CommitStep(b) =>
              w'.store.seqNo == if w.up && b < |w.batches| && w.batches[b].pending != [] then w.batches[b].seqNo + 1 else w.store.seqNo
            case Reopen => if w.up then w' == w else IsLargestBatch(w'.store.seqNo, w'.history)
            case NewBatch => w'.store == w.store && (w.up ==> w'.batches == w.batches + [PendingBatch(w.store.seqNo + 1, [])])
            case _ => w'.store.seqNo == w.store.seqNo
  {
    hide Inv, StepOk, Put, Remove, Commit, Merge, Recover, Truncate, Flatten, Effect, EventOk, IsLargestBatch, WithWrite, PlainHistory;
    NumberFits(c, w, step);
    if w.up {
      NothingToDo(c, w);
    }
    match step
    case PutStep(key, value) => PutKeepsNumber(c, w.store, key, value);
    case RemoveStep(key) => RemoveKeepsNumber(c, w.store, key);
    case CommitStep(b) =>
      if w.up && b < |w.batches| && w.batches[b].pending != [] {
        CommitSeqNo(c, w.store, w.batches[b].seqNo, w.batches[b].pending);
      }
    case MergeStep => MergeKeepsNumber(c, w.store);
    case BatchPut(b, key, value) => WriteKeepsStore(w, b, LogRecord(key, value, NORMAL));
    case BatchRemove(b, key) => WriteKeepsStore(w, b, LogRecord(key, [], DELETED));
    case Reopen =>
      if !w.up {
        ReopenedNumber(c, w);
      }
    case _ =>
  }

  lemma NumberFits(c: Config, w: World, step: Step)
    requires StepOk(c, w, step)
    ensures step.NewBatch? ==> w.store.seqNo + 1 < UINT64_LIMIT
    ensures step.CommitStep? && step.b < |w.batches| ==> w.batches[step.b].seqNo + 1 < UINT64_LIMIT
  {
  }

  lemma WriteKeepsStore(w: World, b: nat, write: LogRecord)
    ensures WithWrite(w, b, write).store == w.store
  {
  }

  lemma PutKeepsNumber(c: Config, s: Store, key: Bytes, value: Bytes)
    ensures Put(c, s, key, value).seqNo == s.seqNo
  {
  }

  lemma RemoveKeepsNumber(c: Config, s: Store, key: Bytes)
    ensures Remove(c, s, key).seqNo == s.seqNo
  {
  }

  lemma MergeKeepsNumber(c: Config, s: Store)
    ensures Merge(c, s).seqNo == s.seqNo
  {
    hide LoadHint, Recover, AppendAll, MergeLog, MergeHint;
  }

  lemma ReopenedNumber(c: Config, w: World)
    requires Inv(c, w) && !w.up
    ensures IsLargestBatch(Recover(c, w.store.content).seqNo, w.history)
  {
    hide EncodeLog, Recover, Flatten, IsLargestBatch, IsLargestNumber, EventsOk, OrphansBelow;
    var pad :| w.store.content == EncodeLog(c.crc, Flatten(w.history)) + Zeros(pad);
    HistoryReadable(c.crc, w.history);
    RecoveredNumberIsLargest(c, Flatten(w.history), pad);
    LargestOfHistory(w.history, Recover(c, w.store.content).seqNo);
  }
}
