/** Whole runs: any interleaving of plain operations, batches, merges, crashes at any record
    boundary and reopens. The database always says what its history says, in memory and in the
    bytes that the next recovery will read. */
module Runs {
  import opened ByteStrings
  import opened LogRecords
  import opened Keys
  import opened Logs
  import opened Recovery
  import opened Engine
  import opened Readings
  import opened Consistency
  import opened Histories
  import opened Truncation
  import opened Merging

  datatype PendingBatch = PendingBatch(seqNo: nat, pending: Log)

  datatype Step =
    | PutStep(key: Bytes, value: Bytes)
    | RemoveStep(key: Bytes)
    | NewBatch
    | BatchPut(b: nat, key: Bytes, value: Bytes)
    | BatchRemove(b: nat, key: Bytes)
    | CommitStep(b: nat)
    | MergeStep
    | Crash(kept: nat, pad: nat)
    | Reopen

  /** While the process is down only the content of the store is left. The history is the
      specification of what the disk must say. */
  datatype World = World(store: Store, up: bool, batches: seq<PendingBatch>, history: History)

  function Init(c: Config): World {
    World(Recover(c, []), true, [], [])
  }

  // ----- one step

  function WithWrite(w: World, b: nat, write: LogRecord): World {
    if !w.up || b >= |w.batches| || write.key == [] then w
    else w.(batches := w.batches[b := w.batches[b].(pending := w.batches[b].pending + [write])])
  }

  function PlainHistory(log: Log): History {
    seq(|log|, i requires 0 <= i < |log| => Plain(log[i]))
  }

  function Next(c: Config, w: World, step: Step): World {
    match step
    case PutStep(key, value) =>
      if !w.up then w
      else w.(store := Put(c, w.store, key, value),
              history := if key == [] then w.history else w.history + [Plain(LogRecord(key, value, NORMAL))])
    case RemoveStep(key) =>
      if !w.up then w
      else w.(store := Remove(c, w.store, key),
              history := if key == [] || key !in w.store.indexed.index then w.history
                         else w.history + [Plain(LogRecord(key, [], DELETED))])
    case NewBatch =>
      if !w.up then w
      else w.(batches := w.batches + [PendingBatch((w.store.seqNo + 1) % UINT64_LIMIT, [])])
    case BatchPut(b, key, value) => WithWrite(w, b, LogRecord(key, value, NORMAL))
    case BatchRemove(b, key) => WithWrite(w, b, LogRecord(key, [], DELETED))
    case CommitStep(b) =>
      if !w.up || b >= |w.batches| then w
      else
        var batch := w.batches[b];
        w.(store := Commit(c, w.store, batch.seqNo, batch.pending),
           batches := w.batches[b := batch.(pending := [])],
           history := if batch.pending == [] then w.history
                      else w.history + [Batch(batch.seqNo, batch.pending, true)])
    case MergeStep =>
      if !w.up then w
      else w.(store := Merge(c, w.store),
              history := if w.store.writeOff == 0 then w.history else PlainHistory(Merged(Flatten(w.history))))
    case Crash(kept, pad) =>
      if kept > |Flatten(w.history)| || LogSize(Flatten(w.history)[..kept]) > |w.store.content| then w
      else
        var size := LogSize(Flatten(w.history)[..kept]);
        World(w.store.(content := w.store.content[..size] + Zeros(pad)), false, [], Truncate(w.history, kept))
    case Reopen =>
      if w.up then w else w.(store := Recover(c, w.store.content), up := true)
  }

  /** What a step asks for. Plain keys must be unambiguous, and so must all live keys when merge
      untags them; what is appended must fit; sequence numbers must not wrap; and the zeros behind
      the log must not be five or six. Nothing is asked of the keys of batches. */
  ghost predicate StepOk(c: Config, w: World, step: Step) {
    match step
    case PutStep(key, value) =>
      key != [] ==> EventOk(Plain(LogRecord(key, value, NORMAL))) && FitsLimit(c, w.store, [PlainRecord(key, value, NORMAL)])
    case RemoveStep(key) =>
      key != [] ==> EventOk(Plain(LogRecord(key, [], DELETED))) && FitsLimit(c, w.store, [PlainRecord(key, [], DELETED)])
    case NewBatch => w.store.seqNo + 1 < UINT64_LIMIT
    case BatchPut(_, key, value) => key != [] ==> WriteOk(LogRecord(key, value, NORMAL))
    case BatchRemove(_, key) => key != [] ==> WriteOk(LogRecord(key, [], DELETED))
    case CommitStep(b) =>
      b < |w.batches| ==>
        && w.batches[b].seqNo + 1 < UINT64_LIMIT
        && FitsLimit(c, w.store, CommitRecords(w.batches[b].pending, w.batches[b].seqNo))
    case MergeStep => AllUnambiguous(Effect(w.history))
    case Crash(_, pad) => pad != 5 && pad != 6
    case Reopen => true
  }

  // ----- what every step keeps

  ghost predicate NumbersAbove(h: History, seqNo: nat) {
    forall e <- h | e.Batch? && !e.finished :: e.seqNo < seqNo
  }

  ghost predicate BatchOk(h: History, batch: PendingBatch) {
    && 0 < batch.seqNo < UINT64_LIMIT
    && NumbersAbove(h, batch.seqNo)
    && forall w <- batch.pending :: WriteOk(w)
  }

  ghost predicate HistoryOk(c: Config, h: History) {
    EventsOk(h) && OrphansBelow(h) && LogSize(Flatten(h)) <= c.fileLimit
  }

  ghost predicate LiveOk(c: Config, w: World) {
    && (exists pad :: Consistent(c, w.store, Flatten(w.history), pad))
    && NumbersAbove(w.history, w.store.seqNo + 1)
    && forall batch <- w.batches :: BatchOk(w.history, batch)
  }

  ghost predicate DiskOk(c: Config, w: World) {
    && w.batches == []
    && exists pad | pad != 5 && pad != 6 :: w.store.content == EncodeLog(c.crc, Flatten(w.history)) + Zeros(pad)
  }

  ghost predicate Inv(c: Config, w: World) {
    && HistoryOk(c, w.history)
    && if w.up then LiveOk(c, w) else DiskOk(c, w)
  }

  // ----- the log of a history, once more

  lemma OnlyOrphansWait(h: History)
    requires EventsOk(h) && OrphansBelow(h)
    ensures ContentsOf(Flatten(h)) == Effect(h)
    ensures forall q <- Replay(Flatten(h)).staging :: exists e <- h :: IsOrphan(e, q)
  {
    hide Flatten, Effect, ContentsOf, ReadLog, Replay, EventsOk;
    OrphansBelowIsolated(h);
    LogMeansHistory(h);
    ReplayMirrors(Flatten(h));
  }

  lemma NumberNotWaiting(h: History, seqNo: nat)
    requires EventsOk(h) && OrphansBelow(h) && NumbersAbove(h, seqNo)
    ensures seqNo !in Replay(Flatten(h)).staging
  {
    hide Flatten, Replay, EventsOk, OrphansBelow;
    OnlyOrphansWait(h);
  }

  lemma LiveAreNormal(h: History)
    requires EventsOk(h)
    ensures LiveNormal(Flatten(h))
  {
    hide Flatten, ReadLog, EventsOk, ParseKey, WriteOk;
    var log := Flatten(h);
    HistoryRecordsOk(h);
    MarkersNeverRead(log);
    var live := ReadLog(log).live;
    forall k <- live
      ensures live[k] < |log| && log[live[k]].kind == NORMAL
    {
      FaithfulRecord(log, k);
      assert log[live[k]] in log;
      WriteKind(log[live[k]]);
    }
  }

  lemma FaithfulRecord(log: Log, k: Bytes)
    requires k in ReadLog(log).live
    ensures ReadLog(log).live[k] < |log|
    ensures RealKey(log[ReadLog(log).live[k]]) == k && log[ReadLog(log).live[k]].kind != DELETED
  {
  }

  lemma WriteKind(r: LogRecord)
    requires WriteRecordOk(r)
    ensures r.kind == NORMAL || r.kind == DELETED || r.kind == TXN_FINISHED
  {
  }

  lemma HistoryGrows(c: Config, h: History, e: Event)
    requires HistoryOk(c, h) && EventOk(e)
    requires e.Batch? ==> NumbersAbove(h, e.seqNo)
    requires LogSize(Flatten(h) + RecordsOf(e)) <= c.fileLimit
    ensures HistoryOk(c, h + [e])
  {
    hide EventOk, LogSize, RecordsOf;
    FlattenSnoc(h, e);
    assert forall x <- h + [e] :: x in h || x == e;
    forall i, j | 0 <= i < j < |h + [e]| && (h + [e])[i].Batch? && !(h + [e])[i].finished && (h + [e])[j].Batch?
      ensures (h + [e])[i].seqNo < (h + [e])[j].seqNo
    {
      assert h[i] in h;
    }
  }

  // ----- every step keeps the invariant

  /** One more event, written where it belongs, keeps the invariant. */
  lemma EventKeeps(c: Config, w: World, e: Event, s: Store, batches: seq<PendingBatch>, pad: nat)
    requires HistoryOk(c, w.history) && w.up && EventOk(e)
    requires e.Batch? ==> e.finished && NumbersAbove(w.history, e.seqNo)
    requires Consistent(c, s, Flatten(w.history) + RecordsOf(e), pad)
    requires LogSize(Flatten(w.history) + RecordsOf(e)) <= c.fileLimit
    requires NumbersAbove(w.history, s.seqNo + 1)
    requires forall batch <- batches :: BatchOk(w.history, batch)
    ensures Inv(c, w.(store := s, batches := batches, history := w.history + [e]))
  {
    hide Flatten, EventOk, LogSize, HistoryOk, NumbersAbove, RecordsOf, Consistent, DiskOk, Effect, EffectOf, WriteOk, EncodeLog;
    var h' := w.history + [e];
    FlattenSnoc(w.history, e);
    HistoryGrows(c, w.history, e);
    OrphansSame(w.history, e, s.seqNo + 1);
    forall batch <- batches
      ensures BatchOk(h', batch)
    {
      OrphansSame(w.history, e, batch.seqNo);
    }
    assert LiveOk(c, w.(store := s, batches := batches, history := h')) by {
      assert Consistent(c, s, Flatten(h'), pad);
    }
  }

  lemma PlainStepKeeps(c: Config, w: World, write: LogRecord, s: Store)
    requires Inv(c, w) && w.up && EventOk(Plain(write))
    requires FitsLimit(c, w.store, [Tag(write, NON_TRANSACTION_SEQ_NO)])
    requires s == if write.kind == DELETED then Remove(c, w.store, write.key) else Put(c, w.store, write.key, write.value)
    requires write.kind == DELETED ==> write.value == [] && write.key in w.store.indexed.index
    ensures Inv(c, w.(store := s, history := w.history + [Plain(write)]))
  {
    hide Flatten, EncodeLog, RecordSize, Unambiguous, EventsOk, OrphansBelow, Replay;
    var log := Flatten(w.history);
    var pad :| Consistent(c, w.store, log, pad);
    var r := Tag(write, NON_TRANSACTION_SEQ_NO);
    if write.kind == DELETED {
      RemoveRecoveredIff(c, w.store, log, pad, write.key);
    } else {
      PutRecoveredIff(c, w.store, log, pad, write.key, write.value);
    }
    SingleSize(r);
    LogSizeConcat(log, [r]);
    EventKeeps(c, w, Plain(write), s, w.batches, PadLeft(pad, RecordSize(r)));
  }

  lemma OrphansSame(h: History, e: Event, seqNo: nat)
    requires NumbersAbove(h, seqNo)
    requires e.Plain? || e.finished
    ensures NumbersAbove(h + [e], seqNo)
  {
    assert forall x <- h + [e] :: x in h || x == e;
  }

  lemma CommitStepKeeps(c: Config, w: World, b: nat)
    requires Inv(c, w) && w.up && b < |w.batches| && w.batches[b].pending != []
    requires StepOk(c, w, CommitStep(b))
    ensures Inv(c, Next(c, w, CommitStep(b)))
  {
    hide Flatten, LogSize, HistoryOk, Replay, Commit, FitsLimit, Consistent, NumbersAbove, CommitRecords, WriteOk, RecordsOf;
    var log := Flatten(w.history);
    var pad :| Consistent(c, w.store, log, pad);
    var batch := w.batches[b];
    assert batch in w.batches && BatchOk(w.history, batch);
    var records := CommitRecords(batch.pending, batch.seqNo);
    BatchRecords(batch.pending, batch.seqNo);
    WriteOffIs(c, w.store, log, pad);
    LogSizeConcat(log, records);
    FitsMeans(c, w.store, records);
    CommitMatches(c, w, log, pad, batch);
    CommitSeqNo(c, w.store, batch.seqNo, batch.pending);
    NumbersHigher(w.history, batch.seqNo, batch.seqNo + 2);
    var batches := w.batches[b := batch.(pending := [])];
    forall other <- batches
      ensures BatchOk(w.history, other)
    {
      assert other in w.batches || other == batch.(pending := []);
    }
    EventKeeps(c, w, Batch(batch.seqNo, batch.pending, true), Commit(c, w.store, batch.seqNo, batch.pending), batches,
               PadLeft(pad, LogSize(records)));
  }

  lemma CommitMatches(c: Config, w: World, log: Log, pad: nat, batch: PendingBatch)
    requires HistoryOk(c, w.history) && log == Flatten(w.history) && Consistent(c, w.store, log, pad)
    requires BatchOk(w.history, batch) && batch.pending != []
    requires FitsLimit(c, w.store, CommitRecords(batch.pending, batch.seqNo))
    ensures Consistent(c, Commit(c, w.store, batch.seqNo, batch.pending),
                       log + CommitRecords(batch.pending, batch.seqNo),
                       PadLeft(pad, LogSize(CommitRecords(batch.pending, batch.seqNo))))
    ensures EventOk(Batch(batch.seqNo, batch.pending, true))
  {
    hide Flatten, LogSize, EventsOk, OrphansBelow, Replay, Commit, FitsLimit, Consistent, NumbersAbove, CommitRecords;
    NumberNotWaiting(w.history, batch.seqNo);
    CommitConsistent(c, w.store, log, pad, batch.seqNo, batch.pending);
  }

  lemma WriteOffIs(c: Config, s: Store, log: Log, pad: nat)
    requires Consistent(c, s, log, pad)
    ensures s.writeOff == LogSize(log)
  {
  }

  lemma BatchRecords(pending: Log, seqNo: nat)
    ensures RecordsOf(Batch(seqNo, pending, true)) == CommitRecords(pending, seqNo)
  {
  }

  lemma NumbersHigher(h: History, seqNo: nat, higher: nat)
    requires NumbersAbove(h, seqNo) && seqNo <= higher
    ensures NumbersAbove(h, higher)
  {
  }

  lemma FitsMeans(c: Config, s: Store, records: Log)
    requires FitsLimit(c, s, records)
    ensures s.writeOff + LogSize(records) <= c.fileLimit
  {
  }

  lemma CommitSeqNo(c: Config, s: Store, seqNo: nat, pending: Log)
    requires pending != []
    ensures Commit(c, s, seqNo, pending).seqNo == (seqNo + 1) % UINT64_LIMIT
  {
    hide Append, AppendAll, AppendPositions, UpdateAll;
  }

  lemma PlainHistoryFlattens(m: Log)
    requires forall r <- m :: EventOk(Plain(r))
    ensures EventsOk(PlainHistory(m)) && OrphansBelow(PlainHistory(m))
    ensures Flatten(PlainHistory(m)) == m
  {
    hide EventOk;
    var h := PlainHistory(m);
    forall e <- h
      ensures EventOk(e)
    {
      var i :| 0 <= i < |h| && h[i] == e;
      assert m[i] in m;
    }
    PlainHistoryLog(m);
  }

  lemma {:induction false} PlainHistoryLog(m: Log)
    ensures Flatten(PlainHistory(m)) == m
  {
    if m != [] {
      var n := |m| - 1;
      PlainHistoryLog(m[..n]);
      assert PlainHistory(m)[..n] == PlainHistory(m[..n]);
      assert Tag(m[n], NON_TRANSACTION_SEQ_NO) == m[n];
    }
  }

  lemma MergedEventsOk(h: History)
    requires EventsOk(h) && AllUnambiguous(ContentsOf(Flatten(h)))
    ensures forall r <- Merged(Flatten(h)) :: EventOk(Plain(r))
  {
    hide Flatten, ReadLog, EventsOk, ParseKey, WriteOk, Unambiguous;
    var log := Flatten(h);
    HistoryRecordsOk(h);
    LiveAreNormal(h);
    MergedHoldsLiveRecords(log);
    var live := ReadLog(log).live;
    var numbers := CurrentNumbers(log, live, |log|);
    forall r <- Merged(log)
      ensures EventOk(Plain(r))
    {
      var j :| 0 <= j < |numbers| && Merged(log)[j] == r;
      assert log[numbers[j]] in log;
      assert r.kind == NORMAL;
    }
  }

  lemma MergeStepKeeps(c: Config, w: World)
    requires Inv(c, w) && w.up && w.store.writeOff > 0 && StepOk(c, w, MergeStep)
    ensures Inv(c, Next(c, w, MergeStep))
    ensures Effect(Next(c, w, MergeStep).history) == Effect(w.history)
  {
    hide Flatten, EncodeLog, LogSize, EventsOk, Replay, Merge, Merged, Unambiguous, ContentsOf, Effect, ReadLog, WriteOk;
    var log := Flatten(w.history);
    var pad :| Consistent(c, w.store, log, pad);
    var m := Merged(log);
    OnlyOrphansWait(w.history);
    LiveAreNormal(w.history);
    EffectHasNoEmptyKey(w.history);
    EmptyLogSize(log);
    MergeConsistent(c, w.store, log, pad);
    MergePreservesIff(log);
    MergedEventsOk(w.history);
    PlainHistoryFlattens(m);
    OnlyOrphansWait(PlainHistory(m));
  }

  lemma CrashStepKeeps(c: Config, w: World, kept: nat, pad: nat)
    requires Inv(c, w) && StepOk(c, w, Crash(kept, pad))
    ensures Inv(c, Next(c, w, Crash(kept, pad)))
  {
    hide EncodeLog, LogSize, EventsOk, OrphansBelow, Replay, Flatten, Truncate, CutOf;
    var log := Flatten(w.history);
    if kept <= |log| {
      var pad0 :| w.store.content == EncodeLog(c.crc, log) + Zeros(pad0);
      EncodeLogLength(c.crc, log[..kept]);
      LogSizeConcat(log[..kept], log[kept..]);
      EncodeLogConcat(c.crc, log[..kept], log[kept..]);
      assert log == log[..kept] + log[kept..];
      TruncateCuts(w.history, kept);
      CutKeepsOrder(w.history, Truncate(w.history, kept));
    }
  }

  lemma ReopenStepKeeps(c: Config, w: World)
    requires Inv(c, w) && !w.up
    ensures Inv(c, Next(c, w, Reopen))
  {
    hide EncodeLog, LogSize, Replay, Flatten, EventOk, Scan;
    var log := Flatten(w.history);
    var pad :| pad != 5 && pad != 6 && w.store.content == EncodeLog(c.crc, log) + Zeros(pad);
    HistoryReadable(c.crc, w.history);
    RecoverLog(c, log, pad);
    var w' := Next(c, w, Reopen);
    assert Consistent(c, w'.store, log, pad);
    forall e <- w.history | e.Batch? && !e.finished
      ensures e.seqNo < w'.store.seqNo + 1
    {
      BatchNumberSeen(w.history, e);
    }
  }

  lemma BatchWriteKeeps(c: Config, w: World, b: nat, write: LogRecord)
    requires Inv(c, w) && (write.key != [] ==> WriteOk(write))
    ensures Inv(c, WithWrite(w, b, write))
  {
    hide Consistent, HistoryOk, WriteOk, NumbersAbove, Flatten;
    var w' := WithWrite(w, b, write);
    if w' != w {
      forall batch <- w'.batches
        ensures BatchOk(w'.history, batch)
      {
        if batch !in w.batches {
          assert w.batches[b] in w.batches;
          assert batch == w.batches[b].(pending := w.batches[b].pending + [write]);
        }
      }
    }
  }

  lemma NewBatchKeeps(c: Config, w: World)
    requires Inv(c, w) && StepOk(c, w, NewBatch)
    ensures Inv(c, Next(c, w, NewBatch))
  {
    hide Consistent, HistoryOk, WriteOk, Flatten;
  }

  /** Operations that have nothing to write leave the store exactly as it is. */
  lemma NothingToDo(c: Config, w: World)
    requires Inv(c, w) && w.up
    ensures forall value :: Put(c, w.store, [], value) == w.store
    ensures forall key | key == [] || key !in w.store.indexed.index :: Remove(c, w.store, key) == w.store
    ensures forall seqNo :: Commit(c, w.store, seqNo, []) == w.store
    ensures w.store.writeOff == 0 ==> Merge(c, w.store) == w.store
  {
  }

  lemma StepKeepsInv(c: Config, w: World, step: Step)
    requires Inv(c, w) && StepOk(c, w, step)
    ensures Inv(c, Next(c, w, step))
  {
    hide Inv, EventOk, WriteOk, Put, Remove, Commit, Merge, FitsLimit, Recover, WithWrite;
    if w.up {
      NothingToDo(c, w);
    }
    match step {
      case PutStep(key, value) =>
        if w.up && key != [] {
          PlainStepKeeps(c, w, LogRecord(key, value, NORMAL), Put(c, w.store, key, value));
        }
      case RemoveStep(key) =>
        if w.up && key != [] && key in w.store.indexed.index {
          PlainStepKeeps(c, w, LogRecord(key, [], DELETED), Remove(c, w.store, key));
        }
      case NewBatch => NewBatchKeeps(c, w);
      case BatchPut(b, key, value) => BatchWriteKeeps(c, w, b, LogRecord(key, value, NORMAL));
      case BatchRemove(b, key) => BatchWriteKeeps(c, w, b, LogRecord(key, [], DELETED));
      case CommitStep(b) =>
        if w.up && b < |w.batches| {
          if w.batches[b].pending != [] {
            CommitStepKeeps(c, w, b);
          } else {
            assert w.batches[b := w.batches[b].(pending := [])] == w.batches;
          }
        }
      case MergeStep =>
        if w.up && w.store.writeOff != 0 {
          MergeStepKeeps(c, w);
        }
      case Crash(kept, pad) => CrashStepKeeps(c, w, kept, pad);
      case Reopen =>
        if !w.up {
          ReopenStepKeeps(c, w);
        }
    }
  }

  // ----- whole runs

  function Run(c: Config, steps: seq<Step>): World {
    if steps == [] then Init(c) else Next(c, Run(c, steps[..|steps| - 1]), steps[|steps| - 1])
  }

  ghost predicate RunOk(c: Config, steps: seq<Step>) {
    forall n | 0 <= n < |steps| :: StepOk(c, Run(c, steps[..n]), steps[n])
  }

  lemma InitInv(c: Config)
    ensures Inv(c, Init(c))
  {
    RecoverNothing(c);
    assert EncodeLog(c.crc, []) + Zeros(0) == [];
    assert Consistent(c, EMPTY_STORE, [], 0);
  }

  lemma {:induction false} RunKeepsInv(c: Config, steps: seq<Step>)
    requires RunOk(c, steps)
    ensures Inv(c, Run(c, steps))
  {
    hide Inv, StepOk, Next, Init;
    if steps == [] {
      InitInv(c);
    } else {
      var n := |steps| - 1;
      assert forall i | 0 <= i < n :: steps[..n][..i] == steps[..i];
      RunKeepsInv(c, steps[..n]);
      StepKeepsInv(c, Run(c, steps[..n]), steps[n]);
    }
  }

  /** Crash atomicity over whole runs. After any run, recovery from the bytes on disk answers every
      key with what the plain writes and the whole batches of the history left, and so does the
      running database. */
  lemma RunsAreAtomic(c: Config, steps: seq<Step>, key: Bytes)
    requires RunOk(c, steps)
    ensures var w := Run(c, steps);
            && Get(c, Recover(c, w.store.content), key) == Lookup(Effect(w.history), key)
            && (w.up ==> Get(c, w.store, key) == Lookup(Effect(w.history), key))
  {
    hide Run, RunOk;
    RunKeepsInv(c, steps);
    InvAnswers(c, Run(c, steps), key);
  }

  lemma InvAnswers(c: Config, w: World, key: Bytes)
    requires Inv(c, w)
    ensures Get(c, Recover(c, w.store.content), key) == Lookup(Effect(w.history), key)
    ensures w.up ==> Get(c, w.store, key) == Lookup(Effect(w.history), key)
  {
    hide EncodeLog, LogSize, Replay, Flatten, EventOk, Scan, Get, Effect, ContentsOf;
    var log := Flatten(w.history);
    var pad :| w.store.content == EncodeLog(c.crc, log) + Zeros(pad);
    HistoryReadable(c.crc, w.history);
    OnlyOrphansWait(w.history);
    RecoverLog(c, log, pad);
    GetReadsContents(c, Recover(c, w.store.content), log, Zeros(pad), key);
    if w.up {
      GetReadsContents(c, w.store, log, Zeros(pad), key);
    }
  }

  /** What a step does to the contents: a put, a remove and a commit change the keys they name, merge,
      reopening and everything else change nothing, and a crash goes back to the contents after the
      events whose records the disk kept whole. */
  lemma StepChangesContents(c: Config, w: World, step: Step)
    requires Inv(c, w) && StepOk(c, w, step)
    ensures var m, m' := Effect(w.history), Effect(Next(c, w, step).history);
            match step
            case PutStep(key, value) => m' == if w.up && key != [] then m[key := value] else m
            case RemoveStep(key) => m' == if w.up then m - {key} else m
            case CommitStep(b) => m' == if w.up && b < |w.batches| then ApplyWrites(m, w.batches[b].pending) else m
            case Crash(kept, _) =>
              if kept > |Flatten(w.history)| then m' == m
              else exists j | 0 <= j <= |w.history| :: m' == Effect(w.history[..j]) && Kept(w.history, kept, j)
            case _ => m' == m
  {
    hide Inv, StepOk, Put, Remove, Commit, Merge, Recover, Truncate, Flatten, ApplyWrites;
    if w.up {
      NothingToDo(c, w);
    }
    match step
    case PutStep(key, value) =>
      EffectSnoc(w.history, Plain(LogRecord(key, value, NORMAL)));
    case RemoveStep(key) =>
      EffectSnoc(w.history, Plain(LogRecord(key, [], DELETED)));
      if w.up {
        RemovedKeyWasThere(c, w, key);
      }
    case CommitStep(b) =>
      if b < |w.batches| {
        EffectSnoc(w.history, Batch(w.batches[b].seqNo, w.batches[b].pending, true));
        NoWrites(Effect(w.history));
      }
    case MergeStep =>
      if w.up && w.store.writeOff > 0 {
        MergeStepKeeps(c, w);
      }
    case Crash(kept, pad) =>
      if kept <= |Flatten(w.history)| {
        ContentHoldsLog(c, w, kept);
        var j := CrashKeepsPrefix(w.history, kept);
      }
    case _ =>
  }

  /** The first `j` events are the ones whose records are all among the first `kept`. */
  ghost predicate Kept(h: History, kept: nat, j: nat)
    requires j <= |h|
  {
    |Flatten(h[..j])| <= kept && (j < |h| ==> kept < |Flatten(h[..j + 1])|)
  }

  /** The disk holds every record of the history, so a crash can keep any number of them. */
  lemma ContentHoldsLog(c: Config, w: World, kept: nat)
    requires Inv(c, w) && kept <= |Flatten(w.history)|
    ensures LogSize(Flatten(w.history)[..kept]) <= |w.store.content|
  {
    hide EncodeLog, LogSize, Flatten, HistoryOk, Replay;
    var log := Flatten(w.history);
    var pad :| w.store.content == EncodeLog(c.crc, log) + Zeros(pad);
    EncodeLogLength(c.crc, log);
    assert log[..|log|] == log;
    if kept < |log| {
      LogSizeMonotone(log, kept, |log|);
    }
  }

  lemma EffectSnoc(h: History, e: Event)
    ensures Effect(h + [e]) == EffectOf(Effect(h), e)
  {
    assert (h + [e])[..|h|] == h;
  }

  lemma NoWrites(m: Contents)
    ensures ApplyWrites(m, []) == m
  {
  }

  lemma RemovedKeyWasThere(c: Config, w: World, key: Bytes)
    requires Inv(c, w) && w.up
    ensures key in Effect(w.history) <==> key != [] && key in w.store.indexed.index
  {
    hide Flatten, EncodeLog, LogSize, EventsOk, Replay, ContentsOf, Effect, ReadLog;
    OnlyOrphansWait(w.history);
    ReplayIndex(Flatten(w.history));
    EffectHasNoEmptyKey(w.history);
  }

  lemma {:induction false} CrashKeepsPrefix(h: History, kept: nat) returns (j: nat)
    requires kept <= |Flatten(h)|
    ensures j <= |h| && Effect(Truncate(h, kept)) == Effect(h[..j]) && Kept(h, kept, j)
  {
    hide Truncate, Flatten, Effect;
    if kept == |Flatten(h)| {
      j := |h|;
      assert h[..j] == h;
      TruncateOnce(h, kept);
    } else {
      FlattenNothing();
      var n := |h| - 1;
      TruncateOnce(h, kept);
      if kept <= |Flatten(h[..n])| {
        j := CrashKeepsPrefix(h[..n], kept);
        assert h[..n][..j] == h[..j];
        assert if j < n then h[..n][..j + 1] == h[..j + 1] else h[..j + 1] == h;
      } else {
        j := n;
        assert h[..n + 1] == h;
      }
    }
  }

  lemma FlattenNothing()
    ensures Flatten([]) == []
  {
  }

  lemma TruncateOnce(h: History, kept: nat)
    requires kept <= |Flatten(h)|
    ensures kept == |Flatten(h)| ==> Truncate(h, kept) == h
    ensures kept < |Flatten(h)| ==>
              var before := h[..|h| - 1];
              if kept <= |Flatten(before)| then Truncate(h, kept) == Truncate(before, kept)
              else Effect(Truncate(h, kept)) == Effect(before)
  {
    hide TagKey, ApplyWrite, ApplyWrites;
    if kept < |Flatten(h)| && kept > |Flatten(h[..|h| - 1])| && h[|h| - 1].Batch? {
      var before, last := h[..|h| - 1], h[|h| - 1];
      EffectSnoc(before, Batch(last.seqNo, last.writes[..kept - |Flatten(before)|], false));
    }
  }

  /** While the database is up, its memory is what recovery would build from the disk: the same
      index, positions included, and the same number of reclaimable bytes. */
  lemma MemoryIsReplay(c: Config, steps: seq<Step>)
    requires RunOk(c, steps) && Run(c, steps).up
    ensures Recover(c, Run(c, steps).store.content).indexed == Run(c, steps).store.indexed
  {
    hide Run, RunOk, Recover, Consistent, HistoryOk;
    RunKeepsInv(c, steps);
    var w := Run(c, steps);
    var pad :| Consistent(c, w.store, Flatten(w.history), pad);
    ReopenRestores(c, w.store, Flatten(w.history), pad);
  }

  /** A crash during a commit is a commit of which the disk keeps only some records. Unless it keeps
      them all, marker included, the batch has no effect. */
  lemma CrashInCommitIsAtomic(c: Config, h: History, seqNo: nat, pending: Log, kept: nat)
    requires pending != []
    requires |Flatten(h)| <= kept <= |Flatten(h + [Batch(seqNo, pending, true)])|
    ensures Effect(Truncate(h + [Batch(seqNo, pending, true)], kept)) ==
            if kept == |Flatten(h + [Batch(seqNo, pending, true)])|
            then ApplyWrites(Effect(h), pending) else Effect(h)
  {
    hide ApplyWrites, TagKey;
    var e := Batch(seqNo, pending, true);
    var h' := h + [e];
    FlattenSnoc(h, e);
    assert h'[..|h'| - 1] == h;
    if kept < |Flatten(h')| && kept > |Flatten(h)| {
      FlattenSnoc(h, Batch(seqNo, pending[..kept - |Flatten(h)|], false));
    }
  }
}
