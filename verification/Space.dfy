/** Every byte of the log is accounted for: it belongs to a live record, has been counted as
    reclaimable, is a marker, or is a batch record that still waits for its marker. */
module Space {
  import opened ByteStrings
  import opened LogRecords
  import opened DataFiles
  import opened Keys
  import opened Logs
  import opened Recovery
  import opened Engine
  import opened Consistency
  import opened Histories
  import opened Runs

  // ----- sums over maps

  ghost function Total<K>(m: map<K, nat>): nat {
    if m == map[] then 0
    else
      var k :| k in m;
      m[k] + Total(m - {k})
  }

  lemma {:induction false} TotalRemove<K>(m: map<K, nat>, k: K)
    requires k in m
    ensures Total(m) == m[k] + Total(m - {k})
  {
    var first :| first in m && Total(m) == m[first] + Total(m - {first});
    if first != k {
      TotalRemove(m - {first}, k);
      TotalRemove(m - {k}, first);
      assert m - {first} - {k} == m - {k} - {first};
    }
  }

  lemma TotalAdd<K>(m: map<K, nat>, k: K, v: nat)
    requires k !in m
    ensures Total(m[k := v]) == Total(m) + v
  {
    TotalRemove(m[k := v], k);
    assert m[k := v] - {k} == m;
  }

  // ----- the parts of the account

  function Sizes(index: Index): map<Bytes, nat> {
    map k <- index :: index[k].size
  }

  function OpsSize(ops: seq<Staged>): nat {
    if ops == [] then 0 else OpsSize(ops[..|ops| - 1]) + ops[|ops| - 1].pos.size
  }

  function StagedSizes(staging: Staging): map<nat, nat> {
    map q <- staging :: OpsSize(staging[q])
  }

  ghost function LiveBytes(x: Indexed): nat {
    Total(Sizes(x.index))
  }

  ghost function WaitingBytes(staging: Staging): nat {
    Total(StagedSizes(staging))
  }

  predicate IsMarker(r: LogRecord) {
    r.kind == TXN_FINISHED && ParseKey(r.key).seqNo != NON_TRANSACTION_SEQ_NO
  }

  function MarkerBytes(log: Log): nat {
    if log == [] then 0
    else
      var n := |log| - 1;
      MarkerBytes(log[..n]) + if IsMarker(log[n]) then RecordSize(log[n]) else 0
  }

  // ----- updates move bytes, they lose none

  /** An update adds the bytes of its record: to the live ones, or to the reclaimable ones. */
  lemma UpdateBalance(x: Indexed, key: Bytes, kind: byte, pos: LogRecordPos)
    ensures LiveBytes(Update(x, key, kind, pos)) + Update(x, key, kind, pos).reclaim
         == LiveBytes(x) + x.reclaim + pos.size
  {
    var sizes := Sizes(x.index);
    var without := sizes - {key};
    if key in x.index {
      TotalRemove(sizes, key);
    } else {
      assert without == sizes;
    }
    if kind == DELETED {
      assert Sizes(x.index - {key}) == without;
    } else {
      assert Sizes(x.index[key := pos]) == without[key := pos.size];
      TotalAdd(without, key, pos.size);
    }
  }

  lemma {:induction false} UpdateAllBalance(x: Indexed, ops: seq<Staged>)
    ensures LiveBytes(UpdateAll(x, ops)) + UpdateAll(x, ops).reclaim == LiveBytes(x) + x.reclaim + OpsSize(ops)
  {
    hide Update, LiveBytes;
    if ops != [] {
      var n := |ops| - 1;
      UpdateAllBalance(x, ops[..n]);
      UpdateBalance(UpdateAll(x, ops[..n]), ops[n].key, ops[n].kind, ops[n].pos);
    }
  }

  lemma StagingBalance(staging: Staging, q: nat)
    ensures WaitingBytes(staging) == WaitingBytes(staging - {q}) + OpsSize(StagedAt(staging, q))
    ensures forall op: Staged ::
      WaitingBytes(staging[q := StagedAt(staging, q) + [op]]) == WaitingBytes(staging) + op.pos.size
  {
    var sizes := StagedSizes(staging);
    assert StagedSizes(staging - {q}) == sizes - {q};
    if q in staging {
      TotalRemove(sizes, q);
    } else {
      assert sizes - {q} == sizes;
    }
    forall op: Staged
      ensures WaitingBytes(staging[q := StagedAt(staging, q) + [op]]) == WaitingBytes(staging) + op.pos.size
    {
      var ops := StagedAt(staging, q) + [op];
      assert ops[..|ops| - 1] == StagedAt(staging, q);
      assert StagedSizes(staging[q := ops]) == (sizes - {q})[q := OpsSize(ops)];
      TotalAdd(sizes - {q}, q, OpsSize(ops));
    }
  }

  ghost function Accounted(s: Recovered): int {
    LiveBytes(s.indexed) + s.indexed.reclaim + WaitingBytes(s.staging)
  }

  lemma ReplayEntryBalance(s: Recovered, e: Entry)
    requires e.size < UINT32_LIMIT
    ensures Accounted(ReplayEntry(s, e)) == Accounted(s) + if IsMarker(e.record) then 0 else e.size
  {
    hide Update, UpdateAll, LiveBytes, WaitingBytes, ParseKey;
    var p := ParseKey(e.record.key);
    UpdateBalance(s.indexed, p.realKey, e.record.kind, EntryPos(e));
    UpdateAllBalance(s.indexed, StagedAt(s.staging, p.seqNo));
    StagingBalance(s.staging, p.seqNo);
  }

  /** For every log whatsoever. */
  lemma {:induction false} EveryByteIsAccounted(log: Log)
    requires forall r <- log :: RecordSize(r) < UINT32_LIMIT
    ensures LogSize(log) == Accounted(Replay(log)) + MarkerBytes(log)
  {
    hide Accounted, RecordSize, IsMarker;
    if log == [] {
      assert Accounted(NOTHING) == 0 by { NothingAccounted(); }
      assert Replay(log) == NOTHING;
    } else {
      var n := |log| - 1;
      EveryByteIsAccounted(log[..n]);
      assert log == log[..n] + [log[n]];
      ReplaySnoc(log[..n], log[n]);
      assert log[n] in log;
      ReplayEntryBalance(Replay(log[..n]), Entry(log[n], LogSize(log[..n]), RecordSize(log[n])));
    }
  }

  lemma NothingAccounted()
    ensures Accounted(NOTHING) == 0
  {
    assert Sizes(map[]) == map[] && StagedSizes(map[]) == map[];
  }

  lemma ReadableSize(crc: Checksum, r: LogRecord)
    requires Readable(crc, r)
    ensures RecordSize(r) < UINT32_LIMIT
  {
    HeaderFitsWindow(r);
  }

  /** While the database is up, its write offset is the bytes of the live records, plus what it
      reports as reclaimable, plus the markers and the batch records without a marker. */
  lemma SpaceIsConserved(c: Config, steps: seq<Step>)
    requires RunOk(c, steps) && Run(c, steps).up
    ensures var w := Run(c, steps);
            var log := Flatten(w.history);
            w.store.writeOff == LiveBytes(w.store.indexed) + w.store.indexed.reclaim
                                + MarkerBytes(log) + WaitingBytes(Replay(log).staging)
  {
    hide Run, RunOk, Flatten, RecordSize, Readable, MarkerBytes, HistoryOk, LiveBytes, WaitingBytes;
    RunKeepsInv(c, steps);
    var w := Run(c, steps);
    var log := Flatten(w.history);
    var pad :| Consistent(c, w.store, log, pad);
    forall r <- log
      ensures RecordSize(r) < UINT32_LIMIT
    {
      ReadableSize(c.crc, r);
    }
    EveryByteIsAccounted(log);
  }
}
