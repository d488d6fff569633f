/** Merge of any store, also of one whose file has been started over by rotation: what is copied, how
    often, and which answers survive. */
module MergedStores {
  import opened ByteStrings
  import opened LogRecords
  import opened DataFiles
  import opened Keys
  import opened Logs
  import opened Recovery
  import opened Engine
  import opened Readings
  import opened Consistency
  import opened Merging
  import opened Meanings

  /** The index has an entry for the key of this record, and it is the place of this record. */
  predicate PointedAt(index: Index, e: Entry) {
    RealKey(e.record) in index && index[RealKey(e.record)].fid == 0 && index[RealKey(e.record)].offset == e.offset
  }

  predicate Copied(index: Index, e: Entry) {
    PointedAt(index, e) && e.record.kind != DELETED
  }

  function Entered(s: Store, c: Config): seq<Entry> {
    Scan(c.crc, s.content, 0).entries
  }

  /** `m` consists of the untagged records at the numbers in `numbers`, which are in order and are those
      of all copied entries. */
  ghost predicate CopiesOf(index: Index, entries: seq<Entry>, m: Log, numbers: seq<nat>) {
    && |numbers| == |m|
    && (forall i, j | 0 <= i < j < |numbers| :: numbers[i] < numbers[j])
    && (forall j | 0 <= j < |m| :: numbers[j] < |entries| && m[j] == Untag(entries[numbers[j]].record))
    && (forall i | 0 <= i < |entries| :: Copied(index, entries[i]) <==> i in numbers)
  }

  lemma {:induction false} MergedRecordsAre(index: Index, entries: seq<Entry>) returns (numbers: seq<nat>)
    ensures CopiesOf(index, entries, MergedRecords(index, entries), numbers)
  {
    hide CopiesOf, Copied, IsCurrent, Untag;
    if entries == [] {
      numbers := [];
      NoCopies(index);
    } else {
      var n := |entries| - 1;
      var before := MergedRecordsAre(index, entries[..n]);
      CurrentIsCopied(index, entries[n]);
      numbers := if Copied(index, entries[n]) then before + [n] else before;
      OneMoreEntry(index, entries, MergedRecords(index, entries[..n]), before);
    }
  }

  lemma NoCopies(index: Index)
    ensures CopiesOf(index, [], [], [])
  {
  }

  lemma CurrentIsCopied(index: Index, e: Entry)
    ensures IsCurrent(index, e) <==> Copied(index, e)
  {
    hide ParseKey;
  }

  lemma OneMoreEntry(index: Index, entries: seq<Entry>, m: Log, numbers: seq<nat>)
    requires entries != [] && CopiesOf(index, entries[..|entries| - 1], m, numbers)
    ensures var e := entries[|entries| - 1];
            if Copied(index, e) then CopiesOf(index, entries, m + [Untag(e.record)], numbers + [|entries| - 1])
            else CopiesOf(index, entries, m, numbers)
  {
    hide Copied, Untag;
    var n := |entries| - 1;
    var before := entries[..n];
    forall j | 0 <= j < |numbers| ensures numbers[j] < n {
      assert m[j] == Untag(before[numbers[j]].record);
    }
    forall i | 0 <= i < n ensures Copied(index, entries[i]) <==> i in numbers {
      assert before[i] == entries[i];
    }
  }

  lemma {:induction false} MergedTwice(index: Index, first: seq<Entry>, second: seq<Entry>)
    ensures MergedRecords(index, first + second) == MergedRecords(index, first) + MergedRecords(index, second)
    decreases |second|
  {
    hide IsCurrent, Untag;
    var both := first + second;
    if second == [] {
      assert both == first && MergedRecords(index, second) == [];
    } else {
      var n := |second| - 1;
      assert both[..|both| - 1] == first + second[..n] && both[|both| - 1] == second[n];
      MergedTwice(index, first, second[..n]);
    }
  }

  /** What merge copies, from any store: the records that the index points at and that are no deletions,
      untagged and in the order of the file, and nothing else. After a rotation it copies them twice. */
  lemma MergeCopies(c: Config, s: Store) returns (once: Log, numbers: seq<nat>)
    ensures CopiesOf(s.indexed.index, Entered(s, c), once, numbers)
    ensures MergeLog(c, s) == if s.rotated then once + once else once
  {
    hide Scan, CopiesOf, MergedRecords;
    var entries := Entered(s, c);
    numbers := MergedRecordsAre(s.indexed.index, entries);
    once := MergedRecords(s.indexed.index, entries);
    MergedTwice(s.indexed.index, entries, entries);
  }

  lemma CopiedIff(c: Config, s: Store, r: LogRecord)
    ensures r in MergeLog(c, s) <==> exists e <- Entered(s, c) :: Copied(s.indexed.index, e) && r == Untag(e.record)
  {
    hide Scan, MergeLog, Untag, Copied, ParseKey;
    var entries := Entered(s, c);
    var once, numbers := MergeCopies(c, s);
    if r in MergeLog(c, s) {
      var j :| 0 <= j < |once| && once[j] == r;
      assert numbers[j] in numbers && entries[numbers[j]] in entries;
    }
    if e :| e in entries && Copied(s.indexed.index, e) && r == Untag(e.record) {
      var i :| 0 <= i < |entries| && entries[i] == e;
      assert i in numbers;
      var j :| 0 <= j < |numbers| && numbers[j] == i;
      assert once[j] == r;
    }
  }

  // ----- what a scan reads

  lemma ReadFits(crc: Checksum, content: Bytes, offset: nat)
    ensures var r := ReadRecord(crc, content, offset);
            r.Read? ==> |r.record.key| <= MAX_RECORD_SIZE && |r.record.value| <= MAX_RECORD_SIZE
  {
    hide DecodeHeader, RecordBody;
  }

  lemma {:induction false} ScannedIsRead(crc: Checksum, content: Bytes, offset: nat)
    ensures forall e <- Scan(crc, content, offset).entries :: ReadRecord(crc, content, e.offset) == Read(e.record, e.size)
    decreases if offset < |content| then |content| - offset else 0
  {
    hide ReadRecord;
    match ReadRecord(crc, content, offset)
    case EndOfFile =>
    case Read(_, size) => ScannedIsRead(crc, content, offset + size);
    case _ => ScannedIsRead(crc, content, offset + 1);
  }

  // ----- what the merged log means

  lemma {:induction false} NormalLogMeans(m: Log, key: Bytes, value: Bytes)
    requires (forall r <- m :: r.kind == NORMAL) && Unambiguous(key)
    requires forall r <- m | r.key == key :: r.value == value
    ensures key in MeaningOf(m).contents <==> exists r <- m :: r.key == key
    ensures key in MeaningOf(m).contents ==> MeaningOf(m).contents[key] == value
  {
    if m != [] {
      hide ParseKey, Unambiguous, MeaningOf, MeanRecord;
      var n := |m| - 1;
      assert m[n] in m && forall r <- m[..n] :: r in m;
      NormalLogMeans(m[..n], key, value);
      assert m == m[..n] + [m[n]];
      MeaningSnoc(m[..n], m[n]);
      NormalRecordMeans(MeaningOf(m[..n]), m[n]);
      assert forall r <- m :: r in m[..n] || r == m[n];
      if m[n].key != key && key in MeaningOf(m).contents {
        var r :| r in m[..n] && r.key == key;
        assert r in m;
      }
    }
  }

  lemma NormalRecordMeans(m: Meaning, r: LogRecord)
    requires r.kind == NORMAL
    ensures MeanRecord(m, r).contents == if Unambiguous(r.key) then m.contents[r.key := r.value] else m.contents
  {
    hide ParseKey, Unambiguous;
    PlainKeyIff(r.key);
  }

  // ----- which answers survive

  /** Every copied record is a put, no key is the empty one, and all copies fit into one file. */
  ghost predicate Mergeable(c: Config, s: Store) {
    && [] !in s.indexed.index
    && (forall e <- Entered(s, c) | Copied(s.indexed.index, e) :: e.record.kind == NORMAL)
    && LogSize(MergeLog(c, s)) <= c.fileLimit
  }

  lemma MergeLogReadable(c: Config, s: Store)
    requires Mergeable(c, s)
    ensures AllReadable(c.crc, MergeLog(c, s))
    ensures forall r <- MergeLog(c, s) :: r.kind == NORMAL
  {
    hide Scan, MergeLog, ParseKey, ReadRecord, RecordBody, LogSize;
    ScannedIsRead(c.crc, s.content, 0);
    forall r <- MergeLog(c, s)
      ensures Readable(c.crc, r) && r.kind == NORMAL
    {
      CopiedIff(c, s, r);
      var e :| e in Entered(s, c) && Copied(s.indexed.index, e) && r == Untag(e.record);
      ReadFits(c.crc, s.content, e.offset);
      UntagShortens(e.record);
    }
  }

  lemma MergeReopens(c: Config, s: Store)
    requires Mergeable(c, s) && (s.writeOff != 0 || s.rotated)
    ensures var m := MergeLog(c, s);
            && AllReadable(c.crc, m)
            && Merge(c, s).content == EncodeLog(c.crc, m)
            && Merge(c, s).indexed.index == Replay(m).indexed.index
  {
    hide Scan, MergeLog, EncodeLog, Recover, LoadHint, Replay, LogSize, AppendAll, HintRecords, PlacesAfter, Readable;
    var m := MergeLog(c, s);
    MergeLogReadable(c, s);
    AppendToEmpty(c, m);
    HintsLoad(c.crc, m);
    RecoverLog(c, m, 0);
    assert EncodeLog(c.crc, m) + Zeros(0) == EncodeLog(c.crc, m);
  }

  /** Through the merge of a mergeable store, rotated or not, an unambiguous key whose entry points at a
      record that the scan meets keeps its answer, and any other has none. */
  lemma MergeAnswers(c: Config, s: Store, key: Bytes)
    requires Mergeable(c, s) && (s.writeOff != 0 || s.rotated)
    requires key != [] && Unambiguous(key)
    ensures if exists e <- Entered(s, c) :: Copied(s.indexed.index, e) && RealKey(e.record) == key
            then Get(c, Merge(c, s), key) == Get(c, s, key) && Get(c, s, key).Found?
            else Get(c, Merge(c, s), key) == KeyNotFound
  {
    hide Scan, MergeLog, EncodeLog, Replay, ParseKey, Unambiguous, ReadRecord, Merge, ContentsOf, MeaningOf, Mergeable, AllReadable;
    var m := MergeLog(c, s);
    MergeReopens(c, s);
    MergeLogReadable(c, s);
    ScannedIsRead(c.crc, s.content, 0);
    var value := if Get(c, s, key).Found? then Get(c, s, key).value else [];
    forall r <- m | r.key == key
      ensures r.value == value && Get(c, s, key).Found?
      ensures exists e <- Entered(s, c) :: Copied(s.indexed.index, e) && RealKey(e.record) == key
    {
      CopiedIff(c, s, r);
    }
    forall e <- Entered(s, c) | Copied(s.indexed.index, e) && RealKey(e.record) == key
      ensures exists r <- m :: r.key == key
    {
      CopiedIff(c, s, Untag(e.record));
      assert Untag(e.record).key == key;
    }
    NormalLogMeans(m, key, value);
    ReadingMeans(m);
    assert EncodeLog(c.crc, m) + [] == EncodeLog(c.crc, m);
    GetReadsContents(c, Merge(c, s), m, [], key);
  }
}
