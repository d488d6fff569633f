/** What every operation of the engine does to its state, as functions of the state. The class in
    DB.dfy is proved to compute exactly these. */
module Engine {
  import opened ByteStrings
  import opened LogRecords
  import opened DataFiles
  import opened Keys
  import opened Logs
  import opened Recovery

  /** The checksum and the largest size a data file may reach. */
  datatype Config = Config(crc: Checksum, fileLimit: uint64)

  /** `rotated` says that the active file has been put among the older files at least once. */
  datatype Store = Store(content: Bytes, writeOff: nat, rotated: bool, indexed: Indexed, seqNo: nat)

  const EMPTY_STORE := Store([], 0, false, Indexed(map[], 0), NON_TRANSACTION_SEQ_NO)

  // ----- appending

  /** A record that would take the file past its limit makes the engine open a new active file.
      The new file gets the initial id again, so it is the same file, written from offset zero. */
  predicate Rotates(c: Config, s: Store, r: LogRecord) {
    s.writeOff + RecordSize(r) > c.fileLimit
  }

  function AppendOffset(c: Config, s: Store, r: LogRecord): nat {
    if Rotates(c, s, r) then 0 else s.writeOff
  }

  function Append(c: Config, s: Store, r: LogRecord): Store {
    var off := AppendOffset(c, s, r);
    s.(content := Overwrite(s.content, off, EncodeRecord(c.crc, r)),
       writeOff := off + RecordSize(r),
       rotated := s.rotated || Rotates(c, s, r))
  }

  function AppendPos(c: Config, s: Store, r: LogRecord): LogRecordPos {
    LogRecordPos(INITIAL_FILE_ID, AppendOffset(c, s, r), RecordSize(r) % UINT32_LIMIT)
  }

  function AppendAll(c: Config, s: Store, records: Log): (s': Store)
    ensures s'.indexed == s.indexed && s'.seqNo == s.seqNo
  {
    if records == [] then s
    else Append(c, AppendAll(c, s, records[..|records| - 1]), records[|records| - 1])
  }

  function AppendPositions(c: Config, s: Store, records: Log): (ps: seq<LogRecordPos>)
    ensures |ps| == |records|
  {
    if records == [] then []
    else
      var n := |records| - 1;
      AppendPositions(c, s, records[..n]) + [AppendPos(c, AppendAll(c, s, records[..n]), records[n])]
  }

  // ----- single operations

  function PlainRecord(key: Bytes, value: Bytes, kind: byte): LogRecord {
    LogRecord(TagKey(key, NON_TRANSACTION_SEQ_NO), value, kind)
  }

  function Put(c: Config, s: Store, key: Bytes, value: Bytes): Store {
    if key == [] then s
    else
      var r := PlainRecord(key, value, NORMAL);
      Append(c, s, r).(indexed := Update(s.indexed, key, NORMAL, AppendPos(c, s, r)))
  }

  function Remove(c: Config, s: Store, key: Bytes): Store {
    if key == [] || key !in s.indexed.index then s
    else
      var r := PlainRecord(key, [], DELETED);
      Append(c, s, r).(indexed := Update(s.indexed, key, DELETED, AppendPos(c, s, r)))
  }

  datatype GetResult =
    | Found(value: Bytes)
    | KeyEmpty
    | KeyNotFound
    | DataFileNotFound
    | ReadFailed(error: ReadResult)

  function Get(c: Config, s: Store, key: Bytes): GetResult {
    if key == [] then KeyEmpty
    else if key !in s.indexed.index then KeyNotFound
    else ReadAt(c, s.content, s.indexed.index[key])
  }

  function ReadAt(c: Config, content: Bytes, pos: LogRecordPos): GetResult {
    if pos.fid != INITIAL_FILE_ID then DataFileNotFound
    else
      match ReadRecord(c.crc, content, pos.offset)
      case Read(record, _) => if record.kind == DELETED then KeyNotFound else Found(record.value)
      case error => ReadFailed(error)
  }

  // ----- batches

  function Tag(r: LogRecord, seqNo: nat): LogRecord {
    r.(key := TagKey(r.key, seqNo))
  }

  function TagAll(records: Log, seqNo: nat): (tagged: Log)
    ensures |tagged| == |records|
    ensures forall i | 0 <= i < |records| :: tagged[i] == Tag(records[i], seqNo)
  {
    seq(|records|, i requires 0 <= i < |records| => Tag(records[i], seqNo))
  }

  function Marker(seqNo: nat): LogRecord {
    LogRecord(TagKey([], seqNo), [], TXN_FINISHED)
  }

  function Writes(pending: Log, positions: seq<LogRecordPos>): (ops: seq<Staged>)
    requires |positions| == |pending|
    ensures |ops| == |pending|
  {
    seq(|pending|, i requires 0 <= i < |pending| => Staged(pending[i].key, pending[i].kind, positions[i]))
  }

  function Commit(c: Config, s: Store, seqNo: nat, pending: Log): Store {
    if pending == [] then s
    else
      var tagged := TagAll(pending, seqNo);
      var written := Append(c, AppendAll(c, s, tagged), Marker(seqNo));
      var ops := Writes(pending, AppendPositions(c, s, tagged));
      written.(indexed := UpdateAll(s.indexed, ops), seqNo := (seqNo + 1) % UINT64_LIMIT)
  }

  // ----- opening

  function Recover(c: Config, content: Bytes): Store {
    var scan := Scan(c.crc, content, 0);
    var r := ReplayEntries(scan.entries);
    Store(content, scan.end, false, r.indexed, r.maxSeqNo)
  }

  lemma RecoverNothing(c: Config)
    ensures Recover(c, []) == EMPTY_STORE
  {
  }

  // ----- merge

  /** The index still points at this record. */
  predicate IsCurrent(index: Index, e: Entry) {
    var key := ParseKey(e.record.key).realKey;
    && key in index
    && index[key].fid == INITIAL_FILE_ID
    && index[key].offset == e.offset
    && e.record.kind != DELETED
  }

  function Untag(r: LogRecord): LogRecord {
    r.(key := TagKey(ParseKey(r.key).realKey, NON_TRANSACTION_SEQ_NO))
  }

  function MergedRecords(index: Index, entries: seq<Entry>): Log {
    if entries == [] then []
    else
      var n := |entries| - 1;
      var before := MergedRecords(index, entries[..n]);
      if IsCurrent(index, entries[n]) then before + [Untag(entries[n].record)] else before
  }

  function HintRecords(records: Log, positions: seq<LogRecordPos>): Log
    requires |positions| == |records|
  {
    seq(|records|, i requires 0 <= i < |records| => HintRecord(records[i].key, positions[i]))
  }

  /** The files merge reads: once the active file has been rotated, its id stands twice in the
      list of files. */
  function MergeSource(c: Config, s: Store): seq<Entry> {
    var entries := Scan(c.crc, s.content, 0).entries;
    if s.rotated then entries + entries else entries
  }

  function MergeLog(c: Config, s: Store): Log {
    MergedRecords(s.indexed.index, MergeSource(c, s))
  }

  function Merge(c: Config, s: Store): Store {
    if s.writeOff == 0 && !s.rotated then s
    else
      Reopen(c, AppendAll(c, EMPTY_STORE, MergeLog(c, s)).content, MergeHint(c, s), s.seqNo)
  }

  /** The merged file in place of the old one: the index comes from the hint file and is then rebuilt.
      A hint file that cannot be read leaves what was loaded so far, and nothing is rebuilt. */
  function Reopen(c: Config, content: Bytes, hint: Bytes, seqNo: nat): Store {
    match LoadHint(c.crc, hint, 0, map[])
    case Loaded(_) =>
      var r := Recover(c, content);
      r.(indexed := r.indexed.(reclaim := 0), seqNo := seqNo)
    case Failed(index) => Store(content, 0, false, Indexed(index, 0), seqNo)
  }

  function MergeHint(c: Config, s: Store): Bytes {
    var merged := MergeLog(c, s);
    EncodeLog(c.crc, HintRecords(merged, AppendPositions(c, EMPTY_STORE, merged)))
  }

  // ----- hint files

  datatype HintResult = Loaded(index: Index) | Failed(index: Index)

  /** Reads hint records up to the end of the file. Anything unreadable makes the load fail; what it
      has put into the index stays there. */
  function LoadHint(crc: Checksum, hint: Bytes, offset: nat, index: Index): HintResult
    decreases if offset < |hint| then |hint| - offset else 0
  {
    match ReadRecord(crc, hint, offset)
    case EndOfFile => Loaded(index)
    case Read(record, size) =>
      (match DecodePos(record.value)
       case Pos(pos) => LoadHint(crc, hint, offset + size, index[record.key := pos])
       case BadPos => Failed(index))
    case _ => Failed(index)
  }
}
