/** Appending to and reading from any store, whatever its file holds: also after a rotation has started
    the file over. */
module AnyStores {
  import opened ByteStrings
  import opened LogRecords
  import opened DataFiles
  import opened Keys
  import opened Recovery
  import opened Engine

  // ----- bytes

  /** Writing puts the data at its offset, leaves every other byte, and fills a gap with zeros. */
  lemma OverwriteBytes(content: Bytes, offset: nat, data: Bytes)
    ensures var written, end := Overwrite(content, offset, data), offset + |data|;
            && |written| == (if |content| < end then end else |content|)
            && written[offset..end] == data
            && forall i | 0 <= i < |written| && !(offset <= i < end) ::
                 written[i] == if i < |content| then content[i] else 0
  {
  }

  // ----- records that stand in a file

  ghost predicate Stands(crc: Checksum, content: Bytes, place: nat, r: LogRecord) {
    place + RecordSize(r) <= |content| && content[place..place + RecordSize(r)] == EncodeRecord(crc, r)
  }

  lemma StandingIsRead(crc: Checksum, content: Bytes, place: nat, r: LogRecord)
    requires Stands(crc, content, place, r) && Readable(crc, r)
    ensures ReadRecord(crc, content, place) == Read(r, RecordSize(r))
  {
    hide ReadRecord, EncodeRecord, RecordSize;
    var before, rest := content[..place], content[place + RecordSize(r)..];
    assert content == before + EncodeRecord(crc, r) + rest;
    ReadBackIff(crc, before, r, rest);
  }

  /** The place of the next record: where the file ends so far, or its start when the record would take
      the file past the limit. */
  function PlaceOfNext(c: Config, s: Store, r: LogRecord): nat {
    if s.writeOff + |EncodeRecord(c.crc, r)| <= c.fileLimit then s.writeOff else 0
  }

  /** An append to any store writes the record at that place and leaves every byte before and behind it,
      also when it starts the file over. */
  lemma AppendWritesRecord(c: Config, s: Store, r: LogRecord)
    ensures var place, s', size := PlaceOfNext(c, s, r), Append(c, s, r), |EncodeRecord(c.crc, r)|;
            && s' == s.(content := s'.content, writeOff := place + size,
                        rotated := s.rotated || s.writeOff + size > c.fileLimit)
            && Stands(c.crc, s'.content, place, r)
            && |s'.content| == (if |s.content| < place + size then place + size else |s.content|)
            && (forall i | 0 <= i < |s'.content| && !(place <= i < place + size) ::
                 s'.content[i] == if i < |s.content| then s.content[i] else 0)
            && AppendPos(c, s, r) == LogRecordPos(0, place, size % UINT32_LIMIT)
  {
    hide EncodeRecord, RecordSize, Overwrite;
    RecordSizeIsLength(c.crc, r);
    OverwriteBytes(s.content, PlaceOfNext(c, s, r), EncodeRecord(c.crc, r));
  }

  /** So a record that the new one does not overlap stands as before. */
  lemma OthersStand(c: Config, s: Store, r: LogRecord, place: nat, other: LogRecord)
    requires Stands(c.crc, s.content, place, other)
    requires place + RecordSize(other) <= PlaceOfNext(c, s, r) || PlaceOfNext(c, s, r) + RecordSize(r) <= place
    ensures Stands(c.crc, Append(c, s, r).content, place, other)
  {
    hide EncodeRecord, RecordSize, Append;
    RecordSizeIsLength(c.crc, r);
    AppendWritesRecord(c, s, r);
    var content := Append(c, s, r).content;
    var end := place + RecordSize(other);
    assert forall i | place <= i < end :: content[i] == s.content[i];
    assert content[place..end] == s.content[place..end];
  }

  // ----- answers

  /** What get answers when the entry of the key leads to a record, to another file, or to a damaged place. */
  lemma GetThroughEntry(c: Config, s: Store, key: Bytes, r: LogRecord)
    requires key != [] && key in s.indexed.index
    ensures var pos := s.indexed.index[key];
            && (pos.fid != 0 ==> Get(c, s, key) == DataFileNotFound)
            && (pos.fid == 0 && !ReadRecord(c.crc, s.content, pos.offset).Read?
                ==> Get(c, s, key) == ReadFailed(ReadRecord(c.crc, s.content, pos.offset)))
            && (pos.fid == 0 && Stands(c.crc, s.content, pos.offset, r) && Readable(c.crc, r)
                ==> Get(c, s, key) == if r.kind == DELETED then KeyNotFound else Found(r.value))
  {
    hide ReadRecord, EncodeRecord, Readable;
    var pos := s.indexed.index[key];
    if Stands(c.crc, s.content, pos.offset, r) && Readable(c.crc, r) {
      StandingIsRead(c.crc, s.content, pos.offset, r);
    }
  }

  /** A put into any store is read back. A key whose record it does not overlap keeps its answer. */
  lemma PutAnswers(c: Config, s: Store, key: Bytes, value: Bytes, other: Bytes, r: LogRecord)
    requires key != [] && |key| <= MAX_RECORD_SIZE && |value| <= MAX_RECORD_SIZE
    ensures Get(c, Put(c, s, key, value), key) == Found(value)
    ensures var put := PlainRecord(key, value, NORMAL);
            other != key && other != [] && other in s.indexed.index
            && s.indexed.index[other].fid == 0
            && Stands(c.crc, s.content, s.indexed.index[other].offset, r) && Readable(c.crc, r)
            && (s.indexed.index[other].offset + RecordSize(r) <= PlaceOfNext(c, s, put)
                || PlaceOfNext(c, s, put) + RecordSize(put) <= s.indexed.index[other].offset)
            ==> Get(c, Put(c, s, key, value), other) == Get(c, s, other)
  {
    hide Get, EncodeRecord, RecordSize, Append, Stands, PlaceOfNext, RecordBody;
    var put, s' := PlainRecord(key, value, NORMAL), Put(c, s, key, value);
    AppendWritesRecord(c, s, put);
    GetThroughEntry(c, s', key, put);
    if other != key && other != [] && other in s.indexed.index
       && s.indexed.index[other].fid == 0
       && Stands(c.crc, s.content, s.indexed.index[other].offset, r) && Readable(c.crc, r)
       && (s.indexed.index[other].offset + RecordSize(r) <= PlaceOfNext(c, s, put)
           || PlaceOfNext(c, s, put) + RecordSize(put) <= s.indexed.index[other].offset)
    {
      OthersStand(c, s, put, s.indexed.index[other].offset, r);
      GetThroughEntry(c, s, other, r);
      GetThroughEntry(c, s', other, r);
    }
  }

  /** A remove from any store leaves no answer for the key, takes no other entry out of the index, and
      writes a deletion that stands where the next record belongs. */
  lemma RemoveAnswers(c: Config, s: Store, key: Bytes)
    requires key != [] && key in s.indexed.index
    ensures var deletion, s' := PlainRecord(key, [], DELETED), Remove(c, s, key);
            && Get(c, s', key) == KeyNotFound
            && s'.indexed.index == s.indexed.index - {key}
            && Stands(c.crc, s'.content, PlaceOfNext(c, s, deletion), deletion)
  {
    hide EncodeRecord, RecordSize, Append, Stands, PlaceOfNext, RecordBody;
    AppendWritesRecord(c, s, PlainRecord(key, [], DELETED));
  }

  /** Appending two lists of records is appending one after the other, on any store. */
  lemma {:induction false} AppendAllTwice(c: Config, s: Store, first: seq<LogRecord>, second: seq<LogRecord>)
    ensures AppendAll(c, s, first + second) == AppendAll(c, AppendAll(c, s, first), second)
    decreases |second|
  {
    hide Append;
    var both := first + second;
    if second == [] {
      assert both == first;
    } else {
      var n := |second| - 1;
      assert both[..|both| - 1] == first + second[..n] && both[|both| - 1] == second[n];
      AppendAllTwice(c, s, first, second[..n]);
    }
  }

  /** After a commit to any store the marker stands in the file, and a put that was the last write of the
      batch is read back, unless the marker has been written over it. */
  lemma CommitAnswers(c: Config, s: Store, seqNo: nat, pending: seq<LogRecord>, w: LogRecord)
    requires 0 < seqNo && w.key != [] && w.kind == NORMAL
    requires |w.key| + 8 <= MAX_RECORD_SIZE && |w.value| <= MAX_RECORD_SIZE
    ensures var before := AppendAll(c, s, TagAll(pending, seqNo));
            var written := Append(c, before, Tag(w, seqNo));
            var place, marker, s' := PlaceOfNext(c, before, Tag(w, seqNo)), PlaceOfNext(c, written, Marker(seqNo)),
                                     Commit(c, s, seqNo, pending + [w]);
            && Stands(c.crc, s'.content, marker, Marker(seqNo))
            && (place + RecordSize(Tag(w, seqNo)) <= marker || marker + RecordSize(Marker(seqNo)) <= place
                ==> Get(c, s', w.key) == Found(w.value))
  {
    hide Get, EncodeRecord, RecordSize, Append, AppendPos, Stands, PlaceOfNext, RecordBody, TagKey;
    var tagged, r := TagAll(pending, seqNo), Tag(w, seqNo);
    var before := AppendAll(c, s, tagged);
    var written, s' := Append(c, before, r), Commit(c, s, seqNo, pending + [w]);
    assert TagAll(pending + [w], seqNo) == tagged + [r];
    LastOfBatch(c, s, tagged, r);
    AppendWritesRecord(c, before, r);
    AppendWritesRecord(c, written, Marker(seqNo));
    LastIsIndexed(s.indexed, pending, w, AppendPositions(c, s, tagged), AppendPos(c, before, r));
    TagIsReadable(c, w, seqNo);
    if PlaceOfNext(c, before, r) + RecordSize(r) <= PlaceOfNext(c, written, Marker(seqNo))
       || PlaceOfNext(c, written, Marker(seqNo)) + RecordSize(Marker(seqNo)) <= PlaceOfNext(c, before, r) {
      OthersStand(c, written, Marker(seqNo), PlaceOfNext(c, before, r), r);
      GetThroughEntry(c, s', w.key, r);
    }
  }

  lemma LastOfBatch(c: Config, s: Store, tagged: seq<LogRecord>, r: LogRecord)
    ensures AppendAll(c, s, tagged + [r]) == Append(c, AppendAll(c, s, tagged), r)
    ensures AppendPositions(c, s, tagged + [r]) == AppendPositions(c, s, tagged) + [AppendPos(c, AppendAll(c, s, tagged), r)]
  {
    hide Append, AppendPos;
    assert (tagged + [r])[..|tagged|] == tagged;
  }

  lemma LastIsIndexed(x: Indexed, pending: seq<LogRecord>, w: LogRecord, places: seq<LogRecordPos>, place: LogRecordPos)
    requires |places| == |pending| && w.kind == NORMAL
    ensures var index := UpdateAll(x, Writes(pending + [w], places + [place])).index;
            w.key in index && index[w.key] == place
  {
    var ops := Writes(pending + [w], places + [place]);
    assert ops[|pending|] == Staged(w.key, w.kind, place);
  }

  lemma TagIsReadable(c: Config, w: LogRecord, seqNo: nat)
    requires 0 < seqNo && |w.key| + 8 <= MAX_RECORD_SIZE && |w.value| <= MAX_RECORD_SIZE
    ensures Readable(c.crc, Tag(w, seqNo)) && Tag(w, seqNo).kind == w.kind && Tag(w, seqNo).value == w.value
  {
    hide LittleEndian, RecordBody;
  }
}
