/** A data file: appending at the write offset, reading one record at an offset, and scanning
    a whole file the way recovery does. */
module DataFiles {
  import opened ByteStrings
  import opened LogRecords

  const MAX_RECORD_SIZE := 64 * 1024 * 1024

  datatype ReadResult =
    | Read(record: LogRecord, size: nat)
    | EndOfFile
    | Corrupt
    | InvalidCrc

  function Min(a: nat, b: nat): nat {
    if a < b then a else b
  }

  /** Reading with a length that may reach past the end of the file: what there is. */
  function Window(content: Bytes, offset: nat, n: nat): Bytes
    requires offset <= |content|
  {
    content[offset..Min(offset + n, |content|)]
  }

  /** The file after writing `data` at `offset`; a gap in front of it reads as zeros. */
  function Overwrite(content: Bytes, offset: nat, data: Bytes): Bytes {
    if offset > |content| then
      content + Zeros(offset - |content|) + data
    else if offset + |data| < |content| then
      content[..offset] + data + content[offset + |data|..]
    else
      content[..offset] + data
  }

  lemma OverwriteAtEnd(content: Bytes, data: Bytes)
    ensures Overwrite(content, |content|, data) == content + data
  {
  }

  /** Checksums for which a mismatch is reported. Any other mismatch is let through. */
  predicate SuspectChecksum(c: nat) {
    c == 0 || c == 0xDEADBEEF || c == 0x12345678
  }

  function ReadBody(crc: Checksum, content: Bytes, offset: nat, h: HeaderResult): ReadResult
    requires h.Header? && offset + h.size <= |content|
  {
    if h.keySize + h.valueSize > 0 && offset + h.size == |content| then
      EndOfFile
    else
      var kv := Window(content, offset + h.size, h.keySize + h.valueSize);
      CheckRecord(crc, h, LogRecord(kv[..Min(h.keySize, |kv|)], kv[Min(h.keySize, |kv|)..], h.kind))
  }

  /** The checksum is looked at only when key and value are complete. */
  function CheckRecord(crc: Checksum, h: HeaderResult, record: LogRecord): ReadResult
    requires h.Header?
  {
    if |record.key| == h.keySize && |record.value| == h.valueSize
       && crc(RecordBody(record)) != h.crc && SuspectChecksum(h.crc)
    then InvalidCrc
    else Read(record, h.size + h.keySize + h.valueSize)
  }

  /** What reading at `offset` gives, for any file content. */
  function ReadRecord(crc: Checksum, content: Bytes, offset: nat): (r: ReadResult)
    ensures !r.EndOfFile? ==> offset + 5 <= |content|
    ensures r.Read? ==> 7 <= r.size
  {
    if offset >= |content| || |content| - offset < 5 then
      EndOfFile
    else
      var h := DecodeHeader(Window(content, offset, MAX_LOG_RECORD_HEADER_SIZE));
      if h.BadHeader? then Corrupt
      else if h.crc == 0 && h.keySize == 0 && h.valueSize == 0 then EndOfFile
      else if h.keySize > MAX_RECORD_SIZE || h.valueSize > MAX_RECORD_SIZE then Corrupt
      else ReadBody(crc, content, offset, h)
  }

  class DataFile {
    var content: Bytes
    var writeOff: nat

    constructor (content: Bytes)
      ensures this.content == content && writeOff == 0
    {
      this.content, writeOff := content, 0;
    }

    method Write(data: Bytes)
      modifies this
      ensures content == Overwrite(old(content), old(writeOff), data)
      ensures writeOff == old(writeOff) + |data|
    {
      content := Overwrite(content, writeOff, data);
      writeOff := writeOff + |data|;
    }

    method SetWriteOff(offset: nat)
      modifies this`writeOff
      ensures writeOff == offset
    {
      writeOff := offset;
    }

    method ReadNBytes(n: nat, offset: nat) returns (eof: bool, buffer: Bytes)
      ensures eof <==> n > 0 && offset >= |content|
      ensures !eof ==> buffer == if n == 0 then [] else Window(content, offset, n)
    {
      if n == 0 {
        return false, [];
      }
      if offset >= |content| {
        return true, [];
      }
      var actual := Min(n, |content| - offset);
      return false, content[offset..offset + actual];
    }

    /** Cuts what was read into key and value; either may be incomplete. */
    static method SplitKeyValue(kv: Bytes, keySize: nat, valueSize: nat) returns (key: Bytes, value: Bytes)
      requires |kv| <= keySize + valueSize
      ensures key == kv[..Min(keySize, |kv|)] && value == kv[Min(keySize, |kv|)..]
    {
      key, value := [], [];
      if keySize > 0 {
        key := if |kv| >= keySize then kv[..keySize] else kv;
      }
      if valueSize > 0 {
        var start := Min(keySize, |kv|);
        if |kv| > start {
          value := kv[start..start + Min(valueSize, |kv| - start)];
        }
      }
    }

    /** Reads key and value behind the header and checks the checksum when both are complete. */
    method ReadKeyValue(crc: Checksum, offset: nat, h: HeaderResult) returns (r: ReadResult)
      requires h.Header? && offset + h.size <= |content|
      ensures r == ReadBody(crc, content, offset, h)
    {
      hide CheckRecord;
      var key, value := [], [];
      if h.keySize > 0 || h.valueSize > 0 {
        var eof, kv := ReadNBytes(h.keySize + h.valueSize, offset + h.size);
        if eof {
          return EndOfFile;
        }
        key, value := SplitKeyValue(kv, h.keySize, h.valueSize);
      }
      r := Checked(crc, h, LogRecord(key, value, h.kind));
    }

    static method Checked(crc: Checksum, h: HeaderResult, record: LogRecord) returns (r: ReadResult)
      requires h.Header?
      ensures r == CheckRecord(crc, h, record)
    {
      hide RecordBody;
      if |record.key| == h.keySize && |record.value| == h.valueSize {
        var calculated := crc(RecordBody(record));
        if calculated != h.crc {
          if h.crc == 0 && calculated != 0 {
            return InvalidCrc;
          }
          if h.crc == 0xDEADBEEF || h.crc == 0x12345678 {
            return InvalidCrc;
          }
        }
      }
      return Read(record, h.size + h.keySize + h.valueSize);
    }

    method ReadLogRecord(crc: Checksum, offset: nat) returns (r: ReadResult)
      ensures r == ReadRecord(crc, content, offset)
    {
      var fileSize := |content|;
      if offset >= fileSize {
        return EndOfFile;
      }
      var headerBytes := Min(MAX_LOG_RECORD_HEADER_SIZE, fileSize - offset);
      if headerBytes < 5 {
        return EndOfFile;
      }
      var eof, headerBuf := ReadNBytes(headerBytes, offset);
      assert headerBuf == Window(content, offset, MAX_LOG_RECORD_HEADER_SIZE);
      var h := ReadHeader(headerBuf);
      if h.BadHeader? {
        return Corrupt;
      }
      if h.crc == 0 && h.keySize == 0 && h.valueSize == 0 {
        return EndOfFile;
      }
      if h.keySize > MAX_RECORD_SIZE || h.valueSize > MAX_RECORD_SIZE {
        return Corrupt;
      }
      r := ReadKeyValue(crc, offset, h);
    }

    method WriteHintRecord(crc: Checksum, key: Bytes, pos: LogRecordPos)
      modifies this
      ensures content == Overwrite(old(content), old(writeOff), EncodeRecord(crc, HintRecord(key, pos)))
      ensures writeOff == old(writeOff) + RecordSize(HintRecord(key, pos))
    {
      var value := EncodePosition(pos);
      var data, size := Encode(crc, LogRecord(key, value, NORMAL));
      RecordSizeIsLength(crc, LogRecord(key, value, NORMAL));
      Write(data);
    }
  }

  function HintRecord(key: Bytes, pos: LogRecordPos): LogRecord {
    LogRecord(key, EncodePos(pos), NORMAL)
  }

  // ----- a record that was written is read back, exactly when it is readable

  /** The reader refuses keys and values above 64 MB, and takes a record with neither key nor
      value whose checksum is zero for the end of the log. */
  predicate Readable(crc: Checksum, r: LogRecord) {
    && |r.key| <= MAX_RECORD_SIZE
    && |r.value| <= MAX_RECORD_SIZE
    && (r.key == [] && r.value == [] ==> crc(RecordBody(r)) != 0)
  }

  lemma HeaderOfRecordAt(crc: Checksum, before: Bytes, r: LogRecord, rest: Bytes)
    requires |r.key| < UINT32_LIMIT && |r.value| < UINT32_LIMIT
    ensures DecodeHeader(Window(before + EncodeRecord(crc, r) + rest, |before|, MAX_LOG_RECORD_HEADER_SIZE))
         == Header(crc(RecordBody(r)), r.kind, |r.key|, |r.value|, HeaderSize(r))
  {
    var content := before + EncodeRecord(crc, r) + rest;
    var window := Window(content, |before|, MAX_LOG_RECORD_HEADER_SIZE);
    var header := HeaderBytes(crc, r);
    HeaderFitsWindow(r);
    assert |header| == HeaderSize(r);
    assert EncodeRecord(crc, r) == header + (r.key + r.value);
    assert content[|before|..|before| + |header|] == header;
    assert window == header + window[|header|..];
    DecodeEncodeHeader(crc, r, window[|header|..]);
  }

  lemma BodyOfRecordAt(crc: Checksum, before: Bytes, r: LogRecord, rest: Bytes)
    requires |r.key| < UINT32_LIMIT && |r.value| < UINT32_LIMIT
    ensures |before| + HeaderSize(r) <= |before + EncodeRecord(crc, r) + rest|
    ensures ReadBody(crc, before + EncodeRecord(crc, r) + rest, |before|,
                     Header(crc(RecordBody(r)), r.kind, |r.key|, |r.value|, HeaderSize(r)))
         == Read(r, RecordSize(r))
  {
    var content := before + EncodeRecord(crc, r) + rest;
    var start := |before| + HeaderSize(r);
    RecordSizeIsLength(crc, r);
    assert EncodeRecord(crc, r)[HeaderSize(r)..] == r.key + r.value;
    var kv := Window(content, start, |r.key| + |r.value|);
    assert kv == r.key + r.value;
    assert kv[..|r.key|] == r.key && kv[|r.key|..] == r.value;
  }

  /** For every record whose key and value have 32-bit lengths, at every place of every file:
      reading gives back the record and its size if and only if the record is readable. */
  lemma ReadBackIff(crc: Checksum, before: Bytes, r: LogRecord, rest: Bytes)
    requires |r.key| < UINT32_LIMIT && |r.value| < UINT32_LIMIT
    ensures ReadRecord(crc, before + EncodeRecord(crc, r) + rest, |before|) == Read(r, RecordSize(r))
       <==> Readable(crc, r)
  {
    HeaderOfRecordAt(crc, before, r, rest);
    RecordSizeIsLength(crc, r);
    BodyOfRecordAt(crc, before, r, rest);
  }
}
