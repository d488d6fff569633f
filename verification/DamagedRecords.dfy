/** Reading what was not written as it stands: records with another checksum, and records cut short by
    the end of the file. */
module DamagedRecords {
  import opened ByteStrings
  import opened Varints
  import opened VarintBuffers
  import opened LogRecords
  import opened DataFiles

  /** The bytes of a record with any number where its checksum belongs. */
  function WithChecksum(x: uint32, r: LogRecord): Bytes {
    LittleEndian(x, 4) + RecordBody(r)
  }

  lemma WithChecksumIsEncoding(x: uint32, r: LogRecord)
    ensures WithChecksum(x, r) == EncodeRecord(body => x, r)
  {
  }

  lemma BodyOfAnyRecord(crc: Checksum, x: uint32, before: Bytes, r: LogRecord, rest: Bytes)
    requires |r.key| < UINT32_LIMIT && |r.value| < UINT32_LIMIT
    ensures |before| + HeaderSize(r) <= |before + WithChecksum(x, r) + rest|
    ensures var h := Header(x, r.kind, |r.key|, |r.value|, HeaderSize(r));
            ReadBody(crc, before + WithChecksum(x, r) + rest, |before|, h) == CheckRecord(crc, h, r)
  {
    hide CheckRecord;
    var content := before + WithChecksum(x, r) + rest;
    var start := |before| + HeaderSize(r);
    WithChecksumIsEncoding(x, r);
    RecordSizeIsLength(body => x, r);
    assert WithChecksum(x, r)[HeaderSize(r)..] == r.key + r.value;
    var kv := Window(content, start, |r.key| + |r.value|);
    assert kv == r.key + r.value;
    assert kv[..|r.key|] == r.key && kv[|r.key|..] == r.value;
  }

  /** Whatever number stands where the checksum belongs, and whatever stands around it: the record is
      read back unless the number is wrong and one of three. Zero with neither key nor value is the end
      of the file, and lengths above 64 MB are refused first. */
  lemma ReadsWithAnyChecksum(crc: Checksum, x: uint32, before: Bytes, r: LogRecord, rest: Bytes)
    requires |r.key| < UINT32_LIMIT && |r.value| < UINT32_LIMIT
    ensures ReadRecord(crc, before + WithChecksum(x, r) + rest, |before|) ==
      if x == 0 && r.key == [] && r.value == [] then EndOfFile
      else if |r.key| > 64 * 1024 * 1024 || |r.value| > 64 * 1024 * 1024 then Corrupt
      else if x == crc(RecordBody(r)) || (x != 0 && x != 0xDEADBEEF && x != 0x12345678) then Read(r, RecordSize(r))
      else InvalidCrc
  {
    hide ReadBody, DecodeHeader, RecordBody;
    WithChecksumIsEncoding(x, r);
    HeaderOfRecordAt(body => x, before, r, rest);
    RecordSizeIsLength(body => x, r);
    BodyOfAnyRecord(crc, x, before, r, rest);
  }

  // ----- cut short

  lemma HeaderSplits(crc: Checksum, r: LogRecord)
    ensures |HeaderBytes(crc, r)| == HeaderSize(r)
    ensures HeaderBytes(crc, r)[5..] == Varint(|r.key|) + Varint(|r.value|)
    ensures EncodeRecord(crc, r) == HeaderBytes(crc, r) + (r.key + r.value)
  {
  }

  lemma CutHeader(crc: Checksum, r: LogRecord, k: nat)
    requires |r.key| < UINT64_LIMIT && |r.value| < UINT64_LIMIT
    requires 5 <= k < HeaderSize(r)
    ensures k <= |HeaderBytes(crc, r)| && DecodeHeader(HeaderBytes(crc, r)[..k]) == BadHeader
  {
    hide DecodeVarint, Varint, LittleEndian, RecordBody;
    HeaderSplits(crc, r);
    var keyBytes, valueBytes, cut := Varint(|r.key|), Varint(|r.value|), HeaderBytes(crc, r)[..k];
    assert cut[5..] == (keyBytes + valueBytes)[..k - 5];
    if k - 5 < |keyBytes| {
      assert cut[5..] == keyBytes[..k - 5];
      CutVarint(|r.key|, k - 5);
    } else {
      var n := k - 5 - |keyBytes|;
      assert cut[5..] == keyBytes + valueBytes[..n];
      DecodeEncodeVarint(|r.key|, valueBytes[..n]);
      assert cut[5 + |keyBytes|..] == valueBytes[..n];
      CutVarint(|r.value|, n);
    }
  }

  /** A record whose first `k` bytes are all that is left of the file. Up to the end of the header it is
      the end of the file, or an error; behind it, what there is of key and value is returned as the
      record, with the size of the whole, and no checksum is looked at. */
  lemma CutRecordReads(crc: Checksum, before: Bytes, r: LogRecord, k: nat)
    requires |r.key| <= MAX_RECORD_SIZE && |r.value| <= MAX_RECORD_SIZE && k < RecordSize(r)
    ensures |EncodeRecord(crc, r)| == RecordSize(r)
    ensures ReadRecord(crc, before + EncodeRecord(crc, r)[..k], |before|) ==
      if k < 5 || k == HeaderSize(r) then EndOfFile
      else if k < HeaderSize(r) then Corrupt
      else
        var kv := (r.key + r.value)[..k - HeaderSize(r)];
        var cut := Min(|r.key|, |kv|);
        Read(LogRecord(kv[..cut], kv[cut..], r.kind), RecordSize(r))
  {
    RecordSizeIsLength(crc, r);
    HeaderSplits(crc, r);
    HeaderFitsWindow(r);
    if 5 <= k {
      if k < HeaderSize(r) {
        CutInHeader(crc, before, r, k);
      } else {
        CutBehindHeader(crc, before, r, k);
      }
    }
  }

  lemma CutInHeader(crc: Checksum, before: Bytes, r: LogRecord, k: nat)
    requires |r.key| <= MAX_RECORD_SIZE && |r.value| <= MAX_RECORD_SIZE && 5 <= k < HeaderSize(r)
    ensures k <= |EncodeRecord(crc, r)|
    ensures ReadRecord(crc, before + EncodeRecord(crc, r)[..k], |before|) == Corrupt
  {
    hide DecodeHeader, EncodeRecord, HeaderBytes;
    HeaderSplits(crc, r);
    HeaderFitsWindow(r);
    var content := before + EncodeRecord(crc, r)[..k];
    assert EncodeRecord(crc, r)[..k] == HeaderBytes(crc, r)[..k];
    assert Window(content, |before|, MAX_LOG_RECORD_HEADER_SIZE) == HeaderBytes(crc, r)[..k];
    CutHeader(crc, r, k);
  }

  lemma CutBehindHeader(crc: Checksum, before: Bytes, r: LogRecord, k: nat)
    requires |r.key| <= MAX_RECORD_SIZE && |r.value| <= MAX_RECORD_SIZE && HeaderSize(r) <= k < RecordSize(r)
    ensures k <= |EncodeRecord(crc, r)|
    ensures ReadRecord(crc, before + EncodeRecord(crc, r)[..k], |before|) ==
      if k == HeaderSize(r) then EndOfFile
      else
        var kv := (r.key + r.value)[..k - HeaderSize(r)];
        var cut := Min(|r.key|, |kv|);
        Read(LogRecord(kv[..cut], kv[cut..], r.kind), RecordSize(r))
  {
    hide DecodeHeader, EncodeRecord, HeaderBytes, RecordBody, ReadBody, RecordSize, HeaderSize;
    RecordSizeIsLength(crc, r);
    HeaderFitsWindow(r);
    HeaderStands(crc, before, r, k);
    CutBody(crc, before, r, k);
    CutSizes(r, k);
  }

  lemma CutSizes(r: LogRecord, k: nat)
    requires HeaderSize(r) <= k < RecordSize(r)
    ensures |r.key| + |r.value| > 0 && 7 <= k
  {
  }

  lemma HeaderStands(crc: Checksum, before: Bytes, r: LogRecord, k: nat)
    requires |r.key| <= MAX_RECORD_SIZE && |r.value| <= MAX_RECORD_SIZE && HeaderSize(r) <= k <= |EncodeRecord(crc, r)|
    ensures DecodeHeader(Window(before + EncodeRecord(crc, r)[..k], |before|, MAX_LOG_RECORD_HEADER_SIZE))
         == Header(crc(RecordBody(r)), r.kind, |r.key|, |r.value|, HeaderSize(r))
  {
    hide DecodeHeader, EncodeRecord, HeaderBytes, RecordBody, HeaderSize;
    HeaderSplits(crc, r);
    HeaderFitsWindow(r);
    var header := HeaderBytes(crc, r);
    var kv := (r.key + r.value)[..k - |header|];
    var content := before + EncodeRecord(crc, r)[..k];
    assert EncodeRecord(crc, r)[..k] == header + kv;
    assert content == before + header + kv;
    var window := Window(content, |before|, MAX_LOG_RECORD_HEADER_SIZE);
    assert window == header + window[|header|..];
    DecodeEncodeHeader(crc, r, window[|header|..]);
  }

  lemma CutBody(crc: Checksum, before: Bytes, r: LogRecord, k: nat)
    requires |r.key| <= MAX_RECORD_SIZE && |r.value| <= MAX_RECORD_SIZE && HeaderSize(r) <= k < RecordSize(r)
    ensures k <= |EncodeRecord(crc, r)|
    ensures ReadBody(crc, before + EncodeRecord(crc, r)[..k], |before|,
                     Header(crc(RecordBody(r)), r.kind, |r.key|, |r.value|, HeaderSize(r))) ==
      if k == HeaderSize(r) then EndOfFile
      else
        var kv := (r.key + r.value)[..k - HeaderSize(r)];
        var cut := Min(|r.key|, |kv|);
        Read(LogRecord(kv[..cut], kv[cut..], r.kind), RecordSize(r))
  {
    hide EncodeRecord, HeaderBytes, RecordBody, HeaderSize;
    RecordSizeIsLength(crc, r);
    HeaderSplits(crc, r);
    var header := HeaderBytes(crc, r);
    var kv := (r.key + r.value)[..k - |header|];
    var content := before + EncodeRecord(crc, r)[..k];
    assert EncodeRecord(crc, r)[..k] == header + kv;
    assert content == before + header + kv;
    assert Window(content, |before| + |header|, |r.key| + |r.value|) == kv;
  }
}
