/** Log records and record positions, and their byte encodings. */
module LogRecords {
  import opened ByteStrings
  import opened Varints

  /** The checksum is chosen when the program is built, so it is a parameter here: the engine
      relies on nothing but its being a function of the bytes. */
  type Checksum = Bytes -> uint32

  const NORMAL: byte := 1
  const DELETED: byte := 2
  const TXN_FINISHED: byte := 3

  const MAX_LOG_RECORD_HEADER_SIZE := 15

  datatype LogRecord = LogRecord(key: Bytes, value: Bytes, kind: byte)

  datatype LogRecordPos = LogRecordPos(fid: nat, offset: nat, size: nat) {
    predicate Fits() {
      fid < UINT32_LIMIT && offset < UINT64_LIMIT && size < UINT32_LIMIT
    }
  }

  // ----- positions

  datatype PosResult = Pos(pos: LogRecordPos) | BadPos

  function EncodePos(pos: LogRecordPos): Bytes {
    Varint(pos.fid) + Varint(pos.offset) + Varint(pos.size)
  }

  method EncodePosition(pos: LogRecordPos) returns (result: Bytes)
    ensures result == EncodePos(pos)
  {
    var buffer := EncodeVarint(pos.fid);
    result := buffer;
    buffer := EncodeVarint(pos.offset);
    result := result + buffer;
    buffer := EncodeVarint(pos.size);
    result := result + buffer;
  }

  /** Reads three varints one after the other; the file id and the size are cut to 32 bits. */
  function DecodePos(data: Bytes): PosResult {
    match DecodeVarint(data)
    case Decoded(fid, fidLength) =>
      (match DecodeVarint(data[fidLength..])
       case Decoded(offset, offsetLength) =>
         (match DecodeVarint(data[fidLength + offsetLength..])
          case Decoded(size, _) => Pos(LogRecordPos(fid % UINT32_LIMIT, offset, size % UINT32_LIMIT))
          case _ => BadPos)
       case _ => BadPos)
    case _ => BadPos
  }

  method DecodePosition(data: Bytes) returns (r: PosResult)
    ensures r == DecodePos(data)
  {
    var fid := ReadVarint(data);
    if !fid.Decoded? {
      return BadPos;
    }
    var start := fid.length;
    var offset := ReadVarint(data[start..]);
    if !offset.Decoded? {
      return BadPos;
    }
    start := start + offset.length;
    var size := ReadVarint(data[start..]);
    if !size.Decoded? {
      return BadPos;
    }
    return Pos(LogRecordPos(fid.value % UINT32_LIMIT, offset.value, size.value % UINT32_LIMIT));
  }

  /** A position comes back as it was if and only if it fits its fields; otherwise cut to 32 bits. */
  lemma DecodePosIff(pos: LogRecordPos)
    requires pos.fid < UINT64_LIMIT && pos.offset < UINT64_LIMIT && pos.size < UINT64_LIMIT
    ensures DecodePos(EncodePos(pos)) == Pos(LogRecordPos(pos.fid % UINT32_LIMIT, pos.offset, pos.size % UINT32_LIMIT))
    ensures DecodePos(EncodePos(pos)) == Pos(pos) <==> pos.Fits()
  {
    hide Varint, DecodeVarint;
    DecodeWidePos(pos);
  }

  lemma DecodeEncodePos(pos: LogRecordPos)
    requires pos.Fits()
    ensures DecodePos(EncodePos(pos)) == Pos(pos)
  {
    hide Varint, DecodeVarint;
    DecodeWidePos(pos);
  }

  lemma DecodeWidePos(pos: LogRecordPos)
    requires pos.fid < UINT64_LIMIT && pos.offset < UINT64_LIMIT && pos.size < UINT64_LIMIT
    ensures DecodePos(EncodePos(pos)) == Pos(LogRecordPos(pos.fid % UINT32_LIMIT, pos.offset, pos.size % UINT32_LIMIT))
  {
    var data := EncodePos(pos);
    var offsetBytes, sizeBytes := Varint(pos.offset), Varint(pos.size);
    DecodeEncodeVarint(pos.fid, offsetBytes + sizeBytes);
    assert data == Varint(pos.fid) + (offsetBytes + sizeBytes);
    DecodeEncodeVarint(pos.offset, sizeBytes);
    assert data[|Varint(pos.fid)|..] == offsetBytes + sizeBytes;
    DecodeEncodeVarint(pos.size, []);
    assert data[|Varint(pos.fid)| + |offsetBytes|..] == sizeBytes + [];
  }

  // ----- records

  /** Everything but the checksum: what the checksum is computed over. */
  function RecordBody(r: LogRecord): Bytes {
    [r.kind] + Varint(|r.key|) + Varint(|r.value|) + r.key + r.value
  }

  function EncodeRecord(crc: Checksum, r: LogRecord): Bytes {
    LittleEndian(crc(RecordBody(r)), 4) + RecordBody(r)
  }

  function HeaderSize(r: LogRecord): nat {
    5 + |Varint(|r.key|)| + |Varint(|r.value|)|
  }

  function RecordSize(r: LogRecord): (size: nat)
    ensures size >= 7
  {
    HeaderSize(r) + |r.key| + |r.value|
  }

  lemma RecordSizeIsLength(crc: Checksum, r: LogRecord)
    ensures |EncodeRecord(crc, r)| == RecordSize(r)
  {
  }

  method Encode(crc: Checksum, r: LogRecord) returns (result: Bytes, size: nat)
    ensures result == EncodeRecord(crc, r)
    ensures size == RecordSize(r)
  {
    result := Zeros(4);
    result := result + [r.kind];
    var buffer := EncodeVarint(|r.key|);
    result := result + buffer;
    buffer := EncodeVarint(|r.value|);
    result := result + buffer;
    result := result + r.key + r.value;
    assert result[4..] == RecordBody(r);
    var checksum := crc(result[4..]);
    var checksumBytes := AppendLittleEndian([], checksum, 4);
    result := checksumBytes + result[4..];
    size := |result|;
  }

  method EncodedSize(r: LogRecord) returns (size: nat)
    ensures size == RecordSize(r)
  {
    size := 4 + 1;
    var length := VarintLength(|r.key|);
    size := size + length;
    length := VarintLength(|r.value|);
    size := size + length;
    size := size + |r.key| + |r.value|;
  }

  // ----- headers

  datatype HeaderResult =
    | Header(crc: nat, kind: byte, keySize: nat, valueSize: nat, size: nat)
    | BadHeader

  /** Checksum, type, key length and value length; the lengths are cut to 32 bits. */
  function DecodeHeader(data: Bytes): (r: HeaderResult)
    ensures r.Header? ==> 7 <= r.size <= |data|
    ensures r.Header? ==> r.keySize < UINT32_LIMIT && r.valueSize < UINT32_LIMIT
  {
    if |data| < 5 then BadHeader else
    match DecodeVarint(data[5..])
    case Decoded(keySize, keyLength) =>
      (match DecodeVarint(data[5 + keyLength..])
       case Decoded(valueSize, valueLength) =>
         Header(FromLittleEndian(data[..4]), data[4], keySize % UINT32_LIMIT, valueSize % UINT32_LIMIT,
                5 + keyLength + valueLength)
       case _ => BadHeader)
    case _ => BadHeader
  }

  method ReadHeader(data: Bytes) returns (r: HeaderResult)
    ensures r == DecodeHeader(data)
  {
    if |data| < 5 {
      return BadHeader;
    }
    var crc := ReadLittleEndian(data, 0, 4);
    var pos := 4;
    var kind := data[pos];
    pos := pos + 1;
    var key := ReadVarint(data[pos..]);
    if !key.Decoded? {
      return BadHeader;
    }
    pos := pos + key.length;
    var value := ReadVarint(data[pos..]);
    if !value.Decoded? {
      return BadHeader;
    }
    pos := pos + value.length;
    r := Header(crc, kind, key.value % UINT32_LIMIT, value.value % UINT32_LIMIT, pos);
  }

  /** The header of a record whose key and value have 32-bit lengths. */
  function HeaderBytes(crc: Checksum, r: LogRecord): Bytes {
    LittleEndian(crc(RecordBody(r)), 4) + [r.kind] + Varint(|r.key|) + Varint(|r.value|)
  }

  lemma HeaderFitsWindow(r: LogRecord)
    requires |r.key| < UINT32_LIMIT && |r.value| < UINT32_LIMIT
    ensures HeaderSize(r) <= MAX_LOG_RECORD_HEADER_SIZE
  {
    VarintWidth(|r.key|);
    VarintWidth(|r.value|);
  }

  lemma DecodeEncodeHeader(crc: Checksum, r: LogRecord, rest: Bytes)
    requires |r.key| < UINT32_LIMIT && |r.value| < UINT32_LIMIT
    ensures DecodeHeader(HeaderBytes(crc, r) + rest)
         == Header(crc(RecordBody(r)), r.kind, |r.key|, |r.value|, HeaderSize(r))
  {
    hide DecodeHeader, HeaderBytes, HeaderSize, RecordBody;
    DecodeWideHeader(crc, r, rest);
  }

  /** Lengths of 32 bits and more come back cut to 32 bits. */
  lemma DecodeWideHeader(crc: Checksum, r: LogRecord, rest: Bytes)
    requires |r.key| < UINT64_LIMIT && |r.value| < UINT64_LIMIT
    ensures DecodeHeader(HeaderBytes(crc, r) + rest)
         == Header(crc(RecordBody(r)), r.kind, |r.key| % UINT32_LIMIT, |r.value| % UINT32_LIMIT, HeaderSize(r))
  {
    hide Varint, LittleEndian, DecodeVarint, RecordBody;
    var data := HeaderBytes(crc, r) + rest;
    var keyBytes, valueBytes := Varint(|r.key|), Varint(|r.value|);
    var checksum := LittleEndian(crc(RecordBody(r)), 4);
    assert data[..4] == checksum;
    Pow256Values();
    FromToLittleEndian(crc(RecordBody(r)), 4);
    assert data[5..] == keyBytes + (valueBytes + rest);
    DecodeEncodeVarint(|r.key|, valueBytes + rest);
    assert data[5..][|keyBytes|..] == valueBytes + rest;
    assert data[5..][|keyBytes|..] == data[5 + |keyBytes|..];
    DecodeEncodeVarint(|r.value|, rest);
  }
}
