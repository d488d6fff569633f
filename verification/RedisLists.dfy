/** Lists of the Redis layer: a metadata record under the user's key, and one record per element
    under a key built from the user's key, a version and an index. */
module RedisLists {
  import opened ByteStrings
  import opened Keys

  const LIST: byte := 3
  const INITIAL_LIST_MARK: uint64 := 0x7FFF_FFFF_FFFF_FFFF

  datatype Metadata = Metadata(dataType: byte, expire: uint64, version: uint64,
                               size: uint32, head: uint64, tail: uint64)

  datatype MetadataResult = Decoded(metadata: Metadata) | BadSize

  // ----- the metadata codec

  function CommonPart(m: Metadata): (s: Bytes)
    ensures |s| == 21
  {
    [m.dataType] + (LittleEndian(m.expire, 8) + (LittleEndian(m.version, 8) + LittleEndian(m.size, 4)))
  }

  function EncodeMetadata(m: Metadata): Bytes {
    if m.dataType == LIST
    then CommonPart(m) + (LittleEndian(m.head, 8) + LittleEndian(m.tail, 8))
    else CommonPart(m)
  }

  function Number(data: Bytes, offset: nat, width: nat): nat
    requires offset + width <= |data|
  {
    FromLittleEndian(data[offset..offset + width])
  }

  function DecodeMetadata(data: Bytes): MetadataResult {
    if |data| < 21 then BadSize
    else
      Bounds(data);
      var withEnds := data[0] == LIST && |data| >= 37;
      Decoded(Metadata(data[0], Number(data, 1, 8), Number(data, 9, 8), Number(data, 17, 4),
                       if withEnds then Number(data, 21, 8) else 0,
                       if withEnds then Number(data, 29, 8) else 0))
  }

  lemma NumberBound(data: Bytes, offset: nat, width: nat)
    requires offset + width <= |data|
    ensures Number(data, offset, width) < Pow256(width)
  {
    FromLittleEndianBound(data[offset..offset + width]);
  }

  lemma Bounds(data: Bytes)
    requires |data| >= 21
    ensures Number(data, 1, 8) < UINT64_LIMIT && Number(data, 9, 8) < UINT64_LIMIT
    ensures Number(data, 17, 4) < UINT32_LIMIT
    ensures |data| >= 37 ==> Number(data, 21, 8) < UINT64_LIMIT && Number(data, 29, 8) < UINT64_LIMIT
  {
    Pow256Values();
    NumberBound(data, 1, 8);
    NumberBound(data, 9, 8);
    NumberBound(data, 17, 4);
    if |data| >= 37 {
      NumberBound(data, 21, 8);
      NumberBound(data, 29, 8);
    }
  }

  lemma NumberWritten(data: Bytes, before: Bytes, v: nat, width: nat, after: Bytes)
    requires data == before + (LittleEndian(v, width) + after)
    requires v < Pow256(width)
    ensures |before| + width <= |data| && Number(data, |before|, width) == v
  {
    FromToLittleEndian(v, width);
    assert data[|before|..|before| + width] == LittleEndian(v, width);
  }

  /** Decoding inverts encoding; head and tail are kept for lists only. */
  lemma DecodeEncodeMetadata(m: Metadata)
    ensures DecodeMetadata(EncodeMetadata(m)) == Decoded(if m.dataType == LIST then m else m.(head := 0, tail := 0))
  {
    hide LittleEndian, FromLittleEndian, Number, Pow256;
    Pow256Values();
    var data := EncodeMetadata(m);
    var (expire, version, size) := (LittleEndian(m.expire, 8), LittleEndian(m.version, 8), LittleEndian(m.size, 4));
    var (head, tail) := (LittleEndian(m.head, 8), LittleEndian(m.tail, 8));
    var ends := if m.dataType == LIST then head + tail else [];
    assert data == [m.dataType] + (expire + (version + (size + ends)));
    NumberWritten(data, [m.dataType], m.expire, 8, version + (size + ends));
    assert data == ([m.dataType] + expire) + (version + (size + ends));
    NumberWritten(data, [m.dataType] + expire, m.version, 8, size + ends);
    assert data == ([m.dataType] + expire + version) + (size + ends);
    NumberWritten(data, [m.dataType] + expire + version, m.size, 4, ends);
    if m.dataType == LIST {
      assert data == ([m.dataType] + expire + version + size) + (head + tail);
      NumberWritten(data, [m.dataType] + expire + version + size, m.head, 8, tail);
      assert data == ([m.dataType] + expire + version + size + head) + (tail + []);
      NumberWritten(data, [m.dataType] + expire + version + size + head, m.tail, 8, []);
    }
  }

  /** Decoding fails exactly below 21 bytes. What it returns encodes to the bytes it was read from, up to
      where head and tail begin, and behind that as well when it read them. */
  lemma EncodeDecodeMetadata(data: Bytes)
    ensures DecodeMetadata(data).BadSize? <==> |data| < 21
    ensures |data| >= 21 ==>
              var m := DecodeMetadata(data).metadata;
              && CommonPart(m) == data[..21]
              && (data[0] == 3 && |data| >= 37 ==> EncodeMetadata(m) == data[..37])
              && (data[0] != 3 || |data| < 37 ==> m.head == 0 && m.tail == 0)
  {
    hide LittleEndian, FromLittleEndian;
    if |data| >= 21 {
      var m := DecodeMetadata(data).metadata;
      NumberIs(data, 1, 8);
      NumberIs(data, 9, 8);
      NumberIs(data, 17, 4);
      assert data[..21] == [data[0]] + (data[1..9] + (data[9..17] + data[17..21]));
      if data[0] == 3 && |data| >= 37 {
        NumberIs(data, 21, 8);
        NumberIs(data, 29, 8);
        assert data[..37] == data[..21] + (data[21..29] + data[29..37]);
      }
    }
  }

  lemma NumberIs(data: Bytes, offset: nat, width: nat)
    requires offset + width <= |data|
    ensures LittleEndian(Number(data, offset, width), width) == data[offset..offset + width]
  {
    ToFromLittleEndian(data[offset..offset + width]);
  }

  method Encode(m: Metadata) returns (result: Bytes)
    ensures result == EncodeMetadata(m)
  {
    hide LittleEndian;
    result := [m.dataType];
    result := AppendLittleEndian(result, m.expire, 8);
    result := AppendLittleEndian(result, m.version, 8);
    result := AppendLittleEndian(result, m.size, 4);
    assert result == CommonPart(m);
    if m.dataType == LIST {
      ghost var common := result;
      result := AppendLittleEndian(result, m.head, 8);
      result := AppendLittleEndian(result, m.tail, 8);
      assert result == common + (LittleEndian(m.head, 8) + LittleEndian(m.tail, 8));
    }
  }

  method Decode(data: Bytes) returns (r: MetadataResult)
    ensures r == DecodeMetadata(data)
  {
    if |data| < 21 {
      return BadSize;
    }
    Pow256Values();
    var expire := ReadLittleEndian(data, 1, 8);
    var version := ReadLittleEndian(data, 9, 8);
    var size := ReadLittleEndian(data, 17, 4);
    var head, tail := 0, 0;
    if data[0] == LIST && |data| >= 37 {
      head := ReadLittleEndian(data, 21, 8);
      tail := ReadLittleEndian(data, 29, 8);
    }
    return Decoded(Metadata(data[0], expire, version, size, head, tail));
  }

  // ----- element keys

  function InternalKey(key: Bytes, version: nat, index: nat): Bytes {
    key + (LittleEndian(version, 8) + LittleEndian(index, 8))
  }

  method EncodeInternalKey(key: Bytes, version: nat, index: nat) returns (result: Bytes)
    ensures result == InternalKey(key, version, index)
  {
    hide LittleEndian;
    result := AppendLittleEndian(key, version, 8);
    result := AppendLittleEndian(result, index, 8);
  }

  lemma InternalKeyInjective(key: Bytes, version: uint64, index: uint64,
                             key': Bytes, version': uint64, index': uint64)
    requires InternalKey(key, version, index) == InternalKey(key', version', index')
    ensures key == key' && version == version' && index == index'
  {
    hide LittleEndian, FromLittleEndian;
    var s := InternalKey(key, version, index);
    var (v, i, v', i') := (LittleEndian(version, 8), LittleEndian(index, 8), LittleEndian(version', 8), LittleEndian(index', 8));
    assert |key| == |key'|;
    assert key == s[..|key|] == key';
    assert v == s[|key|..|key| + 8] == v';
    assert i == s[|key| + 8..] == i';
    Pow256Values();
    FromToLittleEndian(version, 8);
    FromToLittleEndian(version', 8);
    FromToLittleEndian(index, 8);
    FromToLittleEndian(index', 8);
  }

  predicate LooksInternalTo(user: Bytes, other: Bytes) {
    |other| == |user| + 16 && user <= other
  }

  /** No user key is another one followed by sixteen bytes. */
  ghost predicate Separate(users: set<Bytes>) {
    forall a, b | a in users && b in users :: !LooksInternalTo(a, b)
  }

  /** That is exactly when no element key can be the metadata key of a list. */
  lemma SeparateIff(a: Bytes, b: Bytes)
    ensures LooksInternalTo(a, b) <==> exists version: uint64, index: uint64 :: InternalKey(a, version, index) == b
  {
    if LooksInternalTo(a, b) {
      var v, i := b[|a|..|a| + 8], b[|a| + 8..];
      ToFromLittleEndian(v);
      ToFromLittleEndian(i);
      Pow256Values();
      FromLittleEndianBound(v);
      FromLittleEndianBound(i);
      assert b == a + (v + i);
      assert InternalKey(a, FromLittleEndian(v), FromLittleEndian(i)) == b;
    }
  }

  /** Keys of one length are separate. */
  lemma OneLengthIsSeparate(users: set<Bytes>, n: nat)
    requires forall key | key in users :: |key| == n
    ensures Separate(users)
  {
  }

  /** The key of an element ends in its index, which is never zero in practice; recovery takes it
      for a batch record. */
  lemma ElementKeyIsAmbiguous(key: Bytes, version: nat, index: uint64)
    ensures Unambiguous(InternalKey(key, version, index)) <==> index == 0
  {
    var k := InternalKey(key, version, index);
    assert k[|k| - 8..] == LittleEndian(index, 8);
    Pow256Values();
    FromToLittleEndian(index, 8);
    FromLittleEndianZero(LittleEndian(index, 8));
  }

  // ----- the operations, as functions of the key-value store under them

  type Store = map<Bytes, Bytes>

  datatype Reply =
    | Size(size: nat)
    | Element(value: Bytes)
    | Deleted
    | KeyEmpty
    | KeyNotFound
    | WrongType
    | BadMetadata

  datatype Found = Found(metadata: Metadata, db: Store) | NotFound(reply: Reply)

  datatype Outcome = Outcome(db: Store, reply: Reply)

  predicate IsExpired(expire: nat, now: nat) {
    0 < expire <= now
  }

  /** The two readings of the clock that one operation may take: for the expiry and for a new version. */
  datatype Clock = Clock(now: uint64, later: uint64)

  function Fresh(dataType: byte, version: uint64): Metadata {
    var mark := if dataType == LIST then INITIAL_LIST_MARK else 0;
    Metadata(dataType, 0, version, 0, mark, mark)
  }

  function Find(db: Store, key: Bytes, dataType: byte, clock: Clock): Found {
    if key == [] then NotFound(KeyEmpty)
    else if key !in db then Found(Fresh(dataType, clock.later), db)
    else
      match DecodeMetadata(db[key])
      case BadSize => NotFound(BadMetadata)
      case Decoded(m) =>
        if m.dataType != dataType then NotFound(WrongType)
        else if IsExpired(m.expire, clock.now) then Found(Fresh(dataType, clock.later), db - {key})
        else Found(m, db)
  }

  function Plus(a: uint64, b: nat): uint64 {
    (a + b) % UINT64_LIMIT
  }

  function MinusOne(a: uint64): uint64 {
    if a == 0 then UINT64_LIMIT - 1 else a - 1
  }

  function WithEnds(m: Metadata): Metadata {
    if m.size == 0 then m.(head := INITIAL_LIST_MARK, tail := INITIAL_LIST_MARK) else m
  }

  function PushMetadata(db: Store, key: Bytes, m: Metadata, element: Bytes, atHead: bool): Outcome {
    var w := WithEnds(m);
    var size := (w.size + 1) % UINT32_LIMIT;
    var m' := if atHead then w.(head := MinusOne(w.head), size := size)
              else w.(tail := Plus(w.tail, 1), size := size);
    var slot := InternalKey(key, w.version, if atHead then MinusOne(w.head) else w.tail);
    Outcome(db[slot := element][key := EncodeMetadata(m')], Size(size))
  }

  function Push(db: Store, key: Bytes, element: Bytes, atHead: bool, clock: Clock): Outcome {
    match Find(db, key, LIST, clock)
    case NotFound(reply) => Outcome(db, reply)
    case Found(m, db') => PushMetadata(db', key, m, element, atHead)
  }

  function PopMetadata(db: Store, key: Bytes, m: Metadata, atHead: bool): Outcome {
    var slot := InternalKey(key, m.version, if atHead then m.head else MinusOne(m.tail));
    if m.size == 0 || slot !in db then Outcome(db, KeyNotFound)
    else
      var m' := if atHead then m.(head := Plus(m.head, 1), size := m.size - 1)
                else m.(tail := MinusOne(m.tail), size := m.size - 1);
      Outcome(if m.size == 1 then db - {slot} - {key} else (db - {slot})[key := EncodeMetadata(m')],
              Element(db[slot]))
  }

  function Pop(db: Store, key: Bytes, atHead: bool, clock: Clock): Outcome {
    match Find(db, key, LIST, clock)
    case NotFound(reply) => Outcome(db, reply)
    case Found(m, db') => PopMetadata(db', key, m, atHead)
  }

  function Delete(db: Store, key: Bytes): Outcome {
    if key == [] then Outcome(db, KeyEmpty) else Outcome(db - {key}, Deleted)
  }

  // ----- the class

  /** The store under the lists keeps what the engine's get returns. */
  class RedisDataStructure {
    var db: Store

    constructor (db: Store)
      ensures this.db == db
    {
      this.db := db;
    }

    method FindMetadata(key: Bytes, dataType: byte, clock: Clock) returns (r: Found)
      modifies this
      ensures r == Find(old(db), key, dataType, clock)
      ensures db == if r.Found? then r.db else old(db)
    {
      if key == [] {
        return NotFound(KeyEmpty);
      }
      var mark := if dataType == LIST then INITIAL_LIST_MARK else 0;
      if key !in db {
        return Found(Metadata(dataType, 0, clock.later, 0, mark, mark), db);
      }
      var decoded := Decode(db[key]);
      if decoded.BadSize? {
        return NotFound(BadMetadata);
      }
      var metadata := decoded.metadata;
      if metadata.dataType != dataType {
        return NotFound(WrongType);
      }
      if 0 < metadata.expire && metadata.expire <= clock.now {
        db := db - {key};
        return Found(Metadata(dataType, 0, clock.later, 0, mark, mark), db);
      }
      return Found(metadata, db);
    }

    method LPush(key: Bytes, element: Bytes, clock: Clock) returns (reply: Reply)
      modifies this
      ensures Outcome(db, reply) == Push(old(db), key, element, true, clock)
    {
      hide EncodeMetadata, DecodeMetadata, InternalKey;
      var found := FindMetadata(key, LIST, clock);
      if found.NotFound? {
        return found.reply;
      }
      var metadata := found.metadata;
      if metadata.size == 0 {
        metadata := metadata.(head := INITIAL_LIST_MARK, tail := INITIAL_LIST_MARK);
      }
      var index := if metadata.head == 0 then UINT64_LIMIT - 1 else metadata.head - 1;
      var slot := EncodeInternalKey(key, metadata.version, index);
      db := db[slot := element];
      metadata := metadata.(head := index, size := (metadata.size + 1) % UINT32_LIMIT);
      var encoded := Encode(metadata);
      db := db[key := encoded];
      return Size(metadata.size);
    }

    method RPush(key: Bytes, element: Bytes, clock: Clock) returns (reply: Reply)
      modifies this
      ensures Outcome(db, reply) == Push(old(db), key, element, false, clock)
    {
      hide EncodeMetadata, DecodeMetadata, InternalKey;
      var found := FindMetadata(key, LIST, clock);
      if found.NotFound? {
        return found.reply;
      }
      var metadata := found.metadata;
      if metadata.size == 0 {
        metadata := metadata.(head := INITIAL_LIST_MARK, tail := INITIAL_LIST_MARK);
      }
      var slot := EncodeInternalKey(key, metadata.version, metadata.tail);
      db := db[slot := element];
      metadata := metadata.(tail := (metadata.tail + 1) % UINT64_LIMIT, size := (metadata.size + 1) % UINT32_LIMIT);
      var encoded := Encode(metadata);
      db := db[key := encoded];
      return Size(metadata.size);
    }

    method LPop(key: Bytes, clock: Clock) returns (reply: Reply)
      modifies this
      ensures Outcome(db, reply) == Pop(old(db), key, true, clock)
    {
      hide EncodeMetadata, DecodeMetadata, InternalKey;
      var found := FindMetadata(key, LIST, clock);
      if found.NotFound? {
        return found.reply;
      }
      var metadata := found.metadata;
      if metadata.size == 0 {
        return KeyNotFound;
      }
      var slot := EncodeInternalKey(key, metadata.version, metadata.head);
      if slot !in db {
        return KeyNotFound;
      }
      var result := db[slot];
      db := db - {slot};
      metadata := metadata.(head := (metadata.head + 1) % UINT64_LIMIT, size := metadata.size - 1);
      if metadata.size == 0 {
        db := db - {key};
      } else {
        var encoded := Encode(metadata);
        db := db[key := encoded];
      }
      return Element(result);
    }

    method RPop(key: Bytes, clock: Clock) returns (reply: Reply)
      modifies this
      ensures Outcome(db, reply) == Pop(old(db), key, false, clock)
    {
      hide EncodeMetadata, DecodeMetadata, InternalKey;
      var found := FindMetadata(key, LIST, clock);
      if found.NotFound? {
        return found.reply;
      }
      var metadata := found.metadata;
      if metadata.size == 0 {
        return KeyNotFound;
      }
      var index := if metadata.tail == 0 then UINT64_LIMIT - 1 else metadata.tail - 1;
      var slot := EncodeInternalKey(key, metadata.version, index);
      if slot !in db {
        return KeyNotFound;
      }
      var result := db[slot];
      db := db - {slot};
      metadata := metadata.(tail := index, size := metadata.size - 1);
      if metadata.size == 0 {
        db := db - {key};
      } else {
        var encoded := Encode(metadata);
        db := db[key := encoded];
      }
      return Element(result);
    }

    method Del(key: Bytes) returns (reply: Reply)
      modifies this
      ensures Outcome(db, reply) == Delete(old(db), key)
    {
      if key == [] {
        return KeyEmpty;
      }
      db := db - {key};
      return Deleted;
    }
  }
}
