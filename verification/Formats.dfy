/** The formats byte by byte: where each field stands, in literal numbers. */
module Formats {
  import opened ByteStrings
  import opened Varints
  import opened VarintBuffers
  import opened LogRecords
  import opened Keys
  import opened RedisLists
  import opened BPlusFile

  /** Byte `i` of a number is worth 256^i: the lowest byte stands first. */
  lemma {:induction false} LittleEndianAt(v: nat, n: nat, i: nat)
    requires i < n
    ensures LittleEndian(v, n)[i] == v / Pow256(i) % 256
  {
    if i == 0 {
      assert v / Pow256(0) == v;
    } else {
      LittleEndianAt(v / 256, n - 1, i - 1);
      DivideBy256First(v, Pow256(i - 1));
    }
  }

  /** A varint has its groups lowest first, the top bit on all but the last, and no needless group. */
  lemma {:induction false} VarintIs(v: nat)
    ensures GroupsValue(Varint(v)) == v
    ensures forall i | 0 <= i < |Varint(v)| :: Varint(v)[i] >= 0x80 <==> i < |Varint(v)| - 1
    ensures |Varint(v)| > 1 ==> Varint(v)[|Varint(v)| - 1] != 0
  {
    forall i | 0 <= i < |Varint(v)| ensures Varint(v)[i] >= 0x80 <==> i < |Varint(v)| - 1 {
      TopBits(v, i);
    }
    if v < 0x80 {
      assert Varint(v)[..0] == [];
      assert v % 0x80 * Pow128(0) == v;
    } else {
      VarintIs(v / 0x80);
      FirstGroup(v % 0x80 + 0x80, Varint(v / 0x80));
    }
  }

  lemma {:induction false} FirstGroup(first: byte, groups: Bytes)
    ensures GroupsValue([first] + groups) == first % 0x80 + 0x80 * GroupsValue(groups)
    decreases |groups|
  {
    var all := [first] + groups;
    if groups == [] {
      assert all[..0] == [] && first % 0x80 * Pow128(0) == first % 0x80;
    } else {
      var n := |groups| - 1;
      assert all[..n + 1] == [first] + groups[..n];
      FirstGroup(first, groups[..n]);
      var g := groups[n] % 0x80;
      assert g * Pow128(n + 1) == 0x80 * (g * Pow128(n));
    }
  }

  /** Checksum in bytes 0 to 3, type in byte 4, then the two lengths, the key and the value. The types are
      1, 2 and 3. */
  lemma RecordLayout(crc: Checksum, r: LogRecord)
    ensures var data, keyLength, valueLength := EncodeRecord(crc, r), Varint(|r.key|), Varint(|r.value|);
            var start := 5 + |keyLength| + |valueLength|;
            && |data| == start + |r.key| + |r.value|
            && FromLittleEndian(data[..4]) == crc(data[4..])
            && data[4] == r.kind
            && data[5..5 + |keyLength|] == keyLength
            && data[5 + |keyLength|..start] == valueLength
            && data[start..start + |r.key|] == r.key
            && data[start + |r.key|..] == r.value
    ensures NORMAL == 1 && DELETED == 2 && TXN_FINISHED == 3
  {
    hide Varint, LittleEndian, FromLittleEndian;
    var data := EncodeRecord(crc, r);
    Pow256Values();
    FromToLittleEndian(crc(RecordBody(r)), 4);
    assert data[..4] == LittleEndian(crc(RecordBody(r)), 4);
    assert data[4..] == RecordBody(r);
  }

  /** The number of a batch stands in the last eight bytes of the key. */
  lemma TagLayout(key: Bytes, seqNo: uint64)
    requires seqNo != 0
    ensures var tagged := TagKey(key, seqNo);
            |tagged| == |key| + 8 && tagged[..|key|] == key && FromLittleEndian(tagged[|key|..]) == seqNo
  {
    Pow256Values();
    FromToLittleEndian(seqNo, 8);
    assert TagKey(key, seqNo)[|key|..] == LittleEndian(seqNo, 8);
  }

  /** File id, offset and size, one after the other. */
  lemma PlaceLayout(pos: LogRecordPos)
    ensures var data, fid, offset := EncodePos(pos), Varint(pos.fid), Varint(pos.offset);
            && data[..|fid|] == fid && data[|fid|..|fid| + |offset|] == offset
            && data[|fid| + |offset|..] == Varint(pos.size)
  {
    hide Varint;
  }

  /** Type in byte 0, expiry from 1, version from 9, size from 17, and for lists head from 21 and tail
      from 29. */
  lemma MetadataLayout(m: Metadata)
    ensures var data := EncodeMetadata(m);
            && |data| == (if m.dataType == 3 then 37 else 21)
            && data[0] == m.dataType
            && data[1..9] == LittleEndian(m.expire, 8)
            && data[9..17] == LittleEndian(m.version, 8)
            && data[17..21] == LittleEndian(m.size, 4)
            && (m.dataType == 3 ==> data[21..29] == LittleEndian(m.head, 8) && data[29..37] == LittleEndian(m.tail, 8))
  {
    hide LittleEndian;
  }

  /** User key, version, index. */
  lemma ElementKeyLayout(key: Bytes, version: nat, index: nat)
    ensures var k := InternalKey(key, version, index);
            && |k| == |key| + 16 && k[..|key|] == key
            && k[|key|..|key| + 8] == LittleEndian(version, 8) && k[|key| + 8..] == LittleEndian(index, 8)
  {
    hide LittleEndian;
  }

  /** Kind in byte 0, 1 for a leaf; the number of keys from 1; the keys from 5, each behind its length;
      then, in a leaf, sixteen bytes for each place. */
  lemma LeafLayout(keys: seq<Bytes>, values: seq<LogRecordPos>)
    requires |keys| < UINT32_LIMIT
    ensures var data, start := EncodeNode(Node(1, keys, values, [])), 5 + |EncodeKeys(keys)|;
            && data[0] == 1 && data[1..5] == LittleEndian(|keys|, 4)
            && data[5..start] == EncodeKeys(keys) && data[start..] == EncodePlaces(values)
  {
    hide LittleEndian, EncodeKeys, EncodePlaces;
  }

  lemma {:induction false} PlaceInLeaf(values: seq<LogRecordPos>, i: nat)
    requires i < |values|
    ensures var data, start := EncodePlaces(values), 16 * i;
            && |data| == 16 * |values|
            && data[start..start + 4] == LittleEndian(values[i].fid, 4)
            && data[start + 4..start + 12] == LittleEndian(values[i].offset, 8)
            && data[start + 12..start + 16] == LittleEndian(values[i].size, 4)
    decreases |values|
  {
    hide LittleEndian;
    var data, rest := EncodePlaces(values), EncodePlaces(values[1..]);
    if i > 0 {
      PlaceInLeaf(values[1..], i - 1);
      assert data[16 * i..16 * i + 4] == rest[16 * (i - 1)..16 * (i - 1) + 4];
      assert data[16 * i + 4..16 * i + 12] == rest[16 * (i - 1) + 4..16 * (i - 1) + 12];
      assert data[16 * i + 12..16 * i + 16] == rest[16 * (i - 1) + 12..16 * (i - 1) + 16];
    } else {
      PlacesLength(values);
    }
  }

  lemma {:induction false} PlacesLength(values: seq<LogRecordPos>)
    ensures |EncodePlaces(values)| == 16 * |values|
  {
    if values != [] {
      PlacesLength(values[1..]);
    }
  }
}
