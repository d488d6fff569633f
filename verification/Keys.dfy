/** Log keys: a batch record carries its sequence number in the last eight bytes of its key, a
    plain record carries the key as it is. */
module Keys {
  import opened ByteStrings

  const NON_TRANSACTION_SEQ_NO := 0

  datatype ParsedKey = ParsedKey(realKey: Bytes, seqNo: nat)

  function TagKey(key: Bytes, seqNo: nat): Bytes {
    if seqNo == NON_TRANSACTION_SEQ_NO then key else key + LittleEndian(seqNo, 8)
  }

  function ParseKey(key: Bytes): ParsedKey {
    if |key| < 8 then
      ParsedKey(key, NON_TRANSACTION_SEQ_NO)
    else
      var seqNo := FromLittleEndian(key[|key| - 8..]);
      if seqNo == NON_TRANSACTION_SEQ_NO
      then ParsedKey(key, NON_TRANSACTION_SEQ_NO)
      else ParsedKey(key[..|key| - 8], seqNo)
  }

  method LogRecordKeyWithSeq(key: Bytes, seqNo: nat) returns (result: Bytes)
    ensures result == TagKey(key, seqNo)
  {
    if seqNo == NON_TRANSACTION_SEQ_NO {
      return key;
    }
    result := AppendLittleEndian(key, seqNo, 8);
  }

  method ParseLogRecordKey(key: Bytes) returns (r: ParsedKey)
    ensures r == ParseKey(key)
  {
    if |key| < 8 {
      return ParsedKey(key, NON_TRANSACTION_SEQ_NO);
    }
    var seqNo := ReadLittleEndian(key, |key| - 8, 8);
    assert key[|key| - 8..|key|] == key[|key| - 8..];
    if seqNo == NON_TRANSACTION_SEQ_NO {
      return ParsedKey(key, NON_TRANSACTION_SEQ_NO);
    }
    return ParsedKey(key[..|key| - 8], seqNo);
  }

  /** A key no suffix of which can be taken for a sequence number. */
  predicate Unambiguous(key: Bytes) {
    |key| < 8 || key[|key| - 8..] == Zeros(8)
  }

  /** A key is parsed as plain exactly when it is unambiguous. */
  lemma PlainKeyIff(key: Bytes)
    ensures ParseKey(key) == ParsedKey(key, NON_TRANSACTION_SEQ_NO) <==> Unambiguous(key)
    ensures !Unambiguous(key) ==> ParseKey(key).seqNo != NON_TRANSACTION_SEQ_NO
  {
    if |key| >= 8 {
      FromLittleEndianZero(key[|key| - 8..]);
    }
  }

  lemma TaggedKeyParses(key: Bytes, seqNo: nat)
    requires 0 < seqNo < UINT64_LIMIT
    ensures ParseKey(TagKey(key, seqNo)) == ParsedKey(key, seqNo)
  {
    var tagged := TagKey(key, seqNo);
    assert tagged[|tagged| - 8..] == LittleEndian(seqNo, 8);
    assert tagged[..|tagged| - 8] == key;
    Pow256Values();
    FromToLittleEndian(seqNo, 8);
  }

  /** Parsing undoes tagging for every key and every nonzero number, and for number zero exactly
      when the key is unambiguous. */
  lemma ParseTagIff(key: Bytes, seqNo: uint64)
    ensures ParseKey(TagKey(key, seqNo)) == ParsedKey(key, seqNo)
       <==> seqNo != NON_TRANSACTION_SEQ_NO || Unambiguous(key)
  {
    if seqNo == NON_TRANSACTION_SEQ_NO {
      PlainKeyIff(key);
    } else {
      TaggedKeyParses(key, seqNo);
    }
  }

  /** Parsing loses nothing: the tagged key can be built again from what it was parsed into. */
  lemma TagParse(key: Bytes)
    ensures TagKey(ParseKey(key).realKey, ParseKey(key).seqNo) == key
    ensures ParseKey(key).seqNo < UINT64_LIMIT
    ensures |ParseKey(key).realKey| <= |key|
  {
    if |key| >= 8 {
      ToFromLittleEndian(key[|key| - 8..]);
      Pow256Values();
      FromLittleEndianBound(key[|key| - 8..]);
      assert key == key[..|key| - 8] + key[|key| - 8..];
    }
  }
}
