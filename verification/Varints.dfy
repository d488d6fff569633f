/** The variable-length integer format of log headers and encoded positions: seven bits a
    byte, lowest group first, the top bit set on every byte but the last. */
module Varints {
  import opened ByteStrings

  datatype VarintResult =
    | Decoded(value: nat, length: nat)
    | EmptyBuffer
    | TooLong
    | Incomplete

  /** The format itself. */
  function Varint(v: nat): (s: Bytes)
    ensures 1 <= |s|
  {
    if v < 0x80 then [v] else [v % 0x80 + 0x80] + Varint(v / 0x80)
  }

  function Pow128(n: nat): (p: nat)
    ensures p > 0
  {
    if n == 0 then 1 else 0x80 * Pow128(n - 1)
  }

  /** What is still to be read of a varint whose first `pos` bytes, worth `value`, have been
      consumed. The shift of byte `pos` is 7 * pos and a shift of 64 or more is refused. The
      tenth byte is shifted by 63, so the 64-bit accumulator keeps only its lowest bit. */
  function DecodeFrom(buffer: Bytes, pos: nat, value: nat): (r: VarintResult)
    requires pos <= |buffer|
    ensures r.Decoded? ==> pos < r.length <= |buffer| && r.length <= pos + |buffer[pos..]|
    decreases |buffer| - pos
  {
    if pos == |buffer| then
      Incomplete
    else
      var value' := value + buffer[pos] % 0x80 * Pow128(pos) % UINT64_LIMIT;
      if buffer[pos] < 0x80 then Decoded(value', pos + 1)
      else if 7 * (pos + 1) >= 64 then TooLong
      else DecodeFrom(buffer, pos + 1, value')
  }

  function DecodeVarint(buffer: Bytes): (r: VarintResult)
    ensures r.Decoded? ==> 0 < r.length <= |buffer|
  {
    if buffer == [] then EmptyBuffer else DecodeFrom(buffer, 0, 0)
  }

  // ----- the encoding and decoding loops

  method EncodeVarint(value: nat) returns (buffer: Bytes)
    ensures buffer == Varint(value)
  {
    buffer := [];
    var v := value;
    while v >= 0x80
      invariant 0 <= v
      invariant buffer + Varint(v) == Varint(value)
    {
      buffer := buffer + [v % 0x80 + 0x80];
      v := v / 0x80;
    }
    buffer := buffer + [v];
  }

  method ReadVarint(buffer: Bytes) returns (r: VarintResult)
    ensures r == DecodeVarint(buffer)
  {
    if |buffer| == 0 {
      return EmptyBuffer;
    }
    var result, pos, shift, weight := 0, 0, 0, 1;
    while pos < |buffer|
      invariant 0 <= pos <= |buffer| && shift == 7 * pos && 0 <= result
      invariant weight == Pow128(pos)
      invariant DecodeFrom(buffer, 0, 0) == DecodeFrom(buffer, pos, result)
    {
      var b := buffer[pos];
      pos := pos + 1;
      result := result + b % 0x80 * weight % UINT64_LIMIT;
      if b < 0x80 {
        return Decoded(result, pos);
      }
      shift := shift + 7;
      if shift >= 64 {
        return TooLong;
      }
      weight := 0x80 * weight;
    }
    return Incomplete;
  }

  /** The length counted by the loop of the record size computation. */
  method VarintLength(value: nat) returns (length: nat)
    ensures length == |Varint(value)|
  {
    length := 0;
    var v := value;
    while v >= 0x80
      invariant 0 <= v
      invariant length + |Varint(v)| == |Varint(value)|
    {
      length := length + 1;
      v := v / 0x80;
    }
    length := length + 1;
  }

  // ----- properties of the format

  lemma {:induction false} VarintLengthBound(v: nat, n: nat)
    requires 0 < n && v < Pow128(n)
    ensures |Varint(v)| <= n
  {
    if v >= 0x80 {
      VarintLengthBound(v / 0x80, n - 1);
    }
  }

  lemma {:induction false} VarintLengthMonotone(v: nat, w: nat)
    requires v <= w
    ensures |Varint(v)| <= |Varint(w)|
  {
    if v >= 0x80 {
      VarintLengthMonotone(v / 0x80, w / 0x80);
    }
  }

  lemma Pow128Values()
    ensures Pow128(4) == 0x1000_0000
    ensures Pow128(5) == 0x8_0000_0000
    ensures Pow128(9) == 0x8000_0000_0000_0000
    ensures Pow128(10) == 0x40_0000_0000_0000_0000
  {
    assert Pow128(4) == 0x80 * (0x80 * (0x80 * (0x80 * Pow128(0))));
    assert Pow128(5) == 0x80 * Pow128(4);
    assert Pow128(9) == 0x80 * (0x80 * (0x80 * (0x80 * Pow128(5))));
  }

  /** A 64-bit number takes at most ten bytes, a 32-bit one at most five. */
  lemma VarintWidth(v: uint64)
    ensures |Varint(v)| <= 10
    ensures v < UINT32_LIMIT ==> |Varint(v)| <= 5
  {
    Pow128Values();
    VarintLengthBound(v, 10);
    if v < UINT32_LIMIT {
      VarintLengthBound(v, 5);
    }
  }

  /** Splitting `v` into its low seven bits and the rest splits its weighted value. */
  lemma SplitGroup(v: nat, weight: nat)
    requires v * weight < UINT64_LIMIT
    ensures v % 0x80 * weight % UINT64_LIMIT == v % 0x80 * weight
    ensures v * weight == v / 0x80 * (0x80 * weight) + v % 0x80 * weight
    ensures v >= 0x80 ==> 0x80 * weight < UINT64_LIMIT
  {
    var low, high := v % 0x80, v / 0x80;
    assert v == 0x80 * high + low;
    assert (0x80 * high + low) * weight == high * (0x80 * weight) + low * weight;
    assert 0 <= high * (0x80 * weight) && 0 <= low * weight;
    assert v >= 0x80 ==> v * weight >= 0x80 * weight;
  }

  /** The decoder accumulates exactly `v * 128^pos` for the groups of `v` that start at `pos`:
      nothing of a 64-bit number is cut off by the 64-bit accumulator. */
  lemma {:induction false} DecodeFromVarint(before: Bytes, v: nat, rest: Bytes, value: nat)
    requires v * Pow128(|before|) < UINT64_LIMIT
    requires |before| <= 9
    ensures DecodeFrom(before + Varint(v) + rest, |before|, value)
         == Decoded(value + v * Pow128(|before|), |before| + |Varint(v)|)
    decreases v
  {
    hide DecodeFrom, Pow128;
    var buffer := before + Varint(v) + rest;
    var pos, weight := |before|, Pow128(|before|);
    var low, high := v % 0x80, v / 0x80;
    assert buffer[pos] == Varint(v)[0];
    SplitGroup(v, weight);
    NextWeight(pos);
    DecodeStep(buffer, pos, value);
    if v >= 0x80 {
      assert pos != 9 by { Pow128Values(); }
      var before' := before + [low + 0x80];
      DecodeFromVarint(before', high, rest, value + low * weight);
      assert before' + Varint(high) + rest == buffer;
    }
  }

  lemma NextWeight(n: nat)
    ensures Pow128(n + 1) == 0x80 * Pow128(n)
  {
  }

  /** One step of the decoder. */
  lemma DecodeStep(buffer: Bytes, pos: nat, value: nat)
    requires pos < |buffer| && pos <= 9
    ensures var value' := value + buffer[pos] % 0x80 * Pow128(pos) % UINT64_LIMIT;
            DecodeFrom(buffer, pos, value) ==
              if buffer[pos] < 0x80 then Decoded(value', pos + 1)
              else if pos == 9 then TooLong
              else DecodeFrom(buffer, pos + 1, value')
  {
  }

  /** Every 64-bit number decodes to itself from the front of any buffer that starts with its
      encoding, whatever bytes follow. */
  lemma DecodeEncodeVarint(v: uint64, rest: Bytes)
    ensures DecodeVarint(Varint(v) + rest) == Decoded(v, |Varint(v)|)
  {
    DecodeFromVarint([], v, rest, 0);
    assert [] + Varint(v) + rest == Varint(v) + rest;
  }

  /** Two encodings that start at the same place of one buffer are the same encoding. */
  lemma VarintPrefixFree(v: uint64, w: uint64, s: Bytes, t: Bytes)
    requires Varint(v) + s == Varint(w) + t
    ensures v == w && s == t
  {
    DecodeEncodeVarint(v, s);
    DecodeEncodeVarint(w, t);
    assert s == (Varint(v) + s)[|Varint(v)|..];
    assert t == (Varint(w) + t)[|Varint(w)|..];
  }
}
