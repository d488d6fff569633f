/** Bytes, fixed-width unsigned integers and the little-endian number format that every
    on-disk structure of the engine uses. */
module ByteStrings {

  type byte = b: int | 0 <= b < 256

  type Bytes = seq<byte>

  const UINT32_LIMIT := 0x1_0000_0000
  const UINT64_LIMIT := 0x1_0000_0000_0000_0000

  type uint32 = n: int | 0 <= n < UINT32_LIMIT
  type uint64 = n: int | 0 <= n < UINT64_LIMIT

  function Pow256(n: nat): (p: nat)
    ensures p > 0
  {
    if n == 0 then 1 else 256 * Pow256(n - 1)
  }

  lemma Pow256Values()
    ensures Pow256(4) == UINT32_LIMIT
    ensures Pow256(8) == UINT64_LIMIT
  {
    assert Pow256(4) == 256 * (256 * (256 * (256 * Pow256(0))));
    assert Pow256(8) == 256 * (256 * (256 * (256 * Pow256(4))));
  }

  function Zeros(n: nat): (s: Bytes)
    ensures |s| == n
  {
    seq(n, i => 0)
  }

  lemma ConcatAssociative(a: Bytes, b: Bytes, c: Bytes)
    ensures a + b + c == a + (b + c)
  {
  }

  function LittleEndian(v: nat, n: nat): (s: Bytes)
    ensures |s| == n
  {
    if n == 0 then [] else [v % 256] + LittleEndian(v / 256, n - 1)
  }

  function FromLittleEndian(s: Bytes): nat
  {
    if s == [] then 0 else s[0] + 256 * FromLittleEndian(s[1..])
  }

  // ----- the two directions are inverse to each other

  lemma {:induction false} FromToLittleEndian(v: nat, n: nat)
    requires v < Pow256(n)
    ensures FromLittleEndian(LittleEndian(v, n)) == v
  {
    if n > 0 {
      FromToLittleEndian(v / 256, n - 1);
      assert LittleEndian(v, n)[1..] == LittleEndian(v / 256, n - 1);
    }
  }

  lemma {:induction false} FromLittleEndianBound(s: Bytes)
    ensures FromLittleEndian(s) < Pow256(|s|)
  {
    if s != [] {
      FromLittleEndianBound(s[1..]);
    }
  }

  lemma {:induction false} ToFromLittleEndian(s: Bytes)
    ensures LittleEndian(FromLittleEndian(s), |s|) == s
  {
    if s != [] {
      ToFromLittleEndian(s[1..]);
      var v := FromLittleEndian(s);
      assert v % 256 == s[0] && v / 256 == FromLittleEndian(s[1..]);
      assert s == [s[0]] + s[1..];
    }
  }

  lemma {:induction false} FromLittleEndianZero(s: Bytes)
    ensures FromLittleEndian(s) == 0 <==> s == Zeros(|s|)
  {
    if s != [] {
      FromLittleEndianZero(s[1..]);
      assert s == [s[0]] + s[1..];
      assert Zeros(|s|) == [0] + Zeros(|s| - 1);
    }
  }

  // ----- one more byte at the high end: the step of the loops that read and write numbers

  lemma {:induction false} FromLittleEndianSnoc(s: Bytes, b: byte)
    ensures FromLittleEndian(s + [b]) == FromLittleEndian(s) + b * Pow256(|s|)
  {
    if s == [] {
      assert FromLittleEndian([b]) == b + 256 * FromLittleEndian([]);
      assert s + [b] == [b];
    } else {
      FromLittleEndianSnoc(s[1..], b);
      assert (s + [b])[1..] == s[1..] + [b];
      var p := Pow256(|s| - 1);
      assert 256 * (b * p) == b * (256 * p);
    }
  }

  lemma DivideBy256First(v: nat, b: nat)
    requires b > 0
    ensures v / 256 / b == v / (256 * b)
  {
    var q, r := v / 256, v % 256;
    var q2, r2 := q / b, q % b;
    assert q == b * q2 + r2;
    assert (256 * b) * q2 == 256 * (b * q2);
    QuotientUnique(v, 256 * b, q2, 256 * r2 + r);
  }

  lemma QuotientUnique(v: int, d: int, q: int, r: int)
    requires d > 0 && v == d * q + r && 0 <= r < d
    ensures v / d == q
  {
    var q', r' := v / d, v % d;
    assert v == d * q' + r';
    assert d * (q - q') == r' - r;
    assert q - q' >= 1 ==> d * (q - q') >= d;
    assert q - q' <= -1 ==> d * (q - q') <= -d;
  }

  lemma {:induction false} LittleEndianSnoc(v: nat, n: nat)
    ensures LittleEndian(v, n + 1) == LittleEndian(v, n) + [v / Pow256(n) % 256]
  {
    if n == 0 {
      assert LittleEndian(v, 1) == [v % 256] + LittleEndian(v / 256, 0);
    } else {
      LittleEndianSnoc(v / 256, n - 1);
      DivideBy256First(v, Pow256(n - 1));
    }
  }

  /** Appends `v` to `buffer` as `width` little-endian bytes, lowest byte first. */
  method AppendLittleEndian(buffer: Bytes, v: nat, width: nat) returns (result: Bytes)
    ensures result == buffer + LittleEndian(v, width)
  {
    result := buffer;
    for i := 0 to width
      invariant result == buffer + LittleEndian(v, i)
    {
      LittleEndianSnoc(v, i);
      result := result + [v / Pow256(i) % 256];
    }
  }

  /** Reads `width` little-endian bytes of `data` starting at `offset`. */
  method ReadLittleEndian(data: Bytes, offset: nat, width: nat) returns (v: nat)
    requires offset + width <= |data|
    ensures v == FromLittleEndian(data[offset..offset + width])
    ensures v < Pow256(width)
  {
    v := 0;
    for i := 0 to width
      invariant v == FromLittleEndian(data[offset..offset + i])
    {
      FromLittleEndianSnoc(data[offset..offset + i], data[offset + i]);
      assert data[offset..offset + i + 1] == data[offset..offset + i] + [data[offset + i]];
      v := v + data[offset + i] * Pow256(i);
    }
    FromLittleEndianBound(data[offset..offset + width]);
  }
}
