/** What the varint decoder makes of any bytes, and of an encoding cut short. */
module VarintBuffers {
  import opened ByteStrings
  import opened Varints

  /** The number that groups of seven bits stand for, lowest first. */
  function GroupsValue(groups: Bytes): nat {
    if groups == [] then 0
    else
      var n := |groups| - 1;
      GroupsValue(groups[..n]) + groups[n] % 0x80 * Pow128(n)
  }

  ghost predicate EndsAt(buffer: Bytes, i: nat) {
    i < |buffer| && buffer[i] < 0x80 && forall j | 0 <= j < i :: buffer[j] >= 0x80
  }

  lemma {:induction false} GroupsBound(groups: Bytes)
    ensures GroupsValue(groups) < Pow128(|groups|)
  {
    if groups != [] {
      var n := |groups| - 1;
      GroupsBound(groups[..n]);
      GroupBound(groups[n] % 0x80, Pow128(n));
    }
  }

  lemma GroupBound(g: nat, weight: nat)
    requires g < 0x80
    ensures 0 <= g * weight <= 0x7F * weight
  {
  }

  lemma {:induction false} Pow128Monotone(m: nat, n: nat)
    requires m <= n
    ensures Pow128(m) <= Pow128(n)
  {
    if m < n {
      Pow128Monotone(m, n - 1);
    }
  }

  /** The 64-bit accumulator holds the groups read so far, cut to 64 bits by the tenth only. */
  lemma OneMoreGroup(buffer: Bytes, pos: nat)
    requires pos < |buffer| && pos <= 9
    ensures var value := GroupsValue(buffer[..pos]);
            value + buffer[pos] % 0x80 * Pow128(pos) % UINT64_LIMIT == GroupsValue(buffer[..pos + 1]) % UINT64_LIMIT
    ensures pos < 9 ==> GroupsValue(buffer[..pos + 1]) < UINT64_LIMIT
  {
    var value, g := GroupsValue(buffer[..pos]), buffer[pos] % 0x80;
    assert buffer[..pos + 1][..pos] == buffer[..pos];
    GroupsBound(buffer[..pos]);
    Pow128Values();
    if pos < 9 {
      GroupsBound(buffer[..pos + 1]);
      Pow128Monotone(pos + 1, 9);
      GroupBound(g, Pow128(pos));
    } else {
      assert g * Pow128(9) == g * 0x8000_0000_0000_0000;
    }
  }

  lemma {:induction false} DecodeFromMeans(buffer: Bytes, pos: nat)
    requires pos <= |buffer| && pos <= 9
    requires forall j | 0 <= j < pos :: buffer[j] >= 0x80
    ensures match DecodeFrom(buffer, pos, GroupsValue(buffer[..pos]))
            case Decoded(value, length) =>
              0 < length <= 10 && EndsAt(buffer, length - 1) && value == GroupsValue(buffer[..length]) % UINT64_LIMIT
            case TooLong => |buffer| >= 10 && forall j | 0 <= j < 10 :: buffer[j] >= 0x80
            case Incomplete => |buffer| < 10 && forall j | 0 <= j < |buffer| :: buffer[j] >= 0x80
            case EmptyBuffer => false
    decreases |buffer| - pos
  {
    if pos < |buffer| {
      hide GroupsValue, Pow128;
      OneMoreGroup(buffer, pos);
      if buffer[pos] >= 0x80 && pos < 9 {
        DecodeFromMeans(buffer, pos + 1);
      }
    }
  }

  /** What decoding makes of any bytes: the groups up to the first byte without the top bit, cut to 64
      bits, if there is one among the first ten; otherwise which of the errors. */
  lemma DecodeVarintMeans(buffer: Bytes)
    ensures match DecodeVarint(buffer)
            case Decoded(value, length) =>
              0 < length <= 10 && EndsAt(buffer, length - 1) && value == GroupsValue(buffer[..length]) % UINT64_LIMIT
            case EmptyBuffer => buffer == []
            case TooLong => |buffer| >= 10 && forall j | 0 <= j < 10 :: buffer[j] >= 0x80
            case Incomplete => 0 < |buffer| < 10 && forall j | 0 <= j < |buffer| :: buffer[j] >= 0x80
  {
    assert GroupsValue(buffer[..0]) == 0;
    DecodeFromMeans(buffer, 0);
  }

  lemma {:induction false} TopBits(v: nat, i: nat)
    requires i < |Varint(v)|
    ensures Varint(v)[i] >= 0x80 <==> i < |Varint(v)| - 1
  {
    if v >= 0x80 && i > 0 {
      TopBits(v / 0x80, i - 1);
    }
  }

  /** A varint cut short is not decoded. */
  lemma CutVarint(v: uint64, k: nat)
    requires k < |Varint(v)|
    ensures !DecodeVarint(Varint(v)[..k]).Decoded?
  {
    var cut := Varint(v)[..k];
    forall i | 0 <= i < k ensures cut[i] >= 0x80 {
      TopBits(v, i);
    }
    DecodeVarintMeans(cut);
  }
}
