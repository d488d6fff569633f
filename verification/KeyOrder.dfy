/** The order on keys: byte by byte, a proper prefix first. */
module KeyOrder {
  import opened ByteStrings

  predicate Less(a: Bytes, b: Bytes) {
    b != [] && (a == [] || a[0] < b[0] || (a[0] == b[0] && Less(a[1..], b[1..])))
  }

  predicate AtMost(a: Bytes, b: Bytes) {
    a == b || Less(a, b)
  }

  lemma {:induction false} LessIrreflexive(a: Bytes)
    ensures !Less(a, a)
  {
    if a != [] {
      LessIrreflexive(a[1..]);
    }
  }

  lemma {:induction false} LessTransitive(a: Bytes, b: Bytes, c: Bytes)
    requires Less(a, b) && Less(b, c)
    ensures Less(a, c)
  {
    if a != [] && a[0] == b[0] && b[0] == c[0] {
      LessTransitive(a[1..], b[1..], c[1..]);
    }
  }

  lemma {:induction false} LessTotal(a: Bytes, b: Bytes)
    ensures Less(a, b) || a == b || Less(b, a)
  {
    if a != [] && b != [] && a[0] == b[0] {
      LessTotal(a[1..], b[1..]);
      assert a == [a[0]] + a[1..] && b == [b[0]] + b[1..];
    }
  }

  lemma LessAsymmetric(a: Bytes, b: Bytes)
    requires Less(a, b)
    ensures !Less(b, a) && a != b
  {
    LessIrreflexive(a);
    if Less(b, a) {
      LessTransitive(a, b, a);
    }
  }

  /** Compares up to the shorter length, then the lengths: a total lexicographic order. */
  method CompareKeys(a: Bytes, b: Bytes) returns (r: int)
    ensures r == -1 || r == 0 || r == 1
    ensures r < 0 <==> Less(a, b)
    ensures r == 0 <==> a == b
    ensures r > 0 <==> Less(b, a)
  {
    var minLen := if |a| < |b| then |a| else |b|;
    LessTotal(a, b);
    for i := 0 to minLen
      invariant a[..i] == b[..i]
      invariant Less(a, b) == Less(a[i..], b[i..])
      invariant Less(b, a) == Less(b[i..], a[i..])
    {
      assert a[i..][1..] == a[i + 1..] && b[i..][1..] == b[i + 1..];
      if a[i] < b[i] {
        return -1;
      }
      if a[i] > b[i] {
        return 1;
      }
    }
    if |a| < |b| {
      return -1;
    }
    if |a| > |b| {
      return 1;
    }
    assert a[..minLen] == a && b[..minLen] == b;
    LessIrreflexive(a);
    return 0;
  }

  // ----- sorted lists of keys

  ghost predicate Sorted(keys: seq<Bytes>) {
    forall i, j | 0 <= i < j < |keys| :: Less(keys[i], keys[j])
  }

  // ----- prefixes

  lemma {:induction false} PrefixAtMost(prefix: Bytes, key: Bytes)
    requires prefix <= key
    ensures AtMost(prefix, key)
  {
    if prefix != [] {
      PrefixAtMost(prefix[1..], key[1..]);
      assert prefix == [prefix[0]] + prefix[1..] && key == [key[0]] + key[1..];
    }
  }

  /** The keys with a prefix are convex: whatever lies between the prefix and one of them has it. */
  lemma {:induction false} PrefixConvex(prefix: Bytes, key: Bytes, other: Bytes)
    requires AtMost(prefix, key) && Less(key, other) && prefix <= other
    ensures prefix <= key
  {
    if prefix != [] && prefix != key {
      if prefix[0] == key[0] {
        PrefixConvex(prefix[1..], key[1..], other[1..]);
        assert prefix == [prefix[0]] + prefix[1..] && key == [key[0]] + key[1..];
      }
    }
  }
}
