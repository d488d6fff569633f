/** The index file of the B+ tree: nodes written one inside the other, read back from a stream. */
module BPlusFile {
  import opened Sequences
  import opened ByteStrings
  import opened LogRecords

  const LEAF: byte := 1
  const MAX_KEYS := 64

  /** Leaves use `values`, all other nodes `children`. */
  datatype Node = Node(kind: byte, keys: seq<Bytes>, values: seq<LogRecordPos>, children: seq<Node>)

  // ----- writing

  function EncodeBytes(s: Bytes): Bytes {
    var size := |s| % UINT32_LIMIT;
    LittleEndian(size, 4) + s[..size]
  }

  function EncodeKeys(keys: seq<Bytes>): Bytes {
    if keys == [] then [] else EncodeBytes(keys[0]) + EncodeKeys(keys[1..])
  }

  function EncodePlace(pos: LogRecordPos): Bytes {
    LittleEndian(pos.fid, 4) + (LittleEndian(pos.offset, 8) + LittleEndian(pos.size, 4))
  }

  function EncodePlaces(values: seq<LogRecordPos>): Bytes {
    if values == [] then [] else EncodePlace(values[0]) + EncodePlaces(values[1..])
  }

  function Header(node: Node): Bytes {
    [node.kind] + LittleEndian(|node.keys| % UINT32_LIMIT, 4)
  }

  function EncodeNode(node: Node): Bytes
    decreases node, |node.children| + 2
  {
    Header(node) + (EncodeKeys(node.keys) +
      if node.kind == LEAF then EncodePlaces(node.values) else EncodeChildren(node, 0))
  }

  /** The children from the `i`-th on. */
  function EncodeChildren(node: Node, i: nat): Bytes
    requires i <= |node.children|
    decreases node, |node.children| + 1 - i
  {
    if i == |node.children| then [] else EncodeNode(node.children[i]) + EncodeChildren(node, i + 1)
  }

  method SerializeBytes(s: Bytes, os: Bytes) returns (os': Bytes)
    ensures os' == os + EncodeBytes(s)
  {
    var size := |s| % UINT32_LIMIT;
    os' := AppendLittleEndian(os, size, 4);
    os' := os' + s[..size];
  }

  method SerializePos(pos: LogRecordPos, os: Bytes) returns (os': Bytes)
    ensures os' == os + EncodePlace(pos)
  {
    hide LittleEndian;
    os' := AppendLittleEndian(os, pos.fid, 4);
    os' := AppendLittleEndian(os', pos.offset, 8);
    os' := AppendLittleEndian(os', pos.size, 4);
  }

  method SerializeNode(node: Node, os: Bytes) returns (os': Bytes)
    ensures os' == os + EncodeNode(node)
    decreases node
  {
    hide LittleEndian, EncodeBytes, EncodePlace;
    os' := os + [node.kind];
    os' := AppendLittleEndian(os', |node.keys| % UINT32_LIMIT, 4);
    assert os' == os + Header(node);
    ghost var start := os';
    assert EncodeKeys([]) == [];
    for i := 0 to |node.keys|
      invariant os' + EncodeKeys(node.keys[i..]) == start + EncodeKeys(node.keys)
    {
      assert node.keys[i..][1..] == node.keys[i + 1..];
      ghost var before := os';
      os' := SerializeBytes(node.keys[i], os');
      ConcatAssociative(before, EncodeBytes(node.keys[i]), EncodeKeys(node.keys[i + 1..]));
    }
    assert os' + [] == os' && node.keys[|node.keys|..] == [];
    start := os';
    if node.kind == LEAF {
      for i := 0 to |node.values|
        invariant os' + EncodePlaces(node.values[i..]) == start + EncodePlaces(node.values)
      {
        assert node.values[i..][1..] == node.values[i + 1..];
        ghost var before := os';
        os' := SerializePos(node.values[i], os');
        ConcatAssociative(before, EncodePlace(node.values[i]), EncodePlaces(node.values[i + 1..]));
      }
      assert os' + [] == os' && node.values[|node.values|..] == [];
    } else {
      for i := 0 to |node.children|
        invariant os' + EncodeChildren(node, i) == start + EncodeChildren(node, 0)
      {
        ghost var before := os';
        os' := SerializeNode(node.children[i], os');
        ConcatAssociative(before, EncodeNode(node.children[i]), EncodeChildren(node, i + 1));
      }
      assert os' + [] == os';
    }
    assert os' == os + Header(node) + EncodeKeys(node.keys) +
                  if node.kind == LEAF then EncodePlaces(node.values) else EncodeChildren(node, 0);
  }

  // ----- reading

  datatype Read<+T> = Read(value: T, next: nat) | Refused | TooShort

  function ReadNumber(data: Bytes, cursor: nat, width: nat): (r: Read<nat>)
    requires width <= 8
    ensures r.Read? ==> r.value < Pow256(width) && r.next == cursor + width <= |data|
    ensures !r.Refused?
  {
    if cursor + width > |data| then TooShort
    else
      FromLittleEndianBound(data[cursor..cursor + width]);
      Read.Read(FromLittleEndian(data[cursor..cursor + width]), cursor + width)
  }

  function ReadBytes(data: Bytes, cursor: nat): (r: Read<Bytes>)
    ensures r.Read? ==> cursor <= r.next <= |data|
  {
    match ReadNumber(data, cursor, 4)
    case Read(size, next) =>
      if next + size > |data| then TooShort else Read.Read(data[next..next + size], next + size)
    case _ => TooShort
  }

  function ReadKeys(data: Bytes, cursor: nat, count: nat): (r: Read<seq<Bytes>>)
    ensures r.Read? ==> |r.value| == count && cursor <= r.next
    decreases count
  {
    if count == 0 then Read.Read([], cursor)
    else
      match ReadBytes(data, cursor)
      case Read(key, next) => Before([key], ReadKeys(data, next, count - 1))
      case _ => TooShort
  }

  function Before<T>(items: seq<T>, rest: Read<seq<T>>): Read<seq<T>> {
    match rest
    case Read(more, next) => Read.Read(items + more, next)
    case Refused => Refused
    case TooShort => TooShort
  }

  function ReadPlace(data: Bytes, cursor: nat): (r: Read<LogRecordPos>)
    ensures r.Read? ==> cursor <= r.next
  {
    match ReadNumber(data, cursor, 4)
    case Read(fid, next) =>
      (match ReadNumber(data, next, 8)
       case Read(offset, next') =>
         (match ReadNumber(data, next', 4)
          case Read(size, end) => Read.Read(LogRecordPos(fid, offset, size), end)
          case _ => TooShort)
       case _ => TooShort)
    case _ => TooShort
  }

  function ReadPlaces(data: Bytes, cursor: nat, count: nat): (r: Read<seq<LogRecordPos>>)
    ensures r.Read? ==> |r.value| == count && cursor <= r.next
    decreases count
  {
    if count == 0 then Read.Read([], cursor)
    else
      match ReadPlace(data, cursor)
      case Read(pos, next) => Before([pos], ReadPlaces(data, next, count - 1))
      case _ => TooShort
  }

  function Left(data: Bytes, cursor: nat): nat {
    if cursor <= |data| then |data| - cursor else 0
  }

  /** A node with more than twice the maximal number of keys is refused. */
  function ReadNode(data: Bytes, cursor: nat): (r: Read<Node>)
    ensures r.Read? ==> cursor + 5 <= r.next && cursor + 5 <= |data|
    decreases Left(data, cursor), 0, 0
  {
    if cursor >= |data| then TooShort
    else
      match ReadNumber(data, cursor + 1, 4)
      case Read(count, next) =>
        if count > MAX_KEYS * 2 then Refused
        else
          (match ReadKeys(data, next, count)
           case Read(keys, next') => ReadRest(data, next', data[cursor], keys)
           case _ => TooShort)
      case _ => TooShort
  }

  function ReadRest(data: Bytes, cursor: nat, kind: byte, keys: seq<Bytes>): (r: Read<Node>)
    ensures r.Read? ==> cursor <= r.next
    decreases Left(data, cursor), 2, 0
  {
    if kind == LEAF then
      (match ReadPlaces(data, cursor, |keys|)
       case Read(values, next) => Read.Read(Node(kind, keys, values, []), next)
       case _ => TooShort)
    else
      match ReadChildren(data, cursor, |keys| + 1)
      case Read(children, next) => Read.Read(Node(kind, keys, [], children), next)
      case Refused => Refused
      case TooShort => TooShort
  }

  function ReadChildren(data: Bytes, cursor: nat, count: nat): (r: Read<seq<Node>>)
    ensures r.Read? ==> |r.value| == count && cursor <= r.next
    decreases Left(data, cursor), 1, count
  {
    if count == 0 then Read.Read([], cursor)
    else
      match ReadNode(data, cursor)
      case Read(child, next) => Before([child], ReadChildren(data, next, count - 1))
      case Refused => Refused
      case TooShort => TooShort
  }

  lemma BeforeSnoc<T>(items: seq<T>, item: T, rest: Read<seq<T>>)
    ensures Before(items, Before([item], rest)) == Before(items + [item], rest)
    ensures Before([], rest) == rest
  {
    assert rest.Read? ==> items + ([item] + rest.value) == items + [item] + rest.value && [] + rest.value == rest.value;
  }

  /** A stream over the bytes of the file. */
  class ByteStream {
    const data: Bytes
    var cursor: nat

    constructor (data: Bytes)
      ensures this.data == data && cursor == 0
    {
      this.data, cursor := data, 0;
    }

    method Number(width: nat) returns (r: Read<nat>)
      requires width <= 8
      modifies this
      ensures r == ReadNumber(data, old(cursor), width)
      ensures r.Read? ==> cursor == r.next
    {
      if cursor + width > |data| {
        return TooShort;
      }
      var value := ReadLittleEndian(data, cursor, width);
      cursor := cursor + width;
      return Read.Read(value, cursor);
    }

    method DeserializeBytes() returns (r: Read<Bytes>)
      modifies this
      ensures r == ReadBytes(data, old(cursor))
      ensures r.Read? ==> cursor == r.next
    {
      hide ReadNumber;
      var size := Number(4);
      if !size.Read? || cursor + size.value > |data| {
        return TooShort;
      }
      var bytes := data[cursor..cursor + size.value];
      cursor := cursor + size.value;
      return Read.Read(bytes, cursor);
    }

    method DeserializePos() returns (r: Read<LogRecordPos>)
      modifies this
      ensures r == ReadPlace(data, old(cursor))
      ensures r.Read? ==> cursor == r.next
    {
      hide ReadNumber;
      var fid := Number(4);
      if !fid.Read? {
        return TooShort;
      }
      var offset := Number(8);
      if !offset.Read? {
        return TooShort;
      }
      var size := Number(4);
      if !size.Read? {
        return TooShort;
      }
      return Read.Read(LogRecordPos(fid.value, offset.value, size.value), cursor);
    }

    method DeserializeNode() returns (r: Read<Node>)
      modifies this
      ensures r == ReadNode(data, old(cursor))
      ensures r.Read? ==> cursor == r.next
      decreases Left(data, cursor), 0
    {
      hide ReadNumber, ReadBytes, ReadRest;
      if cursor >= |data| {
        return TooShort;
      }
      var kind := data[cursor];
      cursor := cursor + 1;
      var keyCount := Number(4);
      if !keyCount.Read? {
        return TooShort;
      }
      var count := keyCount.value;
      if count > MAX_KEYS * 2 {
        return Refused;
      }
      ghost var start := cursor;
      var keys: seq<Bytes> := [];
      BeforeSnoc([], [], ReadKeys(data, start, count));
      for i := 0 to count
        invariant start <= cursor
        invariant Before(keys, ReadKeys(data, cursor, count - i)) == ReadKeys(data, start, count)
      {
        var key := DeserializeBytes();
        if !key.Read? {
          return TooShort;
        }
        BeforeSnoc(keys, key.value, ReadKeys(data, cursor, count - i - 1));
        keys := keys + [key.value];
      }
      assert keys + [] == keys;
      r := DeserializeRest(kind, keys);
    }

    method DeserializeRest(kind: byte, keys: seq<Bytes>) returns (r: Read<Node>)
      modifies this
      ensures r == ReadRest(data, old(cursor), kind, keys)
      ensures r.Read? ==> cursor == r.next
      decreases Left(data, cursor), 1
    {
      hide ReadNode, ReadPlace;
      ghost var start := cursor;
      if kind == LEAF {
        var values: seq<LogRecordPos> := [];
        BeforeSnoc([], LogRecordPos(0, 0, 0), ReadPlaces(data, start, |keys|));
        for i := 0 to |keys|
          invariant start <= cursor
          invariant Before(values, ReadPlaces(data, cursor, |keys| - i)) == ReadPlaces(data, start, |keys|)
        {
          var pos := DeserializePos();
          if !pos.Read? {
            return TooShort;
          }
          BeforeSnoc(values, pos.value, ReadPlaces(data, cursor, |keys| - i - 1));
          values := values + [pos.value];
        }
        assert values + [] == values;
        return Read.Read(Node(kind, keys, values, []), cursor);
      }
      var children: seq<Node> := [];
      BeforeSnoc([], Node(0, [], [], []), ReadChildren(data, start, |keys| + 1));
      for i := 0 to |keys| + 1
        invariant start <= cursor
        invariant Before(children, ReadChildren(data, cursor, |keys| + 1 - i)) == ReadChildren(data, start, |keys| + 1)
      {
        var child := DeserializeNode();
        if !child.Read? {
          return child;
        }
        BeforeSnoc(children, child.value, ReadChildren(data, cursor, |keys| - i));
        children := children + [child.value];
      }
      assert children + [] == children;
      return Read.Read(Node(kind, keys, [], children), cursor);
    }
  }

  // ----- what was written is read back

  ghost predicate FitKeys(keys: seq<Bytes>) {
    forall i | 0 <= i < |keys| :: |keys[i]| < UINT32_LIMIT
  }

  ghost predicate FitPlaces(values: seq<LogRecordPos>) {
    forall i | 0 <= i < |values| :: values[i].Fits()
  }

  /** A tree as the index builds it: one value per key in a leaf, one child more than keys elsewhere. */
  ghost predicate Shaped(node: Node) {
    && |node.keys| < UINT32_LIMIT && FitKeys(node.keys)
    && if node.kind == LEAF then
         node.children == [] && |node.values| == |node.keys| && FitPlaces(node.values)
       else
         node.values == [] && |node.children| == |node.keys| + 1
         && forall i | 0 <= i < |node.children| :: Shaped(node.children[i])
  }

  predicate Small(node: Node) {
    |node.keys| <= MAX_KEYS * 2 && forall i | 0 <= i < |node.children| :: Small(node.children[i])
  }

  ghost predicate SmallFrom(node: Node, i: nat) {
    forall j | i <= j < |node.children| :: Small(node.children[j])
  }

  lemma NumberReads(data: Bytes, cursor: nat, v: nat, width: nat, b: Bytes, rest: Bytes)
    requires width <= 8 && v < Pow256(width)
    requires GoesOn(data, cursor, LittleEndian(v, width) + b, rest)
    ensures ReadNumber(data, cursor, width) == Read.Read(v, cursor + width)
    ensures GoesOn(data, cursor + width, b, rest)
  {
    Pass(data, cursor, LittleEndian(v, width), b, rest);
    FromToLittleEndian(v, width);
  }

  lemma BytesRead(data: Bytes, cursor: nat, s: Bytes, b: Bytes, rest: Bytes)
    requires |s| < UINT32_LIMIT
    requires GoesOn(data, cursor, EncodeBytes(s) + b, rest)
    ensures ReadBytes(data, cursor) == Read.Read(s, cursor + |EncodeBytes(s)|)
    ensures GoesOn(data, cursor + |EncodeBytes(s)|, b, rest)
  {
    hide LittleEndian, ReadNumber, GoesOn, Pow256;
    Pow256Values();
    assert s[..|s|] == s;
    Pass(data, cursor, EncodeBytes(s), b, rest);
    NumberReads(data, cursor, |s|, 4, s, b + rest);
    assert s + [] == s;
    Pass(data, cursor + 4, s, [], b + rest);
  }

  lemma PlaceReads(data: Bytes, cursor: nat, pos: LogRecordPos, b: Bytes, rest: Bytes)
    requires pos.Fits()
    requires GoesOn(data, cursor, EncodePlace(pos) + b, rest)
    ensures ReadPlace(data, cursor) == Read.Read(pos, cursor + |EncodePlace(pos)|)
    ensures GoesOn(data, cursor + |EncodePlace(pos)|, b, rest)
  {
    hide LittleEndian, ReadNumber, GoesOn, Pow256;
    Pow256Values();
    var (offset, size) := (LittleEndian(pos.offset, 8), LittleEndian(pos.size, 4));
    Pass(data, cursor, EncodePlace(pos), b, rest);
    NumberReads(data, cursor, pos.fid, 4, offset + size, b + rest);
    NumberReads(data, cursor + 4, pos.offset, 8, size, b + rest);
    assert size + [] == size;
    NumberReads(data, cursor + 12, pos.size, 4, [], b + rest);
  }

  lemma {:induction false} KeysRead(data: Bytes, cursor: nat, keys: seq<Bytes>, b: Bytes, rest: Bytes)
    requires FitKeys(keys)
    requires GoesOn(data, cursor, EncodeKeys(keys) + b, rest)
    ensures ReadKeys(data, cursor, |keys|) == Read.Read(keys, cursor + |EncodeKeys(keys)|)
    ensures GoesOn(data, cursor + |EncodeKeys(keys)|, b, rest)
    decreases |keys|
  {
    hide EncodeBytes, ReadBytes, GoesOn;
    if keys == [] {
      assert EncodeKeys(keys) + b == b;
    } else {
      var (first, more) := (EncodeBytes(keys[0]), EncodeKeys(keys[1..]));
      ConcatAssociative(first, more, b);
      BytesRead(data, cursor, keys[0], more + b, rest);
      KeysRead(data, cursor + |first|, keys[1..], b, rest);
      assert [keys[0]] + keys[1..] == keys;
    }
  }

  lemma {:induction false} PlacesRead(data: Bytes, cursor: nat, values: seq<LogRecordPos>, b: Bytes, rest: Bytes)
    requires FitPlaces(values)
    requires GoesOn(data, cursor, EncodePlaces(values) + b, rest)
    ensures ReadPlaces(data, cursor, |values|) == Read.Read(values, cursor + |EncodePlaces(values)|)
    decreases |values|
  {
    hide EncodePlace, ReadPlace, GoesOn;
    if values != [] {
      var (first, more) := (EncodePlace(values[0]), EncodePlaces(values[1..]));
      ConcatAssociative(first, more, b);
      PlaceReads(data, cursor, values[0], more + b, rest);
      PlacesRead(data, cursor + |first|, values[1..], b, rest);
      assert [values[0]] + values[1..] == values;
    }
  }

  /** Reading inverts writing and takes exactly the bytes written when no node of the tree has
      more than 128 keys; when one has, the whole file is refused. */
  lemma {:induction false} ReadInvertsWrite(data: Bytes, cursor: nat, node: Node, rest: Bytes)
    requires Shaped(node) && GoesOn(data, cursor, EncodeNode(node), rest)
    ensures ReadNode(data, cursor) == if Small(node) then Read.Read(node, cursor + |EncodeNode(node)|) else Refused
    decreases node, |node.children| + 2
  {
    hide LittleEndian, ReadNumber, ReadKeys, EncodeKeys, EncodePlaces, EncodeChildren, ReadPlaces, ReadChildren, GoesOn, Pow256, Shaped, FitKeys;
    ShapeOpens(node);
    Pow256Values();
    var (count, keys) := (LittleEndian(|node.keys|, 4), EncodeKeys(node.keys));
    var last := if node.kind == LEAF then EncodePlaces(node.values) else EncodeChildren(node, 0);
    ConcatAssociative([node.kind], count, keys + last);
    FirstByte(data, cursor, node.kind, count + (keys + last), rest);
    NumberReads(data, cursor + 1, |node.keys|, 4, keys + last, rest);
    if |node.keys| <= MAX_KEYS * 2 {
      KeysRead(data, cursor + 5, node.keys, last, rest);
      var next := cursor + 5 + |keys|;
      if node.kind == LEAF {
        assert last + [] == last;
        PlacesRead(data, next, node.values, [], rest);
      } else {
        ChildrenRead(data, next, node, 0, rest);
        assert node.children[0..] == node.children;
      }
    }
  }

  lemma FirstByte(data: Bytes, cursor: nat, first: byte, b: Bytes, rest: Bytes)
    requires GoesOn(data, cursor, [first] + b, rest)
    ensures cursor < |data| && data[cursor] == first && GoesOn(data, cursor + 1, b, rest)
  {
    Pass(data, cursor, [first], b, rest);
  }

  lemma ShapeOpens(node: Node)
    requires Shaped(node)
    ensures |node.keys| < UINT32_LIMIT && FitKeys(node.keys)
    ensures node.kind == LEAF ==> node.children == [] && |node.values| == |node.keys| && FitPlaces(node.values)
    ensures node.kind != LEAF ==> node.values == [] && |node.children| == |node.keys| + 1
    ensures forall i | 0 <= i < |node.children| :: Shaped(node.children[i])
  {
  }

  lemma {:induction false} ChildrenRead(data: Bytes, cursor: nat, node: Node, i: nat, rest: Bytes)
    requires i <= |node.children| && forall j | 0 <= j < |node.children| :: Shaped(node.children[j])
    requires GoesOn(data, cursor, EncodeChildren(node, i), rest)
    ensures ReadChildren(data, cursor, |node.children| - i)
         == if SmallFrom(node, i) then Read.Read(node.children[i..], cursor + |EncodeChildren(node, i)|) else Refused
    decreases node, |node.children| + 1 - i
  {
    hide EncodeNode, ReadNode, Shaped, Small, GoesOn;
    if i < |node.children| {
      var (first, more) := (EncodeNode(node.children[i]), EncodeChildren(node, i + 1));
      Pass(data, cursor, first, more, rest);
      ReadInvertsWrite(data, cursor, node.children[i], more + rest);
      if Small(node.children[i]) {
        ChildrenRead(data, cursor + |first|, node, i + 1, rest);
        assert [node.children[i]] + node.children[i + 1..] == node.children[i..];
      }
    }
  }

  /** The file as a whole. */
  lemma FileRoundTripIff(node: Node)
    requires Shaped(node)
    ensures ReadNode(EncodeNode(node), 0) == Read.Read(node, |EncodeNode(node)|) <==> Small(node)
    ensures ReadNode(EncodeNode(node), 0) == Refused <==> !Small(node)
  {
    hide EncodeNode, ReadNode, Shaped, Small;
    var data := EncodeNode(node);
    assert data[0..] == data + [];
    ReadInvertsWrite(data, 0, node, []);
  }

  // ----- files cut short

  /** Reading the front of the data gives the same as reading all of it, or comes to the end. */
  ghost predicate SameOrShort<T>(short: Read<T>, whole: Read<T>, k: nat) {
    short.TooShort? || (short == whole && (short.Read? ==> short.next <= k))
  }

  lemma NumberOnFront(data: Bytes, k: nat, cursor: nat, width: nat)
    requires k <= |data| && width <= 8
    ensures SameOrShort(ReadNumber(data[..k], cursor, width), ReadNumber(data, cursor, width), k)
  {
    if cursor + width <= k {
      assert data[..k][cursor..cursor + width] == data[cursor..cursor + width];
    }
  }

  lemma BytesOnFront(data: Bytes, k: nat, cursor: nat)
    requires k <= |data|
    ensures SameOrShort(ReadBytes(data[..k], cursor), ReadBytes(data, cursor), k)
  {
    hide ReadNumber;
    NumberOnFront(data, k, cursor, 4);
    var size := ReadNumber(data[..k], cursor, 4);
    if size.Read? && size.next + size.value <= k {
      assert data[..k][size.next..size.next + size.value] == data[size.next..size.next + size.value];
    }
  }

  lemma PlaceOnFront(data: Bytes, k: nat, cursor: nat)
    requires k <= |data|
    ensures SameOrShort(ReadPlace(data[..k], cursor), ReadPlace(data, cursor), k)
  {
    hide ReadNumber;
    NumberOnFront(data, k, cursor, 4);
    NumberOnFront(data, k, cursor + 4, 8);
    NumberOnFront(data, k, cursor + 12, 4);
  }

  lemma {:induction false} KeysOnFront(data: Bytes, k: nat, cursor: nat, count: nat)
    requires cursor <= k <= |data|
    ensures SameOrShort(ReadKeys(data[..k], cursor, count), ReadKeys(data, cursor, count), k)
    decreases count
  {
    hide ReadBytes;
    if count > 0 {
      BytesOnFront(data, k, cursor);
      var first := ReadBytes(data[..k], cursor);
      if first.Read? {
        KeysOnFront(data, k, first.next, count - 1);
      }
    }
  }

  lemma {:induction false} PlacesOnFront(data: Bytes, k: nat, cursor: nat, count: nat)
    requires cursor <= k <= |data|
    ensures SameOrShort(ReadPlaces(data[..k], cursor, count), ReadPlaces(data, cursor, count), k)
    decreases count
  {
    hide ReadPlace;
    if count > 0 {
      PlaceOnFront(data, k, cursor);
      var first := ReadPlace(data[..k], cursor);
      if first.Read? {
        PlacesOnFront(data, k, first.next, count - 1);
      }
    }
  }

  lemma {:induction false} NodeOnFront(data: Bytes, k: nat, cursor: nat)
    requires k <= |data|
    ensures SameOrShort(ReadNode(data[..k], cursor), ReadNode(data, cursor), k)
    decreases Left(data, cursor), 0, 0
  {
    hide ReadNumber, ReadKeys, ReadPlaces, ReadChildren;
    var short := data[..k];
    if cursor < k {
      NumberOnFront(data, k, cursor + 1, 4);
      var count := ReadNumber(short, cursor + 1, 4);
      if count.Read? && count.value <= MAX_KEYS * 2 {
        KeysOnFront(data, k, count.next, count.value);
        var keys := ReadKeys(short, count.next, count.value);
        if keys.Read? {
          if data[cursor] == LEAF {
            PlacesOnFront(data, k, keys.next, count.value);
          } else {
            ChildrenOnFront(data, k, keys.next, count.value + 1);
          }
        }
      }
    }
  }

  lemma {:induction false} ChildrenOnFront(data: Bytes, k: nat, cursor: nat, count: nat)
    requires cursor <= k <= |data|
    ensures SameOrShort(ReadChildren(data[..k], cursor, count), ReadChildren(data, cursor, count), k)
    decreases Left(data, cursor), 1, count
  {
    hide ReadNode;
    if count > 0 {
      NodeOnFront(data, k, cursor);
      var first := ReadNode(data[..k], cursor);
      if first.Read? {
        ChildrenOnFront(data, k, first.next, count - 1);
      }
    }
  }

  /** A file cut short anywhere is found too short, if the whole could have been read. */
  lemma CutFileIsTooShort(node: Node, k: nat)
    requires Shaped(node) && Small(node) && k < |EncodeNode(node)|
    ensures ReadNode(EncodeNode(node)[..k], 0) == TooShort
  {
    hide EncodeNode, ReadNode, Shaped, Small;
    FileRoundTripIff(node);
    NodeOnFront(EncodeNode(node), k, 0);
  }
}
