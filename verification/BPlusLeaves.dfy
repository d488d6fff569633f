/** The leaves of the B+ tree index: sorted arrays of keys with their positions, linked into a
    chain. A put never splits, so the tree the program builds is one leaf. */
module BPlusLeaves {
  import opened Options
  import opened Sequences
  import opened ByteStrings
  import opened LogRecords
  import opened KeyOrder
  import BPlusFile

  type Contents = map<Bytes, LogRecordPos>

  // ----- sorted lists of keys with values, and the map they stand for

  ghost predicate Represents(keys: seq<Bytes>, values: seq<LogRecordPos>, m: Contents) {
    && Sorted(keys) && |values| == |keys|
    && (forall i | 0 <= i < |keys| :: keys[i] in m && m[keys[i]] == values[i])
    && (forall k <- m :: k in keys)
  }

  /** The first place whose key is not below `key`. */
  ghost predicate LowerBound(keys: seq<Bytes>, key: Bytes, p: int) {
    && 0 <= p <= |keys|
    && (forall i | 0 <= i < p :: Less(keys[i], key))
    && (forall i | p <= i < |keys| :: !Less(keys[i], key))
  }

  predicate FoundAt(keys: seq<Bytes>, key: Bytes, p: int) {
    0 <= p < |keys| && keys[p] == key
  }

  /** The lower bound decides whether the key is there. */
  lemma FoundIff(keys: seq<Bytes>, values: seq<LogRecordPos>, m: Contents, key: Bytes, p: int)
    requires Represents(keys, values, m) && LowerBound(keys, key, p)
    ensures FoundAt(keys, key, p) <==> key in m
    ensures key in m ==> m[key] == values[p]
    ensures key !in m ==> forall i | p <= i < |keys| :: Less(key, keys[i])
  {
    LessIrreflexive(key);
    if key in m {
      var i :| 0 <= i < |keys| && keys[i] == key;
      assert !Less(keys[i], key);
      assert forall j | 0 <= j < i :: Less(keys[j], key);
    } else {
      forall i | p <= i < |keys| ensures Less(key, keys[i]) {
        LessTotal(key, keys[i]);
      }
    }
  }

  lemma InsertRepresents(keys: seq<Bytes>, values: seq<LogRecordPos>, m: Contents, key: Bytes, pos: LogRecordPos, p: int)
    requires Represents(keys, values, m) && LowerBound(keys, key, p) && key !in m
    ensures Represents(InsertAt(keys, p, key), InsertAt(values, p, pos), m[key := pos])
  {
    hide Less, Represents;
    RepresentsOpens(keys, values, m);
    FoundIff(keys, values, m, key, p);
    InsertSorted(keys, key, p);
    InsertValues(keys, values, m, key, pos, p);
  }

  lemma InsertSorted(keys: seq<Bytes>, key: Bytes, p: int)
    requires Sorted(keys) && LowerBound(keys, key, p) && forall i | p <= i < |keys| :: Less(key, keys[i])
    ensures Sorted(InsertAt(keys, p, key))
  {
    hide Less;
    var keys' := InsertAt(keys, p, key);
    assert forall i | 0 <= i < p :: keys'[i] == keys[i];
    assert forall i | p < i < |keys'| :: keys'[i] == keys[i - 1];
  }

  lemma InsertValues(keys: seq<Bytes>, values: seq<LogRecordPos>, m: Contents, key: Bytes, pos: LogRecordPos, p: int)
    requires Represents(keys, values, m) && 0 <= p <= |keys| && key !in m
    requires Sorted(InsertAt(keys, p, key))
    ensures Represents(InsertAt(keys, p, key), InsertAt(values, p, pos), m[key := pos])
  {
    hide Less, Sorted;
    var keys', values', m' := InsertAt(keys, p, key), InsertAt(values, p, pos), m[key := pos];
    assert forall i | 0 <= i < |keys| :: keys[i] != key;
    forall i | 0 <= i < |keys'| ensures keys'[i] in m' && m'[keys'[i]] == values'[i] {
      assert keys'[i] == if i < p then keys[i] else if i == p then key else keys[i - 1];
    }
    forall k <- m' ensures k in keys' {
      if k == key {
        assert keys'[p] == key;
      } else {
        var i :| 0 <= i < |keys| && keys[i] == k;
        assert keys'[if i < p then i else i + 1] == k;
      }
    }
  }

  lemma UpdateRepresents(keys: seq<Bytes>, values: seq<LogRecordPos>, m: Contents, pos: LogRecordPos, p: int)
    requires Represents(keys, values, m) && 0 <= p < |keys|
    ensures Represents(keys, values[p := pos], m[keys[p] := pos])
  {
    hide Less;
    LessIrreflexive(keys[p]);
    assert forall i | 0 <= i < |keys| && i != p :: keys[i] != keys[p] by {
      forall i | 0 <= i < |keys| && i != p ensures keys[i] != keys[p] {
        assert if i < p then Less(keys[i], keys[p]) else Less(keys[p], keys[i]);
      }
    }
  }

  lemma DeleteRepresents(keys: seq<Bytes>, values: seq<LogRecordPos>, m: Contents, p: int)
    requires Represents(keys, values, m) && 0 <= p < |keys|
    ensures Represents(DeleteAt(keys, p), DeleteAt(values, p), m - {keys[p]})
  {
    hide Less;
    var key, keys', values', m' := keys[p], DeleteAt(keys, p), DeleteAt(values, p), m - {keys[p]};
    LessIrreflexive(key);
    forall i | 0 <= i < |keys'| ensures keys'[i] in m' && m'[keys'[i]] == values'[i] {
      var j := if i < p then i else i + 1;
      assert keys'[i] == keys[j];
      assert if j < p then Less(keys[j], key) else Less(key, keys[j]);
    }
    forall k <- m' ensures k in keys' {
      var i :| 0 <= i < |keys| && keys[i] == k;
      assert keys'[if i < p then i else i - 1] == k;
    }
  }

  lemma RepresentsSize(keys: seq<Bytes>, values: seq<LogRecordPos>, m: Contents)
    requires Represents(keys, values, m)
    ensures |m| == |keys|
    decreases |keys|
  {
    if keys == [] {
      assert m == map[];
    } else {
      var p := |keys| - 1;
      DeleteRepresents(keys, values, m, p);
      RepresentsSize(DeleteAt(keys, p), DeleteAt(values, p), m - {keys[p]});
      assert m.Keys == (m - {keys[p]}).Keys + {keys[p]};
    }
  }

  /** Written to its file and read back, an index of one leaf survives exactly with at most 128 keys. */
  lemma IndexReloadsIff(keys: seq<Bytes>, values: seq<LogRecordPos>, m: Contents)
    requires Represents(keys, values, m)
    requires BPlusFile.Shaped(BPlusFile.Node(BPlusFile.LEAF, keys, values, []))
    ensures var node := BPlusFile.Node(BPlusFile.LEAF, keys, values, []);
            var file := BPlusFile.EncodeNode(node);
            BPlusFile.ReadNode(file, 0) == BPlusFile.Read.Read(node, |file|) <==> |m| <= 2 * BPlusFile.MAX_KEYS
  {
    hide BPlusFile.EncodeNode, BPlusFile.ReadNode;
    RepresentsSize(keys, values, m);
    BPlusFile.FileRoundTripIff(BPlusFile.Node(BPlusFile.LEAF, keys, values, []));
  }

  // ----- leaves

  class Leaf {
    var keys: seq<Bytes>
    var values: seq<LogRecordPos>
    var next: Leaf?
    var isDirty: bool

    constructor ()
      ensures keys == [] && values == [] && next == null
    {
      keys, values, next, isDirty := [], [], null, false;
    }
  }

  method FindKeyPosition(keys: seq<Bytes>, key: Bytes) returns (p: int)
    requires Sorted(keys)
    ensures LowerBound(keys, key, p)
  {
    hide Less;
    var left, right := 0, |keys|;
    while left < right
      invariant 0 <= left <= right <= |keys|
      invariant forall i | 0 <= i < left :: Less(keys[i], key)
      invariant forall i | right <= i < |keys| :: !Less(keys[i], key)
    {
      var mid := left + (right - left) / 2;
      var order := CompareKeys(keys[mid], key);
      if order < 0 {
        forall i | 0 <= i < mid ensures Less(keys[i], key) {
          LessTransitive(keys[i], keys[mid], key);
        }
        left := mid + 1;
      } else {
        forall i | mid < i < |keys| ensures !Less(keys[i], key) {
          if Less(keys[i], key) {
            LessTransitive(keys[mid], keys[i], key);
          }
        }
        right := mid;
      }
    }
    return left;
  }

  method InsertToLeaf(leaf: Leaf, key: Bytes, pos: LogRecordPos, ghost m: Contents) returns (oldPos: Option<LogRecordPos>)
    requires Represents(leaf.keys, leaf.values, m)
    modifies leaf`keys, leaf`values, leaf`isDirty
    ensures Represents(leaf.keys, leaf.values, m[key := pos])
    ensures oldPos == if key in m then Some(m[key]) else None
    ensures leaf.isDirty
  {
    hide Represents, Less;
    RepresentsOpens(leaf.keys, leaf.values, m);
    var p := FindKeyPosition(leaf.keys, key);
    FoundIff(leaf.keys, leaf.values, m, key, p);
    var order := 1;
    if p < |leaf.keys| {
      order := CompareKeys(leaf.keys[p], key);
    }
    if p < |leaf.keys| && order == 0 {
      UpdateRepresents(leaf.keys, leaf.values, m, pos, p);
      oldPos := Some(leaf.values[p]);
      leaf.values := leaf.values[p := pos];
    } else {
      InsertRepresents(leaf.keys, leaf.values, m, key, pos, p);
      leaf.keys := leaf.keys[..p] + [key] + leaf.keys[p..];
      leaf.values := leaf.values[..p] + [pos] + leaf.values[p..];
      oldPos := None;
    }
    leaf.isDirty := true;
  }

  method DeleteFromLeaf(leaf: Leaf, key: Bytes, ghost m: Contents) returns (oldPos: Option<LogRecordPos>, found: bool)
    requires Represents(leaf.keys, leaf.values, m)
    modifies leaf`keys, leaf`values, leaf`isDirty
    ensures Represents(leaf.keys, leaf.values, m - {key})
    ensures oldPos == if key in m then Some(m[key]) else None
    ensures found <==> key in m
    ensures !found ==> leaf.isDirty == old(leaf.isDirty)
  {
    hide Represents, Less;
    RepresentsOpens(leaf.keys, leaf.values, m);
    var p := FindKeyPosition(leaf.keys, key);
    FoundIff(leaf.keys, leaf.values, m, key, p);
    var order := 1;
    if p < |leaf.keys| {
      order := CompareKeys(leaf.keys[p], key);
    }
    if p < |leaf.keys| && order == 0 {
      DeleteRepresents(leaf.keys, leaf.values, m, p);
      oldPos, found := Some(leaf.values[p]), true;
      leaf.keys := leaf.keys[..p] + leaf.keys[p + 1..];
      leaf.values := leaf.values[..p] + leaf.values[p + 1..];
      leaf.isDirty := true;
    } else {
      assert m - {key} == m;
      oldPos, found := None, false;
    }
  }

  lemma RepresentsOpens(keys: seq<Bytes>, values: seq<LogRecordPos>, m: Contents)
    requires Represents(keys, values, m)
    ensures Sorted(keys) && |values| == |keys|
  {
  }

  // ----- chains of leaves

  /** What a leaf holds at one moment. */
  datatype LeafState = LeafState(keys: seq<Bytes>, values: seq<LogRecordPos>, next: Leaf?)

  ghost function States(chain: seq<Leaf>): (states: seq<LeafState>)
    reads chain
    ensures |states| == |chain|
  {
    seq(|chain|, i requires 0 <= i < |chain| reads chain => LeafState(chain[i].keys, chain[i].values, chain[i].next))
  }

  /** `chain` is the list of leaves that starts at `first` and follows the next pointers. */
  ghost predicate Linked(first: Leaf?, chain: seq<Leaf>, states: seq<LeafState>)
    requires |states| == |chain|
  {
    if chain == [] then first == null else first == chain[0] && Linked(states[0].next, chain[1..], states[1..])
  }

  ghost predicate IsChain(first: Leaf?, chain: seq<Leaf>)
    reads chain
  {
    Linked(first, chain, States(chain))
  }

  ghost function AllKeys(states: seq<LeafState>): seq<Bytes> {
    if states == [] then [] else states[0].keys + AllKeys(states[1..])
  }

  ghost function AllValues(states: seq<LeafState>): seq<LogRecordPos> {
    if states == [] then [] else states[0].values + AllValues(states[1..])
  }

  function Inserted<T>(s: seq<T>, i: nat, low: T, high: T): seq<T>
    requires i < |s|
  {
    s[..i] + [low, high] + s[i + 1..]
  }

  /** A leaf that gives its upper half to a new leaf behind it leaves the chain's keys and values
      as they were. */
  lemma {:induction false} SplitKeepsChain(first: Leaf?, chain: seq<Leaf>, states: seq<LeafState>, i: nat,
                                           newLeaf: Leaf, low: LeafState, high: LeafState)
    requires i < |chain| == |states| && Linked(first, chain, states)
    requires low.next == newLeaf && high.next == states[i].next
    requires low.keys + high.keys == states[i].keys && low.values + high.values == states[i].values
    ensures Linked(first, Inserted(chain, i, chain[i], newLeaf), Inserted(states, i, low, high))
    ensures AllKeys(Inserted(states, i, low, high)) == AllKeys(states)
    ensures AllValues(Inserted(states, i, low, high)) == AllValues(states)
    decreases i
  {
    var (chain', states') := (Inserted(chain, i, chain[i], newLeaf), Inserted(states, i, low, high));
    if i == 0 {
      assert chain'[1..] == [newLeaf] + chain[1..] && states'[1..] == [high] + states[1..];
      assert chain'[1..][1..] == chain[1..] && states'[1..][1..] == states[1..];
    } else {
      assert chain'[1..] == Inserted(chain[1..], i - 1, chain[i], newLeaf);
      assert states'[1..] == Inserted(states[1..], i - 1, low, high);
      SplitKeepsChain(states[0].next, chain[1..], states[1..], i - 1, newLeaf, low, high);
    }
  }

  /** Moves the upper half of a leaf to a new one behind it. The chain still lists the same keys and
      positions in the same order. */
  method SplitLeaf(leaf: Leaf, ghost first: Leaf?, ghost chain: seq<Leaf>, ghost i: nat) returns (newLeaf: Leaf)
    requires IsChain(first, chain)
    requires i < |chain| && chain[i] == leaf && leaf !in chain[..i] && leaf !in chain[i + 1..]
    requires |leaf.values| == |leaf.keys|
    modifies leaf
    ensures fresh(newLeaf) && leaf.next == newLeaf
    ensures |leaf.keys| == |leaf.values| == old(|leaf.keys|) / 2 && |newLeaf.keys| == |newLeaf.values|
    ensures leaf.isDirty && newLeaf.isDirty
    ensures IsChain(first, Inserted(chain, i, leaf, newLeaf))
    ensures AllKeys(States(Inserted(chain, i, leaf, newLeaf))) == old(AllKeys(States(chain)))
    ensures AllValues(States(Inserted(chain, i, leaf, newLeaf))) == old(AllValues(States(chain)))
  {
    var mid := |leaf.keys| / 2;
    newLeaf := new Leaf();
    newLeaf.keys, newLeaf.values := leaf.keys[mid..], leaf.values[mid..];
    leaf.keys, leaf.values := leaf.keys[..mid], leaf.values[..mid];
    newLeaf.next := leaf.next;
    leaf.next := newLeaf;
    leaf.isDirty := true;
    newLeaf.isDirty := true;
    ghost var low := LeafState(leaf.keys, leaf.values, newLeaf);
    ghost var high := LeafState(newLeaf.keys, newLeaf.values, newLeaf.next);
    SplitKeepsChain(first, chain, old(States(chain)), i, newLeaf, low, high);
    assert States(Inserted(chain, i, leaf, newLeaf)) == Inserted(old(States(chain)), i, low, high);
  }

  // ----- the index

  class BPlusTreeIndex {
    var root: Leaf
    ghost var contents: Contents

    ghost predicate Valid()
      reads this, root
    {
      Represents(root.keys, root.values, contents) && root.next == null
    }

    constructor ()
      ensures Valid() && fresh(root) && contents == map[]
    {
      root := new Leaf();
      contents := map[];
    }

    method Put(key: Bytes, pos: LogRecordPos) returns (oldPos: Option<LogRecordPos>)
      requires Valid()
      modifies this`contents, root
      ensures Valid()
      ensures contents == old(contents)[key := pos]
      ensures oldPos == if key in old(contents) then Some(old(contents)[key]) else None
    {
      hide Represents;
      oldPos := InsertToLeaf(root, key, pos, contents);
      contents := contents[key := pos];
    }

    method Get(key: Bytes) returns (r: Option<LogRecordPos>)
      requires Valid()
      ensures r == if key in contents then Some(contents[key]) else None
    {
      hide Represents, Less;
      RepresentsOpens(root.keys, root.values, contents);
      var p := FindKeyPosition(root.keys, key);
      FoundIff(root.keys, root.values, contents, key, p);
      if p < |root.keys| {
        var order := CompareKeys(root.keys[p], key);
        if order == 0 {
          return Some(root.values[p]);
        }
      }
      return None;
    }

    method Remove(key: Bytes) returns (oldPos: Option<LogRecordPos>, found: bool)
      requires Valid()
      modifies this`contents, root
      ensures Valid()
      ensures contents == old(contents) - {key}
      ensures oldPos == if key in old(contents) then Some(old(contents)[key]) else None
      ensures found <==> key in old(contents)
    {
      hide Represents;
      oldPos, found := DeleteFromLeaf(root, key, contents);
      contents := contents - {key};
    }

    method ListKeys() returns (keys: seq<Bytes>)
      requires Valid()
      ensures Sorted(keys) && forall k :: k in keys <==> k in contents
    {
      assert IsChain(root, [root]);
      assert States([root])[1..] == [];
      keys := KeysOfChain(root, [root]);
    }

    method Size() returns (n: nat)
      requires Valid()
      ensures n == |contents|
    {
      RepresentsSize(root.keys, root.values, contents);
      return |root.keys|;
    }
  }

  /** Follows the next pointers. */
  method KeysOfChain(first: Leaf?, ghost chain: seq<Leaf>) returns (keys: seq<Bytes>)
    requires IsChain(first, chain)
    ensures keys == AllKeys(States(chain))
  {
    keys := [];
    var current := first;
    ghost var rest := chain;
    while current != null
      invariant IsChain(current, rest)
      invariant keys + AllKeys(States(rest)) == AllKeys(States(chain))
      decreases |rest|
    {
      assert States(rest)[1..] == States(rest[1..]);
      keys := keys + current.keys;
      current := current.next;
      rest := rest[1..];
    }
  }
}
