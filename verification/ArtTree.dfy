/** The adaptive radix tree as a value: what insert, search and delete do to the tree of prefixes,
    branching bytes and leaves, whatever the layouts of its nodes. */
module ArtTree {
  import opened Options
  import opened ByteStrings
  import opened LogRecords

  datatype Tree =
    | Leaf(key: Bytes, value: LogRecordPos)
    | Inner(prefix: Bytes, kids: map<byte, Tree>)

  // ----- the operations

  /** How many bytes of the prefix the key has from `depth` on. */
  function CheckPrefix(prefix: Bytes, key: Bytes, depth: nat): (n: nat)
    requires depth <= |key|
    ensures n <= |prefix| && depth + n <= |key|
    ensures prefix[..n] == key[depth..depth + n]
    ensures n < |prefix| && depth + n < |key| ==> prefix[n] != key[depth + n]
  {
    if prefix == [] || depth == |key| || prefix[0] != key[depth] then 0
    else
      var n := CheckPrefix(prefix[1..], key, depth + 1);
      assert prefix[..n + 1] == [prefix[0]] + prefix[1..][..n];
      1 + n
  }

  /** How many bytes two keys share from `depth` on. */
  function CommonPrefix(key: Bytes, other: Bytes, depth: nat): (n: nat)
    ensures n > 0 ==> depth + n <= |key| && depth + n <= |other|
    ensures depth <= |key| && depth <= |other| ==> key[depth..depth + n] == other[depth..depth + n]
    ensures depth + n < |key| && depth + n < |other| ==> key[depth + n] != other[depth + n]
    decreases |key| - depth
  {
    if depth < |key| && depth < |other| && key[depth] == other[depth]
    then
      var n := CommonPrefix(key, other, depth + 1);
      assert key[depth..depth + (n + 1)] == [key[depth]] + key[depth + 1..depth + 1 + n];
      assert other[depth..depth + (n + 1)] == [other[depth]] + other[depth + 1..depth + 1 + n];
      1 + n
    else 0
  }

  /** The node that takes the place of a leaf when another key comes its way. A key that ends at the
      branching point gets no child. */
  function SplitLeaf(leaf: Tree, key: Bytes, value: LogRecordPos, depth: nat): Tree
    requires leaf.Leaf? && depth <= |key|
  {
    var branch := depth + CommonPrefix(key, leaf.key, depth);
    var kids := if branch < |key| then map[key[branch] := Leaf(key, value)] else map[];
    Inner(key[depth..branch], if branch < |leaf.key| then kids[leaf.key[branch] := leaf] else kids)
  }

  /** The node above one whose prefix the key leaves after `n` bytes. */
  function SplitPrefix(t: Tree, key: Bytes, value: LogRecordPos, depth: nat, n: nat): Tree
    requires t.Inner? && n < |t.prefix| && depth + n <= |key|
  {
    var lower := map[t.prefix[n] := Inner(t.prefix[n + 1..], t.kids)];
    Inner(t.prefix[..n], if depth + n < |key| then lower[key[depth + n] := Leaf(key, value)] else lower)
  }

  function Insert(t: Tree, key: Bytes, value: LogRecordPos, depth: nat): Tree
    requires depth <= |key|
  {
    match t
    case Leaf(k, _) =>
      if k == key then Leaf(k, value) else SplitLeaf(t, key, value, depth)
    case Inner(prefix, kids) =>
      var n := CheckPrefix(prefix, key, depth);
      if n < |prefix| then SplitPrefix(t, key, value, depth, n)
      else
        var d := depth + |prefix|;
        if d == |key| then t
        else if key[d] in kids then Inner(prefix, kids[key[d] := Insert(kids[key[d]], key, value, d + 1)])
        else Inner(prefix, kids[key[d] := Leaf(key, value)])
  }

  function Search(t: Tree, key: Bytes, depth: nat): Option<LogRecordPos>
    requires depth <= |key|
  {
    match t
    case Leaf(k, value) => if k == key then Some(value) else None
    case Inner(prefix, kids) =>
      if CheckPrefix(prefix, key, depth) < |prefix| then None
      else
        var d := depth + |prefix|;
        if d < |key| && key[d] in kids then Search(kids[key[d]], key, d + 1) else None
  }

  /** Leaves are taken out; inner nodes stay, even when nothing is left under them. */
  function Delete(t: Tree, key: Bytes, depth: nat): Option<Tree>
    requires depth <= |key|
  {
    match t
    case Leaf(k, _) => if k == key then None else Some(t)
    case Inner(prefix, kids) =>
      if CheckPrefix(prefix, key, depth) < |prefix| then Some(t)
      else
        var d := depth + |prefix|;
        if d < |key| && key[d] in kids then
          match Delete(kids[key[d]], key, d + 1)
          case None => Some(Inner(prefix, kids - {key[d]}))
          case Some(child) => Some(Inner(prefix, kids[key[d] := child]))
        else Some(t)
  }

  /** A tree, or none. */
  type Root = Option<Tree>

  function Lookup(root: Root, key: Bytes): Option<LogRecordPos> {
    match root
    case None => None
    case Some(t) => Search(t, key, 0)
  }

  function Put(root: Root, key: Bytes, value: LogRecordPos): Root {
    match root
    case None => Some(Leaf(key, value))
    case Some(t) => Some(Insert(t, key, value, 0))
  }

  function Remove(root: Root, key: Bytes): Root {
    match root
    case None => None
    case Some(t) => Delete(t, key, 0)
  }

  // ----- trees in which everything is where search looks for it

  /** Every leaf below carries `path` and the prefixes and bytes on its way. */
  ghost predicate Placed(t: Tree, path: Bytes) {
    match t
    case Leaf(k, _) => path <= k
    case Inner(prefix, kids) => forall b <- kids :: Placed(kids[b], path + prefix + [b])
  }

  /** The guards of the branches of insert that lose a key: the new key does not end inside or right
      behind the prefix of an inner node, and neither key is a proper prefix of the other where it
      meets a leaf. */
  predicate Open(t: Tree, key: Bytes, depth: nat)
    requires depth <= |key|
  {
    match t
    case Leaf(k, _) => k == key || (!(k <= key) && !(key <= k))
    case Inner(prefix, kids) =>
      var n := CheckPrefix(prefix, key, depth);
      if n < |prefix| then depth + n < |key|
      else
        var d := depth + |prefix|;
        d < |key| && (key[d] in kids ==> Open(kids[key[d]], key, d + 1))
  }

  predicate Matches(prefix: Bytes, key: Bytes, depth: nat) {
    depth + |prefix| <= |key| && key[depth..depth + |prefix|] == prefix
  }

  lemma CheckPrefixWhole(prefix: Bytes, key: Bytes, depth: nat)
    requires depth <= |key|
    ensures CheckPrefix(prefix, key, depth) == |prefix| <==> Matches(prefix, key, depth)
  {
    var n := CheckPrefix(prefix, key, depth);
    hide CheckPrefix;
    assert prefix[..|prefix|] == prefix;
    assert Matches(prefix, key, depth) ==> forall i | 0 <= i < |prefix| :: key[depth..depth + |prefix|][i] == prefix[i];
  }

  /** A search goes on below an inner node exactly if the key has its prefix and a byte more that
      branches. */
  lemma SearchInner(prefix: Bytes, kids: map<byte, Tree>, key: Bytes, depth: nat)
    requires depth <= |key|
    ensures var d := depth + |prefix|;
            Search(Inner(prefix, kids), key, depth)
            == if Matches(prefix, key, depth) && d < |key| && key[d] in kids then Search(kids[key[d]], key, d + 1)
               else None
  {
    CheckPrefixWhole(prefix, key, depth);
  }

  // ----- insert

  /** What every key must find after an insert. */
  function Expected(t: Tree, key: Bytes, value: LogRecordPos, other: Bytes, depth: nat): Option<LogRecordPos>
    requires depth <= |other|
  {
    if other == key then Some(value) else Search(t, other, depth)
  }

  /** Two keys that share a path and neither of which is a prefix of the other branch inside both. */
  lemma BranchInside(key: Bytes, other: Bytes, depth: nat)
    requires depth <= |key| && key[..depth] <= other
    ensures var branch := depth + CommonPrefix(key, other, depth);
            && branch <= |key| && branch <= |other| && key[..branch] == other[..branch]
            && (branch == |key| <==> key <= other)
            && (branch == |other| <==> other <= key)
            && (branch < |key| && branch < |other| ==> key[branch] != other[branch])
  {
    var n := CommonPrefix(key, other, depth);
    assert key[..depth + n] == key[..depth] + key[depth..depth + n];
    assert other[..depth + n] == other[..depth] + other[depth..depth + n];
    assert key <= other ==> forall i | 0 <= i < |key| :: key[i] == other[i];
    assert other <= key ==> forall i | 0 <= i < |other| :: key[i] == other[i];
  }

  lemma SplitLeafSearch(leaf: Tree, key: Bytes, value: LogRecordPos, depth: nat, other: Bytes)
    requires leaf.Leaf? && depth <= |key| && key[..depth] <= leaf.key && key[..depth] <= other
    requires !(leaf.key <= key) && !(key <= leaf.key)
    ensures Search(SplitLeaf(leaf, key, value, depth), other, depth) == Expected(leaf, key, value, other, depth)
  {
    hide CommonPrefix, CheckPrefix;
    BranchInside(key, leaf.key, depth);
    var branch := depth + CommonPrefix(key, leaf.key, depth);
    var t := SplitLeaf(leaf, key, value, depth);
    SearchInner(t.prefix, t.kids, other, depth);
    assert leaf.key[depth..branch] == leaf.key[..branch][depth..];
    assert key[depth..branch] == key[..branch][depth..];
  }

  /** Cutting an inner node in two changes nothing for a search. */
  lemma SearchThroughCut(prefix: Bytes, kids: map<byte, Tree>, n: nat, other: Bytes, depth: nat)
    requires n < |prefix| && depth <= |other|
    ensures Search(Inner(prefix, kids), other, depth)
         == if Matches(prefix[..n], other, depth) && depth + n < |other| && other[depth + n] == prefix[n]
            then Search(Inner(prefix[n + 1..], kids), other, depth + n + 1) else None
  {
    hide CheckPrefix, Matches;
    SearchInner(prefix, kids, other, depth);
    MatchesSplit(prefix, n, other, depth);
    if depth + n < |other| {
      SearchInner(prefix[n + 1..], kids, other, depth + n + 1);
    }
  }

  lemma SplitPrefixSearch(t: Tree, key: Bytes, value: LogRecordPos, depth: nat, other: Bytes)
    requires t.Inner? && depth <= |key| && key[..depth] <= other
    requires var n := CheckPrefix(t.prefix, key, depth); n < |t.prefix| && depth + n < |key|
    ensures Search(SplitPrefix(t, key, value, depth, CheckPrefix(t.prefix, key, depth)), other, depth)
         == Expected(t, key, value, other, depth)
  {
    var n := CheckPrefix(t.prefix, key, depth);
    hide CheckPrefix;
    var s := SplitPrefix(t, key, value, depth, n);
    SearchInner(s.prefix, s.kids, other, depth);
    SearchThroughCut(t.prefix, t.kids, n, other, depth);
    assert s.kids.Keys == {t.prefix[n], key[depth + n]};
    assert Matches(s.prefix, key, depth);
  }

  lemma MatchesSplit(prefix: Bytes, n: nat, key: Bytes, depth: nat)
    requires n < |prefix|
    ensures Matches(prefix, key, depth)
       <==> Matches(prefix[..n], key, depth) && depth + n < |key| && key[depth + n] == prefix[n]
            && Matches(prefix[n + 1..], key, depth + n + 1)
  {
    if depth + |prefix| <= |key| {
      assert prefix == prefix[..n] + [prefix[n]] + prefix[n + 1..];
      var here := key[depth..depth + |prefix|];
      assert here == key[depth..depth + n] + [key[depth + n]] + key[depth + n + 1..depth + |prefix|];
      assert here[..n] == key[depth..depth + n] && here[n] == key[depth + n];
      assert here[n + 1..] == key[depth + n + 1..depth + |prefix|];
    }
  }

  /** After an insert whose key is open every key finds what it must. */
  lemma {:induction false} InsertSearch(t: Tree, key: Bytes, value: LogRecordPos, depth: nat, other: Bytes)
    requires depth <= |key| && Placed(t, key[..depth]) && key[..depth] <= other
    requires Open(t, key, depth)
    ensures Search(Insert(t, key, value, depth), other, depth) == Expected(t, key, value, other, depth)
    decreases t
  {
    hide CheckPrefix, SplitLeaf, SplitPrefix, CommonPrefix;
    match t
    case Leaf(k, _) =>
      if k != key {
        SplitLeafSearch(t, key, value, depth, other);
      }
    case Inner(prefix, kids) =>
      var n := CheckPrefix(prefix, key, depth);
      if n < |prefix| {
        SplitPrefixSearch(t, key, value, depth, other);
      } else {
        var d := depth + |prefix|;
        SearchInner(prefix, kids, other, depth);
        SearchInner(prefix, Insert(t, key, value, depth).kids, other, depth);
        PathDown(key, depth, prefix);
        if Matches(prefix, other, depth) && d < |other| && other[d] == key[d] {
          SamePath(key, other, d + 1, depth, prefix);
          if key[d] in kids {
            InsertSearch(kids[key[d]], key, value, d + 1, other);
          }
        }
      }
  }

  lemma PathDown(key: Bytes, depth: nat, prefix: Bytes)
    requires depth <= |key| && CheckPrefix(prefix, key, depth) == |prefix|
    ensures Matches(prefix, key, depth)
    ensures key[..depth + |prefix|] == key[..depth] + prefix
    ensures depth + |prefix| < |key| ==>
      key[..depth + |prefix| + 1] == key[..depth] + prefix + [key[depth + |prefix|]]
  {
    CheckPrefixWhole(prefix, key, depth);
  }

  lemma SamePath(key: Bytes, other: Bytes, d: nat, depth: nat, prefix: Bytes)
    requires depth + |prefix| + 1 == d <= |key| && d <= |other|
    requires key[..depth] <= other && Matches(prefix, key, depth) && Matches(prefix, other, depth)
    requires key[d - 1] == other[d - 1]
    ensures key[..d] <= other
  {
    assert key[..d] == key[..depth] + prefix + [key[d - 1]];
    assert other[..d] == other[..depth] + prefix + [other[d - 1]];
  }

  /** After an insert whose key is not open some key finds something else. */
  lemma {:induction false} ClosedInsertLoses(t: Tree, key: Bytes, value: LogRecordPos, depth: nat) returns (other: Bytes)
    requires depth <= |key| && Placed(t, key[..depth]) && !Open(t, key, depth)
    ensures key[..depth] <= other
    ensures Search(Insert(t, key, value, depth), other, depth) != Expected(t, key, value, other, depth)
    decreases t
  {
    hide CheckPrefix, CommonPrefix;
    match t
    case Leaf(k, _) =>
      BranchInside(key, k, depth);
      var s := SplitLeaf(t, key, value, depth);
      other := if key <= k then key else k;
      SearchInner(s.prefix, s.kids, other, depth);
    case Inner(prefix, kids) =>
      var n := CheckPrefix(prefix, key, depth);
      if n < |prefix| {
        other := key;
        var s := SplitPrefix(t, key, value, depth, n);
        SearchInner(s.prefix, s.kids, key, depth);
      } else {
        var d := depth + |prefix|;
        PathDown(key, depth, prefix);
        if d == |key| {
          other := key;
          SearchInner(prefix, kids, key, depth);
        } else {
          other := ClosedInsertLoses(kids[key[d]], key, value, d + 1);
          SearchBelow(key, other, depth, prefix);
          SearchInner(prefix, kids, other, depth);
          SearchInner(prefix, Insert(t, key, value, depth).kids, other, depth);
        }
      }
  }

  lemma SearchBelow(key: Bytes, other: Bytes, depth: nat, prefix: Bytes)
    requires depth + |prefix| < |key| && Matches(prefix, key, depth)
    requires key[..depth + |prefix| + 1] <= other
    ensures key[..depth] <= other && Matches(prefix, other, depth)
    ensures depth + |prefix| < |other| && other[depth + |prefix|] == key[depth + |prefix|]
  {
    var d := depth + |prefix|;
    assert key[..depth] == key[..d + 1][..depth];
    assert key[depth..d] == key[..d + 1][depth..d];
    assert other[depth..d] == other[..d + 1][depth..d];
    assert other[..d + 1] == key[..d + 1];
    assert other[d] == other[..d + 1][d];
  }

  lemma SplitLeafPlaced(leaf: Tree, key: Bytes, value: LogRecordPos, depth: nat)
    requires leaf.Leaf? && depth <= |key| && key[..depth] <= leaf.key
    ensures Placed(SplitLeaf(leaf, key, value, depth), key[..depth])
  {
    hide CommonPrefix;
    var k := leaf.key;
    BranchInside(key, k, depth);
    var branch := depth + CommonPrefix(key, k, depth);
    assert key[..depth] + key[depth..branch] == key[..branch];
    assert branch < |key| ==> key[..branch] + [key[branch]] == key[..branch + 1];
    assert branch < |k| ==> k[..branch] + [k[branch]] == k[..branch + 1];
  }

  lemma SplitPrefixPlaced(t: Tree, key: Bytes, value: LogRecordPos, depth: nat)
    requires t.Inner? && depth <= |key| && Placed(t, key[..depth]) && CheckPrefix(t.prefix, key, depth) < |t.prefix|
    ensures Placed(SplitPrefix(t, key, value, depth, CheckPrefix(t.prefix, key, depth)), key[..depth])
  {
    hide CheckPrefix, Placed;
    var n := CheckPrefix(t.prefix, key, depth);
    var path, upper, b := key[..depth], t.prefix[..n], t.prefix[n];
    var rest := Inner(t.prefix[n + 1..], t.kids);
    RestPlaced(t.prefix, t.kids, path, n);
    PlacedOne(upper, b, rest, path);
    if depth + n < |key| {
      LeavePath(key, depth, t.prefix, n);
      PlacedLeaf(key, value, depth + n + 1);
      PlacedUpdate(upper, map[b := rest], key[depth + n], Leaf(key, value), path);
    }
  }

  lemma RestPlaced(prefix: Bytes, kids: map<byte, Tree>, path: Bytes, n: nat)
    requires n < |prefix| && Placed(Inner(prefix, kids), path)
    ensures Placed(Inner(prefix[n + 1..], kids), path + prefix[..n] + [prefix[n]])
  {
    CutPath(path, prefix, n);
  }

  lemma PlacedOne(prefix: Bytes, b: byte, child: Tree, path: Bytes)
    requires Placed(child, path + prefix + [b])
    ensures Placed(Inner(prefix, map[b := child]), path)
  {
  }

  lemma PlacedLeaf(key: Bytes, value: LogRecordPos, d: nat)
    requires d <= |key|
    ensures Placed(Leaf(key, value), key[..d])
  {
  }

  lemma PlacedUpdate(prefix: Bytes, kids: map<byte, Tree>, b: byte, child: Tree, path: Bytes)
    requires Placed(Inner(prefix, kids), path) && Placed(child, path + prefix + [b])
    ensures Placed(Inner(prefix, kids[b := child]), path)
  {
  }

  lemma CutPath(path: Bytes, prefix: Bytes, n: nat)
    requires n < |prefix|
    ensures path + prefix[..n] + [prefix[n]] + prefix[n + 1..] == path + prefix
    ensures path + prefix[..n] < path + prefix
  {
  }

  lemma LeavePath(key: Bytes, depth: nat, prefix: Bytes, n: nat)
    requires n <= |prefix| && depth + n < |key| && prefix[..n] == key[depth..depth + n]
    ensures key[..depth] + prefix[..n] + [key[depth + n]] == key[..depth + n + 1]
  {
  }

  lemma {:induction false} InsertPlaced(t: Tree, key: Bytes, value: LogRecordPos, depth: nat)
    requires depth <= |key| && Placed(t, key[..depth])
    ensures Placed(Insert(t, key, value, depth), key[..depth])
    decreases t
  {
    hide CheckPrefix, SplitLeaf, SplitPrefix;
    match t
    case Leaf(k, _) =>
      if k != key {
        SplitLeafPlaced(t, key, value, depth);
      }
    case Inner(prefix, kids) =>
      if CheckPrefix(prefix, key, depth) < |prefix| {
        SplitPrefixPlaced(t, key, value, depth);
      } else {
        PathDown(key, depth, prefix);
        var d := depth + |prefix|;
        if d < |key| && key[d] in kids {
          InsertPlaced(kids[key[d]], key, value, d + 1);
        }
      }
  }

  /** Insert is an update of the map exactly when the key is open: the condition is the guard of the
      branches that drop a key. */
  lemma InsertIff(t: Tree, key: Bytes, value: LogRecordPos)
    requires Placed(t, [])
    ensures (forall other: Bytes :: Search(Insert(t, key, value, 0), other, 0) == Expected(t, key, value, other, 0))
       <==> Open(t, key, 0)
  {
    assert key[..0] == [];
    if Open(t, key, 0) {
      forall other: Bytes
        ensures Search(Insert(t, key, value, 0), other, 0) == Expected(t, key, value, other, 0)
      {
        InsertSearch(t, key, value, 0, other);
      }
    } else {
      var other := ClosedInsertLoses(t, key, value, 0);
    }
  }

  // ----- what every insert does

  /** A key that ends inside the tree where others go on is dropped. A key that goes on where a stored
      one ends takes that one's place. */
  datatype Fate = Entered | Dropped | Replaces(lost: Bytes)

  function FateOf(t: Tree, key: Bytes, depth: nat): Fate
    requires depth <= |key|
  {
    match t
    case Leaf(k, _) =>
      if k == key then Entered else if key <= k then Dropped else if k <= key then Replaces(k) else Entered
    case Inner(prefix, kids) =>
      var n := CheckPrefix(prefix, key, depth);
      if n < |prefix| then (if depth + n < |key| then Entered else Dropped)
      else
        var d := depth + |prefix|;
        if d == |key| then Dropped
        else if key[d] in kids then FateOf(kids[key[d]], key, d + 1)
        else Entered
  }

  lemma {:induction false} OpenIsEntered(t: Tree, key: Bytes, depth: nat)
    requires depth <= |key|
    ensures Open(t, key, depth) <==> FateOf(t, key, depth) == Entered
    decreases t
  {
    hide CheckPrefix;
    match t
    case Leaf(_, _) =>
    case Inner(prefix, kids) =>
      var d := depth + |prefix|;
      if CheckPrefix(prefix, key, depth) == |prefix| && d < |key| && key[d] in kids {
        OpenIsEntered(kids[key[d]], key, d + 1);
      }
  }

  function AfterInsert(t: Tree, key: Bytes, value: LogRecordPos, other: Bytes, depth: nat): Option<LogRecordPos>
    requires depth <= |key| && depth <= |other|
  {
    match FateOf(t, key, depth)
    case Entered => Expected(t, key, value, other, depth)
    case Dropped => Search(t, other, depth)
    case Replaces(lost) => if other == lost then None else Expected(t, key, value, other, depth)
  }

  lemma ClosedLeaf(leaf: Tree, key: Bytes, value: LogRecordPos, depth: nat, other: Bytes)
    requires leaf.Leaf? && depth <= |key| && key[..depth] <= leaf.key && key[..depth] <= other
    requires leaf.key != key && (leaf.key <= key || key <= leaf.key)
    ensures Search(SplitLeaf(leaf, key, value, depth), other, depth) == AfterInsert(leaf, key, value, other, depth)
  {
    hide CommonPrefix, CheckPrefix;
    BranchInside(key, leaf.key, depth);
    var branch := depth + CommonPrefix(key, leaf.key, depth);
    var t := SplitLeaf(leaf, key, value, depth);
    SearchInner(t.prefix, t.kids, other, depth);
    assert leaf.key[depth..branch] == leaf.key[..branch][depth..];
    assert key[depth..branch] == key[..branch][depth..];
    assert key <= leaf.key ==> |key| < |leaf.key|;
  }

  lemma DroppedInPrefix(t: Tree, key: Bytes, value: LogRecordPos, depth: nat, other: Bytes)
    requires t.Inner? && depth <= |key| && depth <= |other|
    requires var n := CheckPrefix(t.prefix, key, depth); n < |t.prefix| && depth + n == |key|
    ensures Search(SplitPrefix(t, key, value, depth, CheckPrefix(t.prefix, key, depth)), other, depth)
         == Search(t, other, depth)
  {
    var n := CheckPrefix(t.prefix, key, depth);
    hide CheckPrefix, Matches;
    var s := SplitPrefix(t, key, value, depth, n);
    SearchInner(s.prefix, s.kids, other, depth);
    SearchThroughCut(t.prefix, t.kids, n, other, depth);
  }

  /** What every search finds after any insert, open or not. */
  lemma {:induction false} InsertMeans(t: Tree, key: Bytes, value: LogRecordPos, depth: nat, other: Bytes)
    requires depth <= |key| && Placed(t, key[..depth]) && key[..depth] <= other
    ensures Search(Insert(t, key, value, depth), other, depth) == AfterInsert(t, key, value, other, depth)
    decreases t
  {
    hide CheckPrefix, SplitLeaf, SplitPrefix, CommonPrefix, Matches;
    OpenIsEntered(t, key, depth);
    if Open(t, key, depth) {
      InsertSearch(t, key, value, depth, other);
    } else {
      match t
      case Leaf(_, _) => ClosedLeaf(t, key, value, depth, other);
      case Inner(prefix, kids) =>
        if CheckPrefix(prefix, key, depth) < |prefix| {
          DroppedInPrefix(t, key, value, depth, other);
        } else if depth + |prefix| < |key| {
          ClosedBelow(t, key, value, depth, other);
        }
    }
  }

  lemma {:induction false} ClosedBelow(t: Tree, key: Bytes, value: LogRecordPos, depth: nat, other: Bytes)
    requires depth <= |key| && Placed(t, key[..depth]) && key[..depth] <= other && t.Inner?
    requires CheckPrefix(t.prefix, key, depth) == |t.prefix| && depth + |t.prefix| < |key|
    requires FateOf(t, key, depth) != Entered
    ensures Search(Insert(t, key, value, depth), other, depth) == AfterInsert(t, key, value, other, depth)
    decreases t, 0
  {
    hide CheckPrefix, FateOf, Search, Insert, Matches, Placed;
    var d := depth + |t.prefix|;
    GoesBelow(t, key, value, depth);
    SearchInner(t.prefix, t.kids, other, depth);
    SearchInner(t.prefix, Insert(t, key, value, depth).kids, other, depth);
    if Matches(t.prefix, other, depth) && d < |other| && other[d] == key[d] {
      SamePath(key, other, d + 1, depth, t.prefix);
      InsertMeans(t.kids[key[d]], key, value, d + 1, other);
    } else {
      KeyGoesDown(t, key, depth, other);
    }
  }

  lemma GoesBelow(t: Tree, key: Bytes, value: LogRecordPos, depth: nat)
    requires depth <= |key| && Placed(t, key[..depth]) && t.Inner?
    requires CheckPrefix(t.prefix, key, depth) == |t.prefix| && depth + |t.prefix| < |key|
    requires FateOf(t, key, depth) != Entered
    ensures var d := depth + |t.prefix|;
            && key[d] in t.kids && Matches(t.prefix, key, depth)
            && FateOf(t, key, depth) == FateOf(t.kids[key[d]], key, d + 1)
            && Insert(t, key, value, depth) == Inner(t.prefix, t.kids[key[d] := Insert(t.kids[key[d]], key, value, d + 1)])
            && Placed(t.kids[key[d]], key[..d + 1])
  {
    hide CheckPrefix, SplitLeaf, SplitPrefix, Matches;
    PathDown(key, depth, t.prefix);
  }

  /** Neither the key nor a leaf that ends on its way is found by a search that leaves that way. */
  lemma KeyGoesDown(t: Tree, key: Bytes, depth: nat, other: Bytes)
    requires t.Inner? && depth <= |key| && key[..depth] <= other
    requires Matches(t.prefix, key, depth) && depth + |t.prefix| < |key| && key[depth + |t.prefix|] in t.kids
    requires Placed(t.kids[key[depth + |t.prefix|]], key[..depth + |t.prefix| + 1])
    requires !(Matches(t.prefix, other, depth) && depth + |t.prefix| < |other| && other[depth + |t.prefix|] == key[depth + |t.prefix|])
    ensures other != key
    ensures var fate := FateOf(t.kids[key[depth + |t.prefix|]], key, depth + |t.prefix| + 1);
            fate.Replaces? ==> other != fate.lost
  {
    hide CheckPrefix, FateOf, Matches, Placed;
    var d := depth + |t.prefix|;
    var fate := FateOf(t.kids[key[d]], key, d + 1);
    LostIsBelow(t.kids[key[d]], key, d + 1);
    if fate.Replaces? {
      SearchBelow(key, fate.lost, depth, t.prefix);
    }
  }

  lemma {:induction false} LostIsBelow(t: Tree, key: Bytes, depth: nat)
    requires depth <= |key| && Placed(t, key[..depth])
    ensures var fate := FateOf(t, key, depth); fate.Replaces? ==> key[..depth] <= fate.lost
    decreases t
  {
    hide CheckPrefix;
    match t
    case Leaf(_, _) =>
    case Inner(prefix, kids) =>
      var d := depth + |prefix|;
      if CheckPrefix(prefix, key, depth) == |prefix| && d < |key| && key[d] in kids {
        PathDown(key, depth, prefix);
        LostIsBelow(kids[key[d]], key, d + 1);
        assert key[..depth] == key[..d + 1][..depth];
      }
  }

  // ----- delete

  function SearchIn(t: Option<Tree>, key: Bytes, depth: nat): Option<LogRecordPos>
    requires depth <= |key|
  {
    if t.None? then None else Search(t.value, key, depth)
  }

  /** Delete takes away the given key and nothing else, for every tree and key. */
  lemma {:induction false} DeleteSearch(t: Tree, key: Bytes, depth: nat, other: Bytes)
    requires depth <= |key| && depth <= |other|
    ensures SearchIn(Delete(t, key, depth), other, depth) == if other == key then None else Search(t, other, depth)
    decreases t
  {
    hide CheckPrefix;
    match t
    case Leaf(_, _) =>
    case Inner(prefix, kids) =>
      var d := depth + |prefix|;
      SearchInner(prefix, kids, other, depth);
      if CheckPrefix(prefix, key, depth) < |prefix| {
        CheckPrefixWhole(prefix, key, depth);
      } else if d < |key| && key[d] in kids {
        PathDown(key, depth, prefix);
        SearchInner(prefix, kids - {key[d]}, other, depth);
        if Delete(kids[key[d]], key, d + 1).Some? {
          SearchInner(prefix, kids[key[d] := Delete(kids[key[d]], key, d + 1).value], other, depth);
        }
        if d < |other| {
          DeleteSearch(kids[key[d]], key, d + 1, other);
        }
      }
  }

  lemma {:induction false} DeletePlaced(t: Tree, path: Bytes, key: Bytes, depth: nat)
    requires depth <= |key| && Placed(t, path)
    ensures Delete(t, key, depth).Some? ==> Placed(Delete(t, key, depth).value, path)
    decreases t
  {
    hide CheckPrefix;
    if t.Inner? {
      var d := depth + |t.prefix|;
      if CheckPrefix(t.prefix, key, depth) == |t.prefix| && d < |key| && key[d] in t.kids {
        DeletePlaced(t.kids[key[d]], path + t.prefix + [key[d]], key, d + 1);
      }
    }
  }

  // ----- keys from one prefix-free universe

  ghost predicate PrefixFree(universe: iset<Bytes>) {
    forall a, b | a in universe && b in universe && a <= b :: a == b
  }

  /** Leaves hold keys of the universe, and the path through every inner node, empty ones included,
      is a proper prefix of one. */
  ghost predicate Within(t: Tree, path: Bytes, universe: iset<Bytes>) {
    match t
    case Leaf(k, _) => k in universe
    case Inner(prefix, kids) =>
      && (exists u :: u in universe && path + prefix < u)
      && forall b <- kids :: Within(kids[b], path + prefix + [b], universe)
  }

  lemma {:induction false} UniverseIsOpen(t: Tree, key: Bytes, depth: nat, universe: iset<Bytes>)
    requires PrefixFree(universe) && key in universe && depth <= |key|
    requires Within(t, key[..depth], universe)
    ensures Open(t, key, depth)
    decreases t
  {
    hide CheckPrefix, PrefixFree, Within;
    match t
    case Leaf(k, _) =>
      LeafWithin(t, key[..depth], universe);
      NoPrefix(k, key, universe);
    case Inner(prefix, kids) =>
      NoKeyEndsInside(t, key, depth, universe);
      var d := depth + |prefix|;
      if CheckPrefix(prefix, key, depth) == |prefix| && key[d] in kids {
        PathDown(key, depth, prefix);
        WithinKid(t, key[..depth], key[d], universe);
        UniverseIsOpen(kids[key[d]], key, d + 1, universe);
      }
  }

  lemma LeafWithin(t: Tree, path: Bytes, universe: iset<Bytes>)
    requires t.Leaf? && Within(t, path, universe)
    ensures t.key in universe
  {
  }

  lemma NoPrefix(a: Bytes, b: Bytes, universe: iset<Bytes>)
    requires PrefixFree(universe) && a in universe && b in universe
    ensures a == b || (!(a <= b) && !(b <= a))
  {
  }

  lemma WithinKid(t: Tree, path: Bytes, b: byte, universe: iset<Bytes>)
    requires t.Inner? && Within(t, path, universe) && b in t.kids
    ensures Within(t.kids[b], path + t.prefix + [b], universe)
  {
  }

  lemma NoKeyEndsInside(t: Tree, key: Bytes, depth: nat, universe: iset<Bytes>)
    requires t.Inner? && PrefixFree(universe) && key in universe && depth <= |key|
    requires Within(t, key[..depth], universe)
    ensures depth + CheckPrefix(t.prefix, key, depth) < |key|
  {
    var n := CheckPrefix(t.prefix, key, depth);
    hide CheckPrefix;
    var u :| u in universe && key[..depth] + t.prefix < u;
    if depth + n == |key| {
      KeyEndsInside(key, depth, t.prefix, n, u);
    }
  }

  lemma KeyEndsInside(key: Bytes, depth: nat, prefix: Bytes, n: nat, u: Bytes)
    requires n <= |prefix| && depth + n == |key| && prefix[..n] == key[depth..depth + n]
    requires key[..depth] + prefix < u
    ensures key <= u && |key| < |u|
  {
    var path := key[..depth] + prefix;
    assert key == key[..depth] + key[depth..] == path[..|key|];
  }

  lemma {:induction false} InsertWithin(t: Tree, key: Bytes, value: LogRecordPos, depth: nat, universe: iset<Bytes>)
    requires key in universe && depth <= |key|
    requires Within(t, key[..depth], universe) && Placed(t, key[..depth])
    ensures Within(Insert(t, key, value, depth), key[..depth], universe)
      || !Open(t, key, depth)
    decreases t
  {
    hide CheckPrefix, CommonPrefix, SplitLeaf, SplitPrefix;
    match t
    case Leaf(k, _) =>
      if k != key && Open(t, key, depth) {
        SplitLeafWithin(t, key, value, depth, universe);
      }
    case Inner(prefix, kids) =>
      var n := CheckPrefix(prefix, key, depth);
      if n < |prefix| {
        SplitPrefixWithin(t, key, value, depth, n, universe);
      } else {
        PathDown(key, depth, prefix);
        var d := depth + |prefix|;
        if d < |key| && key[d] in kids {
          InsertWithin(kids[key[d]], key, value, d + 1, universe);
        }
        if d < |key| && Open(t, key, depth) {
          WithinUpdate(prefix, kids, key[d], Insert(t, key, value, depth).kids[key[d]], key[..depth], universe);
        }
      }
  }

  lemma WithinUpdate(prefix: Bytes, kids: map<byte, Tree>, b: byte, child: Tree, path: Bytes, universe: iset<Bytes>)
    requires Within(Inner(prefix, kids), path, universe) && Within(child, path + prefix + [b], universe)
    ensures Within(Inner(prefix, kids[b := child]), path, universe)
  {
  }

  lemma SplitLeafWithin(t: Tree, key: Bytes, value: LogRecordPos, depth: nat, universe: iset<Bytes>)
    requires t.Leaf? && depth <= |key| && key[..depth] <= t.key && !(key <= t.key) && !(t.key <= key)
    requires key in universe && t.key in universe
    ensures Within(SplitLeaf(t, key, value, depth), key[..depth], universe)
  {
    hide CommonPrefix;
    BranchInside(key, t.key, depth);
    var branch := depth + CommonPrefix(key, t.key, depth);
    assert key[..depth] + key[depth..branch] == key[..branch] < key;
  }

  lemma SplitPrefixWithin(t: Tree, key: Bytes, value: LogRecordPos, depth: nat, n: nat, universe: iset<Bytes>)
    requires t.Inner? && n < |t.prefix| && depth + n <= |key| && key in universe
    requires Within(t, key[..depth], universe)
    ensures Within(SplitPrefix(t, key, value, depth, n), key[..depth], universe)
  {
    var path, prefix := key[..depth], t.prefix;
    var u :| u in universe && path + prefix < u;
    var lower := path + prefix[..n] + [prefix[n]];
    CutPath(path, prefix, n);
    assert Within(Inner(prefix[n + 1..], t.kids), lower, universe);
    assert path + prefix[..n] < u;
  }

  lemma {:induction false} DeleteWithin(t: Tree, path: Bytes, key: Bytes, depth: nat, universe: iset<Bytes>)
    requires depth <= |key| && Within(t, path, universe)
    ensures Delete(t, key, depth).Some? ==> Within(Delete(t, key, depth).value, path, universe)
    decreases t
  {
    hide CheckPrefix;
    if t.Inner? {
      var d := depth + |t.prefix|;
      if CheckPrefix(t.prefix, key, depth) == |t.prefix| && d < |key| && key[d] in t.kids {
        DeleteWithin(t.kids[key[d]], path + t.prefix + [key[d]], key, d + 1, universe);
      }
    }
  }

  // ----- whole runs

  datatype Op = PutOp(key: Bytes, value: LogRecordPos) | RemoveOp(key: Bytes)

  function RunTree(ops: seq<Op>): Root {
    if ops == [] then None
    else
      var before := RunTree(ops[..|ops| - 1]);
      match ops[|ops| - 1]
      case PutOp(key, value) => Put(before, key, value)
      case RemoveOp(key) => Remove(before, key)
  }

  function RunMap(ops: seq<Op>): map<Bytes, LogRecordPos> {
    if ops == [] then map[]
    else
      var before := RunMap(ops[..|ops| - 1]);
      match ops[|ops| - 1]
      case PutOp(key, value) => before[key := value]
      case RemoveOp(key) => before - {key}
  }

  ghost predicate RootOk(root: Root, universe: iset<Bytes>) {
    root.Some? ==> Placed(root.value, []) && Within(root.value, [], universe)
  }

  function MapLookup(m: map<Bytes, LogRecordPos>, key: Bytes): Option<LogRecordPos> {
    if key in m then Some(m[key]) else None
  }

  /** After any puts of keys from one prefix-free universe and removes of any keys, through splits and
      nodes that removal has emptied, every lookup gives what a map gives. */
  lemma {:induction false} RunsAgreeWithMap(ops: seq<Op>, universe: iset<Bytes>)
    requires PrefixFree(universe) && forall i | 0 <= i < |ops| && ops[i].PutOp? :: ops[i].key in universe
    ensures RootOk(RunTree(ops), universe)
    ensures forall key: Bytes :: Lookup(RunTree(ops), key) == MapLookup(RunMap(ops), key)
  {
    hide PrefixFree, Search, Insert, Delete, Placed, Within;
    if ops != [] {
      var n := |ops| - 1;
      RunsAgreeWithMap(ops[..n], universe);
      var before := RunTree(ops[..n]);
      StepAgrees(before, RunMap(ops[..n]), ops[n], universe);
    }
  }

  lemma StepAgrees(root: Root, m: map<Bytes, LogRecordPos>, op: Op, universe: iset<Bytes>)
    requires PrefixFree(universe) && (op.PutOp? ==> op.key in universe) && RootOk(root, universe)
    requires forall key: Bytes :: Lookup(root, key) == MapLookup(m, key)
    ensures op.PutOp? ==> RootOk(Put(root, op.key, op.value), universe)
    ensures op.PutOp? ==> forall key: Bytes :: Lookup(Put(root, op.key, op.value), key) == MapLookup(m[op.key := op.value], key)
    ensures op.RemoveOp? ==> RootOk(Remove(root, op.key), universe)
    ensures op.RemoveOp? ==> forall key: Bytes :: Lookup(Remove(root, op.key), key) == MapLookup(m - {op.key}, key)
  {
    hide PrefixFree, Insert, Delete, Open;
    var k := op.key;
    assert k[..0] == [];
    match root
    case None =>
      assert forall key: Bytes :: key !in m by {
        forall key: Bytes
          ensures key !in m
        {
          assert Lookup(root, key) == MapLookup(m, key);
        }
      }
      EmptyIsPrefix(k);
    case Some(t) =>
      match op {
        case PutOp(_, value) =>
          UniverseIsOpen(t, k, 0, universe);
          InsertIff(t, k, value);
          InsertPlaced(t, k, value, 0);
          InsertWithin(t, k, value, 0, universe);
          forall key: Bytes
            ensures Lookup(Put(root, k, value), key) == MapLookup(m[k := value], key)
          {
            assert Lookup(root, key) == MapLookup(m, key);
          }
        case RemoveOp(_) =>
          DeletePlaced(t, [], k, 0);
          DeleteWithin(t, [], k, 0, universe);
          forall key: Bytes
            ensures Lookup(Remove(root, k), key) == MapLookup(m - {k}, key)
          {
            DeleteSearch(t, k, 0, key);
            assert Lookup(root, key) == MapLookup(m, key);
          }
      }
  }

  lemma EmptyIsPrefix(key: Bytes)
    ensures [] <= key
  {
  }
}
