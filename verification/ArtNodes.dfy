/** The radix tree in memory: nodes with child tables, changed in place. Every operation is proved to
    do to the nodes what the functions of ArtTree do to the tree the nodes stand for. */
module ArtNodes {
  import opened Options
  import opened ByteStrings
  import opened LogRecords
  import opened ChildTables
  import ArtTree

  const MAX_KEY := 255

  type Kids = map<byte, ArtNode>
  type Trees = map<byte, ArtTree.Tree>

  class ArtNode {
    const isLeaf: bool
    /** Leaves only. */
    const key: Bytes
    var value: LogRecordPos
    /** Inner nodes only. The length has a byte of its own. */
    var prefix: Bytes
    var prefixLen: nat
    const table: ChildTable?<ArtNode>
    /** The tree this node stands for, and everything it is made of. */
    ghost var tree: ArtTree.Tree
    ghost var repr: set<object>

    ghost function Footprint(): set<object> {
      if table == null then {this} else {this, table, table.keys, table.keyIndices, table.children}
    }

    ghost predicate OwnOk()
      reads Footprint()
    {
      && table != null
      && Footprint() <= repr
      && table.Valid()
      && prefixLen == |prefix| <= MAX_KEY
      && tree.Inner? && tree.prefix == prefix
    }

    ghost predicate Valid()
      reads this, repr
      decreases repr, 1
    {
      && this in repr
      && if isLeaf then table == null && tree == ArtTree.Leaf(key, value)
         else Footprint() <= repr && OwnOk() && Forest(table.kids, tree.kids, repr - Footprint())
    }

    constructor Leaf(key: Bytes, value: LogRecordPos)
      ensures Valid() && isLeaf && fresh(repr) && tree == ArtTree.Leaf(key, value)
    {
      isLeaf, this.key, this.value := true, key, value;
      prefix, prefixLen, table := [], 0, null;
      tree := ArtTree.Leaf(key, value);
      repr := {this};
    }

    constructor Inner(table: ChildTable<ArtNode>, prefix: Bytes, prefixLen: nat)
      ensures !isLeaf && this.table == table && this.prefix == prefix && this.prefixLen == prefixLen
    {
      isLeaf, key, value := false, [], LogRecordPos(0, 0, 0);
      this.table, this.prefix, this.prefixLen := table, prefix, prefixLen;
      repr := {this};
    }
  }

  /** Children that stand for `trees`, made of the objects `inside`, apart from each other. */
  ghost predicate Forest(kids: Kids, trees: Trees, inside: set<object>)
    reads inside
    decreases inside, 2
  {
    && kids.Keys == trees.Keys
    && (forall b <- kids :: kids[b] in inside && kids[b].repr <= inside)
    && (forall a, b | a in kids && b in kids && a != b :: kids[a].repr !! kids[b].repr)
    && (forall b <- kids :: kids[b].Valid() && kids[b].tree == trees[b])
  }

  /** A child over a part of the inside that none of the others uses. */
  lemma ForestWith(kids: Kids, trees: Trees, inside: set<object>, b: byte, kid: ArtNode, wider: set<object>)
    requires Forest(kids, trees, inside) && b !in kids
    requires kid.Valid() && kid.repr !! inside && inside + kid.repr <= wider
    ensures Forest(kids[b := kid], trees[b := kid.tree], wider)
  {
    hide ArtNode.OwnOk;
  }

  lemma ForestKid(kids: Kids, trees: Trees, inside: set<object>, b: byte)
    requires Forest(kids, trees, inside) && b in kids
    ensures b in trees
    ensures kids[b] in inside && kids[b].repr <= inside && kids[b].Valid() && kids[b].tree == trees[b]
    ensures Forest(kids - {b}, trees - {b}, inside - kids[b].repr)
  {
    hide ArtNode.OwnOk;
    var kid := kids[b];
    forall a <- kids - {b}
      ensures kids[a] in inside - kid.repr && kids[a].repr <= inside - kid.repr
    {
      assert kids[a].Valid();
      assert kids[a].repr !! kid.repr;
    }
  }

  lemma ForestWider(kids: Kids, trees: Trees, inside: set<object>, wider: set<object>)
    requires Forest(kids, trees, inside) && inside <= wider
    ensures Forest(kids, trees, wider)
  {
    hide ArtNode.Valid;
  }

  /** An inner node of the smallest layout without children. */
  method NewNode4(prefix: Bytes) returns (node: ArtNode)
    requires |prefix| <= MAX_KEY
    ensures node.Valid() && !node.isLeaf && fresh(node.repr) && node.repr == node.Footprint() && node.table != null
    ensures node.tree == ArtTree.Inner(prefix, map[]) && node.table.kind == Node4
  {
    var table := new ChildTable<ArtNode>(Node4);
    node := new ArtNode.Inner(table, prefix, |prefix| % 256);
    node.repr := node.Footprint();
    node.tree := ArtTree.Inner(prefix, map[]);
  }

  /** Adds a child to a node that has room for it. */
  method AddKid(node: ArtNode, b: byte, kid: ArtNode)
    requires node.Valid() && !node.isLeaf && b !in node.tree.kids
    requires kid.Valid() && kid.repr !! node.repr
    requires node.table.kind != Node256 ==> |node.tree.kids| < Capacity(node.table.kind)
    modifies node.Footprint()
    ensures node.Valid()
    ensures node.tree == ArtTree.Inner(old(node.tree).prefix, old(node.tree).kids[b := kid.tree])
    ensures node.repr == old(node.repr) + kid.repr
  {
    hide ArtNode.Valid, ChildTable.Valid, Forest;
    OpenInner(node);
    SameSize(node.table.kids, node.tree.kids);
    ghost var kids, trees, inside := node.table.kids, node.tree.kids, node.repr - node.Footprint();
    ghost var wider := node.repr + kid.repr;
    ForestWith(kids, trees, inside, b, kid, wider - node.Footprint());
    node.table.AddChild(b, kid);
    node.repr := wider;
    node.tree := ArtTree.Inner(node.prefix, trees[b := kid.tree]);
    CloseInner(node);
  }

  lemma OpenInner(node: ArtNode)
    requires node.Valid() && !node.isLeaf
    ensures node in node.repr && node.OwnOk()
    ensures Forest(node.table.kids, node.tree.kids, node.repr - node.Footprint())
    ensures node.table.kids.Keys == node.tree.kids.Keys
  {
  }

  lemma LeafMeans(node: ArtNode)
    requires node.Valid() && node.isLeaf
    ensures node in node.repr && node.tree == ArtTree.Leaf(node.key, node.value)
  {
  }

  lemma CloseInner(node: ArtNode)
    requires !node.isLeaf && node.OwnOk()
    requires Forest(node.table.kids, node.tree.kids, node.repr - node.Footprint())
    ensures node.Valid()
  {
  }

  lemma SameSize<A, B>(m: map<byte, A>, n: map<byte, B>)
    requires m.Keys == n.Keys
    ensures |m| == |n|
  {
    assert |m| == |m.Keys| && |n| == |n.Keys|;
  }

  // ----- more steps on one node

  /** The same node with the next bigger layout. */
  method GrowNode(node: ArtNode) returns (r: ArtNode)
    requires node.Valid() && !node.isLeaf && node.table.kind != Node256
    ensures r.Valid() && !r.isLeaf && r.tree == node.tree && r.table.kind == Bigger(node.table.kind)
    ensures fresh(r.repr - node.repr) && fresh(r.Footprint())
  {
    hide ArtNode.Valid, ChildTable.Valid, Forest;
    OpenInner(node);
    var bigger := node.table.Grow();
    r := new ArtNode.Inner(bigger, node.prefix, node.prefixLen);
    ghost var inside := node.repr - node.Footprint();
    r.repr := inside + r.Footprint();
    r.tree := node.tree;
    assert r.repr - r.Footprint() == inside;
    CloseInner(r);
  }

  method CheckPrefix(prefix: Bytes, prefixLen: nat, key: Bytes, depth: nat) returns (n: nat)
    requires prefixLen == |prefix| && depth <= |key|
    ensures n == ArtTree.CheckPrefix(prefix, key, depth)
  {
    var maxCmp := if prefixLen < |key| - depth then prefixLen else |key| - depth;
    for i := 0 to maxCmp
      invariant ArtTree.CheckPrefix(prefix, key, depth) == i + ArtTree.CheckPrefix(prefix[i..], key, depth + i)
    {
      ghost var rest := prefix[i..];
      assert rest != [] && rest[0] == prefix[i] && rest[1..] == prefix[i + 1..];
      if prefix[i] != key[depth + i] {
        return i;
      }
    }
    return maxCmp;
  }

  method CommonPrefix(key: Bytes, other: Bytes, depth: nat) returns (n: nat)
    requires depth <= |key|
    ensures n == ArtTree.CommonPrefix(key, other, depth)
  {
    n := 0;
    while n + depth < |key| && n + depth < |other| && key[depth + n] == other[depth + n]
      invariant depth + n <= |key|
      invariant ArtTree.CommonPrefix(key, other, depth) == n + ArtTree.CommonPrefix(key, other, depth + n)
      decreases |key| - n
    {
      n := n + 1;
    }
  }

  // ----- insert

  method InsertAtLeaf(leaf: ArtNode, key: Bytes, value: LogRecordPos, depth: nat)
    returns (r: ArtNode, oldValue: Option<LogRecordPos>)
    requires leaf.Valid() && leaf.isLeaf && depth <= |key| <= MAX_KEY
    modifies leaf
    ensures r.Valid() && fresh(r.repr - old(leaf.repr))
    ensures r.tree == ArtTree.Insert(old(leaf.tree), key, value, depth)
    ensures oldValue == ArtTree.Search(old(leaf.tree), key, depth)
  {
    if leaf.key == key {
      oldValue := Some(leaf.value);
      leaf.value := value;
      leaf.tree := ArtTree.Leaf(key, value);
      return leaf, oldValue;
    }
    oldValue := None;
    r := SplitLeaf(leaf, key, value, depth);
  }

  /** A new node over the leaf and a leaf for the new key. */
  method SplitLeaf(leaf: ArtNode, key: Bytes, value: LogRecordPos, depth: nat) returns (r: ArtNode)
    requires leaf.Valid() && leaf.isLeaf && depth <= |key| <= MAX_KEY
    ensures r.Valid() && fresh(r.repr - leaf.repr)
    ensures r.tree == ArtTree.SplitLeaf(leaf.tree, key, value, depth)
  {
    hide ArtTree.CommonPrefix, ArtTree.SplitLeaf, ArtNode.Valid, ChildTable.Valid, ArtNode.OwnOk;
    LeafMeans(leaf);
    SplitLeafMeans(leaf.tree, key, value, depth);
    var common := CommonPrefix(key, leaf.key, depth);
    var branch := depth + common;
    r := NodeOverNewLeaf(key, value, depth, branch);
    assert leaf.Valid() && leaf.repr !! r.repr;
    if branch < |leaf.key| {
      AddKid(r, leaf.key[branch], leaf);
    }
  }

  lemma SplitLeafMeans(t: ArtTree.Tree, key: Bytes, value: LogRecordPos, depth: nat)
    requires t.Leaf? && depth <= |key|
    ensures var branch := depth + ArtTree.CommonPrefix(key, t.key, depth);
            var kids := if branch < |key| then map[key[branch] := ArtTree.Leaf(key, value)] else map[];
            && branch <= |key|
            && |kids| <= 1 && (branch < |t.key| ==> t.key[branch] !in kids)
            && ArtTree.SplitLeaf(t, key, value, depth)
               == ArtTree.Inner(key[depth..branch], if branch < |t.key| then kids[t.key[branch] := t] else kids)
  {
  }

  /** A new node for the key from `depth` to `branch`, over a leaf for the key if it goes on there. */
  method NodeOverNewLeaf(key: Bytes, value: LogRecordPos, depth: nat, branch: nat) returns (r: ArtNode)
    requires depth <= branch <= |key| <= MAX_KEY
    ensures r.Valid() && !r.isLeaf && fresh(r.repr) && r.table != null && fresh(r.Footprint()) && r.table.kind == Node4
    ensures r.tree == ArtTree.Inner(key[depth..branch],
                        if branch < |key| then map[key[branch] := ArtTree.Leaf(key, value)] else map[])
  {
    hide ArtNode.Valid;
    r := NewNode4(key[depth..branch]);
    if branch < |key| {
      AddNewLeaf(r, key, value, branch);
    }
  }

  /** A new node over the node, which loses the front of its prefix, and a leaf for the new key. */
  method SplitPrefix(node: ArtNode, key: Bytes, value: LogRecordPos, depth: nat, n: nat) returns (r: ArtNode)
    requires node.Valid() && !node.isLeaf && n < |node.prefix| && depth + n <= |key|
    requires depth + n < |key| ==> key[depth + n] != node.prefix[n]
    modifies node
    ensures r.Valid() && fresh(r.repr - old(node.repr))
    ensures r.tree == ArtTree.SplitPrefix(old(node.tree), key, value, depth, n)
  {
    hide ArtNode.Valid, ChildTable.Valid, Forest;
    InnerPrefix(node);
    r := NewNode4(node.prefix[..n]);
    var branch := node.prefix[n];
    CutPrefix(node, n);
    AddKid(r, branch, node);
    if depth + n < |key| {
      AddNewLeaf(r, key, value, depth + n);
    }
  }

  lemma InnerPrefix(node: ArtNode)
    requires node.Valid() && !node.isLeaf
    ensures |node.prefix| <= MAX_KEY && node.tree.Inner? && node.tree.prefix == node.prefix
  {
  }

  /** Leaves a node what stands behind place `n` of its prefix. */
  method CutPrefix(node: ArtNode, n: nat)
    requires node.Valid() && !node.isLeaf && n < |node.prefix|
    modifies node
    ensures node.Valid() && node.repr == old(node.repr)
    ensures node.tree == ArtTree.Inner(old(node.prefix)[n + 1..], old(node.tree).kids)
  {
    hide ArtNode.Valid, ChildTable.Valid, Forest;
    OpenInner(node);
    node.prefixLen := node.prefixLen - (n + 1);
    node.prefix := if node.prefixLen > 0 then node.prefix[n + 1..] else [];
    node.tree := ArtTree.Inner(node.prefix, node.tree.kids);
    CloseInner(node);
  }

  method AddNewLeaf(node: ArtNode, key: Bytes, value: LogRecordPos, d: nat)
    requires node.Valid() && !node.isLeaf && d < |key| && key[d] !in node.tree.kids
    requires node.table.kind != Node256 ==> |node.tree.kids| < Capacity(node.table.kind)
    modifies node.Footprint()
    ensures node.Valid() && fresh(node.repr - old(node.repr))
    ensures node.tree == ArtTree.Inner(old(node.tree).prefix, old(node.tree).kids[key[d] := ArtTree.Leaf(key, value)])
  {
    hide ArtNode.Valid, ChildTable.Valid, Forest;
    var newLeaf := new ArtNode.Leaf(key, value);
    AddKid(node, key[d], newLeaf);
  }

  /** Puts a leaf under a byte that has no child, in a bigger node if this one is full. */
  method AddLeaf(node: ArtNode, key: Bytes, value: LogRecordPos, d: nat) returns (r: ArtNode)
    requires node.Valid() && !node.isLeaf && d < |key| && key[d] !in node.tree.kids
    modifies node.Footprint()
    ensures r.Valid() && fresh(r.repr - old(node.repr))
    ensures r.tree == ArtTree.Inner(old(node.tree).prefix, old(node.tree).kids[key[d] := ArtTree.Leaf(key, value)])
  {
    hide ArtNode.Valid, ChildTable.Valid, Forest;
    OpenInner(node);
    SameSize(node.table.kids, node.tree.kids);
    var full := node.table.IsFull();
    r := node;
    if full {
      r := GrowNode(node);
    }
    AddNewLeaf(r, key, value, d);
  }

  lemma RoomWithout(table: ChildTable<ArtNode>, b: byte)
    requires table.Valid() && b in table.kids
    ensures table.kind != Node256 ==> |table.kids - {b}| < Capacity(table.kind)
  {
    OneLess(table.kids, b);
  }

  /** After a child has been changed in place, or another node has come back for it. */
  method UpdateKid(node: ArtNode, b: byte, child: ArtNode, newChild: ArtNode, ghost others: set<object>)
    requires !node.isLeaf && node.OwnOk() && b in node.table.kids && node.table.kids[b] == child && b in node.tree.kids
    requires others <= node.repr - node.Footprint()
    requires Forest(node.table.kids - {b}, node.tree.kids - {b}, others)
    requires newChild.Valid() && newChild.repr !! others && newChild.repr !! node.Footprint()
    modifies node.Footprint()
    ensures node.Valid()
    ensures node.tree == ArtTree.Inner(old(node.tree).prefix, old(node.tree).kids[b := newChild.tree])
    ensures node.repr == old(node.repr) + newChild.repr
  {
    hide ArtNode.Valid, ChildTable.Valid, Forest;
    ghost var kids, trees := node.table.kids, node.tree.kids;
    ghost var wider := node.repr + newChild.repr;
    ForestWith(kids - {b}, trees - {b}, others, b, newChild, wider - node.Footprint());
    assert (trees - {b})[b := newChild.tree] == trees[b := newChild.tree];
    if newChild != child {
      RoomWithout(node.table, b);
      node.table.RemoveChild(b);
      node.table.AddChild(b, newChild);
    } else {
      assert (kids - {b})[b := newChild] == kids;
    }
    node.repr := wider;
    node.tree := ArtTree.Inner(node.prefix, trees[b := newChild.tree]);
    CloseInner(node);
  }

  /** Where the node goes on, `d` bytes into the key. */
  method InsertBelow(node: ArtNode, key: Bytes, value: LogRecordPos, d: nat)
    returns (r: ArtNode, oldValue: Option<LogRecordPos>)
    requires node.Valid() && !node.isLeaf && d < |key| <= MAX_KEY
    modifies node.repr
    ensures r.Valid() && fresh(r.repr - old(node.repr))
    ensures var kids := old(node.tree).kids;
            && r.tree == ArtTree.Inner(old(node.tree).prefix, kids[key[d] :=
                 if key[d] in kids then ArtTree.Insert(kids[key[d]], key, value, d + 1) else ArtTree.Leaf(key, value)])
            && oldValue == if key[d] in kids then ArtTree.Search(kids[key[d]], key, d + 1) else None
    decreases |key| - d, 0
  {
    hide ArtNode.Valid, ChildTable.Valid, Forest;
    OpenInner(node);
    var b := key[d];
    ghost var trees := node.tree.kids;
    var found := node.table.FindChild(b);
    match found {
      case Some(child) =>
        ghost var inside := node.repr - node.Footprint();
        ForestKid(node.table.kids, trees, inside, b);
        ghost var others := inside - child.repr;
        var newChild;
        newChild, oldValue := Insert(child, key, value, d + 1);
        UpdateKid(node, b, child, newChild, others);
        r := node;
      case None =>
        oldValue := None;
        r := AddLeaf(node, key, value, d);
    }
  }

  /** Inserts into the subtree of `node`, of which the first `depth` bytes of the key are the path, and
      returns the node that takes its place. The old value is the one a search would have found. */
  method Insert(node: ArtNode?, key: Bytes, value: LogRecordPos, depth: nat)
    returns (r: ArtNode, oldValue: Option<LogRecordPos>)
    requires node != null ==> node.Valid()
    requires depth <= |key| <= MAX_KEY
    modifies if node == null then {} else node.repr
    ensures r.Valid() && fresh(r.repr - if node == null then {} else old(node.repr))
    ensures r.tree == if node == null then ArtTree.Leaf(key, value) else ArtTree.Insert(old(node.tree), key, value, depth)
    ensures oldValue == if node == null then None else ArtTree.Search(old(node.tree), key, depth)
    decreases |key| - depth, 1
  {
    hide ArtNode.Valid, ChildTable.Valid, Forest, ArtTree.CheckPrefix, ArtTree.SplitPrefix, ArtTree.SplitLeaf;
    if node == null {
      r := new ArtNode.Leaf(key, value);
      return r, None;
    }
    if node.isLeaf {
      LeafMeans(node);
      r, oldValue := InsertAtLeaf(node, key, value, depth);
      return;
    }
    OpenInner(node);
    var d := depth;
    if node.prefixLen > 0 {
      var n := CheckPrefix(node.prefix, node.prefixLen, key, depth);
      if n < node.prefixLen {
        r := SplitPrefix(node, key, value, depth, n);
        return r, None;
      }
      d := depth + node.prefixLen;
    }
    if d >= |key| {
      return node, None;
    }
    r, oldValue := InsertBelow(node, key, value, d);
  }

  // ----- delete and search

  /** Deletes from the subtree of `node` and returns the node that takes its place: null for the leaf
      of the key, otherwise the node itself. */
  method Delete(node: ArtNode?, key: Bytes, depth: nat)
    returns (r: ArtNode?, oldValue: Option<LogRecordPos>, found: bool)
    requires node != null ==> node.Valid()
    requires depth <= |key|
    modifies if node == null then {} else node.repr
    ensures r != null ==> node != null && r.Valid() && r.repr <= old(node.repr)
    ensures node != null ==>
      ArtTree.Delete(old(node.tree), key, depth) == (if r == null then None else Some(r.tree))
    ensures oldValue == if node == null then None else ArtTree.Search(old(node.tree), key, depth)
    ensures found <==> oldValue.Some?
    decreases |key| - depth, 1
  {
    hide ArtNode.Valid, ChildTable.Valid, Forest, ArtTree.CheckPrefix;
    if node == null {
      return null, None, false;
    }
    if node.isLeaf {
      LeafMeans(node);
      if node.key == key {
        return null, Some(node.value), true;
      }
      return node, None, false;
    }
    OpenInner(node);
    var d := depth;
    if node.prefixLen > 0 {
      var n := CheckPrefix(node.prefix, node.prefixLen, key, depth);
      if n != node.prefixLen {
        return node, None, false;
      }
      d := depth + node.prefixLen;
    }
    if d >= |key| {
      return node, None, false;
    }
    oldValue, found := DeleteBelow(node, key, d);
    r := node;
  }

  /** Where the node goes on, `d` bytes into the key. */
  method DeleteBelow(node: ArtNode, key: Bytes, d: nat) returns (oldValue: Option<LogRecordPos>, found: bool)
    requires node.Valid() && !node.isLeaf && d < |key|
    modifies node.repr
    ensures node.Valid() && node.repr <= old(node.repr)
    ensures var kids := old(node.tree).kids;
            && node.tree == ArtTree.Inner(old(node.tree).prefix,
                 if key[d] !in kids then kids
                 else match ArtTree.Delete(kids[key[d]], key, d + 1)
                      case None => kids - {key[d]}
                      case Some(kid) => kids[key[d] := kid])
            && oldValue == if key[d] in kids then ArtTree.Search(kids[key[d]], key, d + 1) else None
    ensures found <==> oldValue.Some?
    decreases |key| - d, 0
  {
    hide ArtNode.Valid, ChildTable.Valid, Forest, ArtTree.Delete, ArtTree.Search;
    OpenInner(node);
    var b := key[d];
    var child := node.table.FindChild(b);
    if child.None? {
      return None, false;
    }
    ghost var inside := node.repr - node.Footprint();
    ForestKid(node.table.kids, node.tree.kids, inside, b);
    ghost var others := inside - child.value.repr;
    var newChild;
    newChild, oldValue, found := Delete(child.value, key, d + 1);
    if newChild == null {
      DropKid(node, b, others);
    } else {
      UpdateKid(node, b, child.value, newChild, others);
    }
  }

  method DropKid(node: ArtNode, b: byte, ghost others: set<object>)
    requires !node.isLeaf && node.OwnOk() && b in node.table.kids && b in node.tree.kids
    requires others <= node.repr - node.Footprint()
    requires Forest(node.table.kids - {b}, node.tree.kids - {b}, others)
    modifies node.Footprint()
    ensures node.Valid() && node.repr == old(node.repr)
    ensures node.tree == ArtTree.Inner(old(node.tree).prefix, old(node.tree).kids - {b})
  {
    hide ArtNode.Valid, ChildTable.Valid, Forest;
    ForestWider(node.table.kids - {b}, node.tree.kids - {b}, others, node.repr - node.Footprint());
    node.table.RemoveChild(b);
    node.tree := ArtTree.Inner(node.prefix, node.tree.kids - {b});
    CloseInner(node);
  }

  /** The leaf of the key, if there is one. */
  method Search(root: ArtNode?, key: Bytes) returns (leaf: ArtNode?)
    requires root != null ==> root.Valid()
    ensures leaf != null ==> leaf.isLeaf && leaf.key == key
    ensures (if leaf == null then None else Some(leaf.value))
         == (if root == null then None else ArtTree.Search(root.tree, key, 0))
  {
    hide ArtNode.Valid, ChildTable.Valid, Forest, ArtTree.CheckPrefix, ArtTree.Search;
    var node, depth := root, 0;
    ghost var answer := if root == null then None else ArtTree.Search(root.tree, key, 0);
    while node != null && !node.isLeaf
      invariant 0 <= depth <= |key|
      invariant node != null ==> node.Valid()
      invariant answer == if node == null then None else ArtTree.Search(node.tree, key, depth)
      decreases |key| - depth, if node == null then 0 else 1
    {
      OpenInner(node);
      SearchOnce(node.tree, key, depth);
      if node.prefixLen > 0 {
        var n := CheckPrefix(node.prefix, node.prefixLen, key, depth);
        if n != node.prefixLen {
          return null;
        }
        depth := depth + node.prefixLen;
      }
      if depth >= |key| {
        break;
      }
      var child := node.table.FindChild(key[depth]);
      match child {
        case None => node := null;
        case Some(kid) =>
          ForestKid(node.table.kids, node.tree.kids, node.repr - node.Footprint(), key[depth]);
          node := kid;
      }
      depth := depth + 1;
    }
    if node != null && node.isLeaf {
      LeafMeans(node);
      SearchOnce(node.tree, key, depth);
      if node.key == key {
        return node;
      }
    } else if node != null {
      OpenInner(node);
      SearchOnce(node.tree, key, depth);
    }
    return null;
  }

  lemma SearchOnce(t: ArtTree.Tree, key: Bytes, depth: nat)
    requires depth <= |key|
    ensures ArtTree.Search(t, key, depth) ==
      match t
      case Leaf(k, value) => if k == key then Some(value) else None
      case Inner(prefix, kids) =>
        var d := depth + |prefix|;
        if ArtTree.CheckPrefix(prefix, key, depth) < |prefix| then None
        else if d < |key| && key[d] in kids then ArtTree.Search(kids[key[d]], key, d + 1) else None
  {
  }
}
