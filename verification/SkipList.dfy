/** The skip list index: a sorted chain of nodes with towers of forward pointers. The level of a new
    node is random in the program; here it is any level up to the maximum. */
module SkipListIndex {
  import opened Options
  import opened Sequences
  import opened ByteStrings
  import opened LogRecords
  import opened KeyOrder

  const MAX_LEVEL := 16

  /** A node of level `level` has level + 1 forward pointers. */
  class SkipNode {
    const key: Bytes
    const level: nat
    var pos: LogRecordPos
    var forward: seq<SkipNode?>

    constructor (key: Bytes, pos: LogRecordPos, level: nat)
      ensures this.key == key && this.pos == pos && this.level == level
      ensures |forward| == level + 1 && forall l | 0 <= l <= level :: forward[l] == null
    {
      this.key, this.pos, this.level := key, pos, level;
      forward := seq(level + 1, l => null);
    }
  }

  // ----- towers: which node a tower of a given height is linked to

  /** The first place from `i` on whose tower is higher than `l`, or the end. */
  function Next(towers: seq<nat>, i: nat, l: nat): (n: nat)
    requires i <= |towers|
    ensures i <= n <= |towers|
    ensures n < |towers| ==> l < towers[n]
    ensures forall j | i <= j < n :: towers[j] <= l
    decreases |towers| - i
  {
    if i == |towers| || l < towers[i] then i else Next(towers, i + 1, l)
  }

  lemma {:induction false} NextIs(towers: seq<nat>, i: nat, l: nat, n: nat)
    requires i <= n <= |towers|
    requires n < |towers| ==> l < towers[n]
    requires forall j | i <= j < n :: towers[j] <= l
    ensures Next(towers, i, l) == n
    decreases n - i
  {
    if i < n {
      NextIs(towers, i + 1, l, n);
    }
  }

  /** Inserting a tower at `p` catches the links that pass over `p` below its height. */
  lemma NextInsert(towers: seq<nat>, p: nat, height: nat, i: nat, l: nat)
    requires i <= p <= |towers|
    ensures Next(InsertAt(towers, p, height), i, l) ==
            var n := Next(towers, i, l);
            if n < p then n else if l < height then p else n + 1
  {
    var towers', n := InsertAt(towers, p, height), Next(towers, i, l);
    var n' := if n < p then n else if l < height then p else n + 1;
    assert forall j | 0 <= j < p :: towers'[j] == towers[j];
    assert forall j | p < j <= |towers| :: towers'[j] == towers[j - 1];
    NextIs(towers', i, l, n');
  }

  lemma NextInsertBehind(towers: seq<nat>, p: nat, height: nat, i: nat, l: nat)
    requires p <= i <= |towers|
    ensures Next(InsertAt(towers, p, height), i + 1, l) == Next(towers, i, l) + 1
  {
    var towers', n := InsertAt(towers, p, height), Next(towers, i, l);
    assert forall j | p < j <= |towers| :: towers'[j] == towers[j - 1];
    NextIs(towers', i + 1, l, n + 1);
  }

  /** Deleting the tower at `p` leads its links to where it was linked itself. */
  lemma NextDelete(towers: seq<nat>, p: nat, i: nat, l: nat)
    requires i <= p < |towers|
    ensures Next(DeleteAt(towers, p), i, l) ==
            var n := Next(towers, i, l);
            if n < p then n else if n == p then Next(towers, p + 1, l) - 1 else n - 1
  {
    var towers', n := DeleteAt(towers, p), Next(towers, i, l);
    var n' := if n < p then n else if n == p then Next(towers, p + 1, l) - 1 else n - 1;
    assert forall j | 0 <= j < p :: towers'[j] == towers[j];
    assert forall j | p <= j < |towers'| :: towers'[j] == towers[j + 1];
    NextIs(towers', i, l, n');
  }

  lemma NextDeleteBehind(towers: seq<nat>, p: nat, i: nat, l: nat)
    requires p < i <= |towers|
    ensures Next(DeleteAt(towers, p), i - 1, l) == Next(towers, i, l) - 1
  {
    var towers', n := DeleteAt(towers, p), Next(towers, i, l);
    assert forall j | p <= j < |towers'| :: towers'[j] == towers[j + 1];
    NextIs(towers', i - 1, l, n - 1);
  }

  // ----- the chain

  /** The number of pointers of every node. */
  function Towers(nodes: seq<SkipNode>): (towers: seq<nat>)
    ensures |towers| == |nodes|
  {
    seq(|nodes|, i requires 0 <= i < |nodes| => nodes[i].level + 1)
  }

  function NodeAt(nodes: seq<SkipNode>, i: nat): SkipNode? {
    if i < |nodes| then nodes[i] else null
  }

  /** Every pointer of every tower leads to the next node whose tower is high enough. */
  ghost predicate Linked(nodes: seq<SkipNode>)
    reads nodes`forward
  {
    && (forall i | 0 <= i < |nodes| :: |nodes[i].forward| == nodes[i].level + 1)
    && forall i, l | 0 <= i < |nodes| && 0 <= l <= nodes[i].level ::
         nodes[i].forward[l] == NodeAt(nodes, Next(Towers(nodes), i + 1, l))
  }

  ghost predicate Shape(nodes: seq<SkipNode>) {
    && |nodes| > 0
    && nodes[0].level == MAX_LEVEL
    && (forall i | 0 <= i < |nodes| :: nodes[i].level <= MAX_LEVEL)
    && (forall i, j | 0 <= i < j < |nodes| :: nodes[i] != nodes[j])
    && (forall i, j | 1 <= i < j < |nodes| :: Less(nodes[i].key, nodes[j].key))
  }

  /** The list below the header stands for a map. */
  ghost predicate Represents(nodes: seq<SkipNode>, contents: map<Bytes, LogRecordPos>)
    reads nodes`pos
  {
    && (forall i | 1 <= i < |nodes| :: nodes[i].key in contents && contents[nodes[i].key] == nodes[i].pos)
    && (forall k <- contents :: exists i | 1 <= i < |nodes| :: nodes[i].key == k)
  }

  /** `p` is where `key` is or belongs. */
  ghost predicate LowerBound(nodes: seq<SkipNode>, key: Bytes, p: nat) {
    && 1 <= p <= |nodes|
    && (forall i | 1 <= i < p :: Less(nodes[i].key, key))
    && (forall i | p <= i < |nodes| :: !Less(nodes[i].key, key))
  }

  /** `u` is the last node before `p` with a pointer at level `l`. */
  ghost predicate LastBefore(nodes: seq<SkipNode>, p: nat, u: nat, l: nat) {
    u < p <= |nodes| && l <= nodes[u].level && Next(Towers(nodes), u + 1, l) >= p
  }

  ghost predicate OnPath(nodes: seq<SkipNode>, p: nat, node: SkipNode, u: nat, l: nat) {
    u < |nodes| && node == nodes[u] && LastBefore(nodes, p, u, l)
  }

  /** The search path to `p`: on every level up to `level` the last node before `p`. */
  ghost predicate Path(nodes: seq<SkipNode>, p: nat, update: seq<SkipNode>, us: seq<nat>, level: nat) {
    && |update| == |us| == MAX_LEVEL + 1
    && level <= MAX_LEVEL
    && forall l | 0 <= l <= level :: OnPath(nodes, p, update[l], us[l], l)
  }

  class SkipList {
    const header: SkipNode
    var level: nat
    /** All nodes, the header first. */
    ghost var nodes: seq<SkipNode>
    /** The map the list stands for. */
    ghost var contents: map<Bytes, LogRecordPos>

    ghost predicate Valid()
      reads this, nodes
    {
      && Shape(nodes)
      && nodes[0] == header
      && Linked(nodes)
      && LevelOk(nodes, level)
      && Represents(nodes, contents)
    }

    /** The level is the highest level in use. */
    static ghost predicate LevelOk(nodes: seq<SkipNode>, level: nat) {
      && level <= MAX_LEVEL
      && (forall i | 1 <= i < |nodes| :: nodes[i].level <= level)
      && (level > 0 ==> exists i | 1 <= i < |nodes| :: nodes[i].level == level)
    }

    constructor ()
      ensures Valid() && contents == map[]
      ensures fresh(nodes)
    {
      var node := new SkipNode([], LogRecordPos(0, 0, 0), MAX_LEVEL);
      header, level, nodes, contents := node, 0, [node], map[];
    }

    /** Moves along one level as long as the next key is smaller. */
    method WalkLevel(key: Bytes, start: SkipNode, i: nat, ghost p: nat, ghost c0: nat)
      returns (current: SkipNode, ghost c: nat)
      requires Valid() && LowerBound(nodes, key, p)
      requires c0 < p && start == nodes[c0] && i <= start.level
      ensures c < p && current == nodes[c] && i <= current.level
      ensures LastBefore(nodes, p, c, i)
    {
      hide LevelOk, Represents;
      current, c := start, c0;
      while current.forward[i] != null && Less(current.forward[i].key, key)
        invariant c < p && current == nodes[c] && i <= current.level
        decreases |nodes| - c
      {
        c := Next(Towers(nodes), c + 1, i);
        current := current.forward[i];
      }
    }

    /** Walks down the levels and remembers on each the last node with a smaller key. */
    method FindNode(key: Bytes) returns (node: SkipNode?, update: seq<SkipNode>, ghost p: nat, ghost us: seq<nat>)
      requires Valid()
      ensures LowerBound(nodes, key, p) && node == NodeAt(nodes, p)
      ensures node == null ==> forall k <- contents :: Less(k, key)
      ensures node != null ==> node.key in contents && forall k <- contents :: Less(k, key) <==> Less(k, node.key)
      ensures Path(nodes, p, update, us, level)
    {
      hide LowerBound, Represents, LastBefore, Linked, Next, Towers, Less;
      p := FindLowerBound(nodes, key);
      SeekMeans(nodes, contents, key, p);
      var current: SkipNode := header;
      ghost var c: nat := 0;
      update, us := seq(MAX_LEVEL + 1, l => header), seq(MAX_LEVEL + 1, l => 0);
      LowerBoundPositive(nodes, key, p);
      var i: int := level;
      while i >= 0
        invariant -1 <= i <= level && |update| == |us| == MAX_LEVEL + 1
        invariant c < p && current == nodes[c] && i <= current.level
        invariant i == -1 ==> LastBefore(nodes, p, c, 0)
        invariant forall l | i < l <= level :: OnPath(nodes, p, update[l], us[l], l)
      {
        current, c := WalkLevel(key, current, i, p, c);
        update := update[i := current];
        us := us[i := c];
        i := i - 1;
      }
      BottomLink(nodes, p, c);
      node := current.forward[0];
    }

    method Get(key: Bytes) returns (r: Option<LogRecordPos>)
      requires Valid()
      ensures r == if key in contents then Some(contents[key]) else None
    {
      var node, update, p, us := FindNode(key);
      FoundIff(nodes, contents, key, p);
      if node != null && node.key == key {
        return Some(node.pos);
      }
      return None;
    }

    /** Stores `pos` under `key`; a new key gets a node of level `newLevel`, whichever it is. */
    method Put(key: Bytes, pos: LogRecordPos, newLevel: nat) returns (oldPos: Option<LogRecordPos>)
      requires Valid() && newLevel <= MAX_LEVEL
      modifies this, nodes
      ensures Valid() && fresh(set n <- nodes | n !in old(nodes))
      ensures contents == old(contents)[key := pos]
      ensures oldPos == if key in old(contents) then Some(old(contents)[key]) else None
    {
      var node, update, p, us := FindNode(key);
      FoundIff(nodes, contents, key, p);
      if node != null && node.key == key {
        oldPos := Some(node.pos);
        ReplacePos(node, pos, p);
      } else {
        oldPos := None;
        InsertNode(key, pos, newLevel, update, p, us);
      }
    }

    method Remove(key: Bytes) returns (oldPos: Option<LogRecordPos>, ok: bool)
      requires Valid()
      modifies this, nodes
      ensures Valid() && (forall n <- nodes :: n in old(nodes))
      ensures contents == old(contents) - {key}
      ensures ok <==> key in old(contents)
      ensures oldPos == if key in old(contents) then Some(old(contents)[key]) else None
    {
      hide Linked, Unlinking, LowerBound, Represents, Shape, LevelOk, Path;
      var node, update, p, us := FindNode(key);
      LowerBoundPositive(nodes, key, p);
      FoundIff(nodes, contents, key, p);
      if node == null || node.key != key {
        assert contents - {key} == contents;
        return None, false;
      }
      NodeInContents(nodes, contents, p);
      oldPos, ok := Some(node.pos), true;
      LinkedIsUnlinking(nodes, p);
      DeleteLevels(nodes, p, level);
      UnlinkNode(node, update, p, us);
      UnlinkingIsLinked(nodes, p);
      DeleteKeepsShape(nodes, p);
      DeleteRepresents(nodes, contents, p);
      nodes := DeleteAt(nodes, p);
      contents := contents - {key};
      LowerLevel();
    }

    /** Takes the node out of every level it is linked on. */
    method UnlinkNode(node: SkipNode, update: seq<SkipNode>, ghost p: nat, ghost us: seq<nat>)
      requires Shape(nodes) && 1 <= p < |nodes| && node == nodes[p] && node.level <= level
      requires Path(nodes, p, update, us, level)
      requires Unlinking(nodes, p, 0)
      modifies nodes`forward
      ensures Unlinking(nodes, p, node.level + 1)
    {
      hide LastBefore, Unlinking, Shape;
      var i := 0;
      while i <= level
        invariant 0 <= i <= node.level + 1
        invariant Unlinking(nodes, p, i)
      {
        LastBeforeNext(nodes, p, us[i], i);
        assert OnPath(nodes, p, update[i], us[i], i);
        LinkedToNode(nodes, p, us[i], i);
        if update[i].forward[i] != node {
          break;
        }
        UnlinkLevel(node, update[i], i, p, us[i]);
        i := i + 1;
      }
    }

    method UnlinkLevel(node: SkipNode, prev: SkipNode, i: nat, ghost p: nat, ghost u: nat)
      requires Shape(nodes) && 1 <= p < |nodes| && node == nodes[p] && i <= node.level
      requires LastBefore(nodes, p, u, i) && prev == nodes[u]
      requires Unlinking(nodes, p, i)
      modifies prev`forward
      ensures Unlinking(nodes, p, i + 1)
    {
      hide Next, Towers, LastBefore;
      LastBeforeNext(nodes, p, u, i);
      NotLastBehind(nodes, p, p, i);
      assert node.forward[i] == NodeAt(nodes, Next(Towers(nodes), p + 1, i));
      prev.forward := prev.forward[i := node.forward[i]];
    }

    /** Lowers the level while nothing is linked on it. */
    method LowerLevel()
      requires Shape(nodes) && nodes[0] == header && Linked(nodes)
      requires level <= MAX_LEVEL && forall i | 1 <= i < |nodes| :: nodes[i].level <= level
      modifies this`level
      ensures LevelOk(nodes, level)
    {
      hide Next, Towers;
      while level > 0 && header.forward[level] == null
        invariant level <= MAX_LEVEL && forall i | 1 <= i < |nodes| :: nodes[i].level <= level
      {
        HeaderLink(nodes, level);
        level := level - 1;
      }
      if level > 0 {
        HeaderLink(nodes, level);
      }
    }

    /** All keys, in increasing order. */
    method ListKeys() returns (keys: seq<Bytes>)
      requires Valid()
      ensures Sorted(keys)
      ensures forall k :: k in keys <==> k in contents
      ensures |keys| == |nodes| - 1
    {
      hide Represents, LevelOk, Next, Towers, Less;
      keys := [];
      ghost var j: nat := 1;
      BottomNext(nodes, 0);
      var current := header.forward[0];
      while current != null
        invariant 1 <= j <= |nodes| && current == NodeAt(nodes, j)
        invariant |keys| == j - 1 && forall i | 0 <= i < |keys| :: keys[i] == nodes[i + 1].key
        decreases |nodes| - j
      {
        keys := keys + [current.key];
        BottomNext(nodes, j);
        current := current.forward[0];
        j := j + 1;
      }
      KeysAreContents(nodes, contents, keys);
    }

    method Size() returns (count: nat)
      requires Valid()
      ensures count == |contents|
    {
      hide Represents, LevelOk, Next, Towers, Less;
      count := 0;
      BottomNext(nodes, 0);
      var current := header.forward[0];
      while current != null
        invariant count < |nodes| && current == NodeAt(nodes, count + 1)
        decreases |nodes| - count
      {
        BottomNext(nodes, count + 1);
        count := count + 1;
        current := current.forward[0];
      }
      CountContents(nodes, contents);
    }

    /** The search of the iterator: the first node whose key is not smaller. It starts on level 15,
        whatever the level of the list. */
    method Seek(key: Bytes) returns (node: SkipNode?, ghost p: nat)
      requires Valid()
      ensures LowerBound(nodes, key, p) && node == NodeAt(nodes, p)
      ensures node == null ==> forall k <- contents :: Less(k, key)
      ensures node != null ==> node.key in contents && forall k <- contents :: Less(k, key) <==> Less(k, node.key)
    {
      hide LowerBound, Represents, LastBefore, Linked, Next, Towers, Less;
      p := FindLowerBound(nodes, key);
      SeekMeans(nodes, contents, key, p);
      LowerBoundPositive(nodes, key, p);
      var current: SkipNode := header;
      ghost var c: nat := 0;
      var l: int := 15;
      while l >= 0
        invariant -1 <= l <= 15
        invariant c < p && current == nodes[c] && l <= current.level
        invariant l == -1 ==> LastBefore(nodes, p, c, 0)
      {
        current, c := WalkLevel(key, current, l, p, c);
        l := l - 1;
      }
      BottomLink(nodes, p, c);
      node := current.forward[0];
    }

    method ReplacePos(node: SkipNode, pos: LogRecordPos, ghost p: nat)
      requires Valid() && 1 <= p < |nodes| && node == nodes[p]
      modifies node`pos, this`contents
      ensures Valid() && contents == old(contents)[node.key := pos]
    {
      hide Next, Towers;
      node.pos := pos;
      contents := contents[node.key := pos];
      forall i | 1 <= i < |nodes| && i != p
        ensures nodes[i].key != node.key
      {
        if i < p { LessAsymmetric(nodes[i].key, node.key); } else { LessAsymmetric(node.key, nodes[i].key); }
      }
    }

    method InsertNode(key: Bytes, pos: LogRecordPos, newLevel: nat, update: seq<SkipNode>, ghost p: nat, ghost us: seq<nat>)
      requires Valid() && newLevel <= MAX_LEVEL
      requires LowerBound(nodes, key, p) && key !in contents
      requires Path(nodes, p, update, us, level)
      modifies this, nodes
      ensures Valid() && fresh(set n <- nodes | n !in old(nodes))
      ensures contents == old(contents)[key := pos]
    {
      hide Next, Towers, LastBefore, Linked, Relinked, LowerBound, Represents, Shape, LevelOk, Less;
      LowerBoundPositive(nodes, key, p);
      FoundIff(nodes, contents, key, p);
      var path, indices := ExtendPath(key, newLevel, update, p, us);
      var newNode := new SkipNode(key, pos, newLevel);
      LinkedIsRelinked(nodes, p, newNode);
      LinkNode(newNode, path, p, indices);
      ghost var nodes' := InsertAt(nodes, p, newNode);
      InsertKeepsShape(nodes, p, newNode);
      RelinkedIsLinked(nodes, p, newNode);
      InsertRepresents(nodes, contents, p, newNode);
      InsertLevel(nodes, p, newNode, level);
      level := if newLevel > level then newLevel else level;
      nodes := nodes';
      contents := contents[key := pos];
    }

    /** Above the levels in use the new node is linked behind the header. */
    method ExtendPath(key: Bytes, newLevel: nat, update: seq<SkipNode>, ghost p: nat, ghost us: seq<nat>)
      returns (path: seq<SkipNode>, ghost indices: seq<nat>)
      requires Valid() && newLevel <= MAX_LEVEL && LowerBound(nodes, key, p)
      requires Path(nodes, p, update, us, level)
      ensures Path(nodes, p, path, indices, newLevel)
    {
      hide LastBefore, Linked, LowerBound, Represents, Shape;
      path, indices := update, us;
      if newLevel > level {
        for i := level + 1 to newLevel + 1
          invariant Path(nodes, p, path, indices, i - 1)
        {
          path := path[i := header];
          indices := indices[i := 0];
          HeaderIsLast(nodes, key, p, level, i);
        }
      }
    }

    /** Splices the new node in on all its levels. */
    method LinkNode(newNode: SkipNode, path: seq<SkipNode>, ghost p: nat, ghost us: seq<nat>)
      requires Shape(nodes) && newNode !in nodes && newNode.level <= MAX_LEVEL && 1 <= p <= |nodes|
      requires Path(nodes, p, path, us, newNode.level)
      requires Relinked(nodes, p, newNode, 0)
      modifies newNode`forward, nodes`forward
      ensures Relinked(nodes, p, newNode, newNode.level + 1)
    {
      hide Relinked, LastBefore;
      for i := 0 to newNode.level + 1
        invariant Relinked(nodes, p, newNode, i)
      {
        LastBeforeNext(nodes, p, us[i], i);
        LinkLevel(newNode, path[i], i, p, us[i]);
      }
    }

    method LinkLevel(newNode: SkipNode, prev: SkipNode, i: nat, ghost p: nat, ghost u: nat)
      requires Shape(nodes) && newNode !in nodes && i <= newNode.level && 1 <= p <= |nodes|
      requires LastBefore(nodes, p, u, i) && prev == nodes[u]
      requires Relinked(nodes, p, newNode, i)
      modifies newNode`forward, prev`forward
      ensures Relinked(nodes, p, newNode, i + 1)
    {
      hide Next, Towers, LastBefore;
      LastBeforeNext(nodes, p, u, i);
      assert prev.forward[i] == NodeAt(nodes, Next(Towers(nodes), p, i));
      newNode.forward := newNode.forward[i := prev.forward[i]];
      prev.forward := prev.forward[i := newNode];
    }
  }

  lemma LastBeforeNext(nodes: seq<SkipNode>, p: nat, u: nat, l: nat)
    requires LastBefore(nodes, p, u, l)
    ensures u < p <= |nodes| && l <= nodes[u].level
    ensures Next(Towers(nodes), u + 1, l) == Next(Towers(nodes), p, l)
    ensures forall a: nat :: LastBefore(nodes, p, a, l) ==> a == u
  {
    var towers := Towers(nodes);
    NextIs(towers, p, l, Next(towers, u + 1, l));
    forall a: nat | LastBefore(nodes, p, a, l)
      ensures a == u
    {
      assert towers[a] > l && towers[u] > l;
    }
  }

  /** The chain while `x` is being spliced in at `p`, finished on the levels below `upTo`. */
  ghost predicate Relinked(nodes: seq<SkipNode>, p: nat, x: SkipNode, upTo: nat)
    requires 1 <= p <= |nodes|
    reads nodes`forward, x`forward
  {
    && |x.forward| == x.level + 1
    && (forall l | 0 <= l < upTo && l <= x.level :: x.forward[l] == NodeAt(nodes, Next(Towers(nodes), p, l)))
    && (forall a | 0 <= a < |nodes| :: |nodes[a].forward| == nodes[a].level + 1)
    && (forall a, l | 0 <= a < |nodes| && 0 <= l <= nodes[a].level ::
          nodes[a].forward[l] == if l < upTo && LastBefore(nodes, p, a, l) then x
                                 else NodeAt(nodes, Next(Towers(nodes), a + 1, l)))
  }

  lemma LinkedIsRelinked(nodes: seq<SkipNode>, p: nat, x: SkipNode)
    requires 1 <= p <= |nodes| && Linked(nodes) && |x.forward| == x.level + 1
    ensures Relinked(nodes, p, x, 0)
  {
  }

  lemma HeaderIsLast(nodes: seq<SkipNode>, key: Bytes, p: nat, level: nat, l: nat)
    requires Shape(nodes) && LowerBound(nodes, key, p) && SkipList.LevelOk(nodes, level) && level < l <= MAX_LEVEL
    ensures LastBefore(nodes, p, 0, l)
  {
    NextIs(Towers(nodes), 1, l, |nodes|);
  }

  lemma InsertKeepsShape(nodes: seq<SkipNode>, p: nat, x: SkipNode)
    requires Shape(nodes) && x !in nodes && x.level <= MAX_LEVEL
    requires LowerBound(nodes, x.key, p)
    requires p < |nodes| ==> nodes[p].key != x.key
    ensures Shape(InsertAt(nodes, p, x))
  {
    forall i | p <= i < |nodes|
      ensures Less(x.key, nodes[i].key)
    {
      LessTotal(x.key, nodes[i].key);
    }
  }

  lemma RelinkedIsLinked(nodes: seq<SkipNode>, p: nat, x: SkipNode)
    requires Shape(nodes) && 1 <= p <= |nodes| && Relinked(nodes, p, x, x.level + 1)
    ensures Linked(InsertAt(nodes, p, x))
  {
    hide Next, LastBefore, Towers, Shape, Relinked, NodeAt;
    var nodes' := InsertAt(nodes, p, x);
    RelinkedSizes(nodes, p, x);
    forall i: nat, l: nat | i < |nodes'| && l <= nodes'[i].level
      ensures nodes'[i].forward[l] == NodeAt(nodes', Next(Towers(nodes'), i + 1, l))
    {
      if i < p {
        RelinkedBefore(nodes, p, x, i, l);
      } else if i == p {
        RelinkedAt(nodes, p, x, l);
      } else {
        RelinkedBehind(nodes, p, x, i - 1, l);
      }
    }
  }

  lemma RelinkedSizes(nodes: seq<SkipNode>, p: nat, x: SkipNode)
    requires 1 <= p <= |nodes| && Relinked(nodes, p, x, x.level + 1)
    ensures |x.forward| == x.level + 1
    ensures forall a | 0 <= a < |nodes| :: |nodes[a].forward| == nodes[a].level + 1
  {
  }

  lemma RelinkedBefore(nodes: seq<SkipNode>, p: nat, x: SkipNode, a: nat, l: nat)
    requires 1 <= p <= |nodes| && Relinked(nodes, p, x, x.level + 1)
    requires a < p && l <= nodes[a].level
    ensures nodes[a].forward[l] == NodeAt(InsertAt(nodes, p, x), Next(Towers(InsertAt(nodes, p, x)), a + 1, l))
  {
    hide Next, LastBefore, Towers;
    TowersInsert(nodes, p, x);
    NextInsert(Towers(nodes), p, x.level + 1, a + 1, l);
    LastBeforeMeans(nodes, p, a, l);
  }

  lemma RelinkedAt(nodes: seq<SkipNode>, p: nat, x: SkipNode, l: nat)
    requires 1 <= p <= |nodes| && Relinked(nodes, p, x, x.level + 1) && l <= x.level
    ensures x.forward[l] == NodeAt(InsertAt(nodes, p, x), Next(Towers(InsertAt(nodes, p, x)), p + 1, l))
  {
    hide Next, LastBefore, Towers;
    TowersInsert(nodes, p, x);
    NextInsertBehind(Towers(nodes), p, x.level + 1, p, l);
  }

  lemma RelinkedBehind(nodes: seq<SkipNode>, p: nat, x: SkipNode, a: nat, l: nat)
    requires 1 <= p <= |nodes| && Relinked(nodes, p, x, x.level + 1)
    requires p <= a < |nodes| && l <= nodes[a].level
    ensures nodes[a].forward[l] == NodeAt(InsertAt(nodes, p, x), Next(Towers(InsertAt(nodes, p, x)), a + 2, l))
  {
    hide Next, LastBefore, Towers;
    TowersInsert(nodes, p, x);
    NextInsertBehind(Towers(nodes), p, x.level + 1, a + 1, l);
    NotLastBehind(nodes, p, a, l);
  }

  lemma TowersInsert(nodes: seq<SkipNode>, p: nat, x: SkipNode)
    requires p <= |nodes|
    ensures Towers(InsertAt(nodes, p, x)) == InsertAt(Towers(nodes), p, x.level + 1)
  {
  }

  lemma LastBeforeMeans(nodes: seq<SkipNode>, p: nat, a: nat, l: nat)
    requires a < p <= |nodes| && l <= nodes[a].level
    ensures LastBefore(nodes, p, a, l) <==> Next(Towers(nodes), a + 1, l) >= p
  {
  }

  lemma NotLastBehind(nodes: seq<SkipNode>, p: nat, a: nat, l: nat)
    requires p <= a
    ensures !LastBefore(nodes, p, a, l)
  {
  }

  lemma InsertRepresents(nodes: seq<SkipNode>, contents: map<Bytes, LogRecordPos>, p: nat, x: SkipNode)
    requires 1 <= p <= |nodes| && Represents(nodes, contents) && x.key !in contents
    ensures Represents(InsertAt(nodes, p, x), contents[x.key := x.pos])
  {
    var nodes' := InsertAt(nodes, p, x);
    var contents' := contents[x.key := x.pos];
    forall k <- contents'
      ensures exists i | 1 <= i < |nodes'| :: nodes'[i].key == k
    {
      if k == x.key {
        assert nodes'[p].key == k;
      } else {
        var i :| 1 <= i < |nodes| && nodes[i].key == k;
        assert nodes'[if i < p then i else i + 1].key == k;
      }
    }
  }

  lemma InsertLevel(nodes: seq<SkipNode>, p: nat, x: SkipNode, level: nat)
    requires 1 <= p <= |nodes| && SkipList.LevelOk(nodes, level) && x.level <= MAX_LEVEL
    ensures SkipList.LevelOk(InsertAt(nodes, p, x), if x.level > level then x.level else level)
  {
    var nodes' := InsertAt(nodes, p, x);
    if x.level > level {
      assert nodes'[p].level == x.level;
    } else if level > 0 {
      var i :| 1 <= i < |nodes| && nodes[i].level == level;
      assert nodes'[if i < p then i else i + 1].level == level;
    }
  }

  // ----- removing

  /** The chain while the node at `p` is being taken out, finished on the levels below `upTo`. */
  ghost predicate Unlinking(nodes: seq<SkipNode>, p: nat, upTo: nat)
    requires 1 <= p < |nodes|
    reads nodes`forward
  {
    && (forall a | 0 <= a < |nodes| :: |nodes[a].forward| == nodes[a].level + 1)
    && (forall a, l | 0 <= a < |nodes| && 0 <= l <= nodes[a].level ::
          nodes[a].forward[l] == if l < upTo && l <= nodes[p].level && LastBefore(nodes, p, a, l)
                                 then NodeAt(nodes, Next(Towers(nodes), p + 1, l))
                                 else NodeAt(nodes, Next(Towers(nodes), a + 1, l)))
  }

  lemma LinkedIsUnlinking(nodes: seq<SkipNode>, p: nat)
    requires 1 <= p < |nodes| && Linked(nodes)
    ensures Unlinking(nodes, p, 0)
  {
  }

  /** On level `l` the last node before `p` points at the node at `p` exactly if its tower is high
      enough. */
  lemma LinkedToNode(nodes: seq<SkipNode>, p: nat, u: nat, l: nat)
    requires Shape(nodes) && 1 <= p < |nodes| && Unlinking(nodes, p, l) && LastBefore(nodes, p, u, l)
    ensures l < |nodes[u].forward|
    ensures nodes[u].forward[l] == nodes[p] <==> l <= nodes[p].level
  {
    var n := Next(Towers(nodes), u + 1, l);
    if l <= nodes[p].level {
      NextIs(Towers(nodes), u + 1, l, p);
    } else if n < |nodes| {
      assert l < Towers(nodes)[n];
    }
  }

  lemma UnlinkingIsLinked(nodes: seq<SkipNode>, p: nat)
    requires Shape(nodes) && 1 <= p < |nodes| && Unlinking(nodes, p, nodes[p].level + 1)
    ensures Linked(DeleteAt(nodes, p))
  {
    hide Next, LastBefore, Towers, Shape, Unlinking, NodeAt;
    var nodes' := DeleteAt(nodes, p);
    UnlinkingSizes(nodes, p);
    forall i: nat, l: nat | i < |nodes'| && l <= nodes'[i].level
      ensures nodes'[i].forward[l] == NodeAt(nodes', Next(Towers(nodes'), i + 1, l))
    {
      if i < p {
        UnlinkedBefore(nodes, p, i, l);
      } else {
        UnlinkedBehind(nodes, p, i + 1, l);
      }
    }
  }

  lemma UnlinkingSizes(nodes: seq<SkipNode>, p: nat)
    requires 1 <= p < |nodes| && Unlinking(nodes, p, nodes[p].level + 1)
    ensures forall a | 0 <= a < |nodes| :: |nodes[a].forward| == nodes[a].level + 1
  {
  }

  lemma UnlinkedBefore(nodes: seq<SkipNode>, p: nat, a: nat, l: nat)
    requires 1 <= p < |nodes| && Unlinking(nodes, p, nodes[p].level + 1)
    requires a < p && l <= nodes[a].level
    ensures nodes[a].forward[l] == NodeAt(DeleteAt(nodes, p), Next(Towers(DeleteAt(nodes, p)), a + 1, l))
  {
    hide Next, LastBefore, Towers;
    TowersDelete(nodes, p);
    NextDelete(Towers(nodes), p, a + 1, l);
    LastBeforeMeans(nodes, p, a, l);
    TowerStops(nodes, p, a + 1, l);
  }

  lemma UnlinkedBehind(nodes: seq<SkipNode>, p: nat, a: nat, l: nat)
    requires 1 <= p < |nodes| && Unlinking(nodes, p, nodes[p].level + 1)
    requires p < a < |nodes| && l <= nodes[a].level
    ensures nodes[a].forward[l] == NodeAt(DeleteAt(nodes, p), Next(Towers(DeleteAt(nodes, p)), a, l))
  {
    hide Next, LastBefore, Towers;
    TowersDelete(nodes, p);
    NextDeleteBehind(Towers(nodes), p, a + 1, l);
    NotLastBehind(nodes, p, a, l);
  }

  lemma TowersDelete(nodes: seq<SkipNode>, p: nat)
    requires p < |nodes|
    ensures Towers(DeleteAt(nodes, p)) == DeleteAt(Towers(nodes), p)
  {
  }

  lemma TowerStops(nodes: seq<SkipNode>, p: nat, i: nat, l: nat)
    requires i <= p < |nodes|
    ensures Next(Towers(nodes), i, l) >= p ==> (Next(Towers(nodes), i, l) == p <==> l <= nodes[p].level)
  {
    var n := Next(Towers(nodes), i, l);
    if n > p {
      assert Towers(nodes)[p] <= l;
    }
  }

  lemma DeleteKeepsShape(nodes: seq<SkipNode>, p: nat)
    requires Shape(nodes) && 1 <= p < |nodes|
    ensures Shape(DeleteAt(nodes, p)) && DeleteAt(nodes, p)[0] == nodes[0]
  {
  }

  lemma DeleteRepresents(nodes: seq<SkipNode>, contents: map<Bytes, LogRecordPos>, p: nat)
    requires Shape(nodes) && 1 <= p < |nodes| && Represents(nodes, contents)
    ensures Represents(DeleteAt(nodes, p), contents - {nodes[p].key})
  {
    var nodes', contents' := DeleteAt(nodes, p), contents - {nodes[p].key};
    forall k <- contents'
      ensures exists i | 1 <= i < |nodes'| :: nodes'[i].key == k
    {
      var i :| 1 <= i < |nodes| && nodes[i].key == k;
      assert nodes'[if i < p then i else i - 1].key == k;
    }
    forall i | 1 <= i < |nodes'|
      ensures nodes'[i].key != nodes[p].key
    {
      if i < p {
        LessAsymmetric(nodes[i].key, nodes[p].key);
      } else {
        LessAsymmetric(nodes[p].key, nodes[i + 1].key);
      }
    }
  }

  lemma DeleteLevels(nodes: seq<SkipNode>, p: nat, level: nat)
    requires 1 <= p < |nodes| && SkipList.LevelOk(nodes, level)
    ensures nodes[p].level <= level <= MAX_LEVEL
    ensures forall i | 1 <= i < |DeleteAt(nodes, p)| :: DeleteAt(nodes, p)[i].level <= level
  {
  }

  lemma HeaderLink(nodes: seq<SkipNode>, l: nat)
    requires Shape(nodes) && Linked(nodes) && l <= MAX_LEVEL
    ensures nodes[0].forward[l] == null ==> forall i | 1 <= i < |nodes| :: nodes[i].level < l
    ensures nodes[0].forward[l] != null ==> exists i | 1 <= i < |nodes| :: nodes[i].level >= l
  {
    var n := Next(Towers(nodes), 1, l);
    if n == |nodes| {
      forall i | 1 <= i < |nodes|
        ensures nodes[i].level < l
      {
        assert Towers(nodes)[i] <= l;
      }
    } else {
      assert Towers(nodes)[n] > l;
    }
  }

  // ----- walking the bottom level

  lemma BottomNext(nodes: seq<SkipNode>, j: nat)
    requires Shape(nodes) && Linked(nodes) && j < |nodes|
    ensures |nodes[j].forward| > 0 && nodes[j].forward[0] == NodeAt(nodes, j + 1)
  {
    NextIs(Towers(nodes), j + 1, 0, j + 1);
  }

  lemma KeysAreContents(nodes: seq<SkipNode>, contents: map<Bytes, LogRecordPos>, keys: seq<Bytes>)
    requires Shape(nodes) && Represents(nodes, contents)
    requires |keys| == |nodes| - 1 && forall i | 0 <= i < |keys| :: keys[i] == nodes[i + 1].key
    ensures Sorted(keys) && forall k :: k in keys <==> k in contents
  {
    hide Less;
    forall k <- contents
      ensures k in keys
    {
      var i :| 1 <= i < |nodes| && nodes[i].key == k;
      assert keys[i - 1] == k;
    }
  }

  lemma {:induction false} CountContents(nodes: seq<SkipNode>, contents: map<Bytes, LogRecordPos>)
    requires Shape(nodes) && Represents(nodes, contents)
    ensures |contents| == |nodes| - 1
    decreases |nodes|
  {
    hide Less;
    var n := |nodes| - 1;
    if n > 0 {
      DeleteRepresents(nodes, contents, n);
      assert DeleteAt(nodes, n) == nodes[..n];
      CountContents(nodes[..n], contents - {nodes[n].key});
      assert contents.Keys == (contents - {nodes[n].key}).Keys + {nodes[n].key};
      assert |contents| == |contents.Keys|;
      assert |contents - {nodes[n].key}| == |(contents - {nodes[n].key}).Keys|;
    } else {
      assert contents == map[];
    }
  }

  lemma NodeInContents(nodes: seq<SkipNode>, contents: map<Bytes, LogRecordPos>, p: nat)
    requires Represents(nodes, contents) && 1 <= p < |nodes|
    ensures nodes[p].key in contents && contents[nodes[p].key] == nodes[p].pos
  {
  }

  // ----- searching

  /** The node at the lower bound holds the key if any node does. */
  lemma FoundIff(nodes: seq<SkipNode>, contents: map<Bytes, LogRecordPos>, key: Bytes, p: nat)
    requires Shape(nodes) && Represents(nodes, contents) && LowerBound(nodes, key, p)
    ensures key in contents <==> p < |nodes| && nodes[p].key == key
  {
    if key in contents {
      var i :| 1 <= i < |nodes| && nodes[i].key == key;
      LessIrreflexive(key);
      assert p <= i;
    }
  }

  /** The node at the lower bound splits the keys as the sought key does. */
  lemma SeekMeans(nodes: seq<SkipNode>, contents: map<Bytes, LogRecordPos>, key: Bytes, p: nat)
    requires Shape(nodes) && Represents(nodes, contents) && LowerBound(nodes, key, p)
    ensures p == |nodes| ==> forall k <- contents :: Less(k, key)
    ensures p < |nodes| ==> nodes[p].key in contents && forall k <- contents :: Less(k, key) <==> Less(k, nodes[p].key)
  {
    hide Less;
    forall k <- contents
      ensures p == |nodes| ==> Less(k, key)
      ensures p < |nodes| ==> (Less(k, key) <==> Less(k, nodes[p].key))
    {
      var i :| 1 <= i < |nodes| && nodes[i].key == k;
      if p < |nodes| {
        LessIrreflexive(k);
        if i > p {
          LessAsymmetric(nodes[p].key, k);
        }
      }
    }
  }

  lemma LowerBoundPositive(nodes: seq<SkipNode>, key: Bytes, p: nat)
    requires LowerBound(nodes, key, p)
    ensures 1 <= p <= |nodes|
  {
  }

  lemma BottomLink(nodes: seq<SkipNode>, p: nat, c: nat)
    requires Shape(nodes) && Linked(nodes) && LastBefore(nodes, p, c, 0)
    ensures |nodes[c].forward| > 0 && nodes[c].forward[0] == NodeAt(nodes, p)
  {
    NextIs(Towers(nodes), c + 1, 0, p);
  }

  lemma FindLowerBound(nodes: seq<SkipNode>, key: Bytes) returns (p: nat)
    requires Shape(nodes)
    ensures LowerBound(nodes, key, p)
  {
    p := 1;
    while p < |nodes| && Less(nodes[p].key, key)
      invariant 1 <= p <= |nodes|
      invariant forall i | 1 <= i < p :: Less(nodes[i].key, key)
    {
      p := p + 1;
    }
    forall i | p <= i < |nodes|
      ensures !Less(nodes[i].key, key)
    {
      if p < i && Less(nodes[i].key, key) {
        LessTransitive(nodes[p].key, nodes[i].key, key);
      }
    }
  }

  // ----- the levels

  /** The nodes from the `i`-th on that have a pointer at level `l`. */
  function LevelNodes(nodes: seq<SkipNode>, i: nat, l: nat): (s: seq<SkipNode>)
    ensures forall n <- s :: l <= n.level
    decreases |nodes| - i
  {
    if i >= |nodes| then []
    else if l <= nodes[i].level then [nodes[i]] + LevelNodes(nodes, i + 1, l)
    else LevelNodes(nodes, i + 1, l)
  }

  /** Following the pointers of level `l` from `node` visits exactly `visited`. */
  ghost predicate Visits(node: SkipNode, l: nat, visited: seq<SkipNode>)
    requires l <= node.level && forall n <- visited :: l <= n.level
    reads node, visited
  {
    && |node.forward| == node.level + 1
    && if visited == [] then node.forward[l] == null
       else node.forward[l] == visited[0] && Visits(visited[0], l, visited[1..])
  }

  predicate IsSublist<T(==)>(a: seq<T>, b: seq<T>) {
    a == [] || (b != [] && (if a[0] == b[0] then IsSublist(a[1..], b[1..]) else IsSublist(a, b[1..])))
  }

  lemma {:induction false} LevelFromNext(nodes: seq<SkipNode>, i: nat, l: nat)
    requires i <= |nodes|
    ensures LevelNodes(nodes, i, l) == LevelNodes(nodes, Next(Towers(nodes), i, l), l)
    decreases |nodes| - i
  {
    if i < |nodes| && nodes[i].level < l {
      LevelFromNext(nodes, i + 1, l);
    }
  }

  lemma {:induction false} LevelIsVisited(nodes: seq<SkipNode>, i: nat, l: nat)
    requires Linked(nodes) && i < |nodes| && l <= nodes[i].level
    ensures Visits(nodes[i], l, LevelNodes(nodes, i + 1, l))
    decreases |nodes| - i
  {
    var n := Next(Towers(nodes), i + 1, l);
    LevelFromNext(nodes, i + 1, l);
    assert nodes[i].forward[l] == NodeAt(nodes, n);
    if n < |nodes| {
      LevelIsVisited(nodes, n, l);
      assert LevelNodes(nodes, n, l)[1..] == LevelNodes(nodes, n + 1, l);
    }
  }

  lemma {:induction false} LevelIsSorted(nodes: seq<SkipNode>, i: nat, l: nat)
    requires Shape(nodes) && 1 <= i
    ensures forall j, k | 0 <= j < k < |LevelNodes(nodes, i, l)| ::
              Less(LevelNodes(nodes, i, l)[j].key, LevelNodes(nodes, i, l)[k].key)
    ensures forall n <- LevelNodes(nodes, i, l) :: exists j | i <= j < |nodes| :: nodes[j] == n
    decreases |nodes| - i
  {
    hide Less;
    if i < |nodes| {
      LevelIsSorted(nodes, i + 1, l);
      var rest := LevelNodes(nodes, i + 1, l);
      forall k | 0 <= k < |rest| ensures Less(nodes[i].key, rest[k].key) {
        assert rest[k] in rest;
      }
      var all := LevelNodes(nodes, i, l);
      forall j, k | 0 <= j < k < |all| ensures Less(all[j].key, all[k].key) {
        assert l <= nodes[i].level ==> all == [nodes[i]] + rest;
      }
    }
  }

  lemma {:induction false} HigherIsSublist(nodes: seq<SkipNode>, i: nat, l: nat)
    requires Shape(nodes)
    ensures IsSublist(LevelNodes(nodes, i, l + 1), LevelNodes(nodes, i, l))
    decreases |nodes| - i
  {
    hide Less;
    if i < |nodes| {
      HigherIsSublist(nodes, i + 1, l);
      if nodes[i].level == l {
        FirstIsLater(nodes, i + 1, l + 1);
        assert LevelNodes(nodes, i, l)[1..] == LevelNodes(nodes, i + 1, l);
      } else if l < nodes[i].level {
        assert LevelNodes(nodes, i, l)[1..] == LevelNodes(nodes, i + 1, l);
        assert LevelNodes(nodes, i, l + 1)[1..] == LevelNodes(nodes, i + 1, l + 1);
      }
    }
  }

  lemma {:induction false} FirstIsLater(nodes: seq<SkipNode>, i: nat, l: nat)
    ensures LevelNodes(nodes, i, l) == [] || exists j | i <= j < |nodes| :: nodes[j] == LevelNodes(nodes, i, l)[0]
    decreases |nodes| - i
  {
    if i < |nodes| && nodes[i].level < l {
      FirstIsLater(nodes, i + 1, l);
    }
  }

  lemma {:induction false} BottomIsAll(nodes: seq<SkipNode>, i: nat)
    requires i <= |nodes|
    ensures LevelNodes(nodes, i, 0) == nodes[i..]
    decreases |nodes| - i
  {
    if i < |nodes| {
      BottomIsAll(nodes, i + 1);
    }
  }

  /** In a valid list the pointers of every level lead from the header through strictly increasing
      keys to the end; level zero has all nodes, and each level is a sublist of the one below. */
  lemma LevelsAreSublists(list: SkipList, l: nat)
    requires list.Valid() && l <= MAX_LEVEL
    ensures var visited := LevelNodes(list.nodes, 1, l);
            && Visits(list.header, l, visited)
            && (forall j, k | 0 <= j < k < |visited| :: Less(visited[j].key, visited[k].key))
            && (l == 0 ==> visited == list.nodes[1..])
            && (l > 0 ==> IsSublist(visited, LevelNodes(list.nodes, 1, l - 1)))
  {
    hide Less, Linked;
    LevelIsVisited(list.nodes, 0, l);
    LevelIsSorted(list.nodes, 1, l);
    BottomIsAll(list.nodes, 1);
    if l > 0 {
      HigherIsSublist(list.nodes, 1, l - 1);
    }
  }
}
