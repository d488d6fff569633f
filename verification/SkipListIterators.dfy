/** The forward iterator of the skip list: a cursor on the bottom level that skips keys without the
    prefix. */
module SkipListIterators {
  import opened ByteStrings
  import opened LogRecords
  import opened KeyOrder
  import opened SkipListIndex

  datatype Visit = Visit(key: Bytes, pos: LogRecordPos)

  function VisitOf(node: SkipNode): Visit
    reads node`pos
  {
    Visit(node.key, node.pos)
  }

  ghost predicate InKeyOrder(visited: seq<Visit>) {
    forall i, j | 0 <= i < j < |visited| :: Less(visited[i].key, visited[j].key)
  }

  /** The visited entries are in order, are entries of the map, and are those of exactly the keys that
      have the prefix and are not below `from`. No key is below the empty one. */
  ghost predicate VisitsExactly(visited: seq<Visit>, contents: map<Bytes, LogRecordPos>, from: Bytes, prefix: Bytes) {
    && InKeyOrder(visited)
    && (forall i | 0 <= i < |visited| :: visited[i].key in contents && visited[i].pos == contents[visited[i].key])
    && (forall key <- contents :: !Less(key, from) && prefix <= key <==> exists i | 0 <= i < |visited| :: visited[i].key == key)
  }

  class SkipListIterator {
    const list: SkipList
    const prefix: Bytes
    var current: SkipNode?
    /** The place of the current node among all nodes. */
    ghost var place: nat

    ghost predicate Valid()
      reads this, list, list.nodes
    {
      list.Valid() && 1 <= place <= |list.nodes| && current == NodeAt(list.nodes, place)
    }

    /** The cursor has come from place `from` to the next node with the prefix. */
    ghost predicate CameFrom(from: nat)
      reads this, list
    {
      && from <= place <= |list.nodes|
      && (place < |list.nodes| ==> prefix <= list.nodes[place].key)
      && forall i | from <= i < place :: !(prefix <= list.nodes[i].key)
    }

    constructor (list: SkipList, prefix: Bytes)
      requires list.Valid()
      ensures Valid() && this.list == list && this.prefix == prefix
      ensures CameFrom(1)
    {
      this.list, this.prefix := list, prefix;
      current, place := null, |list.nodes|;
      new;
      Rewind();
    }

    method Advance()
      requires Valid() && current != null
      modifies this`current, this`place
      ensures Valid() && place == old(place) + 1
    {
      hide SkipListIndex.Next, Towers, Represents, Less;
      BottomNext(list.nodes, place);
      current := current.forward[0];
      place := place + 1;
    }

    method SkipOthers()
      requires Valid()
      modifies this`current, this`place
      ensures Valid() && CameFrom(old(place))
    {
      hide SkipListIndex.Next, Towers, Represents, Less, Linked, Shape;
      while current != null && !(prefix <= current.key)
        invariant Valid() && old(place) <= place
        invariant forall i | old(place) <= i < place :: !(prefix <= list.nodes[i].key)
        decreases |list.nodes| - place
      {
        Advance();
      }
    }

    method Rewind()
      requires Valid()
      modifies this`current, this`place
      ensures Valid() && CameFrom(1)
    {
      hide SkipListIndex.Next, Towers, Represents, Less;
      BottomNext(list.nodes, 0);
      current, place := list.header.forward[0], 1;
      SkipOthers();
    }

    method Seek(key: Bytes)
      requires Valid()
      modifies this`current, this`place
      ensures Valid()
      ensures exists p :: LowerBound(list.nodes, key, p) && CameFrom(p)
    {
      hide SkipListIndex.Next, Towers, Represents, Less, Linked, LowerBound;
      ghost var p;
      current, p := list.Seek(key);
      LowerBoundPositive(list.nodes, key, p);
      place := p;
      SkipOthers();
    }

    method Next()
      requires Valid()
      modifies this`current, this`place
      ensures Valid()
      ensures if old(current) == null then place == old(place) else CameFrom(old(place) + 1)
    {
      hide SkipListIndex.Next, Towers, Represents, Less, Linked;
      if current != null {
        Advance();
        SkipOthers();
      }
    }

    /** The loop from where the cursor stands to the end. */
    method VisitRest(ghost from: nat) returns (visited: seq<Visit>)
      requires Valid() && 1 <= from && CameFrom(from)
      modifies this`current, this`place
      ensures Valid()
      ensures visited == Prefixed(list.nodes, from, prefix)
    {
      hide SkipListIndex.Next, Towers, Represents, Less, Linked, Shape;
      visited := [];
      SkippedAreOthers(list.nodes, from, place, prefix);
      while current != null
        invariant Valid() && (place < |list.nodes| ==> prefix <= list.nodes[place].key)
        invariant visited + Prefixed(list.nodes, place, prefix) == Prefixed(list.nodes, from, prefix)
        decreases |list.nodes| - place
      {
        visited := visited + [Visit(current.key, current.pos)];
        ghost var next := place + 1;
        Next();
        SkippedAreOthers(list.nodes, next, place, prefix);
      }
    }

    /** From the start the loop visits, in strict order, exactly the keys with the prefix. */
    method VisitAll() returns (visited: seq<Visit>)
      requires Valid()
      modifies this`current, this`place
      ensures Valid()
      ensures VisitsExactly(visited, list.contents, [], prefix)
    {
      hide SkipListIndex.Next, Towers, Represents, Less, Linked, Shape, VisitsExactly, LowerBound;
      EverythingBehind(list.nodes);
      Rewind();
      visited := VisitRest(1);
      PrefixedIsExact(list.nodes, list.contents, [], 1, prefix);
    }

    /** From a seek on it visits exactly those of them that are not below the key. */
    method VisitFrom(key: Bytes) returns (visited: seq<Visit>)
      requires Valid()
      modifies this`current, this`place
      ensures Valid()
      ensures VisitsExactly(visited, list.contents, key, prefix)
    {
      hide SkipListIndex.Next, Towers, Represents, Less, Linked, Shape, VisitsExactly, LowerBound;
      Seek(key);
      ghost var p: nat :| LowerBound(list.nodes, key, p) && CameFrom(p);
      LowerBoundPositive(list.nodes, key, p);
      visited := VisitRest(p);
      PrefixedIsExact(list.nodes, list.contents, key, p, prefix);
    }

    /** The loop of a database iterator with a prefix of its own, over an index iterator without one:
        it stops at the first key that lacks the prefix, and visits exactly the keys that have it. */
    method VisitPrefix(wanted: Bytes) returns (visited: seq<Visit>)
      requires Valid() && prefix == []
      modifies this`current, this`place
      ensures Valid()
      ensures VisitsExactly(visited, list.contents, [], wanted)
    {
      hide SkipListIndex.Next, Towers, Represents, Less, Linked, Shape, VisitsExactly, LowerBound;
      visited := [];
      Seek(wanted);
      ghost var p: nat :| LowerBound(list.nodes, wanted, p) && CameFrom(p);
      LowerBoundPositive(list.nodes, wanted, p);
      NoneSkipped(p);
      while current != null && wanted <= current.key
        invariant Valid() && p <= place
        invariant visited + Prefixed(list.nodes, place, wanted) == Prefixed(list.nodes, p, wanted)
        decreases |list.nodes| - place
      {
        visited := visited + [Visit(current.key, current.pos)];
        ghost var next := place + 1;
        Next();
        NoneSkipped(next);
      }
      BlockEnds(list.nodes, wanted, p, place);
      assert visited + [] == visited;
      PrefixedIsExact(list.nodes, list.contents, wanted, p, wanted);
      WithPrefixNotBelow(visited, list.contents, wanted);
    }

    lemma NoneSkipped(from: nat)
      requires prefix == [] && CameFrom(from)
      ensures place == from
    {
      if from < place {
        EmptyIsPrefix(list.nodes[from].key);
      }
    }
  }

  lemma EmptyIsPrefix(key: Bytes)
    ensures [] <= key
  {
  }

  /** The entries with the prefix from place `i` on. */
  ghost function Prefixed(nodes: seq<SkipNode>, i: nat, prefix: Bytes): (visited: seq<Visit>)
    reads nodes
    decreases |nodes| - i
  {
    if i >= |nodes| then []
    else if prefix <= nodes[i].key then [VisitOf(nodes[i])] + Prefixed(nodes, i + 1, prefix)
    else Prefixed(nodes, i + 1, prefix)
  }

  lemma {:induction false} SkippedAreOthers(nodes: seq<SkipNode>, from: nat, place: nat, prefix: Bytes)
    requires from <= place <= |nodes| && forall i | from <= i < place :: !(prefix <= nodes[i].key)
    ensures Prefixed(nodes, from, prefix) == Prefixed(nodes, place, prefix)
    decreases place - from
  {
    if from < place {
      SkippedAreOthers(nodes, from + 1, place, prefix);
    }
  }

  ghost predicate IsNode(nodes: seq<SkipNode>, i: nat, prefix: Bytes, visit: Visit)
    reads nodes
  {
    exists j | i <= j < |nodes| :: visit == VisitOf(nodes[j]) && prefix <= nodes[j].key
  }

  lemma {:induction false} PrefixedAreNodes(nodes: seq<SkipNode>, i: nat, prefix: Bytes)
    requires Shape(nodes) && 1 <= i
    ensures forall v <- Prefixed(nodes, i, prefix) :: IsNode(nodes, i, prefix, v)
    ensures forall j | i <= j < |nodes| && prefix <= nodes[j].key :: VisitOf(nodes[j]) in Prefixed(nodes, i, prefix)
    ensures InKeyOrder(Prefixed(nodes, i, prefix))
    decreases |nodes| - i
  {
    hide Less, InKeyOrder;
    if i >= |nodes| {
      assert InKeyOrder([]) by { NoneInOrder(); }
    } else {
      PrefixedAreNodes(nodes, i + 1, prefix);
      var rest, visited := Prefixed(nodes, i + 1, prefix), Prefixed(nodes, i, prefix);
      forall b | 0 <= b < |rest| ensures Less(nodes[i].key, rest[b].key) {
        assert rest[b] in rest && IsNode(nodes, i + 1, prefix, rest[b]);
      }
      if prefix <= nodes[i].key {
        assert visited == [VisitOf(nodes[i])] + rest;
        StaysSorted(VisitOf(nodes[i]), rest);
      }
    }
  }

  lemma NoneInOrder()
    ensures InKeyOrder([])
  {
  }

  lemma StaysSorted(first: Visit, rest: seq<Visit>)
    requires InKeyOrder(rest) && forall b | 0 <= b < |rest| :: Less(first.key, rest[b].key)
    ensures InKeyOrder([first] + rest)
  {
    hide Less;
  }

  lemma PrefixedIsExact(nodes: seq<SkipNode>, contents: map<Bytes, LogRecordPos>, key: Bytes, p: nat, prefix: Bytes)
    requires Shape(nodes) && Represents(nodes, contents) && LowerBound(nodes, key, p)
    ensures VisitsExactly(Prefixed(nodes, p, prefix), contents, key, prefix)
  {
    hide Less, Shape, Prefixed, InKeyOrder;
    var visited := Prefixed(nodes, p, prefix);
    PrefixedAreNodes(nodes, p, prefix);
    forall i | 0 <= i < |visited|
      ensures visited[i].key in contents && visited[i].pos == contents[visited[i].key]
      ensures !Less(visited[i].key, key) && prefix <= visited[i].key
    {
      assert visited[i] in visited && IsNode(nodes, p, prefix, visited[i]);
    }
    forall k <- contents | !Less(k, key) && prefix <= k
      ensures exists i | 0 <= i < |visited| :: visited[i].key == k
    {
      var j :| 1 <= j < |nodes| && nodes[j].key == k;
      assert VisitOf(nodes[j]) in visited;
      var i :| 0 <= i < |visited| && visited[i] == VisitOf(nodes[j]);
    }
  }

  lemma EverythingBehind(nodes: seq<SkipNode>)
    requires Shape(nodes)
    ensures LowerBound(nodes, [], 1)
  {
  }

  /** No key with the prefix is below the prefix. */
  lemma WithPrefixNotBelow(visited: seq<Visit>, contents: map<Bytes, LogRecordPos>, prefix: Bytes)
    requires VisitsExactly(visited, contents, prefix, prefix)
    ensures VisitsExactly(visited, contents, [], prefix)
  {
    forall k <- contents | prefix <= k
      ensures !Less(k, prefix)
    {
      PrefixAtMost(prefix, k);
      if Less(k, prefix) {
        LessAsymmetric(k, prefix);
      }
    }
  }

  /** Behind a node that is not below the prefix and lacks it, none has it. */
  lemma {:induction false} BlockEnds(nodes: seq<SkipNode>, prefix: Bytes, p: nat, end: nat)
    requires Shape(nodes) && LowerBound(nodes, prefix, p) && p <= end
    requires end < |nodes| ==> !(prefix <= nodes[end].key)
    ensures Prefixed(nodes, end, prefix) == []
  {
    hide Less;
    if end < |nodes| {
      LessTotal(prefix, nodes[end].key);
      forall i | end <= i < |nodes|
        ensures !(prefix <= nodes[i].key)
      {
        if end < i && prefix <= nodes[i].key {
          PrefixConvex(prefix, nodes[end].key, nodes[i].key);
        }
      }
      SkippedAreOthers(nodes, end, |nodes|, prefix);
    }
  }
}
