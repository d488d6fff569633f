/** Iterators: a sorted snapshot of the index with a cursor, the database iterator that filters it
    by a prefix, and the two loops that use them. */
module Iterators {
  import opened ByteStrings
  import opened LogRecords
  import opened KeyOrder
  import opened Recovery
  import opened Engine
  import opened DB

  datatype Item = Item(key: Bytes, pos: LogRecordPos)

  datatype IteratorOptions = IteratorOptions(prefix: Bytes, reverse: bool)

  datatype KeyResult = Key(key: Bytes) | NoKey

  datatype ValueResult = Value(value: GetResult) | NoValue

  datatype Visit = Visit(key: Bytes, value: GetResult)

  // ----- listings of an index

  predicate Precedes(reverse: bool, a: Bytes, b: Bytes) {
    if reverse then Less(b, a) else Less(a, b)
  }

  ghost predicate Ordered(items: seq<Item>, reverse: bool) {
    forall i, j | 0 <= i < j < |items| :: Precedes(reverse, items[i].key, items[j].key)
  }

  ghost predicate Listed(key: Bytes, items: seq<Item>) {
    exists i | 0 <= i < |items| :: items[i].key == key
  }

  /** `items` holds exactly the entries of `tree`, in order. */
  ghost predicate Lists(items: seq<Item>, tree: Index, reverse: bool) {
    && Ordered(items, reverse)
    && (forall i | 0 <= i < |items| :: items[i].key in tree && items[i].pos == tree[items[i].key])
    && (forall key :: key in tree <==> Listed(key, items))
  }

  /** Where a seek stops: the first key not before `key` in the direction of the iteration. */
  predicate Reached(reverse: bool, key: Bytes, current: Bytes) {
    key == current || Precedes(reverse, key, current)
  }

  ghost predicate SeekStop(items: seq<Item>, reverse: bool, key: Bytes, i: nat) {
    && i <= |items|
    && (forall j | 0 <= j < i :: !Reached(reverse, key, items[j].key))
    && (i < |items| ==> Reached(reverse, key, items[i].key))
  }

  // ----- the block of keys with a prefix

  /** Behind the place a forward seek for the prefix finds, the keys with the prefix come first:
      after one without it there is no other. */
  lemma PrefixBlock(items: seq<Item>, prefix: Bytes, start: nat, i: nat, j: nat)
    requires Ordered(items, false)
    requires SeekStop(items, false, prefix, start)
    requires start <= i < j < |items|
    requires prefix <= items[j].key
    ensures prefix <= items[i].key
  {
    assert Precedes(false, items[i].key, items[j].key);
    if start < i {
      assert Precedes(false, items[start].key, items[i].key);
      if prefix != items[start].key {
        LessTransitive(prefix, items[start].key, items[i].key);
      }
    }
    PrefixConvex(prefix, items[i].key, items[j].key);
  }

  /** Before that place none has it. */
  lemma NoPrefixBefore(items: seq<Item>, prefix: Bytes, start: nat, j: nat)
    requires SeekStop(items, false, prefix, start)
    requires j < start
    ensures !(prefix <= items[j].key)
  {
    assert !Reached(false, prefix, items[j].key);
    if prefix <= items[j].key {
      PrefixAtMost(prefix, items[j].key);
    }
  }

  /** Backwards the seek goes past every longer key with the prefix. */
  lemma NoLongerKeyBackwards(items: seq<Item>, prefix: Bytes, start: nat, j: nat)
    requires Ordered(items, true)
    requires SeekStop(items, true, prefix, start)
    requires start <= j < |items|
    requires prefix <= items[j].key
    ensures items[j].key == prefix && j == start
  {
    hide Less;
    var first, found := items[start].key, items[j].key;
    PrefixAtMost(prefix, found);
    assert AtMost(first, prefix);
    if found != prefix || start < j {
      if start < j {
        assert Precedes(true, first, found);
        if first != prefix {
          LessTransitive(found, first, prefix);
        }
      }
      LessAsymmetric(found, prefix);
    }
  }

  ghost predicate InRun(items: seq<Item>, start: nat, end: nat, key: Bytes)
    requires end <= |items|
  {
    exists i | start <= i < end :: items[i].key == key
  }

  ghost predicate AllPrefixed(items: seq<Item>, prefix: Bytes, start: nat, end: nat)
    requires end <= |items|
  {
    forall i | start <= i < end :: prefix <= items[i].key
  }

  /** A maximal run of keys with the prefix from where the rewind stops: the places the loop visits. */
  ghost predicate IsRun(items: seq<Item>, reverse: bool, prefix: Bytes, start: nat, end: nat) {
    && start <= end <= |items|
    && (if prefix == [] then start == 0 else SeekStop(items, reverse, prefix, start))
    && AllPrefixed(items, prefix, start, end)
    && (end < |items| ==> !(prefix <= items[end].key))
  }

  lemma ForwardRun(items: seq<Item>, tree: Index, reverse: bool, prefix: Bytes, start: nat, end: nat, key: Bytes)
    requires Lists(items, tree, reverse) && IsRun(items, reverse, prefix, start, end)
    requires !reverse || prefix == []
    ensures InRun(items, start, end, key) <==> key in tree && prefix <= key
  {
    if key in tree && prefix <= key {
      var j :| 0 <= j < |items| && items[j].key == key;
      if prefix != [] {
        if j < start {
          NoPrefixBefore(items, prefix, start, j);
        }
        if end < j {
          PrefixBlock(items, prefix, start, end, j);
        }
      }
      assert start <= j < end;
    }
  }

  lemma BackwardRun(items: seq<Item>, tree: Index, prefix: Bytes, start: nat, end: nat, key: Bytes)
    requires Lists(items, tree, true) && IsRun(items, true, prefix, start, end) && prefix != []
    ensures InRun(items, start, end, key) <==> key in tree && key == prefix
  {
    if InRun(items, start, end, key) {
      var i :| start <= i < end && items[i].key == key;
      NoLongerKeyBackwards(items, prefix, start, i);
    }
    if prefix in tree {
      var j :| 0 <= j < |items| && items[j].key == prefix;
      assert Reached(true, prefix, items[j].key);
      assert start <= j;
      NoLongerKeyBackwards(items, prefix, start, j);
    }
  }

  // ----- the snapshot of a sorted map

  predicate Least(key: Bytes, keys: set<Bytes>) {
    key in keys && forall other | other in keys :: AtMost(key, other)
  }

  lemma LeastKey(keys: set<Bytes>)
    requires keys != {}
    ensures exists key :: Least(key, keys)
    decreases |keys|
  {
    hide Less;
    var some :| some in keys;
    var rest := keys - {some};
    if rest == {} {
      assert forall other | other in keys :: other !in rest ==> other == some;
      assert Least(some, keys);
    } else {
      LeastKey(rest);
      var least :| Least(least, rest);
      LessTotal(some, least);
      if Less(some, least) {
        forall other | other in keys ensures AtMost(some, other) {
          if other in rest && other != least {
            LessTransitive(some, least, other);
          }
        }
        assert Least(some, keys);
      } else {
        assert forall other | other in keys :: other != some ==> other in rest;
        assert Least(least, keys);
      }
    }
  }

  ghost predicate Before(items: seq<Item>, keys: set<Bytes>) {
    forall i, key | 0 <= i < |items| && key in keys :: Less(items[i].key, key)
  }

  /** The entries of the map in key order, as a sorted map hands them out. */
  method InOrder(tree: Index) returns (items: seq<Item>)
    ensures Lists(items, tree, false)
  {
    items := [];
    var rest := tree.Keys;
    while rest != {}
      invariant rest <= tree.Keys
      invariant Ordered(items, false) && Before(items, rest)
      invariant forall i | 0 <= i < |items| :: items[i].key in tree && items[i].pos == tree[items[i].key]
      invariant forall key | key in tree :: key in rest || Listed(key, items)
    {
      LeastKey(rest);
      var key :| Least(key, rest);
      var longer := items + [Item(key, tree[key])];
      forall other | other in tree && other !in rest - {key} ensures Listed(other, longer) {
        if other == key {
          assert longer[|items|].key == key;
        } else {
          var i :| 0 <= i < |items| && items[i].key == other;
          assert longer[i].key == other;
        }
      }
      items, rest := longer, rest - {key};
    }
  }

  lemma ReversedLists(items: seq<Item>, backwards: seq<Item>, tree: Index)
    requires Lists(items, tree, false)
    requires |backwards| == |items|
    requires forall i | 0 <= i < |items| :: backwards[i] == items[|items| - 1 - i]
    ensures Lists(backwards, tree, true)
  {
    var n := |items|;
    hide Less;
    forall i, j | 0 <= i < j < n ensures Precedes(true, backwards[i].key, backwards[j].key) {
      assert Precedes(false, items[n - 1 - j].key, items[n - 1 - i].key);
    }
    forall key | key in tree ensures Listed(key, backwards) {
      assert Listed(key, items);
      var i :| 0 <= i < n && items[i].key == key;
      assert backwards[n - 1 - i].key == key;
    }
  }

  class BTreeIterator {
    var items: seq<Item>
    var currentIndex: nat
    const reverse: bool

    constructor (tree: Index, reverse: bool)
      ensures this.reverse == reverse && currentIndex == 0
      ensures Lists(items, tree, reverse)
    {
      var ordered := InOrder(tree);
      var n := |ordered|;
      var backwards := seq(n, i requires 0 <= i < n => ordered[n - 1 - i]);
      ReversedLists(ordered, backwards, tree);
      this.items := if reverse then backwards else ordered;
      this.currentIndex := 0;
      this.reverse := reverse;
    }

    method Rewind()
      modifies this`currentIndex
      ensures currentIndex == 0
    {
      currentIndex := 0;
    }

    method Seek(key: Bytes)
      modifies this`currentIndex
      ensures SeekStop(items, reverse, key, currentIndex)
    {
      for i := 0 to |items|
        invariant forall j | 0 <= j < i :: !Reached(reverse, key, items[j].key)
      {
        var order := CompareKeys(items[i].key, key);
        if (reverse && order <= 0) || (!reverse && order >= 0) {
          currentIndex := i;
          return;
        }
      }
      currentIndex := |items|;
    }

    method Next()
      modifies this`currentIndex
      ensures currentIndex == if old(currentIndex) < |items| then old(currentIndex) + 1 else old(currentIndex)
    {
      if currentIndex < |items| {
        currentIndex := currentIndex + 1;
      }
    }

    predicate Valid()
      reads this
    {
      currentIndex < |items|
    }
  }

  // ----- the database iterator

  class DBIterator {
    const db: Database
    const options: IteratorOptions
    var indexIter: BTreeIterator?

    ghost predicate Over(tree: Index)
      reads this, indexIter
    {
      indexIter != null && indexIter.reverse == options.reverse && Lists(indexIter.items, tree, options.reverse)
    }

    constructor (db: Database, options: IteratorOptions)
      ensures this.db == db && this.options == options
      ensures fresh(indexIter) && Over(db.index)
    {
      this.db := db;
      this.options := options;
      indexIter := new BTreeIterator(db.index, options.reverse);
    }

    method Rewind()
      modifies indexIter
      ensures indexIter != null ==> indexIter.items == old(indexIter.items)
      ensures indexIter != null && options.prefix == [] ==> indexIter.currentIndex == 0
      ensures indexIter != null && options.prefix != []
          ==> SeekStop(indexIter.items, indexIter.reverse, options.prefix, indexIter.currentIndex)
    {
      if indexIter == null {
        return;
      }
      indexIter.Rewind();
      if options.prefix != [] {
        indexIter.Seek(options.prefix);
      }
    }

    method Seek(key: Bytes)
      modifies indexIter
      ensures indexIter != null ==> indexIter.items == old(indexIter.items)
      ensures indexIter != null ==> SeekStop(indexIter.items, indexIter.reverse, key, indexIter.currentIndex)
    {
      if indexIter != null {
        indexIter.Seek(key);
      }
    }

    method Next()
      modifies indexIter
      ensures indexIter != null ==> indexIter.items == old(indexIter.items)
      ensures indexIter != null && old(indexIter.Valid()) ==> indexIter.currentIndex == old(indexIter.currentIndex) + 1
      ensures indexIter != null && !old(indexIter.Valid()) ==> indexIter.currentIndex == old(indexIter.currentIndex)
    {
      if indexIter != null {
        indexIter.Next();
      }
    }

    /** Stands on a key, and the key starts with the prefix. */
    method Valid() returns (ok: bool)
      ensures ok <==> indexIter != null && indexIter.Valid() && options.prefix <= indexIter.items[indexIter.currentIndex].key
    {
      if indexIter == null || !indexIter.Valid() {
        return false;
      }
      var prefix := options.prefix;
      if prefix != [] {
        var key := indexIter.items[indexIter.currentIndex].key;
        if |key| < |prefix| {
          return false;
        }
        for i := 0 to |prefix|
          invariant key[..i] == prefix[..i]
        {
          if key[i] != prefix[i] {
            return false;
          }
        }
        assert prefix[..|prefix|] == prefix;
      }
      return true;
    }

    method Key() returns (r: KeyResult)
      ensures r.Key? <==> indexIter != null && indexIter.Valid() && options.prefix <= indexIter.items[indexIter.currentIndex].key
      ensures r.Key? ==> r.key == indexIter.items[indexIter.currentIndex].key
    {
      var ok := Valid();
      return if ok then KeyResult.Key(indexIter.items[indexIter.currentIndex].key) else NoKey;
    }

    method Value() returns (r: ValueResult)
      ensures r.Value? <==> indexIter != null && indexIter.Valid() && options.prefix <= indexIter.items[indexIter.currentIndex].key
      ensures r.Value? ==> r.value == ReadAt(db.config, db.file.content, indexIter.items[indexIter.currentIndex].pos)
    {
      var ok := Valid();
      if !ok {
        return NoValue;
      }
      var value := db.GetValueByPosition(indexIter.items[indexIter.currentIndex].pos);
      return ValueResult.Value(value);
    }

    method Close()
      modifies this, indexIter
      ensures indexIter == null
    {
      if indexIter != null {
        indexIter.items, indexIter.currentIndex := [], 0;
        indexIter := null;
      }
    }

    /** The loop every user of an iterator writes. Forward, it visits exactly the live keys with the
        prefix, in strictly increasing order, each with the value `Get` returns. Backward with a
        prefix it visits the prefix itself if that is a live key, and nothing else. */
    method VisitAll() returns (visited: seq<Visit>)
      requires Over(db.index)
      modifies indexIter
      ensures Over(db.index)
      ensures VisitsInOrder(visited, options.reverse)
      ensures forall key :: IsVisited(key, visited) <==> key in db.index && Asked(options, key)
      ensures forall i | 0 <= i < |visited| && visited[i].key != [] ::
                visited[i].value == Get(db.config, db.State(), visited[i].key)
    {
      hide ReadAt, Get, Lists, IsVisited, Over, SeekStop, AllPrefixed, VisitsInOrder, Visits, Asked;
      visited := [];
      OverLists(db.index);
      Rewind();
      ghost var items, start := indexIter.items, indexIter.currentIndex;
      RunStarts(db.config, db.file.content, items, options.reverse, options.prefix, start);
      var more := Valid();
      while more
        invariant indexIter == old(indexIter) && indexIter.items == items
        invariant start <= indexIter.currentIndex <= |items|
        invariant more <==> indexIter.Valid() && options.prefix <= items[indexIter.currentIndex].key
        invariant AllPrefixed(items, options.prefix, start, indexIter.currentIndex)
        invariant visited == Visits(db.config, db.file.content, items[start..indexIter.currentIndex])
        decreases |items| - indexIter.currentIndex
      {
        var key := Key();
        var value := Value();
        RunGrows(db.config, db.file.content, items, options.prefix, start, indexIter.currentIndex);
        visited := visited + [Visit(key.key, value.value)];
        Next();
        more := Valid();
      }
      assert IsRun(items, options.reverse, options.prefix, start, indexIter.currentIndex);
      VisitsAreTheRun(db.config, db.State(), items, options, start, indexIter.currentIndex);
      OverLists(db.index);
    }

    lemma OverLists(tree: Index)
      ensures Over(tree) <==> indexIter != null && indexIter.reverse == options.reverse && Lists(indexIter.items, tree, options.reverse)
    {
    }
  }

  function Visits(c: Config, content: Bytes, items: seq<Item>): (visited: seq<Visit>)
    ensures |visited| == |items|
  {
    seq(|items|, i requires 0 <= i < |items| => Visit(items[i].key, ReadAt(c, content, items[i].pos)))
  }

  lemma RunStarts(c: Config, content: Bytes, items: seq<Item>, reverse: bool, prefix: Bytes, start: nat)
    requires if prefix == [] then start == 0 else SeekStop(items, reverse, prefix, start)
    ensures start <= |items| && AllPrefixed(items, prefix, start, start)
    ensures Visits(c, content, items[start..start]) == []
  {
  }

  lemma RunGrows(c: Config, content: Bytes, items: seq<Item>, prefix: Bytes, start: nat, end: nat)
    requires start <= end < |items| && AllPrefixed(items, prefix, start, end) && prefix <= items[end].key
    ensures AllPrefixed(items, prefix, start, end + 1)
    ensures Visits(c, content, items[start..end + 1])
         == Visits(c, content, items[start..end]) + [Visit(items[end].key, ReadAt(c, content, items[end].pos))]
  {
    hide ReadAt;
  }

  lemma VisitsAreTheRun(c: Config, s: Store, items: seq<Item>, options: IteratorOptions, start: nat, end: nat)
    requires Lists(items, s.indexed.index, options.reverse)
    requires IsRun(items, options.reverse, options.prefix, start, end)
    ensures VisitsInOrder(Visits(c, s.content, items[start..end]), options.reverse)
    ensures forall key :: IsVisited(key, Visits(c, s.content, items[start..end])) <==> key in s.indexed.index && Asked(options, key)
    ensures var visited := Visits(c, s.content, items[start..end]);
            forall i | 0 <= i < |visited| && visited[i].key != [] :: visited[i].value == Get(c, s, visited[i].key)
  {
    hide ReadAt, SeekStop, AllPrefixed, Less;
    var visited := Visits(c, s.content, items[start..end]);
    assert forall i | 0 <= i < end - start :: visited[i].key == items[start + i].key;
    forall key ensures IsVisited(key, visited) <==> key in s.indexed.index && Asked(options, key) {
      if InRun(items, start, end, key) {
        var i :| start <= i < end && items[i].key == key;
        assert visited[i - start].key == key;
      }
      if options.reverse && options.prefix != [] {
        BackwardRun(items, s.indexed.index, options.prefix, start, end, key);
      } else {
        ForwardRun(items, s.indexed.index, options.reverse, options.prefix, start, end, key);
      }
    }
  }

  /** The keys an iteration visits. Backward with a prefix only the prefix itself qualifies. */
  predicate Asked(options: IteratorOptions, key: Bytes) {
    if options.reverse && options.prefix != [] then key == options.prefix else options.prefix <= key
  }

  ghost predicate VisitsInOrder(visited: seq<Visit>, reverse: bool) {
    forall i, j | 0 <= i < j < |visited| :: Precedes(reverse, visited[i].key, visited[j].key)
  }

  ghost predicate IsVisited(key: Bytes, visited: seq<Visit>) {
    exists i | 0 <= i < |visited| :: visited[i].key == key
  }
}
