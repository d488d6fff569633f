/** An index over the radix tree, for keys of one prefix-free universe. */
module ArtIndexes {
  import opened Options
  import opened ByteStrings
  import opened LogRecords
  import opened ArtNodes
  import ArtTree

  class ArtIndex {
    var root: ArtNode?
    ghost const universe: iset<Bytes>
    /** The map the tree stands for. */
    ghost var contents: map<Bytes, LogRecordPos>

    ghost function Repr(): set<object>
      reads this, root
    {
      if root == null then {} else root.repr
    }

    ghost function Tree(): ArtTree.Root
      reads this, root
    {
      if root == null then None else Some(root.tree)
    }

    ghost predicate Valid()
      reads this, root, Repr()
    {
      && (root != null ==> root.Valid())
      && this !in Repr()
      && ArtTree.PrefixFree(universe)
      && ArtTree.RootOk(Tree(), universe)
      && forall key: Bytes :: ArtTree.Lookup(Tree(), key) == ArtTree.MapLookup(contents, key)
    }

    constructor (ghost universe: iset<Bytes>)
      requires ArtTree.PrefixFree(universe)
      ensures Valid() && contents == map[] && this.universe == universe && Repr() == {}
    {
      root, this.universe, contents := null, universe, map[];
    }

    method Put(key: Bytes, pos: LogRecordPos) returns (oldPos: Option<LogRecordPos>)
      requires Valid() && key in universe && |key| <= MAX_KEY
      modifies this, Repr()
      ensures Valid() && fresh(Repr() - old(Repr()))
      ensures contents == old(contents)[key := pos]
      ensures oldPos == ArtTree.MapLookup(old(contents), key)
    {
      hide ArtNode.Valid, ArtTree.RootOk, ArtTree.PrefixFree, ArtTree.Search, ArtTree.Insert;
      ArtTree.StepAgrees(Tree(), contents, ArtTree.PutOp(key, pos), universe);
      assert ArtTree.Lookup(Tree(), key) == ArtTree.MapLookup(contents, key);
      var newRoot;
      newRoot, oldPos := Insert(root, key, pos, 0);
      root := newRoot;
      contents := contents[key := pos];
    }

    method Get(key: Bytes) returns (pos: Option<LogRecordPos>)
      requires Valid()
      ensures pos == ArtTree.MapLookup(contents, key)
    {
      hide ArtNode.Valid, ArtTree.RootOk, ArtTree.PrefixFree, ArtTree.Search;
      assert ArtTree.Lookup(Tree(), key) == ArtTree.MapLookup(contents, key);
      var leaf := Search(root, key);
      return if leaf == null then None else Some(leaf.value);
    }

    method Remove(key: Bytes) returns (oldPos: Option<LogRecordPos>, found: bool)
      requires Valid()
      modifies this, Repr()
      ensures Valid() && fresh(Repr() - old(Repr()))
      ensures contents == old(contents) - {key}
      ensures oldPos == ArtTree.MapLookup(old(contents), key)
      ensures found <==> key in old(contents)
    {
      hide ArtNode.Valid, ArtTree.RootOk, ArtTree.PrefixFree, ArtTree.Search, ArtTree.Delete;
      ArtTree.StepAgrees(Tree(), contents, ArtTree.RemoveOp(key), universe);
      assert ArtTree.Lookup(Tree(), key) == ArtTree.MapLookup(contents, key);
      var newRoot;
      newRoot, oldPos, found := Delete(root, key, 0);
      root := newRoot;
      contents := contents - {key};
    }
  }
}
