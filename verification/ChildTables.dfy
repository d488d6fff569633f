/** The four layouts in which a node of the radix tree keeps its children. Each stands for one map
    from bytes to children. */
module ChildTables {
  import opened Options
  import opened Sequences
  import opened ByteStrings

  datatype Kind = Node4 | Node16 | Node48 | Node256

  function Capacity(kind: Kind): nat {
    match kind
    case Node4 => 4
    case Node16 => 16
    case Node48 => 48
    case Node256 => 256
  }

  function Bigger(kind: Kind): Kind
    requires kind != Node256
  {
    match kind
    case Node4 => Node16
    case Node16 => Node48
    case _ => Node256
  }

  // ----- slots: the bytes in the order of the places of their children

  ghost predicate Distinct(slots: seq<byte>) {
    forall i, j | 0 <= i < j < |slots| :: slots[i] != slots[j]
  }

  ghost predicate Increasing(slots: seq<byte>) {
    forall i, j | 0 <= i < j < |slots| :: slots[i] < slots[j]
  }

  /** The slots list the bytes of a map, each once. */
  ghost predicate Lists<T>(slots: seq<byte>, kids: map<byte, T>) {
    && Distinct(slots)
    && |slots| == |kids|
    && forall b :: b in slots <==> b in kids
  }

  ghost function Places<T>(slots: seq<byte>, kids: map<byte, T>): (places: seq<Option<T>>)
    requires forall b <- slots :: b in kids
    ensures |places| == |slots|
  {
    seq(|slots|, i requires 0 <= i < |slots| => Some(kids[slots[i]]))
  }

  /** The place of a byte plus one, or zero. */
  ghost function PlaceOf(slots: seq<byte>, b: byte): (place: nat)
    ensures place <= |slots|
    ensures place > 0 ==> slots[place - 1] == b
    ensures place == 0 <==> b !in slots
  {
    if slots == [] then 0
    else if slots[|slots| - 1] == b then |slots|
    else PlaceOf(slots[..|slots| - 1], b)
  }

  lemma IsInsertAt<X>(s: seq<X>, pos: nat, x: X, t: seq<X>)
    requires pos <= |s| && |t| == |s| + 1 && t[pos] == x
    requires forall j | 0 <= j < pos :: t[j] == s[j]
    requires forall j | pos < j <= |s| :: t[j] == s[j - 1]
    ensures t == InsertAt(s, pos, x)
  {
  }

  lemma IsDeleteAt<X>(s: seq<X>, pos: nat, t: seq<X>)
    requires pos < |s| && |t| == |s| - 1
    requires forall j | 0 <= j < pos :: t[j] == s[j]
    requires forall j | pos <= j < |t| :: t[j] == s[j + 1]
    ensures t == DeleteAt(s, pos)
  {
  }

  lemma InsertDistinct(slots: seq<byte>, pos: nat, key: byte)
    requires Distinct(slots) && pos <= |slots| && key !in slots
    ensures Distinct(InsertAt(slots, pos, key))
    ensures forall b :: b in InsertAt(slots, pos, key) <==> b == key || b in slots
  {
    assert forall i | 0 <= i < |slots| :: slots[i] in slots;
    assert slots == slots[..pos] + slots[pos..];
  }

  lemma DeleteDistinct(slots: seq<byte>, pos: nat)
    requires Distinct(slots) && pos < |slots|
    ensures Distinct(DeleteAt(slots, pos))
    ensures forall b :: b in DeleteAt(slots, pos) <==> b != slots[pos] && b in slots
  {
    assert slots == slots[..pos] + [slots[pos]] + slots[pos + 1..];
  }

  lemma OneMore<T>(kids: map<byte, T>, key: byte, child: T)
    requires key !in kids
    ensures |kids[key := child]| == |kids| + 1
  {
    assert kids[key := child].Keys == kids.Keys + {key};
    assert |kids[key := child]| == |kids[key := child].Keys|;
  }

  lemma OneLess<T>(kids: map<byte, T>, key: byte)
    requires key in kids
    ensures |kids - {key}| == |kids| - 1
  {
    assert kids.Keys == (kids - {key}).Keys + {key};
    assert |kids - {key}| == |(kids - {key}).Keys|;
  }

  lemma InsertSlot<T>(slots: seq<byte>, kids: map<byte, T>, pos: nat, key: byte, child: T)
    requires Lists(slots, kids) && pos <= |slots| && key !in kids
    ensures Lists(InsertAt(slots, pos, key), kids[key := child])
    ensures Places(InsertAt(slots, pos, key), kids[key := child]) == InsertAt(Places(slots, kids), pos, Some(child))
  {
    hide Distinct;
    InsertDistinct(slots, pos, key);
    OneMore(kids, key, child);
    assert forall i | 0 <= i < |slots| :: slots[i] in slots;
    IsInsertAt(Places(slots, kids), pos, Some(child), Places(InsertAt(slots, pos, key), kids[key := child]));
  }

  lemma DeleteListed<T>(slots: seq<byte>, kids: map<byte, T>, pos: nat)
    requires Lists(slots, kids) && pos < |slots|
    ensures Lists(DeleteAt(slots, pos), kids - {slots[pos]})
  {
    hide Distinct, DeleteAt;
    DeleteDistinct(slots, pos);
    DeleteAtLength(slots, pos);
    OneLess(kids, slots[pos]);
  }

  lemma DeleteSlot<T>(slots: seq<byte>, kids: map<byte, T>, pos: nat)
    requires Lists(slots, kids) && pos < |slots|
    ensures Lists(DeleteAt(slots, pos), kids - {slots[pos]})
    ensures Places(DeleteAt(slots, pos), kids - {slots[pos]}) == DeleteAt(Places(slots, kids), pos)
  {
    hide Distinct;
    DeleteListed(slots, kids, pos);
    var slots', kids' := DeleteAt(slots, pos), kids - {slots[pos]};
    forall j | 0 <= j < |slots'|
      ensures Places(slots', kids')[j] == Places(slots, kids)[if j < pos then j else j + 1]
    {
      assert slots'[j] in slots';
    }
    IsDeleteAt(Places(slots, kids), pos, Places(slots', kids'));
  }

  lemma DeleteIncreasing(slots: seq<byte>, pos: nat)
    requires Increasing(slots) && pos < |slots|
    ensures Increasing(DeleteAt(slots, pos))
  {
  }

  lemma InsertIncreasing(slots: seq<byte>, pos: nat, key: byte)
    requires Increasing(slots) && pos <= |slots|
    requires forall i | 0 <= i < pos :: slots[i] < key
    requires pos < |slots| ==> key < slots[pos]
    ensures Increasing(InsertAt(slots, pos, key))
  {
  }

  lemma {:induction false} DeletePlace(slots: seq<byte>, pos: nat, b: byte)
    requires Distinct(slots) && pos < |slots|
    ensures PlaceOf(DeleteAt(slots, pos), b) ==
            if b == slots[pos] then 0 else if PlaceOf(slots, b) > pos + 1 then PlaceOf(slots, b) - 1 else PlaceOf(slots, b)
  {
    hide PlaceOf;
    var n, rest := |slots| - 1, DeleteAt(slots, pos);
    PlaceOfLast(slots, b);
    if pos < n {
      DeletePlace(slots[..n], pos, b);
      assert rest[..n - 1] == DeleteAt(slots[..n], pos);
      PlaceOfLast(rest, b);
    } else {
      assert rest == slots[..n];
    }
  }

  lemma PlaceOfLast(slots: seq<byte>, b: byte)
    requires slots != []
    ensures var n := |slots| - 1; PlaceOf(slots, b) == if b == slots[n] then n + 1 else PlaceOf(slots[..n], b)
  {
  }

  lemma DeletePlaces(slots: seq<byte>, pos: nat)
    requires Distinct(slots) && pos < |slots|
    ensures forall b: byte ::
      PlaceOf(DeleteAt(slots, pos), b)
      == (if b == slots[pos] then 0 else if PlaceOf(slots, b) > pos + 1 then PlaceOf(slots, b) - 1 else PlaceOf(slots, b))
  {
    hide PlaceOf, Distinct;
    forall b: byte
      ensures PlaceOf(DeleteAt(slots, pos), b)
           == (if b == slots[pos] then 0 else if PlaceOf(slots, b) > pos + 1 then PlaceOf(slots, b) - 1 else PlaceOf(slots, b))
    {
      DeletePlace(slots, pos, b);
    }
  }

  lemma PlaceOfNext(slots: seq<byte>, i: nat)
    requires i < |slots|
    ensures forall b: byte :: PlaceOf(slots[..i + 1], b) == (if b == slots[i] then i + 1 else PlaceOf(slots[..i], b))
  {
    hide PlaceOf;
    var upTo := slots[..i + 1];
    assert upTo[..i] == slots[..i];
    forall b: byte
      ensures PlaceOf(upTo, b) == if b == slots[i] then i + 1 else PlaceOf(slots[..i], b)
    {
      PlaceOfLast(upTo, b);
    }
  }

  lemma InsertAtLength<X>(s: seq<X>, pos: nat, x: X)
    requires pos <= |s|
    ensures |InsertAt(s, pos, x)| == |s| + 1
  {
  }

  lemma DeleteAtLength<X>(s: seq<X>, pos: nat)
    requires pos < |s|
    ensures |DeleteAt(s, pos)| == |s| - 1
  {
  }

  lemma PlacesInRange(slots: seq<byte>)
    ensures forall b: byte :: PlaceOf(slots, b) <= |slots|
    ensures forall b: byte | PlaceOf(slots, b) > 0 :: slots[PlaceOf(slots, b) - 1] == b
    ensures forall b: byte :: PlaceOf(slots, b) == 0 <==> b !in slots
  {
  }

  /** In a list of distinct bytes the nonzero places are a bijection onto 1 .. |slots|. */
  lemma {:induction false} PlacesAreBijection(slots: seq<byte>, j: nat)
    requires Distinct(slots) && j < |slots|
    ensures PlaceOf(slots, slots[j]) == j + 1
  {
    if j < |slots| - 1 {
      PlacesAreBijection(slots[..|slots| - 1], j);
    }
  }

  class ChildTable<T> {
    const kind: Kind
    /** Wraps around when a node of 256 children is full, as its one byte does. */
    var numChildren: nat
    /** The bytes of the children, in order: 4 and 16. */
    const keys: array<byte>
    /** For every byte its place plus one, or zero: 48. */
    const keyIndices: array<byte>
    const children: array<Option<T>>
    /** The map the table stands for. */
    ghost var kids: map<byte, T>
    /** The bytes in the order of their places: 4, 16 and 48. */
    ghost var slots: seq<byte>

    ghost predicate Valid()
      reads this, keys, keyIndices, children
    {
      && children.Length == Capacity(kind)
      && keys.Length == (if kind == Node4 || kind == Node16 then Capacity(kind) else 0)
      && keyIndices.Length == (if kind == Node48 then 256 else 0)
      && (kind != Node256 ==> Slotted())
      && (kind == Node4 || kind == Node16 ==> SortedKeys())
      && (kind == Node48 ==> Indexed())
      && (kind == Node256 ==> Direct())
    }

    /** The first places hold the children of the slots. */
    ghost predicate Slotted()
      reads this, children
    {
      && numChildren == |slots| <= children.Length
      && Lists(slots, kids)
      && children[..|slots|] == Places(slots, kids)
    }

    ghost predicate SortedKeys()
      reads this, keys
    {
      && |slots| <= keys.Length
      && keys[..|slots|] == slots
      && Increasing(slots)
    }

    ghost predicate Indexed()
      reads this, keyIndices, children
    {
      && keyIndices.Length == 256
      && (forall b: byte :: keyIndices[b] == PlaceOf(slots, b))
      && (forall i | |slots| <= i < children.Length :: children[i] == None)
    }

    ghost predicate Direct()
      reads this, children
    {
      && children.Length == 256
      && numChildren == |kids| % 256
      && forall b: byte :: children[b] == if b in kids then Some(kids[b]) else None
    }

    constructor (kind: Kind)
      ensures Valid() && this.kind == kind && kids == map[]
      ensures fresh(keys) && fresh(keyIndices) && fresh(children)
    {
      this.kind, numChildren := kind, 0;
      keys := new byte[if kind == Node4 || kind == Node16 then Capacity(kind) else 0](i => 0);
      keyIndices := new byte[if kind == Node48 then 256 else 0](i => 0);
      children := new Option<T>[Capacity(kind)](i => None);
      kids, slots := map[], [];
    }

    method IsFull() returns (full: bool)
      requires Valid()
      ensures full <==> kind != Node256 && |kids| == Capacity(kind)
      ensures kind != Node256 ==> |kids| <= Capacity(kind)
    {
      match kind {
        case Node256 => full := false;
        case _ => full := numChildren == Capacity(kind);
      }
    }

    method FindChild(key: byte) returns (child: Option<T>)
      requires Valid()
      ensures child == if key in kids then Some(kids[key]) else None
    {
      match kind {
        case Node48 =>
          var index := keyIndices[key];
          if index != 0 {
            assert children[..|slots|][index - 1] == children[index - 1];
            return children[index - 1];
          }
          return None;
        case Node256 =>
          return children[key];
        case _ =>
          child := FindSorted(key);
      }
    }

    method FindSorted(key: byte) returns (child: Option<T>)
      requires Valid() && (kind == Node4 || kind == Node16)
      ensures child == if key in kids then Some(kids[key]) else None
    {
      for i := 0 to numChildren
        invariant key !in slots[..i]
      {
        assert keys[i] == keys[..|slots|][i] && children[i] == children[..|slots|][i];
        if keys[i] == key {
          return children[i];
        }
      }
      return None;
    }

    /** A full table drops the child. Only the layout of 256 can take another child for a byte that
        has one; the callers never ask the others to. */
    method AddChild(key: byte, child: T)
      requires Valid() && (key in kids ==> kind == Node256 || |kids| == Capacity(kind))
      modifies this, keys, keyIndices, children
      ensures Valid()
      ensures kids == if kind != Node256 && |old(kids)| == Capacity(kind) then old(kids) else old(kids)[key := child]
    {
      match kind {
        case Node48 =>
          if numChildren < 48 {
            AddIndexed(key, child);
          }
        case Node256 =>
          AddDirect(key, child);
        case _ =>
          if numChildren < Capacity(kind) {
            AddSorted(key, child);
          }
      }
    }

    method AddDirect(key: byte, child: T)
      requires Valid() && kind == Node256
      modifies this, children
      ensures Valid() && kids == old(kids)[key := child]
    {
      hide Slotted, SortedKeys, Indexed;
      if children[key] == None {
        OneMore(kids, key, child);
        numChildren := (numChildren + 1) % 256;
      }
      assert key in kids ==> kids[key := child].Keys == kids.Keys;
      assert key in kids ==> |kids[key := child]| == |kids[key := child].Keys| == |kids.Keys| == |kids|;
      children[key] := Some(child);
      kids := kids[key := child];
    }

    method AddIndexed(key: byte, child: T)
      requires Valid() && key !in kids && kind == Node48 && numChildren < 48
      modifies this, keyIndices, children
      ensures Valid() && kids == old(kids)[key := child]
    {
      hide Lists, Places;
      InsertSlot(slots, kids, |slots|, key, child);
      ghost var before := slots;
      ghost var places := children[..|slots|];
      keyIndices[key] := numChildren + 1;
      children[numChildren] := Some(child);
      numChildren := numChildren + 1;
      kids := kids[key := child];
      slots := slots + [key];
      assert slots == InsertAt(before, |before|, key) && slots[..|before|] == before;
      assert children[..|slots|] == InsertAt(places, |before|, Some(child));
    }

    /** Finds the place of the byte, moves what is behind it up, and puts the child there. */
    method AddSorted(key: byte, child: T)
      requires Valid() && key !in kids && (kind == Node4 || kind == Node16) && numChildren < Capacity(kind)
      modifies this, keys, children
      ensures Valid() && kids == old(kids)[key := child]
    {
      hide Places, Lists, InsertAt, Increasing, Distinct;
      var pos := FindPosition(key);
      InsertIncreasing(slots, pos, key);
      assert |InsertAt(slots, pos, key)| == |slots| + 1 by { InsertAtLength(slots, pos, key); }
      InsertSlot(slots, kids, pos, key, child);
      ShiftUp(pos, key, child);
      numChildren := numChildren + 1;
      kids := kids[key := child];
      slots := InsertAt(slots, pos, key);
    }

    /** The first place with a bigger byte, or the end. */
    method FindPosition(key: byte) returns (pos: nat)
      requires Valid() && (kind == Node4 || kind == Node16) && key !in kids
      ensures pos <= |slots|
      ensures forall i | 0 <= i < pos :: slots[i] < key
      ensures pos < |slots| ==> key < slots[pos]
    {
      pos := numChildren;
      for i := 0 to numChildren
        invariant pos == numChildren
        invariant forall j | 0 <= j < i :: slots[j] < key
      {
        assert keys[i] == keys[..|slots|][i] && slots[i] in slots;
        if keys[i] > key {
          pos := i;
          break;
        }
      }
    }

    /** Moves keys and children from `pos` on one place up and fills the gap. */
    method ShiftUp(pos: nat, key: byte, child: T)
      requires pos <= numChildren < children.Length == keys.Length
      modifies keys, children
      ensures keys[..numChildren + 1] == InsertAt(old(keys[..numChildren]), pos, key)
      ensures children[..numChildren + 1] == InsertAt(old(children[..numChildren]), pos, Some(child))
    {
      hide InsertAt;
      var i := numChildren;
      while i > pos
        invariant pos <= i <= numChildren
        invariant forall j | 0 <= j <= i && j < numChildren :: keys[j] == old(keys[j]) && children[j] == old(children[j])
        invariant forall j | i < j <= numChildren :: keys[j] == old(keys[j - 1]) && children[j] == old(children[j - 1])
      {
        keys[i] := keys[i - 1];
        children[i] := children[i - 1];
        i := i - 1;
      }
      keys[pos] := key;
      children[pos] := Some(child);
      ghost var (keys0, children0) := (old(keys[..numChildren]), old(children[..numChildren]));
      ghost var (keys1, children1) := (keys[..numChildren + 1], children[..numChildren + 1]);
      IsInsertAt(keys0, pos, key, keys1);
      IsInsertAt(children0, pos, Some(child), children1);
    }

    method RemoveChild(key: byte)
      requires Valid()
      modifies this, keys, keyIndices, children
      ensures Valid() && kids == old(kids) - {key}
    {
      match kind {
        case Node48 =>
          RemoveIndexed(key);
        case Node256 =>
          RemoveDirect(key);
        case _ =>
          RemoveSorted(key);
      }
    }

    method RemoveDirect(key: byte)
      requires Valid() && kind == Node256
      modifies this, children
      ensures Valid() && kids == old(kids) - {key}
    {
      hide Slotted, SortedKeys, Indexed;
      if children[key] != None {
        children[key] := None;
        numChildren := (numChildren + 255) % 256;
        OneLess(kids, key);
      } else {
        assert kids - {key} == kids;
      }
      kids := kids - {key};
    }

    method RemoveSorted(key: byte)
      requires Valid() && (kind == Node4 || kind == Node16)
      modifies this, keys, children
      ensures Valid() && kids == old(kids) - {key}
    {
      hide Places, Lists;
      KeyInKids();
      for i := 0 to numChildren
        invariant key !in slots[..i]
      {
        assert keys[i] == keys[..|slots|][i];
        if keys[i] == key {
          RemoveSlot(i);
          return;
        }
      }
      assert slots[..numChildren] == slots;
      assert kids - {key} == kids;
    }

    method RemoveSlot(i: nat)
      requires Valid() && (kind == Node4 || kind == Node16) && i < numChildren
      modifies this, keys, children
      ensures Valid() && kids == old(kids) - {old(keys[i])}
    {
      hide Places, Lists, DeleteAt, Increasing, Distinct;
      var key := keys[i];
      assert key == keys[..|slots|][i];
      DeleteSlot(slots, kids, i);
      DeleteAtLength(slots, i);
      DeleteIncreasing(slots, i);
      ShiftDown(i);
      numChildren := numChildren - 1;
      kids := kids - {key};
      slots := DeleteAt(slots, i);
    }

    /** Moves keys and children behind `pos` one place down. */
    method ShiftDown(pos: nat)
      requires pos < numChildren <= children.Length == keys.Length
      modifies keys, children
      ensures keys[..numChildren - 1] == DeleteAt(old(keys[..numChildren]), pos)
      ensures children[..numChildren - 1] == DeleteAt(old(children[..numChildren]), pos)
    {
      var j := pos;
      while j < numChildren - 1
        invariant pos <= j <= numChildren - 1
        invariant forall i | 0 <= i < pos :: keys[i] == old(keys[i]) && children[i] == old(children[i])
        invariant forall i | pos <= i < j :: keys[i] == old(keys[i + 1]) && children[i] == old(children[i + 1])
        invariant forall i | j <= i < numChildren :: keys[i] == old(keys[i]) && children[i] == old(children[i])
      {
        keys[j] := keys[j + 1];
        children[j] := children[j + 1];
        j := j + 1;
      }
      IsDeleteAt(old(keys[..numChildren]), pos, keys[..numChildren - 1]);
      IsDeleteAt(old(children[..numChildren]), pos, children[..numChildren - 1]);
    }

    /** Moves the children behind the removed one down and their indices with them. */
    method RemoveIndexed(key: byte)
      requires Valid() && kind == Node48
      modifies this, keyIndices, children
      ensures Valid() && kids == old(kids) - {key}
    {
      hide Lists, Places, Distinct, PlaceOf, DeleteAt;
      PlacesInRange(slots);
      var index := keyIndices[key];
      if index == 0 {
        KeyInKids();
        assert kids - {key} == kids;
        return;
      }
      ghost var before := slots;
      var realIndex := index - 1;
      DeleteSlot(slots, kids, realIndex);
      DistinctSlots();
      DeleteAtLength(slots, realIndex);
      keyIndices[key] := 0;
      CompactChildren(realIndex);
      numChildren := numChildren - 1;
      LowerIndices(index);
      kids := kids - {key};
      slots := DeleteAt(before, realIndex);
      DeletePlaces(before, realIndex);
    }

    lemma KeyInKids()
      requires Valid() && kind != Node256
      ensures forall b :: b in slots <==> b in kids
    {
    }

    lemma DistinctSlots()
      requires Valid() && kind != Node256
      ensures Distinct(slots)
    {
    }

    method CompactChildren(pos: nat)
      requires pos < numChildren <= children.Length
      modifies children
      ensures children[..numChildren - 1] == DeleteAt(old(children[..numChildren]), pos)
      ensures children[numChildren - 1] == None
      ensures forall j | numChildren <= j < children.Length :: children[j] == old(children[j])
    {
      hide DeleteAt;
      var i := pos;
      while i < numChildren - 1
        invariant pos <= i <= numChildren - 1
        invariant forall j | 0 <= j < pos :: children[j] == old(children[j])
        invariant forall j | pos <= j < i :: children[j] == old(children[j + 1])
        invariant forall j | i <= j < children.Length :: children[j] == old(children[j])
      {
        children[i] := children[i + 1];
        i := i + 1;
      }
      children[numChildren - 1] := None;
      IsDeleteAt(old(children[..numChildren]), pos, children[..numChildren - 1]);
    }

    method LowerIndices(index: nat)
      requires keyIndices.Length == 256
      modifies keyIndices
      ensures forall b: byte :: keyIndices[b] == if old(keyIndices[b]) > index then old(keyIndices[b]) - 1 else old(keyIndices[b])
    {
      for i := 0 to 256
        invariant forall b | 0 <= b < i ::
          keyIndices[b] == if old(keyIndices[b]) > index then old(keyIndices[b]) - 1 else old(keyIndices[b])
        invariant forall b | i <= b < 256 :: keyIndices[b] == old(keyIndices[b])
      {
        if keyIndices[i] > index {
          keyIndices[i] := keyIndices[i] - 1;
        }
      }
    }

    /** The same children in the next bigger layout. */
    method Grow() returns (bigger: ChildTable<T>)
      requires Valid() && kind != Node256
      ensures fresh(bigger) && fresh(bigger.keys) && fresh(bigger.keyIndices) && fresh(bigger.children)
      ensures bigger.Valid() && bigger.kind == Bigger(kind) && bigger.kids == kids
    {
      hide Slotted, SortedKeys, Indexed, Direct;
      bigger := new ChildTable(Bigger(kind));
      match kind {
        case Node4 => CopySorted(bigger);
        case Node16 => CopyToIndexed(bigger);
        case Node48 => CopyToDirect(bigger);
      }
    }

    method CopySorted(bigger: ChildTable<T>)
      requires Valid() && kind == Node4 && bigger.Valid() && bigger.kind == Node16
      requires bigger != this && bigger.keys != keys && bigger.children != children
      modifies bigger, bigger.keys, bigger.children
      ensures bigger.Valid() && bigger.kids == kids
    {
      hide Lists, Places;
      for i := 0 to numChildren
        invariant bigger.keys[..i] == keys[..i] && bigger.children[..i] == children[..i]
      {
        bigger.keys[i] := keys[i];
        bigger.children[i] := children[i];
      }
      bigger.numChildren := numChildren;
      bigger.kids, bigger.slots := kids, slots;
    }

    method CopyToIndexed(bigger: ChildTable<T>)
      requires Valid() && kind == Node16 && bigger.Valid() && bigger.kind == Node48 && bigger.kids == map[]
      requires bigger != this && bigger.keyIndices != keys && bigger.children != children
      modifies bigger, bigger.keyIndices, bigger.children
      ensures bigger.Valid() && bigger.kids == kids
    {
      assert bigger.slots == [];
      hide Places, Lists, Increasing, PlaceOf;
      PlacesInRange([]);
      for i := 0 to numChildren
        invariant bigger.children[..i] == children[..i]
        invariant forall j | i <= j < 48 :: bigger.children[j] == None
        invariant forall b: byte :: bigger.keyIndices[b] == PlaceOf(slots[..i], b)
      {
        assert keys[i] == keys[..|slots|][i];
        PlaceOfNext(slots, i);
        bigger.keyIndices[keys[i]] := i + 1;
        bigger.children[i] := children[i];
      }
      assert slots[..numChildren] == slots;
      bigger.numChildren := numChildren;
      bigger.kids, bigger.slots := kids, slots;
    }

    method CopyToDirect(bigger: ChildTable<T>)
      requires Valid() && kind == Node48 && bigger.Valid() && bigger.kind == Node256 && bigger.kids == map[]
      requires bigger != this && bigger.children != children
      modifies bigger, bigger.children
      ensures bigger.Valid() && bigger.kids == kids
    {
      for i := 0 to 256
        invariant forall b: byte | b < i :: bigger.children[b] == if b in kids then Some(kids[b]) else None
        invariant forall b: byte | i <= b :: bigger.children[b] == None
      {
        if keyIndices[i] != 0 {
          assert children[keyIndices[i] - 1] == children[..|slots|][keyIndices[i] - 1];
          bigger.children[i] := children[keyIndices[i] - 1];
        }
      }
      bigger.numChildren := numChildren;
      bigger.kids := kids;
    }
  }
}
