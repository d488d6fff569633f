/** The lists of the Redis layer behave as double-ended queues, independently of one another. */
module RedisDeques {
  import opened ByteStrings
  import opened RedisLists

  // ----- what the store says about a list

  function Slot(key: Bytes, m: Metadata, i: nat): Bytes {
    InternalKey(key, m.version, Plus(m.head, i))
  }

  function At(db: Store, k: Bytes): Bytes {
    if k in db then db[k] else []
  }

  function Elements(db: Store, key: Bytes, m: Metadata): (s: seq<Bytes>)
    ensures |s| == m.size
  {
    seq(m.size, i requires 0 <= i => At(db, Slot(key, m, i)))
  }

  /** Head and tail are `size` apart, and every index between them is stored. */
  ghost predicate WellPlaced(db: Store, key: Bytes, m: Metadata) {
    && m.dataType == LIST
    && (m.size > 0 ==> m.tail == Plus(m.head, m.size))
    && forall i | 0 <= i < m.size :: Slot(key, m, i) in db
  }

  ghost predicate HoldsList(db: Store, key: Bytes) {
    key in db ==>
      DecodeMetadata(db[key]).Decoded? && WellPlaced(db, key, DecodeMetadata(db[key]).metadata)
  }

  datatype ListValue = ListValue(expire: nat, elements: seq<Bytes>)

  const ABSENT := ListValue(0, [])

  function Value(db: Store, key: Bytes): ListValue {
    if key !in db then ABSENT
    else
      match DecodeMetadata(db[key])
      case BadSize => ABSENT
      case Decoded(m) => ListValue(m.expire, Elements(db, key, m))
  }

  // ----- double-ended queues

  function Current(v: ListValue, now: nat): ListValue {
    if IsExpired(v.expire, now) then ABSENT else v
  }

  /** The size is a 32-bit number: the push that would make it wrap empties the list. */
  function PushValue(v: ListValue, element: Bytes, atHead: bool): ListValue {
    var longer := if atHead then [element] + v.elements else v.elements + [element];
    v.(elements := if |longer| == UINT32_LIMIT then [] else longer)
  }

  function PopValue(v: ListValue, atHead: bool): ListValue {
    var n := |v.elements|;
    if n == 0 then v
    else if n == 1 then ABSENT
    else v.(elements := if atHead then v.elements[1..] else v.elements[..n - 1])
  }

  function PopReply(v: ListValue, atHead: bool): Reply {
    if v.elements == [] then KeyNotFound
    else Element(if atHead then v.elements[0] else v.elements[|v.elements| - 1])
  }

  // ----- changes that stay within one list

  predicate Owned(user: Bytes, k: Bytes) {
    k == user || LooksInternalTo(user, k)
  }

  ghost predicate OnlyOwnedChanged(db: Store, db': Store, user: Bytes) {
    forall k | !Owned(user, k) :: (k in db <==> k in db') && (k in db ==> db[k] == db'[k])
  }

  lemma SlotIsOwned(key: Bytes, version: nat, index: nat)
    ensures LooksInternalTo(key, InternalKey(key, version, index)) && InternalKey(key, version, index) != key
  {
  }

  lemma PrefixesAgree(a: Bytes, b: Bytes, k: Bytes)
    requires a <= k && b <= k && |a| == |b|
    ensures a == b
  {
    assert a == k[..|a|];
  }

  lemma OwnersDiffer(users: set<Bytes>, user: Bytes, other: Bytes, k: Bytes)
    requires Separate(users) && user in users && other in users && user != other
    requires Owned(other, k)
    ensures !Owned(user, k)
  {
    if LooksInternalTo(user, k) && LooksInternalTo(other, k) {
      PrefixesAgree(user, other, k);
    }
  }

  /** A change to one list leaves every other list as it was. */
  lemma OthersUntouched(db: Store, db': Store, users: set<Bytes>, user: Bytes, other: Bytes)
    requires Separate(users) && user in users && other in users && user != other
    requires HoldsList(db, other) && OnlyOwnedChanged(db, db', user)
    ensures HoldsList(db', other) && Value(db', other) == Value(db, other)
  {
    hide DecodeMetadata, InternalKey, Owned, Separate, Slot;
    OwnersDiffer(users, user, other, other) by { assert Owned(other, other) by { OwnsItself(other); } }
    if other in db {
      var m := DecodeMetadata(db[other]).metadata;
      forall i: nat ensures !Owned(user, Slot(other, m, i)) {
        SlotOwned(other, m, i);
        OwnersDiffer(users, user, other, Slot(other, m, i));
      }
      assert Elements(db', other, m) == Elements(db, other, m);
    }
  }

  lemma OwnsItself(user: Bytes)
    ensures Owned(user, user)
  {
  }

  lemma SlotOwned(key: Bytes, m: Metadata, i: nat)
    ensures Owned(key, Slot(key, m, i)) && Slot(key, m, i) != key
  {
    SlotIsOwned(key, m.version, Plus(m.head, i));
  }

  // ----- indices on the 64-bit circle

  lemma PlusLaws(h: uint64, i: nat)
    ensures Plus(MinusOne(h), i + 1) == Plus(h, i)
    ensures Plus(Plus(h, 1), i) == Plus(h, i + 1)
    ensures Plus(Plus(h, i), 1) == Plus(h, i + 1)
    ensures MinusOne(Plus(h, i + 1)) == Plus(h, i)
    ensures Plus(MinusOne(h), 0) == MinusOne(h) && Plus(h, 0) == h
  {
    hide Plus, MinusOne;
    PlusAgain(MinusOne(h), 1, i);
    PlusAgain(h, 1, i);
    PlusAgain(h, i, 1);
    OneBack(h);
    OneBack(Plus(h, i + 1));
    OneForward(Plus(h, i));
  }

  lemma PlusAgain(h: uint64, i: nat, j: nat)
    ensures Plus(Plus(h, i), j) == Plus(h, i + j)
  {
  }

  lemma OneBack(h: uint64)
    ensures Plus(MinusOne(h), 1) == h && Plus(MinusOne(h), 0) == MinusOne(h) && Plus(h, 0) == h
  {
  }

  lemma OneForward(h: uint64)
    ensures MinusOne(Plus(h, 1)) == h
  {
  }

  lemma PlusDistinct(h: uint64, i: nat, j: nat)
    requires i < j < i + UINT64_LIMIT
    ensures Plus(h, i) != Plus(h, j)
  {
  }

  lemma SlotsDistinct(key: Bytes, m: Metadata, i: nat, j: nat)
    requires i < j < i + UINT64_LIMIT
    ensures Slot(key, m, i) != Slot(key, m, j)
  {
    PlusDistinct(m.head, i, j);
    if Slot(key, m, i) == Slot(key, m, j) {
      InternalKeyInjective(key, m.version, Plus(m.head, i), key, m.version, Plus(m.head, j));
    }
  }

  // ----- pushing

  lemma PushedAtHead(db: Store, key: Bytes, w: Metadata, m': Metadata, element: Bytes, encoded: Bytes)
    requires WellPlaced(db, key, w) && w.tail == Plus(w.head, w.size)
    requires w.size + 1 < UINT32_LIMIT
    requires m' == w.(head := MinusOne(w.head), size := w.size + 1)
    ensures var db' := db[InternalKey(key, w.version, MinusOne(w.head)) := element][key := encoded];
            WellPlaced(db', key, m') && Elements(db', key, m') == [element] + Elements(db, key, w)
  {
    hide InternalKey, Plus, MinusOne;
    var slot := InternalKey(key, w.version, MinusOne(w.head));
    var db' := db[slot := element][key := encoded];
    PlusLaws(w.head, 0);
    SlotOwned(key, m', 0);
    assert Slot(key, m', 0) == slot;
    forall i | 0 < i < m'.size
      ensures Slot(key, m', i) in db' && At(db', Slot(key, m', i)) == At(db, Slot(key, w, i - 1))
    {
      PlusLaws(w.head, i - 1);
      SlotOwned(key, w, i - 1);
      SlotsDistinct(key, m', 0, i);
      assert Slot(key, m', i) == Slot(key, w, i - 1);
    }
    forall i | 0 <= i < m'.size ensures Slot(key, m', i) in db' {
      assert i == 0 || i > 0;
    }
    PlusLaws(w.head, w.size);
    var all := [element] + Elements(db, key, w);
    assert Elements(db', key, m') == all;
  }

  lemma PushedAtTail(db: Store, key: Bytes, w: Metadata, m': Metadata, element: Bytes, encoded: Bytes)
    requires WellPlaced(db, key, w) && w.tail == Plus(w.head, w.size)
    requires w.size + 1 < UINT32_LIMIT
    requires m' == w.(tail := Plus(w.tail, 1), size := w.size + 1)
    ensures var db' := db[InternalKey(key, w.version, w.tail) := element][key := encoded];
            WellPlaced(db', key, m') && Elements(db', key, m') == Elements(db, key, w) + [element]
  {
    hide InternalKey, Plus;
    var db' := db[InternalKey(key, w.version, w.tail) := element][key := encoded];
    assert InternalKey(key, w.version, w.tail) == Slot(key, w, w.size);
    SlotOwned(key, w, w.size);
    forall i | 0 <= i < w.size
      ensures Slot(key, m', i) in db' && At(db', Slot(key, m', i)) == At(db, Slot(key, w, i))
    {
      SlotOwned(key, w, i);
      SlotsDistinct(key, w, i, w.size);
      assert Slot(key, m', i) == Slot(key, w, i);
    }
    assert Slot(key, m', w.size) == Slot(key, w, w.size);
    PlusLaws(w.head, w.size);
  }

  lemma PushKeeps(db: Store, key: Bytes, m: Metadata, element: Bytes, atHead: bool)
    requires WellPlaced(db, key, m)
    ensures var o := PushMetadata(db, key, m, element, atHead);
            && HoldsList(o.db, key)
            && Value(o.db, key) == PushValue(ListValue(m.expire, Elements(db, key, m)), element, atHead)
            && o.reply == Size(|Value(o.db, key).elements|)
            && OnlyOwnedChanged(db, o.db, key)
  {
    hide InternalKey, EncodeMetadata, DecodeMetadata, Slot, Plus, MinusOne;
    var w := WithEnds(m);
    PlusLaws(w.head, 0);
    assert Elements(db, key, w) == Elements(db, key, m);
    var size := (w.size + 1) % UINT32_LIMIT;
    var m' := if atHead then w.(head := MinusOne(w.head), size := size)
              else w.(tail := Plus(w.tail, 1), size := size);
    DecodeEncodeMetadata(m');
    SlotIsOwned(key, w.version, if atHead then MinusOne(w.head) else w.tail);
    OwnsItself(key);
    if size != 0 {
      if atHead {
        PushedAtHead(db, key, w, m', element, EncodeMetadata(m'));
      } else {
        PushedAtTail(db, key, w, m', element, EncodeMetadata(m'));
      }
    }
  }

  // ----- popping

  lemma PoppedAtHead(db: Store, key: Bytes, m: Metadata, m': Metadata, encoded: Bytes)
    requires WellPlaced(db, key, m) && m.size > 1
    requires m' == m.(head := Plus(m.head, 1), size := m.size - 1)
    ensures var db' := (db - {InternalKey(key, m.version, m.head)})[key := encoded];
            WellPlaced(db', key, m') && Elements(db', key, m') == Elements(db, key, m)[1..]
  {
    hide InternalKey, Plus;
    var db' := (db - {InternalKey(key, m.version, m.head)})[key := encoded];
    PlusLaws(m.head, 0);
    assert InternalKey(key, m.version, m.head) == Slot(key, m, 0);
    forall i | 0 <= i < m'.size
      ensures Slot(key, m', i) in db' && At(db', Slot(key, m', i)) == At(db, Slot(key, m, i + 1))
    {
      PlusLaws(m.head, i);
      SlotOwned(key, m, i + 1);
      SlotsDistinct(key, m, 0, i + 1);
      assert Slot(key, m', i) == Slot(key, m, i + 1);
    }
    PlusLaws(m.head, m'.size);
  }

  lemma PoppedAtTail(db: Store, key: Bytes, m: Metadata, m': Metadata, encoded: Bytes)
    requires WellPlaced(db, key, m) && m.size > 1
    requires m' == m.(tail := MinusOne(m.tail), size := m.size - 1)
    ensures var db' := (db - {InternalKey(key, m.version, MinusOne(m.tail))})[key := encoded];
            WellPlaced(db', key, m') && Elements(db', key, m') == Elements(db, key, m)[..m.size - 1]
  {
    hide InternalKey, Plus, MinusOne;
    var db' := (db - {InternalKey(key, m.version, MinusOne(m.tail))})[key := encoded];
    PlusLaws(m.head, m'.size);
    assert InternalKey(key, m.version, MinusOne(m.tail)) == Slot(key, m, m'.size);
    forall i | 0 <= i < m'.size
      ensures Slot(key, m', i) in db' && At(db', Slot(key, m', i)) == At(db, Slot(key, m, i))
    {
      SlotOwned(key, m, i);
      SlotsDistinct(key, m, i, m'.size);
      assert Slot(key, m', i) == Slot(key, m, i);
    }
  }

  lemma PopKeeps(db: Store, key: Bytes, m: Metadata, atHead: bool)
    requires WellPlaced(db, key, m) && m.size > 0
    ensures var o, v := PopMetadata(db, key, m, atHead), ListValue(m.expire, Elements(db, key, m));
            && HoldsList(o.db, key)
            && Value(o.db, key) == PopValue(v, atHead)
            && o.reply == PopReply(v, atHead)
            && OnlyOwnedChanged(db, o.db, key)
  {
    hide InternalKey, EncodeMetadata, DecodeMetadata, Plus, MinusOne;
    PlusLaws(m.head, m.size - 1);
    var i := if atHead then 0 else m.size - 1;
    var slot := InternalKey(key, m.version, if atHead then m.head else MinusOne(m.tail));
    assert slot == Slot(key, m, i) && slot in db by { PlusLaws(m.head, 0); }
    assert Elements(db, key, m)[i] == db[slot];
    var m' := if atHead then m.(head := Plus(m.head, 1), size := m.size - 1)
              else m.(tail := MinusOne(m.tail), size := m.size - 1);
    DecodeEncodeMetadata(m');
    SlotOwned(key, m, i);
    OwnsItself(key);
    if m.size > 1 {
      if atHead {
        PoppedAtHead(db, key, m, m', EncodeMetadata(m'));
      } else {
        PoppedAtTail(db, key, m, m', EncodeMetadata(m'));
      }
    }
  }

  // ----- one operation

  datatype Op =
    | Push(key: Bytes, element: Bytes, atHead: bool, clock: Clock)
    | Pop(key: Bytes, atHead: bool, clock: Clock)
    | Del(key: Bytes)

  function Apply(db: Store, op: Op): Outcome {
    match op
    case Push(key, element, atHead, clock) => RedisLists.Push(db, key, element, atHead, clock)
    case Pop(key, atHead, clock) => RedisLists.Pop(db, key, atHead, clock)
    case Del(key) => Delete(db, key)
  }

  /** What the operation does to a plain double-ended queue with an expiry time. */
  function Expected(v: ListValue, op: Op): (ListValue, Reply) {
    match op
    case Push(_, element, atHead, clock) =>
      var v' := PushValue(Current(v, clock.now), element, atHead);
      (v', Size(|v'.elements|))
    case Pop(_, atHead, clock) =>
      var w := Current(v, clock.now);
      (PopValue(w, atHead), PopReply(w, atHead))
    case Del(_) => (ABSENT, Deleted)
  }

  lemma FindMeans(db: Store, key: Bytes, clock: Clock)
    requires key != [] && HoldsList(db, key)
    ensures var f := Find(db, key, LIST, clock);
            && f.Found?
            && WellPlaced(f.db, key, f.metadata)
            && ListValue(f.metadata.expire, Elements(f.db, key, f.metadata)) == Current(Value(db, key), clock.now)
            && (f.metadata.size == 0 ==> HoldsList(f.db, key) && Value(f.db, key) == Current(Value(db, key), clock.now))
            && OnlyOwnedChanged(db, f.db, key)
  {
    hide DecodeMetadata, Slot;
    OwnsItself(key);
    var f := Find(db, key, LIST, clock);
    if f.db != db || key !in db {
      assert Elements(f.db, key, f.metadata) == [];
    }
  }

  lemma OpKeepsOwnList(db: Store, op: Op)
    requires op.key != [] && HoldsList(db, op.key)
    ensures HoldsList(Apply(db, op).db, op.key)
    ensures (Value(Apply(db, op).db, op.key), Apply(db, op).reply) == Expected(Value(db, op.key), op)
    ensures OnlyOwnedChanged(db, Apply(db, op).db, op.key)
  {
    hide HoldsList, Value, Find, PushMetadata, WellPlaced, Elements, Owned, PushValue, PopValue, PopReply, Current;
    match op
    case Push(key, element, atHead, clock) =>
      FindMeans(db, key, clock);
      var f := Find(db, key, LIST, clock);
      PushKeeps(f.db, key, f.metadata, element, atHead);
    case Pop(key, atHead, clock) =>
      FindMeans(db, key, clock);
      var f := Find(db, key, LIST, clock);
      if f.metadata.size > 0 {
        PopKeeps(f.db, key, f.metadata, atHead);
      } else {
        PopOfEmpty(f.db, key, f.metadata, atHead);
      }
    case Del(key) =>
      DeleteKeeps(db, key);
  }

  lemma PopOfEmpty(db: Store, key: Bytes, m: Metadata, atHead: bool)
    requires m.size == 0
    ensures PopMetadata(db, key, m, atHead) == Outcome(db, KeyNotFound)
    ensures var v := ListValue(m.expire, Elements(db, key, m)); PopValue(v, atHead) == v && PopReply(v, atHead) == KeyNotFound
  {
  }

  lemma DeleteKeeps(db: Store, key: Bytes)
    requires key != []
    ensures HoldsList(Delete(db, key).db, key) && Value(Delete(db, key).db, key) == ABSENT
    ensures OnlyOwnedChanged(db, Delete(db, key).db, key)
  {
    OwnsItself(key);
  }

  // ----- keys that hold something else

  /** The value under the key is too short for metadata, or its first byte names another type. */
  predicate Refuses(db: Store, key: Bytes) {
    key in db && (|db[key]| < 21 || db[key][0] != 3)
  }

  /** A push or pop on such a key, or on the empty key, is refused and leaves the whole store as it was. */
  lemma RefusedOp(db: Store, op: Op)
    requires op.key == [] || (Refuses(db, op.key) && !op.Del?)
    ensures Apply(db, op) == Outcome(db, if op.key == [] then KeyEmpty
                                         else if |db[op.key]| < 21 then BadMetadata else WrongType)
  {
    hide Number;
  }

  // ----- whole runs

  /** What a user key stands for: a list, perhaps an absent one, or bytes that are no list's. */
  datatype KeyValue = Queue(list: ListValue) | Other(bytes: Bytes)

  type Model = map<Bytes, KeyValue>

  function ValueAt(db: Store, key: Bytes): KeyValue {
    if Refuses(db, key) then Other(db[key]) else Queue(Value(db, key))
  }

  ghost function Abstraction(db: Store, users: set<Bytes>): Model {
    map key | key in users :: ValueAt(db, key)
  }

  ghost predicate HoldsKey(db: Store, key: Bytes) {
    Refuses(db, key) || HoldsList(db, key)
  }

  /** Each user key holds a list that is stored as it should be, or something else, or nothing. */
  ghost predicate HoldsKeys(db: Store, users: set<Bytes>) {
    [] !in users && Separate(users) && forall key | key in users :: HoldsKey(db, key)
  }

  function ExpectedAt(v: KeyValue, op: Op): (KeyValue, Reply) {
    match v
    case Queue(list) => var (list', reply) := Expected(list, op); (Queue(list'), reply)
    case Other(bytes) =>
      if op.Del? then (Queue(ABSENT), Deleted)
      else (v, if |bytes| < 21 then BadMetadata else WrongType)
  }

  lemma ListsDoNotRefuse(db: Store, key: Bytes)
    requires HoldsList(db, key)
    ensures !Refuses(db, key)
  {
    hide Number;
  }

  lemma KeyUntouched(db: Store, db': Store, users: set<Bytes>, user: Bytes, other: Bytes)
    requires Separate(users) && user in users && other in users && user != other
    requires HoldsKey(db, other) && OnlyOwnedChanged(db, db', user)
    ensures HoldsKey(db', other) && ValueAt(db', other) == ValueAt(db, other)
  {
    hide HoldsList, Value, Separate, Owned;
    OwnsItself(other);
    OwnersDiffer(users, user, other, other);
    if !Refuses(db, other) {
      OthersUntouched(db, db', users, user, other);
      ListsDoNotRefuse(db', other);
    }
  }

  lemma OpOnOwnKey(db: Store, op: Op)
    requires op.key != [] && HoldsKey(db, op.key)
    ensures var o := Apply(db, op);
            && HoldsKey(o.db, op.key)
            && (ValueAt(o.db, op.key), o.reply) == ExpectedAt(ValueAt(db, op.key), op)
            && OnlyOwnedChanged(db, o.db, op.key)
  {
    hide HoldsList, Value, Owned, Expected, Apply;
    if Refuses(db, op.key) {
      if op.Del? {
        DeletedKey(db, op.key);
        ListsDoNotRefuse(Apply(db, op).db, op.key);
      } else {
        RefusedOp(db, op);
      }
    } else {
      OpKeepsOwnList(db, op);
      ListsDoNotRefuse(Apply(db, op).db, op.key);
    }
  }

  lemma DeletedKey(db: Store, key: Bytes)
    requires key != []
    ensures Apply(db, Op.Del(key)) == Delete(db, key) && Delete(db, key).reply == Deleted
    ensures HoldsList(Delete(db, key).db, key) && Value(Delete(db, key).db, key) == ABSENT
    ensures OnlyOwnedChanged(db, Delete(db, key).db, key)
  {
    DeleteKeeps(db, key);
  }

  lemma OpIsQueueOp(db: Store, users: set<Bytes>, op: Op)
    requires HoldsKeys(db, users) && op.key in users
    ensures var (o, (v, reply)) := (Apply(db, op), ExpectedAt(ValueAt(db, op.key), op));
            && HoldsKeys(o.db, users)
            && Abstraction(o.db, users) == Abstraction(db, users)[op.key := v]
            && o.reply == reply
  {
    hide HoldsKey, ValueAt, OnlyOwnedChanged, Apply, ExpectedAt, Separate;
    OpOnOwnKey(db, op);
    forall other | other in users && other != op.key
      ensures HoldsKey(Apply(db, op).db, other) && ValueAt(Apply(db, op).db, other) == ValueAt(db, other)
    {
      KeyUntouched(db, Apply(db, op).db, users, op.key, other);
    }
  }

  datatype Trace<T> = Trace(state: T, replies: seq<Reply>)

  function Run(db: Store, ops: seq<Op>): Trace<Store> {
    if ops == [] then Trace(db, [])
    else
      var before := Run(db, ops[..|ops| - 1]);
      var o := Apply(before.state, ops[|ops| - 1]);
      Trace(o.db, before.replies + [o.reply])
  }

  function RunQueues(model: Model, ops: seq<Op>): Trace<Model>
    requires forall op | op in ops :: op.key == [] || op.key in model
    ensures RunQueues(model, ops).state.Keys == model.Keys
  {
    if ops == [] then Trace(model, [])
    else
      var before, op := RunQueues(model, ops[..|ops| - 1]), ops[|ops| - 1];
      if op.key == [] then Trace(before.state, before.replies + [KeyEmpty])
      else
        var (v, reply) := ExpectedAt(before.state[op.key], op);
        Trace(before.state[op.key := v], before.replies + [reply])
  }

  /** Any run of pushes, pops and deletions, at any times, over separate keys of which some hold lists,
      some other things and some nothing, answers what the queues answer or refuses, and leaves the
      queues' contents and the other things as they were. */
  lemma {:induction false} RunsAreQueues(db: Store, users: set<Bytes>, ops: seq<Op>)
    requires HoldsKeys(db, users)
    requires forall op | op in ops :: op.key == [] || op.key in users
    ensures HoldsKeys(Run(db, ops).state, users)
    ensures Run(db, ops).replies == RunQueues(Abstraction(db, users), ops).replies
    ensures Abstraction(Run(db, ops).state, users) == RunQueues(Abstraction(db, users), ops).state
  {
    hide HoldsKeys, Apply, ExpectedAt;
    if ops != [] {
      var n := |ops| - 1;
      RunsAreQueues(db, users, ops[..n]);
      if ops[n].key == [] {
        RefusedOp(Run(db, ops[..n]).state, ops[n]);
      } else {
        EmptyIsNoUser(db, users);
        OpIsQueueOp(Run(db, ops[..n]).state, users, ops[n]);
      }
    }
  }

  lemma EmptyIsNoUser(db: Store, users: set<Bytes>)
    requires HoldsKeys(db, users)
    ensures [] !in users
  {
  }

  /** Starting from nothing, with user keys of one length, every list is a queue from its first push. */
  lemma NewListsAreQueues(users: set<Bytes>, length: nat, ops: seq<Op>)
    requires length > 0 && forall key | key in users :: |key| == length
    requires forall op | op in ops :: op.key in users
    ensures var none: Model := map key | key in users :: Queue(ABSENT);
            Run(map[], ops).replies == RunQueues(none, ops).replies
  {
    hide Run, RunQueues;
    OneLengthIsSeparate(users, length);
    assert HoldsKeys(map[], users);
    var none: Model := map key | key in users :: Queue(ABSENT);
    assert Abstraction(map[], users) == none;
    RunsAreQueues(map[], users, ops);
  }

  // ----- times and versions

  /** A pop finds nothing exactly when the list is empty or its time has come. */
  lemma PopFindsNothingIff(db: Store, key: Bytes, atHead: bool, clock: Clock)
    requires key != [] && HoldsList(db, key)
    ensures Apply(db, Op.Pop(key, atHead, clock)).reply == KeyNotFound
       <==> Value(db, key).elements == [] || (Value(db, key).expire != 0 && Value(db, key).expire <= clock.now)
  {
    hide HoldsList, Value, Apply;
    OpKeepsOwnList(db, Op.Pop(key, atHead, clock));
  }

  /** The first push to an absent key stores the element next to the middle of the index range, under
      the later reading of the clock as version, and metadata without an expiry that say so. */
  lemma FirstPushStores(db: Store, key: Bytes, element: Bytes, atHead: bool, clock: Clock)
    requires key != [] && key !in db
    ensures var middle: uint64 := 0x7FFF_FFFF_FFFF_FFFF;
            var m := if atHead then Metadata(3, 0, clock.later, 1, middle - 1, middle)
                     else Metadata(3, 0, clock.later, 1, middle, middle + 1);
            Apply(db, Op.Push(key, element, atHead, clock)) ==
              Outcome(db[InternalKey(key, clock.later, if atHead then middle - 1 else middle) := element]
                        [key := EncodeMetadata(m)], Size(1))
  {
    hide EncodeMetadata, InternalKey;
  }

  /** Between two sets of records: only these keys may have changed. */
  ghost predicate OnlyChanged(db: Store, db': Store, keys: set<Bytes>) {
    forall k | k !in keys :: (k in db <==> k in db') && (k in db ==> db[k] == db'[k])
  }

  /** A push to a live list writes one element record, next to the end it pushes to, and the metadata; a
      pop removes the record at the end it pops from. No other record of the store changes. */
  lemma OneElementChanges(db: Store, key: Bytes, m: Metadata, element: Bytes, atHead: bool, clock: Clock)
    requires key in db && key != [] && DecodeMetadata(db[key]) == Decoded(m)
    requires WellPlaced(db, key, m) && m.size > 0 && !IsExpired(m.expire, clock.now)
    ensures var slot := if atHead then InternalKey(key, m.version, MinusOne(m.head)) else Slot(key, m, m.size);
            var o := Apply(db, Op.Push(key, element, atHead, clock));
            OnlyChanged(db, o.db, {key, slot}) && slot in o.db && o.db[slot] == element && key in o.db
    ensures var slot := if atHead then Slot(key, m, 0) else Slot(key, m, m.size - 1);
            var o := Apply(db, Op.Pop(key, atHead, clock));
            OnlyChanged(db, o.db, {key, slot}) && slot !in o.db && (key in o.db <==> m.size > 1)
  {
    hide InternalKey, EncodeMetadata, DecodeMetadata, Plus, MinusOne;
    PlusLaws(m.head, m.size - 1);
    PlusLaws(m.head, 0);
    SlotIsOwned(key, m.version, MinusOne(m.head));
    SlotOwned(key, m, 0);
    SlotOwned(key, m, m.size);
    SlotOwned(key, m, m.size - 1);
  }

  /** A list whose metadata has survived its elements answers as if it were not there, and keeps its
      metadata. */
  lemma PopOfLostElement(db: Store, key: Bytes, m: Metadata, atHead: bool, clock: Clock)
    requires key in db && key != [] && DecodeMetadata(db[key]) == Decoded(m) && m.dataType == LIST
    requires m.size > 0 && !IsExpired(m.expire, clock.now)
    requires InternalKey(key, m.version, if atHead then m.head else MinusOne(m.tail)) !in db
    ensures Apply(db, Op.Pop(key, atHead, clock)) == Outcome(db, KeyNotFound)
  {
    hide InternalKey, DecodeMetadata;
  }
}
