/** Inserting into and deleting from the middle of a sequence, and what stands at a place in one. */
module Sequences {
  function InsertAt<T>(s: seq<T>, pos: nat, x: T): seq<T>
    requires pos <= |s|
  {
    s[..pos] + [x] + s[pos..]
  }

  function DeleteAt<T>(s: seq<T>, pos: nat): seq<T>
    requires pos < |s|
  {
    s[..pos] + s[pos + 1..]
  }

  /** At `offset` the data goes on with `part`, then `rest`. */
  ghost predicate GoesOn<T>(data: seq<T>, offset: nat, part: seq<T>, rest: seq<T>) {
    offset <= |data| && data[offset..] == part + rest
  }

  lemma Pass<T>(data: seq<T>, offset: nat, a: seq<T>, b: seq<T>, rest: seq<T>)
    requires GoesOn(data, offset, a + b, rest)
    ensures GoesOn(data, offset, a, b + rest)
    ensures offset + |a| <= |data| && data[offset..offset + |a|] == a
    ensures GoesOn(data, offset + |a|, b, rest)
  {
    var tail := data[offset..];
    assert tail == a + (b + rest);
    assert data[offset + |a|..] == tail[|a|..];
    assert data[offset..offset + |a|] == tail[..|a|];
  }
}
