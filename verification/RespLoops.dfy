/** When the loop over the commands of a string ends. */
module RespLoops {
  import opened ByteStrings
  import opened Resp

  /** Where the loop over commands goes from `offset`, if it goes on. */
  function Next(data: string, offset: nat): Position {
    if offset >= |data| then NoPosition
    else
      var single := ParseSingle(data, offset);
      if !single.Single? || single.args == [] then NoPosition else At(single.next)
  }

  /** The offset at the start of the n-th iteration, from zero. */
  function Iteration(data: string, offset: nat, n: nat): Position {
    if n == 0 then At(offset)
    else
      var p := Iteration(data, offset, n - 1);
      if p.At? then Next(data, p.index) else NoPosition
  }

  lemma {:induction false} IterationShift(data: string, offset: nat, n: nat)
    requires Next(data, offset).At?
    ensures Iteration(data, offset, n + 1) == Iteration(data, Next(data, offset).index, n)
  {
    hide Next;
    if n == 0 {
      assert Iteration(data, offset, 1) == Next(data, Iteration(data, offset, 0).index);
    } else {
      IterationShift(data, offset, n - 1);
    }
  }

  // ----- an offset met again

  /** The offsets seen are those of the first `k` iterations, and the loop stands at `offset`. */
  ghost predicate Trail(data: string, seen: set<nat>, offset: nat, k: nat) {
    && Iteration(data, 0, k) == At(offset)
    && |seen| == k
    && forall o | o in seen :: o < |data| && MetBefore(data, o, k)
  }

  ghost predicate MetBefore(data: string, o: nat, k: nat) {
    exists i | 0 <= i < k :: Iteration(data, 0, i) == At(o)
  }

  /** Two of the first iterations start at the same place. */
  ghost predicate Repeats(data: string) {
    exists i, j | 0 <= i < j <= |data| :: Iteration(data, 0, i).At? && Iteration(data, 0, j) == Iteration(data, 0, i)
  }

  lemma {:induction false} SmallSet(s: set<nat>, n: nat)
    requires forall x | x in s :: x < n
    ensures |s| <= n
  {
    if n == 0 {
      assert s == {};
    } else {
      SmallSet(s - {n - 1}, n - 1);
    }
  }

  lemma {:induction false} RunsForeverRepeats(data: string, seen: set<nat>, offset: nat, k: nat)
    requires Trail(data, seen, offset, k) && ParseFrom(data, offset, seen).RunsForever?
    ensures Repeats(data)
    decreases Unseen(data, seen)
  {
    hide ParseSingle;
    if offset in seen {
      SmallSet(seen, |data|);
      assert MetBefore(data, offset, k);
    } else {
      assert offset in Unseen(data, seen);
      assert Iteration(data, 0, k + 1) == Next(data, offset);
      RunsForeverRepeats(data, seen + {offset}, Next(data, offset).index, k + 1);
    }
  }

  lemma {:induction false} RepeatAgrees(data: string, i: nat, j: nat, d: nat)
    requires Iteration(data, 0, j) == Iteration(data, 0, i)
    ensures Iteration(data, 0, j + d) == Iteration(data, 0, i + d)
  {
    hide Next;
    if d > 0 {
      RepeatAgrees(data, i, j, d - 1);
    }
  }

  lemma {:induction false} EarlierIterations(data: string, n: nat, j: nat)
    requires n <= j && Iteration(data, 0, j).At?
    ensures Iteration(data, 0, n).At?
    decreases j - n
  {
    hide Next;
    if n < j {
      EarlierIterations(data, n, j - 1);
    }
  }

  lemma {:induction false} RepeatGoesOn(data: string, i: nat, j: nat, n: nat)
    requires i < j && Iteration(data, 0, i).At? && Iteration(data, 0, j) == Iteration(data, 0, i)
    ensures Iteration(data, 0, n).At?
  {
    hide Iteration;
    if n <= j {
      EarlierIterations(data, n, j);
    } else {
      RepeatAgrees(data, i, j, n - j);
      RepeatGoesOn(data, i, j, n - j + i);
    }
  }

  lemma {:induction false} EndsMeans(data: string, offset: nat, seen: set<nat>) returns (n: nat)
    requires !ParseFrom(data, offset, seen).RunsForever?
    ensures Iteration(data, offset, n).NoPosition?
    decreases Unseen(data, seen)
  {
    hide ParseSingle;
    if Next(data, offset).NoPosition? {
      assert Iteration(data, offset, 1) == Next(data, Iteration(data, offset, 0).index);
      n := 1;
    } else {
      assert offset in Unseen(data, seen);
      var m := EndsMeans(data, Next(data, offset).index, seen + {offset});
      IterationShift(data, offset, m);
      n := m + 1;
    }
  }

  /** The loop does not end if and only if, within as many iterations as the string is long, it comes
      to a place it has been at. A caller can find that out by running it so far. */
  lemma RunsForeverIff(data: string)
    ensures ParseFrom(data, 0, {}).RunsForever? <==> Repeats(data)
    ensures ParseFrom(data, 0, {}).RunsForever? <==> forall n :: Iteration(data, 0, n).At?
  {
    hide ParseFrom, Next;
    if ParseFrom(data, 0, {}).RunsForever? {
      RunsForeverRepeats(data, {}, 0, 0);
    } else {
      var n := EndsMeans(data, 0, {});
      assert Iteration(data, 0, n).NoPosition?;
    }
    if Repeats(data) {
      var i, j :| 0 <= i < j <= |data| && Iteration(data, 0, i).At? && Iteration(data, 0, j) == Iteration(data, 0, i);
      forall n: nat ensures Iteration(data, 0, n).At? {
        RepeatGoesOn(data, i, j, n);
      }
    }
  }

  // ----- commands that lead forward

  ghost predicate LeadsForward(data: string, offset: nat) {
    Next(data, offset).At? ==> offset < Next(data, offset).index
  }

  /** Every command the loop comes to leads forward. */
  ghost predicate AlwaysForward(data: string) {
    forall n: nat | n <= |data| && Iteration(data, 0, n).At? :: LeadsForward(data, Iteration(data, 0, n).index)
  }

  lemma {:induction false} LaterIsFurther(data: string, i: nat, j: nat)
    requires AlwaysForward(data) && i < j <= |data| && Iteration(data, 0, j).At?
    ensures Iteration(data, 0, i).At? && Iteration(data, 0, i).index < Iteration(data, 0, j).index
    decreases j
  {
    hide Next;
    EarlierIterations(data, j - 1, j);
    assert LeadsForward(data, Iteration(data, 0, j - 1).index);
    if i < j - 1 {
      LaterIsFurther(data, i, j - 1);
    }
  }

  /** If every command the loop comes to leads forward, it ends. */
  lemma EndsGoingForward(data: string)
    requires AlwaysForward(data)
    ensures !ParseFrom(data, 0, {}).RunsForever?
  {
    hide ParseFrom, Iteration, AlwaysForward;
    RunsForeverIff(data);
    if Repeats(data) {
      var i, j :| 0 <= i < j <= |data| && Iteration(data, 0, i).At? && Iteration(data, 0, j) == Iteration(data, 0, i);
      LaterIsFurther(data, i, j);
    }
  }

  /** None of the lengths that parsing the arguments comes to is negative. */
  predicate LengthsOk(data: string, offset: nat, count: int)
    decreases if count < 0 then 0 else count
  {
    count > 0 && offset < |data| && data[offset] == '$' && FindLineEnd(data, offset + 1).At? ==>
      var lineEnd := FindLineEnd(data, offset + 1).index;
      var number := Stoi(data[offset + 1..lineEnd]);
      number.Number? ==> number.value >= 0 && LengthsOk(data, lineEnd + number.value + 4, count - 1)
  }

  predicate CommandLengthsOk(data: string, offset: nat) {
    offset < |data| && data[offset] == '*' && FindLineEnd(data, offset + 1).At? ==>
      var lineEnd := FindLineEnd(data, offset + 1).index;
      var number := Stoi(data[offset + 1..lineEnd]);
      number.Number? ==> LengthsOk(data, lineEnd + 2, number.value)
  }

  lemma {:induction false} ArgsAdvance(data: string, offset: nat, count: int, args: Command)
    requires LengthsOk(data, offset, count) && |data| < UINT64_LIMIT / 2
    ensures var r := ParseArgs(data, offset, count, args); r.Single? ==> offset <= r.next
    decreases if count < 0 then 0 else count
  {
    hide Stoi, FindLineEnd;
    if count > 0 && offset < |data| && data[offset] == '$' && FindLineEnd(data, offset + 1).At? {
      var lineEnd := FindLineEnd(data, offset + 1).index;
      var length := Stoi(data[offset + 1..lineEnd]);
      if length.Number? {
        StoiInRange(data[offset + 1..lineEnd]);
        var start := lineEnd + 2;
        assert Wrap(start + length.value + 2) == start + length.value + 2;
        ArgsAdvance(data, start + length.value + 2, count - 1, args + [Substr(data, start, Wrap(length.value))]);
      }
    }
  }

  lemma StoiInRange(s: string)
    ensures Stoi(s).Number? ==> INT_MIN <= Stoi(s).value <= INT_MAX
  {
  }

  lemma NonNegativeLeadsForward(data: string, offset: nat)
    requires CommandLengthsOk(data, offset) && |data| < UINT64_LIMIT / 2
    ensures LeadsForward(data, offset)
  {
    hide Stoi, FindLineEnd, ParseArgs, LengthsOk;
    if Next(data, offset).At? {
      var lineEnd := FindLineEnd(data, offset + 1).index;
      ArgsAdvance(data, lineEnd + 2, Stoi(data[offset + 1..lineEnd]).value, []);
    }
  }

  /** If no length the loop comes to is negative, every command leads forward and the loop ends. */
  lemma EndsWithoutNegativeLength(data: string)
    requires |data| < UINT64_LIMIT / 2
    requires forall n: nat | n <= |data| && Iteration(data, 0, n).At? :: CommandLengthsOk(data, Iteration(data, 0, n).index)
    ensures AlwaysForward(data) && !ParseFrom(data, 0, {}).RunsForever?
  {
    hide Iteration, CommandLengthsOk, LeadsForward;
    forall n: nat | n <= |data| && Iteration(data, 0, n).At?
      ensures LeadsForward(data, Iteration(data, 0, n).index)
    {
      NonNegativeLeadsForward(data, Iteration(data, 0, n).index);
    }
    EndsGoingForward(data);
  }

  /** With a negative length it need not: this command leads back to its own start. */
  lemma NegativeLengthRunsForever()
    ensures ParseFrom("*1\r\n$-12\r\n", 0, {}) == RunsForever
  {
    hide Stoi;
    var data := "*1\r\n$-12\r\n";
    assert Decimal(1) == "1" && Decimal(12) == "12";
    assert data[1..2] == "1" && data[5..8] == "-" + "12";
    StoiDecimal(1);
    StoiInvertsPrint(-12);
    assert FindLineEnd(data, 1) == At(2);
    assert FindLineEnd(data, 5) == At(8) by {
      assert FindLineEnd(data, 7) == At(8);
      assert FindLineEnd(data, 6) == At(8);
    }
    assert ParseSingle(data, 0) == ParseArgs(data, 4, 1, []);
    var arg := Substr(data, 10, Wrap(-12));
    assert ParseArgs(data, 4, 1, []) == ParseArgs(data, 0, 0, [] + [arg]);
    assert ParseSingle(data, 0) == Single([arg], 0);
    assert ParseFrom(data, 0, {0}) == RunsForever;
    assert {} + {0} == {0};
  }

  // ----- what the loop returns

  /** The arguments of the commands that the first `n` iterations parse. */
  function FirstCommands(data: string, offset: nat, n: nat): seq<Command>
    decreases n
  {
    if n == 0 then []
    else
      var single := ParseSingle(data, offset);
      if single.Single? then [single.args] + FirstCommands(data, single.next, n - 1) else []
  }

  lemma {:induction false} OutcomeFrom(data: string, offset: nat, seen: set<nat>, n: nat)
    requires !ParseFrom(data, offset, seen).RunsForever?
    requires Iteration(data, offset, n).At? && Iteration(data, offset, n + 1).NoPosition?
    ensures var last := Iteration(data, offset, n).index;
            ParseFrom(data, offset, seen) ==
              if last < |data| && ParseSingle(data, last).BadCount? then Throws
              else if last < |data| && ParseSingle(data, last).Overflow? then Overflows
              else Commands(FirstCommands(data, offset, n))
    decreases n
  {
    hide ParseSingle, Iteration;
    if n == 0 {
      FirstIterations(data, offset);
    } else {
      FirstIterations(data, offset);
      EarlierFrom(data, offset, 1, n);
      IterationShift(data, offset, n - 1);
      IterationShift(data, offset, n);
      OutcomeFrom(data, Next(data, offset).index, seen + {offset}, n - 1);
    }
  }

  lemma FirstIterations(data: string, offset: nat)
    ensures Iteration(data, offset, 0) == At(offset) && Iteration(data, offset, 1) == Next(data, offset)
  {
    hide Next;
    assert Iteration(data, offset, 0) == At(offset);
  }

  lemma {:induction false} EarlierFrom(data: string, offset: nat, n: nat, j: nat)
    requires n <= j && Iteration(data, offset, j).At?
    ensures Iteration(data, offset, n).At?
    decreases j - n
  {
    hide Next;
    if n < j {
      EarlierFrom(data, offset, n, j - 1);
    }
  }

  /** A loop that ends returns the arguments of all its commands but the last try, which holds none,
      unless that one met a bad number or the overflow. */
  lemma OutcomeMeans(data: string, n: nat)
    requires Iteration(data, 0, n).At? && Iteration(data, 0, n + 1).NoPosition?
    ensures var last := Iteration(data, 0, n).index;
            ParseFrom(data, 0, {}) ==
              if last < |data| && ParseSingle(data, last).BadCount? then Throws
              else if last < |data| && ParseSingle(data, last).Overflow? then Overflows
              else Commands(FirstCommands(data, 0, n))
  {
    hide ParseFrom, ParseSingle, Iteration;
    RunsForeverIff(data);
    OutcomeFrom(data, 0, {}, n);
  }
}
