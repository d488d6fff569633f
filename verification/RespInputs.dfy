/** What the parser makes of input that was not printed by the server: any number line, commands cut
    short, and the other way round, what must stand in the input when it returns arguments. */
module RespInputs {
  import opened Sequences
  import opened ByteStrings
  import opened Resp
  import opened RespLoops
  import opened RespReplies

  // ----- number lines

  predicate AllSpaces(s: string) {
    forall i | 0 <= i < |s| :: s[i] == ' ' || '\t' <= s[i] <= '\r'
  }

  lemma {:induction false} SpacesAreSkipped(spaces: string, rest: string)
    requires AllSpaces(spaces) && (rest == "" || !IsSpace(rest[0]))
    ensures SkipSpaces(spaces + rest) == rest
  {
    if spaces == "" {
      assert spaces + rest == rest;
    } else {
      SpacesAreSkipped(spaces[1..], rest);
      assert (spaces + rest)[1..] == spaces[1..] + rest;
    }
  }

  lemma {:induction false} DigitsLead(digits: string, rest: string)
    requires AllDigits(digits) && (rest == "" || !IsDigit(rest[0]))
    ensures LeadingDigits(digits + rest) == digits
  {
    if digits == "" {
      assert digits + rest == rest;
    } else {
      DigitsLead(digits[1..], rest);
      assert (digits + rest)[1..] == digits[1..] + rest;
    }
  }

  /** White space in front, a sign and anything behind the digits do not matter. Without digits, or out
      of the range of `int`, there is no number. */
  lemma StoiMeans(spaces: string, sign: string, digits: string, rest: string)
    requires AllSpaces(spaces) && sign in {"", "+", "-"} && AllDigits(digits)
    requires rest == "" || !IsDigit(rest[0])
    requires digits == "" && sign == "" && rest != "" ==> !IsSpace(rest[0]) && rest[0] != '+' && rest[0] != '-'
    ensures Stoi(spaces + (sign + (digits + rest))) ==
      var value: int := if sign == "-" then -(DigitsValue(digits) as int) else DigitsValue(digits);
      if digits != "" && -0x8000_0000 <= value <= 0x7FFF_FFFF then Number(value) else BadNumber
  {
    hide SkipSpaces, LeadingDigits, DigitsValue;
    var number := digits + rest;
    DigitsLead(digits, rest);
    assert digits != "" ==> number[0] == digits[0] && IsDigit(number[0]);
    assert digits == "" ==> number == rest;
    if sign == "" {
      assert sign + number == number;
    } else {
      assert (sign + number)[0] == sign[0] && (sign + number)[1..] == number;
    }
    SpacesAreSkipped(spaces, sign + number);
  }

  // ----- commands cut short

  lemma {:induction false} NoLineEnd(data: string, offset: nat)
    requires forall i | offset <= i < |data| - 1 :: !(data[i] == '\r' && data[i + 1] == '\n')
    ensures FindLineEnd(data, offset).NoPosition?
    decreases |data| - offset
  {
    if offset + 2 <= |data| {
      NoLineEnd(data, offset + 1);
    }
  }

  lemma CutLine(data: string, offset: nat, digits: string, k: nat)
    requires AllDigits(digits) && k < |digits| + 2
    requires offset <= |data| && data[offset..] == (digits + CRLF)[..k]
    ensures FindLineEnd(data, offset).NoPosition?
  {
    var tail := data[offset..];
    forall i | offset <= i < |data| - 1
      ensures !(data[i] == '\r' && data[i + 1] == '\n')
    {
      assert data[i] == tail[i - offset] && data[i + 1] == tail[i + 1 - offset];
      assert i - offset < |digits| ==> IsDigit(digits[i - offset]);
    }
    NoLineEnd(data, offset);
  }

  lemma CutBulk(data: string, offset: nat, arg: string, k: nat, count: int, args: Command)
    requires |arg| <= INT_MAX && |data| + |arg| + 2 < UINT64_LIMIT && count > 0
    requires k < |Serialize(BulkString(arg))|
    requires offset <= |data| && data[offset..] == Serialize(BulkString(arg))[..k]
    ensures ParseArgs(data, offset, count, args).Single? && ParseArgs(data, offset, count, args).args == []
  {
    hide Stoi, FindLineEnd, Decimal, ParseArgs;
    var line, tail := Decimal(|arg|) + CRLF, data[offset..];
    var item := "$" + (line + (arg + CRLF));
    assert Serialize(BulkString(arg)) == item;
    if k == 0 {
      NoMarkYields(data, offset, count, args);
    } else {
      assert data[offset] == tail[0] == '$';
      assert data[offset + 1..] == tail[1..] == (line + (arg + CRLF))[..k - 1];
      DecimalValue(|arg|);
      if k - 1 < |line| {
        assert data[offset + 1..] == line[..k - 1];
        CutLine(data, offset + 1, Decimal(|arg|), k - 1);
        NoLineYields(data, offset, count, args);
      } else {
        var rest := (arg + CRLF)[..k - 1 - |line|];
        assert data[offset + 1..] == line + rest;
        LineParses(data, offset + 1, |arg|, rest);
        ShortYields(data, offset, count, args, offset + 1 + |Decimal(|arg|)|, |arg|);
      }
    }
  }

  lemma NoMarkYields(data: string, offset: nat, count: int, args: Command)
    requires count > 0 && (offset >= |data| || data[offset] != '$')
    ensures ParseArgs(data, offset, count, args) == Single([], offset)
  {
  }

  lemma NoLineYields(data: string, offset: nat, count: int, args: Command)
    requires count > 0 && offset < |data| && data[offset] == '$' && FindLineEnd(data, offset + 1).NoPosition?
    ensures ParseArgs(data, offset, count, args) == Single([], offset + 1)
  {
  }

  lemma ShortYields(data: string, offset: nat, count: int, args: Command, lineEnd: nat, length: nat)
    requires count > 0 && offset < |data| && data[offset] == '$' && FindLineEnd(data, offset + 1) == At(lineEnd)
    requires Stoi(data[offset + 1..lineEnd]) == Number(length)
    requires |data| < lineEnd + length + 4 < UINT64_LIMIT
    ensures ParseArgs(data, offset, count, args) == Single([], lineEnd + 2)
  {
    hide Stoi, FindLineEnd;
  }

  lemma {:induction false} CutArgs(data: string, offset: nat, all: Command, i: nat, k: nat)
    requires InIntRange(all) && i <= |all| && |data| + INT_MAX + 2 < UINT64_LIMIT
    requires k < |SerializeItems(CommandResponse(all), i)|
    requires offset <= |data| && data[offset..] == SerializeItems(CommandResponse(all), i)[..k]
    ensures var r := ParseArgs(data, offset, |all| - i, all[..i]);
            !r.BadCount? && (r.Single? ==> r.args == []) && (StepsFit(all, i) ==> r.Single?)
    decreases |all| - i
  {
    hide Serialize, SerializeItems, ParseArgs, InIntRange, CommandResponse;
    ItemsUnfold(all, i);
    var item, more := Serialize(BulkString(all[i])), SerializeItems(CommandResponse(all), i + 1);
    ArgInRange(all, i);
    if k < |item| {
      assert (item + more)[..k] == item[..k];
      CutBulk(data, offset, all[i], k, |all| - i, all[..i]);
    } else {
      var rest := more[..k - |item|];
      assert data[offset..] == item + rest;
      BulkParses(data, offset, all[i], rest, |all| - i, all[..i]);
      assert all[..i] + [all[i]] == all[..i + 1];
      if |all[i]| + 2 <= INT_MAX {
        CutArgs(data, offset + |item|, all, i + 1, k - |item|);
      }
    }
  }

  /** The front part of a printed command at the end of the data never yields arguments. */
  lemma CutCommand(data: string, offset: nat, args: Command, k: nat)
    requires InIntRange(args) && |data| + INT_MAX + 2 < UINT64_LIMIT
    requires k < |Serialize(CommandResponse(args))|
    requires offset <= |data| && data[offset..] == Serialize(CommandResponse(args))[..k]
    ensures var r := ParseSingle(data, offset);
            !r.BadCount? && (r.Single? ==> r.args == []) && (StepsFit(args, 0) ==> r.Single?)
  {
    hide Stoi, FindLineEnd, Decimal, ParseArgs, SerializeItems;
    var r := CommandResponse(args);
    var line, items, tail := Decimal(|args|) + CRLF, SerializeItems(r, 0), data[offset..];
    assert Serialize(r) == "*" + (line + items);
    if k > 0 {
      assert data[offset] == tail[0] == '*';
      assert data[offset + 1..] == tail[1..] == (line + items)[..k - 1];
      DecimalValue(|args|);
      if k - 1 < |line| {
        assert data[offset + 1..] == line[..k - 1];
        CutLine(data, offset + 1, Decimal(|args|), k - 1);
      } else {
        var rest := items[..k - 1 - |line|];
        assert data[offset + 1..] == line + rest;
        LineParses(data, offset + 1, |args|, rest);
        CutArgs(data, offset + 1 + |line|, args, 0, k - 1 - |line|);
        assert args[..0] == [];
      }
    }
  }

  // ----- what must stand there

  /** Arguments as they stand in the input: each behind a line with a length, and before two more
      characters. */
  function Spelling(args: Command, lengths: seq<string>, ends: seq<string>): string
    requires |lengths| == |ends| == |args|
  {
    if args == [] then ""
    else "$" + lengths[0] + CRLF + args[0] + ends[0] + Spelling(args[1..], lengths[1..], ends[1..])
  }

  ghost predicate Spells(args: Command, lengths: seq<string>, ends: seq<string>) {
    && |lengths| == |ends| == |args|
    && forall i | 0 <= i < |args| :: Stoi(lengths[i]) == Number(|args[i]|) && |ends[i]| == 2
  }

  lemma {:induction false} ArgsAreSpelled(data: string, offset: nat, count: nat, done: Command)
    returns (args: Command, lengths: seq<string>, ends: seq<string>)
    requires LengthsOk(data, offset, count) && |data| < UINT64_LIMIT / 2 && offset <= |data|
    requires ParseArgs(data, offset, count, done).Single?
    requires ParseArgs(data, offset, count, done).args != [] || count == 0
    ensures var r := ParseArgs(data, offset, count, done);
            && r.args == done + args && |args| == count && Spells(args, lengths, ends)
            && offset <= r.next <= |data| && data[offset..r.next] == Spelling(args, lengths, ends)
    decreases count
  {
    hide Stoi, FindLineEnd, Spelling, ParseArgs, LengthsOk;
    if count == 0 {
      args, lengths, ends := [], [], [];
      NothingSpelled(data, offset, done);
      assert done + [] == done && data[offset..offset] == "";
    } else {
      var lineEnd, length := ArgGoesOn(data, offset, count, done);
      var start, next := lineEnd + 2, lineEnd + length + 4;
      var arg := data[start..start + length];
      var args', lengths', ends' := ArgsAreSpelled(data, next, count - 1, done + [arg]);
      args := [arg] + args';
      lengths := [data[offset + 1..lineEnd]] + lengths';
      ends := [data[start + length..next]] + ends';
      assert done + args == done + [arg] + args';
      OneMoreSpelled(data, offset, lineEnd, start, start + length, next, args', lengths', ends', ParseArgs(data, offset, count, done).next);
    }
  }

  lemma NothingSpelled(data: string, offset: nat, done: Command)
    ensures Spelling([], [], []) == "" && ParseArgs(data, offset, 0, done) == Single(done, offset)
  {
  }

  lemma ArgGoesOn(data: string, offset: nat, count: nat, done: Command) returns (lineEnd: nat, length: nat)
    requires LengthsOk(data, offset, count) && |data| < UINT64_LIMIT / 2 && count > 0
    requires ParseArgs(data, offset, count, done).Single? && ParseArgs(data, offset, count, done).args != []
    ensures offset < lineEnd && lineEnd + length + 4 <= |data| && data[offset] == '$'
    ensures data[lineEnd..lineEnd + 2] == CRLF && Stoi(data[offset + 1..lineEnd]) == Number(length)
    ensures LengthsOk(data, lineEnd + length + 4, count - 1)
    ensures ParseArgs(data, offset, count, done)
         == ParseArgs(data, lineEnd + length + 4, count - 1, done + [data[lineEnd + 2..lineEnd + 2 + length]])
  {
    hide Stoi, FindLineEnd;
    lineEnd := FindLineEnd(data, offset + 1).index;
    length := Stoi(data[offset + 1..lineEnd]).value;
    StoiInRange(data[offset + 1..lineEnd]);
    assert Wrap(lineEnd + 2 + length + 2) == lineEnd + length + 4 && Wrap(length) == length;
  }

  lemma OneMoreSpelled(data: string, offset: nat, lineEnd: nat, start: nat, stop: nat, next: nat,
                       args: Command, lengths: seq<string>, ends: seq<string>, end: nat)
    requires offset < lineEnd && start == lineEnd + 2 && start <= stop && next == stop + 2 && next <= end <= |data|
    requires data[offset] == '$' && data[lineEnd..start] == CRLF
    requires |lengths| == |ends| == |args| && data[next..end] == Spelling(args, lengths, ends)
    ensures data[offset..end]
         == Spelling([data[start..stop]] + args, [data[offset + 1..lineEnd]] + lengths, [data[stop..next]] + ends)
  {
    hide Spelling;
    SpellingCons(data[start..stop], args, data[offset + 1..lineEnd], lengths, data[stop..next], ends);
    OneLineOf(data, offset, lineEnd, '$');
    CutAt(data, offset, start, stop);
    CutAt(data, offset, stop, next);
    CutAt(data, offset, next, end);
  }

  lemma OneLineOf(data: string, offset: nat, lineEnd: nat, mark: char)
    requires offset < lineEnd && lineEnd + 2 <= |data| && data[offset] == mark && data[lineEnd..lineEnd + 2] == CRLF
    ensures data[offset..lineEnd + 2] == [mark] + data[offset + 1..lineEnd] + CRLF
  {
    assert data[offset..offset + 1] == [mark];
    CutAt(data, offset, offset + 1, lineEnd);
    CutAt(data, offset, lineEnd, lineEnd + 2);
  }

  lemma SpellingCons(arg: string, args: Command, length: string, lengths: seq<string>, end: string, ends: seq<string>)
    requires |lengths| == |ends| == |args|
    ensures Spelling([arg] + args, [length] + lengths, [end] + ends)
         == "$" + length + CRLF + arg + end + Spelling(args, lengths, ends)
  {
    assert ([arg] + args)[1..] == args && ([length] + lengths)[1..] == lengths && ([end] + ends)[1..] == ends;
  }

  lemma CutAt(data: string, a: nat, b: nat, c: nat)
    requires a <= b <= c <= |data|
    ensures data[a..c] == data[a..b] + data[b..c]
  {
  }

  /** When the parser returns arguments without having met a negative length, the input has been a line
      with their number behind a star, and then the arguments, spelled one after the other. */
  lemma CommandIsSpelled(data: string, offset: nat) returns (count: string, lengths: seq<string>, ends: seq<string>)
    requires CommandLengthsOk(data, offset) && |data| < UINT64_LIMIT / 2
    requires ParseSingle(data, offset).Single? && ParseSingle(data, offset).args != []
    ensures var r := ParseSingle(data, offset);
            && Stoi(count) == Number(|r.args|) && Spells(r.args, lengths, ends)
            && offset < r.next <= |data|
            && data[offset..r.next] == "*" + count + CRLF + Spelling(r.args, lengths, ends)
  {
    hide Stoi, FindLineEnd, Spelling, ParseArgs, LengthsOk, Spells;
    var lineEnd := FindLineEnd(data, offset + 1).index;
    count := data[offset + 1..lineEnd];
    var n := Stoi(count).value;
    NoArgsBelowOne(data, lineEnd + 2, n);
    var args;
    args, lengths, ends := ArgsAreSpelled(data, lineEnd + 2, n, []);
    var next := ParseSingle(data, offset).next;
    assert [] + args == args;
    OneLineOf(data, offset, lineEnd, '*');
    CutAt(data, offset, lineEnd + 2, next);
  }

  lemma NoArgsBelowOne(data: string, offset: nat, count: int)
    ensures count <= 0 ==> ParseArgs(data, offset, count, []) == Single([], offset)
  {
  }

  // ----- and what stands there is parsed

  predicate OneLines(lines: seq<string>) {
    forall i | 0 <= i < |lines| :: OneLine(lines[i])
  }

  lemma SpelledArg(data: string, offset: nat, arg: string, length: string, end: string, b: string, rest: string,
                   count: int, done: Command)
    requires OneLine(length) && Stoi(length) == Number(|arg|) && |end| == 2 && |arg| + 2 <= INT_MAX
    requires count > 0 && |data| < UINT64_LIMIT
    requires GoesOn(data, offset, "$" + length + CRLF + arg + end + b, rest)
    ensures var next := offset + |"$" + length + CRLF + arg + end|;
            GoesOn(data, next, b, rest) && ParseArgs(data, offset, count, done) == ParseArgs(data, next, count - 1, done + [arg])
  {
    hide Stoi, FindLineEnd, ParseArgs, GoesOn, OneLine;
    var part := "$" + length + CRLF + arg + end;
    Pass(data, offset, part, b, rest);
    assert part == ['$'] + (length + CRLF + (arg + end));
    TypeByte(data, offset, '$', length + CRLF + (arg + end), b + rest);
    LineReads(data, offset + 1, length, arg + end, b + rest);
    var lineEnd := offset + 1 + |length|;
    Pass(data, lineEnd + 2, arg, end, b + rest);
    Pass(data, lineEnd + 2 + |arg|, end, "", b + rest) by { assert end + "" == end; }
    LineIs(data, offset + 1, length, lineEnd + 2);
    ArgStep(data, offset, count, done, lineEnd, |arg|);
  }

  lemma LineIs(data: string, offset: nat, text: string, next: nat)
    requires ReadLine(data, offset) == Line(text, next)
    ensures next >= 2 && FindLineEnd(data, offset) == At(next - 2) && data[offset..next - 2] == text
  {
  }

  lemma {:induction false} SpelledArgs(data: string, offset: nat, args: Command, lengths: seq<string>, ends: seq<string>,
                                       rest: string, count: int, done: Command)
    requires Spells(args, lengths, ends) && OneLines(lengths) && StepsFit(args, 0)
    requires count >= |args| && |data| < UINT64_LIMIT
    requires GoesOn(data, offset, Spelling(args, lengths, ends), rest)
    ensures var next := offset + |Spelling(args, lengths, ends)|;
            ParseArgs(data, offset, count, done) == ParseArgs(data, next, count - |args|, done + args)
    decreases |args|
  {
    hide Stoi, FindLineEnd, ParseArgs, GoesOn, OneLine;
    if args == [] {
      assert done + args == done;
    } else {
      var first := "$" + lengths[0] + CRLF + args[0] + ends[0];
      var more := Spelling(args[1..], lengths[1..], ends[1..]);
      SpelledArg(data, offset, args[0], lengths[0], ends[0], more, rest, count, done);
      SpelledArgs(data, offset + |first|, args[1..], lengths[1..], ends[1..], rest, count - 1, done + [args[0]]);
      assert done + [args[0]] + args[1..] == done + args;
    }
  }

  /** The other way round: whatever is spelled like that is parsed to its arguments, with white space,
      signs and trailing text in the number lines, and any two characters behind an argument. */
  lemma SpelledIsParsed(data: string, offset: nat, count: string, args: Command, lengths: seq<string>, ends: seq<string>,
                        rest: string)
    requires OneLine(count) && Stoi(count) == Number(|args|) && Spells(args, lengths, ends) && OneLines(lengths)
    requires StepsFit(args, 0) && |data| < UINT64_LIMIT
    requires GoesOn(data, offset, "*" + count + CRLF + Spelling(args, lengths, ends), rest)
    ensures ParseSingle(data, offset) == Single(args, offset + |"*" + count + CRLF + Spelling(args, lengths, ends)|)
  {
    hide Stoi, FindLineEnd, ParseArgs, GoesOn, OneLine, Spelling, Spells, StepsFit, OneLines;
    SpelledArgsAre(args, lengths, ends);
    var spelled := Spelling(args, lengths, ends);
    assert "*" + count + CRLF + spelled == ['*'] + (count + CRLF + spelled);
    TypeByte(data, offset, '*', count + CRLF + spelled, rest);
    LineReads(data, offset + 1, count, spelled, rest);
    var start := offset + 1 + |count| + 2;
    LineIs(data, offset + 1, count, start);
    SpelledArgs(data, start, args, lengths, ends, rest, |args|, []);
    NoMoreArgs(data, start + |spelled|, [] + args);
    assert [] + args == args;
  }

  lemma SpelledArgsAre(args: Command, lengths: seq<string>, ends: seq<string>)
    requires Spells(args, lengths, ends)
    ensures |lengths| == |ends| == |args|
  {
  }

  /** A line that holds no number, where the number of arguments or a length belongs, is an error. What
      does not begin with the right mark holds no command. */
  lemma BadLine(data: string, offset: nat, line: string, rest: string, count: int, done: Command)
    requires OneLine(line) && Stoi(line) == BadNumber && count > 0 && offset < |data|
    ensures GoesOn(data, offset, "*" + line + CRLF, rest) ==> ParseSingle(data, offset) == BadCount
    ensures GoesOn(data, offset, "$" + line + CRLF, rest) ==> ParseArgs(data, offset, count, done) == BadCount
    ensures data[offset] != '*' ==> ParseSingle(data, offset) == Single([], offset)
    ensures data[offset] != '$' ==> ParseArgs(data, offset, count, done) == Single([], offset)
  {
    hide Stoi, FindLineEnd, GoesOn, OneLine;
    if GoesOn(data, offset, "*" + line + CRLF, rest) {
      assert "*" + line + CRLF == ['*'] + (line + CRLF + "");
      TypeByte(data, offset, '*', line + CRLF + "", rest);
      LineReads(data, offset + 1, line, "", rest);
      LineIs(data, offset + 1, line, offset + 1 + |line| + 2);
    }
    if GoesOn(data, offset, "$" + line + CRLF, rest) {
      assert "$" + line + CRLF == ['$'] + (line + CRLF + "");
      TypeByte(data, offset, '$', line + CRLF + "", rest);
      LineReads(data, offset + 1, line, "", rest);
      LineIs(data, offset + 1, line, offset + 1 + |line| + 2);
    }
  }

  /** A negative length makes everything behind its line the argument, and steps back from there; if that
      leads before the start of the input, there is no command. */
  lemma NegativeLength(data: string, offset: nat, line: string, rest: string, length: int, count: int, done: Command)
    requires OneLine(line) && Stoi(line) == Number(length) && length < 0 && count > 0 && |data| < UINT64_LIMIT / 2
    requires GoesOn(data, offset, "$" + line + CRLF, rest)
    ensures var start := offset + 1 + |line| + 2;
            ParseArgs(data, offset, count, done) ==
              if 0 <= start + 2 + length <= |data|
              then ParseArgs(data, start + 2 + length, count - 1, done + [rest])
              else Single([], start)
  {
    hide Stoi, FindLineEnd, GoesOn, OneLine, ParseArgs;
    assert "$" + line + CRLF == ['$'] + (line + CRLF + "");
    TypeByte(data, offset, '$', line + CRLF + "", rest);
    LineReads(data, offset + 1, line, "", rest);
    var start := offset + 1 + |line| + 2;
    LineIs(data, offset + 1, line, start);
    RestStands(data, start, rest);
    StoiInRange(line);
    NegativeStep(data, offset, count, done, start - 2, length);
  }

  lemma NegativeStep(data: string, offset: nat, count: int, done: Command, lineEnd: nat, length: int)
    requires count > 0 && offset < |data| && data[offset] == '$' && FindLineEnd(data, offset + 1) == At(lineEnd)
    requires Stoi(data[offset + 1..lineEnd]) == Number(length) && INT_MIN <= length < 0
    requires |data| < UINT64_LIMIT / 2
    ensures var start := lineEnd + 2;
            ParseArgs(data, offset, count, done) ==
              if 0 <= start + 2 + length <= |data|
              then ParseArgs(data, start + 2 + length, count - 1, done + [data[start..]])
              else Single([], start)
  {
    hide Stoi, FindLineEnd;
    var start := lineEnd + 2;
    assert Wrap(start + length + 2) == if start + length + 2 >= 0 then start + length + 2 else start + length + 2 + UINT64_LIMIT;
    assert Substr(data, start, Wrap(length)) == data[start..];
  }

  lemma RestStands(data: string, offset: nat, rest: string)
    requires GoesOn(data, offset, "", rest)
    ensures offset <= |data| && data[offset..] == rest
  {
    assert "" + rest == rest;
  }
}
