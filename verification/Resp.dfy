/** The Redis protocol: responses are printed, commands are parsed. */
module Resp {
  import opened ByteStrings

  const CRLF := "\r\n"
  const INT_MIN := -0x8000_0000
  const INT_MAX := 0x7FFF_FFFF

  type Command = seq<string>

  // ----- numbers

  function Decimal(n: nat): (s: string)
    ensures s != ""
  {
    if n < 10 then [DigitOf(n)] else Decimal(n / 10) + [DigitOf(n % 10)]
  }

  function DigitOf(d: nat): char
    requires d < 10
  {
    '0' + d as char
  }

  function PrintInteger(v: int): string {
    if v < 0 then "-" + Decimal(-v) else Decimal(v)
  }

  predicate IsDigit(c: char) {
    '0' <= c <= '9'
  }

  predicate IsSpace(c: char) {
    c == ' ' || '\t' <= c <= '\r'
  }

  function SkipSpaces(s: string): string {
    if s != "" && IsSpace(s[0]) then SkipSpaces(s[1..]) else s
  }

  function LeadingDigits(s: string): (d: string)
    ensures AllDigits(d)
  {
    if s != "" && IsDigit(s[0]) then [s[0]] + LeadingDigits(s[1..]) else ""
  }

  predicate AllDigits(s: string) {
    forall i | 0 <= i < |s| :: IsDigit(s[i])
  }

  function DigitsValue(s: string): nat
    requires AllDigits(s)
  {
    if s == "" then 0 else 10 * DigitsValue(s[..|s| - 1]) + (s[|s| - 1] - '0') as nat
  }

  datatype Number = Number(value: int) | BadNumber

  /** White space, a sign, then as many digits as there are; what follows them is ignored. No
      digit, or a value outside the range of `int`, is an error. */
  function Stoi(s: string): Number {
    var t := SkipSpaces(s);
    var signed := t != "" && (t[0] == '-' || t[0] == '+');
    var digits := LeadingDigits(if signed then t[1..] else t);
    var magnitude: int := DigitsValue(digits);
    var value := if signed && t[0] == '-' then -magnitude else magnitude;
    if digits == "" || !(INT_MIN <= value <= INT_MAX) then BadNumber else Number(value)
  }

  lemma {:induction false} DecimalValue(n: nat)
    ensures AllDigits(Decimal(n)) && DigitsValue(Decimal(n)) == n
  {
    if n < 10 {
      assert Decimal(n)[..0] == "";
    } else {
      DecimalValue(n / 10);
      assert Decimal(n)[..|Decimal(n)| - 1] == Decimal(n / 10);
    }
  }

  lemma {:induction false} LeadingOfDigits(s: string)
    requires AllDigits(s)
    ensures LeadingDigits(s) == s
  {
    if s != "" {
      LeadingOfDigits(s[1..]);
    }
  }

  lemma StoiDecimal(n: nat)
    ensures Stoi(Decimal(n)) == if n <= INT_MAX then Number(n) else BadNumber
  {
    DecimalValue(n);
    LeadingOfDigits(Decimal(n));
    assert IsDigit(Decimal(n)[0]);
  }

  /** Reading an integer inverts printing it exactly within the range of `int`. */
  lemma StoiInvertsPrint(v: int)
    ensures Stoi(PrintInteger(v)) == if INT_MIN <= v <= INT_MAX then Number(v) else BadNumber
  {
    if v < 0 {
      DecimalValue(-v);
      LeadingOfDigits(Decimal(-v));
      assert ("-" + Decimal(-v))[1..] == Decimal(-v);
    } else {
      StoiDecimal(v);
    }
  }

  // ----- printing

  datatype Response =
    | SimpleString(value: string)
    | Error(value: string)
    | Integer(number: int)
    | BulkString(value: string)
    | NullBulkString
    | Array(items: seq<Response>)

  function Serialize(r: Response): string
    decreases r, if r.Array? then |r.items| + 2 else 0
  {
    match r
    case SimpleString(value) => "+" + value + CRLF
    case Error(value) => "-" + value + CRLF
    case Integer(number) => ":" + PrintInteger(number) + CRLF
    case BulkString(value) => "$" + (Decimal(|value|) + CRLF + (value + CRLF))
    case NullBulkString => "$-1\r\n"
    case Array(items) => "*" + (Decimal(|items|) + CRLF + SerializeItems(r, 0))
  }

  /** The items of an array from the `i`-th on. */
  function SerializeItems(r: Response, i: nat): string
    requires r.Array? && i <= |r.items|
    decreases r, |r.items| + 1 - i
  {
    if i == |r.items| then "" else Serialize(r.items[i]) + SerializeItems(r, i + 1)
  }

  // ----- parsing

  datatype Position = At(index: nat) | NoPosition

  function FindLineEnd(data: string, offset: nat): (p: Position)
    ensures p.At? ==> offset <= p.index && p.index + 2 <= |data| && data[p.index..p.index + 2] == CRLF
    decreases |data| - offset
  {
    if offset + 2 > |data| then NoPosition
    else if data[offset] == '\r' && data[offset + 1] == '\n' then At(offset)
    else FindLineEnd(data, offset + 1)
  }

  /** Adding to an unsigned 64-bit offset. */
  function Wrap(x: int): nat {
    x % UINT64_LIMIT
  }

  function Substr(data: string, offset: nat, length: nat): string
    requires offset <= |data|
  {
    if offset + length <= |data| then data[offset..offset + length] else data[offset..]
  }

  /** No arguments stands for a malformed or incomplete command. The step over an argument and its
      line end is computed in an `int`; when it does not fit, what happens next is undefined. */
  datatype Single = Single(args: Command, next: nat) | BadCount | Overflow

  function ParseArgs(data: string, offset: nat, count: int, args: Command): Single
    decreases if count < 0 then 0 else count
  {
    if count <= 0 then Single(args, offset)
    else if offset >= |data| || data[offset] != '$' then Single([], offset)
    else
      match FindLineEnd(data, offset + 1)
      case NoPosition => Single([], offset + 1)
      case At(lineEnd) =>
        match Stoi(data[offset + 1..lineEnd])
        case BadNumber => BadCount
        case Number(length) =>
          var start := lineEnd + 2;
          if Wrap(start + length + 2) > |data| then Single([], start)
          else if length + 2 > INT_MAX then Overflow
          else ParseArgs(data, Wrap(start + length + 2), count - 1, args + [Substr(data, start, Wrap(length))])
  }

  function ParseSingle(data: string, offset: nat): Single {
    if offset >= |data| || data[offset] != '*' then Single([], offset)
    else
      match FindLineEnd(data, offset + 1)
      case NoPosition => Single([], offset + 1)
      case At(lineEnd) =>
        match Stoi(data[offset + 1..lineEnd])
        case BadNumber => BadCount
        case Number(count) => ParseArgs(data, lineEnd + 2, count, [])
  }

  method ParseSingleCommand(data: string, offset: nat) returns (r: Single)
    ensures r == ParseSingle(data, offset)
  {
    hide FindLineEnd, Stoi, Substr, Wrap;
    if offset >= |data| || data[offset] != '*' {
      return Single([], offset);
    }
    var next: nat := offset + 1;
    var newline := FindLineEnd(data, next);
    if newline.NoPosition? {
      return Single([], next);
    }
    var argCount := Stoi(data[next..newline.index]);
    if argCount.BadNumber? {
      return BadCount;
    }
    next := newline.index + 2;
    var args: Command := [];
    var i := 0;
    ghost var whole := ParseArgs(data, next, argCount.value, []);
    assert whole == ParseSingle(data, offset);
    while i < argCount.value
      invariant i <= argCount.value || i == 0
      invariant ParseArgs(data, next, argCount.value - i, args) == whole
      decreases argCount.value - i
    {
      if next >= |data| || data[next] != '$' {
        return Single([], next);
      }
      next := next + 1;
      newline := FindLineEnd(data, next);
      if newline.NoPosition? {
        return Single([], next);
      }
      var length := Stoi(data[next..newline.index]);
      if length.BadNumber? {
        return BadCount;
      }
      next := newline.index + 2;
      if Wrap(next + length.value + 2) > |data| {
        return Single([], next);
      }
      if length.value + 2 > INT_MAX {
        return Overflow;
      }
      args := args + [Substr(data, next, Wrap(length.value))];
      next := Wrap(next + length.value + 2);
      i := i + 1;
    }
    return Single(args, next);
  }

  /** What parsing all commands of a string does. A negative length can move the offset back;
      an offset met for the second time will be met again and again. */
  datatype Outcome = Commands(commands: seq<Command>) | Throws | Overflows | RunsForever

  function Unseen(data: string, seen: set<nat>): set<nat> {
    set o: nat | o < |data| && o !in seen
  }

  function Prepend(args: Command, o: Outcome): Outcome {
    if o.Commands? then Commands([args] + o.commands) else o
  }

  function ParseFrom(data: string, offset: nat, seen: set<nat>): Outcome
    decreases Unseen(data, seen)
  {
    if offset >= |data| then Commands([])
    else if offset in seen then RunsForever
    else
      var single := ParseSingle(data, offset);
      if single.BadCount? then Throws
      else if single.Overflow? then Overflows
      else if single.args == [] then Commands([])
      else
        assert offset in Unseen(data, seen);
        Prepend(single.args, ParseFrom(data, single.next, seen + {offset}))
  }

  function Append(commands: seq<Command>, o: Outcome): Outcome {
    if o.Commands? then Commands(commands + o.commands) else o
  }

  method ParseCommands(data: string) returns (r: Outcome)
    ensures r == ParseFrom(data, 0, {})
  {
    hide ParseSingle;
    var commands: seq<Command> := [];
    var offset: nat := 0;
    var seen: set<nat> := {};
    assert [] + (if ParseFrom(data, 0, {}).Commands? then ParseFrom(data, 0, {}).commands else []) ==
           (if ParseFrom(data, 0, {}).Commands? then ParseFrom(data, 0, {}).commands else []);
    while offset < |data|
      invariant Append(commands, ParseFrom(data, offset, seen)) == ParseFrom(data, 0, {})
      decreases Unseen(data, seen)
    {
      if offset in seen {
        return RunsForever;
      }
      var command := ParseSingleCommand(data, offset);
      if command.BadCount? {
        return Throws;
      }
      if command.Overflow? {
        return Overflows;
      }
      if command.args == [] {
        break;
      }
      ghost var rest := ParseFrom(data, command.next, seen + {offset});
      assert rest.Commands? ==>
          commands + ([command.args] + rest.commands) == commands + [command.args] + rest.commands;
      assert offset in Unseen(data, seen);
      commands := commands + [command.args];
      seen := seen + {offset};
      offset := command.next;
    }
    return Commands(commands);
  }

  // ----- what is printed is parsed

  function CommandResponse(args: Command): (r: Response)
    ensures r.Array? && |r.items| == |args|
  {
    Array(seq(|args|, i requires 0 <= i < |args| => BulkString(args[i])))
  }

  function SerializeCommands(commands: seq<Command>): string {
    if commands == [] then "" else Serialize(CommandResponse(commands[0])) + SerializeCommands(commands[1..])
  }

  predicate InIntRange(args: Command) {
    |args| <= INT_MAX && forall i | 0 <= i < |args| :: |args[i]| <= INT_MAX
  }

  /** The step over every argument from the `i`-th on fits an `int`. */
  predicate StepsFit(args: Command, i: nat) {
    forall j | i <= j < |args| :: |args[j]| + 2 <= INT_MAX
  }

  predicate AllFit(commands: seq<Command>) {
    forall args | args in commands :: StepsFit(args, 0)
  }

  function BeforeEmpty(commands: seq<Command>): seq<Command> {
    if commands == [] || commands[0] == [] then [] else [commands[0]] + BeforeEmpty(commands[1..])
  }

  lemma {:induction false} FindAfterDigits(data: string, offset: nat, digits: string, rest: string)
    requires AllDigits(digits)
    requires offset <= |data| && data[offset..] == digits + CRLF + rest
    ensures FindLineEnd(data, offset) == At(offset + |digits|)
    ensures data[offset..offset + |digits|] == digits
    ensures data[offset + |digits| + 2..] == rest
    decreases |digits|
  {
    var tail := data[offset..];
    if digits == "" {
      assert tail[0] == '\r' && tail[1] == '\n';
      assert data[offset + 2..] == tail[2..];
    } else {
      assert tail[0] == digits[0] && IsDigit(digits[0]);
      assert data[offset + 1..] == tail[1..] == digits[1..] + CRLF + rest;
      FindAfterDigits(data, offset + 1, digits[1..], rest);
      assert data[offset..offset + |digits|] == [data[offset]] + data[offset + 1..offset + 1 + |digits[1..]|];
    }
  }

  lemma LineParses(data: string, offset: nat, n: nat, rest: string)
    requires n <= INT_MAX
    requires offset <= |data| && data[offset..] == Decimal(n) + CRLF + rest
    ensures var lineEnd := offset + |Decimal(n)|;
            && FindLineEnd(data, offset) == At(lineEnd)
            && lineEnd + 2 <= |data| && data[lineEnd + 2..] == rest
            && Stoi(data[offset..lineEnd]) == Number(n)
  {
    hide Stoi;
    DecimalValue(n);
    FindAfterDigits(data, offset, Decimal(n), rest);
    StoiDecimal(n);
  }

  lemma BulkParses(data: string, offset: nat, arg: string, rest: string, count: int, args: Command)
    requires |arg| <= INT_MAX && |data| < UINT64_LIMIT && count > 0
    requires offset <= |data| && data[offset..] == Serialize(BulkString(arg)) + rest
    ensures var next := offset + |Serialize(BulkString(arg))|;
            && next <= |data| && data[next..] == rest
            && ParseArgs(data, offset, count, args) ==
                 if |arg| + 2 <= INT_MAX then ParseArgs(data, next, count - 1, args + [arg]) else Overflow
  {
    hide Stoi, FindLineEnd, Decimal, ParseArgs;
    var line := Decimal(|arg|) + CRLF;
    var tail := data[offset..];
    assert tail == "$" + (line + (arg + CRLF + rest));
    assert data[offset + 1..] == tail[1..] == line + (arg + CRLF + rest);
    LineParses(data, offset + 1, |arg|, arg + CRLF + rest);
    var start := offset + 1 + |line|;
    var end := start + |arg| + 2;
    assert data[start..] == arg + CRLF + rest;
    assert data[start..][..|arg|] == arg;
    assert data[end..] == data[start..][|arg| + 2..] == rest;
    assert Substr(data, start, |arg|) == arg;
    ArgStep(data, offset, count, args, start - 2, |arg|);
  }

  lemma ArgStep(data: string, offset: nat, count: int, args: Command, lineEnd: nat, length: nat)
    requires count > 0 && offset < |data| && data[offset] == '$'
    requires FindLineEnd(data, offset + 1) == At(lineEnd)
    requires Stoi(data[offset + 1..lineEnd]) == Number(length)
    requires lineEnd + 2 + length + 2 <= |data| < UINT64_LIMIT
    ensures ParseArgs(data, offset, count, args) ==
              if length + 2 <= INT_MAX
              then ParseArgs(data, lineEnd + length + 4, count - 1, args + [Substr(data, lineEnd + 2, length)])
              else Overflow
  {
    hide Stoi, FindLineEnd;
  }

  lemma {:induction false} ArgsParse(data: string, offset: nat, all: Command, i: nat, rest: string)
    requires InIntRange(all) && i <= |all| && |data| < UINT64_LIMIT
    requires offset <= |data| && data[offset..] == SerializeItems(CommandResponse(all), i) + rest
    ensures var next := offset + |SerializeItems(CommandResponse(all), i)|;
            && next <= |data| && data[next..] == rest
            && ParseArgs(data, offset, |all| - i, all[..i]) == if StepsFit(all, i) then Single(all, next) else Overflow
    decreases |all| - i
  {
    hide Serialize, SerializeItems, ParseArgs, InIntRange, CommandResponse;
    ItemsUnfold(all, i);
    if i == |all| {
      assert all[..i] == all;
      NoMoreArgs(data, offset, all);
    } else {
      var item := Serialize(BulkString(all[i]));
      var tail := SerializeItems(CommandResponse(all), i + 1);
      assert data[offset..] == item + (tail + rest);
      assert |all[i]| <= INT_MAX by { ArgInRange(all, i); }
      BulkParses(data, offset, all[i], tail + rest, |all| - i, all[..i]);
      assert all[..i] + [all[i]] == all[..i + 1];
      ArgsParse(data, offset + |item|, all, i + 1, rest);
    }
  }

  lemma NoMoreArgs(data: string, offset: nat, args: Command)
    ensures ParseArgs(data, offset, 0, args) == Single(args, offset)
  {
  }

  lemma ArgInRange(all: Command, i: nat)
    requires InIntRange(all) && i < |all|
    ensures |all[i]| <= INT_MAX
  {
  }

  lemma ItemsUnfold(all: Command, i: nat)
    requires i <= |all|
    ensures CommandResponse(all).Array? && |CommandResponse(all).items| == |all|
    ensures i == |all| ==> SerializeItems(CommandResponse(all), i) == ""
    ensures i < |all| ==>
              SerializeItems(CommandResponse(all), i) == Serialize(BulkString(all[i])) + SerializeItems(CommandResponse(all), i + 1)
  {
    hide Serialize;
  }

  lemma CommandParses(data: string, offset: nat, args: Command, rest: string)
    requires InIntRange(args) && |data| < UINT64_LIMIT
    requires offset <= |data| && data[offset..] == Serialize(CommandResponse(args)) + rest
    ensures var next := offset + |Serialize(CommandResponse(args))|;
            && offset < next <= |data| && data[next..] == rest
            && ParseSingle(data, offset) == if StepsFit(args, 0) then Single(args, next) else Overflow
  {
    hide Stoi, FindLineEnd, Decimal, ParseArgs, SerializeItems;
    var r := CommandResponse(args);
    var line, items := Decimal(|args|) + CRLF, SerializeItems(r, 0);
    var tail := data[offset..];
    assert tail == "*" + (line + (items + rest));
    assert data[offset + 1..] == tail[1..] == line + (items + rest);
    LineParses(data, offset + 1, |args|, items + rest);
    ArgsParse(data, offset + 1 + |line|, args, 0, rest);
    assert args[..0] == [];
  }

  lemma {:induction false} CommandsParse(data: string, offset: nat, commands: seq<Command>, seen: set<nat>)
    requires forall args | args in commands :: InIntRange(args)
    requires |data| < UINT64_LIMIT && forall o | o in seen :: o < offset
    requires offset <= |data| && data[offset..] == SerializeCommands(commands)
    ensures ParseFrom(data, offset, seen) ==
              if AllFit(BeforeEmpty(commands)) then Commands(BeforeEmpty(commands)) else Overflows
    decreases |commands|
  {
    hide ParseSingle, Serialize, InIntRange, StepsFit;
    if commands != [] {
      CommandParses(data, offset, commands[0], SerializeCommands(commands[1..]));
      if commands[0] == [] {
        EmptyFits();
      } else {
        AllFitUnfolds(commands);
      }
      if commands[0] != [] && StepsFit(commands[0], 0) {
        var next := offset + |Serialize(CommandResponse(commands[0]))|;
        CommandsParse(data, next, commands[1..], seen + {offset});
      }
    }
  }

  lemma EmptyFits()
    ensures StepsFit([], 0)
  {
  }

  lemma AllFitUnfolds(commands: seq<Command>)
    requires commands != [] && commands[0] != []
    ensures AllFit(BeforeEmpty(commands)) <==> StepsFit(commands[0], 0) && AllFit(BeforeEmpty(commands[1..]))
  {
    hide StepsFit;
    assert BeforeEmpty(commands) == [commands[0]] + BeforeEmpty(commands[1..]);
  }

  /** Commands printed one after the other are parsed back, whatever bytes their arguments hold, up
      to the first without arguments, unless an argument in front of that is within two of the
      largest `int`. All come back exactly when there is neither. */
  lemma ParseInvertsSerialize(commands: seq<Command>)
    requires forall args | args in commands :: InIntRange(args)
    requires |SerializeCommands(commands)| < UINT64_LIMIT
    ensures ParseFrom(SerializeCommands(commands), 0, {}) ==
              if AllFit(BeforeEmpty(commands)) then Commands(BeforeEmpty(commands)) else Overflows
    ensures ParseFrom(SerializeCommands(commands), 0, {}) == Commands(commands) <==> [] !in commands && AllFit(commands)
  {
    hide ParseFrom, InIntRange, StepsFit;
    var data := SerializeCommands(commands);
    assert data[0..] == data;
    CommandsParse(data, 0, commands, {});
    BeforeEmptyIsAllIff(commands);
  }

  lemma {:induction false} BeforeEmptyIsAllIff(commands: seq<Command>)
    ensures BeforeEmpty(commands) == commands <==> [] !in commands
    ensures |BeforeEmpty(commands)| <= |commands|
  {
    if commands != [] {
      BeforeEmptyIsAllIff(commands[1..]);
      assert commands == [commands[0]] + commands[1..];
      assert commands[0] != [] ==> BeforeEmpty(commands)[1..] == BeforeEmpty(commands[1..]);
    }
  }
}
