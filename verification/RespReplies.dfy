/** A reader of replies, written from the protocol: the five type bytes and what follows each of them.
    It reads back what the server prints. */
module RespReplies {
  import opened Sequences
  import opened Resp

  datatype Reply = Reply(response: Response, next: nat) | Unreadable

  datatype Replies = Replies(responses: seq<Response>, next: nat) | Garbled

  // ----- lines

  /** No line feed directly behind a carriage return. */
  predicate OneLine(s: string) {
    forall i | 0 <= i < |s| - 1 :: !(s[i] == '\r' && s[i + 1] == '\n')
  }

  datatype Line = Line(text: string, next: nat) | NoLine

  function ReadLine(data: string, offset: nat): (l: Line)
    ensures l.Line? ==> offset + 2 <= l.next <= |data|
  {
    match FindLineEnd(data, offset)
    case At(end) => Line(data[offset..end], end + 2)
    case NoPosition => NoLine
  }

  predicate IsNumber(s: string) {
    var digits := if s != "" && s[0] == '-' then s[1..] else s;
    digits != "" && AllDigits(digits)
  }

  function NumberOf(s: string): int
    requires IsNumber(s)
  {
    if s[0] == '-' then -(DigitsValue(s[1..]) as int) else DigitsValue(s)
  }

  // ----- the reader

  /** What stands at `offset`: a line, a number, a string of so many bytes or none, or so many replies. */
  function ReadReply(data: string, offset: nat): (r: Reply)
    ensures r.Reply? ==> offset < r.next <= |data|
    decreases if offset < |data| then |data| - offset else 0, 0, 0
  {
    if offset >= |data| then Unreadable
    else
      match ReadLine(data, offset + 1)
      case NoLine => Unreadable
      case Line(text, next) =>
        if data[offset] == '+' then Reply(SimpleString(text), next)
        else if data[offset] == '-' then Reply(Error(text), next)
        else if !IsNumber(text) then Unreadable
        else
          var number := NumberOf(text);
          if data[offset] == ':' then Reply(Integer(number), next)
          else if data[offset] == '$' then ReadString(data, next, number)
          else if data[offset] == '*' && number >= 0 then
            match ReadReplies(data, next, number)
            case Replies(responses, end) => Reply(Array(responses), end)
            case Garbled => Unreadable
          else Unreadable
  }

  function ReadString(data: string, offset: nat, length: int): (r: Reply)
    requires offset <= |data|
    ensures r.Reply? ==> offset <= r.next <= |data|
  {
    if length == -1 then Reply(NullBulkString, offset)
    else if length < 0 || offset + length + 2 > |data| then Unreadable
    else if data[offset + length..offset + length + 2] != "\r\n" then Unreadable
    else Reply(BulkString(data[offset..offset + length]), offset + length + 2)
  }

  function ReadReplies(data: string, offset: nat, count: nat): (r: Replies)
    requires offset <= |data|
    ensures r.Replies? ==> |r.responses| == count && offset <= r.next <= |data|
    decreases if offset < |data| then |data| - offset else 0, 1, count
  {
    if count == 0 then Replies([], offset)
    else
      match ReadReply(data, offset)
      case Unreadable => Garbled
      case Reply(first, next) =>
        match ReadReplies(data, next, count - 1)
        case Garbled => Garbled
        case Replies(rest, end) => Replies([first] + rest, end)
  }

  // ----- it reads what is printed

  /** A response that can be printed on its lines: what is no bulk string holds no line end. */
  predicate Printable(r: Response) {
    match r
    case SimpleString(value) => OneLine(value)
    case Error(value) => OneLine(value)
    case Array(items) => forall i | 0 <= i < |items| :: Printable(items[i])
    case _ => true
  }

  lemma {:induction false} FindAfterText(data: string, offset: nat, text: string, rest: string)
    requires OneLine(text) && GoesOn(data, offset, text + CRLF, rest)
    ensures FindLineEnd(data, offset) == At(offset + |text|)
    decreases |text|
  {
    var tail := data[offset..];
    assert tail == text + (CRLF + rest);
    if text == "" {
      assert tail[0] == '\r' && tail[1] == '\n';
    } else {
      assert tail[0] == text[0] && tail[1] == if |text| > 1 then text[1] else '\r';
      assert data[offset] == tail[0] && data[offset + 1] == tail[1];
      assert data[offset + 1..] == tail[1..] == text[1..] + CRLF + rest;
      FindAfterText(data, offset + 1, text[1..], rest);
    }
  }

  lemma LineReads(data: string, offset: nat, text: string, b: string, rest: string)
    requires OneLine(text) && GoesOn(data, offset, text + CRLF + b, rest)
    ensures ReadLine(data, offset) == Line(text, offset + |text| + 2)
    ensures GoesOn(data, offset + |text| + 2, b, rest)
  {
    Pass(data, offset, text + CRLF, b, rest);
    assert GoesOn(data, offset, text + CRLF, b + rest);
    FindAfterText(data, offset, text, b + rest);
    assert data[offset..offset + |text|] == (text + CRLF)[..|text|];
  }

  lemma {:induction false} FoundLineIsOne(data: string, offset: nat)
    requires FindLineEnd(data, offset).At?
    ensures OneLine(data[offset..FindLineEnd(data, offset).index])
    decreases |data| - offset
  {
    var end := FindLineEnd(data, offset).index;
    if offset < end {
      FoundLineIsOne(data, offset + 1);
      var text, rest := data[offset..end], data[offset + 1..end];
      assert text == [data[offset]] + rest;
      forall i | 0 <= i < |text| - 1 ensures !(text[i] == '\r' && text[i + 1] == '\n') {
        assert text[i + 1] == rest[i] && (i > 0 ==> text[i] == rest[i - 1]);
      }
    }
  }

  lemma NumberPrints(v: int)
    ensures IsNumber(PrintInteger(v)) && NumberOf(PrintInteger(v)) == v && OneLine(PrintInteger(v))
  {
    var digits := Decimal(if v < 0 then -v else v);
    DecimalValue(if v < 0 then -v else v);
    assert IsDigit(digits[0]);
    if v < 0 {
      assert PrintInteger(v)[1..] == digits;
    }
    forall i | 0 <= i < |PrintInteger(v)| ensures PrintInteger(v)[i] != '\r' {
      assert i > 0 || v >= 0 ==> IsDigit(digits[if v < 0 then i - 1 else i]);
    }
  }

  lemma TypeByte(data: string, offset: nat, kind: char, b: string, rest: string)
    requires GoesOn(data, offset, [kind] + b, rest)
    ensures offset < |data| && data[offset] == kind && GoesOn(data, offset + 1, b, rest)
  {
    Pass(data, offset, [kind], b, rest);
    assert data[offset..offset + 1][0] == kind;
  }

  lemma StringReads(data: string, offset: nat, value: string, rest: string)
    requires GoesOn(data, offset, value + CRLF, rest)
    ensures offset <= |data| && ReadString(data, offset, |value|) == Reply(BulkString(value), offset + |value| + 2)
  {
    Pass(data, offset, value, CRLF, rest);
    Pass(data, offset + |value|, CRLF, "", rest) by { assert CRLF + "" == CRLF; }
  }

  /** A printable response, printed in the middle of any data, is read back and ends where its printing
      ends. */
  lemma {:induction false} PrintedIsRead(data: string, offset: nat, r: Response, rest: string)
    requires Printable(r) && GoesOn(data, offset, Serialize(r), rest)
    ensures ReadReply(data, offset) == Reply(r, offset + |Serialize(r)|)
    decreases r, if r.Array? then |r.items| + 2 else 0
  {
    hide FindLineEnd, PrintInteger, Decimal, GoesOn, ReadLine, IsNumber, NumberOf, OneLine, SerializeItems, ReadString;
    if r.Array? {
      var count, items := Decimal(|r.items|), SerializeItems(r, 0);
      LengthPrints(|r.items|);
      assert Serialize(r) == ['*'] + (count + CRLF + items);
      TypeByte(data, offset, '*', count + CRLF + items, rest);
      LineReads(data, offset + 1, count, items, rest);
      ItemsAreRead(data, offset + 1 + |count| + 2, r, 0, rest);
      assert r.items[0..] == r.items;
    } else if r.BulkString? || r.NullBulkString? {
      PrintedStringIsRead(data, offset, r, rest);
    } else {
      PrintedLineIsRead(data, offset, r, rest);
    }
  }

  lemma PrintedLineIsRead(data: string, offset: nat, r: Response, rest: string)
    requires r.SimpleString? || r.Error? || r.Integer?
    requires Printable(r) && GoesOn(data, offset, Serialize(r), rest)
    ensures ReadReply(data, offset) == Reply(r, offset + |Serialize(r)|)
  {
    hide FindLineEnd, PrintInteger, GoesOn, ReadLine, IsNumber, NumberOf, OneLine;
    if r.Integer? {
      NumberPrints(r.number);
    }
    var kind := if r.SimpleString? then '+' else if r.Error? then '-' else ':';
    var text := if r.Integer? then PrintInteger(r.number) else r.value;
    assert Serialize(r) == [kind] + (text + CRLF + "");
    TypeByte(data, offset, kind, text + CRLF + "", rest);
    LineReads(data, offset + 1, text, "", rest);
  }

  lemma PrintedStringIsRead(data: string, offset: nat, r: Response, rest: string)
    requires r.BulkString? || r.NullBulkString?
    requires GoesOn(data, offset, Serialize(r), rest)
    ensures ReadReply(data, offset) == Reply(r, offset + |Serialize(r)|)
  {
    hide FindLineEnd, Decimal, GoesOn, ReadLine, IsNumber, NumberOf, OneLine, ReadString;
    match r
    case BulkString(value) =>
      LengthPrints(|value|);
      assert Serialize(r) == ['$'] + (Decimal(|value|) + CRLF + (value + CRLF));
      TypeByte(data, offset, '$', Decimal(|value|) + CRLF + (value + CRLF), rest);
      LineReads(data, offset + 1, Decimal(|value|), value + CRLF, rest);
      StringReads(data, offset + 1 + |Decimal(|value|)| + 2, value, rest);
    case NullBulkString =>
      NullPrints();
      assert Serialize(r) == ['$'] + ("-1" + CRLF + "");
      TypeByte(data, offset, '$', "-1" + CRLF + "", rest);
      LineReads(data, offset + 1, "-1", "", rest);
      NullReads(data, offset + 5);
  }

  lemma LengthPrints(n: nat)
    ensures IsNumber(Decimal(n)) && NumberOf(Decimal(n)) == n && OneLine(Decimal(n))
  {
    NumberPrints(n);
  }

  lemma NullPrints()
    ensures IsNumber("-1") && NumberOf("-1") == -1 && OneLine("-1")
  {
    NumberPrints(-1);
    assert Decimal(1) == "1";
  }

  lemma NullReads(data: string, offset: nat)
    requires offset <= |data|
    ensures ReadString(data, offset, -1) == Reply(NullBulkString, offset)
  {
  }

  lemma {:induction false} ItemsAreRead(data: string, offset: nat, r: Response, i: nat, rest: string)
    requires r.Array? && i <= |r.items| && forall j | 0 <= j < |r.items| :: Printable(r.items[j])
    requires GoesOn(data, offset, SerializeItems(r, i), rest)
    ensures offset <= |data|
    ensures ReadReplies(data, offset, |r.items| - i) == Replies(r.items[i..], offset + |SerializeItems(r, i)|)
    decreases r, |r.items| + 1 - i
  {
    hide Serialize, ReadReply, Printable;
    if i < |r.items| {
      var first, more := Serialize(r.items[i]), SerializeItems(r, i + 1);
      Pass(data, offset, first, more, rest);
      PrintedIsRead(data, offset, r.items[i], more + rest);
      ItemsAreRead(data, offset + |first|, r, i + 1, rest);
      assert [r.items[i]] + r.items[i + 1..] == r.items[i..];
    }
  }

  /** Nothing the reader returns holds a line end outside a bulk string. */
  lemma {:induction false} ReadIsPrintable(data: string, offset: nat)
    ensures ReadReply(data, offset).Reply? ==> Printable(ReadReply(data, offset).response)
    decreases if offset < |data| then |data| - offset else 0, 0, 0
  {
    hide OneLine, IsNumber, NumberOf, FindLineEnd;
    if offset < |data| && ReadLine(data, offset + 1).Line? {
      FoundLineIsOne(data, offset + 1);
      var line := ReadLine(data, offset + 1);
      if data[offset] == '*' && IsNumber(line.text) && NumberOf(line.text) >= 0 {
        ReadArePrintable(data, line.next, NumberOf(line.text));
        var replies := ReadReplies(data, line.next, NumberOf(line.text));
        if replies.Replies? {
          assert Printable(Array(replies.responses));
        }
      }
    }
  }

  lemma {:induction false} ReadArePrintable(data: string, offset: nat, count: nat)
    requires offset <= |data|
    ensures var r := ReadReplies(data, offset, count);
            r.Replies? ==> forall i | 0 <= i < |r.responses| :: Printable(r.responses[i])
    decreases if offset < |data| then |data| - offset else 0, 1, count
  {
    hide ReadReply, Printable;
    if count > 0 && ReadReply(data, offset).Reply? {
      ReadIsPrintable(data, offset);
      ReadArePrintable(data, ReadReply(data, offset).next, count - 1);
    }
  }

  /** A response, in the middle of any data, is read back if and only if it is printable. Different
      printable responses are therefore printed differently. */
  lemma PrintedIsReadIff(data: string, offset: nat, r: Response, rest: string)
    requires GoesOn(data, offset, Serialize(r), rest)
    ensures ReadReply(data, offset) == Reply(r, offset + |Serialize(r)|) <==> Printable(r)
  {
    hide ReadReply, Serialize, Printable, GoesOn;
    if Printable(r) {
      PrintedIsRead(data, offset, r, rest);
    }
    ReadIsPrintable(data, offset);
  }
}
