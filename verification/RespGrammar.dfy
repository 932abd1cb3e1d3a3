/** What a RESP message is, said without the parser; the parser accepts exactly these messages, at their values. */
module RespGrammar {
  import opened Common
  import opened Numerals
  import opened Resp

  ghost predicate OneLine(text: string) {
    forall i :: 0 <= i && i + 1 < |text| ==> !(text[i] == '\r' && text[i + 1] == '\n')
  }

  /** A type byte, a text without a line end, and a line end. */
  ghost predicate IsLine(s: string, c: char, text: string) {
    s == [c] + text + "\r\n" && OneLine(text)
  }

  ghost predicate Numeral(num: string, n: int) {
    Denotes(num, n) && -0x7fff_ffff <= n <= 0x7fff_ffff
  }

  function Joined(parts: seq<string>): string {
    if parts == [] then "" else parts[0] + Joined(parts[1..])
  }

  ghost predicate IsMessage(s: string, v: RespValue)
    decreases v
  {
    match v
    case SimpleString(text) => IsLine(s, '+', text)
    case Error(text) => IsLine(s, '-', text)
    case Integer(n) => exists num :: Numeral(num, n) && s == ":" + num + "\r\n"
    case BulkString(text) => exists num :: Numeral(num, |text|) && s == "$" + num + "\r\n" + text + "\r\n"
    case NullBulk => exists num :: Numeral(num, -1) && s == "$" + num + "\r\n"
    case NullArray => exists num :: Numeral(num, -1) && s == "*" + num + "\r\n"
    case Array(items) =>
      exists num, parts: seq<string> ::
        && Numeral(num, |items|) && |parts| == |items|
        && s == "*" + num + "\r\n" + Joined(parts)
        && forall i :: 0 <= i < |items| ==> IsMessage(parts[i], items[i])
  }

  // ---------- Lines and headers ----------

  /** The first line end after the type byte. */
  lemma LineFound(c: char, text: string, more: string)
    requires c != '\r' && OneLine(text)
    ensures var buf := [c] + text + "\r\n" + more; FindCrlf(buf) == Some(1 + |text|) && buf[1..1 + |text|] == text
  {
    forall i | 0 <= i < |text| ensures !IsCrlf(text, i) { }
    LineEnds(c, text, more);
  }

  lemma {:induction false} LineRead(buf: string, p: nat)
    requires buf != "" && buf[0] != '\r' && FindCrlf(buf) == Some(p)
    ensures 1 <= p && IsLine(buf[..p + 2], buf[0], buf[1..p])
  {
    assert buf[..p + 2] == [buf[0]] + buf[1..p] + "\r\n";
    forall i | 0 <= i && i + 1 < |buf[1..p]| ensures !(buf[1..p][i] == '\r' && buf[1..p][i + 1] == '\n') {
      assert !IsCrlf(buf, i + 1);
    }
  }

  lemma NumeralIsOneLine(num: string, n: int)
    requires Denotes(num, n)
    ensures OneLine(num)
  {
  }

  lemma HeaderFound(c: char, num: string, n: int, more: string)
    requires c != '\r' && Numeral(num, n)
    ensures ReadHeader([c] + num + "\r\n" + more) == Header(n, |num| + 3)
  {
    NumeralIsOneLine(num, n);
    LineFound(c, num, more);
    ParseIntMeans(num, n);
  }

  lemma HeaderRead(buf: string)
    requires buf != "" && buf[0] != '\r' && ReadHeader(buf).Header?
    ensures var h := ReadHeader(buf); Numeral(buf[1..h.end - 2], h.n) && buf[..h.end] == [buf[0]] + buf[1..h.end - 2] + "\r\n"
  {
    var h := ReadHeader(buf);
    LineRead(buf, h.end - 2);
    ParseIntMeans(buf[1..h.end - 2], h.n);
  }

  // ---------- Every message parses to its value ----------

  lemma {:induction false} MessageParses(s: string, v: RespValue, more: string)
    requires IsMessage(s, v)
    ensures Parse(s + more) == Done(v, |s|) && 0 < |s|
    decreases v
  {
    match v {
      case SimpleString(text) => LineParses('+', text, more);
      case Error(text) => LineParses('-', text, more);
      case Integer(n) =>
        var num :| Numeral(num, n) && s == ":" + num + "\r\n";
        IntegerParses(num, n, more);
      case BulkString(text) =>
        var num :| Numeral(num, |text|) && s == "$" + num + "\r\n" + text + "\r\n";
        BulkParses(num, text, more);
      case NullBulk =>
        var num :| Numeral(num, -1) && s == "$" + num + "\r\n";
        NullParses('$', num, more);
      case NullArray =>
        var num :| Numeral(num, -1) && s == "*" + num + "\r\n";
        NullParses('*', num, more);
      case Array(items) =>
        var num, parts: seq<string> :|
          && Numeral(num, |items|) && |parts| == |items|
          && s == "*" + num + "\r\n" + Joined(parts)
          && forall i :: 0 <= i < |items| ==> IsMessage(parts[i], items[i]);
        forall i | 0 <= i < |items| ensures Reads(parts[i], items[i]) {
          forall rest ensures Parse(parts[i] + rest) == Done(items[i], |parts[i]|) { MessageParses(parts[i], items[i], rest); }
        }
        WholeArrayParses(num, parts, items, more);
    }
  }

  lemma {:induction false} WholeArrayParses(num: string, parts: seq<string>, items: seq<RespValue>, more: string)
    requires Numeral(num, |items|) && |parts| == |items|
    requires forall i :: 0 <= i < |items| ==> Reads(parts[i], items[i])
    ensures var s := "*" + num + "\r\n" + Joined(parts); Parse(s + more) == Done(Array(items), |s|)
  {
    ElementsParse(parts, items, more, 0);
    assert items + [] == items;
    ArrayParses(num, |items|, Joined(parts) + more);
    Associative("*" + num + "\r\n", Joined(parts), more);
  }

  lemma {:induction false} LineParses(c: char, text: string, more: string)
    requires c in {'+', '-'} && OneLine(text)
    ensures Parse([c] + text + "\r\n" + more) == Done(if c == '+' then SimpleString(text) else Error(text), |text| + 3)
  {
    LineFound(c, text, more);
  }

  lemma {:induction false} IntegerParses(num: string, n: int, more: string)
    requires Numeral(num, n)
    ensures Parse(":" + num + "\r\n" + more) == Done(Integer(n), |num| + 3)
  {
    HeaderFound(':', num, n, more);
    assert [':'] + num + "\r\n" + more == ":" + num + "\r\n" + more;
  }

  lemma {:induction false} NullParses(c: char, num: string, more: string)
    requires c in {'$', '*'} && Numeral(num, -1)
    ensures Parse([c] + num + "\r\n" + more) == Done(if c == '$' then NullBulk else NullArray, |num| + 3)
  {
    HeaderFound(c, num, -1, more);
  }

  lemma {:induction false} BulkParses(num: string, text: string, more: string)
    requires Numeral(num, |text|)
    ensures var s := "$" + num + "\r\n" + text + "\r\n"; Parse(s + more) == Done(BulkString(text), |s|)
  {
    var header, rest := "$" + num + "\r\n", text + "\r\n" + more;
    var buf := "$" + num + "\r\n" + text + "\r\n" + more;
    HeaderFound('$', num, |text|, rest);
    assert buf == ['$'] + num + "\r\n" + rest;
    assert buf == header + rest && |header| == |num| + 3;
    assert buf[|header|..|header| + |text|] == text;
    assert IsCrlf(buf, |header| + |text|);
  }

  lemma {:induction false} ArrayParses(num: string, count: nat, rest: string)
    requires Numeral(num, count)
    ensures Parse("*" + num + "\r\n" + rest) == AsArray(ParseElements(rest, count), |num| + 3)
  {
    var header := "*" + num + "\r\n";
    HeaderFound('*', num, count, rest);
    assert ['*'] + num + "\r\n" + rest == header + rest;
    ArrayAfterHeader(header, rest, count);
  }

  /** Wherever it stands, the piece parses to the value. */
  ghost predicate Reads(part: string, v: RespValue) {
    forall more :: Parse(part + more) == Done(v, |part|)
  }

  lemma {:induction false} ElementsParse(parts: seq<string>, items: seq<RespValue>, more: string, left: nat)
    requires |parts| == |items| && forall i :: 0 <= i < |items| ==> Reads(parts[i], items[i])
    ensures ParseElements(Joined(parts) + more, |parts| + left) == Prepend(items, |Joined(parts)|, ParseElements(more, left))
    decreases |items|
  {
    if items == [] {
      assert Joined(parts) + more == more;
      NothingBefore(ParseElements(more, left));
    } else {
      ElementsParse(parts[1..], items[1..], more, left);
      OnePieceMore(parts, items, more, |parts| + left, ParseElements(more, left));
    }
  }

  lemma {:induction false} OnePieceMore(parts: seq<string>, items: seq<RespValue>, more: string, count: nat, after: Elements)
    requires parts != [] && items != [] && Reads(parts[0], items[0]) && count > 0
    requires ParseElements(Joined(parts[1..]) + more, count - 1) == Prepend(items[1..], |Joined(parts[1..])|, after)
    ensures ParseElements(Joined(parts) + more, count) == Prepend(items, |Joined(parts)|, after)
  {
    Associative(parts[0], Joined(parts[1..]), more);
    FirstPart(parts[0], items[0], Joined(parts[1..]) + more, count);
    PrependTwice([items[0]], |parts[0]|, items[1..], |Joined(parts[1..])|, after);
    assert items == [items[0]] + items[1..];
  }

  lemma NothingBefore(es: Elements)
    ensures Prepend([], 0, es) == es
  {
    if es.All? { assert [] + es.items == es.items; }
  }

  /** The first piece is read, and the others are read after it. */
  lemma {:induction false} FirstPart(part: string, v: RespValue, rest: string, count: nat)
    requires Reads(part, v) && count > 0
    ensures ParseElements(part + rest, count) == Prepend([v], |part|, ParseElements(rest, count - 1))
  {
    FirstElement(part, rest, count);
  }

  // ---------- Whatever parses is a message ----------

  lemma {:induction false} ParsedIsMessage(buf: string)
    requires Parse(buf).Done?
    ensures var r := Parse(buf); IsMessage(buf[..r.size], r.value)
    decreases |buf|, 1
  {
    var r := Parse(buf);
    match buf[0] {
      case '+' => LineRead(buf, r.size - 2);
      case '-' => LineRead(buf, r.size - 2);
      case ':' => HeaderRead(buf);
      case '$' => ParsedIsBulk(buf);
      case '*' => ParsedIsArray(buf);
    }
  }

  lemma {:induction false} ParsedIsBulk(buf: string)
    requires buf != "" && buf[0] == '$' && ParseBulkString(buf).Done?
    ensures var r := ParseBulkString(buf); IsMessage(buf[..r.size], r.value)
  {
    HeaderRead(buf);
    var h := ReadHeader(buf);
    var num := buf[1..h.end - 2];
    if h.n >= 0 {
      var text := buf[h.end..h.end + h.n];
      assert buf[..h.end + h.n + 2] == "$" + num + "\r\n" + text + "\r\n";
    }
  }

  lemma {:induction false} ParsedIsArray(buf: string)
    requires buf != "" && buf[0] == '*' && ParseArray(buf).Done?
    ensures var r := ParseArray(buf); IsMessage(buf[..r.size], r.value)
    decreases |buf|, 0
  {
    HeaderRead(buf);
    var h := ReadHeader(buf);
    if h.n >= 0 {
      var num, es := buf[1..h.end - 2], ParseElements(buf[h.end..], h.n);
      var parts := ParsedElements(buf[h.end..], h.n);
      PrefixInTwo(buf, h.end, es.size);
      assert buf[..h.end] == "*" + num + "\r\n";
    }
  }

  lemma PrefixInTwo(buf: string, p: nat, n: nat)
    requires p + n <= |buf|
    ensures buf[..p + n] == buf[..p] + buf[p..][..n]
  {
  }

  /** The pieces that the elements were parsed from, one after the other. */
  lemma {:induction false} ParsedElements(buf: string, count: nat) returns (parts: seq<string>)
    requires ParseElements(buf, count).All?
    ensures var es := ParseElements(buf, count);
            && |parts| == count == |es.items| && Joined(parts) == buf[..es.size]
            && forall i :: 0 <= i < count ==> IsMessage(parts[i], es.items[i])
    decreases |buf|, 2, count
  {
    if count == 0 {
      parts := [];
    } else {
      var e := Parse(buf);
      ParsedIsMessage(buf);
      var rest := ParsedElements(buf[e.size..], count - 1);
      parts := [buf[..e.size]] + rest;
      var es := ParseElements(buf, count);
      PrefixInTwo(buf, e.size, es.size - e.size);
      assert parts[1..] == rest;
    }
  }

  /**
   * The parser accepts exactly the messages: it yields a value and a size just when the first so many bytes
   * are a message with that value.
   */
  lemma {:induction false} ParsesExactly(buf: string, v: RespValue, size: nat)
    ensures Parse(buf) == Done(v, size) <==> size <= |buf| && IsMessage(buf[..size], v)
  {
    if Parse(buf) == Done(v, size) {
      ParsedIsMessage(buf);
    }
    if size <= |buf| && IsMessage(buf[..size], v) {
      MessageParses(buf[..size], v, buf[size..]);
      assert buf == buf[..size] + buf[size..];
    }
  }

  // ---------- A writer for every value ----------

  function Encode(v: RespValue): string {
    match v
    case SimpleString(text) => "+" + text + "\r\n"
    case Error(text) => "-" + text + "\r\n"
    case Integer(n) => ":" + ToString(n) + "\r\n"
    case BulkString(text) => "$" + ToString(|text|) + "\r\n" + text + "\r\n"
    case NullBulk => "$-1\r\n"
    case NullArray => "*-1\r\n"
    case Array(items) => "*" + ToString(|items|) + "\r\n" + EncodeAll(items)
  }

  function EncodeAll(items: seq<RespValue>): string {
    if items == [] then "" else Encode(items[0]) + EncodeAll(items[1..])
  }

  /** No line holds a line end, and all numbers and lengths fit an `int`. */
  ghost predicate Writable(v: RespValue) {
    match v
    case SimpleString(text) => OneLine(text)
    case Error(text) => OneLine(text)
    case Integer(n) => -0x7fff_ffff <= n <= 0x7fff_ffff
    case BulkString(text) => |text| <= 0x7fff_ffff
    case NullBulk => true
    case NullArray => true
    case Array(items) => |items| <= 0x7fff_ffff && forall i :: 0 <= i < |items| ==> Writable(items[i])
  }

  lemma {:induction false} WritableMeansMessage(v: RespValue)
    requires Writable(v)
    ensures IsMessage(Encode(v), v)
    decreases v
  {
    match v {
      case SimpleString(text) => assert "+" + text + "\r\n" == ['+'] + text + "\r\n";
      case Error(text) => assert "-" + text + "\r\n" == ['-'] + text + "\r\n";
      case Integer(n) => PrintIsCanonical(n);
      case BulkString(text) => PrintIsCanonical(|text|);
      case NullBulk => MinusOne("$");
      case NullArray => MinusOne("*");
      case Array(items) =>
        PrintIsCanonical(|items|);
        var parts := EncodedParts(items);
        assert Numeral(ToString(|items|), |items|);
        assert Encode(v) == "*" + ToString(|items|) + "\r\n" + Joined(parts);
    }
  }

  lemma MinusOne(c: string)
    ensures Numeral("-1", -1) && c + "-1\r\n" == c + "-1" + "\r\n"
  {
    PrintIsCanonical(-1);
    assert ToString(-1) == "-1";
  }

  lemma {:induction false} EncodedParts(items: seq<RespValue>) returns (parts: seq<string>)
    requires forall i :: 0 <= i < |items| ==> Writable(items[i])
    ensures |parts| == |items| && Joined(parts) == EncodeAll(items)
    ensures forall i :: 0 <= i < |items| ==> IsMessage(parts[i], items[i])
    decreases items
  {
    if items == [] {
      parts := [];
    } else {
      WritableMeansMessage(items[0]);
      var rest := EncodedParts(items[1..]);
      parts := [Encode(items[0])] + rest;
      assert parts[1..] == rest;
    }
  }

  lemma {:induction false} MessageMeansWritable(s: string, v: RespValue)
    requires IsMessage(s, v)
    ensures Writable(v)
    decreases v
  {
    if v.Array? {
      var num, parts: seq<string> :|
        && Numeral(num, |v.items|) && |parts| == |v.items|
        && s == "*" + num + "\r\n" + Joined(parts)
        && forall i :: 0 <= i < |v.items| ==> IsMessage(parts[i], v.items[i]);
      forall i | 0 <= i < |v.items| ensures Writable(v.items[i]) {
        MessageMeansWritable(parts[i], v.items[i]);
      }
    }
  }

  /** Any value, however nested, comes back from its encoding if and only if it can be written at all. */
  lemma {:induction false} RoundTrip(v: RespValue, more: string)
    ensures Parse(Encode(v) + more) == Done(v, |Encode(v)|) <==> Writable(v)
  {
    if Writable(v) {
      WritableMeansMessage(v);
      MessageParses(Encode(v), v, more);
    }
    if Parse(Encode(v) + more) == Done(v, |Encode(v)|) {
      ParsedIsMessage(Encode(v) + more);
      MessageMeansWritable((Encode(v) + more)[..|Encode(v)|], v);
    }
  }

  // ---------- What is refused ----------

  /** An unknown type byte is refused at once. */
  lemma {:induction false} UnknownByteFails(buf: string)
    requires buf != "" && buf[0] !in {'+', '-', ':', '$', '*'}
    ensures Parse(buf).Failed?
  {
  }

  /** A header that is no numeral is refused, or overflows; and so is a length or count below -1. */
  lemma {:induction false} BadHeaderFails(c: char, text: string, more: string)
    requires c in {':', '$', '*'} && OneLine(text) && forall n :: !Numeral(text, n)
    ensures var r := Parse([c] + text + "\r\n" + more);
            if TooLarge(Unsigned(text)) then r == Overflowed else r.Failed?
  {
    var buf := [c] + text + "\r\n" + more;
    LineFound(c, text, more);
    var n := if ParseInt(text).Number? then ParseInt(text).n else 0;
    ParseIntMeans(text, n);
    assert !Numeral(text, n);
    assert ReadHeader(buf) == if TooLarge(Unsigned(text)) then Big else Bad;
    match c {
      case ':' => assert Parse(buf) == ParseInteger(buf);
      case '$' => assert Parse(buf) == ParseBulkString(buf);
      case '*' => assert Parse(buf) == ParseArray(buf);
    }
  }

  lemma {:induction false} NegativeLengthFails(c: char, num: string, n: int, more: string)
    requires c in {'$', '*'} && Numeral(num, n) && n < -1
    ensures Parse([c] + num + "\r\n" + more).Failed?
  {
    HeaderFound(c, num, n, more);
  }

  /** A bulk string whose text is not followed by a line end is refused; one that is not all there needs more. */
  lemma {:induction false} BadTerminatorFails(num: string, n: nat, rest: string)
    requires Numeral(num, n)
    ensures var r := Parse("$" + num + "\r\n" + rest);
            && (|rest| < n + 2 ==> r == NeedMore)
            && (|rest| >= n + 2 && rest[n..n + 2] != "\r\n" ==> r.Failed?)
  {
    var header := "$" + num + "\r\n";
    HeaderFound('$', num, n, rest);
    assert ['$'] + num + "\r\n" + rest == header + rest && |header| == |num| + 3;
    if |rest| >= n + 2 && rest[n..n + 2] != "\r\n" {
      assert (header + rest)[|header| + n] == rest[n] && (header + rest)[|header| + n + 1] == rest[n + 1];
      assert rest[n..n + 2] == [rest[n], rest[n + 1]];
    }
  }

  /** A line that has not ended needs more bytes. */
  lemma {:induction false} UnendedLineNeedsMore(buf: string)
    requires buf == "" || (buf[0] in {'+', '-', ':', '$', '*'} && OneLine(buf))
    ensures Parse(buf) == NeedMore
  {
    if buf != "" {
      forall i | 0 <= i < |buf| ensures !IsCrlf(buf, i) { }
    }
  }

  /** An array gets as far as its first element that does not parse, and fails, overflows or waits with it. */
  lemma {:induction false} ArrayStopsWithElement(num: string, count: nat, parts: seq<string>, items: seq<RespValue>, rest: string)
    requires Numeral(num, count) && |parts| == |items| < count && !Parse(rest).Done?
    requires forall i :: 0 <= i < |items| ==> IsMessage(parts[i], items[i])
    ensures var (r, e) := (Parse("*" + num + "\r\n" + (Joined(parts) + rest)), Parse(rest));
            (r.Failed? <==> e.Failed?) && (r == NeedMore <==> e == NeedMore) && (r == Overflowed <==> e == Overflowed)
  {
    forall i | 0 <= i < |items| ensures Reads(parts[i], items[i]) {
      forall more ensures Parse(parts[i] + more) == Done(items[i], |parts[i]|) { MessageParses(parts[i], items[i], more); }
    }
    ElementsStop(parts, items, rest, count);
    ArrayParses(num, count, Joined(parts) + rest);
  }

  lemma {:induction false} ElementsStop(parts: seq<string>, items: seq<RespValue>, rest: string, count: nat)
    requires |parts| == |items| < count && !Parse(rest).Done?
    requires forall i :: 0 <= i < |items| ==> Reads(parts[i], items[i])
    ensures var (es, e) := (ParseElements(Joined(parts) + rest, count), Parse(rest));
            (es.Broken? <==> e.Failed?) && (es == MissingBytes <==> e == NeedMore) && (es == TooBig <==> e == Overflowed)
  {
    ElementsParse(parts, items, rest, count - |parts|);
    StopsAtOnce(rest, count - |parts|);
    PrependStops(items, |Joined(parts)|, ParseElements(rest, count - |parts|));
  }

  lemma {:induction false} StopsAtOnce(rest: string, count: nat)
    requires count > 0 && !Parse(rest).Done?
    ensures var (es, e) := (ParseElements(rest, count), Parse(rest));
            (es.Broken? <==> e.Failed?) && (es == MissingBytes <==> e == NeedMore) && (es == TooBig <==> e == Overflowed)
  {
  }

  lemma PrependStops(items: seq<RespValue>, size: nat, es: Elements)
    ensures var r := Prepend(items, size, es);
            (r.Broken? <==> es.Broken?) && (r == MissingBytes <==> es == MissingBytes) && (r == TooBig <==> es == TooBig)
  {
  }
}
