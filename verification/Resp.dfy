/** The RESP parser and serializer: a prefix code, and inverses of each other. */
module Resp {
  import opened Common
  import opened Numerals

  const CRLF := "\r\n"

  datatype RespValue =
    | SimpleString(text: string)
    | Error(text: string)
    | Integer(n: int)
    | BulkString(text: string)
    | NullBulk
    | Array(items: seq<RespValue>)
    | NullArray

  /**
   * The result of a parse: more bytes are needed, a value and the bytes it took, an error value
   * without a size (which stops an enclosing array), or an `int` overflow in a numeral.
   */
  datatype Outcome = NeedMore | Done(value: RespValue, size: nat) | Failed(message: string) | Overflowed

  /** The same for a run of array elements. */
  datatype Elements = MissingBytes | All(items: seq<RespValue>, size: nat) | Broken(message: string) | TooBig

  /** The first "\r\n" of the buffer, if any. */
  function FindCrlf(buf: string): (p: Option<nat>)
    ensures p.Some? ==> p.value + 2 <= |buf| && IsCrlf(buf, p.value)
    ensures p.Some? ==> forall i :: 0 <= i < p.value ==> !IsCrlf(buf, i)
    ensures p.None? ==> forall i :: 0 <= i < |buf| ==> !IsCrlf(buf, i)
  {
    if |buf| < 2 then None
    else if buf[0] == '\r' && buf[1] == '\n' then Some(0)
    else
      match FindCrlf(buf[1..])
      case None => assert forall i :: 0 < i < |buf| ==> IsCrlf(buf, i) == IsCrlf(buf[1..], i - 1); None
      case Some(p) => assert forall i :: 0 < i < |buf| ==> IsCrlf(buf, i) == IsCrlf(buf[1..], i - 1); Some(p + 1)
  }

  predicate IsCrlf(buf: string, i: int) {
    0 <= i && i + 1 < |buf| && buf[i] == '\r' && buf[i + 1] == '\n'
  }

  function Parse(buf: string): (r: Outcome)
    ensures r.Done? ==> 0 < r.size <= |buf|
    decreases |buf|, 1
  {
    if buf == "" then NeedMore
    else
      match buf[0]
      case '+' => ParseLine(buf)
      case '-' => ParseLine(buf)
      case ':' => ParseInteger(buf)
      case '$' => ParseBulkString(buf)
      case '*' => ParseArray(buf)
      case _ => Failed("ERR unknown RESP type byte")
  }

  /** Simple strings and errors: everything up to the first "\r\n". */
  function ParseLine(buf: string): (r: Outcome)
    requires buf != "" && (buf[0] == '+' || buf[0] == '-')
    ensures r.Done? ==> 0 < r.size <= |buf|
  {
    match FindCrlf(buf)
    case None => NeedMore
    case Some(p) => Done(if buf[0] == '+' then SimpleString(buf[1..p]) else Error(buf[1..p]), p + 2)
  }

  /** The numeral between the type byte and the first "\r\n", and where the line ends. */
  datatype Header = Missing | Bad | Big | Header(n: int, end: nat)

  function ReadHeader(buf: string): (h: Header)
    requires buf != "" && buf[0] != '\r'
    ensures h.Header? ==> 3 <= h.end <= |buf|
  {
    match FindCrlf(buf)
    case None => Missing
    case Some(p) =>
      match ParseInt(buf[1..p])
      case Malformed => Bad
      case Overflow => Big
      case Number(n) => Header(n, p + 2)
  }

  function ParseInteger(buf: string): (r: Outcome)
    requires buf != "" && buf[0] == ':'
    ensures r.Done? ==> 0 < r.size <= |buf|
  {
    if |buf| < 3 then NeedMore
    else
      match ReadHeader(buf)
      case Missing => NeedMore
      case Bad => Failed("ERR invalid integer format")
      case Big => Overflowed
      case Header(n, end) => Done(Integer(n), end)
  }

  function ParseBulkString(buf: string): (r: Outcome)
    requires buf != "" && buf[0] == '$'
    ensures r.Done? ==> 0 < r.size <= |buf|
  {
    match ReadHeader(buf)
    case Missing => NeedMore
    case Bad => Failed("ERR invalid bulk string format")
    case Big => Overflowed
    case Header(length, start) =>
      if length == -1 then Done(NullBulk, start)
      else if length < 0 then Failed("ERR invalid bulk string format")
      else
        var total := start + length + 2;
        if |buf| < total then NeedMore
        else if !IsCrlf(buf, start + length) then Failed("ERR invalid bulk string format")
        else Done(BulkString(buf[start..start + length]), total)
  }

  function ParseArray(buf: string): (r: Outcome)
    requires buf != "" && buf[0] == '*'
    ensures r.Done? ==> 0 < r.size <= |buf|
    decreases |buf|, 0
  {
    match ReadHeader(buf)
    case Missing => NeedMore
    case Bad => Failed("ERR invalid array format")
    case Big => Overflowed
    case Header(count, start) =>
      if count == -1 then Done(NullArray, start)
      else if count < 0 then Failed("ERR invalid array format")
      else AsArray(ParseElements(buf[start..], count), start)
  }

  function AsArray(es: Elements, header: nat): Outcome {
    match es
    case MissingBytes => NeedMore
    case All(items, size) => Done(Array(items), header + size)
    case Broken(message) => Failed(message)
    case TooBig => Overflowed
  }

  function ParseElements(buf: string, count: nat): (r: Elements)
    ensures r.All? ==> r.size <= |buf| && |r.items| == count
    decreases |buf|, 2, count
  {
    if count == 0 then All([], 0)
    else
      match Parse(buf)
      case NeedMore => MissingBytes
      case Failed(_) => Broken("ERR invalid array element")
      case Overflowed => TooBig
      case Done(v, size) => Prepend([v], size, ParseElements(buf[size..], count - 1))
  }

  function Prepend(items: seq<RespValue>, size: nat, es: Elements): Elements {
    match es
    case All(more, rest) => All(items + more, size + rest)
    case other => other
  }

  // ---------- The parser as it runs ----------

  method ParseBuffer(buf: string) returns (r: Outcome)
    ensures r == Parse(buf)
    decreases |buf|, 2
  {
    if buf == "" {
      return NeedMore;
    }
    match buf[0] {
      case '+' => r := ParseLine(buf);
      case '-' => r := ParseLine(buf);
      case ':' => r := ParseInteger(buf);
      case '$' => r := ParseBulkString(buf);
      case '*' => r := ParseArrayBuffer(buf);
      case _ => r := Failed("ERR unknown RESP type byte");
    }
  }

  /** Parses one element after the other from where the last one ended. */
  method ParseArrayBuffer(buf: string) returns (r: Outcome)
    requires buf != "" && buf[0] == '*'
    ensures r == ParseArray(buf)
    decreases |buf|, 1
  {
    var pos := FindCrlf(buf);
    if pos.None? {
      return NeedMore;
    }
    var count := ParseStringAsInt(buf[1..pos.value]);
    if count.Malformed? {
      return Failed("ERR invalid array format");
    }
    if count.Overflow? {
      return Overflowed;
    }
    if count.n == -1 {
      return Done(NullArray, pos.value + 2);
    }
    if count.n < 0 {
      return Failed("ERR invalid array format");
    }
    r := ParseItems(buf, pos.value + 2, count.n);
  }

  /** The loop of `parse_array`: one element after the other, each from where the last one ended. */
  method ParseItems(buf: string, header: nat, count: nat) returns (r: Outcome)
    requires 0 < header <= |buf|
    ensures r == AsArray(ParseElements(buf[header..], count), header)
    decreases |buf|, 0
  {
    var currPos := header;
    var elements: seq<RespValue> := [];
    ghost var due := Pending(buf, header, header, [], count);
    NothingParsed(buf, header, count);
    for i := 0 to count
      invariant header <= currPos <= |buf|
      invariant Pending(buf, header, currPos, elements, count - i) == due
    {
      var element := ParseBuffer(buf[currPos..]);
      OneMoreElement(buf, header, currPos, elements, count - i, element);
      match element {
        case NeedMore => return NeedMore;
        case Failed(_) => return Failed("ERR invalid array element");
        case Overflowed => return Overflowed;
        case Done(v, size) =>
          elements := elements + [v];
          currPos := currPos + size;
      }
    }
    AllParsed(buf, header, currPos, elements);
    r := Done(Array(elements), currPos);
  }

  /** The result due when `elements` have been parsed up to p and so many are left. */
  function Pending(buf: string, header: nat, p: nat, elements: seq<RespValue>, left: nat): Outcome
    requires header <= p <= |buf|
  {
    AsArray(Prepend(elements, p - header, ParseElements(buf[p..], left)), header)
  }

  lemma {:induction false} NothingParsed(buf: string, header: nat, count: nat)
    requires header <= |buf|
    ensures Pending(buf, header, header, [], count) == AsArray(ParseElements(buf[header..], count), header)
  {
    var es := ParseElements(buf[header..], count);
    if es.All? { assert [] + es.items == es.items; }
  }

  lemma {:induction false} AllParsed(buf: string, header: nat, p: nat, elements: seq<RespValue>)
    requires header <= p <= |buf|
    ensures Pending(buf, header, p, elements, 0) == Done(Array(elements), p)
  {
    assert elements + [] == elements;
  }

  /** An element that parses moves from what is left to what is there; any other one decides the result. */
  lemma {:induction false} OneMoreElement(
      buf: string, header: nat, p: nat, elements: seq<RespValue>, left: nat, e: Outcome)
    requires header <= p <= |buf| && left > 0 && e == Parse(buf[p..])
    ensures Pending(buf, header, p, elements, left) ==
            match e
            case NeedMore => NeedMore
            case Failed(_) => Failed("ERR invalid array element")
            case Overflowed => Overflowed
            case Done(v, size) => Pending(buf, header, p + size, elements + [v], left - 1)
  {
    if e.Done? {
      RestOfRest(buf, p, e.size);
      PrependTwice(elements, p - header, [e.value], e.size, ParseElements(buf[p + e.size..], left - 1));
    }
  }

  lemma RestOfRest(buf: string, p: nat, n: nat)
    requires p + n <= |buf|
    ensures buf[p..][n..] == buf[p + n..]
  {
  }

  lemma PrependTwice(a: seq<RespValue>, m: nat, b: seq<RespValue>, n: nat, es: Elements)
    ensures Prepend(a, m, Prepend(b, n, es)) == Prepend(a + b, m + n, es)
  {
    if es.All? {
      assert a + (b + es.items) == (a + b) + es.items;
    }
  }

  // ---------- A prefix code ----------

  lemma {:induction false} CrlfIsFirst(buf: string, p: nat)
    requires IsCrlf(buf, p) && forall i :: 0 <= i < p ==> !IsCrlf(buf, i)
    ensures FindCrlf(buf) == Some(p)
  {
  }

  /** Where the first "\r\n" is in a prefix of the buffer. */
  lemma {:induction false} CrlfOfPrefix(buf: string, m: nat)
    requires m <= |buf|
    ensures FindCrlf(buf[..m]) == match FindCrlf(buf)
                                  case None => None
                                  case Some(p) => if p + 2 <= m then Some(p) else None
  {
    assert forall i :: 0 <= i < m - 1 ==> IsCrlf(buf[..m], i) == IsCrlf(buf, i);
    match FindCrlf(buf) {
      case None =>
      case Some(p) => if p + 2 <= m { assert IsCrlf(buf[..m], p); }
    }
  }

  lemma HeaderOfPrefix(buf: string, m: nat)
    requires 0 < m <= |buf| && buf[0] != '\r' && ReadHeader(buf).Header?
    ensures ReadHeader(buf[..m]) == if m < ReadHeader(buf).end then Missing else ReadHeader(buf)
  {
    CrlfOfPrefix(buf, m);
    var p := FindCrlf(buf).value;
    if p + 2 <= m { assert buf[..m][1..p] == buf[1..p]; }
  }

  /**
   * Cutting a complete message short leaves it incomplete, and cutting off what follows it changes
   * nothing: of all prefixes of the buffer, exactly those that contain the message parse, and to
   * that one value.
   */
  lemma {:induction false} PrefixCode(buf: string, m: nat)
    requires Parse(buf).Done? && m <= |buf|
    ensures Parse(buf[..m]) == if m < Parse(buf).size then NeedMore else Parse(buf)
    decreases |buf|, 1
  {
    if m > 0 {
      match buf[0] {
        case '*' => ArrayPrefix(buf, m);
        case '$' => BulkPrefix(buf, m);
        case ':' => HeaderOfPrefix(buf, m);
        case _ => LinePrefix(buf, m);
      }
    }
  }

  lemma LinePrefix(buf: string, m: nat)
    requires 0 < m <= |buf| && (buf[0] == '+' || buf[0] == '-') && ParseLine(buf).Done?
    ensures ParseLine(buf[..m]) == if m < ParseLine(buf).size then NeedMore else ParseLine(buf)
  {
    CrlfOfPrefix(buf, m);
    var p := FindCrlf(buf).value;
    if p + 2 <= m { assert buf[..m][1..p] == buf[1..p]; }
  }

  lemma BulkPrefix(buf: string, m: nat)
    requires 0 < m <= |buf| && buf[0] == '$' && ParseBulkString(buf).Done?
    ensures ParseBulkString(buf[..m]) == if m < ParseBulkString(buf).size then NeedMore else ParseBulkString(buf)
  {
    HeaderOfPrefix(buf, m);
    var h := ReadHeader(buf);
    if h.n >= 0 && h.end + h.n + 2 <= m {
      assert IsCrlf(buf[..m], h.end + h.n) == IsCrlf(buf, h.end + h.n);
      assert buf[..m][h.end..h.end + h.n] == buf[h.end..h.end + h.n];
    }
  }

  lemma {:induction false} ArrayPrefix(buf: string, m: nat)
    requires 0 < m <= |buf| && buf[0] == '*' && ParseArray(buf).Done?
    ensures ParseArray(buf[..m]) == if m < ParseArray(buf).size then NeedMore else ParseArray(buf)
    decreases |buf|, 0
  {
    HeaderOfPrefix(buf, m);
    var h := ReadHeader(buf);
    if h.n >= 0 && h.end <= m {
      ElementsPrefix(buf[h.end..], h.n, m - h.end);
      assert buf[h.end..][..m - h.end] == buf[..m][h.end..];
    }
  }

  lemma {:induction false} ElementsPrefix(buf: string, count: nat, m: nat)
    requires ParseElements(buf, count).All? && m <= |buf|
    ensures ParseElements(buf[..m], count) ==
            if m < ParseElements(buf, count).size then MissingBytes else ParseElements(buf, count)
    decreases |buf|, 2, count
  {
    if count > 0 {
      PrefixCode(buf, m);
      var size := Parse(buf).size;
      if size <= m {
        ElementsPrefix(buf[size..], count - 1, m - size);
        assert buf[..m][size..] == buf[size..][..m - size];
      }
    }
  }

  lemma {:induction false} CrlfStays(buf: string, more: string)
    requires FindCrlf(buf).Some?
    ensures FindCrlf(buf + more) == FindCrlf(buf)
  {
    var p := FindCrlf(buf).value;
    assert forall i :: 0 <= i <= p ==> IsCrlf(buf + more, i) == IsCrlf(buf, i);
    CrlfIsFirst(buf + more, p);
  }

  lemma HeaderStays(buf: string, more: string)
    requires buf != "" && buf[0] != '\r' && !ReadHeader(buf).Missing?
    ensures ReadHeader(buf + more) == ReadHeader(buf)
  {
    CrlfStays(buf, more);
    var p := FindCrlf(buf).value;
    assert (buf + more)[1..p] == buf[1..p];
  }

  /** Whatever a parse decides, short of asking for more bytes, it decides for every longer buffer too. */
  lemma {:induction false} Settled(buf: string, more: string)
    requires Parse(buf) != NeedMore
    ensures Parse(buf + more) == Parse(buf)
    decreases |buf|, 1
  {
    match buf[0] {
      case '+' => LineSettled(buf, more);
      case '-' => LineSettled(buf, more);
      case ':' => HeaderStays(buf, more);
      case '$' => BulkSettled(buf, more);
      case '*' => ArraySettled(buf, more);
      case _ =>
    }
  }

  lemma LineSettled(buf: string, more: string)
    requires buf != "" && (buf[0] == '+' || buf[0] == '-') && ParseLine(buf) != NeedMore
    ensures ParseLine(buf + more) == ParseLine(buf)
  {
    CrlfStays(buf, more);
    var p := FindCrlf(buf).value;
    assert (buf + more)[1..p] == buf[1..p];
  }

  lemma BulkSettled(buf: string, more: string)
    requires buf != "" && buf[0] == '$' && ParseBulkString(buf) != NeedMore
    ensures ParseBulkString(buf + more) == ParseBulkString(buf)
  {
    HeaderStays(buf, more);
    var h := ReadHeader(buf);
    if h.Header? && h.n >= 0 {
      assert IsCrlf(buf + more, h.end + h.n) == IsCrlf(buf, h.end + h.n);
      assert (buf + more)[h.end..h.end + h.n] == buf[h.end..h.end + h.n];
    }
  }

  lemma {:induction false} ArraySettled(buf: string, more: string)
    requires buf != "" && buf[0] == '*' && ParseArray(buf) != NeedMore
    ensures ParseArray(buf + more) == ParseArray(buf)
    decreases |buf|, 0
  {
    HeaderStays(buf, more);
    var h := ReadHeader(buf);
    if h.Header? && h.n >= 0 {
      RestOfSum(buf, more, h.end);
      ElementsSettled(buf[h.end..], h.n, more);
    }
  }

  lemma {:induction false} ElementsSettled(buf: string, count: nat, more: string)
    requires ParseElements(buf, count) != MissingBytes
    ensures ParseElements(buf + more, count) == ParseElements(buf, count)
    decreases |buf|, 2, count
  {
    if count > 0 {
      Settled(buf, more);
      if Parse(buf).Done? {
        var size := Parse(buf).size;
        RestOfSum(buf, more, size);
        ElementsSettled(buf[size..], count - 1, more);
      }
      SameElements(buf, buf + more, count);
    }
  }

  lemma {:induction false} SameElements(a: string, b: string, count: nat)
    requires count > 0 && Parse(a) == Parse(b) && |a| <= |b|
    requires Parse(a).Done? ==> ParseElements(a[Parse(a).size..], count - 1) == ParseElements(b[Parse(a).size..], count - 1)
    ensures ParseElements(a, count) == ParseElements(b, count)
  {
  }

  lemma RestOfSum(buf: string, more: string, size: nat)
    requires size <= |buf|
    ensures (buf + more)[size..] == buf[size..] + more
  {
  }

  /** No complete message is a proper prefix of another. */
  lemma {:induction false} NoMessageInsideAnother(a: string, b: string)
    requires Parse(a).Done? && Parse(a).size == |a| && Parse(b).Done? && Parse(b).size == |b|
    requires a <= b
    ensures a == b
  {
    PrefixCode(b, |a|);
    assert b[..|a|] == a;
  }

  // ---------- The serializer ----------

  function SerializeError(msg: string): string {
    "-" + msg + CRLF
  }

  function SerializeInteger(n: int): string {
    ":" + ToString(n) + CRLF
  }

  function SerializeBulk(s: string): string {
    "$" + ToString(|s|) + CRLF + s + CRLF
  }

  function SerializeNullBulk(): string {
    "$-1" + CRLF
  }

  function BulkItems(items: seq<string>): string {
    if items == [] then "" else SerializeBulk(items[0]) + BulkItems(items[1..])
  }

  function SerializeArray(items: seq<string>): string {
    "*" + ToString(|items|) + CRLF + BulkItems(items)
  }

  method WriteArray(items: seq<string>) returns (out: string)
    ensures out == SerializeArray(items)
  {
    out := "*" + ToString(|items|) + CRLF;
    for i := 0 to |items|
      invariant out + BulkItems(items[i..]) == SerializeArray(items)
    {
      assert items[i..][1..] == items[i + 1..];
      out := out + ("$" + ToString(|items[i]|) + CRLF + items[i] + CRLF);
    }
  }

  predicate HasCrlf(s: string) {
    exists i :: 0 <= i < |s| && IsCrlf(s, i)
  }

  // ---------- Round trips ----------

  /** A line that carries `text` between its type byte and its first "\r\n". */
  lemma LineEnds(c: char, text: string, more: string)
    requires c != '\r' && !HasCrlf(text)
    ensures var buf := [c] + text + CRLF + more; FindCrlf(buf) == Some(1 + |text|) && buf[1..1 + |text|] == text
  {
    var buf := [c] + text + CRLF + more;
    var p := 1 + |text|;
    forall i | 0 <= i < p ensures !IsCrlf(buf, i) {
      if 0 < i < p - 1 { assert IsCrlf(text, i - 1) == IsCrlf(buf, i); }
    }
    CrlfIsFirst(buf, p);
  }

  lemma NumeralHasNoCrlf(n: int)
    ensures !HasCrlf(ToString(n))
  {
  }

  /** An error message survives exactly when it contains no line end. */
  lemma {:induction false} ErrorRoundTrip(msg: string, more: string)
    ensures Parse(SerializeError(msg) + more) == Done(Error(msg), |SerializeError(msg)|) <==> !HasCrlf(msg)
  {
    var buf := SerializeError(msg) + more;
    if !HasCrlf(msg) {
      LineEnds('-', msg, more);
      assert buf == ['-'] + msg + CRLF + more;
    } else {
      var i :| 0 <= i < |msg| && IsCrlf(msg, i);
      assert IsCrlf(buf, 1 + i);
      assert FindCrlf(buf).Some? && FindCrlf(buf).value <= 1 + i;
    }
  }

  /** A written header line reads back, unless its number overflows the parser. */
  lemma HeaderRoundTrip(c: char, n: int, more: string)
    requires c != '\r'
    ensures ReadHeader([c] + ToString(n) + CRLF + more) ==
            if -INT_MAX <= n <= INT_MAX then Header(n, |[c] + ToString(n) + CRLF|) else Big
  {
    NumeralHasNoCrlf(n);
    LineEnds(c, ToString(n), more);
    ParseUndoesPrint(n);
  }

  /** Every integer below 2^31 in magnitude comes back; every other one overflows the parser. */
  lemma {:induction false} IntegerRoundTrip(n: int, more: string)
    ensures Parse(SerializeInteger(n) + more) ==
            if -INT_MAX <= n <= INT_MAX then Done(Integer(n), |SerializeInteger(n)|) else Overflowed
  {
    HeaderRoundTrip(':', n, more);
    assert SerializeInteger(n) == [':'] + ToString(n) + CRLF;
  }

  lemma {:induction false} NullBulkRoundTrip(more: string)
    ensures Parse(SerializeNullBulk() + more) == Done(NullBulk, |SerializeNullBulk()|)
  {
    HeaderRoundTrip('$', -1, more);
    assert ToString(-1) == "-1";
    assert SerializeNullBulk() == ['$'] + ToString(-1) + CRLF;
  }

  /** A bulk string may hold any bytes; only its length must fit the parser's numerals. */
  lemma {:induction false} BulkRoundTrip(s: string, more: string)
    ensures Parse(SerializeBulk(s) + more) ==
            if |s| <= INT_MAX then Done(BulkString(s), |SerializeBulk(s)|) else Overflowed
  {
    var header := ['$'] + ToString(|s|) + CRLF;
    var buf := SerializeBulk(s) + more;
    HeaderRoundTrip('$', |s|, s + CRLF + more);
    assert buf == header + (s + CRLF + more);
    assert buf[|header|..|header| + |s|] == s;
    assert IsCrlf(buf, |header| + |s|);
  }

  function BulkValues(items: seq<string>): (r: seq<RespValue>)
    ensures |r| == |items| && forall i :: 0 <= i < |r| ==> r[i] == BulkString(items[i])
  {
    if items == [] then [] else [BulkString(items[0])] + BulkValues(items[1..])
  }

  lemma {:induction false} ItemsRoundTrip(items: seq<string>, more: string)
    requires forall s :: s in items ==> |s| <= INT_MAX
    ensures ParseElements(BulkItems(items) + more, |items|) == All(BulkValues(items), |BulkItems(items)|)
  {
    if items != [] {
      var rest := BulkItems(items[1..]);
      Associative(SerializeBulk(items[0]), rest, more);
      FirstItem(items[0], rest + more, |items|);
      ItemsRoundTrip(items[1..], more);
    }
  }

  lemma {:induction false} FirstItem(item: string, rest: string, count: nat)
    requires |item| <= INT_MAX && count > 0
    ensures ParseElements(SerializeBulk(item) + rest, count) ==
            Prepend([BulkString(item)], |SerializeBulk(item)|, ParseElements(rest, count - 1))
  {
    BulkRoundTrip(item, rest);
    FirstElement(SerializeBulk(item), rest, count);
  }

  lemma {:induction false} FirstElement(first: string, rest: string, count: nat)
    requires count > 0 && Parse(first + rest).Done? && Parse(first + rest).size == |first|
    ensures ParseElements(first + rest, count) == Prepend([Parse(first + rest).value], |first|, ParseElements(rest, count - 1))
  {
    assert (first + rest)[|first|..] == rest;
  }

  /** A command written as an array of bulk strings is read back item by item, and uses up exactly its own bytes. */
  lemma {:induction false} ArrayRoundTrip(items: seq<string>, more: string)
    requires |items| <= INT_MAX && forall s :: s in items ==> |s| <= INT_MAX
    ensures Parse(SerializeArray(items) + more) == Done(Array(BulkValues(items)), |SerializeArray(items)|)
  {
    var header, rest := ['*'] + ToString(|items|) + CRLF, BulkItems(items) + more;
    HeaderRoundTrip('*', |items|, rest);
    assert SerializeArray(items) + more == header + rest;
    ItemsRoundTrip(items, more);
    ArrayAfterHeader(header, rest, |items|);
  }

  lemma {:induction false} ArrayAfterHeader(header: string, rest: string, count: nat)
    requires header != "" && header[0] == '*' && ReadHeader(header + rest) == Header(count, |header|)
    ensures Parse(header + rest) == AsArray(ParseElements(rest, count), |header|)
  {
    assert (header + rest)[|header|..] == rest;
  }

  /** Different commands are never written alike, nor is one the beginning of another. */
  lemma CommandsAreSelfDelimiting(a: seq<string>, b: seq<string>, more: string)
    requires |a| <= INT_MAX && forall s :: s in a ==> |s| <= INT_MAX
    requires |b| <= INT_MAX && forall s :: s in b ==> |s| <= INT_MAX
    requires SerializeArray(a) + more == SerializeArray(b)
    ensures a == b && more == ""
  {
    ArrayRoundTrip(a, more);
    ArrayRoundTrip(b, "");
    assert SerializeArray(b) + "" == SerializeArray(b);
    forall i | 0 <= i < |a| ensures |a| == |b| && a[i] == b[i] {
      assert BulkValues(a)[i] == BulkValues(b)[i];
    }
    assert |BulkValues(a)| == |BulkValues(b)|;
  }
}
