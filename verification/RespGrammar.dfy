/** The replies the graph client accepts, as a grammar, and the parser held against it in both
    directions. */
module RespGrammar {
  import opened Wrappers
  import opened Bytes
  import opened Resp

  /** A decimal integer that fits 64 bits: an optional sign and at least one digit. */
  ghost predicate IsInteger(text: seq<byte>, n: int) {
    exists sign, digits :: SignedDigits(text, sign, digits, n)
  }

  ghost predicate IsDecimal(digits: seq<byte>) {
    digits != [] && forall i :: 0 <= i < |digits| ==> '0' as byte <= digits[i] <= '9' as byte
  }

  ghost predicate SignedDigits(text: seq<byte>, sign: seq<byte>, digits: seq<byte>, n: int) {
    && text == sign + digits && (sign == [] || sign == ['+' as byte] || sign == ['-' as byte])
    && IsDecimal(digits)
    && n == (if sign == ['-' as byte] then -(Value(digits) as int) else Value(digits) as int)
    && -9_223_372_036_854_775_808 <= n <= 9_223_372_036_854_775_807
  }

  /** A tag, a text without CRLF, and CRLF. */
  ghost predicate IsHeader(b: seq<byte>, tag: byte, text: seq<byte>) {
    b == [tag] + text + [13, 10] && forall p :: 0 <= p < |text| - 1 ==> text[p] != 13 || text[p + 1] != 10
  }

  /** `b` is a reply for `v`. Nothing is said of the two bytes that end a bulk string. */
  ghost predicate Spells(b: seq<byte>, v: RespVal)
    decreases v, 0
  {
    match v
    case Simple(text) => IsHeader(b, '+' as byte, text) && Utf8(text)
    case Error(text) => IsHeader(b, '-' as byte, text) && Utf8(text)
    case Int(n) => exists text :: IsHeader(b, ':' as byte, text) && IsInteger(text, n)
    case Nil => exists text, n :: (IsHeader(b, '$' as byte, text) || IsHeader(b, '*' as byte, text)) && IsInteger(text, n) && n < 0
    case Bulk(s) => exists head, text, end :: BulkParts(b, head, text, s, end)
    case Array(items) => exists head, text, body :: ArrayParts(b, head, text, |items|, body) && SpellAll(body, items)
  }

  ghost predicate BulkParts(b: seq<byte>, head: seq<byte>, text: seq<byte>, s: seq<byte>, end: seq<byte>) {
    b == head + s + end && |end| == 2 && IsHeader(head, '$' as byte, text) && IsInteger(text, |s|)
  }

  ghost predicate ArrayParts(b: seq<byte>, head: seq<byte>, text: seq<byte>, n: nat, body: seq<byte>) {
    b == head + body && IsHeader(head, '*' as byte, text) && IsInteger(text, n)
  }

  ghost predicate SpellAll(b: seq<byte>, items: seq<RespVal>)
    decreases items, 1
  {
    if items == [] then b == []
    else exists first, later :: Cut(b, first, later) && Spells(first, items[0]) && SpellAll(later, items[1..])
  }

  ghost predicate Cut(b: seq<byte>, first: seq<byte>, later: seq<byte>) {
    b == first + later
  }

  // ----- text

  /** One character in UTF-8, section 3 of RFC 3629. */
  function EncodedChar(c: char): (r: seq<byte>)
    ensures r != []
  {
    var u := c as int;
    if u < 0x80 then [u]
    else if u < 0x800 then [0xC0 + u / 64, 0x80 + u % 64]
    else if u < 0x1_0000 then [0xE0 + u / 4096, 0x80 + u / 64 % 64, 0x80 + u % 64]
    else [0xF0 + u / 262144, 0x80 + u / 4096 % 64, 0x80 + u / 64 % 64, 0x80 + u % 64]
  }

  function EncodedText(s: string): seq<byte> {
    if s == "" then [] else EncodedChar(s[0]) + EncodedText(s[1..])
  }

  /** Text is what some characters are encoded as. */
  lemma Utf8Iff(b: seq<byte>)
    ensures Utf8(b) <==> exists s: string :: EncodedText(s) == b
  {
    if Utf8(b) {
      var s := Characters(b);
    }
    forall s: string | EncodedText(s) == b ensures Utf8(b) {
      EncodedIsUtf8(s);
    }
  }

  lemma {:induction false} EncodedIsUtf8(s: string)
    ensures Utf8(EncodedText(s))
  {
    if s != "" {
      EncodedIsUtf8(s[1..]);
      OneMoreChar(s[0], EncodedText(s[1..]));
    }
  }

  /** How the bytes of a character begin and go on. */
  lemma CharBytes(c: char)
    ensures var (h, n) := (EncodedChar(c), |EncodedChar(c)|);
      && 1 <= n <= 4 && (forall i :: 1 <= i < n ==> Continuation(h[i]))
      && (n == 1 ==> h[0] < 0x80)
      && (n == 2 ==> 0xC2 <= h[0] <= 0xDF)
      && (n == 3 ==> 0xE0 <= h[0] <= 0xEF && (h[0] == 0xE0 ==> h[1] >= 0xA0) && (h[0] == 0xED ==> h[1] <= 0x9F))
      && (n == 4 ==> 0xF0 <= h[0] <= 0xF4 && (h[0] == 0xF0 ==> h[1] >= 0x90) && (h[0] == 0xF4 ==> h[1] <= 0x8F))
  {
  }

  lemma OneMoreChar(c: char, rest: seq<byte>)
    requires Utf8(rest)
    ensures Utf8(EncodedChar(c) + rest)
  {
    var head := EncodedChar(c);
    CharBytes(c);
    hide EncodedChar;
    assert (head + rest)[|head|..] == rest;
    assert forall i :: 0 <= i < |head| ==> (head + rest)[i] == head[i];
  }

  lemma {:induction false} Characters(b: seq<byte>) returns (s: string)
    requires Utf8(b)
    ensures EncodedText(s) == b
    decreases |b|
  {
    if b == [] {
      s := "";
    } else {
      var c, n := FirstChar(b);
      hide Utf8, EncodedChar;
      var more := Characters(b[n..]);
      s := [c] + more;
      assert s[1..] == more && b == b[..n] + b[n..];
    }
  }

  lemma Sextet(top: nat, low: nat)
    requires low < 64
    ensures (top * 64 + low) / 64 == top && (top * 64 + low) % 64 == low
  {
  }

  lemma Sextets(u: nat)
    ensures u / 4096 == u / 64 / 64 && u / 262144 == u / 64 / 64 / 64
  {
  }

  lemma TwoByteChar(x: nat, low: nat) returns (c: char)
    requires 2 <= x < 32 && low < 64
    ensures EncodedChar(c) == [0xC0 + x, 0x80 + low]
  {
    Sextet(x, low);
    c := (x * 64 + low) as char;
  }

  lemma ThreeByteChar(x: nat, middle: nat, low: nat) returns (c: char)
    requires x < 16 && middle < 64 && low < 64 && (x == 0 ==> middle >= 32) && (x == 13 ==> middle < 32)
    ensures EncodedChar(c) == [0xE0 + x, 0x80 + middle, 0x80 + low]
  {
    Sextet(x, middle);
    Sextet(x * 64 + middle, low);
    var u := (x * 64 + middle) * 64 + low;
    Sextets(u);
    c := u as char;
  }

  lemma FourByteChar(x: nat, high: nat, middle: nat, low: nat) returns (c: char)
    requires x <= 4 && high < 64 && middle < 64 && low < 64 && (x == 0 ==> high >= 16) && (x == 4 ==> high < 16)
    ensures EncodedChar(c) == [0xF0 + x, 0x80 + high, 0x80 + middle, 0x80 + low]
  {
    Sextet(x, high);
    Sextet(x * 64 + high, middle);
    Sextet((x * 64 + high) * 64 + middle, low);
    var u := ((x * 64 + high) * 64 + middle) * 64 + low;
    Sextets(u);
    c := u as char;
  }

  lemma FirstChar(b: seq<byte>) returns (c: char, n: nat)
    requires Utf8(b) && b != []
    ensures 0 < n <= |b| && EncodedChar(c) == b[..n] && Utf8(b[n..])
  {
    if b[0] < 0x80 {
      c, n := b[0] as char, 1;
    } else {
      hide EncodedChar;
      if b[0] <= 0xDF {
        c := TwoByteChar(b[0] - 0xC0, b[1] - 0x80);
        n := 2;
      } else if b[0] <= 0xEF {
        c := ThreeByteChar(b[0] - 0xE0, b[1] - 0x80, b[2] - 0x80);
        n := 3;
      } else {
        c := FourByteChar(b[0] - 0xF0, b[1] - 0x80, b[2] - 0x80, b[3] - 0x80);
        n := 4;
      }
    }
  }

  // ----- headers and integers

  lemma DecimalDigits(digits: seq<byte>)
    ensures IsDecimal(digits) <==> digits != [] && AllDigits(digits)
  {
    forall i | 0 <= i < |digits| ensures IsDigit(digits[i]) <==> '0' as byte <= digits[i] <= '9' as byte {
    }
  }

  /** `str::parse` for a signed 64-bit integer, in both directions. */
  lemma ParseIntIff(text: seq<byte>, n: int)
    ensures ParseInt(text) == Some(n) <==> IsInteger(text, n)
  {
    if ParseInt(text) == Some(n) {
      IntegerParsed(text, n);
    }
    if IsInteger(text, n) {
      var sign, digits :| SignedDigits(text, sign, digits, n);
      IntegerParses(text, sign, digits, n);
    }
  }

  lemma IntegerParsed(text: seq<byte>, n: int)
    requires ParseInt(text) == Some(n)
    ensures IsInteger(text, n)
  {
    hide Value, IsDecimal, AllDigits;
    if text[0] == PLUS || text[0] == MINUS {
      DecimalDigits(text[1..]);
      assert text == [text[0]] + text[1..];
      assert SignedDigits(text, [text[0]], text[1..], n);
    } else {
      DecimalDigits(text);
      assert text == [] + text;
      assert SignedDigits(text, [], text, n);
    }
  }

  lemma IntegerParses(text: seq<byte>, sign: seq<byte>, digits: seq<byte>, n: int)
    requires SignedDigits(text, sign, digits, n)
    ensures ParseInt(text) == Some(n)
  {
    assert '0' as byte <= digits[0] <= '9' as byte;
    DecimalDigits(digits);
    hide Value, IsDecimal, AllDigits;
    if sign == [] {
      assert text == digits;
    } else {
      assert text[0] == sign[0] && text[1..] == digits;
    }
  }

  lemma {:induction false} AsciiUtf8(text: seq<byte>)
    requires forall i :: 0 <= i < |text| ==> text[i] < 0x80
    ensures Utf8(text)
  {
    if text != [] {
      AsciiUtf8(text[1..]);
    }
  }

  lemma ParseLengthIff(text: seq<byte>, n: int)
    ensures ParseLength(text) == Ok(n) <==> IsInteger(text, n)
  {
    ParseIntIff(text, n);
    if IsInteger(text, n) {
      var sign, digits :| SignedDigits(text, sign, digits, n);
      forall i | 0 <= i < |text| ensures text[i] < 0x80 {
        assert i >= |sign| ==> IsDigit(digits[i - |sign|]);
      }
      AsciiUtf8(text);
    }
  }

  lemma HeaderFound(head: seq<byte>, tag: byte, text: seq<byte>, rest: seq<byte>)
    requires IsHeader(head, tag, text)
    ensures (head + rest) != [] && (head + rest)[0] == tag && |head| == |text| + 3
    ensures FindCrlf(head + rest, 1) == Some(|text| + 1)
    ensures (head + rest)[1..|text| + 1] == text && (head + rest)[|head|..] == rest
  {
    var input := head + rest;
    assert input == [tag] + (text + (CRLF + rest));
    forall p | 1 <= p < |text| + 1 ensures !CrlfAt(input, p) {
      assert !CrlfAt(text, p - 1);
      assert input[p] == text[p - 1] && input[p + 1] == if p < |text| then text[p] else CR;
    }
    assert CrlfAt(input, |text| + 1);
  }

  lemma HeaderThere(input: seq<byte>, nl: nat)
    requires input != [] && FindCrlf(input, 1) == Some(nl)
    ensures IsHeader(input[..nl + 2], input[0], input[1..nl])
  {
    var text := input[1..nl];
    assert input[..nl + 2] == [input[0]] + text + CRLF;
    forall p | 0 <= p < |text| - 1 ensures text[p] != 13 || text[p + 1] != 10 {
      assert !CrlfAt(input, p + 1) && text[p] == input[p + 1] && text[p + 1] == input[p + 2];
    }
  }

  // ----- every spelling is parsed

  lemma LineParses(b: seq<byte>, v: RespVal, rest: seq<byte>)
    requires Spells(b, v) && (v.Simple? || v.Error? || v.Int?)
    ensures Parse(b + rest) == Ok((v, |b|))
  {
    hide FindCrlf, Utf8, ParseInt;
    match v
    case Simple(text) => HeaderFound(b, PLUS, text, rest);
    case Error(text) => HeaderFound(b, MINUS, text, rest);
    case Int(n) =>
      var text :| IsHeader(b, COLON, text) && IsInteger(text, n);
      HeaderFound(b, COLON, text, rest);
      ParseIntIff(text, n);
      ParseLengthIff(text, n);
  }

  lemma NilParses(b: seq<byte>, tag: byte, text: seq<byte>, n: int, rest: seq<byte>)
    requires (tag == DOLLAR || tag == STAR) && IsHeader(b, tag, text) && IsInteger(text, n) && n < 0
    ensures Parse(b + rest) == Ok((Nil, |b|))
  {
    hide *;
    HeaderFound(b, tag, text, rest);
    ParseLengthIff(text, n);
    NilIs(b + rest, |text| + 1, n);
  }

  lemma BulkPartsAre(b: seq<byte>, head: seq<byte>, text: seq<byte>, s: seq<byte>, end: seq<byte>)
    requires BulkParts(b, head, text, s, end)
    ensures b == head + s + end && |end| == 2 && IsHeader(head, DOLLAR, text) && IsInteger(text, |s|)
  {
  }

  lemma ArrayPartsAre(b: seq<byte>, head: seq<byte>, text: seq<byte>, n: nat, body: seq<byte>)
    requires ArrayParts(b, head, text, n, body)
    ensures b == head + body && IsHeader(head, '*' as byte, text) && IsInteger(text, n)
  {
  }

  lemma BulkParses(b: seq<byte>, head: seq<byte>, text: seq<byte>, s: seq<byte>, end: seq<byte>, rest: seq<byte>)
    requires BulkParts(b, head, text, s, end)
    ensures Parse(b + rest) == Ok((Bulk(s), |b|))
  {
    hide *;
    BulkPartsAre(b, head, text, s, end);
    var input := b + rest;
    assert input == head + (s + end + rest);
    HeaderFound(head, DOLLAR, text, s + end + rest);
    ParseLengthIff(text, |s|);
    BulkIs(input, |text| + 1, |s|);
    assert input[|text| + 3..|text| + 3 + |s|] == s;
  }

  lemma Regroup(b: seq<byte>, head: seq<byte>, body: seq<byte>, rest: seq<byte>)
    requires b == head + body
    ensures b + rest == head + (body + rest) && |b| == |head| + |body|
  {
  }

  lemma ArrayParses(b: seq<byte>, head: seq<byte>, text: seq<byte>, items: seq<RespVal>, body: seq<byte>, rest: seq<byte>)
    requires ArrayParts(b, head, text, |items|, body)
    requires ParseItems(body + rest, |items|) == Ok((items, |body|))
    ensures Parse(b + rest) == Ok((Array(items), |b|))
  {
    hide *;
    ArrayPartsAre(b, head, text, |items|, body);
    Regroup(b, head, body, rest);
    ArrayAhead(head, text, items, body + rest, |body|, |b|);
  }

  lemma ArrayAhead(head: seq<byte>, text: seq<byte>, items: seq<RespVal>, tail: seq<byte>, used: nat, total: nat)
    requires IsHeader(head, '*' as byte, text) && IsInteger(text, |items|)
    requires ParseItems(tail, |items|) == Ok((items, used)) && total == |head| + used
    ensures Parse(head + tail) == Ok((Array(items), total))
  {
    assert STAR == '*' as byte;
    hide *;
    HeaderFound(head, '*' as byte, text, tail);
    ParseLengthIff(text, |items|);
    assert (head + tail)[|text| + 3..] == tail;
    ArrayIs(head + tail, |text| + 1, |items|, items, used, total);
  }

  lemma {:induction false} SpelledParses(b: seq<byte>, v: RespVal, rest: seq<byte>)
    requires Spells(b, v)
    ensures Parse(b + rest) == Ok((v, |b|))
    decreases v, 0
  {
    match v
    case Nil =>
      var text, n :| (IsHeader(b, DOLLAR, text) || IsHeader(b, STAR, text)) && IsInteger(text, n) && n < 0;
      var tag := if IsHeader(b, DOLLAR, text) then DOLLAR else STAR;
      hide *;
      NilParses(b, tag, text, n, rest);
    case Bulk(s) =>
      var head, text, end :| BulkParts(b, head, text, s, end);
      hide *;
      BulkParses(b, head, text, s, end, rest);
    case Array(items) =>
      var head, text, body :| ArrayParts(b, head, text, |items|, body) && SpellAll(body, items);
      hide *;
      SpelledAllParse(body, items, rest);
      ArrayParses(b, head, text, items, body, rest);
    case _ => LineParses(b, v, rest);
  }

  lemma {:induction false} SpelledAllParse(b: seq<byte>, items: seq<RespVal>, rest: seq<byte>)
    requires SpellAll(b, items)
    ensures ParseItems(b + rest, |items|) == Ok((items, |b|))
    decreases items, 1
  {
    hide Parse, Spells;
    if items != [] {
      var first, later :| Cut(b, first, later) && Spells(first, items[0]) && SpellAll(later, items[1..]);
      assert b + rest == first + (later + rest) && |b| == |first| + |later|;
      hide *;
      SpelledParses(first, items[0], later + rest);
      SpelledAllParse(later, items[1..], rest);
      assert (first + (later + rest))[|first|..] == later + rest;
      ItemsCons(b + rest, |items|, items[0], |first|, items[1..], |later|);
      assert [items[0]] + items[1..] == items;
    }
  }

  // ----- what is refused, and why

  ghost predicate TagsLine(tag: byte) {
    tag == '+' as byte || tag == '-' as byte || tag == ':' as byte
  }

  ghost predicate TagsLength(tag: byte) {
    tag == '$' as byte || tag == '*' as byte
  }

  /** Nothing to read, no known tag, or no end of line. */
  lemma NoHeaderRefused(input: seq<byte>)
    ensures input == [] ==> Parse(input) == Err(Empty)
    ensures input != [] && !TagsLine(input[0]) && !TagsLength(input[0]) ==> Parse(input) == Err(BadType(input[0]))
    ensures input != [] && (forall p :: 1 <= p < |input| - 1 ==> input[p] != 13 || input[p + 1] != 10) ==>
      && (TagsLine(input[0]) ==> Parse(input) == Err(IncompleteSimple))
      && (input[0] == '$' as byte ==> Parse(input) == Err(IncompleteBulkLen))
      && (input[0] == '*' as byte ==> Parse(input) == Err(IncompleteArrayLen))
  {
    hide ParseItems, ParseSimple, ParseLength;
  }

  /** A line that is no text, or no integer where one is due, or a string that has not all come. */
  lemma HeaderRefused(head: seq<byte>, tag: byte, text: seq<byte>, rest: seq<byte>, n: nat)
    requires IsHeader(head, tag, text) && (TagsLine(tag) || TagsLength(tag))
    ensures !Utf8(text) ==> Parse(head + rest) == Err(BadText)
    ensures Utf8(text) && (TagsLength(tag) || tag == ':' as byte) && (forall i :: !IsInteger(text, i)) ==>
      Parse(head + rest) == Err(BadInt)
    ensures tag == '$' as byte && IsInteger(text, n) && |rest| < n + 2 ==> Parse(head + rest) == Err(IncompleteBulk)
  {
    HeaderFound(head, tag, text, rest);
    if ParseInt(text).Some? {
      ParseIntIff(text, ParseInt(text).value);
    }
    ParseLengthIff(text, n);
    hide IsInteger, IsHeader;
    if TagsLine(tag) {
      LineRefused(head + rest, |text| + 1);
    } else {
      LengthRefused(head + rest, |text| + 1);
    }
    hide Parse, Utf8, ParseInt;
  }

  lemma LineRefused(input: seq<byte>, nl: nat)
    requires input != [] && TagsLine(input[0]) && FindCrlf(input, 1) == Some(nl)
    ensures !Utf8(input[1..nl]) ==> Parse(input) == Err(BadText)
    ensures Utf8(input[1..nl]) && input[0] == COLON && ParseInt(input[1..nl]).None? ==> Parse(input) == Err(BadInt)
  {
    hide FindCrlf, Utf8, ParseInt;
  }

  lemma LengthRefused(input: seq<byte>, nl: nat)
    requires input != [] && TagsLength(input[0]) && FindCrlf(input, 1) == Some(nl)
    ensures !Utf8(input[1..nl]) ==> Parse(input) == Err(BadText)
    ensures Utf8(input[1..nl]) && ParseInt(input[1..nl]).None? ==> Parse(input) == Err(BadInt)
    ensures var n := ParseLength(input[1..nl]);
      n.Ok? && n.value >= 0 && input[0] == DOLLAR && |input| < nl + n.value + 4 ==> Parse(input) == Err(IncompleteBulk)
  {
    hide FindCrlf, Utf8, ParseInt, ParseItems;
  }

  // ----- whatever is parsed is a spelling

  lemma ParsedLineSpells(x: seq<byte>)
    requires x != [] && IsLine(x[0]) && Parse(x).Ok?
    ensures Spells(x[..Parse(x).value.1], Parse(x).value.0)
  {
    var nl := FindCrlf(x, 1).value;
    HeaderThere(x, nl);
    hide FindCrlf, Utf8, ParseInt;
    if x[0] == COLON {
      ParseIntIff(x[1..nl], Parse(x).value.0.n);
    }
  }

  lemma BulkSpelled(b: seq<byte>, head: seq<byte>, text: seq<byte>, s: seq<byte>, end: seq<byte>)
    requires BulkParts(b, head, text, s, end)
    ensures Spells(b, Bulk(s))
  {
    hide BulkParts;
  }

  lemma NilSpelled(b: seq<byte>, tag: byte, text: seq<byte>, n: int)
    requires (tag == DOLLAR || tag == STAR) && IsHeader(b, tag, text) && IsInteger(text, n) && n < 0
    ensures Spells(b, Nil)
  {
  }

  lemma ArraySpelled(b: seq<byte>, head: seq<byte>, text: seq<byte>, items: seq<RespVal>, body: seq<byte>)
    requires ArrayParts(b, head, text, |items|, body) && SpellAll(body, items)
    ensures Spells(b, Array(items))
  {
    hide ArrayParts, SpellAll;
  }

  lemma OneMoreSpelled(first: seq<byte>, v: RespVal, later: seq<byte>, rest: seq<RespVal>)
    requires Spells(first, v) && SpellAll(later, rest)
    ensures SpellAll(first + later, [v] + rest)
  {
    hide Spells;
    var items := [v] + rest;
    assert items[1..] == rest && Cut(first + later, first, later);
  }

  lemma ParsedBulkSpells(x: seq<byte>)
    requires x != [] && x[0] == DOLLAR && Parse(x).Ok?
    ensures Spells(x[..Parse(x).value.1], Parse(x).value.0)
  {
    hide FindCrlf, ParseLength, Spells, IsHeader, IsInteger;
    var nl := FindCrlf(x, 1).value;
    HeaderThere(x, nl);
    var n := ParseLength(x[1..nl]).value;
    ParseLengthIff(x[1..nl], n);
    if n >= 0 {
      var start, end := nl + 2, nl + 2 + n;
      assert x[..end + 2] == x[..start] + x[start..end] + x[end..end + 2];
      BulkSpelled(x[..end + 2], x[..start], x[1..nl], x[start..end], x[end..end + 2]);
    } else {
      NilSpelled(x[..nl + 2], DOLLAR, x[1..nl], n);
    }
  }

  lemma {:induction false} ParsedSpells(x: seq<byte>)
    requires Parse(x).Ok?
    ensures Spells(x[..Parse(x).value.1], Parse(x).value.0)
    decreases |x|, 0
  {
    hide FindCrlf, ParseLength, Spells, SpellAll, IsHeader, IsInteger, ParseItems, ParseLine, ParseBulk;
    if IsLine(x[0]) {
      ParsedLineSpells(x);
    } else if x[0] == DOLLAR {
      ParsedBulkSpells(x);
    } else {
      var nl := FindCrlf(x, 1).value;
      HeaderThere(x, nl);
      var n := ParseLength(x[1..nl]).value;
      ParseLengthIff(x[1..nl], n);
      if n >= 0 {
        var body := x[nl + 2..];
        ParsedAllSpell(body, n);
        var (items, used) := ParseItems(body, n).value;
        ArrayIs(x, nl, n, items, used, nl + 2 + used);
        hide Parse;
        assert x[..nl + 2 + used] == x[..nl + 2] + body[..used];
        ArraySpelled(x[..nl + 2 + used], x[..nl + 2], x[1..nl], items, body[..used]);
      } else {
        NilSpelled(x[..nl + 2], STAR, x[1..nl], n);
      }
    }
  }

  lemma {:induction false} ParsedAllSpell(x: seq<byte>, n: nat)
    requires ParseItems(x, n).Ok?
    ensures SpellAll(x[..ParseItems(x, n).value.1], ParseItems(x, n).value.0)
    decreases |x|, 1
  {
    hide Parse, Spells;
    if n > 0 {
      hide SpellAll;
      var (v, used) := Parse(x).value;
      ParsedSpells(x);
      ParsedAllSpell(x[used..], n - 1);
      var (rest, more) := ParseItems(x[used..], n - 1).value;
      ItemsCons(x, n, v, used, rest, more);
      hide ParseItems;
      OneMoreSpelled(x[..used], v, x[used..][..more], rest);
      assert x[..used + more] == x[..used] + x[used..][..more];
    }
  }

  /** The parser accepts a value off the front of a buffer, using n bytes, exactly when those n
      bytes spell that value. */
  lemma ParsesIffSpells(x: seq<byte>, v: RespVal, n: nat)
    ensures Parse(x) == Ok((v, n)) <==> n <= |x| && Spells(x[..n], v)
  {
    hide *;
    if Parse(x) == Ok((v, n)) {
      ParsedSpells(x);
    }
    if n <= |x| && Spells(x[..n], v) {
      SpelledParses(x[..n], v, x[n..]);
      assert x[..n] + x[n..] == x;
    }
  }
}
