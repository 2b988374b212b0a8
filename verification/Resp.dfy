/** The RESP codec of the graph client: a recursive parser over a byte buffer and the printer of
    command arrays. */
module Resp {
  import opened Wrappers
  import opened Bytes

  const I64_MAX: int := 0x7fff_ffff_ffff_ffff
  const I64_MIN: int := -0x8000_0000_0000_0000

  const PLUS: byte := 43
  const MINUS: byte := 45
  const COLON: byte := 58
  const DOLLAR: byte := 36
  const STAR: byte := 42

  /** Text is kept as the bytes it was read from. */
  datatype RespVal =
    | Nil
    | Simple(text: seq<byte>)
    | Error(text: seq<byte>)
    | Int(n: int)
    | Bulk(bytes: seq<byte>)
    | Array(items: seq<RespVal>)

  datatype ParseError =
    | Empty | IncompleteSimple | IncompleteBulkLen | IncompleteBulk | IncompleteArrayLen
    | BadText | BadInt | BadType(tag: byte)

  // ----- lexical pieces

  /** The first CRLF at or after `from`. */
  function FindCrlf(input: seq<byte>, from: nat): (r: Option<nat>)
    requires from <= |input|
    ensures r.Some? ==> from <= r.value && CrlfAt(input, r.value)
    ensures r.Some? ==> forall p :: from <= p < r.value ==> !CrlfAt(input, p)
    ensures r.None? ==> forall p :: from <= p ==> !CrlfAt(input, p)
    decreases |input| - from
  {
    if from + 1 >= |input| then None
    else if CrlfAt(input, from) then Some(from)
    else FindCrlf(input, from + 1)
  }

  predicate IsDigit(b: byte) {
    48 <= b <= 57
  }

  predicate AllDigits(text: seq<byte>) {
    forall i :: 0 <= i < |text| ==> IsDigit(text[i])
  }

  function Value(digits: seq<byte>): nat
    requires AllDigits(digits)
  {
    if digits == [] then 0
    else
      assert IsDigit(digits[|digits|-1]);
      10 * Value(digits[..|digits|-1]) + (digits[|digits|-1] - 48)
  }

  /** `str::parse` for a signed 64-bit integer: one optional sign, then digits, within range. */
  function ParseInt(text: seq<byte>): Option<int> {
    var body := if text != [] && (text[0] == PLUS || text[0] == MINUS) then text[1..] else text;
    if body == [] || !AllDigits(body) then None
    else
      var n := if text[0] == MINUS then -(Value(body) as int) else Value(body) as int;
      if I64_MIN <= n <= I64_MAX then Some(n) else None
  }

  predicate Continuation(b: byte) {
    0x80 <= b <= 0xBF
  }

  /** Well-formed UTF-8, section 3.9 of the Unicode Standard. */
  predicate Utf8(s: seq<byte>) {
    if s == [] then true
    else if s[0] < 0x80 then Utf8(s[1..])
    else if 0xC2 <= s[0] <= 0xDF then |s| >= 2 && Continuation(s[1]) && Utf8(s[2..])
    else if 0xE0 <= s[0] <= 0xEF then
      && |s| >= 3 && Continuation(s[1]) && Continuation(s[2])
      && (s[0] == 0xE0 ==> s[1] >= 0xA0) && (s[0] == 0xED ==> s[1] <= 0x9F)
      && Utf8(s[3..])
    else if 0xF0 <= s[0] <= 0xF4 then
      && |s| >= 4 && Continuation(s[1]) && Continuation(s[2]) && Continuation(s[3])
      && (s[0] == 0xF0 ==> s[1] >= 0x90) && (s[0] == 0xF4 ==> s[1] <= 0x8F)
      && Utf8(s[4..])
    else false
  }

  function ParseLength(text: seq<byte>): Result<int, ParseError> {
    if !Utf8(text) then Err(BadText)
    else match ParseInt(text)
      case Some(n) => Ok(n)
      case None => Err(BadInt)
  }

  function ParseSimple(tag: byte, text: seq<byte>): Result<RespVal, ParseError> {
    if !Utf8(text) then Err(BadText)
    else if tag == PLUS then Ok(Simple(text))
    else if tag == MINUS then Ok(Error(text))
    else match ParseInt(text)
      case Some(n) => Ok(Int(n))
      case None => Err(BadInt)
  }

  // ----- the parser

  predicate IsLine(tag: byte) {
    tag == PLUS || tag == MINUS || tag == COLON
  }

  function ParseLine(input: seq<byte>): (r: Result<(RespVal, nat), ParseError>)
    requires input != [] && IsLine(input[0])
    ensures r.Ok? ==> 3 <= r.value.1 <= |input|
  {
    match FindCrlf(input, 1)
    case None => Err(IncompleteSimple)
    case Some(nl) =>
      match ParseSimple(input[0], input[1..nl])
      case Err(e) => Err(e)
      case Ok(v) => Ok((v, nl + 2))
  }

  function ParseBulk(input: seq<byte>): (r: Result<(RespVal, nat), ParseError>)
    requires input != [] && input[0] == DOLLAR
    ensures r.Ok? ==> 3 <= r.value.1 <= |input|
  {
    match FindCrlf(input, 1)
    case None => Err(IncompleteBulkLen)
    case Some(nl) =>
      match ParseLength(input[1..nl])
      case Err(e) => Err(e)
      case Ok(len) =>
        if len < 0 then Ok((Nil, nl + 2))
        else
          var start := nl + 2;
          var end := start + len;
          if |input| < end + 2 then Err(IncompleteBulk) else Ok((Bulk(input[start..end]), end + 2))
  }

  /** One value off the front of `input`, with the number of bytes it took. */
  function Parse(input: seq<byte>): (r: Result<(RespVal, nat), ParseError>)
    ensures r.Ok? ==> 3 <= r.value.1 <= |input|
    decreases |input|, 0
  {
    if input == [] then Err(Empty)
    else if IsLine(input[0]) then ParseLine(input)
    else if input[0] == DOLLAR then ParseBulk(input)
    else if input[0] == STAR then
      match FindCrlf(input, 1)
      case None => Err(IncompleteArrayLen)
      case Some(nl) =>
        match ParseLength(input[1..nl])
        case Err(e) => Err(e)
        case Ok(n) =>
          if n < 0 then Ok((Nil, nl + 2)) else Resume([], nl + 2, ParseItems(input[nl+2..], n))
    else Err(BadType(input[0]))
  }

  /** n values one after the other. */
  function ParseItems(input: seq<byte>, n: nat): (r: Result<(seq<RespVal>, nat), ParseError>)
    ensures r.Ok? ==> |r.value.0| == n && r.value.1 <= |input|
    decreases |input|, 1
  {
    if n == 0 then Ok(([], 0))
    else
      match Parse(input)
      case Err(e) => Err(e)
      case Ok((v, used)) =>
        match ParseItems(input[used..], n - 1)
        case Err(e) => Err(e)
        case Ok((rest, more)) => Ok(([v] + rest, used + more))
  }

  /** The array of `items`, read up to `pos`, and of whatever is read from there on. */
  function Resume(items: seq<RespVal>, pos: nat, rest: Result<(seq<RespVal>, nat), ParseError>)
    : Result<(RespVal, nat), ParseError>
  {
    match rest
    case Err(e) => Err(e)
    case Ok((more, used)) => Ok((Array(items + more), pos + used))
  }

  lemma ResumeNext(input: seq<byte>, items: seq<RespVal>, pos: nat, n: nat)
    requires pos <= |input| && n > 0
    ensures Parse(input[pos..]).Err? ==>
      Resume(items, pos, ParseItems(input[pos..], n)) == Err(Parse(input[pos..]).error)
    ensures Parse(input[pos..]).Ok? ==> var (v, used) := Parse(input[pos..]).value;
      Resume(items, pos, ParseItems(input[pos..], n)) ==
      Resume(items + [v], pos + used, ParseItems(input[pos + used..], n - 1))
  {
    hide Parse;
    if Parse(input[pos..]).Ok? {
      var (v, used) := Parse(input[pos..]).value;
      var rest := ParseItems(input[pos + used..], n - 1);
      assert input[pos..][used..] == input[pos + used..];
      hide ParseItems;
      if rest.Ok? {
        assert items + ([v] + rest.value.0) == (items + [v]) + rest.value.0;
      }
    }
  }

  lemma NilIs(input: seq<byte>, nl: nat, n: int)
    requires input != [] && (input[0] == DOLLAR || input[0] == STAR) && FindCrlf(input, 1) == Some(nl)
    requires ParseLength(input[1..nl]) == Ok(n) && n < 0
    ensures Parse(input) == Ok((Nil, nl + 2))
  {
    hide ParseLength, FindCrlf, ParseItems;
  }

  lemma BulkIs(input: seq<byte>, nl: nat, n: nat)
    requires input != [] && input[0] == DOLLAR && FindCrlf(input, 1) == Some(nl)
    requires ParseLength(input[1..nl]) == Ok(n) && nl + n + 4 <= |input|
    ensures Parse(input) == Ok((Bulk(input[nl+2..nl+2+n]), nl + n + 4))
  {
    hide ParseLength, FindCrlf;
  }

  lemma ArrayIs(input: seq<byte>, nl: nat, n: nat, items: seq<RespVal>, used: nat, total: nat)
    requires input != [] && input[0] == STAR && FindCrlf(input, 1) == Some(nl)
    requires ParseLength(input[1..nl]) == Ok(n) && ParseItems(input[nl+2..], n) == Ok((items, used))
    requires total == nl + 2 + used
    ensures Parse(input) == Ok((Array(items), total))
  {
    hide ParseItems, ParseLength, FindCrlf, ParseBulk, ParseLine;
    assert [] + items == items;
  }

  lemma ItemsCons(input: seq<byte>, n: nat, v: RespVal, used: nat, rest: seq<RespVal>, more: nat)
    requires n > 0 && used <= |input| && Parse(input) == Ok((v, used))
    requires ParseItems(input[used..], n - 1) == Ok((rest, more))
    ensures ParseItems(input, n) == Ok(([v] + rest, used + more))
  {
    hide Parse;
  }

  /** The parser as it is written, with a cursor that moves through the elements of an array. */
  method ParseResp(input: seq<byte>) returns (r: Result<(RespVal, nat), ParseError>)
    ensures r == Parse(input)
    decreases |input|
  {
    if input == [] {
      return Err(Empty);
    } else if IsLine(input[0]) {
      return ParseLine(input);
    } else if input[0] == DOLLAR {
      return ParseBulk(input);
    } else if input[0] != STAR {
      return Err(BadType(input[0]));
    }
    var nl := FindCrlf(input, 1);
    if nl.None? {
      return Err(IncompleteArrayLen);
    }
    var n := ParseLength(input[1..nl.value]);
    if n.Err? {
      return Err(n.error);
    }
    var pos := nl.value + 2;
    if n.value < 0 {
      return Ok((Nil, pos));
    }
    r := ParseElements(input, pos, n.value);
  }

  /** The loop of the array case. */
  method ParseElements(input: seq<byte>, start: nat, n: nat) returns (r: Result<(RespVal, nat), ParseError>)
    requires 0 < start <= |input|
    ensures r == Resume([], start, ParseItems(input[start..], n))
    decreases |input|, 0
  {
    hide Parse, ParseItems, Resume;
    var pos, items := start, [];
    for k := 0 to n
      invariant start <= pos <= |input|
      invariant Resume([], start, ParseItems(input[start..], n)) == Resume(items, pos, ParseItems(input[pos..], n - k))
    {
      ResumeNext(input, items, pos, n - k);
      var item := ParseResp(input[pos..]);
      if item.Err? {
        return Err(item.error);
      }
      var (v, used) := item.value;
      pos := pos + used;
      items := items + [v];
    }
    ResumeEnd(input[pos..], items, pos);
    r := Ok((Array(items), pos));
  }

  lemma ResumeEnd(rest: seq<byte>, items: seq<RespVal>, pos: nat)
    ensures Resume(items, pos, ParseItems(rest, 0)) == Ok((Array(items), pos))
  {
    assert items + [] == items;
  }

  // ----- prefix stability

  /** z agrees with x on its first n bytes. */
  ghost predicate Agrees(x: seq<byte>, z: seq<byte>, n: nat) {
    n <= |x| && n <= |z| && x[..n] == z[..n]
  }

  lemma AgreesSlice(x: seq<byte>, z: seq<byte>, n: nat, i: nat, j: nat)
    requires Agrees(x, z, n) && i <= j <= n
    ensures x[i..j] == z[i..j] && Agrees(x[i..], z[i..], n - i)
  {
    assert x[i..j] == x[..n][i..j] && z[i..j] == z[..n][i..j];
    assert x[i..][..n-i] == x[..n][i..] && z[i..][..n-i] == z[..n][i..];
  }

  lemma FindCrlfAgrees(x: seq<byte>, z: seq<byte>, from: nat)
    requires from <= |x| && FindCrlf(x, from).Some? && Agrees(x, z, FindCrlf(x, from).value + 2)
    ensures FindCrlf(z, from) == FindCrlf(x, from)
  {
    hide FindCrlf;
    var nl := FindCrlf(x, from).value;
    forall p | from <= p <= nl ensures CrlfAt(z, p) == CrlfAt(x, p) {
      assert z[p] == z[..nl+2][p] && x[p] == x[..nl+2][p];
      assert z[p+1] == z[..nl+2][p+1] && x[p+1] == x[..nl+2][p+1];
    }
  }

  lemma HeaderAgrees(x: seq<byte>, z: seq<byte>, n: nat)
    requires x != [] && FindCrlf(x, 1).Some? && FindCrlf(x, 1).value + 2 <= n && Agrees(x, z, n)
    ensures z != [] && z[0] == x[0] && FindCrlf(z, 1) == FindCrlf(x, 1)
    ensures x[1..FindCrlf(x, 1).value] == z[1..FindCrlf(x, 1).value]
  {
    var nl := FindCrlf(x, 1).value;
    assert x[0] == x[..n][0] && z[0] == z[..n][0];
    AgreesSlice(x, z, n, 0, nl + 2);
    FindCrlfAgrees(x, z, 1);
    AgreesSlice(x, z, n, 1, nl);
  }

  lemma BulkStable(x: seq<byte>, z: seq<byte>)
    requires x != [] && x[0] == DOLLAR && ParseBulk(x).Ok? && Agrees(x, z, ParseBulk(x).value.1)
    ensures z != [] && z[0] == DOLLAR && ParseBulk(z) == ParseBulk(x)
  {
    var n, nl := ParseBulk(x).value.1, FindCrlf(x, 1).value;
    HeaderAgrees(x, z, n);
    if n > nl + 2 {
      AgreesSlice(x, z, n, nl + 2, n - 2);
    }
  }

  /** An accepted value depends on nothing past the bytes it took. */
  lemma {:induction false} ParseStable(x: seq<byte>, z: seq<byte>)
    requires Parse(x).Ok? && Agrees(x, z, Parse(x).value.1)
    ensures Parse(z) == Parse(x)
    decreases |x|, 0
  {
    hide FindCrlf, ParseLength, ParseSimple;
    var n, nl := Parse(x).value.1, FindCrlf(x, 1).value;
    HeaderAgrees(x, z, n);
    if x[0] == DOLLAR {
      BulkStable(x, z);
    } else if x[0] == STAR && ParseLength(x[1..nl]).value >= 0 {
      AgreesSlice(x, z, n, nl + 2, n);
      ItemsStable(x[nl+2..], z[nl+2..], ParseLength(x[1..nl]).value);
    }
  }

  lemma {:induction false} ItemsStable(x: seq<byte>, z: seq<byte>, n: nat)
    requires ParseItems(x, n).Ok? && Agrees(x, z, ParseItems(x, n).value.1)
    ensures ParseItems(z, n) == ParseItems(x, n)
    decreases |x|, 1
  {
    hide Parse;
    if n > 0 {
      var used, all := Parse(x).value.1, ParseItems(x, n).value.1;
      AgreesSlice(x, z, all, 0, used);
      ParseStable(x, z);
      AgreesSlice(x, z, all, used, all);
      ItemsStable(x[used..], z[used..], n - 1);
    }
  }

  /** Nothing shorter than what it took is accepted, and anything longer gives the same value. */
  lemma PrefixStable(x: seq<byte>, m: nat, rest: seq<byte>)
    requires Parse(x).Ok?
    ensures Parse(x[..Parse(x).value.1] + rest) == Parse(x)
    ensures m < Parse(x).value.1 ==> Parse(x[..m]).Err?
  {
    var n := Parse(x).value.1;
    assert (x[..n] + rest)[..n] == x[..n];
    ParseStable(x, x[..n] + rest);
    if m < n && Parse(x[..m]).Ok? {
      var k := Parse(x[..m]).value.1;
      assert x[..m][..k] == x[..k];
      ParseStable(x[..m], x);
    }
  }
}
