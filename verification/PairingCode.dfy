/** Pairing codes as they are minted, typed and reduced again: 12 symbols of 5 bits. */
module PairingCode {
  import opened Wrappers
  import opened Text

  const CODE_ALPHABET := "ABCDEFGHJKLMNPQRSTUVWXYZ23456789"
  const CODE_SYMBOLS: nat := 12
  const CODE_GROUP: nat := 4

  datatype CodeError = Length(count: nat) | Symbol(bad: char)

  predicate IsSymbol(c: char) {
    c in CODE_ALPHABET
  }

  predicate IsCode(s: string) {
    |s| == CODE_SYMBOLS && AllSymbols(s)
  }

  predicate AllSymbols(s: string) {
    forall i :: 0 <= i < |s| ==> IsSymbol(s[i])
  }

  // ----- minting

  /** `bits >> (5 * i)` */
  function Shifted(bits: nat, i: nat): nat {
    if i == 0 then bits else Shifted(bits, i - 1) / 32
  }

  function SymbolOf(p: nat): (c: char)
    requires p < 32
    ensures IsSymbol(c)
  {
    CODE_ALPHABET[p]
  }

  function SymbolAt(bits: nat, i: nat): (c: char)
    ensures IsSymbol(c)
  {
    SymbolOf(Shifted(bits, i) % 32)
  }

  function SymbolsOf(bits: nat): (s: string)
    ensures IsCode(s)
  {
    seq(CODE_SYMBOLS, i requires 0 <= i < CODE_SYMBOLS => SymbolAt(bits, i))
  }

  function Chunks(s: string, n: nat): seq<string>
    requires n > 0
  {
    if s == "" then [] else if |s| <= n then [s] else [s[..n]] + Chunks(s[n..], n)
  }

  function GenerateCode(bits: nat): string {
    Join(Chunks(SymbolsOf(bits), CODE_GROUP), '-')
  }

  // ----- typing

  /** The characters with the Unicode property White_Space. */
  predicate IsWhitespace(c: char) {
    var u := c as int;
    9 <= u <= 13 || u == 0x20 || u == 0x85 || u == 0xA0 || u == 0x1680 || 0x2000 <= u <= 0x200A
    || u == 0x2028 || u == 0x2029 || u == 0x202F || u == 0x205F || u == 0x3000
  }

  predicate IsFiller(c: char) {
    IsWhitespace(c) || c == '-'
  }

  function AsciiUpper(c: char): char {
    if 'a' <= c <= 'z' then (c as int - 32) as char else c
  }

  function Reduced(raw: string): string {
    if raw == "" then ""
    else if IsFiller(raw[0]) then Reduced(raw[1..])
    else [AsciiUpper(raw[0])] + Reduced(raw[1..])
  }

  /** Where the first character that is no symbol stands. */
  function FirstBad(s: string, from: nat): (r: Option<nat>)
    requires from <= |s|
    ensures r.None? ==> forall i :: from <= i < |s| ==> IsSymbol(s[i])
    ensures r.Some? ==> from <= r.value < |s| && !IsSymbol(s[r.value])
    ensures r.Some? ==> forall i :: from <= i < r.value ==> IsSymbol(s[i])
    decreases |s| - from
  {
    if from == |s| then None else if !IsSymbol(s[from]) then Some(from) else FirstBad(s, from + 1)
  }

  function NormalizeCode(raw: string): Result<string, CodeError> {
    var symbols := Reduced(raw);
    match FirstBad(symbols, 0)
    case Some(at) => Err(Symbol(symbols[at]))
    case None => if |symbols| == CODE_SYMBOLS then Ok(symbols) else Err(Length(|symbols|))
  }

  // ----- what typing may do to a code

  predicate SameButCase(typed: char, symbol: char) {
    typed == symbol || ('A' <= symbol <= 'Z' && typed as int == symbol as int + 32)
  }

  /** `raw` is `code` with fillers put in anywhere and letters in either case. */
  ghost predicate Spells(raw: string, code: string) {
    if raw == "" then code == ""
    else
      || (IsFiller(raw[0]) && Spells(raw[1..], code))
      || (code != "" && SameButCase(raw[0], code[0]) && Spells(raw[1..], code[1..]))
  }

  lemma SymbolsAreUpper(c: char)
    requires IsSymbol(c)
    ensures 'A' <= c <= 'Z' || '2' <= c <= '9'
  {
  }

  lemma CaseIsUpper(typed: char, symbol: char)
    requires IsSymbol(symbol)
    ensures SameButCase(typed, symbol) <==> !IsFiller(typed) && AsciiUpper(typed) == symbol
  {
    SymbolsAreUpper(symbol);
    hide IsSymbol;
    assert !IsFiller(symbol);
    if 'a' <= typed <= 'z' {
      assert !IsFiller(typed);
      assert AsciiUpper(typed) as int == typed as int - 32;
    }
  }

  lemma {:induction false} SpellsIsReduced(raw: string, code: string)
    requires AllSymbols(code)
    ensures Spells(raw, code) <==> Reduced(raw) == code
  {
    hide IsSymbol, IsFiller, AsciiUpper, SameButCase;
    if raw != "" {
      SpellsIsReduced(raw[1..], code);
      if code != "" {
        CaseIsUpper(raw[0], code[0]);
        SpellsIsReduced(raw[1..], code[1..]);
        HeadAndTail(Reduced(raw), AsciiUpper(raw[0]), Reduced(raw[1..]), code);
      }
    }
  }

  lemma HeadAndTail(s: string, head: char, tail: string, code: string)
    requires code != ""
    ensures s == [head] + tail ==> (s == code <==> head == code[0] && tail == code[1..])
  {
    assert [code[0]] + code[1..] == code;
    assert ([head] + tail)[1..] == tail;
  }

  /** Accepted is exactly what spells a code, and it is reduced to the code it spells. */
  lemma NormalizedIffSpells(raw: string, code: string)
    ensures NormalizeCode(raw) == Ok(code) <==> IsCode(code) && Spells(raw, code)
  {
    hide IsSymbol, Reduced, Spells;
    if AllSymbols(code) {
      SpellsIsReduced(raw, code);
    }
  }

  /** A foreign symbol is reported, the first one, whatever the length; a wrong length only when
      there is none. */
  lemma RefusedIff(raw: string, i: nat, n: nat)
    ensures i < |Reduced(raw)| && !IsSymbol(Reduced(raw)[i]) && AllSymbols(Reduced(raw)[..i])
            ==> NormalizeCode(raw) == Err(Symbol(Reduced(raw)[i]))
    ensures NormalizeCode(raw) == Err(Length(n)) <==>
            AllSymbols(Reduced(raw)) && n == |Reduced(raw)| && n != CODE_SYMBOLS
  {
    hide IsSymbol, Reduced;
    var s := Reduced(raw);
    if i < |s| && !IsSymbol(s[i]) && AllSymbols(s[..i]) {
      assert forall j :: 0 <= j < i ==> s[j] == s[..i][j];
    }
  }

  // ----- codes are the 60-bit numbers

  function Position(c: char): (p: nat)
    requires IsSymbol(c)
    ensures p < 32
  {
    SymbolsAreUpper(c);
    var u := c as int;
    if 'A' <= c <= 'H' then u - 65
    else if 'J' <= c <= 'N' then u - 66
    else if 'P' <= c <= 'Z' then u - 67
    else u - 26
  }

  lemma PositionOfSymbol(p: nat)
    requires p < 32
    ensures Position(SymbolOf(p)) == p
  {
    if p < 8 {
    } else if p < 13 {
    } else if p < 24 {
    } else {
    }
  }

  lemma SymbolOfPosition(c: char)
    requires IsSymbol(c)
    ensures SymbolOf(Position(c)) == c
  {
    var p :| 0 <= p < |CODE_ALPHABET| && CODE_ALPHABET[p] == c;
    PositionOfSymbol(p);
  }

  /** The number whose base-32 digits, lowest first, are the positions of the symbols. */
  function Number(s: string): nat
    requires AllSymbols(s)
  {
    if s == "" then 0
    else
      assert AllSymbols(s[1..]) by { assert forall i :: 0 <= i < |s[1..]| ==> s[1..][i] == s[i + 1]; }
      Position(s[0]) + 32 * Number(s[1..])
  }

  function Pow32(n: nat): (p: nat)
    ensures p > 0
  {
    if n == 0 then 1 else 32 * Pow32(n - 1)
  }

  lemma {:induction false} NumberBelow(s: string)
    requires AllSymbols(s)
    ensures Number(s) < Pow32(|s|)
  {
    hide IsSymbol, SymbolOf;
    if s != "" {
      assert AllSymbols(s[1..]) by { assert forall i :: 0 <= i < |s[1..]| ==> s[1..][i] == s[i + 1]; }
      NumberBelow(s[1..]);
    }
  }

  lemma {:induction false} ShiftedOnce(bits: nat, i: nat)
    ensures Shifted(bits, i + 1) == Shifted(bits / 32, i)
  {
    if i > 0 {
      ShiftedOnce(bits, i - 1);
    }
  }

  /** `s` holds the low digits of `bits`. */
  ghost predicate Digits(s: string, bits: nat) {
    forall i :: 0 <= i < |s| ==> s[i] == SymbolAt(bits, i)
  }

  lemma {:induction false} NumberOfDigits(s: string, bits: nat)
    requires AllSymbols(s) && Digits(s, bits)
    ensures Number(s) == bits % Pow32(|s|)
  {
    hide IsSymbol, SymbolOf;
    if s != "" {
      var rest, m := s[1..], Pow32(|s| - 1);
      forall i | 0 <= i < |rest| ensures rest[i] == SymbolAt(bits / 32, i) && IsSymbol(rest[i]) {
        assert rest[i] == s[i + 1];
        ShiftedOnce(bits, i);
      }
      NumberOfDigits(rest, bits / 32);
      PositionOfSymbol(bits % 32);
      ModOfProduct(bits, m);
    }
  }

  lemma ModOfProduct(bits: nat, m: nat)
    requires m > 0
    ensures bits % (32 * m) == bits % 32 + 32 * ((bits / 32) % m)
  {
    var q, r := bits / 32, bits % 32;
    var a, b := q / m, q % m;
    assert q == a * m + b;
    assert bits == (32 * m) * a + (r + 32 * b);
    ModUnique(bits, 32 * m, a, r + 32 * b);
  }

  lemma ModUnique(x: nat, d: nat, k: nat, r: nat)
    requires d > 0 && r < d && x == d * k + r
    ensures x % d == r
  {
    assert x == d * (x / d) + x % d;
    QuotientUnique(d, k, r, x / d, x % d);
  }

  lemma QuotientUnique(d: nat, k: nat, r: nat, k': nat, r': nat)
    requires r < d && r' < d && d * k + r == d * k' + r'
    ensures k == k' && r == r'
  {
    Grows(d, k, k');
    Grows(d, k', k);
  }

  lemma Grows(d: nat, k: nat, k': nat)
    ensures k < k' ==> d * k' >= d * k + d
  {
    if k < k' {
      var e := k' - k - 1;
      assert d * k' == d * (k + (1 + e)) == d * k + d * (1 + e) == d * k + (d + d * e);
    }
  }

  lemma {:induction false} DigitsOfNumber(s: string)
    requires AllSymbols(s)
    ensures Digits(s, Number(s))
  {
    hide IsSymbol, SymbolOf;
    if s != "" {
      var rest, n := s[1..], Number(s);
      assert AllSymbols(rest) by { assert forall i :: 0 <= i < |rest| ==> rest[i] == s[i + 1]; }
      DigitsOfNumber(rest);
      SymbolOfPosition(s[0]);
      assert n / 32 == Number(rest) && n % 32 == Position(s[0]);
      forall i | 0 <= i < |s| ensures s[i] == SymbolAt(n, i) {
        if i > 0 {
          ShiftedOnce(n, i - 1);
          assert s[i] == rest[i - 1];
        }
      }
    }
  }

  const CODE_NUMBERS: nat := 0x1000_0000_0000_0000

  lemma SixtyBits()
    ensures Pow32(CODE_SYMBOLS) == CODE_NUMBERS
  {
    assert Pow32(4) == 32 * Pow32(3) == 0x10_0000;
    assert Pow32(8) == 32 * Pow32(7) == 32 * 32 * Pow32(6) == 32 * 32 * 32 * Pow32(5);
    assert Pow32(12) == 32 * Pow32(11) == 32 * 32 * Pow32(10) == 32 * 32 * 32 * Pow32(9);
  }

  /** The symbols of a code are a bijection with the numbers of 60 bits: the low 60 of the random
      word are all there, and every code stands for one of them. */
  lemma CodesAreNumbers(bits: nat, code: string)
    requires IsCode(code)
    ensures Number(SymbolsOf(bits)) == bits % CODE_NUMBERS
    ensures Number(code) < CODE_NUMBERS && SymbolsOf(Number(code)) == code
  {
    hide IsSymbol, SymbolOf;
    SixtyBits();
    NumberOfDigits(SymbolsOf(bits), bits);
    NumberBelow(code);
    DigitsOfNumber(code);
  }

  // ----- a minted code, typed again

  lemma ReducedHead(c: char, rest: string)
    ensures Reduced([c] + rest) == (if IsFiller(c) then "" else [AsciiUpper(c)]) + Reduced(rest)
  {
    hide IsFiller, AsciiUpper;
    assert ([c] + rest)[1..] == rest;
  }

  lemma ReducedNothing()
    ensures Reduced("") == ""
  {
  }

  lemma {:induction false} FillersVanish(a: string, b: string)
    ensures Reduced(a + b) == Reduced(a) + Reduced(b)
  {
    hide Reduced, IsFiller, AsciiUpper;
    if a == "" {
      assert a + b == b;
      ReducedNothing();
    } else {
      var head := if IsFiller(a[0]) then "" else [AsciiUpper(a[0])];
      FillersVanish(a[1..], b);
      ReducedHead(a[0], a[1..]);
      ReducedHead(a[0], a[1..] + b);
      assert [a[0]] + a[1..] == a && [a[0]] + (a[1..] + b) == a + b;
      assert head + (Reduced(a[1..]) + Reduced(b)) == (head + Reduced(a[1..])) + Reduced(b);
    }
  }

  lemma {:induction false} SymbolsStay(s: string)
    requires AllSymbols(s)
    ensures Reduced(s) == s
  {
    hide IsSymbol, SymbolOf;
    if s != "" {
      SymbolsAreUpper(s[0]);
      assert AllSymbols(s[1..]) by { assert forall i :: 0 <= i < |s[1..]| ==> s[1..][i] == s[i + 1]; }
      SymbolsStay(s[1..]);
      assert [s[0]] + s[1..] == s;
    }
  }

  lemma DashVanishes()
    ensures Reduced("-") == ""
  {
    assert "-"[1..] == "";
  }

  lemma {:induction false} GroupsReduce(s: string, n: nat)
    requires n > 0 && AllSymbols(s)
    ensures Reduced(Join(Chunks(s, n), '-')) == s
  {
    hide IsSymbol, Reduced;
    if |s| <= n {
      SymbolsStay(s);
    } else {
      var head, tail := s[..n], s[n..];
      assert AllSymbols(tail) by { assert forall i :: 0 <= i < |tail| ==> tail[i] == s[i + n]; }
      assert AllSymbols(head);
      GroupsReduce(tail, n);
      SymbolsStay(head);
      var parts := Chunks(s, n);
      assert parts[1..] == Chunks(tail, n) && parts[1..] != [];
      var joined := Join(parts[1..], '-');
      assert Join(parts, '-') == (head + "-") + joined;
      FillersVanish(head + "-", joined);
      FillersVanish(head, "-");
      DashVanishes();
      assert head + tail == s;
    }
  }

  /** However a minted code is retyped, and that includes as minted, it is taken for the 60 bits it
      was made of. */
  lemma RetypedCodeIsRecovered(bits: nat, raw: string)
    ensures Spells(GenerateCode(bits), SymbolsOf(bits))
    ensures Spells(raw, SymbolsOf(bits)) <==>
      NormalizeCode(raw).Ok? && IsCode(NormalizeCode(raw).value) && Number(NormalizeCode(raw).value) == bits % CODE_NUMBERS
  {
    hide IsSymbol, SymbolOf;
    GroupsReduce(SymbolsOf(bits), CODE_GROUP);
    SpellsIsReduced(GenerateCode(bits), SymbolsOf(bits));
    NormalizedIffSpells(raw, SymbolsOf(bits));
    CodesAreNumbers(bits, SymbolsOf(bits));
    if NormalizeCode(raw).Ok? && IsCode(NormalizeCode(raw).value) {
      CodesAreNumbers(bits, NormalizeCode(raw).value);
    }
  }

  /** A minted code is three groups of four symbols, with a dash between. */
  lemma MintedShape(bits: nat)
    ensures var s := SymbolsOf(bits);
      |s| == 12 && GenerateCode(bits) == s[..4] + "-" + s[4..8] + "-" + s[8..]
  {
    hide IsSymbol, SymbolOf;
    var s := SymbolsOf(bits);
    var a, b, c := s[..4], s[4..8], s[8..];
    assert s[4..][..4] == b && s[4..][4..] == c;
    assert Chunks(c, 4) == [c];
    assert Chunks(s[4..], 4) == [b] + [c] == [b, c];
    assert Chunks(s, 4) == [a] + [b, c] == [a, b, c];
    assert [a, b, c][1..] == [b, c] && [b, c][1..] == [c];
    assert Join([b, c], '-') == b + ['-'] + c;
    assert a + ['-'] + (b + ['-'] + c) == a + "-" + b + "-" + c;
  }

  // ----- what is skipped

  /** The dash, and the white space of the Unicode Standard's property list. */
  const SKIPPED: set<char> := {
    '-', ' ', '\t', '\n', '\U{000B}', '\U{000C}', '\r', '\U{0085}', '\U{00A0}', '\U{1680}',
    '\U{2000}', '\U{2001}', '\U{2002}', '\U{2003}', '\U{2004}', '\U{2005}', '\U{2006}', '\U{2007}', '\U{2008}',
    '\U{2009}', '\U{200A}', '\U{2028}', '\U{2029}', '\U{202F}', '\U{205F}', '\U{3000}'}

  /** Exactly these characters can be put in anywhere, in anything typed, and make no difference. */
  lemma SkippedIff(c: char)
    ensures c in SKIPPED <==> forall a, b :: NormalizeCode(a + [c] + b) == NormalizeCode(a + b)
  {
    SkippedAreFillers(c);
    hide SKIPPED, IsSymbol, NormalizeCode, Reduced, IsFiller;
    if IsFiller(c) {
      forall a, b ensures NormalizeCode(a + [c] + b) == NormalizeCode(a + b) {
        FillerVanishes(a, c, b);
      }
    } else {
      KeptShows(c);
      assert "" + [c] + "" == [c] && "" + "" == "";
    }
  }

  lemma SkippedAreFillers(c: char)
    ensures c in SKIPPED <==> IsFiller(c)
  {
  }

  lemma FillerVanishes(a: string, c: char, b: string)
    requires IsFiller(c)
    ensures NormalizeCode(a + [c] + b) == NormalizeCode(a + b)
  {
    assert Reduced([c]) == "" by {
      assert [c][1..] == "";
    }
    hide Reduced, IsFiller, IsSymbol;
    FillersVanish(a + [c], b);
    FillersVanish(a, [c]);
    FillersVanish(a, b);
    assert Reduced(a) + "" == Reduced(a);
    var (with, without) := (Reduced(a + [c] + b), Reduced(a + b));
    assert with == without;
  }

  lemma KeptShows(c: char)
    requires !IsFiller(c)
    ensures NormalizeCode([c]) != NormalizeCode("")
  {
    hide IsFiller, IsSymbol;
    assert [c][1..] == "";
    assert Reduced([c]) == [AsciiUpper(c)] + "" == [AsciiUpper(c)];
    assert NormalizeCode("") == Err(Length(0));
  }

  /** `raw` is `code` with spaces, tabs and dashes put in. */
  ghost predicate Spaced(raw: string, code: string) {
    if raw == "" then code == ""
    else
      || (raw[0] in {' ', '\t', '-'} && Spaced(raw[1..], code))
      || (code != "" && raw[0] == code[0] && Spaced(raw[1..], code[1..]))
  }

  lemma {:induction false} SpacedSpells(raw: string, code: string)
    requires Spaced(raw, code)
    ensures Spells(raw, code)
  {
    if raw != "" {
      if raw[0] in {' ', '\t', '-'} && Spaced(raw[1..], code) {
        SpacedSpells(raw[1..], code);
      } else {
        SpacedSpells(raw[1..], code[1..]);
      }
    }
  }

  /** Spaces, tabs and dashes can be put in a code anywhere: it is still that code. */
  lemma SpacedIsTheCode(raw: string, code: string)
    requires IsCode(code) && Spaced(raw, code)
    ensures NormalizeCode(raw) == Ok(code)
  {
    SpacedSpells(raw, code);
    NormalizedIffSpells(raw, code);
  }
}
