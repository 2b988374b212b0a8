/** The account credential: `mi1.<id>.<secret>`, both parts in lowercase hex. */
module Bearer {
  import opened Wrappers
  import opened Bytes
  import opened Text

  const CREDENTIAL_PREFIX := "mi1"
  const ID_BYTES: nat := 16
  const SECRET_BYTES: nat := 32

  function HexDigit(v: nat): (c: char)
    requires v < 16
    ensures IsLowerHex(c)
  {
    if v < 10 then '0' + v as char else 'a' + (v - 10) as char
  }

  predicate IsLowerHex(c: char) {
    '0' <= c <= '9' || 'a' <= c <= 'f'
  }

  function HexValue(c: char): (v: nat)
    requires IsLowerHex(c)
    ensures v < 16
  {
    if c <= '9' then (c - '0') as int else (c - 'a') as int + 10
  }

  function Hex(b: seq<byte>): (text: string)
    ensures |text| == 2 * |b| && forall i :: 0 <= i < |text| ==> IsLowerHex(text[i])
  {
    if b == [] then "" else [HexDigit(b[0] / 16), HexDigit(b[0] % 16)] + Hex(b[1..])
  }

  function Unhex(text: string): (b: seq<byte>)
    requires |text| % 2 == 0 && forall i :: 0 <= i < |text| ==> IsLowerHex(text[i])
    ensures 2 * |b| == |text|
  {
    if text == "" then [] else [HexValue(text[0]) * 16 + HexValue(text[1])] + Unhex(text[2..])
  }

  /** `lower_hex::<N>`: exactly 2N digits, and no uppercase ones. */
  function LowerHex(n: nat, text: string): Option<seq<byte>> {
    if |text| == 2 * n && forall i :: 0 <= i < |text| ==> IsLowerHex(text[i]) then Some(Unhex(text)) else None
  }

  lemma {:induction false} UnhexHex(b: seq<byte>)
    ensures Unhex(Hex(b)) == b
  {
    if b != [] {
      UnhexHex(b[1..]);
      assert Hex(b)[2..] == Hex(b[1..]);
      assert HexValue(HexDigit(b[0] / 16)) == b[0] / 16 && HexValue(HexDigit(b[0] % 16)) == b[0] % 16;
      assert [b[0]] + b[1..] == b;
    }
  }

  lemma {:induction false} HexUnhex(text: string)
    requires |text| % 2 == 0 && forall i :: 0 <= i < |text| ==> IsLowerHex(text[i])
    ensures Hex(Unhex(text)) == text
  {
    if text != "" {
      HexUnhex(text[2..]);
      var b := Unhex(text);
      assert b[1..] == Unhex(text[2..]);
      assert b[0] / 16 == HexValue(text[0]) && b[0] % 16 == HexValue(text[1]);
      assert HexDigit(HexValue(text[0])) == text[0] && HexDigit(HexValue(text[1])) == text[1];
      assert [text[0], text[1]] + text[2..] == text;
    }
  }

  /** Two digits a byte, the high one first, out of these sixteen. */
  ghost predicate InHex(text: string, b: seq<byte>) {
    var digits := "0123456789abcdef";
    |text| == 2 * |b| && forall i :: 0 <= i < |b| ==> text[2 * i..2 * i + 2] == [digits[b[i] / 16], digits[b[i] % 16]]
  }

  lemma HexDigitIs(v: nat)
    requires v < 16
    ensures HexDigit(v) == "0123456789abcdef"[v]
  {
  }

  lemma HexHead(b: seq<byte>)
    requires b != []
    ensures var digits := "0123456789abcdef"; Hex(b) == [digits[b[0] / 16], digits[b[0] % 16]] + Hex(b[1..])
  {
    HexDigitIs(b[0] / 16);
    HexDigitIs(b[0] % 16);
    hide HexDigit;
  }

  lemma {:induction false} HexIs(b: seq<byte>)
    ensures InHex(Hex(b), b)
  {
    if b != [] {
      HexIs(b[1..]);
      HexHead(b);
      hide Hex;
      OneMoreByte(b, Hex(b), Hex(b[1..]));
    }
  }

  lemma OneMoreByte(b: seq<byte>, text: string, rest: string)
    requires b != [] && InHex(rest, b[1..])
    requires var digits := "0123456789abcdef"; text == [digits[b[0] / 16], digits[b[0] % 16]] + rest
    ensures InHex(text, b)
  {
    var digits := "0123456789abcdef";
    forall i | 0 <= i < |b| ensures text[2 * i..2 * i + 2] == [digits[b[i] / 16], digits[b[i] % 16]] {
      if i > 0 {
        assert b[i] == b[1..][i - 1];
        assert text[2 * i..2 * i + 2] == rest[2 * (i - 1)..2 * (i - 1) + 2];
      }
    }
  }

  /** Every byte string has one accepted spelling. */
  lemma LowerHexIsCanonical(n: nat, text: string, b: seq<byte>)
    ensures LowerHex(n, text) == Some(b) <==> |b| == n && text == Hex(b)
  {
    if LowerHex(n, text) == Some(b) {
      HexUnhex(text);
    }
    if |b| == n && text == Hex(b) {
      UnhexHex(b);
    }
  }

  function BearerOf(id: seq<byte>, secret: seq<byte>): string {
    Join([CREDENTIAL_PREFIX, Hex(id), Hex(secret)], '.')
  }

  function ParseBearer(raw: string): Option<(seq<byte>, seq<byte>)> {
    var parts := Split(raw, '.');
    if |parts| < 3 then None
    else if parts[0] != CREDENTIAL_PREFIX || |parts| > 3 then None
    else
      match LowerHex(ID_BYTES, parts[1])
      case None => None
      case Some(id) =>
        match LowerHex(SECRET_BYTES, parts[2])
        case None => None
        case Some(secret) => Some((id, secret))
  }

  lemma BearerIs(id: seq<byte>, secret: seq<byte>)
    ensures BearerOf(id, secret) == "mi1." + Hex(id) + "." + Hex(secret)
  {
    var parts := [CREDENTIAL_PREFIX, Hex(id), Hex(secret)];
    hide Hex;
    assert parts[1..] == [Hex(id), Hex(secret)] && parts[1..][1..] == [Hex(secret)];
    assert Join([Hex(secret)], '.') == Hex(secret);
    assert Join(parts[1..], '.') == Hex(id) + ['.'] + Hex(secret);
    assert "mi1" + ['.'] + (Hex(id) + ['.'] + Hex(secret)) == "mi1." + Hex(id) + "." + Hex(secret);
  }

  /** A bearer is accepted exactly when it is the one spelling of an id and a secret, and it is
      read as that id and that secret. */
  lemma ParseIffBearer(raw: string, id: seq<byte>, secret: seq<byte>)
    ensures ParseBearer(raw) == Some((id, secret))
            <==> |id| == 16 && |secret| == 32 && raw == "mi1." + Hex(id) + "." + Hex(secret)
  {
    BearerIs(id, secret);
    var parts := [CREDENTIAL_PREFIX, Hex(id), Hex(secret)];
    assert NoneHolds(parts, '.');
    SplitIff(raw, parts, '.');
    if ParseBearer(raw) == Some((id, secret)) {
      var got := Split(raw, '.');
      LowerHexIsCanonical(ID_BYTES, got[1], id);
      LowerHexIsCanonical(SECRET_BYTES, got[2], secret);
      assert got == parts;
    }
    if |id| == ID_BYTES && |secret| == SECRET_BYTES && raw == BearerOf(id, secret) {
      LowerHexIsCanonical(ID_BYTES, parts[1], id);
      LowerHexIsCanonical(SECRET_BYTES, parts[2], secret);
    }
  }

  /** What is presented in hex verifies exactly when it spells the expected MAC. */
  predicate VerifyMac(expected: seq<byte>, presented: string)
    requires |expected| == 32
    ensures VerifyMac(expected, presented) <==> presented == Hex(expected)
  {
    LowerHexIsCanonical(32, presented, expected);
    LowerHex(32, presented) == Some(expected)
  }
}
