/** Standard Base64 with padding, section 4 of RFC 4648: the encoder, and a strict decoder to hold
    it against. */
module Base64 {
  import opened Wrappers
  import opened Bytes

  const UPPER := "ABCDEFGHIJKLMNOPQRSTUVWXYZ"
  const LOWER := "abcdefghijklmnopqrstuvwxyz"
  const REST := "0123456789+/"

  type sextet = v: int | 0 <= v < 64

  /** The table of 64, in its three runs. */
  function Letter(v: sextet): char {
    (UPPER + LOWER + REST)[v]
  }

  // ----- the encoder

  function ByteOr0(chunk: seq<byte>, i: nat): byte {
    if i < |chunk| then chunk[i] else 0
  }

  /** The chunk at the top of 24 bits, zeros below it. */
  function Group(chunk: seq<byte>): (g: nat)
    ensures g < 0x100_0000
  {
    (ByteOr0(chunk, 0) as int) * 0x1_0000 + (ByteOr0(chunk, 1) as int) * 0x100 + ByteOr0(chunk, 2)
  }

  /** `(group >> (18 - 6 * i)) & 63` */
  function SextetOf(group: nat, i: nat): sextet
    requires i < 4
  {
    (if i == 0 then group / 0x4_0000 else if i == 1 then group / 0x1000 else if i == 2 then group / 0x40 else group) % 64
  }

  function EncodedAt(chunk: seq<byte>, i: nat): char
    requires i < 4
  {
    if i <= |chunk| then Letter(SextetOf(Group(chunk), i)) else '='
  }

  function EncodeChunk(chunk: seq<byte>): (quad: string)
    ensures |quad| == 4
  {
    [EncodedAt(chunk, 0), EncodedAt(chunk, 1), EncodedAt(chunk, 2), EncodedAt(chunk, 3)]
  }

  function Encoded(bytes: seq<byte>): string {
    if bytes == [] then "" else if |bytes| <= 3 then EncodeChunk(bytes) else EncodeChunk(bytes[..3]) + Encoded(bytes[3..])
  }

  lemma NothingLeft(bytes: seq<byte>)
    requires bytes == []
    ensures Encoded(bytes) == ""
  {
  }

  lemma ChunkAtATime(bytes: seq<byte>, at: nat, end: nat)
    requires at < end <= |bytes| && end == if at + 3 <= |bytes| then at + 3 else |bytes|
    ensures Encoded(bytes[at..]) == EncodeChunk(bytes[at..end]) + Encoded(bytes[end..])
  {
    hide EncodeChunk;
    var left := bytes[at..];
    if |left| <= 3 {
      assert left == bytes[at..end];
    } else {
      assert left[..3] == bytes[at..end] && left[3..] == bytes[end..];
    }
  }

  method EncodeBase64(bytes: seq<byte>) returns (out: string)
    ensures out == Encoded(bytes)
  {
    hide Encoded, Group, SextetOf, Letter;
    out := "";
    var at := 0;
    while at < |bytes|
      invariant 0 <= at <= |bytes|
      invariant out + Encoded(bytes[at..]) == Encoded(bytes)
    {
      var end := if at + 3 <= |bytes| then at + 3 else |bytes|;
      var chunk := bytes[at..end];
      var group := Group(chunk);
      ghost var done := out;
      for i := 0 to 4
        invariant out == done + EncodeChunk(chunk)[..i]
      {
        if i <= |chunk| {
          out := out + [Letter(SextetOf(group, i))];
        } else {
          out := out + ['='];
        }
      }
      ChunkAtATime(bytes, at, end);
      at := end;
    }
    NothingLeft(bytes[at..]);
  }

  // ----- the decoder

  predicate IsLetter(c: char) {
    'A' <= c <= 'Z' || 'a' <= c <= 'z' || '0' <= c <= '9' || c == '+' || c == '/'
  }

  function Value(c: char): sextet
    requires IsLetter(c)
  {
    var u := c as int;
    if 'A' <= c <= 'Z' then u - 65
    else if 'a' <= c <= 'z' then u - 71
    else if '0' <= c <= '9' then u + 4
    else if c == '+' then 62 else 63
  }

  lemma UpperAt(v: nat)
    requires v < 26
    ensures UPPER[v] as int == v + 65
  {
  }

  lemma LowerAt(v: nat)
    requires v < 26
    ensures LOWER[v] as int == v + 97
  {
  }

  lemma RestAt(v: nat)
    requires v < 12
    ensures if v < 10 then REST[v] as int == v + 48 else REST[v] == if v == 10 then '+' else '/'
  {
  }

  lemma LettersAreValues(v: sextet)
    ensures IsLetter(Letter(v)) && Value(Letter(v)) == v
  {
    if v < 26 {
      UpperAt(v);
    } else if v < 52 {
      LowerAt(v - 26);
    } else {
      RestAt(v - 52);
    }
  }

  lemma ValuesAreLetters(c: char)
    requires IsLetter(c)
    ensures Letter(Value(c)) == c
  {
    LettersAreValues(Value(c));
    SameValue(Letter(Value(c)), c);
  }

  lemma SameValue(c: char, d: char)
    requires IsLetter(c) && IsLetter(d) && Value(c) == Value(d)
    ensures c == d
  {
    assert c as int == d as int;
  }

  /** Up to three bytes out of four characters; bits that stand for no byte are zero. */
  function DecodeQuad(q: string): Option<seq<byte>>
    requires |q| == 4
  {
    if !(IsLetter(q[0]) && IsLetter(q[1])) then None
    else
      var a, b := Value(q[0]), Value(q[1]);
      var first: byte := a * 4 + b / 16;
      if q[2] == '=' then
        if q[3] == '=' && b % 16 == 0 then Some([first]) else None
      else if !IsLetter(q[2]) then None
      else
        var c := Value(q[2]);
        var second: byte := b % 16 * 16 + c / 4;
        if q[3] == '=' then
          if c % 4 == 0 then Some([first, second]) else None
        else if !IsLetter(q[3]) then None
        else Some([first, second, c % 4 * 64 + Value(q[3])])
  }

  /** Padding is taken in the last quad only. */
  function Decode(text: string): Option<seq<byte>> {
    if text == "" then Some([])
    else if |text| < 4 then None
    else
      match DecodeQuad(text[..4])
      case None => None
      case Some(chunk) =>
        if |text| == 4 then Some(chunk)
        else if |chunk| < 3 then None
        else
          match Decode(text[4..])
          case None => None
          case Some(rest) => Some(chunk + rest)
  }

  // ----- one group of 24 bits

  lemma Quotients(g: nat, x: nat, y: nat, z: nat)
    requires g == x * 0x1_0000 + y * 0x100 + z && x < 256 && y < 256 && z < 256
    ensures g / 0x40 == x * 1024 + y * 4 + z / 64 && g / 0x1000 == x * 16 + y / 16 && g / 0x4_0000 == x / 4
  {
    assert g == 0x40 * (x * 1024 + y * 4 + z / 64) + z % 64;
    assert g == 0x1000 * (x * 16 + y / 16) + (y % 16 * 0x100 + z);
    assert g == 0x4_0000 * (x / 4) + (x % 4 * 0x1_0000 + y * 0x100 + z);
  }

  lemma Remainders(x: nat, y: nat, z: nat)
    requires x < 256 && y < 256 && z < 256
    ensures x / 4 % 64 == x / 4 && (x * 16 + y / 16) % 64 == x % 4 * 16 + y / 16
    ensures (x * 1024 + y * 4 + z / 64) % 64 == y % 16 * 4 + z / 64
    ensures (x * 0x1_0000 + y * 0x100 + z) % 64 == z % 64
  {
    Remainder(x * 16 + y / 16, x / 4, x % 4 * 16 + y / 16);
    Remainder(x * 1024 + y * 4 + z / 64, x * 16 + y / 16, y % 16 * 4 + z / 64);
    Remainder(x * 0x1_0000 + y * 0x100 + z, x * 1024 + y * 4 + z / 64, z % 64);
  }

  lemma Remainder(n: nat, q: nat, r: nat)
    requires n == 64 * q + r && r < 64
    ensures n % 64 == r
  {
  }

  lemma SextetsOfBytes(chunk: seq<byte>)
    requires 1 <= |chunk| <= 3
    ensures var g := Group(chunk); var x, y, z := ByteOr0(chunk, 0), ByteOr0(chunk, 1), ByteOr0(chunk, 2);
      && SextetOf(g, 0) == x / 4 && SextetOf(g, 1) == x % 4 * 16 + y / 16
      && SextetOf(g, 2) == y % 16 * 4 + z / 64 && SextetOf(g, 3) == z % 64
  {
    var g := Group(chunk);
    var x, y, z := ByteOr0(chunk, 0) as int, ByteOr0(chunk, 1) as int, ByteOr0(chunk, 2) as int;
    assert g == x * 0x1_0000 + y * 0x100 + z;
    hide Group, ByteOr0;
    Quotients(g, x, y, z);
    Remainders(x, y, z);
  }

  /** A quad as the four values it spells. */
  lemma QuadOfValues(q: string, a: sextet, b: sextet, c: sextet, d: sextet)
    requires |q| == 4 && q[0] == Letter(a) && q[1] == Letter(b)
    ensures q[2..] == "==" && b % 16 == 0 ==> DecodeQuad(q) == Some([a * 4 + b / 16])
    ensures q[2] == Letter(c) && q[3] == '=' && c % 4 == 0 ==> DecodeQuad(q) == Some([a * 4 + b / 16, b % 16 * 16 + c / 4])
    ensures q[2] == Letter(c) && q[3] == Letter(d) ==>
      DecodeQuad(q) == Some([a * 4 + b / 16, b % 16 * 16 + c / 4, c % 4 * 64 + d])
  {
    hide Letter, Value, IsLetter;
    LettersAreValues(a);
    LettersAreValues(b);
    LettersAreValues(c);
    LettersAreValues(d);
    PadIsNoLetter();
    assert q[2] == q[2..][0] && q[3] == q[2..][1];
  }

  lemma BytesBack(x: byte, y: byte, z: byte, a: int, b: int, c: int, d: int)
    requires a == x / 4 && b == x % 4 * 16 + y / 16 && c == y % 16 * 4 + z / 64 && d == z % 64
    ensures a * 4 + b / 16 == x && b % 16 * 16 + c / 4 == y && c % 4 * 64 + d == z
    ensures (y == 0 ==> b % 16 == 0) && (z == 0 ==> c % 4 == 0)
  {
  }

  lemma QuadOfChunk(chunk: seq<byte>)
    requires 1 <= |chunk| <= 3
    ensures DecodeQuad(EncodeChunk(chunk)) == Some(chunk)
  {
    hide Letter, SextetOf, DecodeQuad, Group;
    SextetsOfBytes(chunk);
    var g, q := Group(chunk), EncodeChunk(chunk);
    var a, b, c, d := SextetOf(g, 0), SextetOf(g, 1), SextetOf(g, 2), SextetOf(g, 3);
    BytesBack(ByteOr0(chunk, 0), ByteOr0(chunk, 1), ByteOr0(chunk, 2), a, b, c, d);
    assert q[0] == Letter(a) && q[1] == Letter(b);
    QuadOfValues(q, a, b, c, d);
    if |chunk| == 1 {
      assert q[2..] == "==";
      assert chunk == [chunk[0]];
    } else if |chunk| == 2 {
      assert chunk == [chunk[0], chunk[1]];
    } else {
      assert chunk == [chunk[0], chunk[1], chunk[2]];
    }
  }

  lemma PadIsNoLetter()
    ensures !IsLetter('=')
  {
  }

  /** The inverse of the bytes a decoder makes of four values. */
  lemma ValuesBack(a: sextet, b: sextet, c: sextet, d: sextet, x: byte, y: byte, z: byte)
    requires x == a * 4 + b / 16 && y == b % 16 * 16 + c / 4 && z == c % 4 * 64 + d
    ensures x / 4 == a && x % 4 * 16 + y / 16 == b && y % 16 * 4 + z / 64 == c && z % 64 == d
  {
  }

  /** A chunk whose bytes are made of four values is encoded as the letters of as many of them as
      it needs. */
  lemma LettersOfChunk(chunk: seq<byte>, a: sextet, b: sextet, c: sextet, d: sextet)
    requires 1 <= |chunk| <= 3
    requires ByteOr0(chunk, 0) == a * 4 + b / 16 && ByteOr0(chunk, 1) == b % 16 * 16 + c / 4 && ByteOr0(chunk, 2) == c % 4 * 64 + d
    ensures EncodeChunk(chunk) ==
      [Letter(a), Letter(b), if |chunk| >= 2 then Letter(c) else '=', if |chunk| == 3 then Letter(d) else '=']
  {
    hide Letter, SextetOf, Group;
    SextetsOfBytes(chunk);
    ValuesBack(a, b, c, d, ByteOr0(chunk, 0), ByteOr0(chunk, 1), ByteOr0(chunk, 2));
  }

  lemma FourLetters(q: string, a: char, b: char, c: char, d: char)
    requires |q| == 4 && q[0] == a && q[1] == b && q[2] == c && q[3] == d
    ensures q == [a, b, c, d]
  {
  }

  lemma PaddedTwice(q: string)
    requires |q| == 4 && DecodeQuad(q).Some? && q[2] == '='
    ensures |DecodeQuad(q).value| == 1 && EncodeChunk(DecodeQuad(q).value) == q
  {
    hide Letter, Value, IsLetter, SextetOf, Group, EncodeChunk;
    var a, b := Value(q[0]), Value(q[1]);
    ValuesAreLetters(q[0]);
    ValuesAreLetters(q[1]);
    LettersOfChunk(DecodeQuad(q).value, a, b, 0, 0);
    FourLetters(q, Letter(a), Letter(b), '=', '=');
  }

  lemma PaddedOnce(q: string)
    requires |q| == 4 && DecodeQuad(q).Some? && q[2] != '=' && q[3] == '='
    ensures |DecodeQuad(q).value| == 2 && EncodeChunk(DecodeQuad(q).value) == q
  {
    hide Letter, Value, IsLetter, SextetOf, Group, EncodeChunk;
    var a, b, c := Value(q[0]), Value(q[1]), Value(q[2]);
    ValuesAreLetters(q[0]);
    ValuesAreLetters(q[1]);
    ValuesAreLetters(q[2]);
    LettersOfChunk(DecodeQuad(q).value, a, b, c, 0);
    FourLetters(q, Letter(a), Letter(b), Letter(c), '=');
  }

  lemma NotPadded(q: string)
    requires |q| == 4 && DecodeQuad(q).Some? && q[2] != '=' && q[3] != '='
    ensures |DecodeQuad(q).value| == 3 && EncodeChunk(DecodeQuad(q).value) == q
  {
    hide Letter, Value, IsLetter, SextetOf, Group, EncodeChunk;
    var a, b, c, d := Value(q[0]), Value(q[1]), Value(q[2]), Value(q[3]);
    ValuesAreLetters(q[0]);
    ValuesAreLetters(q[1]);
    ValuesAreLetters(q[2]);
    ValuesAreLetters(q[3]);
    LettersOfChunk(DecodeQuad(q).value, a, b, c, d);
    FourLetters(q, Letter(a), Letter(b), Letter(c), Letter(d));
  }

  lemma ChunkOfQuad(q: string)
    requires |q| == 4 && DecodeQuad(q).Some?
    ensures 1 <= |DecodeQuad(q).value| <= 3 && EncodeChunk(DecodeQuad(q).value) == q
  {
    hide DecodeQuad, EncodeChunk;
    if q[2] == '=' {
      PaddedTwice(q);
    } else if q[3] == '=' {
      PaddedOnce(q);
    } else {
      NotPadded(q);
    }
  }

  // ----- the whole text

  lemma {:induction false} DecodeEncoded(bytes: seq<byte>)
    ensures Decode(Encoded(bytes)) == Some(bytes)
  {
    hide DecodeQuad, EncodeChunk;
    if bytes == [] {
    } else if |bytes| <= 3 {
      QuadOfChunk(bytes);
      assert EncodeChunk(bytes)[..4] == EncodeChunk(bytes);
    } else {
      var chunk, rest := bytes[..3], bytes[3..];
      QuadOfChunk(chunk);
      DecodeEncoded(rest);
      assert Encoded(bytes)[..4] == EncodeChunk(chunk) && Encoded(bytes)[4..] == Encoded(rest);
      assert chunk + rest == bytes;
    }
  }

  lemma {:induction false} EncodedDecode(text: string)
    requires Decode(text).Some?
    ensures Encoded(Decode(text).value) == text
  {
    hide DecodeQuad, EncodeChunk;
    if text != "" {
      var q := text[..4];
      ChunkOfQuad(q);
      var chunk := DecodeQuad(q).value;
      if |text| == 4 {
        assert q == text;
      } else {
        var rest := Decode(text[4..]).value;
        EncodedDecode(text[4..]);
        assert (chunk + rest)[..3] == chunk && (chunk + rest)[3..] == rest;
        assert rest != [];
        assert q + text[4..] == text;
      }
    }
  }

  /** The decoder takes exactly the texts the encoder writes, each for the bytes it was written
      from; so no two byte strings share a text. */
  lemma DecodesIffEncoded(text: string, bytes: seq<byte>)
    ensures Decode(text) == Some(bytes) <==> text == Encoded(bytes)
  {
    if Decode(text).Some? {
      EncodedDecode(text);
    }
    DecodeEncoded(bytes);
  }

  lemma PaddingOfChunk(chunk: seq<byte>, i: nat)
    requires i < 4
    ensures EncodeChunk(chunk)[i] == '=' <==> i > |chunk|
  {
    hide Letter, SextetOf, Group;
    LettersAreValues(SextetOf(Group(chunk), i));
    PadIsNoLetter();
  }

  /** Four characters for every three bytes begun, and padding for the missing bytes at the very
      end and nowhere else. */
  lemma {:induction false} LengthAndPadding(bytes: seq<byte>, i: nat)
    ensures |Encoded(bytes)| == (|bytes| + 2) / 3 * 4
    ensures i < |Encoded(bytes)| ==>
      (Encoded(bytes)[i] == '=' <==> i >= |Encoded(bytes)| - (3 - |bytes| % 3) % 3)
  {
    hide EncodeChunk;
    if |bytes| > 3 {
      LengthAndPadding(bytes[3..], if i >= 4 then i - 4 else 0);
      if i < 4 {
        PaddingOfChunk(bytes[..3], i);
      }
    } else if bytes != [] && i < 4 {
      PaddingOfChunk(bytes, i);
    }
  }
}
