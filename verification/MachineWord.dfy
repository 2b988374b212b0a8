/** The padded group of the Base64 encoder as a 32-bit word, and its shifts and mask held against the
    quotients and remainders of the model. */
module MachineWord {
  import opened Bytes
  import opened Base64

  /** A zero byte and three others, the first the most significant. */
  function Word(x: bv32, y: bv32, z: bv32): bv32 {
    (x << 16) | (y << 8) | z
  }

  /** `(w >> (18 - 6 * i)) & 63` */
  function Field(w: bv32, i: nat): bv32
    requires i < 4
  {
    (if i == 0 then w >> 18 else if i == 1 then w >> 12 else if i == 2 then w >> 6 else w) & 63
  }

  /** In the word the shifts and the mask take out the four six-bit fields of three bytes. */
  lemma ShiftsAndMask(x: bv32, y: bv32, z: bv32)
    requires x < 256 && y < 256 && z < 256
    ensures var g := Word(x, y, z);
      && (g >> 18) & 63 == x >> 2 && (g >> 12) & 63 == ((x & 3) << 4) | (y >> 4)
      && (g >> 6) & 63 == ((y & 15) << 2) | (z >> 6) && g & 63 == z & 63
  {
  }

  // ----- the number a word stands for

  function Bit(g: bv32): nat {
    if g & 1 == 1 then 1 else 0
  }

  /** The number its n low bits write. */
  function Number(g: bv32, n: nat): nat {
    if n == 0 then 0 else Bit(g) + 2 * Number(g >> 1, n - 1)
  }

  lemma Halves(g: bv32)
    requires g < 256
    ensures g as int == (if g & 1 == 1 then 1 else 0) + 2 * ((g >> 1) as int)
  {
  }

  function Pow2(n: nat): (p: nat)
    ensures p > 0
  {
    if n == 0 then 1 else 2 * Pow2(n - 1)
  }

  lemma {:induction false} NumberIs(g: bv32, n: nat)
    requires g < 256 && g as int < Pow2(n)
    ensures Number(g, n) == g as int
  {
    if n > 0 {
      Halves(g);
      ShiftedBelow(g);
      NumberIs(g >> 1, n - 1);
    }
  }

  lemma ShiftedBelow(g: bv32)
    requires g < 256
    ensures g >> 1 < 256
  {
  }

  /** The low bits of a byte, or of six of them, write the number it is. */
  lemma ByteNumber(g: bv32)
    ensures g < 256 ==> Number(g, 8) == g as int
    ensures g < 64 ==> Number(g, 6) == g as int
  {
    assert Pow2(3) == 2 * Pow2(2) == 8;
    assert Pow2(6) == 2 * Pow2(5) == 2 * (2 * Pow2(4)) == 64;
    assert Pow2(8) == 2 * Pow2(7) == 2 * (2 * Pow2(6)) == 256;
    hide Number;
    if g < 256 {
      NumberIs(g, 8);
    }
    if g < 64 {
      NumberIs(g, 6);
    }
  }

  lemma Two(g: bv32, n: nat)
    ensures Number(g, n + 2) == Number(g, 2) + 4 * Number(g >> 2, n) && Number(g, 2) < 4
  {
    assert (g >> 1) >> 1 == g >> 2;
    assert Number(g, n + 2) == Bit(g) + 2 * Number(g >> 1, n + 1);
    assert Number(g >> 1, n + 1) == Bit(g >> 1) + 2 * Number((g >> 1) >> 1, n);
    assert Number(g, 2) == Bit(g) + 2 * Number(g >> 1, 1);
    assert Number(g >> 1, 1) == Bit(g >> 1) + 2 * Number((g >> 1) >> 1, 0);
  }

  lemma Four(g: bv32, n: nat)
    ensures Number(g, n + 4) == Number(g, 4) + 16 * Number(g >> 4, n) && Number(g, 4) < 16
  {
    assert (g >> 2) >> 2 == g >> 4;
    hide Number;
    Two(g, n + 2);
    Two(g >> 2, n);
    Two(g, 2);
    Two(g >> 2, 0);
  }

  lemma Six(g: bv32, n: nat)
    ensures Number(g, n + 6) == Number(g, 6) + 64 * Number(g >> 6, n) && Number(g, 6) < 64
  {
    assert (g >> 4) >> 2 == g >> 6;
    hide Number;
    Four(g, n + 2);
    Two(g >> 4, n);
    Four(g, 2);
    Two(g >> 4, 0);
  }

  lemma Eight(g: bv32, n: nat)
    ensures Number(g, n + 8) == Number(g, 8) + 256 * Number(g >> 8, n) && Number(g, 8) < 256
  {
    assert (g >> 4) >> 4 == g >> 8;
    hide Number;
    Four(g, n + 4);
    Four(g >> 4, n);
    Four(g, 4);
    Four(g >> 4, 0);
  }

  // ----- bits above do not count

  lemma SameTwo(g: bv32, h: bv32)
    requires g & 3 == h & 3
    ensures Number(g, 2) == Number(h, 2)
  {
    assert g & 1 == h & 1 && (g >> 1) & 1 == (h >> 1) & 1;
    assert Number(g, 2) == Bit(g) + 2 * Number(g >> 1, 1) && Number(h, 2) == Bit(h) + 2 * Number(h >> 1, 1);
  }

  lemma SameFour(g: bv32, h: bv32)
    requires g & 15 == h & 15
    ensures Number(g, 4) == Number(h, 4)
  {
    assert g & 3 == h & 3 && (g >> 2) & 3 == (h >> 2) & 3;
    hide Number;
    Two(g, 2);
    Two(h, 2);
    SameTwo(g, h);
    SameTwo(g >> 2, h >> 2);
  }

  lemma SameSix(g: bv32, h: bv32)
    requires g & 63 == h & 63
    ensures Number(g, 6) == Number(h, 6)
  {
    assert g & 15 == h & 15 && (g >> 4) & 3 == (h >> 4) & 3;
    hide Number;
    Four(g, 2);
    Four(h, 2);
    SameFour(g, h);
    SameTwo(g >> 4, h >> 4);
  }

  lemma SameEight(g: bv32, h: bv32)
    requires g & 255 == h & 255
    ensures Number(g, 8) == Number(h, 8)
  {
    assert g & 15 == h & 15 && (g >> 4) & 15 == (h >> 4) & 15;
    hide Number;
    Four(g, 4);
    Four(h, 4);
    SameFour(g, h);
    SameFour(g >> 4, h >> 4);
  }

  // ----- the link

  lemma WordBytes(x: bv32, y: bv32, z: bv32, g: bv32, s: bv32, t: bv32)
    requires x < 256 && y < 256 && z < 256
    requires g == Word(x, y, z) && s == g >> 8 && t == s >> 8
    ensures g & 255 == z & 255 && s & 255 == y & 255 && t & 255 == x & 255
  {
  }

  lemma LowestByte(g: bv32, b: bv32, above: bv32, n: nat)
    requires above == g >> 8 && g & 255 == b & 255
    ensures Number(g, n + 8) == Number(b, 8) + 256 * Number(above, n)
  {
    hide Number;
    Eight(g, n);
    SameEight(g, b);
  }

  lemma ShiftTwice(g: bv32)
    ensures (g >> 6) >> 6 == g >> 12 && (g >> 12) >> 6 == g >> 18
  {
  }

  lemma MaskedSix(g: bv32)
    ensures Number(g, 6) == Number(g & 63, 6)
  {
    assert g & 63 == (g & 63) & 63;
    hide Number;
    SameSix(g, g & 63);
  }

  /** Three bytes, in the word, write the number of the group. */
  lemma WordIsGroup(x: bv32, y: bv32, z: bv32)
    requires x < 256 && y < 256 && z < 256
    ensures Number(Word(x, y, z), 24) == (x as int) * 0x1_0000 + (y as int) * 0x100 + z as int
  {
    hide Number, Word;
    ByteNumber(x);
    ByteNumber(y);
    ByteNumber(z);
    var g := Word(x, y, z);
    var s := g >> 8;
    var t := s >> 8;
    WordBytes(x, y, z, g, s, t);
    LowestByte(g, z, s, 16);
    LowestByte(s, y, t, 8);
    SameEight(t, x);
    Weighted(Number(g, 24), Number(s, 16), Number(x, 8), Number(y, 8), Number(z, 8));
  }

  lemma Weighted(n: nat, m: nat, x: nat, y: nat, z: nat)
    requires n == z + 256 * m && m == y + 256 * x
    ensures n == x * 0x1_0000 + y * 0x100 + z
  {
  }

  /** The lowest field, and what is above it. */
  lemma LowestField(g: bv32, above: bv32, n: nat)
    requires above == g >> 6
    ensures Number(g, n + 6) == Number(g & 63, 6) + 64 * Number(above, n) && Number(g & 63, 6) < 64
  {
    hide Number;
    Six(g, n);
    MaskedSix(g);
  }

  lemma FieldsAre(g: bv32, s: bv32, t: bv32, u: bv32)
    requires s == g >> 6 && t == s >> 6 && u == t >> 6
    ensures Field(g, 3) == g & 63 && Field(g, 2) == s & 63 && Field(g, 1) == t & 63 && Field(g, 0) == u & 63
  {
    ShiftTwice(g);
  }

  /** Dividing by a power of 64 shifts, and the remainder by 64 is the mask. */
  lemma FieldOfWord(g: bv32, i: nat)
    requires i < 4
    ensures Number(g, 24) / (if i == 0 then 0x4_0000 else if i == 1 then 0x1000 else if i == 2 then 0x40 else 1) % 64
            == Number(Field(g, i), 6)
  {
    hide Number, Field;
    var s := g >> 6;
    var t := s >> 6;
    var u := t >> 6;
    FieldsAre(g, s, t, u);
    FieldsFrom(g, s, t, u, u >> 6);
  }

  lemma NoBits(g: bv32)
    ensures Number(g, 0) == 0
  {
  }

  lemma FieldsFrom(g: bv32, s: bv32, t: bv32, u: bv32, v: bv32)
    requires s == g >> 6 && t == s >> 6 && u == t >> 6 && v == u >> 6
    ensures var n := Number(g, 24);
      && n / 0x4_0000 % 64 == Number(u & 63, 6) && n / 0x1000 % 64 == Number(t & 63, 6)
      && n / 0x40 % 64 == Number(s & 63, 6) && n % 64 == Number(g & 63, 6)
  {
    hide Number;
    LowestField(g, s, 18);
    LowestField(s, t, 12);
    LowestField(t, u, 6);
    LowestField(u, v, 0);
    NoBits(v);
    Digits(Number(g & 63, 6), Number(s & 63, 6), Number(t & 63, 6), Number(u & 63, 6), Number(g, 24), Number(s, 18), Number(t, 12));
  }

  lemma Digits(a: nat, b: nat, c: nat, d: nat, n: nat, m: nat, l: nat)
    requires a < 64 && b < 64 && c < 64 && d < 64
    requires l == c + 64 * d && m == b + 64 * l && n == a + 64 * m
    ensures n % 64 == a && n / 0x40 % 64 == b && n / 0x1000 % 64 == c && n / 0x4_0000 % 64 == d
  {
    assert n / 0x40 == m;
    assert n / 0x1000 == l by {
      assert n == 0x1000 * l + (64 * b + a);
    }
    assert n / 0x4_0000 == d by {
      assert n == 0x4_0000 * d + (0x1000 * c + 64 * b + a);
    }
  }

  lemma FieldNumber(g: bv32, i: nat)
    requires i < 4
    ensures Number(Field(g, i), 6) == Field(g, i) as int
  {
    assert Field(g, i) < 64;
    hide Field;
    ByteNumber(Field(g, i));
  }

  ghost predicate HoldsChunk(chunk: seq<byte>, x: bv32, y: bv32, z: bv32) {
    && 1 <= |chunk| <= 3 && x < 256 && y < 256 && z < 256
    && x as int == chunk[0]
    && y as int == (if |chunk| > 1 then chunk[1] else 0)
    && z as int == (if |chunk| > 2 then chunk[2] else 0)
  }

  lemma GroupNumber(chunk: seq<byte>, x: bv32, y: bv32, z: bv32)
    requires HoldsChunk(chunk, x, y, z)
    ensures Group(chunk) == Number(Word(x, y, z), 24)
  {
    hide Number, Word;
    WordIsGroup(x, y, z);
  }

  lemma SextetOfWord(group: nat, w: bv32, i: nat)
    requires i < 4 && group == Number(w, 24)
    ensures SextetOf(group, i) == Field(w, i) as int
  {
    hide Number, Field;
    FieldOfWord(w, i);
    FieldNumber(w, i);
  }

  lemma FieldIs(w: bv32)
    ensures Field(w, 0) == (w >> 18) & 63 && Field(w, 1) == (w >> 12) & 63
    ensures Field(w, 2) == (w >> 6) & 63 && Field(w, 3) == w & 63
  {
  }

  lemma FieldsOfWord(group: nat, w: bv32)
    requires group == Number(w, 24)
    ensures SextetOf(group, 0) == ((w >> 18) & 63) as int && SextetOf(group, 1) == ((w >> 12) & 63) as int
    ensures SextetOf(group, 2) == ((w >> 6) & 63) as int && SextetOf(group, 3) == (w & 63) as int
  {
    hide Number, Field, SextetOf;
    FieldIs(w);
    SextetOfWord(group, w, 0);
    SextetOfWord(group, w, 1);
    SextetOfWord(group, w, 2);
    SextetOfWord(group, w, 3);
  }

  lemma WordIs(x: bv32, y: bv32, z: bv32)
    ensures Word(x, y, z) == (x << 16) | (y << 8) | z
  {
  }

  /** The model's sextets are what the shifts and the mask take out of the word of its bytes, for
      every chunk. */
  lemma SextetIsShiftAndMask(chunk: seq<byte>, x: bv32, y: bv32, z: bv32)
    requires HoldsChunk(chunk, x, y, z)
    ensures var g, w := Group(chunk), (x << 16) | (y << 8) | z;
      && SextetOf(g, 0) == ((w >> 18) & 63) as int && SextetOf(g, 1) == ((w >> 12) & 63) as int
      && SextetOf(g, 2) == ((w >> 6) & 63) as int && SextetOf(g, 3) == (w & 63) as int
  {
    hide Number, SextetOf, Group, Word;
    GroupNumber(chunk, x, y, z);
    WordIs(x, y, z);
    FieldsOfWord(Group(chunk), Word(x, y, z));
  }
}
