/** The bytes every MAC of the pairing protocol covers: a domain and fields, each preceded by its
    length as a big-endian u32. */
module Transcript {
  import opened Wrappers
  import opened Bytes

  const U32_MAX: nat := 0xffff_ffff

  /** The length written in front of a field: `try_from(..).unwrap_or(u32::MAX)`. */
  function LengthWord(n: nat): nat {
    if n <= U32_MAX then n else U32_MAX
  }

  function BigEndian(n: nat): (r: seq<byte>)
    requires n <= U32_MAX
    ensures |r| == 4
  {
    [n / 256 / 256 / 256, n / 256 / 256 % 256, n / 256 % 256, n % 256]
  }

  function Word(b: seq<byte>): nat
    requires |b| == 4
  {
    (((b[0] as int) * 256 + b[1]) * 256 + b[2]) * 256 + b[3]
  }

  lemma WordOfBigEndian(n: nat)
    requires n <= U32_MAX
    ensures Word(BigEndian(n)) == n
  {
  }

  lemma BigEndianIs(n: nat)
    requires n <= U32_MAX
    ensures var word := BigEndian(n); n == (word[0] as int) * 0x100_0000 + (word[1] as int) * 0x1_0000 + (word[2] as int) * 0x100 + word[3]
  {
    WordOfBigEndian(n);
  }

  function Frame(field: seq<byte>): seq<byte> {
    BigEndian(LengthWord(|field|)) + field
  }

  function Frames(fields: seq<seq<byte>>): seq<byte> {
    if fields == [] then [] else Frame(fields[0]) + Frames(fields[1..])
  }

  method Put(written: seq<byte>, field: seq<byte>) returns (out: seq<byte>)
    ensures out == written + Frame(field)
    ensures |out| == |written| + 4 + |field| && out[..|written|] == written && out[|written| + 4..] == field
    ensures var word := out[|written|..];
      (word[0] as int) * 0x100_0000 + (word[1] as int) * 0x1_0000 + (word[2] as int) * 0x100 + word[3] ==
      if |field| < 0x1_0000_0000 then |field| else 0xffff_ffff
  {
    var length := if |field| <= U32_MAX then |field| else U32_MAX;
    BigEndianIs(length);
    hide BigEndian;
    out := written + BigEndian(length);
    out := out + field;
    assert out[|written|..] == BigEndian(length) + field;
  }

  method Enc(domain: seq<byte>, fields: seq<seq<byte>>) returns (out: seq<byte>)
    ensures out == Frames([domain] + fields)
  {
    out := Put([], domain);
    for i := 0 to |fields|
      invariant out + Frames(fields[i..]) == Frames([domain] + fields)
    {
      assert fields[i..][1..] == fields[i + 1..];
      out := Put(out, fields[i]);
    }
  }

  // ----- reading it back

  /** The fields of a transcript, as a reader that trusts the lengths would find them. */
  function Unframe(b: seq<byte>): Option<seq<seq<byte>>>
    decreases |b|
  {
    if b == [] then Some([])
    else if |b| < 4 || |b| < 4 + Word(b[..4]) then None
    else
      var n := Word(b[..4]);
      match Unframe(b[4 + n..])
      case None => None
      case Some(rest) => Some([b[4..4 + n]] + rest)
  }

  predicate Short(field: seq<byte>) {
    |field| < 0x1_0000_0000
  }

  predicate AllShort(fields: seq<seq<byte>>) {
    forall i :: 0 <= i < |fields| ==> Short(fields[i])
  }

  /** The reader gets the fields back exactly when every one is shorter than 2^32 bytes. */
  lemma {:induction false} ReadBack(fields: seq<seq<byte>>)
    ensures Unframe(Frames(fields)) == Some(fields) <==> AllShort(fields)
  {
    if fields == [] {
    } else {
      var f, rest := fields[0], fields[1..];
      var b, n := Frames(fields), LengthWord(|fields[0]|);
      assert b[..4] == BigEndian(n);
      WordOfBigEndian(n);
      assert fields == [f] + rest;
      if Short(f) {
        assert b[4..4 + n] == f && b[4 + n..] == Frames(rest);
        ReadBack(rest);
        assert AllShort(fields) <==> AllShort(rest) by {
          assert forall i :: 0 <= i < |rest| ==> rest[i] == fields[i + 1];
        }
        if Unframe(b) == Some(fields) {
          assert [f] + Unframe(Frames(rest)).value == [f] + rest;
          assert ([f] + Unframe(Frames(rest)).value)[1..] == Unframe(Frames(rest)).value;
        }
      } else {
        assert Unframe(b).Some? ==> |Unframe(b).value[0]| == n;
      }
    }
  }

  /** No boundary can be moved: equal transcripts have the same domain, as many fields, and the
      same fields. */
  lemma UniquelyDecodable(domain: seq<byte>, fields: seq<seq<byte>>, domain': seq<byte>, fields': seq<seq<byte>>)
    requires Short(domain) && AllShort(fields) && Short(domain') && AllShort(fields')
    requires Frames([domain] + fields) == Frames([domain'] + fields')
    ensures domain == domain' && fields == fields'
  {
    ReadBack([domain] + fields);
    ReadBack([domain'] + fields');
    assert ([domain] + fields)[1..] == fields && ([domain'] + fields')[1..] == fields';
    assert ([domain] + fields)[0] == domain && ([domain'] + fields')[0] == domain';
  }

  lemma FramesOf(first: seq<byte>, rest: seq<seq<byte>>)
    ensures Frames([first] + rest) == Frame(first) + Frames(rest)
    ensures Frames([]) == []
  {
    assert ([first] + rest)[1..] == rest;
  }

  /** Past 2^32 - 1 bytes the length saturates and the boundary can move: such a field and its
      first 2^32 - 1 bytes followed by an empty field read the same, when it goes on with four
      zeros. */
  lemma LongFieldsCollide(domain: seq<byte>, f: seq<byte>)
    requires |f| == 0xffff_ffff
    ensures Frames([domain, f + [0, 0, 0, 0]]) == Frames([domain, f, []])
    ensures [domain, f + [0, 0, 0, 0]] != [domain, f, []]
  {
    var long := f + [0, 0, 0, 0];
    FramesOf(domain, [long]);
    FramesOf(long, []);
    FramesOf(domain, [f, []]);
    FramesOf(f, [[]]);
    FramesOf([], []);
    hide Frames;
    assert BigEndian(0) == [0, 0, 0, 0];
    assert Frame([]) == [0, 0, 0, 0] && Frame(long) == Frame(f) + [0, 0, 0, 0];
    assert Frames([]) == [];
  }

  // ----- the three MACs

  datatype Message =
    | PairRequest(nc: seq<byte>, deviceLabel: seq<byte>, h: seq<byte>)
    | PairResponse(nc: seq<byte>, h: seq<byte>, hostId: seq<byte>, credentialId: seq<byte>, account: seq<byte>,
                   deviceLabel: seq<byte>, hostName: seq<byte>)
    | Identity(hostId: seq<byte>, credentialId: seq<byte>, nonce: seq<byte>)

  function Domain(m: Message): seq<byte> {
    match m
    case PairRequest(_, _, _) => Ascii("memory-industry/pair-req/v1")
    case PairResponse(_, _, _, _, _, _, _) => Ascii("memory-industry/pair-resp/v1")
    case Identity(_, _, _) => Ascii("memory-industry/identity/v1")
  }

  function Fields(m: Message): seq<seq<byte>> {
    match m
    case PairRequest(nc, deviceLabel, h) => [nc, deviceLabel, h]
    case PairResponse(nc, h, hostId, credentialId, account, deviceLabel, hostName) =>
      [nc, h, hostId, credentialId, account, deviceLabel, hostName]
    case Identity(hostId, credentialId, nonce) => [hostId, credentialId, nonce]
  }

  /** What the MAC of `m` is computed over. */
  function Covered(m: Message): seq<byte> {
    Frames([Domain(m)] + Fields(m))
  }

  ghost predicate IsText(b: seq<byte>, s: string) {
    |b| == |s| && forall i :: 0 <= i < |b| ==> b[i] == s[i] as int
  }

  /** The name and version of a message, then its arguments in this order. */
  ghost predicate IsRead(read: seq<seq<byte>>, m: Message) {
    read != [] &&
    match m
    case PairRequest(nc, deviceLabel, h) =>
      IsText(read[0], "memory-industry/pair-req/v1") && read[1..] == [nc, deviceLabel, h]
    case PairResponse(nc, h, hostId, credentialId, account, deviceLabel, hostName) =>
      IsText(read[0], "memory-industry/pair-resp/v1")
      && read[1..] == [nc, h, hostId, credentialId, account, deviceLabel, hostName]
    case Identity(hostId, credentialId, nonce) =>
      IsText(read[0], "memory-industry/identity/v1") && read[1..] == [hostId, credentialId, nonce]
  }

  /** What a reader of lengths finds in a MAC input. */
  lemma CoveredReads(m: Message)
    requires AllShort(Fields(m))
    ensures Unframe(Covered(m)).Some? && IsRead(Unframe(Covered(m)).value, m)
  {
    var all := [Domain(m)] + Fields(m);
    assert AllShort(all) by {
      assert forall i :: 1 <= i < |all| ==> all[i] == Fields(m)[i - 1];
    }
    ReadBack(all);
    hide Unframe, Frames, AllShort;
    assert all[1..] == Fields(m) && all[0] == Domain(m);
  }

  /** A MAC input belongs to one message: the kinds never coincide, and every argument shows. */
  lemma CoveredIsInjective(m: Message, m': Message)
    requires AllShort(Fields(m)) && AllShort(Fields(m'))
    requires Covered(m) == Covered(m')
    ensures m == m'
  {
    UniquelyDecodable(Domain(m), Fields(m), Domain(m'), Fields(m'));
    assert Domain(m)[16] == Domain(m')[16] && Domain(m)[23] == Domain(m')[23];
    assert forall i :: 0 <= i < |Fields(m)| ==> Fields(m)[i] == Fields(m')[i];
  }

  // ----- comparison in constant time

  /** `ct_eq`: every byte is looked at whatever the outcome. */
  method CtEq(a: seq<bv8>, b: seq<bv8>) returns (same: bool)
    ensures same <==> a == b
  {
    if |a| != |b| {
      return false;
    }
    var acc: bv8 := 0;
    for i := 0 to |a|
      invariant acc == 0 <==> a[..i] == b[..i]
    {
      var d := a[i] ^ b[i];
      assert d == 0 <==> a[i] == b[i];
      assert acc | d == 0 <==> acc == 0 && d == 0;
      assert a[..i + 1] == a[..i] + [a[i]] && b[..i + 1] == b[..i] + [b[i]];
      acc := acc | d;
    }
    assert a[..|a|] == a && b[..|b|] == b;
    same := acc == 0;
  }
}
