/** Both ends of the RESP wire: the loop that reads a reply off a stream into a growing buffer, and
    the printer of a command. */
module RespWire {
  import opened Wrappers
  import opened Bytes
  import opened Resp
  import opened RespGrammar

  const RESP_MAX: nat := 8 * 1024 * 1024
  const READ_BUFFER: nat := 8192

  // ----- reading

  /** What one read of the socket gives: some bytes, none when the peer closed, or a failure. */
  datatype Event = Data(bytes: seq<byte>) | Failed

  datatype ReadError = ReadFailed | Closed | TooLarge

  class Stream {
    /** What the reads to come will give; past the end the peer has closed. */
    var events: seq<Event>

    constructor (events: seq<Event>)
      ensures this.events == events
    {
      this.events := events;
    }

    method Read() returns (e: Event)
      modifies this
      ensures e == if old(events) == [] then Data([]) else old(events)[0]
      ensures events == if old(events) == [] then [] else old(events)[1..]
    {
      if events == [] {
        return Data([]);
      }
      e, events := events[0], events[1..];
    }
  }

  /** The reply a buffer grows into. */
  function ReadFrom(buf: seq<byte>, events: seq<Event>): Result<RespVal, ReadError>
    decreases |events|
  {
    if events == [] then Err(Closed)
    else match events[0]
      case Failed => Err(ReadFailed)
      case Data(bytes) =>
        if bytes == [] then Err(Closed)
        else if |buf + bytes| > RESP_MAX then Err(TooLarge)
        else match Parse(buf + bytes)
          case Ok((v, _)) => Ok(v)
          case Err(_) => ReadFrom(buf + bytes, events[1..])
  }

  method ReadResp(stream: Stream) returns (r: Result<RespVal, ReadError>)
    modifies stream
    ensures r == ReadFrom([], old(stream.events))
  {
    var buf: seq<byte> := [];
    while true
      invariant ReadFrom(buf, stream.events) == ReadFrom([], old(stream.events))
      decreases |stream.events|
    {
      hide Parse;
      var e := stream.Read();
      match e {
        case Failed => return Err(ReadFailed);
        case Data(bytes) =>
          if bytes == [] {
            return Err(Closed);
          }
          buf := buf + bytes;
          if |buf| > RESP_MAX {
            return Err(TooLarge);
          }
          var parsed := ParseResp(buf);
          if parsed.Ok? {
            return Ok(parsed.value.0);
          }
      }
    }
  }

  ghost predicate Chunks(chunks: seq<seq<byte>>) {
    forall i :: 0 <= i < |chunks| ==> chunks[i] != []
  }

  function Arriving(chunks: seq<seq<byte>>): (r: seq<Event>)
    ensures |r| == |chunks| && forall i :: 0 <= i < |r| ==> r[i] == Data(chunks[i])
  {
    seq(|chunks|, i requires 0 <= i < |chunks| => Data(chunks[i]))
  }

  function Joined(chunks: seq<seq<byte>>): seq<byte> {
    if chunks == [] then [] else chunks[0] + Joined(chunks[1..])
  }

  /** How much has arrived when a chunk first completes n bytes, or in all when none does. */
  function Boundary(have: nat, chunks: seq<seq<byte>>, n: nat): (r: nat)
    ensures have <= r <= have + |Joined(chunks)|
    ensures have + |Joined(chunks)| >= n ==> r >= n
    decreases |chunks|
  {
    if have >= n || chunks == [] then have else Boundary(have + |chunks[0]|, chunks[1..], n)
  }

  /** An accepted buffer keeps its value however much more arrives. */
  lemma ParsePersists(buf: seq<byte>, more: seq<byte>)
    requires Parse(buf).Ok?
    ensures Parse(buf + more) == Parse(buf)
  {
    var n := Parse(buf).value.1;
    assert (buf + more)[..n] == buf[..n];
    ParseStable(buf, buf + more);
  }

  /** A buffer that does not hold the whole reply is not accepted. */
  lemma ParseWaits(buf: seq<byte>, more: seq<byte>)
    requires Parse(buf + more).Ok? ==> |buf| < Parse(buf + more).value.1
    ensures Parse(buf).Err?
  {
    if Parse(buf).Ok? {
      ParsePersists(buf, more);
    }
  }

  /** Once whole, accepted: what arrived with it makes no difference. */
  lemma ParseCompletes(buf: seq<byte>, more: seq<byte>)
    requires Parse(buf + more).Ok? && Parse(buf + more).value.1 <= |buf|
    ensures Parse(buf) == Parse(buf + more)
  {
    var n := Parse(buf + more).value.1;
    assert (buf + more)[..n] == buf[..n];
    ParseStable(buf + more, buf);
  }

  lemma {:induction false} ReadsReply(buf: seq<byte>, chunks: seq<seq<byte>>)
    requires Chunks(chunks) && |buf| <= RESP_MAX
    requires Parse(buf + Joined(chunks)).Ok? && |buf| < Parse(buf + Joined(chunks)).value.1
    ensures ReadFrom(buf, Arriving(chunks)) ==
      if Boundary(|buf|, chunks, Parse(buf + Joined(chunks)).value.1) <= RESP_MAX
      then Ok(Parse(buf + Joined(chunks)).value.0) else Err(TooLarge)
    decreases |chunks|
  {
    hide Parse;
    assert chunks != [] by {
      assert buf + [] == buf;
    }
    var next, rest := buf + chunks[0], chunks[1..];
    assert buf + Joined(chunks) == next + Joined(rest);
    assert Arriving(chunks)[1..] == Arriving(rest);
    var (v, n) := Parse(next + Joined(rest)).value;
    if |next| >= n {
      ParseCompletes(next, Joined(rest));
    } else {
      ParseWaits(next, Joined(rest));
      if |next| <= RESP_MAX {
        ReadsReply(next, rest);
      }
    }
  }

  lemma {:induction false} ReadsNothing(buf: seq<byte>, chunks: seq<seq<byte>>)
    requires Chunks(chunks) && |buf| <= RESP_MAX && Parse(buf + Joined(chunks)).Err?
    ensures ReadFrom(buf, Arriving(chunks)) == Err(if |buf| + |Joined(chunks)| <= RESP_MAX then Closed else TooLarge)
    decreases |chunks|
  {
    hide Parse;
    if chunks != [] {
      var next, rest := buf + chunks[0], chunks[1..];
      assert buf + Joined(chunks) == next + Joined(rest);
      assert Arriving(chunks)[1..] == Arriving(rest);
      ParseWaits(next, Joined(rest));
      if |next| <= RESP_MAX {
        ReadsNothing(next, rest);
      }
    }
  }

  /** The reply at the head of a stream of chunks, unless the chunk that completes it, or all of
      them when none does, takes the buffer past the limit. */
  function Decided(chunks: seq<seq<byte>>): Result<RespVal, ReadError> {
    var parsed := Parse(Joined(chunks));
    if parsed.Err? then Err(if |Joined(chunks)| <= 8_388_608 then Closed else TooLarge)
    else if Boundary(0, chunks, parsed.value.1) <= 8_388_608 then Ok(parsed.value.0)
    else Err(TooLarge)
  }

  /** What a stream of chunks is read as, whatever it holds. */
  lemma ReadDecided(chunks: seq<seq<byte>>)
    requires Chunks(chunks)
    ensures ReadFrom([], Arriving(chunks)) == Decided(chunks)
  {
    hide Parse;
    assert [] + Joined(chunks) == Joined(chunks);
    if Parse(Joined(chunks)).Ok? {
      ReadsReply([], chunks);
    } else {
      ReadsNothing([], chunks);
    }
  }

  lemma DecidedIs(chunks: seq<seq<byte>>)
    requires Parse(Joined(chunks)).Ok?
    ensures Decided(chunks) ==
      if Boundary(0, chunks, Parse(Joined(chunks)).value.1) <= RESP_MAX then Ok(Parse(Joined(chunks)).value.0) else Err(TooLarge)
  {
    hide Parse, Boundary;
  }

  /** Within the limit, how a stream is cut makes no difference. */
  lemma CutsDoNotMatter(chunks: seq<seq<byte>>, others: seq<seq<byte>>)
    requires Chunks(chunks) && Chunks(others) && Joined(chunks) == Joined(others)
    requires |Joined(chunks)| <= RESP_MAX
    ensures ReadFrom([], Arriving(chunks)) == ReadFrom([], Arriving(others))
  {
    ReadDecided(chunks);
    ReadDecided(others);
  }

  // ----- reads that fail

  lemma {:induction false} ReadsOn(buf: seq<byte>, chunks: seq<seq<byte>>, events: seq<Event>)
    requires Chunks(chunks) && |buf| <= RESP_MAX
    ensures ReadFrom(buf, Arriving(chunks) + events) ==
      if ReadFrom(buf, Arriving(chunks)) == Err(Closed) then ReadFrom(buf + Joined(chunks), events)
      else ReadFrom(buf, Arriving(chunks))
    decreases |chunks|
  {
    hide Parse;
    if chunks == [] {
      assert Arriving(chunks) + events == events && buf + [] == buf;
    } else {
      var next, rest := buf + chunks[0], chunks[1..];
      assert buf + Joined(chunks) == next + Joined(rest);
      assert Arriving(chunks)[1..] == Arriving(rest);
      assert (Arriving(chunks) + events)[0] == Data(chunks[0]);
      assert (Arriving(chunks) + events)[1..] == Arriving(rest) + events;
      if |next| <= RESP_MAX {
        ReadsOn(next, rest, events);
      }
    }
  }

  /** Every stream is some chunks, and then ends, fails or is closed; what is behind that is never
      read. */
  lemma {:induction false} EveryStream(events: seq<Event>) returns (chunks: seq<seq<byte>>, rest: seq<Event>)
    ensures Chunks(chunks) && events == Arriving(chunks) + rest
    ensures rest == [] || rest[0] == Failed || rest[0] == Data([])
    decreases |events|
  {
    if events == [] || events[0] == Failed || events[0] == Data([]) {
      chunks, rest := [], events;
    } else {
      var more;
      more, rest := EveryStream(events[1..]);
      chunks := [events[0].bytes] + more;
      assert Arriving(chunks) == [events[0]] + Arriving(more);
      assert events == [events[0]] + events[1..];
    }
  }

  /** A read that fails, or finds the peer gone, ends it at once: what came before decides when it
      is a reply, or too much, and what comes after is never looked at. */
  lemma ReadBreaksOff(chunks: seq<seq<byte>>, behind: seq<Event>)
    requires Chunks(chunks)
    ensures ReadFrom([], Arriving(chunks) + ([Failed] + behind)) ==
      if Decided(chunks) == Err(Closed) then Err(ReadFailed) else Decided(chunks)
    ensures ReadFrom([], Arriving(chunks) + ([Data([])] + behind)) == Decided(chunks)
  {
    hide Parse, Decided;
    ReadDecided(chunks);
    ReadsOn([], chunks, [Failed] + behind);
    ReadsOn([], chunks, [Data([])] + behind);
  }

  /** Whatever a stream holds: its chunks decide, and how they end says which error it is when they
      hold neither a reply nor too much. */
  lemma ReadIs(events: seq<Event>) returns (chunks: seq<seq<byte>>, rest: seq<Event>)
    ensures Chunks(chunks) && events == Arriving(chunks) + rest
    ensures rest == [] || rest[0] == Failed || rest[0] == Data([])
    ensures ReadFrom([], events) ==
      if Decided(chunks) == Err(Closed) && rest != [] && rest[0] == Failed then Err(ReadFailed) else Decided(chunks)
  {
    hide Parse, Decided, ReadFrom;
    chunks, rest := EveryStream(events);
    if rest == [] {
      ReadDecided(chunks);
      assert Arriving(chunks) + [] == Arriving(chunks);
    } else {
      ReadBreaksOff(chunks, rest[1..]);
      assert rest == [rest[0]] + rest[1..];
    }
  }

  // ----- reads of at most one buffer

  /** What `read` gives into a buffer of fixed size. */
  ghost predicate Reads(chunks: seq<seq<byte>>) {
    forall i :: 0 <= i < |chunks| ==> 0 < |chunks[i]| <= READ_BUFFER
  }

  lemma ReadsAreChunks(chunks: seq<seq<byte>>)
    requires Reads(chunks)
    ensures Chunks(chunks)
  {
  }

  lemma {:induction false} BoundaryNear(have: nat, chunks: seq<seq<byte>>, n: nat)
    requires Reads(chunks) && have < n + READ_BUFFER
    ensures Boundary(have, chunks, n) < n + READ_BUFFER
    decreases |chunks|
  {
    if have < n && chunks != [] {
      var rest := chunks[1..];
      assert forall i :: 0 <= i < |rest| ==> rest[i] == chunks[i + 1];
      BoundaryNear(have + |chunks[0]|, rest, n);
    }
  }

  /** A reply with one buffer to spare is read as itself, however the stream is cut and whatever
      comes behind it. */
  lemma ReadAsItself(chunks: seq<seq<byte>>)
    requires Reads(chunks) && Parse(Joined(chunks)).Ok?
    requires Parse(Joined(chunks)).value.1 + READ_BUFFER - 1 <= RESP_MAX
    ensures ReadFrom([], Arriving(chunks)) == Ok(Parse(Joined(chunks)).value.0)
  {
    hide Parse;
    ReadDecided(chunks);
    BoundaryNear(0, chunks, Parse(Joined(chunks)).value.1);
  }

  /** Some bytes in full buffers and a last one. */
  function Pieces(b: seq<byte>): (chunks: seq<seq<byte>>)
    ensures forall i :: 0 <= i < |chunks| ==> 0 < |chunks[i]| <= READ_BUFFER
    decreases |b|
  {
    if b == [] then [] else if |b| <= READ_BUFFER then [b] else [b[..READ_BUFFER]] + Pieces(b[READ_BUFFER..])
  }

  lemma {:induction false} PiecesJoined(b: seq<byte>, last: seq<byte>)
    ensures Joined(Pieces(b) + [last]) == b + last
    decreases |b|
  {
    var chunks := Pieces(b) + [last];
    if b == [] {
      assert chunks[1..] == [] && Joined(chunks) == last + [] == [] + last;
    } else if |b| <= READ_BUFFER {
      assert chunks[1..] == [last] && [last][1..] == [];
      assert Joined([last]) == last + [] == last;
    } else {
      var rest := b[READ_BUFFER..];
      PiecesJoined(rest, last);
      assert chunks[1..] == Pieces(rest) + [last];
      assert b == b[..READ_BUFFER] + rest;
    }
  }

  /** The last piece completes anything that ends within it. */
  lemma {:induction false} BoundaryAfterPieces(have: nat, b: seq<byte>, last: seq<byte>, n: nat)
    requires have + |b| < n <= have + |b| + |last|
    ensures Boundary(have, Pieces(b) + [last], n) == have + |b| + |last|
    decreases |b|
  {
    var chunks := Pieces(b) + [last];
    if b == [] {
      assert chunks[1..] == [];
    } else if |b| <= READ_BUFFER {
      assert chunks[1..] == [last] && [last][1..] == [];
      assert Boundary(have + |b|, [last], n) == have + |b| + |last|;
    } else {
      assert chunks[1..] == Pieces(b[READ_BUFFER..]) + [last];
      BoundaryAfterPieces(have + READ_BUFFER, b[READ_BUFFER..], last, n);
    }
  }

  function Zeros(n: nat): (z: seq<byte>)
    ensures |z| == n
  {
    seq(n, _ => 0)
  }

  /** All of the reply but its last byte, then that byte with what comes behind it. */
  function LateCut(reply: seq<byte>, behind: seq<byte>): (chunks: seq<seq<byte>>)
    requires reply != [] && |behind| < READ_BUFFER
    ensures Reads(chunks)
  {
    Pieces(reply[..|reply| - 1]) + [[reply[|reply| - 1]] + behind]
  }

  /** The reply to its last byte, then what comes behind it. */
  function EvenCut(reply: seq<byte>, behind: seq<byte>): (chunks: seq<seq<byte>>)
    requires reply != [] && 0 < |behind| < READ_BUFFER
    ensures Reads(chunks)
  {
    LateCut(reply, []) + [behind]
  }

  lemma LateCutJoined(reply: seq<byte>, behind: seq<byte>)
    requires reply != [] && |behind| < READ_BUFFER
    ensures Joined(LateCut(reply, behind)) == reply + behind
  {
    hide Pieces, Joined;
    var init, tail := reply[..|reply| - 1], [reply[|reply| - 1]] + behind;
    PiecesJoined(init, tail);
    assert init + tail == reply + behind;
  }

  lemma LateCutBoundary(reply: seq<byte>, behind: seq<byte>)
    requires reply != [] && |behind| < READ_BUFFER
    ensures Boundary(0, LateCut(reply, behind), |reply|) == |reply| + |behind|
  {
    hide Pieces, Joined, Boundary;
    BoundaryAfterPieces(0, reply[..|reply| - 1], [reply[|reply| - 1]] + behind, |reply|);
  }

  lemma EvenCutIs(reply: seq<byte>, behind: seq<byte>)
    requires reply != [] && 0 < |behind| < READ_BUFFER
    ensures Joined(EvenCut(reply, behind)) == reply + behind
    ensures Boundary(0, EvenCut(reply, behind), |reply|) == |reply|
  {
    hide Joined, Boundary, LateCut;
    LateCutJoined(reply, []);
    LateCutBoundary(reply, []);
    assert reply + [] == reply;
    JoinedSnoc(LateCut(reply, []), behind);
    BoundarySnoc(0, LateCut(reply, []), behind, |reply|);
  }

  lemma {:induction false} JoinedSnoc(chunks: seq<seq<byte>>, last: seq<byte>)
    ensures Joined(chunks + [last]) == Joined(chunks) + last
  {
    var all := chunks + [last];
    if chunks == [] {
      assert all[1..] == [] && last + [] == last == [] + last;
    } else {
      JoinedSnoc(chunks[1..], last);
      assert all[1..] == chunks[1..] + [last];
    }
  }

  /** What comes after n bytes are there does not move their boundary. */
  lemma {:induction false} BoundarySnoc(have: nat, chunks: seq<seq<byte>>, last: seq<byte>, n: nat)
    requires have + |Joined(chunks)| >= n
    ensures Boundary(have, chunks + [last], n) == Boundary(have, chunks, n)
    decreases |chunks|
  {
    if have < n {
      assert (chunks + [last])[1..] == chunks[1..] + [last];
      BoundarySnoc(have + |chunks[0]|, chunks[1..], last, n);
    }
  }

  lemma ReplyAhead(reply: seq<byte>, stream: seq<byte>)
    requires Parse(reply).Ok? && reply <= stream
    ensures Parse(stream) == Parse(reply)
  {
    hide *;
    assert stream == reply + stream[|reply|..];
    ParsePersists(reply, stream[|reply|..]);
  }

  lemma LateCutFails(reply: seq<byte>, behind: seq<byte>)
    requires Parse(reply).Ok? && Parse(reply).value.1 == |reply| && |behind| < READ_BUFFER
    requires |reply| > 0 && |reply| + |behind| > RESP_MAX
    ensures reply <= Joined(LateCut(reply, behind)) && ReadFrom([], Arriving(LateCut(reply, behind))) == Err(TooLarge)
  {
    hide *;
    LateCutJoined(reply, behind);
    LateCutBoundary(reply, behind);
    ParsePersists(reply, behind);
    ReadsAreChunks(LateCut(reply, behind));
    ReadDecided(LateCut(reply, behind));
    DecidedIs(LateCut(reply, behind));
  }

  /** Exactly the replies with a buffer to spare are read as themselves on every stream that starts
      with them. */
  lemma ReadAsItselfIff(reply: seq<byte>, v: RespVal)
    requires Parse(reply) == Ok((v, |reply|))
    ensures |reply| + 8191 <= 8_388_608 <==>
      forall chunks :: Reads(chunks) && reply <= Joined(chunks) ==> ReadFrom([], Arriving(chunks)) == Ok(v)
  {
    hide Parse, ReadFrom, Joined, Arriving, LateCut;
    if |reply| + READ_BUFFER - 1 <= RESP_MAX {
      forall chunks | Reads(chunks) && reply <= Joined(chunks) ensures ReadFrom([], Arriving(chunks)) == Ok(v) {
        ReplyAhead(reply, Joined(chunks));
        ReadAsItself(chunks);
      }
    } else {
      var behind := Zeros(READ_BUFFER - 1);
      LateCutFails(reply, behind);
      assert Reads(LateCut(reply, behind));
    }
  }

  /** One stream, cut two ways, read two ways: when a reply and what a read may bring behind it pass
      the limit together, the reply is returned if a read ends with it, and is too large if not. */
  lemma CutsDisagree(reply: seq<byte>, v: RespVal, behind: seq<byte>)
    requires Parse(reply) == Ok((v, |reply|)) && |behind| < READ_BUFFER
    requires |reply| <= RESP_MAX < |reply| + |behind|
    ensures Joined(LateCut(reply, behind)) == Joined(EvenCut(reply, behind)) == reply + behind
    ensures ReadFrom([], Arriving(LateCut(reply, behind))) == Err(TooLarge)
    ensures ReadFrom([], Arriving(EvenCut(reply, behind))) == Ok(v)
  {
    hide *;
    LateCutFails(reply, behind);
    LateCutJoined(reply, behind);
    EvenCutIs(reply, behind);
    ParsePersists(reply, behind);
    ReadsAreChunks(EvenCut(reply, behind));
    ReadDecided(EvenCut(reply, behind));
    DecidedIs(EvenCut(reply, behind));
  }

  function LongestLine(): (reply: seq<byte>)
    ensures |reply| == RESP_MAX
  {
    [PLUS] + Letters() + CRLF
  }

  function Letters(): (text: seq<byte>)
    ensures |text| == RESP_MAX - 3 && forall i :: 0 <= i < |text| ==> text[i] == 65
  {
    seq(RESP_MAX - 3, _ => 65)
  }

  /** Such a stream: a simple string that fills the limit, and one byte more. */
  lemma OneByteMoreDecides()
    ensures Joined(LateCut(LongestLine(), [0])) == Joined(EvenCut(LongestLine(), [0]))
    ensures ReadFrom([], Arriving(LateCut(LongestLine(), [0]))) == Err(TooLarge)
    ensures ReadFrom([], Arriving(EvenCut(LongestLine(), [0]))) == Ok(Simple(Letters()))
  {
    var text, reply := Letters(), LongestLine();
    AsciiUtf8(text);
    assert IsHeader(reply, PLUS, text) && Spells(reply, Simple(text));
    hide *;
    SpelledParses(reply, Simple(text), []);
    assert reply + [] == reply;
    CutsDisagree(reply, Simple(text), [0]);
  }

  // ----- printing

  function Decimal(n: nat): (r: seq<byte>)
    ensures r != [] && AllDigits(r)
  {
    if n < 10 then [48 + n] else Decimal(n / 10) + [48 + n % 10]
  }

  function Header(tag: byte, n: nat): seq<byte> {
    [tag] + Decimal(n) + CRLF
  }

  function BulkBytes(s: seq<byte>): seq<byte> {
    Header(DOLLAR, |s|) + s + CRLF
  }

  function BulksBytes(parts: seq<seq<byte>>): seq<byte> {
    if parts == [] then [] else BulkBytes(parts[0]) + BulksBytes(parts[1..])
  }

  function ArrayBytes(parts: seq<seq<byte>>): seq<byte> {
    Header(STAR, |parts|) + BulksBytes(parts)
  }

  method RespBulk(s: seq<byte>) returns (out: seq<byte>)
    ensures out == BulkBytes(s)
  {
    out := [];
    out := out + Header(DOLLAR, |s|);
    out := out + s;
    out := out + CRLF;
  }

  method RespArray(parts: seq<seq<byte>>) returns (out: seq<byte>)
    ensures out == ArrayBytes(parts)
  {
    out := [];
    out := out + Header(STAR, |parts|);
    for i := 0 to |parts|
      invariant out + BulksBytes(parts[i..]) == ArrayBytes(parts)
    {
      var bulk := RespBulk(parts[i]);
      assert parts[i..][1..] == parts[i+1..];
      assert out + (bulk + BulksBytes(parts[i+1..])) == (out + bulk) + BulksBytes(parts[i+1..]);
      out := out + bulk;
    }
    assert out + [] == out;
  }

  // ----- round trip

  lemma {:induction false} DecimalValue(n: nat)
    ensures Value(Decimal(n)) == n
    decreases n
  {
    var d := Decimal(n);
    if n < 10 {
      assert d[..0] == [];
      assert Value(d[..0]) == 0;
    } else {
      DecimalValue(n / 10);
      assert d[..|d|-1] == Decimal(n / 10);
    }
  }

  /** No zero in front of anything else. */
  ghost predicate Shortest(text: seq<byte>) {
    IsDecimal(text) && (text[0] == '0' as byte ==> |text| == 1)
  }

  lemma {:induction false} ShortestIs(text: seq<byte>)
    requires Shortest(text)
    ensures AllDigits(text) && (|text| > 1 ==> Value(text) > 0) && text == Decimal(Value(text))
  {
    DecimalDigits(text);
    var init, last := text[..|text| - 1], text[|text| - 1];
    assert text == init + [last];
    if |text| == 1 {
      assert Value(init) == 0;
    } else {
      assert Shortest(init) by {
        assert init[0] == text[0];
      }
      ShortestIs(init);
      assert |init| == 1 ==> Value(init[..0]) == 0;
      assert Value(text) / 10 == Value(init);
    }
  }

  lemma {:induction false} DecimalShortest(n: nat)
    ensures Shortest(Decimal(n))
  {
    DecimalDigits(Decimal(n));
    if n >= 10 {
      DecimalShortest(n / 10);
      assert Decimal(n)[0] == Decimal(n / 10)[0];
    }
  }

  /** A number is printed in decimal digits without leading zeros, which is one way only. */
  lemma DecimalIs(n: nat, text: seq<byte>)
    ensures text == Decimal(n) <==> Shortest(text) && AllDigits(text) && Value(text) == n
  {
    DecimalValue(n);
    DecimalShortest(n);
    if Shortest(text) {
      ShortestIs(text);
    }
  }

  lemma HeaderSpells(tag: byte, n: nat)
    requires n <= I64_MAX
    ensures IsHeader(Header(tag, n), tag, Decimal(n)) && IsInteger(Decimal(n), n)
  {
    DecimalValue(n);
    var digits := Decimal(n);
    hide Decimal, Value;
    assert digits == [] + digits;
    assert SignedDigits(digits, [], digits, n);
    forall p ensures !CrlfAt(digits, p) {
      assert 0 <= p < |digits| ==> IsDigit(digits[p]);
    }
  }

  lemma DecimalParses(n: nat)
    requires n <= I64_MAX
    ensures ParseLength(Decimal(n)) == Ok(n)
  {
    HeaderSpells(DOLLAR, n);
    ParseLengthIff(Decimal(n), n);
  }

  function AsBulks(parts: seq<seq<byte>>): (items: seq<RespVal>)
    ensures |items| == |parts|
  {
    seq(|parts|, i requires 0 <= i < |parts| => Bulk(parts[i]))
  }

  lemma {:induction false} BulksSpell(parts: seq<seq<byte>>)
    requires forall i :: 0 <= i < |parts| ==> |parts[i]| <= I64_MAX
    ensures SpellAll(BulksBytes(parts), AsBulks(parts))
  {
    if parts != [] {
      var s, rest := parts[0], parts[1..];
      HeaderSpells(DOLLAR, |s|);
      assert BulkParts(BulkBytes(s), Header(DOLLAR, |s|), Decimal(|s|), s, CRLF);
      BulkSpelled(BulkBytes(s), Header(DOLLAR, |s|), Decimal(|s|), s, CRLF);
      BulksSpell(rest);
      assert AsBulks(parts) == [Bulk(s)] + AsBulks(rest);
      hide Spells, SpellAll, BulkBytes;
      OneMoreSpelled(BulkBytes(s), Bulk(s), BulksBytes(rest), AsBulks(rest));
    }
  }

  /** A printed command spells the array of its parts; so, with anything after it, it parses back to
      exactly them, and the parser stops exactly where the printer did. Lengths fit the machine's
      signed word. */
  lemma RoundTrip(parts: seq<seq<byte>>, rest: seq<byte>)
    requires |parts| <= I64_MAX && forall i :: 0 <= i < |parts| ==> |parts[i]| <= I64_MAX
    ensures Spells(ArrayBytes(parts), Array(AsBulks(parts)))
    ensures Parse(ArrayBytes(parts) + rest) == Ok((Array(AsBulks(parts)), |ArrayBytes(parts)|))
  {
    HeaderSpells(STAR, |parts|);
    BulksSpell(parts);
    hide Spells, SpellAll, BulksBytes, Decimal, Header, AsBulks, IsHeader, IsInteger, Parse;
    ArraySpelled(ArrayBytes(parts), Header(STAR, |parts|), Decimal(|parts|), AsBulks(parts), BulksBytes(parts));
    SpelledParses(ArrayBytes(parts), Array(AsBulks(parts)), rest);
  }
}
