/** Request frames, and the loop that cuts a connection's byte stream into requests. */
module Framing {
  import opened Bytes

  const MAGIC: u32 := 0x57414C53
  const VERSION: byte := 1
  const REQUEST_HEADER_SIZE: nat := 34

  datatype OpCode = Write | Read | Ack | GetStatus

  datatype Request = Request(op: OpCode, stream: u64, epoch: u64, offset: u64, payload: seq<byte>)

  datatype ProtocolError = BadMagic(magic: u32) | BadVersion(version: byte) | BadOpCode(code: byte)

  datatype DecodeResult = Incomplete | Frame(req: Request, size: nat) | Malformed(error: ProtocolError)

  function Code(op: OpCode): byte {
    match op
    case Write => 1
    case Read => 2
    case Ack => 3
    case GetStatus => 4
  }

  function FromCode(code: byte): Option<OpCode> {
    match code
    case 1 => Some(Write)
    case 2 => Some(Read)
    case 3 => Some(Ack)
    case 4 => Some(GetStatus)
    case _ => None
  }

  function Encode(r: Request): (s: seq<byte>)
    ensures |s| == REQUEST_HEADER_SIZE + |r.payload|
  {
    BE(4, MAGIC) + [VERSION] + [Code(r.op)] + BE(8, r.stream) + BE(8, r.epoch) + BE(8, r.offset)
    + BE(4, |r.payload|) + r.payload
  }

  function Decode(buf: seq<byte>): (r: DecodeResult)
    ensures r.Frame? ==> REQUEST_HEADER_SIZE <= r.size <= |buf|
  {
    if |buf| < REQUEST_HEADER_SIZE then Incomplete
    else if U32At(buf, 0) != MAGIC then Malformed(BadMagic(U32At(buf, 0)))
    else if buf[4] != VERSION then Malformed(BadVersion(buf[4]))
    else
      match FromCode(buf[5])
      case None => Malformed(BadOpCode(buf[5]))
      case Some(op) =>
        var total := REQUEST_HEADER_SIZE + U32At(buf, 30);
        if |buf| < total then Incomplete
        else
          Frame(Request(op, U64At(buf, 6), U64At(buf, 14), U64At(buf, 22), buf[REQUEST_HEADER_SIZE..total]), total)
  }

  // ---- one frame ----

  /** An encoded request, whatever follows it, decodes to that request and its size. */
  lemma RoundTrip(r: Request, rest: seq<byte>)
    requires |r.payload| < U32_LIMIT
    ensures Decode(Encode(r) + rest) == Frame(r, |Encode(r)|)
  {
    hide BE, FromBE, U32At, U64At, Pow256;
    var b := Encode(r) + rest;
    assert b[0..4] == BE(4, MAGIC) && b[6..14] == BE(8, r.stream) && b[14..22] == BE(8, r.epoch);
    assert b[22..30] == BE(8, r.offset) && b[30..34] == BE(4, |r.payload|) && b[34..|Encode(r)|] == r.payload;
    FieldAt(b, 0, 4, MAGIC);
    FieldAt(b, 6, 8, r.stream);
    FieldAt(b, 14, 8, r.epoch);
    FieldAt(b, 22, 8, r.offset);
    FieldAt(b, 30, 4, |r.payload|);
  }

  /** A frame or an error, once there, does not change when more bytes arrive. */
  lemma DecodeStable(buf: seq<byte>, more: seq<byte>)
    requires Decode(buf) != Incomplete
    ensures Decode(buf + more) == Decode(buf)
  {
    var b := buf + more;
    assert b[0..4] == buf[0..4] && b[30..34] == buf[30..34];
    assert b[6..14] == buf[6..14] && b[14..22] == buf[14..22] && b[22..30] == buf[22..30];
    var total := REQUEST_HEADER_SIZE + U32At(buf, 30);
    if total <= |buf| {
      assert b[34..total] == buf[34..total];
    }
  }

  /** Where a request's fields are in its frame. */
  lemma Layout(r: Request)
    requires |r.payload| < U32_LIMIT
    ensures var b := Encode(r);
            && |b| == 34 + |r.payload|
            && b[0..4] == [0x57, 0x41, 0x4C, 0x53] && b[4] == 1
            && b[5] == (match r.op case Write => 1 case Read => 2 case Ack => 3 case GetStatus => 4)
            && U64At(b, 6) == r.stream && U64At(b, 14) == r.epoch && U64At(b, 22) == r.offset
            && U32At(b, 30) == |r.payload| && b[34..] == r.payload
  {
    hide FromBE, U32At, U64At, Pow256;
    var b := Encode(r);
    MagicBytes();
    assert b[0..4] == BE(4, MAGIC);
    assert b[6..14] == BE(8, r.stream);
    assert b[14..22] == BE(8, r.epoch);
    assert b[22..30] == BE(8, r.offset);
    assert b[30..34] == BE(4, |r.payload|);
    FieldAt(b, 6, 8, r.stream);
    FieldAt(b, 14, 8, r.epoch);
    FieldAt(b, 22, 8, r.offset);
    FieldAt(b, 30, 4, |r.payload|);
  }

  lemma MagicBytes()
    ensures BE(4, MAGIC) == [0x57, 0x41, 0x4C, 0x53]
  {
  }

  /** More bytes can still make a frame of this buffer. */
  ghost predicate CanComplete(buf: seq<byte>) {
    exists more :: Decode(buf + more).Frame?
  }

  /** Once a whole header is there, the parser waits while a frame can still come, and refuses exactly when none can. */
  lemma RefusedExactly(buf: seq<byte>)
    requires |buf| >= REQUEST_HEADER_SIZE
    ensures Decode(buf) == Incomplete ==> CanComplete(buf)
    ensures Decode(buf).Malformed? <==> !CanComplete(buf)
  {
    match Decode(buf)
    case Frame(_, _) =>
      assert buf + [] == buf;
    case Malformed(_) =>
      forall more ensures !Decode(buf + more).Frame? {
        DecodeStable(buf, more);
      }
    case Incomplete => ZerosComplete(buf);
  }

  lemma ZerosComplete(buf: seq<byte>)
    requires |buf| >= REQUEST_HEADER_SIZE && Decode(buf) == Incomplete
    ensures Decode(buf + Zeros(U32At(buf, 30))).Frame?
  {
    var b := buf + Zeros(U32At(buf, 30));
    assert b[0..4] == buf[0..4] && b[30..34] == buf[30..34];
  }

  /** Less than a header is never refused, and what is refused is refused for what it says. */
  lemma ErrorNames(buf: seq<byte>)
    requires Decode(buf).Malformed?
    ensures |buf| >= 34
    ensures match Decode(buf).error
            case BadMagic(m) => m == U32At(buf, 0) && buf[0..4] != [0x57, 0x41, 0x4C, 0x53]
            case BadVersion(v) => buf[0..4] == [0x57, 0x41, 0x4C, 0x53] && v == buf[4] != 1
            case BadOpCode(c) =>
              buf[0..4] == [0x57, 0x41, 0x4C, 0x53] && buf[4] == 1 && c == buf[5] && !(1 <= c <= 4)
  {
    hide BE, FromBE;
    MagicBytes();
    FieldBytes(buf, 0);
    if buf[0..4] == BE(4, MAGIC) {
      FieldAt(buf, 0, 4, MAGIC);
    }
  }

  // ---- the parse loop ----

  /** The requests cut from the front of a buffer, what is left, and whether the connection stays open. */
  datatype Parsed = Parsed(reqs: seq<Request>, rest: seq<byte>, alive: bool)

  function Parse(buf: seq<byte>): Parsed
    decreases |buf|
  {
    match Decode(buf)
    case Incomplete => Parsed([], buf, true)
    case Malformed(_) => Parsed([], buf, false)
    case Frame(r, n) =>
      var tail := Parse(buf[n..]);
      Parsed([r] + tail.reqs, tail.rest, tail.alive)
  }

  /** A connection's parser after some reads. */
  datatype Stream = Stream(buf: seq<byte>, delivered: seq<Request>, alive: bool)

  function Feed(s: Stream, chunk: seq<byte>): Stream {
    if !s.alive then s
    else
      var p := Parse(s.buf + chunk);
      Stream(p.rest, s.delivered + p.reqs, p.alive)
  }

  function FeedAll(chunks: seq<seq<byte>>): Stream {
    if chunks == [] then Stream([], [], true) else Feed(FeedAll(chunks[..|chunks| - 1]), chunks[|chunks| - 1])
  }

  function Concat(chunks: seq<seq<byte>>): seq<byte> {
    if chunks == [] then [] else Concat(chunks[..|chunks| - 1]) + chunks[|chunks| - 1]
  }

  function Then(p: Parsed, q: Parsed): Parsed {
    Parsed(p.reqs + q.reqs, q.rest, q.alive)
  }

  lemma ThenAssociates(r: Request, p: Parsed, q: Parsed)
    ensures Then(Parsed([r], [], true), Then(p, q)) == Then(Then(Parsed([r], [], true), p), q)
  {
    assert [r] + (p.reqs + q.reqs) == ([r] + p.reqs) + q.reqs;
  }

  lemma ParseFrame(buf: seq<byte>)
    requires Decode(buf).Frame?
    ensures Parse(buf) == Then(Parsed([Decode(buf).req], [], true), Parse(buf[Decode(buf).size..]))
  {
    hide Decode;
  }

  lemma ParseStopped(buf: seq<byte>)
    requires !Decode(buf).Frame?
    ensures Parse(buf) == Parsed([], buf, Decode(buf) == Incomplete)
  {
    hide Decode;
  }

  /** Parsing in two goes is parsing at once. */
  lemma {:induction false} ParseSplit(a: seq<byte>, b: seq<byte>)
    ensures Parse(a).alive ==> Parse(a + b) == Then(Parse(a), Parse(Parse(a).rest + b))
    ensures !Parse(a).alive ==> Parse(a + b).reqs == Parse(a).reqs && !Parse(a + b).alive
    decreases |a|
  {
    hide Decode, Parse;
    if Decode(a).Frame? {
      var n := Decode(a).size;
      DecodeStable(a, b);
      assert (a + b)[n..] == a[n..] + b;
      ParseFrame(a);
      ParseFrame(a + b);
      ParseSplit(a[n..], b);
      ThenAssociates(Decode(a).req, Parse(a[n..]), Parse(Parse(a[n..]).rest + b));
    } else {
      ParseStopped(a);
      if Decode(a) == Incomplete {
        assert [] + Parse(a + b).reqs == Parse(a + b).reqs;
      } else {
        DecodeStable(a, b);
        ParseStopped(a + b);
      }
    }
  }

  /** However a byte stream is split into reads, the requests delivered are those of the stream as a whole. */
  lemma {:induction false} ChunksDoNotMatter(chunks: seq<seq<byte>>)
    ensures var s, p := FeedAll(chunks), Parse(Concat(chunks));
            s.delivered == p.reqs && s.alive == p.alive && (s.alive ==> s.buf == p.rest)
  {
    hide Decode;
    NothingYet();
    if chunks != [] {
      var front, last := chunks[..|chunks| - 1], chunks[|chunks| - 1];
      ChunksDoNotMatter(front);
      ParseSplit(Concat(front), last);
    }
  }

  /** A frame is, byte for byte, the encoding of the request it decodes to. */
  lemma DecodedIsEncoded(buf: seq<byte>)
    requires Decode(buf).Frame?
    ensures Encode(Decode(buf).req) == buf[..Decode(buf).size] && |Decode(buf).req.payload| < U32_LIMIT
  {
    hide BE, FromBE, U32At, U64At, Pow256;
    FieldBytes(buf, 0);
    FieldBytes(buf, 6);
    FieldBytes(buf, 14);
    FieldBytes(buf, 22);
    FieldBytes(buf, 30);
    var n := Decode(buf).size;
    assert buf[..n] == buf[0..4] + [buf[4]] + [buf[5]] + buf[6..14] + buf[14..22] + buf[22..30] + buf[30..34]
                       + buf[34..n];
  }

  /** The converse of printing: what was delivered accounts for every byte consumed. */
  lemma {:induction false} NothingInvented(buf: seq<byte>)
    ensures EncodeAll(Parse(buf).reqs) + Parse(buf).rest == buf
    decreases |buf|
  {
    hide Decode, Encode;
    if Decode(buf).Frame? {
      var n := Decode(buf).size;
      NothingInvented(buf[n..]);
      DecodedIsEncoded(buf);
      assert Parse(buf).reqs[1..] == Parse(buf[n..]).reqs;
      assert buf == buf[..n] + buf[n..];
    }
  }

  /** What is left over waits for more if the connection is alive, and is what it was closed for if it is not. */
  lemma {:induction false} ParseLeaves(buf: seq<byte>)
    ensures Parse(buf).alive ==> Decode(Parse(buf).rest) == Incomplete
    ensures !Parse(buf).alive ==> Decode(Parse(buf).rest).Malformed?
    decreases |buf|
  {
    hide Decode;
    if Decode(buf).Frame? {
      ParseLeaves(buf[Decode(buf).size..]);
    }
  }

  /**
   * However the bytes are split into reads: an open connection that holds a whole header can still complete a frame
   * from what it holds, and a connection is closed exactly when what follows the requests delivered cannot be one.
   */
  lemma {:induction false} ClosedForCause(chunks: seq<seq<byte>>)
    ensures var s, rest := FeedAll(chunks), Parse(Concat(chunks)).rest;
            && (s.alive && |s.buf| >= REQUEST_HEADER_SIZE ==> CanComplete(s.buf))
            && (!s.alive <==> |rest| >= REQUEST_HEADER_SIZE && !CanComplete(rest))
  {
    hide Decode, Parse, CanComplete, FeedAll, Concat;
    ChunksDoNotMatter(chunks);
    ParseLeaves(Concat(chunks));
    var rest := Parse(Concat(chunks)).rest;
    if |rest| >= REQUEST_HEADER_SIZE {
      RefusedExactly(rest);
    } else {
      ShortWaits(rest);
    }
  }

  lemma ShortWaits(buf: seq<byte>)
    requires |buf| < REQUEST_HEADER_SIZE
    ensures Decode(buf) == Incomplete
  {
  }

  function EncodeAll(rs: seq<Request>): seq<byte> {
    if rs == [] then [] else Encode(rs[0]) + EncodeAll(rs[1..])
  }

  lemma {:induction false} ParsePrinted(rs: seq<Request>)
    requires forall r <- rs :: |r.payload| < U32_LIMIT
    ensures Parse(EncodeAll(rs)) == Parsed(rs, [], true)
    decreases |rs|
  {
    hide Decode, Encode;
    if rs == [] {
      NothingYet();
    } else {
      RoundTrip(rs[0], EncodeAll(rs[1..]));
      ParsePrinted(rs[1..]);
      assert EncodeAll(rs)[|Encode(rs[0])|..] == EncodeAll(rs[1..]);
    }
  }

  lemma NothingYet()
    ensures Decode([]) == Incomplete
  {
  }

  /** Any list of requests, printed and split into reads in any way, arrives as that list and leaves nothing over. */
  lemma RequestsArrive(rs: seq<Request>, chunks: seq<seq<byte>>)
    requires forall r <- rs :: |r.payload| < U32_LIMIT
    requires Concat(chunks) == EncodeAll(rs)
    ensures FeedAll(chunks) == Stream([], rs, true)
  {
    ChunksDoNotMatter(chunks);
    ParsePrinted(rs);
  }

  // ---- the program ----

  /** `encode_request`: grows the buffer field by field. */
  method EncodeRequest(r: Request) returns (buf: seq<byte>)
    ensures buf == Encode(r)
  {
    buf := BE(4, MAGIC);
    buf := buf + [VERSION];
    buf := buf + [Code(r.op)];
    buf := buf + BE(8, r.stream);
    buf := buf + BE(8, r.epoch);
    buf := buf + BE(8, r.offset);
    buf := buf + BE(4, |r.payload|);
    buf := buf + r.payload;
  }

  /** One connection: its parse buffer, and the requests handed to the shards so far. */
  class Connection {
    var parseBuf: seq<byte>
    var delivered: seq<Request>
    var alive: bool

    constructor ()
      ensures State() == FeedAll([])
    {
      parseBuf, delivered, alive := [], [], true;
    }

    function State(): Stream
      reads this
    {
      Stream(parseBuf, delivered, alive)
    }

    /** One read: extends the buffer, then delivers and drains complete frames until none is left. */
    method OnRead(chunk: seq<byte>)
      requires alive
      modifies this
      ensures State() == Feed(old(State()), chunk)
    {
      hide Decode;
      parseBuf := parseBuf + chunk;
      ghost var all := Parse(parseBuf);
      ghost var before := delivered;
      assert before + all.reqs == delivered + Parse(parseBuf).reqs;
      while true
        invariant alive
        invariant all.rest == Parse(parseBuf).rest && all.alive == Parse(parseBuf).alive
        invariant before + all.reqs == delivered + Parse(parseBuf).reqs
        decreases |parseBuf|
      {
        match Decode(parseBuf)
        case Incomplete =>
          assert delivered + [] == delivered;
          return;
        case Malformed(_) =>
          assert delivered + [] == delivered;
          alive := false;
          return;
        case Frame(r, n) =>
          ghost var tail := Parse(parseBuf[n..]);
          assert delivered + ([r] + tail.reqs) == (delivered + [r]) + tail.reqs;
          delivered := delivered + [r];
          parseBuf := parseBuf[n..];
      }
    }
  }
}
