/**
  The packet format: an 8-byte header (big-endian payload length, command, sub-command, version,
  big-endian flags, reserved) followed by the payload; and what a reader makes of a byte stream.
 */
module Wire {

  type byte = x: int | 0 <= x < 256
  type uint16 = x: int | 0 <= x < 65536

  const HEADER_SIZE: nat := 8
  const VERSION: byte := 1
  const FLAGS: uint16 := 0
  const RESERVED: byte := 0
  const MAX_PACKET_SIZE: nat := 65535

  datatype PacketHeader = PacketHeader(
    length: uint16, cmd: byte, subcmd: byte, version: byte, flags: uint16, reserved: byte)

  datatype Packet = Packet(header: PacketHeader, payload: seq<byte>)

  /** What a sender passes in: command, sub-command and the marshalled payload. */
  datatype Request = Request(cmd: byte, subcmd: byte, payload: seq<byte>)

  /** A request the writer does not refuse as too large. */
  type Message = m: Request | |m.payload| <= MAX_PACKET_SIZE witness Request(0, 0, [])

  datatype ReadError = NotReady | EOF | UnexpectedEOF | TooLarge | Broken

  datatype ReadResult = Read(packet: Packet, rest: seq<byte>) | Failed(error: ReadError)

  function PutUint16(v: uint16): seq<byte> {
    [v / 256, v % 256]
  }

  function GetUint16(b: seq<byte>): uint16
    requires |b| == 2
  {
    var hi: int, lo: int := b[0], b[1];
    hi * 256 + lo
  }

  function HeaderBytes(h: PacketHeader): seq<byte> {
    PutUint16(h.length) + [h.cmd, h.subcmd, h.version] + PutUint16(h.flags) + [h.reserved]
  }

  function ParseHeader(buf: seq<byte>): PacketHeader
    requires |buf| == HEADER_SIZE
  {
    PacketHeader(GetUint16(buf[0..2]), buf[2], buf[3], buf[4], GetUint16(buf[5..7]), buf[7])
  }

  function EncodeFrame(m: Message): (frame: seq<byte>)
    ensures |frame| == HEADER_SIZE + |m.payload|
  {
    HeaderBytes(PacketHeader(|m.payload|, m.cmd, m.subcmd, VERSION, FLAGS, RESERVED)) + m.payload
  }

  /** The packet a peer should be handed for `m`. */
  function Received(m: Message): Packet {
    Packet(PacketHeader(|m.payload|, m.cmd, m.subcmd, 1, 0, 0), m.payload)
  }

  /** One read from a stream that ends after `stream`: io.ReadFull of the header, then of the payload. */
  function ReadPacket(stream: seq<byte>): ReadResult {
    if stream == [] then Failed(EOF)
    else if |stream| < HEADER_SIZE then Failed(UnexpectedEOF)
    else
      var header, body := ParseHeader(stream[..HEADER_SIZE]), stream[HEADER_SIZE..];
      if header.length > MAX_PACKET_SIZE then Failed(TooLarge)
      else if header.length == 0 then Read(Packet(header, []), body)
      else if body == [] then Failed(EOF)
      else if |body| < header.length then Failed(UnexpectedEOF)
      else Read(Packet(header, body[..header.length]), body[header.length..])
  }

  /** Reading until the first error. */
  function ReadAll(stream: seq<byte>): (seq<Packet>, ReadError)
    decreases |stream|
  {
    match ReadPacket(stream)
    case Failed(e) => ([], e)
    case Read(p, rest) =>
      var (packets, e) := ReadAll(rest);
      ([p] + packets, e)
  }

  function WireOf(ms: seq<Message>): seq<byte> {
    if ms == [] then [] else EncodeFrame(ms[0]) + WireOf(ms[1..])
  }

  function ReceivedAll(ms: seq<Message>): seq<Packet> {
    seq(|ms|, i requires 0 <= i < |ms| => Received(ms[i]))
  }

  // ---------------------------------------------------------------- one frame

  lemma HeaderRoundTrip(h: PacketHeader, tail: seq<byte>)
    ensures |HeaderBytes(h)| == HEADER_SIZE
    ensures ParseHeader((HeaderBytes(h) + tail)[..HEADER_SIZE]) == h
    ensures (HeaderBytes(h) + tail)[HEADER_SIZE..] == tail
  {
    var b := HeaderBytes(h);
    assert (b + tail)[..HEADER_SIZE] == b;
    assert b[0..2] == PutUint16(h.length) && b[5..7] == PutUint16(h.flags);
  }

  lemma ParseThenEncode(b: seq<byte>)
    requires |b| == HEADER_SIZE
    ensures HeaderBytes(ParseHeader(b)) == b
  {
  }

  /** The layout on the wire, byte by byte. */
  lemma FrameLayout(m: Message)
    ensures var f := EncodeFrame(m);
            && f[0] as int * 256 + f[1] as int == |m.payload|
            && f[2] == m.cmd && f[3] == m.subcmd && f[4] == 1
            && f[5] == 0 && f[6] == 0 && f[7] == 0
            && f[8..] == m.payload
  {
    var h := PacketHeader(|m.payload|, m.cmd, m.subcmd, VERSION, FLAGS, RESERVED);
    HeaderRoundTrip(h, m.payload);
  }

  /** A frame at the head of a stream is read back whole, and exactly its bytes are consumed. */
  lemma ReadFrame(m: Message, tail: seq<byte>)
    ensures ReadPacket(EncodeFrame(m) + tail) == Read(Received(m), tail)
  {
    var h := PacketHeader(|m.payload|, m.cmd, m.subcmd, VERSION, FLAGS, RESERVED);
    assert EncodeFrame(m) + tail == HeaderBytes(h) + (m.payload + tail);
    HeaderRoundTrip(h, m.payload + tail);
    assert (m.payload + tail)[..|m.payload|] == m.payload;
  }

  /** Nothing is lost or invented: the bytes of a packet read are its header, its payload, the rest. */
  lemma ReadConsumes(stream: seq<byte>)
    ensures match ReadPacket(stream)
            case Read(p, rest) =>
              stream == HeaderBytes(p.header) + p.payload + rest && |p.payload| == p.header.length
            case Failed(e) => e == EOF || e == UnexpectedEOF
  {
    if |stream| >= HEADER_SIZE {
      ParseThenEncode(stream[..HEADER_SIZE]);
    }
  }

  /** Any header followed by as many bytes as it says is read, whatever its other fields are. */
  lemma ReadAny(h: PacketHeader, payload: seq<byte>, tail: seq<byte>)
    requires |payload| == h.length
    ensures ReadPacket(HeaderBytes(h) + payload + tail) == Read(Packet(h, payload), tail)
  {
    assert HeaderBytes(h) + payload + tail == HeaderBytes(h) + (payload + tail);
    HeaderRoundTrip(h, payload + tail);
  }

  /** And nothing else is: a read fails if and only if the stream ends before that. */
  lemma ReadFailsIff(stream: seq<byte>)
    ensures ReadPacket(stream).Failed? <==>
              |stream| < 8 || |stream| < 8 + stream[0] as int * 256 + stream[1] as int
    ensures ReadPacket(stream) == Failed(EOF) <==>
              stream == [] || (|stream| == 8 && stream[0] as int * 256 + stream[1] as int > 0)
  {
  }

  lemma ReadNothing()
    ensures ReadPacket([]) == Failed(EOF)
  {
  }

  /** A frame cut short: an error that says "unexpected end" unless the cut is right after the header. */
  lemma ReadCutFrame(m: Message, k: nat)
    requires 0 < k < |EncodeFrame(m)|
    ensures ReadPacket(EncodeFrame(m)[..k]) == Failed(if k == HEADER_SIZE then EOF else UnexpectedEOF)
  {
    if k >= HEADER_SIZE {
      var h := PacketHeader(|m.payload|, m.cmd, m.subcmd, VERSION, FLAGS, RESERVED);
      HeaderRoundTrip(h, m.payload[..k - HEADER_SIZE]);
      assert EncodeFrame(m)[..k] == HeaderBytes(h) + m.payload[..k - HEADER_SIZE];
    }
  }

  // ---------------------------------------------------------------- whole streams

  lemma {:induction false} WireConcat(a: seq<Message>, b: seq<Message>)
    ensures WireOf(a + b) == WireOf(a) + WireOf(b)
  {
    if a == [] {
      assert a + b == b;
    } else {
      assert (a + b)[1..] == a[1..] + b;
      WireConcat(a[1..], b);
    }
  }

  lemma ReceivedCons(ms: seq<Message>)
    requires ms != []
    ensures ReceivedAll(ms) == [Received(ms[0])] + ReceivedAll(ms[1..])
  {
  }

  /** Whole frames are delivered in order, and what follows them is read as if they had not been there. */
  lemma {:induction false} ReadFrames(ms: seq<Message>, tail: seq<byte>)
    ensures ReadAll(WireOf(ms) + tail) == (ReceivedAll(ms) + ReadAll(tail).0, ReadAll(tail).1)
  {
    hide ReadPacket, EncodeFrame;
    if ms == [] {
      assert WireOf(ms) + tail == tail;
      assert ReceivedAll(ms) + ReadAll(tail).0 == ReadAll(tail).0;
    } else {
      assert WireOf(ms) + tail == EncodeFrame(ms[0]) + (WireOf(ms[1..]) + tail);
      ReadFrame(ms[0], WireOf(ms[1..]) + tail);
      ReadFrames(ms[1..], tail);
      ReceivedCons(ms);
      assert [Received(ms[0])] + (ReceivedAll(ms[1..]) + ReadAll(tail).0) == ReceivedAll(ms) + ReadAll(tail).0;
    }
  }

  /** Framing round trip: reading the frames of `ms` gives back exactly `ms`, then a clean end. */
  lemma RoundTrip(ms: seq<Message>)
    ensures ReadAll(WireOf(ms)) == (ReceivedAll(ms), EOF)
  {
    ReadFrames(ms, []);
    assert WireOf(ms) + [] == WireOf(ms);
    assert ReceivedAll(ms) + [] == ReceivedAll(ms);
  }

  /**
    Truncation: of a stream cut to k bytes, j of whose frames are whole, exactly those j packets are
    delivered. The final error is EOF precisely when the cut is on a frame boundary or right after a
    header: a stream cut between a header and its payload is not told apart from one that ended.
   */
  lemma Truncation(ms: seq<Message>, k: nat, j: nat)
    requires k <= |WireOf(ms)| && j <= |ms|
    requires |WireOf(ms[..j])| <= k
    requires j < |ms| ==> k < |WireOf(ms[..j + 1])|
    ensures var left := k - |WireOf(ms[..j])|;
            ReadAll(WireOf(ms)[..k]) ==
            (ReceivedAll(ms[..j]), if left == 0 || left == HEADER_SIZE then EOF else UnexpectedEOF)
  {
    hide ReadPacket, EncodeFrame, ReceivedAll;
    assert ms == ms[..j] + ms[j..];
    WireConcat(ms[..j], ms[j..]);
    var left := k - |WireOf(ms[..j])|;
    assert WireOf(ms)[..k] == WireOf(ms[..j]) + WireOf(ms[j..])[..left];
    ReadFrames(ms[..j], WireOf(ms[j..])[..left]);
    assert ReceivedAll(ms[..j]) + [] == ReceivedAll(ms[..j]);
    if left == 0 {
      assert ReadPacket([]) == Failed(EOF) by { ReadNothing(); }
    } else {
      assert j < |ms| && ms[..j + 1] == ms[..j] + [ms[j]];
      WireConcat(ms[..j], [ms[j]]);
      assert WireOf([ms[j]]) == EncodeFrame(ms[j]);
      assert WireOf(ms[j..])[..left] == EncodeFrame(ms[j])[..left];
      ReadCutFrame(ms[j], left);
    }
  }

  /** `delivered` was read off the front of `stream` and `rest` is still to be read. */
  predicate ReadSoFar(stream: seq<byte>, delivered: seq<Packet>, rest: seq<byte>) {
    ReadAll(stream) == (delivered + ReadAll(rest).0, ReadAll(rest).1)
  }

  lemma ReadStart(stream: seq<byte>)
    ensures ReadSoFar(stream, [], stream)
  {
    assert [] + ReadAll(stream).0 == ReadAll(stream).0;
  }

  lemma ReadNext(stream: seq<byte>, delivered: seq<Packet>, rest: seq<byte>)
    requires ReadSoFar(stream, delivered, rest)
    ensures ReadPacket(rest).Read? ==>
              ReadSoFar(stream, delivered + [ReadPacket(rest).packet], ReadPacket(rest).rest)
    ensures ReadPacket(rest).Failed? ==> ReadAll(stream) == (delivered, ReadPacket(rest).error)
  {
    var r := ReadPacket(rest);
    hide ReadPacket;
    if r.Read? {
      assert delivered + ([r.packet] + ReadAll(r.rest).0) == delivered + [r.packet] + ReadAll(r.rest).0;
    } else {
      assert delivered + [] == delivered;
    }
  }
}
