/**
  The packet writer and reader as they run: reused buffers, partial writes, chunked reads.
  Every nondeterministic choice below (how much a write takes, how much a read returns, what a
  handler answers, when the context is cancelled) is unconstrained beyond the stated contracts.
 */
module PacketIO {
  import opened Wire

  /** The raw connection as an io.Writer that makes progress: no error means some bytes were taken. */
  class Sink {
    var sent: seq<byte>
    ghost var failures: nat   // writes that returned an error

    constructor ()
      ensures sent == [] && failures == 0
    {
      sent, failures := [], 0;
    }

    method Write(p: seq<byte>) returns (n: nat, ok: bool)
      modifies this
      ensures n <= |p| && sent == old(sent) + p[..n]
      ensures ok && p != [] ==> n > 0
      ensures failures == old(failures) + if ok then 0 else 1
    {
      n :| 0 <= n <= |p|;
      ok := *;
      if n == 0 {
        ok := p == [];
      }
      sent := sent + p[..n];
      failures := failures + if ok then 0 else 1;
    }
  }

  /** writeAll: repeated writes of what is left, up to the first error; it fails exactly if a write did. */
  method WriteAll(w: Sink, data: seq<byte>) returns (total: nat, ok: bool)
    modifies w
    ensures total <= |data| && w.sent == old(w.sent) + data[..total]
    ensures ok ==> total == |data|
    ensures w.failures == old(w.failures) + if ok then 0 else 1
  {
    total := 0;
    var p := data;
    while |p| > 0
      invariant total <= |data| && p == data[total..]
      invariant w.sent == old(w.sent) + data[..total] && w.failures == old(w.failures)
      decreases |p|
    {
      var n, good := w.Write(p);
      assert data[..total] + p[..n] == data[..total + n];
      total := total + n;
      if !good {
        return total, false;
      }
      p := p[n..];
    }
    ok := true;
  }

  datatype WriteOutcome = Sent | ConnNotReady | MarshalFailed | PacketTooLarge | WriteFailed

  datatype Marshalled = Bytes(data: seq<byte>) | Error

  const DEFAULT_BUFFER_SIZE: nat := 4096

  /** The buffer is `buff`: its Length is the capacity of the reused slice. */
  class TcpWriter {
    const conn: Sink
    var buff: array<byte>

    ghost predicate Valid()
      reads this
    {
      DEFAULT_BUFFER_SIZE <= buff.Length <= HEADER_SIZE + MAX_PACKET_SIZE
    }

    constructor (conn: Sink)
      ensures Valid() && this.conn == conn && fresh(buff)
    {
      this.conn := conn;
      buff := new byte[DEFAULT_BUFFER_SIZE](_ => 0);
    }

    method PutHeader(h: PacketHeader)
      requires Valid()
      modifies buff
      ensures buff[..HEADER_SIZE] == HeaderBytes(h)
    {
      buff[0], buff[1] := h.length / 256, h.length % 256;
      buff[2] := h.cmd;
      buff[3] := h.subcmd;
      buff[4] := h.version;
      buff[5], buff[6] := h.flags / 256, h.flags % 256;
      buff[7] := h.reserved;
    }

    /** Grows the buffer if needed and lays out header and payload in it. */
    method Fill(m: Message)
      requires Valid()
      modifies this, buff
      ensures Valid() && buff.Length >= old(buff.Length) && (buff == old(buff) || fresh(buff))
      ensures |EncodeFrame(m)| <= buff.Length && buff[..|EncodeFrame(m)|] == EncodeFrame(m)
    {
      var need := HEADER_SIZE + |m.payload|;
      if buff.Length < need {
        buff := new byte[need](_ => 0);
      }
      PutHeader(PacketHeader(|m.payload|, m.cmd, m.subcmd, VERSION, FLAGS, RESERVED));
      ghost var head := buff[..HEADER_SIZE];
      hide HeaderBytes;
      forall i | 0 <= i < |m.payload| {
        buff[HEADER_SIZE + i] := m.payload[i];
      }
      assert buff[..HEADER_SIZE] == head && buff[HEADER_SIZE..need] == m.payload;
      assert buff[..need] == head + m.payload;
    }

    /** On success exactly one frame has gone out; on a failed write, a prefix of it; otherwise nothing. */
    method WritePacket(cmd: byte, subcmd: byte, pkt: Marshalled, connClosed: bool) returns (r: WriteOutcome)
      requires Valid()
      modifies this, buff, conn
      ensures Valid() && buff.Length >= old(buff.Length) && (buff == old(buff) || fresh(buff))
      ensures r == ConnNotReady <==> connClosed
      ensures r == MarshalFailed <==> !connClosed && pkt.Error?
      ensures r == PacketTooLarge <==> !connClosed && pkt.Bytes? && |pkt.data| > MAX_PACKET_SIZE
      ensures r == Sent ==>
                pkt.Bytes? && |pkt.data| <= MAX_PACKET_SIZE &&
                conn.sent == old(conn.sent) + EncodeFrame(Request(cmd, subcmd, pkt.data))
      ensures r == WriteFailed ==>
                pkt.Bytes? && |pkt.data| <= MAX_PACKET_SIZE && old(conn.sent) <= conn.sent &&
                conn.sent[|old(conn.sent)|..] <= EncodeFrame(Request(cmd, subcmd, pkt.data))
      ensures r != Sent && r != WriteFailed ==> conn.sent == old(conn.sent)
      ensures conn.failures == old(conn.failures) + if r == WriteFailed then 1 else 0
    {
      if connClosed {
        return ConnNotReady;
      }
      if pkt.Error? {
        return MarshalFailed;
      }
      if |pkt.data| > MAX_PACKET_SIZE {
        return PacketTooLarge;
      }
      var m: Message := Request(cmd, subcmd, pkt.data);
      Fill(m);
      var frame := buff[..HEADER_SIZE + |pkt.data|];
      assert frame == EncodeFrame(m);
      var total, ok := WriteAll(conn, frame);
      r := if ok then Sent else WriteFailed;
    }
  }

  datatype ReadStatus = Got | AtEnd | Broke

  /** A stream that will deliver `rest` and then end, in whatever chunks it likes, or break at any time. */
  class Source {
    var rest: seq<byte>
    ghost var breaks: nat   // reads that returned an error other than the end

    constructor (rest: seq<byte>)
      ensures this.rest == rest && breaks == 0
    {
      this.rest, breaks := rest, 0;
    }

    method Read(a: array<byte>, lo: nat, hi: nat) returns (n: nat, status: ReadStatus)
      requires lo < hi <= a.Length
      modifies this, a
      ensures status == AtEnd ==> old(rest) == []
      ensures breaks == old(breaks) + if status == Broke then 1 else 0
      ensures if status == Got then 0 < n <= hi - lo else n == 0
      ensures n <= |old(rest)| && rest == old(rest)[n..]
      ensures a[..lo] == old(a[..lo])
      ensures lo + n <= a.Length && a[lo..lo + n] == old(rest)[..n]
    {
      var broken: bool := *;
      if broken {
        breaks := breaks + 1;
        return 0, Broke;
      }
      if rest == [] {
        return 0, AtEnd;
      }
      var max := if |rest| < hi - lo then |rest| else hi - lo;
      n :| 1 <= n <= max;
      status := Got;
      forall i | 0 <= i < n {
        a[lo + i] := rest[i];
      }
      rest := rest[n..];
    }
  }

  datatype FullResult = Full | NoBytes | Partial | Interrupted

  /** io.ReadFull into a[..len]: what was taken from the stream is at the head of the buffer. */
  method ReadFull(src: Source, a: array<byte>, len: nat) returns (r: FullResult)
    requires 0 < len <= a.Length
    modifies src, a
    ensures r == Full ==> len <= |old(src.rest)|
    ensures r == NoBytes ==> old(src.rest) == []
    ensures r == Partial ==> 0 < |old(src.rest)| < len
    ensures src.breaks == old(src.breaks) + if r == Interrupted then 1 else 0
    ensures var got := |old(src.rest)| - |src.rest|;
            && 0 <= got <= len && src.rest == old(src.rest)[got..] && a[..got] == old(src.rest)[..got]
            && (r == Full <==> got == len) && (r == NoBytes || r == Partial ==> src.rest == [])
  {
    var got := 0;
    while got < len
      invariant got <= len && got <= |old(src.rest)|
      invariant a[..got] == old(src.rest)[..got] && src.rest == old(src.rest)[got..] && src.breaks == old(src.breaks)
    {
      var n, status := src.Read(a, got, len);
      if status == Broke {
        return Interrupted;
      }
      if status == AtEnd {
        return if got == 0 then NoBytes else Partial;
      }
      assert a[..got + n] == a[..got] + a[got..got + n];
      got := got + n;
    }
    r := Full;
  }

  function ErrorOf(r: FullResult): ReadError {
    match r
    case NoBytes => EOF
    case Interrupted => Broken
    case _ => UnexpectedEOF
  }

  class TcpReader {
    const src: Source
    const hdrBuf: array<byte>
    var buff: array<byte>

    ghost predicate Valid()
      reads this
    {
      && hdrBuf.Length == HEADER_SIZE && hdrBuf != buff
      && DEFAULT_BUFFER_SIZE <= buff.Length <= MAX_PACKET_SIZE
    }

    constructor (src: Source)
      ensures Valid() && this.src == src && fresh(hdrBuf) && fresh(buff)
    {
      this.src := src;
      hdrBuf := new byte[HEADER_SIZE](_ => 0);
      buff := new byte[DEFAULT_BUFFER_SIZE](_ => 0);
    }

    /** Reads what Wire.ReadPacket says, whatever the chunking, or breaks; the payload is a view of the buffer. */
    method ReadPacket(connClosed: bool) returns (r: ReadResult)
      requires Valid()
      modifies this, src, hdrBuf, buff
      ensures Valid() && buff.Length >= old(buff.Length) && (buff == old(buff) || fresh(buff))
      ensures connClosed ==> r == Failed(NotReady) && src.rest == old(src.rest)
      ensures !connClosed ==> r == Wire.ReadPacket(old(src.rest)) || r == Failed(Broken)
      ensures src.breaks == old(src.breaks) + if r == Failed(Broken) then 1 else 0
      ensures r.Read? ==>
                src.rest == r.rest && |r.packet.payload| <= buff.Length &&
                buff[..|r.packet.payload|] == r.packet.payload
    {
      if connClosed {
        return Failed(NotReady);
      }
      var h := ReadFull(src, hdrBuf, HEADER_SIZE);
      if h != Full {
        return Failed(ErrorOf(h));
      }
      var header := ParseHeader(hdrBuf[..]);
      assert hdrBuf[..] == old(src.rest)[..HEADER_SIZE];
      if header.length > MAX_PACKET_SIZE {
        return Failed(TooLarge);
      }
      var payloadLen: nat := header.length;
      if payloadLen == 0 {
        return Read(Packet(header, []), src.rest);
      }
      if buff.Length < payloadLen {
        buff := new byte[payloadLen](_ => 0);
      }
      var b := ReadFull(src, buff, payloadLen);
      if b != Full {
        return Failed(ErrorOf(b));
      }
      r := Read(Packet(header, buff[..payloadLen]), src.rest);
    }

    /**
      The read loop. `delivered` is what the handler saw. Whatever the handler answers, the packets
      are those of the stream, in order; if the loop came to the end of the stream it delivered all of
      them. What follows it, the deferred abort, is in Reconnect.
     */
    method Loop() returns (delivered: seq<Packet>, error: ReadError, cancelled: bool)
      requires Valid()
      modifies this, src, hdrBuf, buff
      ensures Valid() && buff.Length >= old(buff.Length)
      ensures delivered <= ReadAll(old(src.rest)).0
      ensures src.breaks == old(src.breaks) + if !cancelled && error == Broken then 1 else 0
      ensures !cancelled && error != NotReady && error != Broken ==> (delivered, error) == ReadAll(old(src.rest))
    {
      ghost var stream := src.rest;
      delivered, error, cancelled := [], EOF, false;
      ReadStart(stream);
      hide Wire.ReadPacket, ReadAll;
      while true
        invariant Valid() && buff.Length >= old(buff.Length)
        invariant (buff == old(buff) || fresh(buff))
        invariant ReadSoFar(stream, delivered, src.rest) && src.breaks == old(src.breaks)
        decreases |src.rest|
      {
        cancelled := *;
        if cancelled {
          return;
        }
        var connClosed: bool := *;
        ReadNext(stream, delivered, src.rest);
        var r := ReadPacket(connClosed);
        if r.Failed? {
          return delivered, r.error, false;
        }
        cancelled := *;
        if cancelled {
          return;
        }
        var handlerFailed: bool := *;  // logged only
        delivered := delivered + [r.packet];
      }
    }
  }
  /** Sends the messages in turn through one writer until one fails. */
  method SendAll(w: TcpWriter, ms: seq<Message>) returns (sent: nat, r: WriteOutcome)
    requires w.Valid()
    modifies w, w.buff, w.conn
    ensures sent <= |ms| && (r == Sent <==> sent == |ms|)
    ensures r == Sent || r == ConnNotReady || r == WriteFailed
    ensures w.conn.failures == old(w.conn.failures) + if r == WriteFailed then 1 else 0
    ensures r == Sent ==> w.conn.sent == old(w.conn.sent) + WireOf(ms)
    ensures r != Sent ==>
              var whole := old(w.conn.sent) + WireOf(ms[..sent]);
              whole <= w.conn.sent && w.conn.sent[|whole|..] <= EncodeFrame(ms[sent])
  {
    hide EncodeFrame;
    sent, r := 0, Sent;
    assert ms[..0] == [];
    while sent < |ms|
      invariant w.Valid() && sent <= |ms| && r == Sent && (w.buff == old(w.buff) || fresh(w.buff))
      invariant w.conn.sent == old(w.conn.sent) + WireOf(ms[..sent]) && w.conn.failures == old(w.conn.failures)
    {
      var m := ms[sent];
      var connClosed: bool := *;
      r := w.WritePacket(m.cmd, m.subcmd, Bytes(m.payload), connClosed);
      if r != Sent {
        return;
      }
      assert m == Request(m.cmd, m.subcmd, m.payload);
      WireSnoc(ms, sent);
      sent := sent + 1;
    }
    assert ms[..sent] == ms;
  }

  lemma WireSnoc(ms: seq<Message>, n: nat)
    requires n < |ms|
    ensures WireOf(ms[..n + 1]) == WireOf(ms[..n]) + EncodeFrame(ms[n])
  {
    WireConcat(ms[..n], [ms[n]]);
    assert ms[..n + 1] == ms[..n] + [ms[n]];
    assert [ms[n]][1..] == [];
  }

  /**
    From one end to the other: messages sent over a connection and the bytes read at its other end, in
    whatever chunks on both sides. What arrives is a prefix of what was sent, and all of it, followed by
    a clean end, if nothing failed on either side.
   */
  method EndToEnd(ms: seq<Message>)
    returns (sent: nat, r: WriteOutcome, delivered: seq<Packet>, error: ReadError, cancelled: bool)
    ensures delivered <= ReceivedAll(ms)
    ensures sent <= |ms| && (r == Sent <==> sent == |ms|)
    ensures !cancelled && error != NotReady && error != Broken ==> |delivered| >= sent
    ensures r == Sent && !cancelled && error != NotReady && error != Broken ==>
              delivered == ReceivedAll(ms) && error == EOF
  {
    hide Wire.ReadPacket, ReadAll, WireOf, EncodeFrame;
    var sink := new Sink();
    var writer := new TcpWriter(sink);
    sent, r := SendAll(writer, ms);
    var source := new Source(sink.sent);
    var reader := new TcpReader(source);
    ghost var stream := source.rest;
    assert [] + WireOf(ms) == WireOf(ms) && [] + WireOf(ms[..sent]) == WireOf(ms[..sent]);
    delivered, error, cancelled := reader.Loop();
    if r == Sent {
      RoundTrip(ms);
    } else {
      ReadsPrefix(ms, sent, stream);
    }
  }

  /** Whole frames and a part of the next: at least the former are read, and nothing that was not sent. */
  lemma ReadsPrefix(ms: seq<Message>, n: nat, stream: seq<byte>)
    requires n < |ms| && WireOf(ms[..n]) <= stream
    requires stream[|WireOf(ms[..n])|..] <= EncodeFrame(ms[n])
    ensures ReadAll(stream).0 <= ReceivedAll(ms) && |ReadAll(stream).0| >= n
  {
    hide Wire.ReadPacket, ReadAll, WireOf, EncodeFrame;
    var part := stream[|WireOf(ms[..n])|..];
    assert stream == WireOf(ms[..n]) + part;
    ReadFrames(ms[..n], part);
    ReadsPart(ms[n], part);
    assert ReceivedAll(ms[..n]) + [Received(ms[n])] <= ReceivedAll(ms);
  }

  lemma ReadsPart(m: Message, part: seq<byte>)
    requires part <= EncodeFrame(m)
    ensures ReadAll(part).0 <= [Received(m)]
  {
    hide Wire.ReadPacket, EncodeFrame;
    ReadNothing();
    if part == EncodeFrame(m) {
      assert EncodeFrame(m) + [] == part;
      ReadFrame(m, []);
      assert ReadAll([]).0 == [];
    } else if part != [] {
      assert part == EncodeFrame(m)[..|part|];
      ReadCutFrame(m, |part|);
    }
  }
}
