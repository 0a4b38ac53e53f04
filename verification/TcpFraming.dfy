/** Packets over a TCP stream. Each packet travels as a two-byte length in network order followed
    by its bytes. The sender keeps at most one packet in its output buffer and drops what does not
    fit; the socket underneath takes any number of bytes at a time. The receiver reassembles the
    packets in place from a stream cut anywhere.
 */
module TcpFraming {
  import opened ByteOrder
  import opened Options
  import opened Sequences

  const MAX_PACKET_SIZE: nat := 64 * 1024
  const PACKET_LEN_SIZE: nat := 2
  const BUF_SIZE: nat := MAX_PACKET_SIZE + PACKET_LEN_SIZE

  type Packet = seq<Byte>

  /** The largest packet whose length fits the header and whose frame fits the output buffer. */
  const LONGEST: nat := 0xFFFF

  // ---------------------------------------------------------------- the stream format

  /** A 16-bit length, most significant byte first. */
  function Header(n: nat): seq<Byte> { [n / 256 % 256, n % 256] }

  function Frame(packet: Packet): seq<Byte> { Header(|packet|) + packet }

  function Frames(packets: seq<Packet>): seq<Byte> {
    if packets == [] then [] else Frame(packets[0]) + Frames(packets[1..])
  }

  /** The longest packet leaves one byte of a buffer of 65538 free, and a longer one has no header: the
      length it would carry is another's. */
  lemma LongestFrame(packet: Packet)
    requires |packet| == 65535
    ensures |Frame(packet)| + 1 == BUF_SIZE == 65538 && LengthField(Frame(packet)) == 65535
    ensures forall n: nat :: n <= LONGEST <==> LengthField(Header(n)) == n
  {
    forall n: nat ensures n <= LONGEST <==> LengthField(Header(n)) == n {
    }
  }

  ghost predicate Sendable(packets: seq<Packet>) {
    forall packet :: packet in packets ==> |packet| <= LONGEST
  }

  function LengthField(stream: seq<Byte>): nat
    requires |stream| >= 2
  {
    stream[0] as int * 256 + stream[1]
  }

  predicate HasFrame(stream: seq<Byte>) {
    |stream| >= 2 && |stream| >= 2 + LengthField(stream)
  }

  function First(stream: seq<Byte>): Packet
    requires HasFrame(stream)
  {
    stream[2..2 + LengthField(stream)]
  }

  function Rest(stream: seq<Byte>): seq<Byte>
    requires HasFrame(stream)
  {
    stream[2 + LengthField(stream)..]
  }

  datatype Parsed = Parsed(packets: seq<Packet>, residue: seq<Byte>)

  /** Cuts a stream into complete packets and the unfinished rest. */
  function Parse(stream: seq<Byte>): Parsed
    decreases |stream|
  {
    if !HasFrame(stream) then Parsed([], stream)
    else
      var more := Parse(Rest(stream));
      Parsed([First(stream)] + more.packets, more.residue)
  }

  lemma ParseUnfolds(before: seq<Packet>, stream: seq<Byte>)
    requires HasFrame(stream)
    ensures before + [First(stream)] + Parse(Rest(stream)).packets == before + Parse(stream).packets
    ensures Parse(Rest(stream)).residue == Parse(stream).residue
  {
  }

  lemma SplitFrame(stream: seq<Byte>)
    requires HasFrame(stream)
    ensures stream == Frame(First(stream)) + Rest(stream)
    ensures |First(stream)| <= LONGEST
  {
    assert stream[..2] == Header(LengthField(stream));
  }

  lemma JoinFrame(packet: Packet, rest: seq<Byte>)
    requires |packet| <= LONGEST
    ensures HasFrame(Frame(packet) + rest)
    ensures First(Frame(packet) + rest) == packet && Rest(Frame(packet) + rest) == rest
  {
  }

  /** Every stream is the frames of its packets followed by its residue, which is short. */
  lemma {:induction false} ParseSplits(stream: seq<Byte>)
    ensures stream == Frames(Parse(stream).packets) + Parse(stream).residue
    ensures Sendable(Parse(stream).packets)
    ensures |Parse(stream).residue| <= LONGEST + 1 && !HasFrame(Parse(stream).residue)
    decreases |stream|
  {
    if HasFrame(stream) {
      var first, rest := First(stream), Rest(stream);
      ParseSplits(rest);
      SplitFrame(stream);
      var more := Parse(rest);
      SplitOnce(stream, first, rest, more.packets, more.residue);
    }
  }

  lemma SplitOnce(stream: seq<Byte>, first: Packet, rest: seq<Byte>, more: seq<Packet>, residue: seq<Byte>)
    requires stream == Frame(first) + rest && rest == Frames(more) + residue
    requires Sendable(more) && |first| <= LONGEST
    ensures stream == Frames([first] + more) + residue
    ensures Sendable([first] + more)
  {
    FramesCons(first, more);
    Associate(Frame(first), Frames(more), residue);
  }

  lemma FramesCons(first: Packet, more: seq<Packet>)
    ensures Frames([first] + more) == Frame(first) + Frames(more)
  {
    assert ([first] + more)[1..] == more;
  }

  lemma ParseFirst(packet: Packet, tail: seq<Byte>)
    requires |packet| <= LONGEST
    ensures Parse(Frame(packet) + tail) == Parsed([packet] + Parse(tail).packets, Parse(tail).residue)
  {
    JoinFrame(packet, tail);
  }

  lemma FramesHead(packets: seq<Packet>, rest: seq<Byte>)
    requires packets != []
    ensures Frames(packets) + rest == Frame(packets[0]) + (Frames(packets[1..]) + rest)
  {
  }

  lemma ConsAppend<T>(s: seq<T>, t: seq<T>)
    requires s != []
    ensures [s[0]] + (s[1..] + t) == s + t
  {
  }

  /** Parsing undoes framing. */
  lemma {:induction false} ParseFrames(packets: seq<Packet>, rest: seq<Byte>)
    requires Sendable(packets)
    ensures Parse(Frames(packets) + rest) == Parsed(packets + Parse(rest).packets, Parse(rest).residue)
    decreases |packets|
  {
    if packets == [] {
      assert Frames(packets) + rest == rest;
    } else {
      var tail := Frames(packets[1..]) + rest;
      ParseFrames(packets[1..], rest);
      FramesHead(packets, rest);
      ParseFirst(packets[0], tail);
      ConsAppend(packets, Parse(rest).packets);
    }
  }

  /** Where a stream is cut makes no difference: parsing the residue of a first part together with
      what follows continues the parse of the whole. */
  lemma ChunkingIndependent(stream: seq<Byte>, more: seq<Byte>)
    ensures var first := Parse(stream);
      var second := Parse(first.residue + more);
      Parse(stream + more) == Parsed(first.packets + second.packets, second.residue)
  {
    var first := Parse(stream);
    ParseSplits(stream);
    Associate(Frames(first.packets), first.residue, more);
    ParseFrames(first.packets, first.residue + more);
  }

  /** Any part of a framed stream yields a prefix of its packets, exactly the whole of it yields
      all. */
  lemma PartialStream(packets: seq<Packet>, part: seq<Byte>)
    requires Sendable(packets) && part <= Frames(packets)
    ensures Parse(part).packets <= packets
    ensures Parse(part).packets == packets <==> part == Frames(packets)
  {
    var rest := Frames(packets)[|part|..];
    ChunkingIndependent(part, rest);
    assert part + rest == Frames(packets) + [];
    ParseFrames(packets, []);
    assert Parse([]) == Parsed([], []);
    assert Parse(part).packets <= Parse(part + rest).packets == packets;
    ParseSplits(part);
    if part == Frames(packets) {
      assert part + [] == part;
    }
  }

  lemma {:induction false} FramesAppend(packets: seq<Packet>, packet: Packet)
    ensures Frames(packets + [packet]) == Frames(packets) + Frame(packet)
  {
    if packets == [] {
      assert [] + [packet] == [packet] && [packet][1..] == [];
    } else {
      FramesAppend(packets[1..], packet);
      assert (packets + [packet])[1..] == packets[1..] + [packet];
    }
  }

  // ---------------------------------------------------------------- the socket

  lemma HeaderImage(n: nat, bigEndianHost: bool)
    ensures HostImage(HostToNetwork(n, 2, bigEndianHost), 2, bigEndianHost) == Header(n)
  {
    NetworkImage(n, 2, bigEndianHost);
    assert BigEndian(n, 2) == BigEndian(n / 256, 1) + [n % 256];
    assert BigEndian(n / 256, 1) == BigEndian(n / 256 / 256, 0) + [n / 256 % 256];
  }

  method MoveDown(buffer: array<Byte>, from: nat, count: nat)
    requires from + count <= buffer.Length
    modifies buffer
    ensures buffer[..count] == old(buffer[from..from + count])
    ensures buffer[count..] == old(buffer[count..])
  {
    forall i | 0 <= i < count {
      buffer[i] := buffer[from + i];
    }
  }

  class AsyncTcpSocket {
    const bigEndianHost: bool
    const inbuf: array<Byte>
    const outbuf: array<Byte>
    var inpos: nat
    var outpos: nat
    var delivered: seq<Packet>       // packets passed to the read callback
    var wire: seq<Byte>              // bytes the socket underneath has taken
    var readySignals: nat            // how often the owner was told that it can send
    ghost var accepted: seq<Packet>  // packets of which the socket took at least one byte
    ghost var received: seq<Byte>    // bytes the socket underneath has handed over

    ghost predicate SenderValid()
      reads this, outbuf
    {
      && outbuf.Length == BUF_SIZE && outpos <= BUF_SIZE
      && Sendable(accepted)
      && wire + outbuf[..outpos] == Frames(accepted)
    }

    ghost predicate ReceiverValid()
      reads this, inbuf
    {
      && inbuf.Length == BUF_SIZE && inpos <= LONGEST + 1
      && Parse(received) == Parsed(delivered, inbuf[..inpos])
    }

    ghost predicate Valid()
      reads this, inbuf, outbuf
    {
      inbuf != outbuf && SenderValid() && ReceiverValid()
    }

    constructor (bigEndianHost: bool)
      ensures Valid() && fresh(inbuf) && fresh(outbuf)
      ensures inpos == outpos == readySignals == 0
      ensures delivered == [] && wire == [] && accepted == [] && received == []
    {
      this.bigEndianHost := bigEndianHost;
      inbuf := new Byte[BUF_SIZE];
      outbuf := new Byte[BUF_SIZE];
      inpos, outpos, readySignals := 0, 0, 0;
      delivered, wire, accepted, received := [], [], [], [];
    }

    // -------------------------------------------------------------- sending

    method AppendToOutBuffer(data: seq<Byte>)
      requires outbuf.Length == BUF_SIZE && outpos + |data| < BUF_SIZE
      modifies this`outpos, outbuf
      ensures outpos == old(outpos) + |data|
      ensures outbuf[..outpos] == old(outbuf[..outpos]) + data
    {
      forall i | 0 <= i < |data| {
        outbuf[outpos + i] := data[i];
      }
      outpos := outpos + |data|;
    }

    method AppendFrame(packet: Packet)
      requires outbuf.Length == BUF_SIZE && outpos == 0 && |packet| <= LONGEST
      modifies this`outpos, outbuf
      ensures outpos == 2 + |packet| && outbuf[..outpos] == Frame(packet)
    {
      var length := HostToNetwork(|packet|, 2, bigEndianHost);
      HeaderImage(|packet|, bigEndianHost);
      AppendToOutBuffer(HostImage(length, 2, bigEndianHost));
      AppendToOutBuffer(packet);
    }

    /** `sent` is what the socket underneath reports: an error, nothing, or a number of bytes. */
    method FlushOutBuffer(sent: int) returns (res: int)
      requires outbuf.Length == BUF_SIZE && outpos <= BUF_SIZE
      modifies this`outpos, this`wire, outbuf
      ensures outpos <= BUF_SIZE && old(wire) <= wire
      ensures wire + outbuf[..outpos] == old(wire + outbuf[..outpos])
      ensures 0 < sent <= old(outpos) ==> res == sent && |wire| == |old(wire)| + sent
      ensures !(0 < sent <= old(outpos)) ==> wire == old(wire) && outpos == old(outpos)
      ensures sent <= 0 ==> res == sent
      ensures sent > old(outpos) && sent > 0 ==> res == -1
    {
      if sent <= 0 {
        return sent;
      }
      if sent > outpos {
        return -1;
      }
      ghost var before := outbuf[..outpos];
      wire := wire + outbuf[..sent];
      outpos := outpos - sent;
      if outpos > 0 {
        MoveDown(outbuf, sent, outpos);
      }
      assert outbuf[..outpos] == before[sent..];
      res := sent;
    }

    /** A packet counts as accepted when the output buffer was empty and the socket took at least
        one byte of its frame; any other packet leaves no byte on the wire or in the buffer. */
    method Send(packet: Packet, sent: int) returns (res: int)
      requires Valid()
      requires |packet| <= LONGEST || |packet| > BUF_SIZE
      modifies this`outpos, this`wire, this`accepted, outbuf
      ensures Valid()
      ensures old(wire) <= wire
      ensures var ok := |packet| <= LONGEST && old(outpos) == 0 && 0 < sent <= 2 + |packet|;
        && accepted == (if ok then old(accepted) + [packet] else old(accepted))
        && (ok ==> |wire| == |old(wire)| + sent && outpos == 2 + |packet| - sent)
        && (!ok ==> wire == old(wire) && outpos == old(outpos))
      ensures |packet| > BUF_SIZE ==> res == -1
      ensures |packet| <= LONGEST && old(outpos) > 0 ==> res == |packet|
      ensures |packet| <= LONGEST && old(outpos) == 0 ==>
        res == if 0 < sent <= 2 + |packet| then |packet| else if sent > 0 then -1 else sent
    {
      if |packet| > BUF_SIZE {
        return -1;
      }
      if outpos != 0 {
        return |packet|;
      }
      AppendFrame(packet);
      assert wire + outbuf[..outpos] == Frames(accepted) + Frame(packet) by {
        assert wire + [] == wire;
      }
      res := FlushOutBuffer(sent);
      if res <= 0 {
        outpos := 0;
        return res;
      }
      FramesAppend(accepted, packet);
      accepted := accepted + [packet];
      res := |packet|;
    }

    method OnWriteEvent(sent: int)
      requires Valid()
      modifies this`outpos, this`wire, this`readySignals, outbuf
      ensures Valid()
      ensures old(wire) <= wire
      ensures outpos == (if 0 < sent <= old(outpos) then old(outpos) - sent else old(outpos))
      ensures readySignals == old(readySignals) + if outpos == 0 then 1 else 0
    {
      if outpos > 0 {
        var res := FlushOutBuffer(sent);
      }
      if outpos == 0 {
        readySignals := readySignals + 1;
      }
    }

    // -------------------------------------------------------------- receiving

    static lemma ReadStep(received: seq<Byte>, delivered: seq<Packet>, residue: seq<Byte>, more: seq<Byte>)
      requires Parse(received) == Parsed(delivered, residue)
      ensures var parsed := Parse(residue + more);
        && Parse(received + more) == Parsed(delivered + parsed.packets, parsed.residue)
        && |parsed.residue| <= LONGEST + 1
    {
      ChunkingIndependent(received, more);
      ParseSplits(residue + more);
    }

    /** What the socket's receive call does to the buffer. */
    method Fill(data: seq<Byte>)
      requires inbuf.Length == BUF_SIZE && inpos + |data| <= BUF_SIZE
      modifies this`inpos, inbuf
      ensures inpos == old(inpos) + |data|
      ensures inbuf[..inpos] == old(inbuf[..inpos]) + data
    {
      forall i | 0 <= i < |data| {
        inbuf[inpos + i] := data[i];
      }
      inpos := inpos + |data|;
    }

    /** Delivers every complete packet in the buffer and moves the rest to its front. */
    method ProcessInput()
      requires inbuf.Length == BUF_SIZE && inpos <= BUF_SIZE
      modifies this`inpos, this`delivered, inbuf
      ensures inpos <= BUF_SIZE
      ensures var parsed := Parse(old(inbuf[..inpos]));
        delivered == old(delivered) + parsed.packets && inbuf[..inpos] == parsed.residue
    {
      ghost var all := Parse(inbuf[..inpos]);
      while true
        invariant inpos <= BUF_SIZE
        invariant delivered + Parse(inbuf[..inpos]).packets == old(delivered) + all.packets
        invariant Parse(inbuf[..inpos]).residue == all.residue
        decreases inpos
      {
        ghost var data, sofar := inbuf[..inpos], delivered;
        if inpos < PACKET_LEN_SIZE {
          return;
        }
        var length := GetBE16(inbuf[..2]);
        assert length == LengthField(data);
        if inpos < PACKET_LEN_SIZE + length {
          return;
        }
        assert inbuf[PACKET_LEN_SIZE..PACKET_LEN_SIZE + length] == First(data);
        delivered := delivered + [inbuf[PACKET_LEN_SIZE..PACKET_LEN_SIZE + length]];
        inpos := inpos - (PACKET_LEN_SIZE + length);
        if inpos > 0 {
          MoveDown(inbuf, PACKET_LEN_SIZE + length, inpos);
        }
        assert inbuf[..inpos] == Rest(data);
        assert delivered == sofar + [First(data)];
        ParseUnfolds(sofar, data);
      }
    }

    method TakeIn(data: seq<Byte>)
      requires ReceiverValid() && |data| <= BUF_SIZE - inpos
      modifies this`inpos, this`delivered, this`received, inbuf
      ensures ReceiverValid()
      ensures received == old(received) + data && old(delivered) <= delivered
    {
      ghost var before := inbuf[..inpos];
      ReadStep(received, delivered, before, data);
      Fill(data);
      assert inbuf[..inpos] == before + data;
      ProcessInput();
      received := received + data;
    }

    /** `data` is what the socket underneath hands over, or `None` when it reports an error; it
        never hands over more than it was given room for. */
    method OnReadEvent(data: Option<seq<Byte>>)
      requires Valid()
      requires data.Some? ==> |data.value| <= BUF_SIZE - inpos
      modifies this`inpos, this`delivered, this`received, inbuf
      ensures Valid()
      ensures received == old(received) + if data.Some? then data.value else []
      ensures old(delivered) <= delivered
    {
      if data.None? {
        return;
      }
      TakeIn(data.value);
      if inpos >= BUF_SIZE {
        assert false;  // the overflow branch: the residue never fills the buffer
      }
    }
  }

  // ---------------------------------------------------------------- whole sessions

  /** One thing that happens on a connection: the sender is asked to send a packet and the socket
      takes up to `sent` bytes of its frame; the socket becomes writable again; or the receiver's
      socket becomes readable with up to `limit` bytes, or an error when `limit` is negative. */
  datatype Event =
    | Sending(packet: Packet, sent: int)
    | Writable(sent: int)
    | Readable(limit: int)

  /** How many bytes the sender still holds back, which packets it has accepted, and how many bytes
      of their frames the receiver has got. */
  datatype Line = Line(pending: nat, accepted: seq<Packet>, received: nat)
  {
    ghost predicate Valid() { received + pending <= |Frames(accepted)| }

    ghost function Stream(): seq<Byte> { Frames(accepted) }

    /** The bytes the network carries. */
    ghost function InFlight(): nat
      requires Valid()
    {
      |Stream()| - pending - received
    }

    /** The space left beside the unfinished packet in the buffer of the receiver. */
    ghost function Room(): (room: nat)
      requires Valid()
      ensures room > 0
    {
      ParseSplits(Stream()[..received]);
      BUF_SIZE - |Parse(Stream()[..received]).residue|
    }

    ghost function Delivered(): seq<Packet>
      requires Valid()
    {
      Parse(Stream()[..received]).packets
    }
  }

  function Least(a: nat, b: nat): nat { if a < b then a else b }

  /** A readable event hands over as much as is asked for, fits and has arrived. */
  ghost function LineStep(line: Line, event: Event): (next: Line)
    requires line.Valid()
    ensures next.Valid()
  {
    match event
    case Sending(packet, sent) =>
      if line.pending == 0 && |packet| <= LONGEST && 0 < sent <= 2 + |packet| then
        FramesAppend(line.accepted, packet);
        Line(2 + |packet| - sent, line.accepted + [packet], line.received)
      else line
    case Writable(sent) =>
      if 0 < sent <= line.pending then line.(pending := line.pending - sent) else line
    case Readable(limit) =>
      if limit < 0 then line
      else line.(received := line.received + Least(limit, Least(line.Room(), line.InFlight())))
  }

  ghost function LineAfter(events: seq<Event>): (line: Line)
    ensures line.Valid()
  {
    if events == [] then Line(0, [], 0)
    else LineStep(LineAfter(events[..|events| - 1]), events[|events| - 1])
  }

  lemma LineAfterMore(events: seq<Event>, event: Event)
    ensures LineAfter(events + [event]) == LineStep(LineAfter(events), event)
  {
    assert (events + [event])[..|events|] == events;
  }

  /** A readable event that asks for anything brings at least a byte, if one is in flight. */
  lemma ReadBringsSome(line: Line, e: Event)
    requires line.Valid() && line.pending == 0 && e.Readable? && e.limit > 0
    ensures var next := LineStep(line, e);
      && next == line.(received := next.received)
      && next.InFlight() <= line.InFlight()
      && (line.InFlight() > 0 ==> next.InFlight() < line.InFlight())
  {
  }

  lemma NothingInFlight(line: Line)
    requires line.Valid() && line.pending == 0 && line.InFlight() == 0
    ensures line == line.(received := |line.Stream()|)
  {
  }

  /** Once the sender holds nothing back, as many readable events as there are bytes in flight bring
      them all, whatever positive limits they have. */
  lemma {:induction false} ReadsComplete(events: seq<Event>, readables: seq<Event>)
    requires LineAfter(events).pending == 0
    requires forall e :: e in readables ==> e.Readable? && e.limit > 0
    requires |readables| >= LineAfter(events).InFlight()
    ensures LineAfter(events + readables) == LineAfter(events).(received := |LineAfter(events).Stream()|)
    decreases |readables|
  {
    var line := LineAfter(events);
    if readables == [] {
      assert events + readables == events;
      NothingInFlight(line);
    } else {
      var e := readables[0];
      assert e in readables;
      ReadBringsSome(line, e);
      LineAfterMore(events, e);
      ReadsComplete(events + [e], readables[1..]);
      Associate(events, [e], readables[1..]);
      assert [e] + readables[1..] == readables;
    }
  }

  /** However a session went, one writable event that takes what is held back, followed by enough
      readable events, delivers every packet accepted. */
  lemma EverythingDelivered(events: seq<Event>, readables: seq<Event>)
    requires forall e :: e in readables ==> e.Readable? && e.limit > 0
    requires |readables| >= |LineAfter(events).Stream()|
    ensures var line := LineAfter(events);
      LineAfter(events + [Writable(line.pending)] + readables).Delivered() == line.accepted
  {
    var line := LineAfter(events);
    LineAfterMore(events, Writable(line.pending));
    ReadsComplete(events + [Writable(line.pending)], readables);
    AcceptedSendable(events);
    assert line.Stream()[..|line.Stream()|] == line.Stream();
    PartialStream(line.accepted, line.Stream());
  }

  lemma {:induction false} AcceptedSendable(events: seq<Event>)
    ensures Sendable(LineAfter(events).accepted)
  {
    if events != [] {
      AcceptedSendable(events[..|events| - 1]);
    }
  }

  /** Two sockets of their own, the receiver having got the first `received` bytes of the sender's
      stream. */
  ghost predicate Connected(sender: AsyncTcpSocket, receiver: AsyncTcpSocket, received: nat)
    reads sender, sender.inbuf, sender.outbuf, receiver, receiver.inbuf, receiver.outbuf
  {
    && sender.Valid() && receiver.Valid() && sender != receiver
    && sender.outbuf != receiver.inbuf && sender.outbuf != receiver.outbuf && sender.inbuf != receiver.inbuf
    && received <= |sender.wire| && receiver.received == sender.wire[..received]
  }

  ghost function LineOf(sender: AsyncTcpSocket, received: nat): Line
    reads sender
  {
    Line(sender.outpos, sender.accepted, received)
  }

  /** The state of two connected sockets is one of the line. */
  lemma ConnectedLine(sender: AsyncTcpSocket, receiver: AsyncTcpSocket, received: nat)
    requires Connected(sender, receiver, received)
    ensures var line := LineOf(sender, received);
      && line.Valid() && line.Stream()[..received] == receiver.received
      && line.InFlight() == |sender.wire| - received && line.Room() == BUF_SIZE - receiver.inpos
      && line.Delivered() == receiver.delivered
  {
    assert (sender.wire + sender.outbuf[..sender.outpos])[..received] == sender.wire[..received];
  }

  method Receive(sender: AsyncTcpSocket, receiver: AsyncTcpSocket, limit: int, received: nat)
    returns (nowReceived: nat)
    requires Connected(sender, receiver, received)
    modifies receiver`inpos, receiver`delivered, receiver`received, receiver.inbuf
    ensures Connected(sender, receiver, nowReceived)
    ensures nowReceived == received
      + if limit < 0 then 0 else Least(limit, Least(BUF_SIZE - old(receiver.inpos), |sender.wire| - received))
  {
    if limit < 0 {
      receiver.OnReadEvent(None);
      return received;
    }
    var n := Least(limit, Least(BUF_SIZE - receiver.inpos, |sender.wire| - received));
    nowReceived := received + n;
    assert sender.wire[..received] + sender.wire[received..nowReceived] == sender.wire[..nowReceived];
    receiver.OnReadEvent(Some(sender.wire[received..nowReceived]));
  }

  method HandleSending(sender: AsyncTcpSocket, receiver: AsyncTcpSocket, packet: Packet, sent: int, received: nat)
    requires Connected(sender, receiver, received) && LineOf(sender, received).Valid()
    requires |packet| <= LONGEST || |packet| > BUF_SIZE
    modifies sender, sender.outbuf
    ensures Connected(sender, receiver, received)
    ensures LineOf(sender, received) == LineStep(old(LineOf(sender, received)), Sending(packet, sent))
  {
    var res := sender.Send(packet, sent);
  }

  method HandleWritable(sender: AsyncTcpSocket, receiver: AsyncTcpSocket, sent: int, received: nat)
    requires Connected(sender, receiver, received) && LineOf(sender, received).Valid()
    modifies sender, sender.outbuf
    ensures Connected(sender, receiver, received)
    ensures LineOf(sender, received) == LineStep(old(LineOf(sender, received)), Writable(sent))
  {
    sender.OnWriteEvent(sent);
  }

  method HandleReadable(sender: AsyncTcpSocket, receiver: AsyncTcpSocket, limit: int, received: nat)
    returns (nowReceived: nat)
    requires Connected(sender, receiver, received) && LineOf(sender, received).Valid()
    modifies receiver, receiver.inbuf
    ensures Connected(sender, receiver, nowReceived)
    ensures LineOf(sender, nowReceived) == LineStep(LineOf(sender, received), Readable(limit))
  {
    ConnectedLine(sender, receiver, received);
    nowReceived := Receive(sender, receiver, limit, received);
  }

  method HandleEvent(sender: AsyncTcpSocket, receiver: AsyncTcpSocket, event: Event, received: nat)
    returns (nowReceived: nat)
    requires Connected(sender, receiver, received) && LineOf(sender, received).Valid()
    requires event.Sending? ==> |event.packet| <= LONGEST || |event.packet| > BUF_SIZE
    modifies sender, sender.outbuf, receiver, receiver.inbuf
    ensures Connected(sender, receiver, nowReceived)
    ensures LineOf(sender, nowReceived) == LineStep(old(LineOf(sender, received)), event)
  {
    nowReceived := received;
    match event
    case Sending(packet, sent) => HandleSending(sender, receiver, packet, sent, received);
    case Writable(sent) => HandleWritable(sender, receiver, sent, received);
    case Readable(limit) => nowReceived := HandleReadable(sender, receiver, limit, received);
  }

  lemma SessionEnds(sender: AsyncTcpSocket, receiver: AsyncTcpSocket, received: nat, line: Line)
    requires Connected(sender, receiver, received) && line == LineOf(sender, received)
    ensures line.Valid() && receiver.delivered == line.Delivered() && received == line.received
    ensures receiver.delivered <= line.accepted
    ensures receiver.delivered == line.accepted <==> received == |line.Stream()|
  {
    ConnectedLine(sender, receiver, received);
    PartialStream(line.accepted, line.Stream()[..received]);
  }

  /** Runs any list of events between two sockets, the network keeping the order of the bytes. How
      many bytes got through is what the events say; what was delivered is what parses out of them, a
      prefix of the accepted packets, and all of them exactly once every byte is through. */
  method RunSession(events: seq<Event>, senderBigEndian: bool, receiverBigEndian: bool)
    returns (delivered: seq<Packet>, received: nat)
    requires forall e :: e in events && e.Sending? ==> |e.packet| <= LONGEST || |e.packet| > BUF_SIZE
    ensures var line := LineAfter(events);
      && received == line.received
      && delivered == line.Delivered()
      && delivered <= line.accepted
      && (delivered == line.accepted <==> received == |line.Stream()|)
  {
    var sender := new AsyncTcpSocket(senderBigEndian);
    var receiver := new AsyncTcpSocket(receiverBigEndian);
    received := 0;
    for i := 0 to |events|
      invariant fresh(sender) && fresh(sender.outbuf) && fresh(receiver) && fresh(receiver.inbuf)
      invariant Connected(sender, receiver, received)
      invariant LineOf(sender, received) == LineAfter(events[..i])
    {
      assert events[..i + 1][..i] == events[..i] && events[i] in events;
      received := HandleEvent(sender, receiver, events[i], received);
    }
    assert events[..|events|] == events;
    delivered := receiver.delivered;
    SessionEnds(sender, receiver, received, LineAfter(events));
  }
}
