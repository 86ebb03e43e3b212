/**
 * What the ProtocolManager operations do to the link and what they return,
 * as functions of the link's state (ProtocolManager.h, ProtocolManager.cc).
 * Each blocking wait of the source is a recursion over the inbound queue:
 * every read that returns a frame consumes input, and a read on an empty
 * queue fails, so every wait ends.
 */
module Session {
  import opened Bytes
  import opened Transport
  import opened L1
  import opened L2Defs
  import opened Ppp
  import opened L2
  import opened Records
  import opened Wrappers

  // WaitForPacket

  /**
   * WaitForPacket(command, sender, p): read frames into `img` until one
   * carries `command` from `sender`; false when a read fails.
   */
  function WaitFor(img: Image, w: Wire, command: Word, sender: Mac): (r: ReadResult)
    ensures r.ok ==> CommandOf(r.image) == command && CheckSourceOf(r.image, sender)
    ensures r.ok ==> 0 <= DataLengthOf(r.image) <= MaxPayload
    ensures r.wire.outbox == w.outbox && r.wire.writesLeft == w.writesLeft
    decreases Weight(w.inbound)
  {
    var r := ReadSpec(img, w);
    if !r.ok || (CommandOf(r.image) == command && CheckSourceOf(r.image, sender)) then r
    else WaitFor(r.image, r.wire, command, sender)
  }

  /** A frame WaitForPacket stops at. */
  predicate Awaited(f: Frame, command: Word, sender: Mac)
  {
    f.command == command && f.source == sender
  }

  /** Reading a frame delivered whole tells whether WaitForPacket stops at it. */
  lemma ReadAwaited(img: Image, f: Frame, w: Wire, rest: seq<seq<Byte>>, command: Word, sender: Mac)
    requires |f.payload| <= MaxPayload && w.inbound == [FrameBytes(f)] + rest
    ensures var r := ReadSpec(img, w);
      && r.ok && r.wire == w.(inbound := rest)
      && (CommandOf(r.image) == command && CheckSourceOf(r.image, sender) <==> Awaited(f, command, sender))
      && CommandOf(r.image) == f.command && SourceOf(r.image) == f.source && PayloadOf(r.image) == f.payload
  {
    ReadFrameBytes(img, f, w, rest);
  }

  /**
   * WaitForPacket is a search for the first awaited frame: readable frames
   * with another command or from another sender are skipped, and the first
   * frame with the command from the sender is the one returned, with the
   * input after it left unread.
   */
  lemma {:induction false} WaitForFrames(img: Image, w: Wire, command: Word, sender: Mac, fs: seq<Frame>, t: Frame, rest: seq<seq<Byte>>)
    requires Fits(fs) && |t.payload| <= MaxPayload && Awaited(t, command, sender)
    requires forall i :: 0 <= i < |fs| ==> !Awaited(fs[i], command, sender)
    requires w.inbound == Deliveries(fs) + [FrameBytes(t)] + rest
    ensures var r := WaitFor(img, w, command, sender);
      && r.ok && r.wire == w.(inbound := rest)
      && CommandOf(r.image) == t.command && SourceOf(r.image) == t.source && PayloadOf(r.image) == t.payload
    decreases |fs|
  {
    if fs == [] {
      assert w.inbound == [FrameBytes(t)] + rest;
      ReadAwaited(img, t, w, rest, command, sender);
    } else {
      DeliveriesCons(fs);
      var tail := Deliveries(fs[1..]) + [FrameBytes(t)] + rest;
      assert w.inbound == [FrameBytes(fs[0])] + tail;
      ReadAwaited(img, fs[0], w, tail, command, sender);
      var r := ReadSpec(img, w);
      assert !Awaited(fs[0], command, sender);
      WaitForFrames(r.image, r.wire, command, sender, fs[1..], t, rest);
    }
  }

  /**
   * WaitForPacket returns false exactly where a read fails: after readable
   * frames that are not awaited, a delivery too short for a header ends the
   * wait with false, consuming only up to that delivery.
   */
  lemma {:induction false} WaitForFails(img: Image, w: Wire, command: Word, sender: Mac, fs: seq<Frame>, d: seq<Byte>, rest: seq<seq<Byte>>)
    requires Fits(fs) && |d| < BodyLength
    requires forall i :: 0 <= i < |fs| ==> !Awaited(fs[i], command, sender)
    requires w.inbound == Deliveries(fs) + [d] + rest
    ensures var r := WaitFor(img, w, command, sender);
      !r.ok && r.wire == w.(inbound := rest)
    decreases |fs|
  {
    if fs == [] {
      assert w.inbound == [d] + rest;
      ShortDeliveryFails(img, w, d, rest);
    } else {
      DeliveriesCons(fs);
      var tail := Deliveries(fs[1..]) + [d] + rest;
      assert w.inbound == [FrameBytes(fs[0])] + tail;
      ReadAwaited(img, fs[0], w, tail, command, sender);
      var r := ReadSpec(img, w);
      WaitForFails(r.image, r.wire, command, sender, fs[1..], d, rest);
    }
  }

  // Connect

  predicate IsPing(img: Image, sma: Mac)
  {
    CommandOf(img) == CommandLoginPing && CheckSourceOf(img, sma)
  }

  /**
   * The attempt loop of Connect: the loop condition reads a frame, and
   * `attempt` is compared with 2 only after a failed read, so the third
   * failed read, not the second, gives up.
   */
  function AwaitPing(img: Image, w: Wire, sma: Mac, attempt: nat): (r: ReadResult)
    requires attempt <= 2
    ensures r.ok ==> IsPing(r.image, sma) && 0 <= DataLengthOf(r.image) <= MaxPayload
    ensures r.wire.outbox == w.outbox && r.wire.writesLeft == w.writesLeft
    decreases 2 - attempt
  {
    var r := ReadSpec(img, w);
    if r.ok && IsPing(r.image, sma) then r
    else if attempt == 2 then r.(ok := false)
    else AwaitPing(r.image, r.wire, sma, attempt + 1)
  }

  /** The outcome of Connect after the socket is up: its return value, our_mac and the link. */
  datatype Connected = Connected(code: int, ourMac: Mac, wire: Wire)

  /**
   * Connect after BTConnect: wait for the login ping (1 after three failed
   * reads), echo it from the all-zero address (2 when that write fails),
   * wait for a Login_3 frame from the inverter with a 16-byte payload (3
   * otherwise), and take our address from bytes 8 to 13 of that payload.
   * `our` is the value our_mac had before.
   */
  function ConnectSpec(w: Wire, sma: Mac, our: Mac): (r: Connected)
    ensures 0 <= r.code <= 3
  {
    var p := AwaitPing(ZeroImage(), w, sma, 0);
    if !p.ok then Connected(1, our, p.wire) else ConnectReply(p.image, p.wire, sma, our)
  }

  /** The part of Connect after the ping arrived in `img`: the echo and the wait for Login_3. */
  function ConnectReply(img: Image, w: Wire, sma: Mac, our: Mac): (r: Connected)
    requires 0 <= DataLengthOf(img) <= MaxPayload
    ensures 2 <= r.code <= 3 || r.code == 0
  {
    var header := WithHeader(img, ZeroMac, sma, CommandLoginPing);
    var echo := WithCheckSum(WithData(header, PayloadOf(header)));
    var written := WriteBytes(w, WireBytes(echo));
    if written.count != echo[1] then Connected(2, our, written.wire)
    else
      var l := WaitFor(echo, written.wire, CommandLogin3, sma);
      if !l.ok || DataLengthOf(l.image) != Login3DataSize then Connected(3, our, l.wire)
      else Connected(0, Login3Us(l.image), l.wire)
  }

  /** Bytes 8 to 13 of a Login_3 payload: the address the inverter reports for us. */
  function Login3Us(img: Image): Mac
    requires DataLengthOf(img) == Login3DataSize
  {
    PayloadOf(img)[Login3UsAt..Login3UsAt + 6]
  }

  // SendL2

  /** Every frame of `fs` has a payload the one-byte length field can describe. */
  predicate Fits(fs: seq<Frame>)
  {
    forall i :: 0 <= i < |fs| ==> |fs[i].payload| <= MaxPayload
  }

  /** The deliveries a peer receives when the frames `fs` are written one by one. */
  function Deliveries(fs: seq<Frame>): (d: seq<seq<Byte>>)
    requires Fits(fs)
    ensures |d| == |fs|
  {
    seq(|fs|, i requires 0 <= i < |fs| => FrameBytes(fs[i]))
  }

  lemma DeliveriesCons(fs: seq<Frame>)
    requires Fits(fs) && fs != []
    ensures Deliveries(fs) == [FrameBytes(fs[0])] + Deliveries(fs[1..])
  {
  }

  lemma DeliveriesPrefix(fs: seq<Frame>, n: nat)
    requires Fits(fs) && n <= |fs|
    ensures Deliveries(fs[..n]) == Deliveries(fs)[..n]
  {
  }

  /**
   * The frames SendL2 sends for the encoded packet `b`: consecutive chunks of
   * L1_MaxDataLength bytes, the last one shorter or equal, all from `source`
   * to `destination`; the last carries L1_Command_L2_Packet, the others
   * L1_Command_L2_PacketPart.
   */
  function Fragments(source: Mac, destination: Mac, b: seq<Byte>): (fs: seq<Frame>)
    ensures Fits(fs)
    decreases |b|
  {
    if b == [] then []
    else if |b| <= MaxDataLength then [Frame(0, source, destination, CommandL2Packet, b)]
    else [Frame(0, source, destination, CommandL2PacketPart, b[..MaxDataLength])]
         + Fragments(source, destination, b[MaxDataLength..])
  }

  /** The first fragment of a non-empty packet, and the fragments of what follows it. */
  lemma FragmentsStep(source: Mac, destination: Mac, b: seq<Byte>, n: nat)
    requires b != [] && n == (if |b| > MaxDataLength then MaxDataLength else |b|)
    ensures var fs := Fragments(source, destination, b);
      && fs != []
      && fs[0] == Frame(0, source, destination, if |b| - n == 0 then CommandL2Packet else CommandL2PacketPart, b[..n])
      && fs[1..] == Fragments(source, destination, b[n..])
  {
    if |b| <= MaxDataLength {
      assert b[n..] == [];
      assert b[..n] == b;
    }
  }

  /** The payloads of a list of frames, in order. */
  function Payloads(fs: seq<Frame>): (p: seq<seq<Byte>>)
    ensures |p| == |fs|
  {
    seq(|fs|, i requires 0 <= i < |fs| => fs[i].payload)
  }

  /**
   * The fragments of `b` put together give `b` back; there are ceil(|b| / 73)
   * of them, every one but the last is full, all go from `source` to
   * `destination`, and only the last is marked as the end of the packet.
   */
  lemma {:induction false} FragmentsJoin(source: Mac, destination: Mac, b: seq<Byte>)
    ensures var fs := Fragments(source, destination, b);
      && Concat(Payloads(fs)) == b
      && |fs| == (|b| + MaxDataLength - 1) / MaxDataLength
      && (forall i :: 0 <= i < |fs| ==> fs[i].unknown == 0 && fs[i].source == source && fs[i].destination == destination)
      && (forall i :: 0 <= i < |fs| ==> 0 < |fs[i].payload| <= MaxDataLength)
      && (forall i :: 0 <= i < |fs| - 1 ==> |fs[i].payload| == MaxDataLength && fs[i].command == CommandL2PacketPart)
      && (fs != [] ==> fs[|fs| - 1].command == CommandL2Packet)
    decreases |b|
  {
    var fs := Fragments(source, destination, b);
    if b == [] {
    } else if |b| <= MaxDataLength {
      assert Payloads(fs)[1..] == [];
    } else {
      var tail := Fragments(source, destination, b[MaxDataLength..]);
      FragmentsJoin(source, destination, b[MaxDataLength..]);
      assert fs == [fs[0]] + tail;
      assert Payloads(fs)[1..] == Payloads(tail);
      assert b == b[..MaxDataLength] + b[MaxDataLength..];
    }
  }

  /** Whether a run of writes went through, and the link afterwards. */
  datatype Delivered = Delivered(ok: bool, wire: Wire)

  /**
   * Writes the frames one by one with L1Packet::Send, stopping at the first
   * write that does not report the whole frame written.
   */
  function WriteFrames(w: Wire, fs: seq<Frame>): (r: Delivered)
    requires Fits(fs)
    ensures r.wire.inbound == w.inbound
    ensures r.ok <==> w.writesLeft >= |fs|
    ensures r.ok ==> r.wire.outbox == w.outbox + Deliveries(fs) && r.wire.writesLeft == w.writesLeft - |fs|
    ensures !r.ok ==> r.wire.outbox == w.outbox + Deliveries(fs)[..w.writesLeft] && r.wire.writesLeft == 0
    decreases |fs|
  {
    if fs == [] then Delivered(true, w)
    else
      var x := WriteBytes(w, FrameBytes(fs[0]));
      if x.count != |FrameBytes(fs[0])| then Delivered(false, x.wire)
      else
        var r := WriteFrames(x.wire, fs[1..]);
        DeliveriesCons(fs);
        r
  }

  /** What SendL2 returns, the L2 header afterwards and the link afterwards. */
  datatype Sent = Sent(ok: bool, header: Header, wire: Wire)

  /**
   * SendL2(l2, data): PreparePacket stores the length byte and encodes the
   * packet, and the encoding goes out as the fragments from `our` to `sma`.
   */
  function SendL2Spec(h: Header, data: seq<Byte>, w: Wire, our: Mac, sma: Mac): (r: Sent)
  {
    var prepared: Header := h[Defs.lengthAt := LengthField(|data|)];
    var d := WriteFrames(w, Fragments(our, sma, Envelope(prepared, data)));
    Sent(d.ok, prepared, d.wire)
  }

  /**
   * SendL2 succeeds exactly when the peer takes one write per fragment; the
   * link then carries the fragments of the encoded packet, in order.
   */
  lemma SendL2Writes(h: Header, data: seq<Byte>, w: Wire, our: Mac, sma: Mac)
    ensures var r := SendL2Spec(h, data, w, our, sma);
      var b := Envelope(h[Defs.lengthAt := LengthField(|data|)], data);
      var fs := Fragments(our, sma, b);
      && r.header == h[Defs.lengthAt := LengthField(|data|)]
      && r.wire.inbound == w.inbound
      && (r.ok <==> w.writesLeft >= (|b| + MaxDataLength - 1) / MaxDataLength)
      && (r.ok ==> r.wire.outbox == w.outbox + Deliveries(fs) && Concat(Payloads(fs)) == b)
  {
    var b := Envelope(h[Defs.lengthAt := LengthField(|data|)], data);
    FragmentsJoin(our, sma, b);
  }

  // ReadL2Packet

  /** A frame ReadL2Packet takes: from the inverter and carrying an L2 packet or part of one. */
  predicate IsPart(img: Image, sma: Mac)
  {
    CheckSourceOf(img, sma) && (CommandOf(img) == CommandL2Packet || CommandOf(img) == CommandL2PacketPart)
  }

  /** The outcome of ReadL2Packet: the concatenated data, or None for NULL, and the link. */
  datatype Reassembly = Reassembly(data: Option<seq<Byte>>, wire: Wire)

  /**
   * ReadL2Packet, from the struct `img` and with `acc` already collected:
   * frames that are not parts from the inverter are skipped, the payloads of
   * the others are appended, and the first L1_Command_L2_Packet part ends the
   * packet. A failed read discards what was collected.
   */
  function Reassemble(img: Image, w: Wire, sma: Mac, acc: seq<Byte>): (r: Reassembly)
    ensures r.wire.outbox == w.outbox && r.wire.writesLeft == w.writesLeft
    ensures r.data.Some? ==> Weight(r.wire.inbound) < Weight(w.inbound) && acc <= r.data.value
    decreases Weight(w.inbound)
  {
    var r := ReadSpec(img, w);
    if !r.ok then Reassembly(None, r.wire)
    else if !IsPart(r.image, sma) then Reassemble(r.image, r.wire, sma, acc)
    else
      var more := acc + PayloadOf(r.image);
      if CommandOf(r.image) == CommandL2Packet then Reassembly(Some(more), r.wire)
      else Reassemble(r.image, r.wire, sma, more)
  }

  /** The frame-level reading of IsPart. */
  predicate Wanted(f: Frame, sma: Mac)
  {
    f.source == sma && (f.command == CommandL2Packet || f.command == CommandL2PacketPart)
  }

  predicate Final(f: Frame, sma: Mac)
  {
    f.source == sma && f.command == CommandL2Packet
  }

  /** The payloads of the wanted frames of `fs`, concatenated in arrival order. */
  function Joined(fs: seq<Frame>, sma: Mac): seq<Byte>
  {
    if fs == [] then [] else (if Wanted(fs[0], sma) then fs[0].payload else []) + Joined(fs[1..], sma)
  }

  /** `fs` ends with the first final part from the inverter. */
  predicate Completes(fs: seq<Frame>, sma: Mac)
  {
    fs != [] && Final(fs[|fs| - 1], sma) && forall i :: 0 <= i < |fs| - 1 ==> !Final(fs[i], sma)
  }

  /** Reading a frame delivered whole tells whether ReadL2Packet takes it and what it carries. */
  lemma ReadFrame(img: Image, f: Frame, w: Wire, rest: seq<seq<Byte>>, sma: Mac)
    requires |f.payload| <= MaxPayload && w.inbound == [FrameBytes(f)] + rest
    ensures var r := ReadSpec(img, w);
      && r.ok && r.wire == w.(inbound := rest)
      && (IsPart(r.image, sma) <==> Wanted(f, sma))
      && (IsPart(r.image, sma) ==> PayloadOf(r.image) == f.payload && (CommandOf(r.image) == CommandL2Packet <==> Final(f, sma)))
  {
    ReadFrameBytes(img, f, w, rest);
  }

  /**
   * Reassembly is the filtered concatenation: on frames that end with the
   * first final part from the inverter, ReadL2Packet returns the payloads of
   * the parts from the inverter in arrival order and consumes exactly those frames.
   */
  lemma {:induction false} ReassembleFrames(img: Image, w: Wire, sma: Mac, acc: seq<Byte>, fs: seq<Frame>, rest: seq<seq<Byte>>)
    requires Fits(fs) && w.inbound == Deliveries(fs) + rest && Completes(fs, sma)
    ensures Reassemble(img, w, sma, acc) == Reassembly(Some(acc + Joined(fs, sma)), w.(inbound := rest))
    decreases |fs|
  {
    DeliveriesCons(fs);
    var tail := Deliveries(fs[1..]) + rest;
    assert w.inbound == [FrameBytes(fs[0])] + tail;
    ReadFrame(img, fs[0], w, tail, sma);
    var r := ReadSpec(img, w);
    if Final(fs[0], sma) {
      assert |fs| == 1;
      assert fs[1..] == [];
      assert Joined(fs, sma) == fs[0].payload;
    } else {
      assert |fs| > 1;
      var more := if Wanted(fs[0], sma) then acc + fs[0].payload else acc;
      ReassembleFrames(r.image, r.wire, sma, more, fs[1..], rest);
      JoinedStep(acc, fs, sma);
    }
  }

  lemma JoinedStep(acc: seq<Byte>, fs: seq<Frame>, sma: Mac)
    requires fs != []
    ensures acc + Joined(fs, sma) == (if Wanted(fs[0], sma) then acc + fs[0].payload else acc) + Joined(fs[1..], sma)
  {
    var j := Joined(fs[1..], sma);
    if Wanted(fs[0], sma) {
      assert Joined(fs, sma) == fs[0].payload + j;
      assert acc + (fs[0].payload + j) == (acc + fs[0].payload) + j;
    } else {
      assert Joined(fs, sma) == [] + j == j;
    }
  }

  /** Frames that never bring the final part, followed by silence, make ReadL2Packet return NULL. */
  lemma {:induction false} ReassembleIncomplete(img: Image, w: Wire, sma: Mac, acc: seq<Byte>, fs: seq<Frame>)
    requires Fits(fs) && w.inbound == Deliveries(fs)
    requires forall i :: 0 <= i < |fs| ==> !Final(fs[i], sma)
    ensures Reassemble(img, w, sma, acc).data == None
    ensures Reassemble(img, w, sma, acc).wire.inbound == []
    decreases |fs|
  {
    if fs == [] {
    } else {
      DeliveriesCons(fs);
      ReadFrame(img, fs[0], w, Deliveries(fs[1..]), sma);
      var r := ReadSpec(img, w);
      var more := if Wanted(fs[0], sma) then acc + fs[0].payload else acc;
      ReassembleIncomplete(r.image, r.wire, sma, more, fs[1..]);
    }
  }

  /** The fragments of a non-empty packet, read by the peer they are addressed from, end with the only final part and join to the packet. */
  lemma {:induction false} FragmentsComplete(source: Mac, destination: Mac, b: seq<Byte>)
    requires b != []
    ensures Completes(Fragments(source, destination, b), source)
    ensures Joined(Fragments(source, destination, b), source) == b
    decreases |b|
  {
    var fs := Fragments(source, destination, b);
    if |b| > MaxDataLength {
      var tail := Fragments(source, destination, b[MaxDataLength..]);
      FragmentsComplete(source, destination, b[MaxDataLength..]);
      assert fs == [fs[0]] + tail;
      assert fs[1..] == tail;
      assert forall i :: 1 <= i < |fs| ==> fs[i] == tail[i - 1];
      assert b == b[..MaxDataLength] + b[MaxDataLength..];
    } else {
      assert fs[1..] == [];
    }
  }

  /** Fragmentation and reassembly round trip: ReadL2Packet gives back what SendL2 split up. */
  lemma FragmentsReassemble(img: Image, w: Wire, sma: Mac, destination: Mac, b: seq<Byte>, rest: seq<seq<Byte>>)
    requires b != [] && w.inbound == Deliveries(Fragments(sma, destination, b)) + rest
    ensures Reassemble(img, w, sma, []) == Reassembly(Some(b), w.(inbound := rest))
  {
    FragmentsComplete(sma, destination, b);
    ReassembleFrames(img, w, sma, [], Fragments(sma, destination, b), rest);
    assert [] + b == b;
  }

  // Connect, with frames on the link

  /** SetHeader keeps the payload: the echo carries the data of the ping it answers. */
  lemma HeaderKeepsPayload(img: Image, source: Mac, destination: Mac, command: Word)
    requires 0 <= DataLengthOf(img) <= MaxPayload
    ensures var h := WithHeader(img, source, destination, command);
      DataLengthOf(h) == DataLengthOf(img) && PayloadOf(h) == PayloadOf(img)
  {
    var h := WithHeader(img, source, destination, command);
    WithHeaderFields(img, source, destination, command);
    assert PayloadOf(h) == h[BodyLength..][..img[1] - BodyLength];
    assert PayloadOf(img) == img[BodyLength..][..img[1] - BodyLength];
  }

  /** The answer to a login ping with payload `data`: the same payload sent from the all-zero address. */
  lemma EchoFrame(img: Image, sma: Mac, data: seq<Byte>)
    requires 0 <= DataLengthOf(img) <= MaxPayload && PayloadOf(img) == data
    ensures var header := WithHeader(img, ZeroMac, sma, CommandLoginPing);
      var echo := WithCheckSum(WithData(header, PayloadOf(header)));
      && WireBytes(echo) == FrameBytes(Frame(0, ZeroMac, sma, CommandLoginPing, data))
      && echo[1] == |WireBytes(echo)|
  {
    HeaderKeepsPayload(img, ZeroMac, sma, CommandLoginPing);
    SendWritesFrame(img, ZeroMac, sma, CommandLoginPing, data);
  }

  /**
   * The handshake: a login ping from the inverter, then a Login_3 frame with
   * 16 bytes of data from it, give 0 and our address from bytes 8 to 13 of
   * that data; exactly one frame is written, the ping's payload echoed from
   * the all-zero address to the inverter.
   */
  lemma ConnectHandshake(w: Wire, sma: Mac, our: Mac, ping: Frame, login: Frame, rest: seq<seq<Byte>>)
    requires |ping.payload| <= MaxPayload && ping.source == sma && ping.command == CommandLoginPing
    requires |login.payload| == Login3DataSize && login.source == sma && login.command == CommandLogin3
    requires w.inbound == [FrameBytes(ping), FrameBytes(login)] + rest && w.writesLeft > 0
    ensures var r := ConnectSpec(w, sma, our);
      && r.code == 0 && r.ourMac == login.payload[Login3UsAt..Login3UsAt + 6]
      && r.wire == Wire(rest, w.outbox + [FrameBytes(Frame(0, ZeroMac, sma, CommandLoginPing, ping.payload))], w.writesLeft - 1)
  {
    assert w.inbound == [FrameBytes(ping)] + ([FrameBytes(login)] + rest);
    ReadFrameBytes(ZeroImage(), ping, w, [FrameBytes(login)] + rest);
    var p := AwaitPing(ZeroImage(), w, sma, 0);
    assert p == ReadSpec(ZeroImage(), w);
    EchoFrame(p.image, sma, ping.payload);
    var header := WithHeader(p.image, ZeroMac, sma, CommandLoginPing);
    var echo := WithCheckSum(WithData(header, PayloadOf(header)));
    var written := WriteBytes(p.wire, WireBytes(echo));
    ReadFrameBytes(echo, login, written.wire, rest);
  }

  /** A delivery shorter than a header is a failed read that consumes it. */
  lemma ShortDeliveryFails(img: Image, w: Wire, d: seq<Byte>, rest: seq<seq<Byte>>)
    requires |d| < BodyLength && w.inbound == [d] + rest
    ensures ReadSpec(img, w) == ReadResult(false, Put(img, 0, d), w.(inbound := rest))
  {
    ReadWholeDelivery(w, BodyLength, d, rest);
  }

  /** A delivery too short for a header, read before the third attempt, leads to another attempt. */
  lemma AwaitPingSkips(img: Image, w: Wire, sma: Mac, attempt: nat, d: seq<Byte>, rest: seq<seq<Byte>>)
    requires attempt < 2 && |d| < BodyLength && w.inbound == [d] + rest
    ensures AwaitPing(img, w, sma, attempt) == AwaitPing(Put(img, 0, d), w.(inbound := rest), sma, attempt + 1)
  {
    ShortDeliveryFails(img, w, d, rest);
  }

  /** The same at the third attempt ends the ping loop with failure. */
  lemma AwaitPingGivesUp(img: Image, w: Wire, sma: Mac, d: seq<Byte>, rest: seq<seq<Byte>>)
    requires |d| < BodyLength && w.inbound == [d] + rest
    ensures AwaitPing(img, w, sma, 2) == ReadResult(false, Put(img, 0, d), w.(inbound := rest))
  {
    ShortDeliveryFails(img, w, d, rest);
  }

  /**
   * The ping loop makes three reads, not two: three failed reads give 1 and
   * consume three deliveries, and nothing is written.
   */
  lemma ConnectGivesUp(w: Wire, sma: Mac, our: Mac, a: seq<Byte>, b: seq<Byte>, c: seq<Byte>, rest: seq<seq<Byte>>)
    requires |a| < BodyLength && |b| < BodyLength && |c| < BodyLength
    requires w.inbound == [a, b, c] + rest
    ensures ConnectSpec(w, sma, our) == Connected(1, our, w.(inbound := rest))
  {
    QueueOfThree(w.inbound, a, b, c, rest);
    var i1 := Put(ZeroImage(), 0, a);
    AwaitPingSkips(ZeroImage(), w, sma, 0, a, [b, c] + rest);
    AwaitPingSkips(i1, w.(inbound := [b, c] + rest), sma, 1, b, [c] + rest);
    AwaitPingGivesUp(Put(i1, 0, b), w.(inbound := [c] + rest), sma, c, rest);
  }

  /** A ping that arrives after two failed reads is still taken. */
  lemma ConnectThirdAttempt(img: Image, w: Wire, sma: Mac, a: seq<Byte>, b: seq<Byte>, ping: Frame, rest: seq<seq<Byte>>)
    requires |a| < BodyLength && |b| < BodyLength
    requires |ping.payload| <= MaxPayload && ping.source == sma && ping.command == CommandLoginPing
    requires w.inbound == [a, b, FrameBytes(ping)] + rest
    ensures var p := AwaitPing(img, w, sma, 0);
      p.ok && p.wire == w.(inbound := rest) && PayloadOf(p.image) == ping.payload
  {
    var f := FrameBytes(ping);
    var w1, w2 := w.(inbound := [b, f] + rest), w.(inbound := [f] + rest);
    QueueOfThree(w.inbound, a, b, f, rest);
    var i1 := Put(img, 0, a);
    var i2 := Put(i1, 0, b);
    AwaitPingSkips(img, w, sma, 0, a, [b, f] + rest);
    AwaitPingSkips(i1, w1, sma, 1, b, [f] + rest);
    AwaitPingTakes(i2, w2, sma, 2, ping, rest);
    assert AwaitPing(img, w, sma, 0) == AwaitPing(i2, w2, sma, 2);
  }

  lemma QueueOfThree(q: seq<seq<Byte>>, a: seq<Byte>, b: seq<Byte>, c: seq<Byte>, rest: seq<seq<Byte>>)
    requires q == [a, b, c] + rest
    ensures q == [a] + ([b, c] + rest) && [b, c] + rest == [b] + ([c] + rest)
  {
  }

  /** A ping from the inverter delivered whole ends the ping loop, at any attempt. */
  lemma AwaitPingTakes(img: Image, w: Wire, sma: Mac, attempt: nat, ping: Frame, rest: seq<seq<Byte>>)
    requires attempt <= 2
    requires |ping.payload| <= MaxPayload && ping.source == sma && ping.command == CommandLoginPing
    requires w.inbound == [FrameBytes(ping)] + rest
    ensures var p := AwaitPing(img, w, sma, attempt);
      p.ok && p.wire == w.(inbound := rest) && PayloadOf(p.image) == ping.payload
  {
    ReadFrameBytes(img, ping, w, rest);
  }

  // ReadAndCheck

  /** What ReadAndCheck returns (the buffer or None for NULL) and sets: data_length, the L2 header, the link. */
  datatype Checked = Checked(data: Option<seq<Byte>>, length: int, header: Header, wire: Wire)

  /**
   * ReadAndCheck(l2) with packet_index `index`: reassemble an L2 packet and
   * decode it into `h`; a decoding error (a NULL buffer from a failed
   * reassembly included) returns NULL at once, and a packet with another
   * index is dropped and the read repeated.
   */
  function CheckedRead(h: Header, w: Wire, sma: Mac, index: Word): (r: Checked)
    ensures r.wire.outbox == w.outbox && r.wire.writesLeft == w.writesLeft
    ensures r.data.Some? ==> IndexOf(r.header) == index && HasPreamble(r.header)
    ensures r.data.Some? ==> 0 <= r.length <= |r.data.value| && Weight(r.wire.inbound) < Weight(w.inbound)
    ensures r.data.None? ==> r.length == Defs.errInvalidPacket || r.length == Defs.errChecksum
    decreases Weight(w.inbound)
  {
    var a := Reassemble(ZeroImage(), w, sma, []);
    if a.data.None? then Checked(None, Defs.errInvalidPacket, h, a.wire)
    else
      var raw := a.data.value;
      var u := Unpack(raw, h);
      if u.code < 0 then Checked(None, u.code, u.header, a.wire)
      else if IndexOf(u.header) != index then CheckedRead(u.header, a.wire, sma, index)
      else
        UnescapeLength(raw[1..]);
        Checked(Some(u.buffer), u.code, u.header, a.wire)
  }

  /**
   * End to end: an L2 packet encoded by PreparePacket and sent as fragments
   * by the inverter is read back by ReadAndCheck with its header and data,
   * when its index is the one expected (and the FCS it carries is not
   * misread, as Recoverable says).
   */
  lemma CheckedReadEnvelope(h: Header, w: Wire, sma: Mac, destination: Mac, sent: Header, data: seq<Byte>, rest: seq<seq<Byte>>)
    requires Recoverable(sent, data)
    requires w.inbound == Deliveries(Fragments(sma, destination, Envelope(sent, data))) + rest
    ensures var r := CheckedRead(h, w, sma, IndexOf(sent));
      && r.data.Some? && r.length == |data| && r.data.value[..|data|] == data
      && r.header == sent && r.wire == w.(inbound := rest)
  {
    FragmentsReassemble(ZeroImage(), w, sma, destination, Envelope(sent, data), rest);
    EnvelopeRoundTrip(sent, data, h);
  }

  /** A packet with another index is dropped: ReadAndCheck reads on as if it had not come. */
  lemma CheckedReadSkips(h: Header, w: Wire, sma: Mac, destination: Mac, sent: Header, data: seq<Byte>, rest: seq<seq<Byte>>, index: Word)
    requires Recoverable(sent, data) && IndexOf(sent) != index
    requires w.inbound == Deliveries(Fragments(sma, destination, Envelope(sent, data))) + rest
    ensures CheckedRead(h, w, sma, index) == CheckedRead(sent, w.(inbound := rest), sma, index)
  {
    FragmentsReassemble(ZeroImage(), w, sma, destination, Envelope(sent, data), rest);
    EnvelopeRoundTrip(sent, data, h);
  }

  /** A failed reassembly (silence on the link) makes ReadAndCheck return NULL with ERR_SMA_INVALID_PACKET. */
  lemma CheckedReadSilence(h: Header, w: Wire, sma: Mac, index: Word)
    requires w.inbound == []
    ensures CheckedRead(h, w, sma, index) == Checked(None, Defs.errInvalidPacket, h, w)
  {
  }

  /**
   * A decoding error ends ReadAndCheck: when the packet that reassembles
   * fails Unpack, NULL and that error code are returned at once, and nothing
   * after the packet's frames is read, whatever follows on the link.
   */
  lemma CheckedReadStops(h: Header, w: Wire, sma: Mac, index: Word, fs: seq<Frame>, rest: seq<seq<Byte>>)
    requires Fits(fs) && Completes(fs, sma) && w.inbound == Deliveries(fs) + rest
    requires Unpack(Joined(fs, sma), h).code < 0
    ensures var u := Unpack(Joined(fs, sma), h);
      CheckedRead(h, w, sma, index) == Checked(None, u.code, u.header, w.(inbound := rest))
  {
    ReassembleFrames(ZeroImage(), w, sma, [], fs, rest);
    assert [] + Joined(fs, sma) == Joined(fs, sma);
  }

  /**
   * The same for a packet the inverter sent as fragments: a buffer that
   * fails Unpack (a checksum that does not match, say) makes ReadAndCheck
   * return NULL with the error, with the link just past that packet.
   */
  lemma CheckedReadFailsOnce(h: Header, w: Wire, sma: Mac, destination: Mac, index: Word, b: seq<Byte>, rest: seq<seq<Byte>>)
    requires b != [] && w.inbound == Deliveries(Fragments(sma, destination, b)) + rest
    requires Unpack(b, h).code < 0
    ensures CheckedRead(h, w, sma, index) == Checked(None, Unpack(b, h).code, Unpack(b, h).header, w.(inbound := rest))
  {
    FragmentsReassemble(ZeroImage(), w, sma, destination, b, rest);
  }

  // DummyL2Read

  /** DummyL2Read: ReadAndCheck into a fresh L2Packet; true iff it returned a buffer. */
  function DummyRead(w: Wire, sma: Mac, index: Word): (r: Delivered)
    ensures r.wire.outbox == w.outbox && r.wire.writesLeft == w.writesLeft
  {
    var c := CheckedRead(Defs.initialHeader, w, sma, index);
    Delivered(c.data.Some?, c.wire)
  }

  // GetFramedReply

  /**
   * GetFramedReply(l2, frame_size): ReadAndCheck, then NULL unless the reply
   * holds the 8-byte _FrameInfo and exactly one record per announced frame
   * (the intended check `Framed`; see FramedAsWritten for the original).
   */
  function FramedRead(h: Header, w: Wire, sma: Mac, index: Word, frameSize: nat): (r: Checked)
    ensures r.wire.outbox == w.outbox && r.wire.writesLeft == w.writesLeft
    ensures r.data.Some? ==> IndexOf(r.header) == index && 0 <= r.length <= |r.data.value|
    ensures r.data.Some? ==> Framed(r.data.value, r.length, frameSize)
    ensures r.data.Some? ==> Weight(r.wire.inbound) < Weight(w.inbound)
  {
    var c := CheckedRead(h, w, sma, index);
    if c.data.None? || c.length < FrameInfoSize || !Framed(c.data.value, c.length, frameSize) then c.(data := None)
    else c
  }

  /**
   * A well-formed framed reply sent by the inverter under the expected index
   * passes GetFramedReply, which returns a buffer starting with the reply.
   */
  lemma FramedReadEnvelope(h: Header, w: Wire, sma: Mac, destination: Mac, sent: Header, data: seq<Byte>, rest: seq<seq<Byte>>, frameSize: nat)
    requires Recoverable(sent, data) && Framed(data, |data|, frameSize)
    requires w.inbound == Deliveries(Fragments(sma, destination, Envelope(sent, data))) + rest
    ensures var f := FramedRead(h, w, sma, IndexOf(sent), frameSize);
      && f.data.Some? && f.length == |data| && |data| <= |f.data.value| && f.data.value[..|data|] == data
      && f.header == sent && f.wire == w.(inbound := rest)
  {
    CheckedReadEnvelope(h, w, sma, destination, sent, data, rest);
    var c := CheckedRead(h, w, sma, IndexOf(sent));
    FrameCountOfPrefix(data, c.data.value);
    assert Framed(c.data.value, c.length, frameSize);
    assert FramedRead(h, w, sma, IndexOf(sent), frameSize) == c;
  }

  /** The _FrameInfo of a reply is the same in any buffer that starts with the reply. */
  lemma FrameCountOfPrefix(d: seq<Byte>, e: seq<Byte>)
    requires FrameInfoSize <= |d| <= |e| && d == e[..|d|]
    ensures FrameCount(d) == FrameCount(e)
  {
    assert forall k :: 0 <= k < 8 ==> d[k] == e[k];
  }
}
