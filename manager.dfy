/**
 * The ProtocolManager class (ProtocolManager.h, ProtocolManager.cc): the
 * session with one inverter over one link. It holds the packet counter and
 * the two Bluetooth addresses, and drives the L1 and L2 packet classes.
 * Every method is proved equal to the function of the session or query
 * layer that describes it, applied to the state before the call.
 */
module Manager {
  import opened Wrappers
  import opened Bytes
  import opened Transport
  import opened L1
  import opened L2Defs
  import opened L2
  import opened Records
  import opened Session
  import opened Queries

  class ProtocolManager {
    /** packet_index: the counter every request advances before it is sent. */
    var packetIndex: Word
    /** our_mac: our own address, as the inverter reports it during Connect. */
    var ourMac: Mac
    /** sma_mac: the inverter's address. */
    var smaMac: Mac
    /** The RFCOMM socket s. */
    const link: Link

    /** The source leaves our_mac and sma_mac unset until Connect; the model starts them at zero. */
    constructor (link: Link)
      ensures this.link == link && packetIndex == 0 && ourMac == ZeroMac && smaMac == ZeroMac
    {
      this.link := link;
      packetIndex := 0;
      ourMac := ZeroMac;
      smaMac := ZeroMac;
    }

    /** WaitForPacket(command, sender, p): read frames into p until one has the command and the sender. */
    method WaitForPacket(command: Word, sender: Mac, p: L1Packet) returns (status: bool)
      requires p.packet.Length == ImageSize
      modifies p.packet, link
      ensures ReadResult(status, p.packet[..], link.wire) == WaitFor(old(p.packet[..]), old(link.wire), command, sender)
    {
      ghost var img0: Image, w0 := p.packet[..], link.wire;
      ghost var prevImg: Image, prevWire := img0, w0;
      status := p.Read(link);
      while status && !(p.Command() == command && p.CheckSource(sender))
        invariant WaitFor(img0, w0, command, sender) == WaitFor(prevImg, prevWire, command, sender)
        invariant ReadResult(status, p.packet[..], link.wire) == ReadSpec(prevImg, prevWire)
        decreases Weight(prevWire.inbound)
      {
        prevImg, prevWire := p.packet[..], link.wire;
        status := p.Read(link);
      }
    }

    /**
     * The ping loop of Connect: up to three reads into `packet` until one is
     * a login ping from the inverter; false after the third failure.
     */
    method AwaitLoginPing(packet: L1Packet) returns (ok: bool)
      requires packet.packet.Length == ImageSize
      modifies packet.packet, link
      ensures ReadResult(ok, packet.packet[..], link.wire) == AwaitPing(old(packet.packet[..]), old(link.wire), smaMac, 0)
    {
      ghost var img0: Image, w0 := packet.packet[..], link.wire;
      ghost var prevImg: Image, prevWire := img0, w0;
      var attempt := 0;
      ok := packet.Read(link);
      while !(ok && packet.Command() == CommandLoginPing && packet.CheckSource(smaMac))
        invariant attempt <= 2
        invariant AwaitPing(img0, w0, smaMac, 0) == AwaitPing(prevImg, prevWire, smaMac, attempt)
        invariant ReadResult(ok, packet.packet[..], link.wire) == ReadSpec(prevImg, prevWire)
        decreases 2 - attempt
      {
        if attempt == 2 {
          assert AwaitPing(prevImg, prevWire, smaMac, attempt) == ReadResult(false, packet.packet[..], link.wire);
          return false;
        }
        assert AwaitPing(prevImg, prevWire, smaMac, attempt) == AwaitPing(packet.packet[..], link.wire, smaMac, attempt + 1);
        attempt := attempt + 1;
        prevImg, prevWire := packet.packet[..], link.wire;
        ok := packet.Read(link);
      }
      assert AwaitPing(prevImg, prevWire, smaMac, attempt) == ReadResult(ok, packet.packet[..], link.wire);
    }

    /**
     * Connect(mac_address) with str2ba's result `sma` and BTConnect's status:
     * a negative status is returned as is; otherwise the login handshake.
     */
    method Connect(sma: Mac, connectStatus: int) returns (status: int)
      modifies this, link
      ensures smaMac == sma && packetIndex == old(packetIndex)
      ensures connectStatus < 0 ==> status == connectStatus && ourMac == old(ourMac) && link.wire == old(link.wire)
      ensures connectStatus >= 0 ==> Connected(status, ourMac, link.wire) == ConnectSpec(old(link.wire), sma, old(ourMac))
    {
      smaMac := sma;
      if connectStatus < 0 {
        return connectStatus;
      }
      var packet := new L1Packet();
      var ok := AwaitLoginPing(packet);
      if !ok {
        return 1;
      }
      status, ourMac := AnswerPing(packet, ourMac);
    }

    /**
     * Connect after the ping arrived in `packet`: echo it from the zero
     * address to the inverter, wait for Login_3 and take our address from
     * it; `our` is returned unchanged on failure.
     */
    method AnswerPing(packet: L1Packet, our: Mac) returns (status: int, mac: Mac)
      requires packet.packet.Length == ImageSize && 0 <= packet.DataLength() <= MaxPayload
      modifies packet.packet, link
      ensures Connected(status, mac, link.wire) == ConnectReply(old(packet.packet[..]), old(link.wire), smaMac, our)
    {
      ghost var img := packet.packet[..];
      packet.SetHeader(ZeroMac, smaMac, CommandLoginPing);
      ghost var header := WithHeader(img, ZeroMac, smaMac, CommandLoginPing);
      assert packet.packet[..] == header;
      var sent := packet.Send(link, packet.Data());
      ghost var echo := WithCheckSum(WithData(header, PayloadOf(header)));
      assert packet.packet[..] == echo;
      ghost var written := WriteBytes(old(link.wire), WireBytes(echo));
      assert link.wire == written.wire && sent == (written.count == echo[1]);
      if !sent {
        return 2, our;
      }
      var got := WaitForPacket(CommandLogin3, smaMac, packet);
      ghost var l := WaitFor(echo, written.wire, CommandLogin3, smaMac);
      assert l == ReadResult(got, packet.packet[..], link.wire);
      if !got || packet.DataLength() != Login3DataSize {
        return 3, our;
      }
      status, mac := 0, Login3Us(packet.Image());
    }
  
    /**
     * ReadL2Packet(length): read frames, skip those that are not L2 packet
     * parts from the inverter, append the payloads of the others, and stop
     * after the final part; NULL and length 0 when a read fails. The buffer
     * returned is a new one.
     */
    method ReadL2Packet() returns (data: array?<Byte>, length: int)
      modifies link
      ensures var a := Reassemble(ZeroImage(), old(link.wire), smaMac, []);
        && link.wire == a.wire
        && (data == null <==> a.data.None?)
        && (data == null ==> length == 0)
        && (data != null ==> fresh(data) && data[..] == a.data.value && length == data.Length)
    {
      var packet := new L1Packet();
      ghost var w0 := link.wire;
      var acc: seq<Byte> := [];
      while true
        invariant Reassemble(ZeroImage(), w0, smaMac, []) == Reassemble(packet.packet[..], link.wire, smaMac, acc)
        decreases Weight(link.wire.inbound)
      {
        var status := ReadPart(packet, acc);
        if !status {
          return null, 0;
        }
        acc := acc + packet.Data();
        if packet.Command() == CommandL2Packet {
          assert Reassemble(ZeroImage(), w0, smaMac, []) == Reassembly(Some(acc), link.wire);
          break;
        }
      }
      data := NewBuffer(acc);
      length := |acc|;
    }

    /** The buffer ReadL2Packet returns: a new array holding the collected bytes. */
    static method NewBuffer(bytes: seq<Byte>) returns (data: array<Byte>)
      ensures fresh(data) && data[..] == bytes
    {
      data := new Byte[|bytes|](i requires 0 <= i < |bytes| => bytes[i]);
    }

    /**
     * The inner loop of ReadL2Packet: read frames until one is a part from
     * the inverter, or a read fails. `acc` is what the caller has collected.
     */
    method ReadPart(packet: L1Packet, ghost acc: seq<Byte>) returns (status: bool)
      requires packet.packet.Length == ImageSize
      modifies packet.packet, link
      ensures var a := Reassemble(old(packet.packet[..]), old(link.wire), smaMac, acc);
        && (!status ==> a == Reassembly(None, link.wire))
        && (status ==> IsPart(packet.packet[..], smaMac) && 0 <= DataLengthOf(packet.packet[..]) <= MaxPayload)
        && (status ==> Weight(link.wire.inbound) < Weight(old(link.wire).inbound))
        && (status && CommandOf(packet.packet[..]) == CommandL2Packet ==> a == Reassembly(Some(acc + PayloadOf(packet.packet[..])), link.wire))
        && (status && CommandOf(packet.packet[..]) != CommandL2Packet ==> a == Reassemble(packet.packet[..], link.wire, smaMac, acc + PayloadOf(packet.packet[..])))
    {
      ghost var top := link.wire;
      ghost var prevImg: Image, prevWire := packet.packet[..], link.wire;
      status := packet.Read(link);
      while status && !(packet.CheckSource(smaMac) && (packet.Command() == CommandL2Packet || packet.Command() == CommandL2PacketPart))
        invariant Reassemble(old(packet.packet[..]), top, smaMac, acc) == Reassemble(prevImg, prevWire, smaMac, acc)
        invariant ReadResult(status, packet.packet[..], link.wire) == ReadSpec(prevImg, prevWire)
        invariant Weight(prevWire.inbound) <= Weight(top.inbound)
        decreases Weight(prevWire.inbound)
      {
        prevImg, prevWire := packet.packet[..], link.wire;
        status := packet.Read(link);
      }
    }

    /**
     * ReadAndCheck(l2): reassemble an L2 packet and decode it into l2; NULL
     * with the error code on a failed read or decode, and a packet whose
     * index is not packet_index is dropped and the read repeated.
     */
    method ReadAndCheck(l2: L2Packet) returns (data: array?<Byte>, length: int)
      requires l2.header.Length == Defs.headerSize
      modifies l2.header, link
      ensures var c := CheckedRead(old(l2.header[..]), old(link.wire), smaMac, packetIndex);
        && (data == null <==> c.data.None?)
        && (data != null ==> fresh(data) && data[..] == c.data.value)
        && length == c.length && l2.header[..] == c.header && link.wire == c.wire
    {
      ghost var h0, w0 := l2.header[..], link.wire;
      while true
        invariant CheckedRead(h0, w0, smaMac, packetIndex) == CheckedRead(l2.header[..], link.wire, smaMac, packetIndex)
        decreases Weight(link.wire.inbound)
      {
        ghost var hb, wb := l2.header[..], link.wire;
        data, length := ReadDecoded(l2);
        ghost var a := Reassemble(ZeroImage(), wb, smaMac, []);
        if length < 0 {
          assert CheckedRead(hb, wb, smaMac, packetIndex).data.None?;
          return null, length;
        }
        if l2.PacketIndex() == packetIndex {
          return;
        }
        assert CheckedRead(hb, wb, smaMac, packetIndex) == CheckedRead(l2.header[..], link.wire, smaMac, packetIndex);
      }
    }

    /** One pass of the loop in ReadAndCheck: ReadL2Packet, then L2Packet::ReadPacket on its buffer. */
    method ReadDecoded(l2: L2Packet) returns (data: array?<Byte>, length: int)
      requires l2.header.Length == Defs.headerSize
      modifies l2.header, link
      ensures var a := Reassemble(ZeroImage(), old(link.wire), smaMac, []);
        && link.wire == a.wire
        && (a.data.None? ==> data == null && length == Defs.errInvalidPacket && l2.header[..] == old(l2.header[..]))
        && (a.data.Some? ==> data != null && fresh(data) && Unpack(a.data.value, old(l2.header[..])) == Unpacked(length, l2.header[..], data[..]))
    {
      data, length := ReadL2Packet();
      if data == null {
        length := l2.ReadPacket(data, 0);
        return;
      }
      ghost var raw := data[..];
      ghost var h := l2.header[..];
      assert data[..length] == raw;
      length := l2.ReadPacket(data, length);
      assert Unpack(raw, h) == Unpacked(length, l2.header[..], data[..data.Length]);
      assert data[..data.Length] == data[..];
    }

    /** DummyL2Read(): ReadAndCheck into a fresh L2 packet, keeping only whether it succeeded. */
    method DummyL2Read() returns (ok: bool)
      modifies link
      ensures Delivered(ok, link.wire) == DummyRead(old(link.wire), smaMac, packetIndex)
    {
      var l2 := new L2Packet();
      var data, length := ReadAndCheck(l2);
      ok := data != null;
    }

    /**
     * GetFramedReply(l2, frame_size): ReadAndCheck, then NULL unless the
     * reply holds a _FrameInfo and one record of frame_size bytes per frame.
     */
    method GetFramedReply(l2: L2Packet, frameSize: nat) returns (data: array?<Byte>, length: int)
      requires l2.header.Length == Defs.headerSize
      modifies l2.header, link
      ensures var f := FramedRead(old(l2.header[..]), old(link.wire), smaMac, packetIndex, frameSize);
        && (data == null <==> f.data.None?)
        && (data != null ==> fresh(data) && data[..] == f.data.value)
        && length == f.length && l2.header[..] == f.header && link.wire == f.wire
    {
      data, length := ReadAndCheck(l2);
      if data == null {
        return;
      }
      if length < FrameInfoSize {
        return null, length;
      }
      if length != FrameInfoSize + FrameCount(data[..]) * frameSize {
        return null, length;
      }
    }
  
    /**
     * SendL2(l2, data): PreparePacket, then the encoded packet in chunks of
     * L1_MaxDataLength bytes, one L1 frame each, the last marked as the end
     * of the L2 packet; false at the first frame not written in full.
     */
    method SendL2(l2: L2Packet, data: seq<Byte>) returns (ok: bool)
      requires l2.header.Length == Defs.headerSize
      modifies l2.header, link
      ensures Sent(ok, l2.header[..], link.wire) == SendL2Spec(old(l2.header[..]), data, old(link.wire), ourMac, smaMac)
    {
      var l1 := new L1Packet();
      var p := l2.PreparePacket(data);
      ghost var w0 := link.wire;
      var off := 0;
      while off < |p|
        invariant 0 <= off <= |p| && l1.packet.Length == ImageSize && fresh(l1.packet)
        invariant l2.header[..] == old(l2.header[..])[Defs.lengthAt := LengthField(|data|)]
        invariant WriteFrames(w0, Fragments(ourMac, smaMac, p)) == WriteFrames(link.wire, Fragments(ourMac, smaMac, p[off..]))
        decreases |p| - off
      {
        var n := if |p| - off > MaxDataLength then MaxDataLength else |p| - off;
        var sent := SendFragment(l1, p, off, n);
        if !sent {
          return false;
        }
        off := off + n;
      }
      ok := true;
    }

    /**
     * One pass of the loop in SendL2: the first n bytes of what is left of
     * the encoded packet, as one frame from us to the inverter.
     */
    method SendFragment(l1: L1Packet, p: seq<Byte>, off: nat, n: nat) returns (sent: bool)
      requires off < |p| && n == (if |p| - off > MaxDataLength then MaxDataLength else |p| - off)
      requires l1.packet.Length == ImageSize
      modifies l1.packet, link
      ensures var fs := Fragments(ourMac, smaMac, p[off..]);
        && (sent ==> WriteFrames(old(link.wire), fs) == WriteFrames(link.wire, Fragments(ourMac, smaMac, p[off + n..])))
        && (!sent ==> WriteFrames(old(link.wire), fs) == Delivered(false, link.wire))
    {
      var command := if |p| - off - n == 0 then CommandL2Packet else CommandL2PacketPart;
      ghost var before := l1.packet[..];
      ghost var b := p[off..];
      FragmentsStep(ourMac, smaMac, b, n);
      assert b[..n] == p[off..off + n] && b[n..] == p[off + n..];
      l1.SetHeader(ourMac, smaMac, command);
      sent := l1.Send(link, p[off..off + n]);
      SendWritesFrame(before, ourMac, smaMac, command, p[off..off + n]);
    }

    /**
     * The data_logon buffer of Logon: a copy of L2_data_logon, then the
     * password bytes, each plus 0x88, from offset 16, up to twelve of them
     * and up to the first zero byte.
     */
    method EncodePassword(password: seq<Byte>) returns (d: array<Byte>)
      ensures d[..] == LogonPayload(password)
    {
      var template := Defs.logonData;
      d := new Byte[|template|](k requires 0 <= k < |template| => template[k]);
      var i := 0;
      while i < 12 && i < |password| && password[i] != 0
        invariant 0 <= i <= 12 && i <= |password| && d.Length == |template|
        invariant PasswordScan(password, i) == PasswordLength(password)
        invariant forall k :: 0 <= k < d.Length ==> d[k] == if 16 <= k < 16 + i then EncodeByte(password[k - 16]) else template[k]
      {
        var c: int := password[i];
        d[i + 16] := (c + 0x88) % 0x100;
        i := i + 1;
      }
      assert d[..] == LogonPayload(password);
    }

    /**
     * Logon(password): login_1 (its reply read and ignored), login_2 (no
     * reply), then the logon request with the encoded password, whose reply
     * must arrive; packet_index is advanced before each request, and a
     * failed send returns false at once.
     */
    method Logon(password: seq<Byte>) returns (ok: bool)
      modifies this, link
      ensures ourMac == old(ourMac) && smaMac == old(smaMac)
      ensures LoggedOn(ok, packetIndex, link.wire) == LogonSpec(old(link.wire), old(packetIndex), ourMac, smaMac, password)
    {
      ghost var index, w0 := packetIndex, link.wire;
      var l2 := new L2Packet();
      packetIndex := NextIndex(packetIndex);
      l2.SetFields(0xA0, 0, 0, packetIndex, Defs.login1Command);
      assert l2.header[..] == Step1Header(index);
      var sent := SendL2(l2, Defs.login1Data);
      if !sent {
        return false;
      }
      var ignored := DummyL2Read();
      ok := FinishLogon(l2, password, index);
    }

    /** Logon after the login_1 reply was read or not: the login_2 and logon requests. */
    method FinishLogon(l2: L2Packet, password: seq<Byte>, ghost index: Word) returns (ok: bool)
      requires l2.header.Length == Defs.headerSize && packetIndex == NextIndex(index)
      modifies this, l2.header, link
      ensures ourMac == old(ourMac) && smaMac == old(smaMac)
      ensures LoggedOn(ok, packetIndex, link.wire) == LogonFinish(old(link.wire), old(l2.header[..]), index, ourMac, smaMac, password)
    {
      packetIndex := NextIndex(packetIndex);
      l2.SetFields(0xA0, 0x03, 0x03, packetIndex, Defs.login2Command);
      var sent := SendL2(l2, Defs.login2Data);
      if !sent {
        return false;
      }
      ok := LogonRequestStep(l2, password, index);
    }

    /** The last step of Logon: the logon request with the encoded password, and its reply. */
    method LogonRequestStep(l2: L2Packet, password: seq<Byte>, ghost index: Word) returns (ok: bool)
      requires l2.header.Length == Defs.headerSize && packetIndex == NextIndex(NextIndex(index))
      modifies this, l2.header, link
      ensures ourMac == old(ourMac) && smaMac == old(smaMac)
      ensures LoggedOn(ok, packetIndex, link.wire) == LogonRequest(old(link.wire), old(l2.header[..]), index, ourMac, smaMac, password)
    {
      ghost var w0, our, sma := link.wire, ourMac, smaMac;
      ghost var s3 := SendL2Spec(Step3Header(l2.header[..], index), LogonPayload(password), w0, our, sma);
      var dataLogon := EncodePassword(password);
      var payload := dataLogon[..];
      packetIndex := NextIndex(packetIndex);
      l2.SetFields(0xA0, 0x01, 0x01, packetIndex, Defs.logonCommand);
      assert l2.header[..] == Step3Header(old(l2.header[..]), index);
      var sent := SendL2(l2, payload);
      assert Sent(sent, l2.header[..], link.wire) == s3;
      if !sent {
        return false;
      }
      ok := DummyL2Read();
      assert packetIndex == ThirdIndex(index);
    }
  
    /**
     * GetYieldInfo(yi): yi zeroed, packet_index advanced, the daily-yield
     * request sent (-1 when that fails), the framed reply of 16-byte records
     * read (-3 when there is none), and each record through the tag switch.
     */
    method GetYieldInfo() returns (code: int, yi: YieldInfo)
      modifies this, link
      ensures packetIndex == NextIndex(old(packetIndex)) && ourMac == old(ourMac) && smaMac == old(smaMac)
      ensures YieldReply(code, yi, link.wire) == YieldQuery(old(link.wire), packetIndex, ourMac, smaMac)
    {
      yi := NoYield;
      var l2 := new L2Packet();
      packetIndex := NextIndex(packetIndex);
      l2.SetFields(0xA0, 0x00, 0x00, packetIndex, Defs.dailyYieldCommand);
      var sent := SendL2(l2, Defs.dailyYieldData);
      if !sent {
        return ErrSendingCommand, yi;
      }
      var data, length := GetFramedReply(l2, ValueInfoSize);
      if data == null {
        return ErrInterpretingReply, yi;
      }
      yi := ApplyValues(data, FrameCount(data[..]));
      code := 0;
    }

    /** The switch of GetYieldInfo over the first n _ValueInfo records of a reply. */
    method ApplyValues(data: array<Byte>, n: nat) returns (yi: YieldInfo)
      requires RecordAt(n, ValueInfoSize) <= data.Length
      ensures yi == Yields(data[..], n)
    {
      yi := NoYield;
      var i := 0;
      while i < n
        invariant 0 <= i <= n && yi == Yields(data[..], i)
      {
        var at := RecordAt(i, ValueInfoSize);
        MulMonotone(i + 1, n, ValueInfoSize);
        var tag := FromLe16(data[at + 1], data[at + 2]);
        if tag == TagTotal {
          yi := yi.(total := U32(data[..], at + 8));
        } else if tag == TagToday {
          yi := yi.(timeStamp := I32(data[..], at + 4), today := U32(data[..], at + 8));
        } else if tag == TagOperatingTime {
          yi := yi.(operatingTime := U32(data[..], at + 8));
        } else if tag == TagFeedInTime {
          yi := yi.(feedInTime := U32(data[..], at + 8));
        }
        i := i + 1;
      }
    }

    /**
     * GetHistoricYield(from, to, hi, daily): hi cleared, packet_index
     * advanced, the request for the interval sent (-1 when that fails), then
     * framed replies of 12-byte records read and appended to hi.Records.
     */
    method GetHistoricYield(from: nat, to: nat, daily: bool) returns (code: int, records: seq<HistoricItem>)
      requires from < TwoTo32 && to < TwoTo32
      modifies this, link
      ensures packetIndex == NextIndex(old(packetIndex)) && ourMac == old(ourMac) && smaMac == old(smaMac)
      ensures var r := HistoricQuery(old(link.wire), packetIndex, ourMac, smaMac, from, to, daily);
        code == r.code && records == r.records && link.wire == r.wire
    {
      var l2 := new L2Packet();
      packetIndex := NextIndex(packetIndex);
      var command := if daily then Defs.historicDailyCommand else Defs.historic5Command;
      l2.SetFields(0xA0, 0x00, 0x00, packetIndex, command);
      var sent := SendL2(l2, HistoricRequest(from, to));
      if !sent {
        return ErrSendingCommand, [];
      }
      code, records := ReadHistoricPages(l2);
    }

    /**
     * The loop of GetHistoricYield: read a framed reply (-3 when there is
     * none, keeping the records held), append its records, and go on while
     * the telegram number is not 0 and fewer than PM_MAX_RECORDS are held.
     */
    method ReadHistoricPages(l2: L2Packet) returns (code: int, records: seq<HistoricItem>)
      requires l2.header.Length == Defs.headerSize
      modifies l2.header, link
      ensures var r := HistoricPages(old(l2.header[..]), old(link.wire), smaMac, packetIndex, [], []);
        code == r.code && records == r.records && link.wire == r.wire
    {
      records := [];
      ghost var pages: seq<nat> := [];
      ghost var h0, w0 := l2.header[..], link.wire;
      while true
        invariant HistoricPages(h0, w0, smaMac, packetIndex, [], []) == HistoricPages(l2.header[..], link.wire, smaMac, packetIndex, records, pages)
        decreases Weight(link.wire.inbound)
      {
        ghost var hb, wb := l2.header[..], link.wire;
        var data, length := GetFramedReply(l2, HistoricInfoSize);
        ghost var f := FramedRead(hb, wb, smaMac, packetIndex, HistoricInfoSize);
        assert HistoricPages(hb, wb, smaMac, packetIndex, records, pages) == HistoricNext(f, Weight(wb.inbound), smaMac, packetIndex, records, pages);
        if data == null {
          return ErrInterpretingReply, records;
        }
        var n := FrameCount(data[..]);
        records := AppendPage(records, data, n);
        pages := pages + [n];
        if l2.TelegramNumber() == 0 || |records| >= MaxRecords {
          return 0, records;
        }
      }
    }

    /** The copy loop of GetHistoricYield: the first n _HistoricYieldInfo records of a reply appended to `held`. */
    method AppendPage(held: seq<HistoricItem>, data: array<Byte>, n: nat) returns (records: seq<HistoricItem>)
      requires RecordAt(n, HistoricInfoSize) <= data.Length
      ensures records == held + Page(data[..], n)
    {
      records := held;
      var i := 0;
      while i < n
        invariant 0 <= i <= n && records == held + Page(data[..], i)
      {
        MulMonotone(i + 1, n, HistoricInfoSize);
        var at := RecordAt(i, HistoricInfoSize);
        records := records + [HistoricItem(I32(data[..], at), U32(data[..], at + 4))];
        i := i + 1;
      }
    }
  }
}
