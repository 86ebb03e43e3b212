/**
 * The link layer (L1): fixed-header frames carried over the RFCOMM stream.
 *
 * An L1Packet object holds the packed struct L1Packet_t as one buffer of
 * 18 + 256 bytes: identity, length, unknown, check, source (6 bytes),
 * destination (6 bytes), command (2 bytes, little-endian) and a 256-byte
 * data area. read() and write() act on that buffer as raw bytes, so the
 * model does too; the accessors below decode it.
 */
module L1 {

  import opened Bytes
  import opened Transport

  // Command values
  const CommandL2Packet: Word := 0x0001
  const CommandLoginPing: Word := 0x0002
  const CommandRequestForInfo: Word := 0x0003
  const CommandResponseToRequest: Word := 0x0004
  const CommandLogin3: Word := 0x0005
  const CommandError: Word := 0x0007
  const CommandL2PacketPart: Word := 0x0008
  const CommandLogin1: Word := 0x000a
  const CommandLogin2: Word := 0x000c

  /** Size of the fixed header (L1_BodyLength). */
  const BodyLength: nat := 18
  /** Largest payload the session layer puts in one frame (L1_MaxDataLength). */
  const MaxDataLength: nat := 73
  /** Largest payload the one-byte length field can describe. */
  const MaxPayload: nat := 255 - BodyLength
  /** Size of the data area of L1Packet_t. */
  const DataCapacity: nat := 256
  const ImageSize: nat := BodyLength + DataCapacity
  /** Identity byte at the start of every frame (L1_Identity). */
  const Identity: Byte := 0x7e
  /** sizeof(L1Login3Data_t): sma (6), two fill bytes, us (6), two fill bytes. */
  const Login3DataSize: nat := 16
  const Login3UsAt: nat := 8

  /** The bytes of one L1Packet_t struct. */
  type Image = s: seq<Byte> | |s| == ImageSize witness seq(ImageSize, _ => 0)

  /** The struct of a new L1Packet; the source leaves it uninitialised, the model zeroes it. */
  function ZeroImage(): Image
  {
    seq(ImageSize, _ => 0)
  }

  // Field accessors of the packed struct (L1.h)

  function LengthOf(img: Image): Byte { img[1] }
  function UnknownOf(img: Image): Byte { img[2] }
  function CheckOf(img: Image): Byte { img[3] }
  function SourceOf(img: Image): Mac { img[4..10] }
  function DestinationOf(img: Image): Mac { img[10..16] }

  /** Command(): btohs(packet.command). */
  function CommandOf(img: Image): Word { FromLe16(img[16], img[17]) }

  /** CheckSum(): identity ^ length ^ unknown. */
  function CheckSumOf(img: Image): Byte { Xor(Xor(img[0], img[1]), img[2]) }

  /** CheckCheckSum(). */
  predicate CheckCheckSumOf(img: Image) { CheckSumOf(img) == img[3] }

  /** DataLength(): length - L1_BodyLength, an int that is negative when length < 18. */
  function DataLengthOf(img: Image): int { img[1] - BodyLength }

  /** The first DataLength() bytes of the data area, the part a frame carries. */
  function PayloadOf(img: Image): (p: seq<Byte>)
    requires DataLengthOf(img) >= 0
    ensures |p| == DataLengthOf(img)
  {
    img[BodyLength..img[1]]
  }

  /** CheckSource(mac): memcmp of the source field with mac. */
  function CheckSourceOf(img: Image, mac: Mac): (r: bool)
    ensures r <==> forall i :: 0 <= i < 6 ==> img[4 + i] == mac[i]
  {
    assert forall i :: 0 <= i < 6 ==> SourceOf(img)[i] == img[4 + i];
    SourceOf(img) == mac
  }

  /** CheckDestination(mac): memcmp of the destination field with mac. */
  function CheckDestinationOf(img: Image, mac: Mac): (r: bool)
    ensures r <==> forall i :: 0 <= i < 6 ==> img[10 + i] == mac[i]
  {
    assert forall i :: 0 <= i < 6 ==> DestinationOf(img)[i] == img[10 + i];
    DestinationOf(img) == mac
  }

  /** The struct after SetHeader(source, destination, command); length and check are untouched. */
  function WithHeader(img: Image, source: Mac, destination: Mac, command: Word): Image
  {
    var cmd := Le16(command);
    seq(ImageSize, (k: nat) requires 0 <= k < ImageSize =>
      if k == 0 then Identity
      else if k == 2 then 0
      else if 4 <= k < 10 then source[k - 4]
      else if 10 <= k < 16 then destination[k - 10]
      else if 16 <= k < BodyLength then cmd[k - 16]
      else img[k])
  }

  /** packet.length = L1_BodyLength + n, stored in a uint8_t. */
  function LengthByte(n: nat): Byte
  {
    (BodyLength + n) % 0x100
  }

  lemma LengthByteValue(n: nat)
    requires n <= MaxPayload
    ensures LengthByte(n) == BodyLength + n
  {
  }

  /** The struct after SetData(data, n): memcpy into the data area, then the length byte. */
  function WithData(img: Image, data: seq<Byte>): Image
    requires |data| <= DataCapacity
  {
    seq(ImageSize, (k: nat) requires 0 <= k < ImageSize =>
      if k == 1 then LengthByte(|data|)
      else if BodyLength <= k < BodyLength + |data| then data[k - BodyLength]
      else img[k])
  }

  /** The struct after SetCheckSum(). */
  function WithCheckSum(img: Image): Image
  {
    img[3 := CheckSumOf(img)]
  }

  /** The bytes write(s, &packet, packet.length) puts on the wire. */
  function WireBytes(img: Image): seq<Byte>
  {
    img[..img[1]]
  }

  /**
   * A frame as it travels on the link. The length byte and the check byte
   * are derived from the other fields.
   */
  datatype Frame = Frame(unknown: Byte, source: Mac, destination: Mac, command: Word, payload: seq<Byte>)

  function FrameBytes(f: Frame): (r: seq<Byte>)
    requires |f.payload| <= MaxPayload
    ensures |r| == BodyLength + |f.payload|
  {
    var len, cmd := LengthByte(|f.payload|), Le16(f.command);
    seq(BodyLength + |f.payload|, (k: nat) requires 0 <= k < BodyLength + |f.payload| =>
      if k == 0 then Identity
      else if k == 1 then len
      else if k == 2 then f.unknown
      else if k == 3 then Xor(Xor(Identity, len), f.unknown)
      else if 4 <= k < 10 then f.source[k - 4]
      else if 10 <= k < 16 then f.destination[k - 10]
      else if 16 <= k < BodyLength then cmd[k - 16]
      else f.payload[k - BodyLength])
  }

  /** What L1Packet::Read does to the struct and the link, and whether it returns true. */
  datatype ReadResult = ReadResult(ok: bool, image: Image, wire: Wire)

  /**
   * Header check of L1Packet::Read as written: 18 bytes arrived and the
   * check byte matches. Nothing rejects a length byte below 18.
   */
  predicate HeaderAcceptedAsWritten(got: seq<Byte>, img: Image)
    requires |got| <= ImageSize
  {
    |got| == BodyLength && CheckCheckSumOf(Put(img, 0, got))
  }

  /**
   * The first stage of L1Packet::Read: one read of 18 bytes into the start
   * of the struct; true when all 18 arrived, the check byte matches and the
   * length byte is at least 18 (see HeaderAcceptedAsWritten for the
   * unchecked original).
   */
  function ReadHeaderSpec(img: Image, w: Wire): (r: ReadResult)
  {
    var g := ReadBytes(w, BodyLength);
    var head := Put(img, 0, g.bytes);
    ReadResult(HeaderAcceptedAsWritten(g.bytes, img) && head[1] >= BodyLength, head, g.wire)
  }

  /**
   * L1Packet::Read(s) on the struct `img` and the link `w`: the header
   * stage, then, when length > 18, a second read that asks for exactly
   * length - 18 payload bytes and fails when fewer arrive.
   */
  function ReadSpec(img: Image, w: Wire): (r: ReadResult)
    ensures r.wire.outbox == w.outbox && r.wire.writesLeft == w.writesLeft
    ensures Weight(r.wire.inbound) <= Weight(w.inbound)
    ensures r.ok ==> Weight(r.wire.inbound) < Weight(w.inbound)
    ensures r.ok ==> 0 <= DataLengthOf(r.image) <= MaxPayload
  {
    var h := ReadHeaderSpec(img, w);
    if !h.ok || h.image[1] == BodyLength then h
    else
      var n := h.image[1] - BodyLength;
      var g := ReadBytes(h.wire, n);
      ReadResult(|g.bytes| == n, Put(h.image, BodyLength, g.bytes), g.wire)
  }

  // Properties of the frame codec

  /** The check byte depends on identity, length and unknown only. */
  lemma CheckSumCoversHeaderOnly(a: Image, b: Image)
    requires a[0] == b[0] && a[1] == b[1] && a[2] == b[2]
    ensures CheckSumOf(a) == CheckSumOf(b)
  {
  }

  /** After SetCheckSum, CheckCheckSum holds. */
  lemma SetCheckSumValidates(img: Image)
    ensures CheckCheckSumOf(WithCheckSum(img))
    ensures WithCheckSum(img)[..3] == img[..3] && WithCheckSum(img)[4..] == img[4..]
  {
  }

  /**
   * Changing any one of identity, length, unknown or check alone (in
   * particular flipping one of its bits) makes a valid check byte invalid.
   */
  lemma SingleByteChangeDetected(img: Image, pos: nat, v: Byte)
    requires CheckCheckSumOf(img) && pos < 4 && v != img[pos]
    ensures !CheckCheckSumOf(img[pos := v])
  {
    var a, b, c := img[0], img[1], img[2];
    if pos == 0 {
      XorLeftChanges(a, v, b);
      XorLeftChanges(Xor(a, b), Xor(v, b), c);
    } else if pos == 1 {
      XorRightChanges(a, b, v);
      XorLeftChanges(Xor(a, b), Xor(a, v), c);
    } else if pos == 2 {
      XorRightChanges(Xor(a, b), c, v);
    }
  }

  /** SetHeader sets identity, unknown, source, destination and command, and nothing else. */
  lemma WithHeaderFields(img: Image, source: Mac, destination: Mac, command: Word)
    ensures var h := WithHeader(img, source, destination, command);
      && h[0] == Identity && UnknownOf(h) == 0
      && SourceOf(h) == source && DestinationOf(h) == destination && CommandOf(h) == command
      && LengthOf(h) == LengthOf(img) && CheckOf(h) == CheckOf(img) && h[BodyLength..] == img[BodyLength..]
  {
    var h := WithHeader(img, source, destination, command);
    Le16RoundTrip(command);
    WithHeaderAddresses(img, source, destination, command);
    WithHeaderKeepsBody(img, source, destination, command);
  }

  lemma WithHeaderAddresses(img: Image, source: Mac, destination: Mac, command: Word)
    ensures SourceOf(WithHeader(img, source, destination, command)) == source
    ensures DestinationOf(WithHeader(img, source, destination, command)) == destination
  {
    var h := WithHeader(img, source, destination, command);
    forall i | 0 <= i < 6
      ensures SourceOf(h)[i] == source[i] && DestinationOf(h)[i] == destination[i]
    {
      assert h[4 + i] == source[i];
      assert h[10 + i] == destination[i];
    }
  }

  lemma WithHeaderKeepsBody(img: Image, source: Mac, destination: Mac, command: Word)
    ensures WithHeader(img, source, destination, command)[BodyLength..] == img[BodyLength..]
  {
    var h := WithHeader(img, source, destination, command);
    forall j | 0 <= j < ImageSize - BodyLength
      ensures h[BodyLength..][j] == img[BodyLength..][j]
    {
      assert h[BodyLength + j] == img[BodyLength + j];
    }
  }

  /**
   * SetData with at most 237 bytes: the length byte is 18 + n, DataLength()
   * is n, the payload is the data, and the rest of the struct is unchanged.
   */
  lemma WithDataFields(img: Image, data: seq<Byte>)
    requires |data| <= MaxPayload
    ensures var d := WithData(img, data);
      && LengthOf(d) == BodyLength + |data| && DataLengthOf(d) == |data| && PayloadOf(d) == data
      && d[0] == img[0] && d[2..BodyLength] == img[2..BodyLength]
      && d[BodyLength + |data|..] == img[BodyLength + |data|..]
  {
    var d := WithData(img, data);
    LengthByteValue(|data|);
    assert PayloadOf(d) == data by {
      forall i | 0 <= i < |data| ensures PayloadOf(d)[i] == data[i] { }
    }
    assert d[2..BodyLength] == img[2..BodyLength] by {
      forall k | 2 <= k < BodyLength ensures d[k] == img[k] { }
    }
    assert d[BodyLength + |data|..] == img[BodyLength + |data|..] by {
      forall k | BodyLength + |data| <= k < ImageSize ensures d[k] == img[k] { }
    }
  }

  /** A payload of at most L1_MaxDataLength bytes gives a frame of at most 91 bytes. */
  lemma MaxDataLengthFits(img: Image, data: seq<Byte>)
    requires |data| <= MaxDataLength
    ensures LengthOf(WithData(img, data)) == BodyLength + |data| <= 91
  {
    LengthByteValue(|data|);
  }

  /** The struct Send writes: header set by SetHeader, data and length by SetData, then the check byte. */
  function SendImage(img: Image, source: Mac, destination: Mac, command: Word, data: seq<Byte>): Image
    requires |data| <= DataCapacity
  {
    WithCheckSum(WithData(WithHeader(img, source, destination, command), data))
  }

  /** The bytes of a frame, position by position. */
  lemma FrameBytesAt(f: Frame, k: nat)
    requires |f.payload| <= MaxPayload && k < BodyLength + |f.payload|
    ensures var fb := FrameBytes(f);
      && (k == 0 ==> fb[k] == Identity)
      && (k == 1 ==> fb[k] == LengthByte(|f.payload|))
      && (k == 2 ==> fb[k] == f.unknown)
      && (k == 3 ==> fb[k] == Xor(Xor(fb[0], fb[1]), fb[2]))
      && (4 <= k < 10 ==> fb[k] == f.source[k - 4])
      && (10 <= k < 16 ==> fb[k] == f.destination[k - 10])
      && (16 <= k < BodyLength ==> fb[k] == Le16(f.command)[k - 16])
      && (BodyLength <= k ==> fb[k] == f.payload[k - BodyLength])
  {
  }

  /** Position k of the struct Send writes is position k of the frame it stands for. */
  lemma SendImageAt(img: Image, source: Mac, destination: Mac, command: Word, data: seq<Byte>, k: nat)
    requires |data| <= MaxPayload && k < BodyLength + |data|
    ensures SendImage(img, source, destination, command, data)[k]
         == FrameBytes(Frame(0, source, destination, command, data))[k]
  {
    FrameBytesAt(Frame(0, source, destination, command, data), k);
  }

  /** Send writes exactly one frame of 18 + n bytes with a valid check byte and unknown = 0. */
  lemma SendWritesFrame(img: Image, source: Mac, destination: Mac, command: Word, data: seq<Byte>)
    requires |data| <= MaxPayload
    ensures var s := SendImage(img, source, destination, command, data);
      && CheckCheckSumOf(s) && LengthOf(s) == BodyLength + |data|
      && WireBytes(s) == FrameBytes(Frame(0, source, destination, command, data))
  {
    var s := SendImage(img, source, destination, command, data);
    var fb := FrameBytes(Frame(0, source, destination, command, data));
    LengthByteValue(|data|);
    assert LengthOf(s) == LengthByte(|data|);
    forall k | 0 <= k < |fb| ensures s[k] == fb[k] {
      SendImageAt(img, source, destination, command, data, k);
    }
    assert WireBytes(s) == s[..|fb|];
  }

  /**
   * Read is all or nothing: when it returns true the check byte is valid,
   * the payload length fits the length byte, and the struct's first
   * `length` bytes are the bytes taken from the link, header first.
   */
  lemma ReadAcceptedFrame(img: Image, w: Wire)
    ensures var r := ReadSpec(img, w);
      r.ok ==>
        && CheckCheckSumOf(r.image) && 0 <= DataLengthOf(r.image) <= MaxPayload
        && var g := ReadBytes(w, BodyLength);
           |g.bytes| == BodyLength && r.image[..BodyLength] == g.bytes
           && (DataLengthOf(r.image) > 0 ==> PayloadOf(r.image) == ReadBytes(g.wire, DataLengthOf(r.image)).bytes)
  {
  }

  /** Read fails when fewer than 18 header bytes arrive or the check byte does not match. */
  lemma ReadRejectsBadHeader(img: Image, w: Wire)
    requires var g := ReadBytes(w, BodyLength);
      |g.bytes| < BodyLength || !CheckCheckSumOf(Put(img, 0, g.bytes))
    ensures !ReadSpec(img, w).ok && ReadSpec(img, w).wire == ReadBytes(w, BodyLength).wire
  {
  }

  /** True when the struct's first 18 + n bytes are the bytes of frame f. */
  predicate Holds(img: Image, f: Frame)
    requires |f.payload| <= MaxPayload
  {
    forall k :: 0 <= k < BodyLength + |f.payload| ==> img[k] == FrameBytes(f)[k]
  }

  /** A struct holding a frame has that frame's header fields. */
  lemma HoldsHeader(img: Image, f: Frame)
    requires |f.payload| <= MaxPayload && Holds(img, f)
    ensures UnknownOf(img) == f.unknown && SourceOf(img) == f.source
    ensures DestinationOf(img) == f.destination && CommandOf(img) == f.command
  {
    assert img[2] == FrameBytes(f)[2];
    assert SourceOf(img) == f.source by {
      forall i | 0 <= i < 6 ensures img[4 + i] == f.source[i] {
        assert img[4 + i] == FrameBytes(f)[4 + i];
      }
    }
    assert DestinationOf(img) == f.destination by {
      forall i | 0 <= i < 6 ensures img[10 + i] == f.destination[i] {
        assert img[10 + i] == FrameBytes(f)[10 + i];
      }
    }
    assert img[16] == FrameBytes(f)[16] && img[17] == FrameBytes(f)[17];
    Le16RoundTrip(f.command);
  }

  /** A struct holding a frame has that frame's data length and payload. */
  lemma HoldsPayload(img: Image, f: Frame)
    requires |f.payload| <= MaxPayload && Holds(img, f)
    ensures DataLengthOf(img) == |f.payload| && PayloadOf(img) == f.payload
  {
    assert img[1] == LengthByte(|f.payload|) by {
      assert img[1] == FrameBytes(f)[1];
    }
    LengthByteValue(|f.payload|);
    assert PayloadOf(img) == f.payload by {
      forall i | 0 <= i < |f.payload| ensures PayloadOf(img)[i] == f.payload[i] {
        assert img[BodyLength + i] == FrameBytes(f)[BodyLength + i];
      }
    }
  }

  /** The header stage on a frame delivered whole: accepted, the header copied, the rest left queued. */
  lemma ReadFrameHeader(img: Image, f: Frame, w: Wire, rest: seq<seq<Byte>>)
    requires |f.payload| <= MaxPayload && w.inbound == [FrameBytes(f)] + rest
    ensures var h := ReadHeaderSpec(img, w);
      && h.ok && h.image[1] == LengthByte(|f.payload|)
      && (forall k :: 0 <= k < BodyLength ==> h.image[k] == FrameBytes(f)[k])
      && h.wire == w.(inbound := if |f.payload| == 0 then rest else [FrameBytes(f)[BodyLength..]] + rest)
  {
    var fb := FrameBytes(f);
    if |f.payload| == 0 {
      ReadWholeDelivery(w, BodyLength, fb, rest);
      assert fb[..BodyLength] == fb;
    } else {
      ReadDeliveryPrefix(w, BodyLength, fb, rest);
    }
    var head := Put(img, 0, fb[..BodyLength]);
    forall k | 0 <= k < BodyLength ensures head[k] == fb[k] {
      PutAt(img, 0, fb[..BodyLength], k);
    }
    FrameBytesAt(f, 0);
    FrameBytesAt(f, 1);
    FrameBytesAt(f, 2);
    FrameBytesAt(f, 3);
    LengthByteValue(|f.payload|);
  }

  /** Read of a frame delivered whole succeeds, stores the frame and consumes exactly that delivery. */
  lemma ReadFrameStored(img: Image, f: Frame, w: Wire, rest: seq<seq<Byte>>)
    requires |f.payload| <= MaxPayload && w.inbound == [FrameBytes(f)] + rest
    ensures var r := ReadSpec(img, w);
      r.ok && r.wire == w.(inbound := rest) && Holds(r.image, f)
  {
    var fb := FrameBytes(f);
    var n := |f.payload|;
    ReadFrameHeader(img, f, w, rest);
    LengthByteValue(n);
    var h := ReadHeaderSpec(img, w);
    assert h.image[1] == BodyLength + n;
    if n == 0 {
      assert ReadSpec(img, w) == h;
    } else {
      ReadWholeDelivery(h.wire, n, fb[BodyLength..], rest);
      assert ReadSpec(img, w) == ReadResult(true, Put(h.image, BodyLength, fb[BodyLength..]), w.(inbound := rest));
      PayloadCompletesFrame(h.image, f);
    }
  }

  /** Copying a frame's payload behind its header gives a struct that holds the frame. */
  lemma PayloadCompletesFrame(head: Image, f: Frame)
    requires |f.payload| <= MaxPayload
    requires forall k :: 0 <= k < BodyLength ==> head[k] == FrameBytes(f)[k]
    ensures Holds(Put(head, BodyLength, FrameBytes(f)[BodyLength..]), f)
  {
    var fb := FrameBytes(f);
    forall k | 0 <= k < BodyLength + |f.payload| ensures Put(head, BodyLength, fb[BodyLength..])[k] == fb[k] {
      PutAt(head, BodyLength, fb[BodyLength..], k);
    }
  }

  /** Read of a frame delivered whole recovers every field and consumes exactly that frame. */
  lemma ReadFrameBytes(img: Image, f: Frame, w: Wire, rest: seq<seq<Byte>>)
    requires |f.payload| <= MaxPayload && w.inbound == [FrameBytes(f)] + rest
    ensures var r := ReadSpec(img, w);
      && r.ok && r.wire == w.(inbound := rest)
      && UnknownOf(r.image) == f.unknown && SourceOf(r.image) == f.source
      && DestinationOf(r.image) == f.destination && CommandOf(r.image) == f.command
      && DataLengthOf(r.image) == |f.payload| && PayloadOf(r.image) == f.payload
  {
    ReadFrameStored(img, f, w, rest);
    var r := ReadSpec(img, w);
    HoldsHeader(r.image, f);
    HoldsPayload(r.image, f);
  }

  /** Frame round trip: what Send writes, once delivered, Read recovers field for field. */
  lemma SendReadRoundTrip(img: Image, source: Mac, destination: Mac, command: Word, data: seq<Byte>,
                          reader: Image, w: Wire, rest: seq<seq<Byte>>)
    requires |data| <= MaxPayload
    requires w.inbound == [WireBytes(SendImage(img, source, destination, command, data))] + rest
    ensures var r := ReadSpec(reader, w);
      && r.ok && r.wire.inbound == rest
      && SourceOf(r.image) == source && DestinationOf(r.image) == destination
      && CommandOf(r.image) == command && PayloadOf(r.image) == data
  {
    SendWritesFrame(img, source, destination, command, data);
    ReadFrameBytes(reader, Frame(0, source, destination, command, data), w, rest);
  }

  /** A header whose length byte is 5 and whose check byte matches (0x7e ^ 0x05 ^ 0x00). */
  const ShortHeader: seq<Byte> := [0x7e, 0x05, 0x00, 0x7b, 0, 0, 0, 0, 0, 0, 0, 0, 0, 0, 0, 0, 0, 0]

  /**
   * As written, Read accepts ShortHeader and DataLength() is then -13, a
   * negative size that ReadL2Packet hands to realloc and memcpy. ReadSpec
   * rejects it.
   */
  lemma ShortLengthAcceptedAsWritten(img: Image, w: Wire, rest: seq<seq<Byte>>)
    requires w.inbound == [ShortHeader] + rest
    ensures HeaderAcceptedAsWritten(ShortHeader, img)
    ensures DataLengthOf(Put(img, 0, ShortHeader)) == -13
    ensures !ReadSpec(img, w).ok
  {
    ReadWholeDelivery(w, BodyLength, ShortHeader, rest);
    var head := Put(img, 0, ShortHeader);
    assert head[..4] == ShortHeader[..4];
    ShortHeaderCheck();
  }

  /** The check byte of ShortHeader. */
  lemma ShortHeaderCheck()
    ensures Xor(Xor(0x7e, 0x05), 0x00) == 0x7b
  {
    XorLowZero(15, 5);
    assert XorLow(31, 1, 6) == 30;
    assert XorLow(63, 2, 7) == 61;
    assert Xor(0x7e, 0x05) == 0x7b;
    XorLowZero(0x7b, 8);
  }

  /** The L1Packet class: the struct and the operations on it. */
  class L1Packet {
    const packet: array<Byte>

    constructor ()
      ensures packet.Length == ImageSize && packet[..] == ZeroImage()
      ensures fresh(packet)
    {
      packet := new Byte[ImageSize](_ => 0);
    }

    function Image(): Image
      reads packet
      requires packet.Length == ImageSize
    {
      packet[..]
    }

    function Command(): Word reads packet requires packet.Length == ImageSize { CommandOf(packet[..]) }
    function DataLength(): int reads packet requires packet.Length == ImageSize { DataLengthOf(packet[..]) }
    function CheckSource(mac: Mac): bool reads packet requires packet.Length == ImageSize { CheckSourceOf(packet[..], mac) }

    /** Data(): the payload part of the data area. */
    function Data(): seq<Byte>
      reads packet
      requires packet.Length == ImageSize && DataLength() >= 0
    {
      PayloadOf(packet[..])
    }

    /** memcpy(((uint8_t *) &packet) + at, bytes, |bytes|) */
    method CopyIn(at: nat, bytes: seq<Byte>)
      requires packet.Length == ImageSize && at + |bytes| <= ImageSize
      modifies packet
      ensures packet[..] == Put(old(packet[..]), at, bytes)
    {
      forall k | at <= k < at + |bytes| {
        packet[k] := bytes[k - at];
      }
    }

    method SetHeader(source: Mac, destination: Mac, command: Word)
      requires packet.Length == ImageSize
      modifies packet
      ensures packet[..] == WithHeader(old(packet[..]), source, destination, command)
    {
      packet[0] := Identity;
      packet[2] := 0;
      CopyIn(4, source);
      CopyIn(10, destination);
      CopyIn(16, Le16(command));
    }

    /** SetData(data, n); the source checks no length, the data area bounds it. */
    method SetData(data: seq<Byte>)
      requires packet.Length == ImageSize && |data| <= DataCapacity
      modifies packet
      ensures packet[..] == WithData(old(packet[..]), data)
    {
      CopyIn(BodyLength, data);
      packet[1] := (BodyLength + |data|) % 0x100;
    }

    method SetCheckSum()
      requires packet.Length == ImageSize
      modifies packet
      ensures packet[..] == WithCheckSum(old(packet[..]))
    {
      packet[3] := Xor(Xor(packet[0], packet[1]), packet[2]);
    }

    /** Send(s, data, n): set data and check byte, write length bytes, true iff all were written. */
    method Send(link: Link, data: seq<Byte>) returns (ok: bool)
      requires packet.Length == ImageSize && |data| <= DataCapacity
      modifies packet, link
      ensures packet[..] == WithCheckSum(WithData(old(packet[..]), data))
      ensures var r := WriteBytes(old(link.wire), WireBytes(packet[..]));
        link.wire == r.wire && ok == (r.count == packet[1])
    {
      SetData(data);
      SetCheckSum();
      var count := link.Write(packet[..packet[1]]);
      ok := count == packet[1];
    }

    /** The header stage of Read. */
    method ReadHeader(link: Link) returns (ok: bool)
      requires packet.Length == ImageSize
      modifies packet, link
      ensures ReadResult(ok, packet[..], link.wire) == ReadHeaderSpec(old(packet[..]), old(link.wire))
    {
      var head := link.Read(BodyLength);
      CopyIn(0, head);
      ok := |head| == BodyLength && CheckCheckSumOf(packet[..]) && packet[1] >= BodyLength;
    }

    /** Read(s): fill the struct from the link in two stages. */
    method Read(link: Link) returns (ok: bool)
      requires packet.Length == ImageSize
      modifies packet, link
      ensures ReadResult(ok, packet[..], link.wire) == ReadSpec(old(packet[..]), old(link.wire))
    {
      ok := ReadHeader(link);
      if !ok {
        return;
      }
      var length := packet[1];
      if length > BodyLength {
        var n := length - BodyLength;
        var body := link.Read(n);
        CopyIn(BodyLength, body);
        ok := |body| == n;
      }
    }
  }
}
