/**
 * The L2 layer: an L2 packet is a packed header followed by data, framed
 * between two flag bytes, byte-stuffed after the first flag and protected by
 * the RFC 1662 frame check sequence over everything between the first flag
 * and the FCS. It travels as the concatenated payloads of one or more L1
 * frames.
 */
module L2 {
  import opened Bytes
  import opened Ppp
  import opened L2Defs
  import opened Wrappers

  /** The 16-bit packet index stored in a header. */
  function IndexOf(h: Header): Word
  {
    FromLe16(h[Defs.indexAt], h[Defs.indexAt + 1])
  }

  /** The 16-bit telegram number stored in a header. */
  function TelegramOf(h: Header): Word
  {
    FromLe16(h[Defs.telegramAt], h[Defs.telegramAt + 1])
  }

  /** The preamble region of a header holds L2_default_header. */
  predicate HasPreamble(h: Header)
  {
    h[Defs.preambleAt..Defs.preambleAt + |Defs.preamble|] == Defs.preamble
  }

  /** The header after SetFields: the three bytes, the packet index and the command stored. */
  function WithFields(h: Header, first: Byte, second: Byte, third: Byte, index: Word, command: seq<Byte>): Header
    requires |command| == Defs.commandSize
  {
    Put(Put(h[Defs.firstAt := first][Defs.secondAt := second][Defs.thirdAt := third],
            Defs.indexAt, Le16(index)),
        Defs.commandAt, command)
  }

  /**
   * The header.length byte PreparePacket stores for `n` data bytes: the
   * packet length in 4-byte words, truncated to one byte.
   */
  function LengthField(n: nat): Byte
  {
    ((Defs.headerSize - 5 + n) / 4) % 0x100
  }

  /**
   * The bytes PreparePacket produces from a header and data: the first header
   * byte as it is, the rest of the header and the data escaped, then the two
   * FCS bytes low byte first WITHOUT escaping, then the closing flag.
   */
  function Envelope(h: Header, data: seq<Byte>): seq<Byte>
  {
    [h[0]] + Escape(h[1..]) + Escape(data) + FcsBytes(h, data) + [Flag]
  }

  /** The outcome of ReadPacket: its return value, the new header and the new input buffer. */
  datatype Unpacked = Unpacked(code: int, header: Header, buffer: seq<Byte>)

  /**
   * ReadPacket on the first `|raw|` bytes of a buffer when the header was `h`.
   * The buffer is unescaped in place after its first byte (the bytes after
   * the unescaped part keep their values), its first bytes are copied to the
   * header, and the data that follows the header is moved to the front of
   * the buffer. The code is the data length, or an error for a buffer
   * shorter than a header, a missing flag, a wrong preamble, a packet too
   * short to hold a header, the FCS and the flag, or an FCS mismatch.
   */
  function Unpack(raw: seq<Byte>, h: Header): (r: Unpacked)
    ensures |r.buffer| == |raw|
    ensures r.code >= 0 ==> |raw| >= Defs.headerSize && raw[0] == Flag && raw[|raw| - 1] == Flag
    ensures r.code >= 0 ==> HasPreamble(r.header) && r.code == |Unescape(raw[1..])| - Defs.headerSize - 2
    ensures r.code < 0 ==> r.code == Defs.errInvalidPacket || r.code == Defs.errChecksum
  {
    if |raw| < Defs.headerSize || raw[0] != Flag || raw[|raw| - 1] != Flag then
      Unpacked(Defs.errInvalidPacket, h, raw)
    else
      Check(Unescaped(raw), 1 + |Unescape(raw[1..])|)
  }

  /**
   * The buffer after ReadPacket's in-place unescaping: the first byte, the
   * unescaped rest, then the bytes the shorter result no longer covers.
   */
  function Unescaped(raw: seq<Byte>): (b: seq<Byte>)
    requires |raw| >= 1
    ensures |b| == |raw| && 1 + |Unescape(raw[1..])| <= |raw| <= 1 + 2 * |Unescape(raw[1..])|
    ensures b[0] == raw[0] && b[1..1 + |Unescape(raw[1..])|] == Unescape(raw[1..])
    ensures b[1 + |Unescape(raw[1..])|..] == raw[1 + |Unescape(raw[1..])|..]
  {
    UnescapeLength(raw[1..]);
    var u := Unescape(raw[1..]);
    [raw[0]] + u + raw[1 + |u|..]
  }

  /**
   * The second half of ReadPacket: `buffer` has been unescaped in place, and
   * its first `n` bytes are the unescaped packet. A negative data length,
   * which the code hands to memmove, is rejected here as an invalid packet
   * (the corrected check; HeaderOnlyOverrunsAsWritten shows the original).
   */
  function Check(buffer: seq<Byte>, n: nat): (r: Unpacked)
    requires Defs.headerSize <= |buffer| && 3 <= n <= |buffer|
    ensures |r.buffer| == |buffer|
    ensures r.code >= 0 ==> HasPreamble(r.header) && r.code + Defs.headerSize + 3 == n
    ensures r.code < 0 ==> r.code == Defs.errInvalidPacket || r.code == Defs.errChecksum
  {
    var h: Header := buffer[..Defs.headerSize];
    var length := n - Defs.headerSize - 3;
    if !HasPreamble(h) || length < 0 then
      Unpacked(Defs.errInvalidPacket, h, buffer)
    else
      var payload := buffer[Defs.headerSize..Defs.headerSize + length];
      var moved := payload + buffer[length..];
      if Fcs(h[1..] + payload) != FromLe16(buffer[n - 3], buffer[n - 2]) then
        Unpacked(Defs.errChecksum, h, moved)
      else
        Unpacked(length, h, moved)
  }

  /** SetFields stores the three bytes; the index and the command do not overwrite them. */
  lemma BytesReadBack(h: Header, first: Byte, second: Byte, third: Byte, index: Word, command: seq<Byte>)
    requires |command| == Defs.commandSize
    ensures WithFields(h, first, second, third, index, command)[Defs.firstAt] == first
    ensures WithFields(h, first, second, third, index, command)[Defs.secondAt] == second
    ensures WithFields(h, first, second, third, index, command)[Defs.thirdAt] == third
  {
    Layout();
    var h1 := h[Defs.firstAt := first][Defs.secondAt := second][Defs.thirdAt := third];
    var h2 := Put(h1, Defs.indexAt, Le16(index));
    PutAt(h1, Defs.indexAt, Le16(index), Defs.firstAt);
    PutAt(h1, Defs.indexAt, Le16(index), Defs.secondAt);
    PutAt(h1, Defs.indexAt, Le16(index), Defs.thirdAt);
    PutAt(h2, Defs.commandAt, command, Defs.firstAt);
    PutAt(h2, Defs.commandAt, command, Defs.secondAt);
    PutAt(h2, Defs.commandAt, command, Defs.thirdAt);
  }

  /** SetFields stores the packet index, low byte first, and the command leaves it alone. */
  lemma IndexReadBack(h: Header, first: Byte, second: Byte, third: Byte, index: Word, command: seq<Byte>)
    requires |command| == Defs.commandSize
    ensures IndexOf(WithFields(h, first, second, third, index, command)) == index
  {
    Layout();
    var h1 := h[Defs.firstAt := first][Defs.secondAt := second][Defs.thirdAt := third];
    var h2 := Put(h1, Defs.indexAt, Le16(index));
    PutAt(h1, Defs.indexAt, Le16(index), Defs.indexAt);
    PutAt(h1, Defs.indexAt, Le16(index), Defs.indexAt + 1);
    PutAt(h2, Defs.commandAt, command, Defs.indexAt);
    PutAt(h2, Defs.commandAt, command, Defs.indexAt + 1);
    Le16RoundTrip(index);
  }

  /** SetFields stores the command field, written last. */
  lemma CommandReadBack(h: Header, first: Byte, second: Byte, third: Byte, index: Word, command: seq<Byte>)
    requires |command| == Defs.commandSize
    ensures WithFields(h, first, second, third, index, command)[Defs.commandAt..Defs.commandAt + Defs.commandSize] == command
  {
    var h1 := h[Defs.firstAt := first][Defs.secondAt := second][Defs.thirdAt := third];
    PutSlice(Put(h1, Defs.indexAt, Le16(index)), Defs.commandAt, command);
  }

  /** Storing the length byte does not disturb the packet index. */
  lemma LengthKeepsIndex(h: Header, n: nat)
    ensures IndexOf(h[Defs.lengthAt := LengthField(n)]) == IndexOf(h)
  {
    Layout();
  }

  /** The conditions under which ReadPacket recovers what PreparePacket produced. */
  predicate Recoverable(h: Header, data: seq<Byte>)
  {
    && h[0] == Flag
    && HasPreamble(h)
    && FcsBytes(h, data)[0] != ControlEscape
    && FcsBytes(h, data)[1] != ControlEscape
  }

  /** The two FCS bytes of an envelope, low byte first. */
  function FcsBytes(h: Header, data: seq<Byte>): (b: seq<Byte>)
    ensures |b| == 2 && FromLe16(b[0], b[1]) == Fcs(h[1..] + data)
  {
    Le16RoundTrip(Fcs(h[1..] + data));
    Le16(Fcs(h[1..] + data))
  }

  /** The shape of an envelope: the first header byte, the escaped parts, and the closing flag. */
  lemma EnvelopeShape(h: Header, data: seq<Byte>)
    ensures |Envelope(h, data)| == Defs.headerSize + ControlCount(h[1..]) + |data| + ControlCount(data) + 3
    ensures Envelope(h, data)[0] == h[0] && Envelope(h, data)[|Envelope(h, data)| - 1] == Flag
    ensures Envelope(h, data)[1..] == Escape(h[1..]) + Escape(data) + (FcsBytes(h, data) + [Flag])
  {
    EscapeLength(h[1..]);
    EscapeLength(data);
    assert Envelope(h, data) == [h[0]] + (Escape(h[1..]) + Escape(data) + (FcsBytes(h, data) + [Flag]));
  }

  /** With both FCS bytes plain, an envelope unescapes to the header, the data, the FCS bytes and the flag. */
  lemma UnescapeEnvelope(h: Header, data: seq<Byte>)
    requires FcsBytes(h, data)[0] != ControlEscape && FcsBytes(h, data)[1] != ControlEscape
    ensures Unescape(Envelope(h, data)[1..]) == h[1..] + data + (FcsBytes(h, data) + [Flag])
  {
    var tail := FcsBytes(h, data) + [Flag];
    EnvelopeShape(h, data);
    UnescapeEscapeTwo(h[1..], data, tail);
    UnescapePlain(tail);
  }

  /**
   * Unpack accepts any buffer between two flags that unescapes to a header
   * with the preamble, the data, two bytes holding the FCS of both, and the flag.
   */
  lemma UnpackAccepts(raw: seq<Byte>, before: Header, h: Header, data: seq<Byte>, fcs: seq<Byte>)
    requires |raw| >= Defs.headerSize && raw[0] == Flag && raw[|raw| - 1] == Flag
    requires h[0] == Flag && HasPreamble(h)
    requires |fcs| == 2 && FromLe16(fcs[0], fcs[1]) == Fcs(h[1..] + data)
    requires Unescape(raw[1..]) == h[1..] + data + (fcs + [Flag])
    ensures Unpack(raw, before).code == |data|
    ensures Unpack(raw, before).header == h
    ensures Unpack(raw, before).buffer[..|data|] == data
  {
    var u := Unescape(raw[1..]);
    var b := Unescaped(raw);
    var n := 1 + |u|;
    var p := h + data + fcs + [Flag];
    assert b[..n] == p by {
      assert b[..n] == b[..1] + b[1..n];
      assert p == [h[0]] + u;
    }
    assert b[..Defs.headerSize] == h by {
      assert b[..Defs.headerSize] == p[..Defs.headerSize];
    }
    assert b[Defs.headerSize..n - 3] == data by {
      assert b[Defs.headerSize..n - 3] == p[Defs.headerSize..n - 3];
    }
    assert b[n - 3] == p[n - 3] == fcs[0];
    assert b[n - 2] == p[n - 2] == fcs[1];
    UnpackFcs(raw, before, b, n, h, data);
  }

  /**
   * ReadPacket recovers the header and the data of the bytes PreparePacket
   * produced, whatever header it held before, provided the header starts
   * with the flag and carries the preamble and neither FCS byte is a control
   * escape (the FCS is sent unescaped).
   */
  lemma EnvelopeRoundTrip(h: Header, data: seq<Byte>, before: Header)
    requires Recoverable(h, data)
    ensures Unpack(Envelope(h, data), before).code == |data|
    ensures Unpack(Envelope(h, data), before).header == h
    ensures Unpack(Envelope(h, data), before).buffer[..|data|] == data
  {
    EnvelopeShape(h, data);
    UnescapeEnvelope(h, data);
    UnpackAccepts(Envelope(h, data), before, h, data, FcsBytes(h, data));
  }

  /** A trailer whose first byte is the control escape unescapes to two bytes. */
  lemma UnescapeEscapedTrailer(a: seq<Byte>, b: seq<Byte>, fcs: seq<Byte>)
    requires |fcs| == 2 && fcs[0] == ControlEscape
    ensures |Unescape(Escape(a) + Escape(b) + (fcs + [Flag]))| == |a| + |b| + 2
  {
    var t := fcs + [Flag];
    UnescapeEscapeTwo(a, b, t);
    assert t[2..] == [Flag];
    UnescapeFlag();
    assert Unescape(t) == [Flip(t[1])] + Unescape([Flag]);
  }

  lemma UnescapeFlag()
    ensures Unescape([Flag]) == [Flag]
  {
    assert [Flag][1..] == [];
  }

  /**
   * When the low FCS byte happens to be the control escape, ReadPacket takes
   * it for an escape and does not return the length of the data sent.
   */
  lemma EscapedFcsIsMisread(h: Header, data: seq<Byte>, before: Header)
    requires FcsBytes(h, data)[0] == ControlEscape
    ensures Unpack(Envelope(h, data), before).code != |data|
  {
    EnvelopeShape(h, data);
    UnescapeEscapedTrailer(h[1..], data, FcsBytes(h, data));
  }

  /**
   * The data length ReadPacket computes, and then hands to memmove as a
   * 64-bit size_t, when the flags and the preamble are right; the code as
   * written does not look at its sign.
   */
  function MoveLengthAsWritten(raw: seq<Byte>): Option<nat>
  {
    if |raw| < Defs.headerSize || raw[0] != Flag || raw[|raw| - 1] != Flag then None
    else
      var n := 1 + |Unescape(raw[1..])|;
      var h: Header := Unescaped(raw)[..Defs.headerSize];
      if !HasPreamble(h) then None
      else Some((n - Defs.headerSize - 3) % 0x1_0000_0000_0000_0000)
  }

  /** A header with the flag in front and the preamble in place. */
  function PlainHeader(): (h: Header)
    ensures h[0] == Flag && HasPreamble(h)
  {
    var z := seq(Defs.headerSize, _ => 0);
    var p := Put(z, Defs.preambleAt, Defs.preamble);
    PutSlice(z, Defs.preambleAt, Defs.preamble);
    PutAt(z, Defs.preambleAt, Defs.preamble, 0);
    var h := p[0 := Flag];
    assert h[Defs.preambleAt..Defs.preambleAt + |Defs.preamble|] == p[Defs.preambleAt..Defs.preambleAt + |Defs.preamble|];
    h
  }

  /** A bare header between two flags: passes every check before the memmove. */
  function HeaderOnly(): seq<Byte>
  {
    [Flag] + Escape(PlainHeader()[1..]) + [Flag]
  }

  /** HeaderOnly unescapes to the header and the closing flag. */
  lemma HeaderOnlyUnescaped()
    ensures |HeaderOnly()| >= Defs.headerSize && HeaderOnly()[0] == Flag && HeaderOnly()[|HeaderOnly()| - 1] == Flag
    ensures 1 + |Unescape(HeaderOnly()[1..])| == Defs.headerSize + 1
    ensures Unescaped(HeaderOnly())[..Defs.headerSize] == PlainHeader()
  {
    BareHeaderUnescaped(PlainHeader());
  }

  /** A header starting with the flag, escaped and between two flags, unescapes to itself and the flag. */
  lemma BareHeaderUnescaped(h: Header)
    requires h[0] == Flag
    ensures var raw := [Flag] + Escape(h[1..]) + [Flag];
      && |raw| >= Defs.headerSize && raw[0] == Flag && raw[|raw| - 1] == Flag
      && 1 + |Unescape(raw[1..])| == Defs.headerSize + 1
      && Unescaped(raw)[..Defs.headerSize] == h
  {
    var raw := [Flag] + Escape(h[1..]) + [Flag];
    EscapeLength(h[1..]);
    assert raw[1..] == Escape(h[1..]) + [Flag];
    UnescapeEscape(h[1..], [Flag]);
    UnescapeFlag();
    var u := Unescape(raw[1..]);
    assert u == h[1..] + [Flag];
    assert Unescaped(raw)[..Defs.headerSize] == h by {
      assert Unescaped(raw)[..1 + |u|] == [Flag] + u;
      assert ([Flag] + u)[..Defs.headerSize] == [h[0]] + h[1..];
    }
  }

  /**
   * Any buffer between two flags whose unescaped header has the preamble but
   * which holds nothing after it but the closing flag: as written the data
   * length is -2, a copy of 2^64 - 2 bytes; the model rejects it.
   */
  lemma BareHeaderOverrunsAsWritten(raw: seq<Byte>, before: Header)
    requires |raw| >= Defs.headerSize && raw[0] == Flag && raw[|raw| - 1] == Flag
    requires 1 + |Unescape(raw[1..])| == Defs.headerSize + 1
    requires HasPreamble(Unescaped(raw)[..Defs.headerSize])
    ensures MoveLengthAsWritten(raw) == Some(0x1_0000_0000_0000_0000 - 2)
    ensures Unpack(raw, before).code == Defs.errInvalidPacket
  {
    UnpackShort(raw, before);
  }

  /** HeaderOnly is such a buffer. */
  lemma HeaderOnlyOverrunsAsWritten(before: Header)
    ensures MoveLengthAsWritten(HeaderOnly()) == Some(0x1_0000_0000_0000_0000 - 2)
    ensures Unpack(HeaderOnly(), before).code == Defs.errInvalidPacket
  {
    HeaderOnlyUnescaped();
    BareHeaderOverrunsAsWritten(HeaderOnly(), before);
  }

  /** The L2Packet class: the packed header and the operations on it. */
  class L2Packet {
    const header: array<Byte>

    constructor ()
      ensures header.Length == Defs.headerSize && header[..] == Defs.initialHeader
      ensures fresh(header)
    {
      header := new Byte[Defs.headerSize](i requires 0 <= i < Defs.headerSize => Defs.initialHeader[i]);
    }

    function Header(): Header
      reads header
      requires header.Length == Defs.headerSize
    {
      header[..]
    }

    function PacketIndex(): Word
      reads header
      requires header.Length == Defs.headerSize
    {
      IndexOf(header[..])
    }

    function TelegramNumber(): Word
      reads header
      requires header.Length == Defs.headerSize
    {
      TelegramOf(header[..])
    }

    method SetFields(first: Byte, second: Byte, third: Byte, index: Word, command: seq<Byte>)
      requires header.Length == Defs.headerSize && |command| == Defs.commandSize
      modifies header
      ensures header[..] == WithFields(old(header[..]), first, second, third, index, command)
    {
      ghost var h: seq<Byte> := header[..];
      header[Defs.firstAt] := first;
      header[Defs.secondAt] := second;
      header[Defs.thirdAt] := third;
      assert header[..] == h[Defs.firstAt := first][Defs.secondAt := second][Defs.thirdAt := third];
      ghost var h1: seq<Byte> := header[..];
      var index16 := Le16(index);
      header[Defs.indexAt] := index16[0];
      header[Defs.indexAt + 1] := index16[1];
      assert header[..] == Put(h1, Defs.indexAt, index16);
      ghost var h2: seq<Byte> := header[..];
      forall k | 0 <= k < Defs.commandSize {
        header[Defs.commandAt + k] := command[k];
      }
      assert header[..] == Put(h2, Defs.commandAt, command);
    }

    /** Appends the escaped form of `src` to `destination`. */
    method EscapeData(destination: seq<Byte>, src: seq<Byte>) returns (result: seq<Byte>)
      ensures result == destination + Escape(src)
    {
      result := destination;
      var i := 0;
      while i < |src|
        invariant 0 <= i <= |src|
        invariant result == destination + Escape(src[..i])
      {
        var c := src[i];
        if c == 0x7d || c == 0x7e || c == 0x11 || c == 0x12 || c == 0x13 {
          result := result + [0x7d, Flip(c)];
        } else {
          result := result + [c];
        }
        assert src[..i + 1] == src[..i] + [c];
        EscapeAppend(src[..i], [c]);
        assert Escape([c]) == EscapeByte(c);
        i := i + 1;
      }
      assert src[..i] == src;
    }

    /**
     * Unescapes `length` bytes of `src` from offset `from` in place and
     * returns the unescaped length; bytes from the end of the unescaped part
     * on keep their old values.
     */
    method UnescapeData(src: array<Byte>, from: nat, length: nat) returns (d: nat)
      requires from + length <= src.Length
      modifies src
      ensures d == |Unescape(old(src[from..from + length]))| && d <= length
      ensures src[..from] == old(src[..from])
      ensures src[from..from + d] == Unescape(old(src[from..from + length]))
      ensures src[from + d..] == old(src[from + d..])
    {
      ghost var s := src[from..from + length];
      ghost var orig := src[..];
      d := 0;
      var i := 0;
      ghost var out: seq<Byte> := [];
      while i < length
        invariant 0 <= d <= i <= length && |out| == d
        invariant forall k :: 0 <= k < from ==> src[k] == orig[k]
        invariant forall k :: from + d <= k < src.Length ==> src[k] == orig[k]
        invariant forall k :: 0 <= k < d ==> src[from + k] == out[k]
        invariant Unescaping(s, 0, []) == Unescaping(s, i, out)
      {
        var c := src[from + i];
        assert c == s[i];
        var b: Byte;
        if c == 0x7d && i < length - 1 {
          assert src[from + i + 1] == s[i + 1];
          i := i + 1;
          b := Flip(src[from + i]);
        } else {
          b := c;
        }
        src[from + d] := b;
        out := out + [b];
        d := d + 1;
        i := i + 1;
      }
      UnescapingDone(s, out);
      UnescapeLength(s);
      InPlace(orig, src[..], from, out);
    }

    /** The frame check sequence over the header after its first byte, then `data`. */
    method CheckSum(data: seq<Byte>) returns (fcs: Word)
      requires header.Length == Defs.headerSize
      ensures fcs == Fcs(header[1..] + data)
    {
      var f: bv16 := 0xffff;
      RunAppend(0xffff, header[1..], data);
      var i := 1;
      while i < Defs.headerSize
        invariant 1 <= i <= Defs.headerSize
        invariant Run(f, header[i..]) == Run(0xffff, header[1..])
      {
        assert header[i..][1..] == header[i + 1..];
        f := Update(f, header[i]);
        i := i + 1;
      }
      var j := 0;
      while j < |data|
        invariant 0 <= j <= |data|
        invariant Run(f, data[j..]) == Run(0xffff, header[1..] + data)
      {
        assert data[j..][1..] == data[j + 1..];
        f := Update(f, data[j]);
        j := j + 1;
      }
      fcs := Value(f ^ 0xffff);
    }

    /**
     * Stores the length byte in the header and returns the framed, escaped
     * packet for `data`.
     */
    method PreparePacket(data: seq<Byte>) returns (packet: seq<Byte>)
      requires header.Length == Defs.headerSize
      modifies header
      ensures header[..] == old(header[..])[Defs.lengthAt := LengthField(|data|)]
      ensures packet == Envelope(header[..], data)
    {
      header[Defs.lengthAt] := ((Defs.headerSize - 5 + |data|) / 4) % 0x100;
      var result := [header[0]];
      result := EscapeData(result, header[1..]);
      result := EscapeData(result, data);
      var fcs := CheckSum(data);
      result := result + [fcs % 0x100, fcs / 0x100];
      result := result + [Flag];
      packet := result;
    }

    /** memcpy of the first bytes of `src` into the header. */
    method CopyHeader(src: array<Byte>)
      requires header.Length == Defs.headerSize <= src.Length && src != header
      modifies header
      ensures header[..] == src[..Defs.headerSize]
    {
      forall k | 0 <= k < Defs.headerSize {
        header[k] := src[k];
      }
    }

    /** memmove(data, data + at, length): the `length` bytes at `at` copied to the front. */
    static method MemMove(data: array<Byte>, at: nat, length: nat)
      requires at + length <= data.Length
      modifies data
      ensures data[..length] == old(data[at..at + length])
      ensures data[length..] == old(data[length..])
    {
      forall k | 0 <= k < length {
        data[k] := data[at + k];
      }
    }

    /**
     * Decodes the L2 packet in the first `len` bytes of `data`: the header
     * goes to `header`, the data to the front of `data`, and the result is
     * the data length or an error code (see `Unpack`).
     */
    method ReadPacket(data: array?<Byte>, len: nat) returns (r: int)
      requires header.Length == Defs.headerSize
      requires data != null ==> len <= data.Length && data != header
      modifies header, data
      ensures data == null ==> r == Defs.errInvalidPacket && header[..] == old(header[..])
      ensures data != null ==> Unpack(old(data[..len]), old(header[..])) == Unpacked(r, header[..], data[..len])
      ensures data != null ==> data[len..] == old(data[len..])
    {
      if data == null || len < Defs.headerSize {
        return Defs.errInvalidPacket;
      }
      if data[0] != Flag || data[len - 1] != Flag {
        return Defs.errInvalidPacket;
      }
      r := ReadFramed(data, len);
    }

    /** ReadPacket on a packet that starts and ends with the flag. */
    method ReadFramed(data: array<Byte>, len: nat) returns (r: int)
      requires header.Length == Defs.headerSize && data != header
      requires Defs.headerSize <= len <= data.Length && data[0] == Flag && data[len - 1] == Flag
      modifies header, data
      ensures Unpack(old(data[..len]), old(header[..])) == Unpacked(r, header[..], data[..len])
      ensures data[len..] == old(data[len..])
    {
      ghost var raw := data[..len];
      ghost var before := header[..];
      var d := UnescapeInPlace(data, len);
      ghost var buffer := data[..len];
      UnpackIsCheck(raw, before, buffer, d + 1);
      r := CheckUnescaped(data, len, d + 1);
    }

    /** UnescapeData(data + 1, len - 1): the first `len` bytes become Unescaped. */
    method UnescapeInPlace(data: array<Byte>, len: nat) returns (d: nat)
      requires 1 <= len <= data.Length
      modifies data
      ensures data[..len] == Unescaped(old(data[..len]))
      ensures d == |Unescape(old(data[..len])[1..])|
      ensures data[len..] == old(data[len..])
    {
      ghost var raw := data[..len];
      ghost var whole := data[..];
      ghost var escaped := data[1..1 + (len - 1)];
      assert escaped == raw[1..];
      d := UnescapeData(data, 1, len - 1);
      UnescapedInBuffer(whole, data[..], len, raw);
    }

    /**
     * The part of ReadPacket after the in-place unescaping, on the first
     * `len` bytes of `data` of which the first `n` are the unescaped packet:
     * the header copy, the preamble and length checks, the memmove of the
     * data to the front and the FCS comparison.
     */
    method CheckUnescaped(data: array<Byte>, len: nat, n: nat) returns (r: int)
      requires header.Length == Defs.headerSize && data != header
      requires Defs.headerSize <= len <= data.Length && 3 <= n <= len
      modifies header, data
      ensures Check(old(data[..len]), n) == Unpacked(r, header[..], data[..len])
      ensures data[len..] == old(data[len..])
    {
      ghost var buffer := data[..len];
      var fcs := FromLe16(data[n - 3], data[n - 2]);
      assert fcs == FromLe16(buffer[n - 3], buffer[n - 2]);
      CopyHeader(data);
      ghost var h: Header := header[..];
      assert h == buffer[..Defs.headerSize];
      if header[Defs.preambleAt..Defs.preambleAt + |Defs.preamble|] != Defs.preamble {
        return Defs.errInvalidPacket;
      }
      var dataLength := n - Defs.headerSize - 3;
      if dataLength < 0 {
        return Defs.errInvalidPacket;
      }
      ghost var unescaped := data[..];
      MemMove(data, Defs.headerSize, dataLength);
      MovedInBuffer(unescaped, buffer, data[..], Defs.headerSize, dataLength, len);
      ghost var payload := buffer[Defs.headerSize..Defs.headerSize + dataLength];
      var actual := CheckSum(data[..dataLength]);
      assert actual == Fcs(h[1..] + payload);
      if actual != fcs {
        return Defs.errChecksum;
      }
      return dataLength;
    }
  }

  /** Unpack between two flags is Check on the unescaped buffer. */
  lemma UnpackIsCheck(raw: seq<Byte>, before: Header, buffer: seq<Byte>, n: nat)
    requires |raw| >= Defs.headerSize && raw[0] == Flag && raw[|raw| - 1] == Flag
    requires buffer == Unescaped(raw) && n == 1 + |Unescape(raw[1..])|
    ensures Defs.headerSize <= |buffer| && 3 <= n <= |buffer|
    ensures Unpack(raw, before) == Check(buffer, n)
  {
    UnescapeLength(raw[1..]);
  }

  /** Unpack when the preamble of the unescaped header is wrong. */
  lemma UnpackBadPreamble(raw: seq<Byte>, h: Header)
    requires |raw| >= Defs.headerSize && raw[0] == Flag && raw[|raw| - 1] == Flag
    requires !HasPreamble(Unescaped(raw)[..Defs.headerSize])
    ensures Unpack(raw, h) == Unpacked(Defs.errInvalidPacket, Unescaped(raw)[..Defs.headerSize], Unescaped(raw))
  {
    UnescapeLength(raw[1..]);
  }

  /** Unpack when the unescaped packet is too short for a header, the FCS and the flag. */
  lemma UnpackShort(raw: seq<Byte>, h: Header)
    requires |raw| >= Defs.headerSize && raw[0] == Flag && raw[|raw| - 1] == Flag
    requires HasPreamble(Unescaped(raw)[..Defs.headerSize])
    requires 1 + |Unescape(raw[1..])| < Defs.headerSize + 3
    ensures Unpack(raw, h) == Unpacked(Defs.errInvalidPacket, Unescaped(raw)[..Defs.headerSize], Unescaped(raw))
  {
    UnescapeLength(raw[1..]);
  }

  /** Unpack when the header passes: the FCS decides between the data length and the checksum error. */
  lemma UnpackFcs(raw: seq<Byte>, before: Header, b: seq<Byte>, n: nat, h: Header, payload: seq<Byte>)
    requires |raw| >= Defs.headerSize && raw[0] == Flag && raw[|raw| - 1] == Flag
    requires b == Unescaped(raw) && n == 1 + |Unescape(raw[1..])| && Defs.headerSize + 3 <= n
    requires h == b[..Defs.headerSize] && HasPreamble(h)
    requires payload == b[Defs.headerSize..n - 3]
    ensures Unpack(raw, before) == Unpacked(if Fcs(h[1..] + payload) != FromLe16(b[n - 3], b[n - 2]) then Defs.errChecksum else n - Defs.headerSize - 3,
                                            h, payload + b[n - Defs.headerSize - 3..])
  {
  }

  /**
   * After UnescapeData on bytes 1 to `len` of `whole`, the first `len` bytes
   * are `Unescaped(raw)` for the packet `raw` and the rest is untouched.
   */
  lemma UnescapedInBuffer(whole: seq<Byte>, now: seq<Byte>, len: nat, raw: seq<Byte>)
    requires 1 <= len <= |whole| == |now| && raw == whole[..len]
    requires now[..1] == whole[..1]
    requires 1 + |Unescape(whole[1..1 + (len - 1)])| <= len
    requires now[1..1 + |Unescape(whole[1..1 + (len - 1)])|] == Unescape(whole[1..1 + (len - 1)])
    requires now[1 + |Unescape(whole[1..1 + (len - 1)])|..] == whole[1 + |Unescape(whole[1..1 + (len - 1)])|..]
    ensures now[..len] == Unescaped(raw)
    ensures |Unescape(whole[1..1 + (len - 1)])| + 1 == 1 + |Unescape(raw[1..])|
    ensures now[len..] == whole[len..]
  {
    assert raw[1..] == whole[1..1 + (len - 1)];
    var u := Unescape(raw[1..]);
    var n := 1 + |u|;
    assert now[..len] == now[..1] + now[1..n] + now[n..len];
    assert now[n..len] == raw[n..] by {
      assert now[n..len] == now[n..][..len - n];
    }
  }

  /**
   * memmove of `length` bytes from offset `at` to the front, seen on the
   * first `len` bytes, which held `buffer`.
   */
  lemma MovedInBuffer(before: seq<Byte>, buffer: seq<Byte>, now: seq<Byte>, at: nat, length: nat, len: nat)
    requires at + length <= len <= |before| == |now| && buffer == before[..len]
    requires now[..length] == before[at..at + length]
    requires now[length..] == before[length..]
    ensures now[..length] == buffer[at..at + length]
    ensures now[..len] == buffer[at..at + length] + buffer[length..]
    ensures now[len..] == before[len..]
  {
    assert now[..len] == now[..length] + now[length..][..len - length];
  }
}
