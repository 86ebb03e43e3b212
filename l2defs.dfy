/**
 * The definitions the L2 layer takes from L2.h: the layout of the packed
 * L2PacketHeader, its default preamble, the command codes and request
 * templates of the login and query telegrams, and the two L2 error codes.
 * L2.h is not part of this model, so these are left abstract: `Defs` is a
 * constant of which only the facts collected in `Valid` are known, and every
 * proof holds for any header layout with those facts.
 */
module L2Defs {
  import opened Bytes

  datatype Definitions = Definitions(
    /** sizeof(L2PacketHeader). */
    headerSize: nat,
    /** The header a new L2Packet starts with. */
    initialHeader: seq<Byte>,
    /** Offset of header.header in the header, and L2_default_header. */
    preambleAt: nat,
    preamble: seq<Byte>,
    /** Offset of the one-byte header.length field. */
    lengthAt: nat,
    /** Offsets of the fields set from the three byte arguments of SetFields. */
    firstAt: nat,
    secondAt: nat,
    thirdAt: nat,
    /** Offset of the 16-bit packet index (low byte first). */
    indexAt: nat,
    /** Offset of the 16-bit telegram number (low byte first). */
    telegramAt: nat,
    /** Offset and size of the command field. */
    commandAt: nat,
    commandSize: nat,
    /** The L2_command_* constants, as the bytes stored in the command field. */
    login1Command: seq<Byte>,
    login2Command: seq<Byte>,
    logonCommand: seq<Byte>,
    dailyYieldCommand: seq<Byte>,
    historicDailyCommand: seq<Byte>,
    historic5Command: seq<Byte>,
    /** The L2_data_* request templates. */
    login1Data: seq<Byte>,
    login2Data: seq<Byte>,
    logonData: seq<Byte>,
    dailyYieldData: seq<Byte>,
    /** ERR_SMA_INVALID_PACKET and ERR_SMA_L2_CHECKSUM. */
    errInvalidPacket: int,
    errChecksum: int)

  /** The byte ranges [a, a + m) and [b, b + n) do not overlap. */
  predicate Disjoint(a: nat, m: nat, b: nat, n: nat)
  {
    a + m <= b || b + n <= a
  }

  /**
   * The fields of the header the code names, as (offset, size) pairs: the
   * three byte fields, the packet index, the command and the length that
   * SetFields and PreparePacket write, and the telegram number.
   */
  function Field(d: Definitions, i: nat): (nat, nat)
  {
    if i == 0 then (d.firstAt, 1)
    else if i == 1 then (d.secondAt, 1)
    else if i == 2 then (d.thirdAt, 1)
    else if i == 3 then (d.indexAt, 2)
    else if i == 4 then (d.commandAt, d.commandSize)
    else if i == 5 then (d.lengthAt, 1)
    else (d.telegramAt, 2)
  }

  /** Distinct fields of the packed header do not overlap. */
  predicate FieldsApart(d: Definitions)
  {
    forall i, j :: 0 <= i < j < 7 ==> Disjoint(Field(d, i).0, Field(d, i).1, Field(d, j).0, Field(d, j).1)
  }

  /**
   * What the model relies on: every field lies inside the header, the
   * preamble does not cover the unescaped first byte, the named fields
   * (packet index and telegram number among them) do not overlap, the logon template has room for
   * the 12 password bytes at offset 16, and both error codes are negative and
   * distinct (ReadAndCheck tells errors from data lengths by the sign).
   */
  predicate Valid(d: Definitions)
  {
    && d.headerSize >= 5
    && |d.initialHeader| == d.headerSize
    && 1 <= d.preambleAt && d.preambleAt + |d.preamble| <= d.headerSize
    && d.lengthAt < d.headerSize
    && d.firstAt < d.headerSize && d.secondAt < d.headerSize && d.thirdAt < d.headerSize
    && d.indexAt + 2 <= d.headerSize
    && d.telegramAt + 2 <= d.headerSize
    && d.commandAt + d.commandSize <= d.headerSize
    && FieldsApart(d)
    && |d.login1Command| == d.commandSize
    && |d.login2Command| == d.commandSize
    && |d.logonCommand| == d.commandSize
    && |d.dailyYieldCommand| == d.commandSize
    && |d.historicDailyCommand| == d.commandSize
    && |d.historic5Command| == d.commandSize
    && |d.logonData| >= 28
    && d.errInvalidPacket < 0 && d.errChecksum < 0
    && d.errInvalidPacket != d.errChecksum
  }

  type ValidDefinitions = d: Definitions | Valid(d)
    witness Definitions(8, [0, 0, 0, 0, 0, 0, 0, 0], 1, [], 0, 1, 2, 3, 4, 6, 8, 0,
                        [], [], [], [], [], [],
                        [], [], seq(28, _ => 0), [],
                        -1, -2)

  /** The definitions of L2.h; only `Valid(Defs)` is known about them. */
  const Defs: ValidDefinitions

  /** The non-overlap facts of `Defs` the header proofs use, spelled out. */
  lemma Layout()
    ensures Disjoint(Defs.firstAt, 1, Defs.secondAt, 1)
    ensures Disjoint(Defs.firstAt, 1, Defs.thirdAt, 1)
    ensures Disjoint(Defs.secondAt, 1, Defs.thirdAt, 1)
    ensures Disjoint(Defs.firstAt, 1, Defs.indexAt, 2)
    ensures Disjoint(Defs.secondAt, 1, Defs.indexAt, 2)
    ensures Disjoint(Defs.thirdAt, 1, Defs.indexAt, 2)
    ensures Disjoint(Defs.commandAt, Defs.commandSize, Defs.indexAt, 2)
    ensures Disjoint(Defs.firstAt, 1, Defs.commandAt, Defs.commandSize)
    ensures Disjoint(Defs.secondAt, 1, Defs.commandAt, Defs.commandSize)
    ensures Disjoint(Defs.thirdAt, 1, Defs.commandAt, Defs.commandSize)
    ensures Disjoint(Defs.indexAt, 2, Defs.lengthAt, 1)
    ensures Disjoint(Defs.indexAt, 2, Defs.telegramAt, 2)
    ensures Disjoint(Defs.commandAt, Defs.commandSize, Defs.telegramAt, 2)
  {
    var f := Field(Defs, 0);
    var s := Field(Defs, 1);
    var t := Field(Defs, 2);
    var x := Field(Defs, 3);
    var c := Field(Defs, 4);
    var l := Field(Defs, 5);
    var n := Field(Defs, 6);
  }

  /** L2_head and L2_tail: the frame delimiter. */
  const Flag: Byte := 0x7e

  /** The header type: a byte image of sizeof(L2PacketHeader) bytes. */
  type Header = h: seq<Byte> | |h| == Defs.headerSize witness Defs.initialHeader
}
