/**
 * The reply formats of the session layer (ProtocolManager.h): a framed reply
 * starts with a packed _FrameInfo (start_frame, end_frame, both uint32) and
 * is followed by one fixed-size record per frame: the 16-byte _ValueInfo of
 * the daily-yield query or the 12-byte _HistoricYieldInfo of the historic
 * queries. All fields are little-endian on the wire.
 */
module Records {
  import opened Bytes

  // Return codes of GetYieldInfo and GetHistoricYield
  const ErrSendingCommand: int := -1
  const ErrReceivingReply: int := -2
  const ErrInterpretingReply: int := -3

  /** PM_MAX_RECORDS: the historic loop stops once this many records are held. */
  const MaxRecords: nat := 10000

  /** sizeof(_FrameInfo), sizeof(_ValueInfo) and sizeof(_HistoricYieldInfo). */
  const FrameInfoSize: nat := 8
  const ValueInfoSize: nat := 16
  const HistoricInfoSize: nat := 12

  /** The yield tags of _ValueInfo.code that GetYieldInfo dispatches on. */
  const TagTotal: Word := 0x2601
  const TagToday: Word := 0x2622
  const TagOperatingTime: Word := 0x462E
  const TagFeedInTime: Word := 0x462F

  const TwoTo32: nat := 0x1_0000_0000

  function StartFrame(d: seq<Byte>): nat
    requires FrameInfoSize <= |d|
  {
    U32(d, 0)
  }

  function EndFrame(d: seq<Byte>): nat
    requires FrameInfoSize <= |d|
  {
    U32(d, 4)
  }

  /** (end_frame - start_frame) + 1, computed in uint32 arithmetic as the callers do. */
  function FrameCount(d: seq<Byte>): (n: nat)
    requires FrameInfoSize <= |d|
    ensures n < TwoTo32
    ensures EndFrame(d) >= StartFrame(d) && EndFrame(d) - StartFrame(d) + 1 < TwoTo32 ==> n == EndFrame(d) - StartFrame(d) + 1
  {
    (EndFrame(d) - StartFrame(d) + 1) % TwoTo32
  }

  /**
   * expected_size in GetFramedReply as written: the frame count times the
   * record size is a uint32 product (it wraps), 8 is added as a size_t, and
   * the sum is stored in an int (two's complement).
   */
  function ExpectedSizeAsWritten(d: seq<Byte>, frameSize: nat): int
    requires FrameInfoSize <= |d|
  {
    var e := FrameInfoSize + (FrameCount(d) * frameSize) % TwoTo32;
    if e < 0x8000_0000 then e else e - TwoTo32
  }

  /** The length checks of GetFramedReply as written, on a reply of `length` bytes. */
  predicate FramedAsWritten(d: seq<Byte>, length: nat, frameSize: nat)
    requires length <= |d|
  {
    FrameInfoSize <= length && length == ExpectedSizeAsWritten(d, frameSize)
  }

  /**
   * The intended length check: the reply holds the _FrameInfo and exactly
   * one record of `frameSize` bytes per frame it announces.
   */
  predicate Framed(d: seq<Byte>, length: nat, frameSize: nat)
    requires length <= |d|
  {
    FrameInfoSize <= length && length == FrameInfoSize + FrameCount(d) * frameSize
  }

  lemma {:induction false} MulMonotone(a: nat, b: nat, c: nat)
    requires a <= b
    ensures a * c <= b * c
  {
    if c > 0 {
      MulMonotone(a, b, c - 1);
      assert a * c == a * (c - 1) + a;
      assert b * c == b * (c - 1) + b;
    }
  }

  /** Under the intended check every announced record lies inside the reply. */
  lemma FramedRecordsInside(d: seq<Byte>, length: nat, frameSize: nat, i: nat)
    requires length <= |d| && Framed(d, length, frameSize) && i < FrameCount(d)
    ensures FrameInfoSize + (i + 1) * frameSize <= length
  {
    MulMonotone(i + 1, FrameCount(d), frameSize);
  }

  /** A reply that fits in a C int passes the written check whenever it passes the intended one. */
  lemma FramedIsAcceptedAsWritten(d: seq<Byte>, length: nat, frameSize: nat)
    requires length <= |d| && length < 0x8000_0000 && Framed(d, length, frameSize)
    ensures FramedAsWritten(d, length, frameSize)
  {
  }

  /** An 8-byte _FrameInfo announcing frames start to end. */
  function FrameInfo(start: nat, end: nat): (d: seq<Byte>)
    requires start < TwoTo32 && end < TwoTo32
    ensures |d| == FrameInfoSize
  {
    Le32(start) + Le32(end)
  }

  /**
   * As written, an 8-byte reply announcing frames 0 to 2^30 - 1 passes the
   * check for 12-byte historic records (2^30 * 12 wraps to 0) although it
   * holds none of them; GetHistoricYield then copies 2^30 records out of it.
   * The intended check rejects it.
   */
  lemma HistoricWrapAcceptedAsWritten()
    ensures FrameInfo(0, 0x3FFF_FFFF) == [0, 0, 0, 0, 0xFF, 0xFF, 0xFF, 0x3F]
    ensures FrameCount(FrameInfo(0, 0x3FFF_FFFF)) == 0x4000_0000
    ensures FramedAsWritten(FrameInfo(0, 0x3FFF_FFFF), 8, HistoricInfoSize)
    ensures !Framed(FrameInfo(0, 0x3FFF_FFFF), 8, HistoricInfoSize)
  {
    var d := FrameInfo(0, 0x3FFF_FFFF);
    assert U32(d, 4) == 0x3FFF_FFFF;
    assert (0x4000_0000 * HistoricInfoSize) % TwoTo32 == 0;
  }

  /** The same for the 16-byte yield records: 2^28 * 16 wraps to 0. */
  lemma YieldWrapAcceptedAsWritten()
    ensures FrameCount(FrameInfo(0, 0x0FFF_FFFF)) == 0x1000_0000
    ensures FramedAsWritten(FrameInfo(0, 0x0FFF_FFFF), 8, ValueInfoSize)
    ensures !Framed(FrameInfo(0, 0x0FFF_FFFF), 8, ValueInfoSize)
  {
    var d := FrameInfo(0, 0x0FFF_FFFF);
    assert U32(d, 4) == 0x0FFF_FFFF;
    assert (0x1000_0000 * ValueInfoSize) % TwoTo32 == 0;
  }

  // _ValueInfo records: one at 0, code at 1, zero at 3, timestamp at 4, value at 8, fill at 12

  /** Offset of record i of a framed reply with records of `size` bytes. */
  function RecordAt(i: nat, size: nat): nat
  {
    FrameInfoSize + i * size
  }

  function CodeOf(d: seq<Byte>, i: nat): Word
    requires RecordAt(i + 1, ValueInfoSize) <= |d|
  {
    FromLe16(d[RecordAt(i, ValueInfoSize) + 1], d[RecordAt(i, ValueInfoSize) + 2])
  }

  function TimeStampOf(d: seq<Byte>, i: nat): int
    requires RecordAt(i + 1, ValueInfoSize) <= |d|
  {
    I32(d, RecordAt(i, ValueInfoSize) + 4)
  }

  function ValueOf(d: seq<Byte>, i: nat): nat
    requires RecordAt(i + 1, ValueInfoSize) <= |d|
  {
    U32(d, RecordAt(i, ValueInfoSize) + 8)
  }

  /** YieldInfo: TimeStamp is an int32_t, the other fields uint32_t. */
  datatype YieldInfo = YieldInfo(timeStamp: int, total: nat, today: nat, operatingTime: nat, feedInTime: nat)

  /** The YieldInfo after memset(&yi, 0, sizeof(YieldInfo)). */
  const NoYield: YieldInfo := YieldInfo(0, 0, 0, 0, 0)

  /** One pass of the switch in GetYieldInfo on record i; unknown tags change nothing. */
  function ApplyValue(yi: YieldInfo, d: seq<Byte>, i: nat): YieldInfo
    requires RecordAt(i + 1, ValueInfoSize) <= |d|
  {
    var code := CodeOf(d, i);
    if code == TagTotal then yi.(total := ValueOf(d, i))
    else if code == TagToday then yi.(timeStamp := TimeStampOf(d, i), today := ValueOf(d, i))
    else if code == TagOperatingTime then yi.(operatingTime := ValueOf(d, i))
    else if code == TagFeedInTime then yi.(feedInTime := ValueOf(d, i))
    else yi
  }

  /** The YieldInfo after the first n records, starting from zero. */
  function Yields(d: seq<Byte>, n: nat): YieldInfo
    requires RecordAt(n, ValueInfoSize) <= |d|
  {
    if n == 0 then NoYield else ApplyValue(Yields(d, n - 1), d, n - 1)
  }

  predicate IsTag(tag: Word)
  {
    tag == TagTotal || tag == TagToday || tag == TagOperatingTime || tag == TagFeedInTime
  }

  /** The YieldInfo field a tag writes its value to. */
  function ValueField(yi: YieldInfo, tag: Word): nat
    requires IsTag(tag)
  {
    if tag == TagTotal then yi.total
    else if tag == TagToday then yi.today
    else if tag == TagOperatingTime then yi.operatingTime
    else yi.feedInTime
  }

  /**
   * The last record carrying a tag decides its field (and, for 0x2622, the
   * time stamp too): later records with other tags leave it alone.
   */
  lemma {:induction false} LastTagWins(d: seq<Byte>, n: nat, tag: Word, i: nat)
    requires RecordAt(n, ValueInfoSize) <= |d| && IsTag(tag)
    requires i < n && CodeOf(d, i) == tag
    requires forall j :: i < j < n ==> CodeOf(d, j) != tag
    ensures ValueField(Yields(d, n), tag) == ValueOf(d, i)
    ensures tag == TagToday ==> Yields(d, n).timeStamp == TimeStampOf(d, i)
  {
    if n - 1 > i {
      LastTagWins(d, n - 1, tag, i);
    }
  }

  /** A field whose tag no record carries stays zero. */
  lemma {:induction false} UntaggedStaysZero(d: seq<Byte>, n: nat, tag: Word)
    requires RecordAt(n, ValueInfoSize) <= |d| && IsTag(tag)
    requires forall j :: 0 <= j < n ==> CodeOf(d, j) != tag
    ensures ValueField(Yields(d, n), tag) == 0
    ensures tag == TagToday ==> Yields(d, n).timeStamp == 0
  {
    if n > 0 {
      UntaggedStaysZero(d, n - 1, tag);
    }
  }

  // _HistoricYieldInfo records: timestamp at 0, value at 4, fill at 8

  /** HistoricInfoItem. */
  datatype HistoricItem = HistoricItem(timeStamp: int, value: nat)

  function HistoricAt(d: seq<Byte>, i: nat): HistoricItem
    requires RecordAt(i + 1, HistoricInfoSize) <= |d|
  {
    HistoricItem(I32(d, RecordAt(i, HistoricInfoSize)), U32(d, RecordAt(i, HistoricInfoSize) + 4))
  }

  /** The n records of one historic reply, in order. */
  function Page(d: seq<Byte>, n: nat): (p: seq<HistoricItem>)
    requires RecordAt(n, HistoricInfoSize) <= |d|
    ensures |p| == n
  {
    seq(n, i requires 0 <= i < n => HistoricAt(d, i))
  }

  /** The sum of a list of page sizes. */
  function Sum(s: seq<nat>): nat
  {
    if s == [] then 0 else s[0] + Sum(s[1..])
  }

  lemma {:induction false} SumAppend(s: seq<nat>, n: nat)
    ensures Sum(s + [n]) == Sum(s) + n
  {
    if s != [] {
      assert (s + [n])[1..] == s[1..] + [n];
      SumAppend(s[1..], n);
    }
  }
}
