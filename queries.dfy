/**
 * The requests of ProtocolManager (ProtocolManager.cc): logon, the daily
 * yield query and the paginated historic query, as functions of the link,
 * the packet index before the call and the two addresses.
 */
module Queries {
  import opened Bytes
  import opened Transport
  import opened L1
  import opened L2Defs
  import opened L2
  import opened Records
  import opened Session

  /** ++packet_index on a uint16_t. */
  function NextIndex(i: Word): (r: Word)
    ensures i < 0xFFFF ==> r == i + 1
    ensures i == 0xFFFF ==> r == 0
  {
    (i + 1) % 0x1_0000
  }

  // Logon

  /**
   * The number of password bytes the encoding loop visits from position i:
   * it stops at the twelfth byte, at a zero byte, or at the end of the string.
   */
  function PasswordScan(p: seq<Byte>, i: nat): (n: nat)
    requires i <= 12 && i <= |p|
    ensures i <= n <= 12 && n <= |p|
    ensures forall k :: i <= k < n ==> p[k] != 0
    ensures n < 12 && n < |p| ==> p[n] == 0
    decreases 12 - i
  {
    if i < 12 && i < |p| && p[i] != 0 then PasswordScan(p, i + 1) else i
  }

  /** How many bytes of `p` Logon encodes. */
  function PasswordLength(p: seq<Byte>): nat
  {
    PasswordScan(p, 0)
  }

  /** The encoding of one password byte: password[i] + 0x88 stored in a uint8_t. */
  function EncodeByte(c: Byte): Byte
  {
    (c + 0x88) % 0x100
  }

  /** data_logon: the L2_data_logon template with the encoded password at offset 16. */
  function LogonPayload(p: seq<Byte>): (d: seq<Byte>)
    ensures |d| == |Defs.logonData|
  {
    var n := PasswordLength(p);
    seq(|Defs.logonData|, k requires 0 <= k < |Defs.logonData| =>
      if 16 <= k < 16 + n then EncodeByte(p[k - 16]) else Defs.logonData[k])
  }

  /**
   * The template keeps every byte outside the encoded password, and the
   * password is recovered from the payload by subtracting 0x88 modulo 256.
   */
  lemma LogonPayloadDecodes(p: seq<Byte>)
    ensures var d, n := LogonPayload(p), PasswordLength(p);
      && (forall k :: 0 <= k < |d| && !(16 <= k < 16 + n) ==> d[k] == Defs.logonData[k])
      && (forall i :: 0 <= i < n ==> (d[16 + i] as int + 0x78) % 0x100 == p[i])
  {
    var d, n := LogonPayload(p), PasswordLength(p);
    forall i | 0 <= i < n ensures (d[16 + i] as int + 0x78) % 0x100 == p[i] {
      assert d[16 + i] == EncodeByte(p[i]);
      EncodeByteDecodes(p[i]);
    }
  }

  /** Adding 0x78 modulo 256 undoes EncodeByte. */
  lemma EncodeByteDecodes(c: Byte)
    ensures (EncodeByte(c) + 0x78) % 0x100 == c
  {
    if c < 0x78 {
      assert EncodeByte(c) == c + 0x88;
    } else {
      assert EncodeByte(c) == c - 0x78;
    }
  }

  /** What Logon returns, packet_index afterwards and the link afterwards. */
  datatype LoggedOn = LoggedOn(ok: bool, index: Word, wire: Wire)

  /** The header of each logon step, as SetFields leaves it in the one L2Packet the steps share. */
  function Step1Header(index: Word): Header
  {
    WithFields(Defs.initialHeader, 0xA0, 0, 0, NextIndex(index), Defs.login1Command)
  }

  function Step2Header(prepared: Header, index: Word): Header
  {
    WithFields(prepared, 0xA0, 0x03, 0x03, NextIndex(NextIndex(index)), Defs.login2Command)
  }

  function Step3Header(prepared: Header, index: Word): Header
  {
    WithFields(prepared, 0xA0, 0x01, 0x01, NextIndex(NextIndex(NextIndex(index))), Defs.logonCommand)
  }

  /** Three increments of the 16-bit packet index. */
  function ThirdIndex(index: Word): Word
  {
    NextIndex(NextIndex(NextIndex(index)))
  }

  lemma ThirdIndexValue(index: Word)
    ensures ThirdIndex(index) == (index + 3) % 0x1_0000
  {
  }

  /**
   * Logon(password) with packet_index `index`: login_1 (its reply read and
   * ignored), login_2 (no reply) and the logon request with the encoded
   * password (its reply must arrive). Every step first advances packet_index;
   * a failed send ends the call with false.
   */
  function LogonSpec(w: Wire, index: Word, our: Mac, sma: Mac, password: seq<Byte>): (r: LoggedOn)
    ensures r.index == NextIndex(index) || r.index == NextIndex(NextIndex(index)) || r.index == ThirdIndex(index)
    ensures r.ok ==> r.index == ThirdIndex(index)
  {
    var s1 := SendL2Spec(Step1Header(index), Defs.login1Data, w, our, sma);
    if !s1.ok then LoggedOn(false, NextIndex(index), s1.wire)
    else
      var ignored := DummyRead(s1.wire, sma, NextIndex(index));
      LogonFinish(ignored.wire, s1.header, index, our, sma, password)
  }

  /** Steps 2 and 3 of Logon, after the login_1 reply was read or not; `prepared` is the header step 1 left. */
  function LogonFinish(w: Wire, prepared: Header, index: Word, our: Mac, sma: Mac, password: seq<Byte>): (r: LoggedOn)
    ensures r.index == NextIndex(NextIndex(index)) || r.index == ThirdIndex(index)
    ensures r.ok ==> r.index == ThirdIndex(index)
  {
    var s2 := SendL2Spec(Step2Header(prepared, index), Defs.login2Data, w, our, sma);
    if !s2.ok then LoggedOn(false, NextIndex(NextIndex(index)), s2.wire)
    else LogonRequest(s2.wire, s2.header, index, our, sma, password)
  }

  /** Step 3 of Logon: the logon request with the encoded password, and its reply; `prepared` is the header step 2 left. */
  function LogonRequest(w: Wire, prepared: Header, index: Word, our: Mac, sma: Mac, password: seq<Byte>): (r: LoggedOn)
    ensures r.index == ThirdIndex(index)
  {
    var s3 := SendL2Spec(Step3Header(prepared, index), LogonPayload(password), w, our, sma);
    if !s3.ok then LoggedOn(false, ThirdIndex(index), s3.wire)
    else
      var last := DummyRead(s3.wire, sma, ThirdIndex(index));
      LoggedOn(last.ok, ThirdIndex(index), last.wire)
  }

  /** The number of frames SendL2 needs for `data` behind the header `h`. */
  function FrameCountFor(h: Header, data: seq<Byte>, our: Mac, sma: Mac): nat
  {
    |Fragments(our, sma, Envelope(h[Defs.lengthAt := LengthField(|data|)], data))|
  }

  /**
   * The login_1 reply is ignored: on a silent link with room for the writes,
   * Logon still sends all three requests, and fails only at the last read.
   */
  lemma LogonIgnoresFirstReply(w: Wire, index: Word, our: Mac, sma: Mac, password: seq<Byte>)
    requires w.inbound == []
    requires var h1 := Step1Header(index)[Defs.lengthAt := LengthField(|Defs.login1Data|)];
      var h2 := Step2Header(h1, index)[Defs.lengthAt := LengthField(|Defs.login2Data|)];
      w.writesLeft >= FrameCountFor(Step1Header(index), Defs.login1Data, our, sma)
                      + FrameCountFor(Step2Header(h1, index), Defs.login2Data, our, sma)
                      + FrameCountFor(Step3Header(h2, index), LogonPayload(password), our, sma)
    ensures var r := LogonSpec(w, index, our, sma, password);
      var h1 := Step1Header(index)[Defs.lengthAt := LengthField(|Defs.login1Data|)];
      var h2 := Step2Header(h1, index)[Defs.lengthAt := LengthField(|Defs.login2Data|)];
      && !r.ok && r.index == ThirdIndex(index)
      && |r.wire.outbox| == |w.outbox| + FrameCountFor(Step1Header(index), Defs.login1Data, our, sma)
                            + FrameCountFor(Step2Header(h1, index), Defs.login2Data, our, sma)
                            + FrameCountFor(Step3Header(h2, index), LogonPayload(password), our, sma)
  {
    var s1 := SendL2Spec(Step1Header(index), Defs.login1Data, w, our, sma);
    CheckedReadSilence(Defs.initialHeader, s1.wire, sma, NextIndex(index));
    var ignored := DummyRead(s1.wire, sma, NextIndex(index));
    assert ignored.wire == s1.wire;
    LogonFinishSilent(s1.wire, s1.header, index, our, sma, password);
  }

  lemma LogonFinishSilent(w: Wire, prepared: Header, index: Word, our: Mac, sma: Mac, password: seq<Byte>)
    requires w.inbound == []
    requires var h2 := Step2Header(prepared, index)[Defs.lengthAt := LengthField(|Defs.login2Data|)];
      w.writesLeft >= FrameCountFor(Step2Header(prepared, index), Defs.login2Data, our, sma)
                      + FrameCountFor(Step3Header(h2, index), LogonPayload(password), our, sma)
    ensures var r := LogonFinish(w, prepared, index, our, sma, password);
      var h2 := Step2Header(prepared, index)[Defs.lengthAt := LengthField(|Defs.login2Data|)];
      && !r.ok && r.index == ThirdIndex(index)
      && |r.wire.outbox| == |w.outbox| + FrameCountFor(Step2Header(prepared, index), Defs.login2Data, our, sma)
                            + FrameCountFor(Step3Header(h2, index), LogonPayload(password), our, sma)
  {
    var s2 := SendL2Spec(Step2Header(prepared, index), Defs.login2Data, w, our, sma);
    var s3 := SendL2Spec(Step3Header(s2.header, index), LogonPayload(password), s2.wire, our, sma);
    CheckedReadSilence(Defs.initialHeader, s3.wire, sma, ThirdIndex(index));
  }

  // GetYieldInfo

  /** What GetYieldInfo returns and leaves in yi, and the link afterwards. */
  datatype YieldReply = YieldReply(code: int, info: YieldInfo, wire: Wire)

  /**
   * GetYieldInfo with packet_index already advanced to `index`: yi is
   * zeroed, the daily-yield request is sent (-1 when that fails), the framed
   * reply of 16-byte records is read (-3 when there is none), and every
   * record is passed through the tag switch.
   */
  function YieldQuery(w: Wire, index: Word, our: Mac, sma: Mac): (r: YieldReply)
    ensures r.code == 0 || r.code == ErrSendingCommand || r.code == ErrInterpretingReply
    ensures r.code != 0 ==> r.info == NoYield
    ensures r.code == 0 ==> Weight(r.wire.inbound) < Weight(w.inbound)
  {
    var h := WithFields(Defs.initialHeader, 0xA0, 0x00, 0x00, index, Defs.dailyYieldCommand);
    var s := SendL2Spec(h, Defs.dailyYieldData, w, our, sma);
    if !s.ok then YieldReply(ErrSendingCommand, NoYield, s.wire)
    else
      var f := FramedRead(s.header, s.wire, sma, index, ValueInfoSize);
      if f.data.None? then YieldReply(ErrInterpretingReply, NoYield, f.wire)
      else
        var d := f.data.value;
        YieldReply(0, Yields(d, FrameCount(d)), f.wire)
  }

  /** The tag switch over n records reads bytes before offset 8 + 16 n only. */
  lemma {:induction false} YieldsOfPrefix(d: seq<Byte>, e: seq<Byte>, n: nat)
    requires RecordAt(n, ValueInfoSize) <= |d| <= |e| && d == e[..|d|]
    ensures Yields(d, n) == Yields(e, n)
  {
    if n > 0 {
      YieldsOfPrefix(d, e, n - 1);
      MulMonotone(n - 1, n, ValueInfoSize);
      var at := RecordAt(n - 1, ValueInfoSize);
      assert d[at + 1] == e[at + 1] && d[at + 2] == e[at + 2];
      assert d[at + 4..at + 8] == e[at + 4..at + 8];
      assert d[at + 8..at + 12] == e[at + 8..at + 12];
      assert forall k :: at + 4 <= k < at + 12 ==> d[k] == e[k];
    }
  }

  /**
   * End to end: when the request goes out and the inverter answers with a
   * well-formed framed reply of 16-byte records under the expected index,
   * GetYieldInfo returns 0 and the tag switch applied to the reply's records.
   */
  lemma YieldQueryReads(w: Wire, index: Word, our: Mac, sma: Mac, sent: Header, reply: seq<Byte>, rest: seq<seq<Byte>>)
    requires w.writesLeft >= FrameCountFor(WithFields(Defs.initialHeader, 0xA0, 0x00, 0x00, index, Defs.dailyYieldCommand), Defs.dailyYieldData, our, sma)
    requires Recoverable(sent, reply) && IndexOf(sent) == index
    requires Framed(reply, |reply|, ValueInfoSize)
    requires w.inbound == Deliveries(Fragments(sma, our, Envelope(sent, reply))) + rest
    ensures var r := YieldQuery(w, index, our, sma);
      r.code == 0 && r.info == Yields(reply, FrameCount(reply)) && r.wire.inbound == rest
  {
    var h := WithFields(Defs.initialHeader, 0xA0, 0x00, 0x00, index, Defs.dailyYieldCommand);
    SendL2Writes(h, Defs.dailyYieldData, w, our, sma);
    var s := SendL2Spec(h, Defs.dailyYieldData, w, our, sma);
    FragmentsJoin(our, sma, Envelope(s.header, Defs.dailyYieldData));
    FramedReadEnvelope(s.header, s.wire, sma, our, sent, reply, rest, ValueInfoSize);
    var buffer := FramedRead(s.header, s.wire, sma, index, ValueInfoSize).data.value;
    FrameCountOfPrefix(reply, buffer);
    YieldsOfPrefix(reply, buffer, FrameCount(reply));
  }

  // GetHistoricYield

  /**
   * L2_data_historic_yield, taken to be timestamp_from then timestamp_to,
   * each a little-endian uint32_t.
   */
  function HistoricRequest(from: nat, to: nat): (d: seq<Byte>)
    requires from < TwoTo32 && to < TwoTo32
    ensures |d| == 8
  {
    Le32(from) + Le32(to)
  }

  /**
   * What GetHistoricYield returns, the records hi holds, the number of
   * records each page brought, the L2 header and the link afterwards.
   */
  datatype History = History(code: int, records: seq<HistoricItem>, pages: seq<nat>, header: Header, wire: Wire)

  /**
   * The page loop of GetHistoricYield with `records` held so far: read a
   * framed reply of 12-byte records and go on with it.
   */
  function HistoricPages(h: Header, w: Wire, sma: Mac, index: Word, records: seq<HistoricItem>, pages: seq<nat>): (r: History)
    ensures records <= r.records && pages <= r.pages
    ensures r.code == 0 || r.code == ErrInterpretingReply
    ensures r.code == 0 ==> |r.pages| > |pages| && (TelegramOf(r.header) == 0 || |r.records| >= MaxRecords)
    ensures r.wire.outbox == w.outbox && r.wire.writesLeft == w.writesLeft
    decreases Weight(w.inbound), 1
  {
    HistoricNext(FramedRead(h, w, sma, index, HistoricInfoSize), Weight(w.inbound), sma, index, records, pages)
  }

  /**
   * One page of the loop, given the framed reply f (read from a link of
   * weight below `bound`): -3 when there is none, keeping what was held;
   * otherwise append its records in order, and go on unless its telegram
   * number is 0 or at least PM_MAX_RECORDS records are held.
   */
  function HistoricNext(f: Checked, bound: nat, sma: Mac, index: Word, records: seq<HistoricItem>, pages: seq<nat>): (r: History)
    requires f.data.Some? ==> 0 <= f.length <= |f.data.value| && Framed(f.data.value, f.length, HistoricInfoSize)
    requires f.data.Some? ==> Weight(f.wire.inbound) < bound
    ensures records <= r.records && pages <= r.pages
    ensures r.code == 0 || r.code == ErrInterpretingReply
    ensures r.code == 0 ==> |r.pages| > |pages| && (TelegramOf(r.header) == 0 || |r.records| >= MaxRecords)
    ensures r.wire.outbox == f.wire.outbox && r.wire.writesLeft == f.wire.writesLeft
    decreases bound, 0
  {
    if f.data.None? then History(ErrInterpretingReply, records, pages, f.header, f.wire)
    else
      var d := f.data.value;
      var n := FrameCount(d);
      var more := records + Page(d, n);
      if TelegramOf(f.header) == 0 || |more| >= MaxRecords then History(0, more, pages + [n], f.header, f.wire)
      else HistoricPages(f.header, f.wire, sma, index, more, pages + [n])
  }

  /**
   * GetHistoricYield(from, to, hi, daily) with packet_index already advanced
   * to `index`: send the request for daily or five-minute values (-1 when
   * that fails), then read pages from an empty record list.
   */
  function HistoricQuery(w: Wire, index: Word, our: Mac, sma: Mac, from: nat, to: nat, daily: bool): (r: History)
    requires from < TwoTo32 && to < TwoTo32
    ensures r.code == 0 || r.code == ErrSendingCommand || r.code == ErrInterpretingReply
    ensures r.code == ErrSendingCommand ==> r.records == [] && r.pages == []
  {
    var command := if daily then Defs.historicDailyCommand else Defs.historic5Command;
    var h := WithFields(Defs.initialHeader, 0xA0, 0x00, 0x00, index, command);
    var s := SendL2Spec(h, HistoricRequest(from, to), w, our, sma);
    if !s.ok then History(ErrSendingCommand, [], [], s.header, s.wire)
    else HistoricPages(s.header, s.wire, sma, index, [], [])
  }

  /** NoRecords is the sum of the page sizes: every page's records are appended, none dropped. */
  lemma {:induction false} HistoricCount(h: Header, w: Wire, sma: Mac, index: Word, records: seq<HistoricItem>, pages: seq<nat>)
    requires |records| == Sum(pages)
    ensures var r := HistoricPages(h, w, sma, index, records, pages);
      |r.records| == Sum(r.pages)
    decreases Weight(w.inbound), 1
  {
    HistoricNextCount(FramedRead(h, w, sma, index, HistoricInfoSize), Weight(w.inbound), sma, index, records, pages);
  }

  lemma {:induction false} HistoricNextCount(f: Checked, bound: nat, sma: Mac, index: Word, records: seq<HistoricItem>, pages: seq<nat>)
    requires f.data.Some? ==> 0 <= f.length <= |f.data.value| && Framed(f.data.value, f.length, HistoricInfoSize)
    requires f.data.Some? ==> Weight(f.wire.inbound) < bound
    requires |records| == Sum(pages)
    ensures var r := HistoricNext(f, bound, sma, index, records, pages);
      |r.records| == Sum(r.pages)
    decreases bound, 0
  {
    if f.data.Some? {
      var d := f.data.value;
      var n := FrameCount(d);
      SumAppend(pages, n);
      if !(TelegramOf(f.header) == 0 || |records + Page(d, n)| >= MaxRecords) {
        HistoricCount(f.header, f.wire, sma, index, records + Page(d, n), pages + [n]);
      }
    }
  }

  /**
   * The records of r exceed PM_MAX_RECORDS by less than the size of its last
   * page, when it read a page beyond `pages`.
   */
  predicate WithinOnePage(r: History, pages: seq<nat>)
  {
    |r.records| < MaxRecords + (if |r.pages| > |pages| then r.pages[|r.pages| - 1] else 0)
  }

  lemma OvershootStep(pages: seq<nat>, n: nat, r: History)
    requires pages + [n] <= r.pages && WithinOnePage(r, pages + [n])
    ensures WithinOnePage(r, pages)
  {
  }

  /**
   * The cap is checked after a page is appended, so the count passes
   * PM_MAX_RECORDS by less than the size of the last page.
   */
  lemma {:induction false} HistoricOvershoot(h: Header, w: Wire, sma: Mac, index: Word, records: seq<HistoricItem>, pages: seq<nat>)
    requires |records| < MaxRecords
    ensures WithinOnePage(HistoricPages(h, w, sma, index, records, pages), pages)
    decreases Weight(w.inbound), 1
  {
    HistoricNextOvershoot(FramedRead(h, w, sma, index, HistoricInfoSize), Weight(w.inbound), sma, index, records, pages);
  }

  lemma {:induction false} HistoricNextOvershoot(f: Checked, bound: nat, sma: Mac, index: Word, records: seq<HistoricItem>, pages: seq<nat>)
    requires f.data.Some? ==> 0 <= f.length <= |f.data.value| && Framed(f.data.value, f.length, HistoricInfoSize)
    requires f.data.Some? ==> Weight(f.wire.inbound) < bound
    requires |records| < MaxRecords
    ensures WithinOnePage(HistoricNext(f, bound, sma, index, records, pages), pages)
    decreases bound, 0
  {
    if f.data.Some? {
      var d := f.data.value;
      var n := FrameCount(d);
      var more := records + Page(d, n);
      if !(TelegramOf(f.header) == 0 || |more| >= MaxRecords) {
        HistoricOvershoot(f.header, f.wire, sma, index, more, pages + [n]);
        OvershootStep(pages, n, HistoricPages(f.header, f.wire, sma, index, more, pages + [n]));
      }
    }
  }
}
