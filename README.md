# SMA Bluetooth inverter protocol stack in Dafny

This project models the protocol stack used to read an SMA solar inverter over a
Bluetooth RFCOMM link, and proves properties of the model. The stack has three
layers.

- **L1** (`L1Packet`, L1.h and L1.cc) is the link-layer frame. It has an
  18-byte header: identity byte 0x7E, total length, an unknown byte, a
  one-byte XOR check of the first three bytes, source and destination
  Bluetooth addresses, and a little-endian 16-bit command. The header is
  followed by at most 73 payload bytes when sending.
- **L2** (`L2Packet`, L2.cc) is the session-layer envelope. It has a packed
  header with a fixed preamble, control bytes, a 16-bit packet index, a
  telegram number and a command, followed by a payload. The header (minus its
  first byte) and the payload are PPP-style byte-stuffed: 0x7D escapes, XOR
  0x20. The whole is closed by the RFC 1662 16-bit frame check sequence
  (FCS) and a 0x7E flag.
- **ProtocolManager** (ProtocolManager.h and ProtocolManager.cc) is the
  session. It covers:
  - the connect handshake (login ping, echo, Login_3 carrying our own
    address);
  - splitting an envelope into L1 frames and reassembling received frames;
  - reading replies filtered by packet index;
  - the three-step logon with the obfuscated password;
  - the daily-yield query and the paged historic-yield query.

## Module layout

- `Wrappers`: `Option`.
- `Bytes`: bytes (`Byte`, `Word`), XOR, little-endian 16- and 32-bit
  fields, and in-place overwrite (`Put`) of byte sequences.
- `Transport`: the RFCOMM socket as a `Link` object over a `Wire` value. The
  wire holds a queue of pending inbound deliveries (each `read` returns at
  most one of them, possibly in part), the outbox of written buffers, and a
  count of writes that will still succeed.
- `L1`: the image of the packed `L1Packet` struct as a value, a
  function per header accessor and mutator, the `Read` and `Send`
  specifications, and the `L1Packet` class over an `array<Byte>`.
- `Ppp`: escaping, unescaping and the FCS, together with their laws.
- `L2Defs`: the parts of L2.h the code relies on (header layout, preamble,
  command codes, request templates and error codes). L2.h is not part of
  this model, so these are an abstract constant `Defs` constrained only by
  the facts the code relies on (`Valid`).
- `L2`: envelope encoding and decoding as functions, and the `L2Packet`
  class over an `array<Byte>` header whose methods are proved against them.
- `Records`: the reply records (`_FrameInfo`, `_ValueInfo`,
  `_HistoricYieldInfo`) and how they are interpreted.
- `Session`: the connect handshake, fragmentation, reassembly and the
  index-checked reads, as functions over the wire.
- `Queries`: logon and the two queries as functions over the wire.
- `Manager`: the `ProtocolManager` class. Each of its methods is proved
  equal to the `Session` or `Queries` function that describes it.

## Notes on the source

- The login-ping loop of `Connect` (ProtocolManager.cc:34-39) makes up to
  three reads. It returns 1 only when `attempt == 2`, which is tested after
  the third failed read (`Session.ConnectGivesUp`,
  `Session.ConnectThirdAttempt`).
- PreparePacket appends the two FCS bytes unescaped (L2.cc:68-70), while
  ReadPacket unescapes everything after the first byte, FCS included
  (L2.cc:27). An envelope whose first FCS byte is 0x7D therefore does not
  decode to its own data (`L2.EscapedFcsIsMisread`), and `L2.Recoverable`
  is the precondition of the round trip.
- The comment on `Connect` (ProtocolManager.cc:21) says it returns 0 on
  failure, but the code returns 0 on success (ProtocolManager.cc:56). The
  model follows the code.

## Model

| member | source | states |
|---|---|---|
| Bytes.Le16RoundTrip | L1.cc:39-42 | storing a 16-bit value low byte first (htobs) and reading it back (btohs) gives the value |
| Bytes.FromLe16RoundTrip | L1.h:133-136 | reading two bytes as a little-endian word and storing it again gives the same two bytes |
| Bytes.XorLeftChanges | L1.h:139-142 | changing one operand of the XOR check changes the check |
| Transport.Link.Read | L1.cc:14-29 | read(s, buf, n) takes at most n bytes from the head of the next delivery and leaves the rest queued |
| Transport.Link.Write | L1.cc:50 | write either sends the whole buffer and reports its length, or fails with -1 and changes nothing |
| L1.CheckSourceOf | L1.h:116-119 | CheckSource is true exactly when all six source address bytes equal the given address |
| L1.CheckDestinationOf | L1.h:128-131 | CheckDestination is true exactly when all six destination address bytes equal the given address |
| L1.CheckSumCoversHeaderOnly | L1.h:139-142 | the check byte depends only on the identity, length and unknown bytes |
| L1.SetCheckSumValidates | L1.h:145-154 | after SetCheckSum, CheckCheckSum holds and every other byte is unchanged |
| L1.SingleByteChangeDetected | L1.h:151-154 | changing any one of the first four header bytes of a valid frame makes CheckCheckSum fail |
| L1.WithHeaderFields | L1.cc:36-43 | SetHeader sets identity 0x7E, unknown 0, source, destination and command (read back little-endian), and keeps length, check byte and payload |
| L1.WithDataFields | L1.h:157-161 | SetData makes the length field 18 + n, so DataLength() is n and Data() returns the data; identity, the rest of the header and the bytes after the data are unchanged |
| L1.LengthByteValue | L1.h:160 | the uint8 length field is exactly 18 + n for every payload of at most 237 bytes, where 18 + n does not wrap |
| L1.MaxDataLengthFits | L1.h:23-24 | a payload of at most L1_MaxDataLength bytes gives a frame of at most 91 bytes |
| L1.FrameBytes | L1.cc:46-51 | the bytes Send writes for a frame are 18 header bytes plus the payload |
| L1.SendWritesFrame | L1.cc:46-51 | Send writes a frame whose check byte is valid, whose length field counts header plus payload, and whose bytes are exactly the header fields and the data |
| L1.ReadSpec | L1.cc:11-33 | a successful Read consumes input and leaves DataLength() between 0 and 237 (with the corrected length check); Read never writes |
| L1.ReadAcceptedFrame | L1.cc:14-29 | Read succeeds only when all 18 header bytes arrive with a valid check byte and, when length exceeds 18, all length - 18 payload bytes follow; the struct then holds exactly those bytes and DataLength() is between 0 and 237 |
| L1.ReadRejectsBadHeader | L1.cc:14-18 | fewer than 18 header bytes or a bad check byte fails Read without reading a payload |
| L1.ReadFrameBytes | L1.cc:11-33 | a complete frame on the wire is read back with its unknown byte, addresses, command and payload, and is consumed |
| L1.SendReadRoundTrip | L1.cc:11-51 | what Send writes, Read returns: same addresses, command and payload |
| L1.ShortLengthAcceptedAsWritten | L1.cc:14-21 | as written, an 18-byte header with length byte 5 and a matching check byte passes the header check, no payload is read and DataLength() is -13; the corrected Read rejects it |
| L1.HoldsPayload | L1.h:91-107 | an image holding a frame reports that frame's payload through DataLength() and Data() |
| L1.L1Packet.constructor | L1.h:71-73 | a new packet holds the 18 + 256-byte struct, modelled as zeros |
| L1.L1Packet.SetHeader | L1.cc:36-43 | the packet becomes the header update of its old contents |
| L1.L1Packet.SetData | L1.h:157-161 | the packet becomes its old contents with the data and length set |
| L1.L1Packet.SetCheckSum | L1.h:145-148 | the packet becomes its old contents with the check byte set |
| L1.L1Packet.Send | L1.cc:46-51 | the packet gets the data and check byte; one write of length() bytes; true exactly when the write count equals the length |
| L1.L1Packet.ReadHeader | L1.cc:14-18 | the first recv of 18 bytes and the header checks (with the corrected length check), equal to their specification |
| L1.L1Packet.Read | L1.cc:11-33 | the effect on packet and wire equals ReadSpec (with the corrected length check) |
| Ppp.FlipTwice | L2.cc:117 | XOR 0x20 applied twice is the identity, so unescaping undoes escaping byte by byte |
| Ppp.ControlFlip | L2.cc:134-137 | every control byte escapes to a byte that unescapes back to it |
| Ppp.FlipBit5 | L2.cc:117 | Flip adds 0x20 when bit 5 of the byte is clear and subtracts 0x20 when it is set |
| Ppp.FlipIsXor | L2.cc:137 | Flip equals the byte XOR with 0x20 for every byte, so escaping and unescaping use the same ^ 0x20 |
| Ppp.EscapeAppend | L2.cc:129-145 | escaping a concatenation is the concatenation of the escapes |
| Ppp.EscapeLength | L2.cc:129-145 | escaping adds one byte per control byte, so it at most doubles the length |
| Ppp.EscapeIsClean | L2.cc:134-142 | escaped output holds no 0x7E, 0x11, 0x12 or 0x13, and every 0x7D in it is followed by an escaped control byte |
| Ppp.UnescapeEscape | L2.cc:107-126 | unescaping escaped bytes followed by anything returns the bytes, then the unescape of the rest |
| Ppp.EscapeRoundTrip | L2.cc:107-145 | UnescapeData inverts EscapeData for every byte sequence |
| Ppp.UnescapeLength | L2.cc:107-126 | unescaping never lengthens and at most halves |
| Ppp.UnescapePlain | L2.cc:107-126 | a sequence without 0x7D unescapes to itself |
| Ppp.UnescapingIsUnescape | L2.cc:111-124 | the state of the unescape loop after position i is the output so far plus the unescape of the rest |
| Ppp.StepCases | L2.cc:82-103 | one bit of the CRC shifts right and XORs with the reversed polynomial 0x8408 when the low bit is set |
| Ppp.UpdateIsBitwise | L2.cc:92 | the table-driven update fcstab[(fcs ^ c) & 0xff] ^ (fcs >> 8) equals eight bitwise CRC steps |
| Ppp.RunAppend | L2.cc:88-99 | the FCS over the header followed by the payload is one run over their concatenation |
| Ppp.RunIsWide | L2.cc:92-98 | the byte-wise and word-wise views of the FCS loop agree |
| Ppp.CheckValue | L2.cc:82-103 | the FCS of the ASCII string "123456789" is 0x906E, the published check value of this CRC (CRC-16/X-25) |
| L2.BytesReadBack | ProtocolManager.cc:139 | SetFields stores its three byte arguments at their fields |
| L2.IndexReadBack | ProtocolManager.cc:139 | after SetFields, PacketIndex() returns the index it was given |
| L2.CommandReadBack | ProtocolManager.cc:139 | after SetFields, the command field holds the given command |
| L2.LengthKeepsIndex | L2.cc:60 | setting the length field in PreparePacket does not change the packet index |
| L2.FcsBytes | L2.cc:68-70 | the two FCS bytes are the low then the high byte of the FCS over header[1..] and the data |
| L2.EnvelopeShape | L2.cc:55-80 | the envelope is the first header byte, the escaped rest of the header, the escaped data, the two raw FCS bytes and 0x7E, with its length counted accordingly |
| L2.UnescapeEnvelope | L2.cc:27 | when neither FCS byte is 0x7D, unescaping everything after the first byte gives the raw header, the data, the FCS and the flag |
| L2.Unpack | L2.cc:14-51 | ReadPacket succeeds only on a buffer framed by 0x7E; on success it has the preamble and returns the unescaped length less header and trailer; otherwise it returns one of the two error codes (with the corrected length check) |
| L2.Unescaped | L2.cc:27 | after the in-place unescape, the buffer holds the first byte, then the unescaped rest, then the unchanged tail |
| L2.Check | L2.cc:29-50 | after unescaping, success means the preamble matched and the payload length is n - header - 3; any failure is one of the two error codes; an unescaped buffer shorter than header plus 3 is rejected (the corrected length check) |
| L2.UnpackAccepts | L2.cc:14-51 | a flag-framed buffer whose unescape is a valid header, data, matching FCS and flag decodes to that header and data |
| L2.EnvelopeRoundTrip | L2.cc:14-80 | ReadPacket of the envelope PreparePacket builds returns the header and the data, whenever neither FCS byte is 0x7D |
| L2.UnescapeEscapedTrailer | L2.cc:27-29 | when the first FCS byte is 0x7D, unescaping eats one byte of the trailer |
| L2.EscapedFcsIsMisread | L2.cc:27-29 | when the first FCS byte is 0x7D, ReadPacket of the matching envelope does not return the data length |
| L2.UnpackBadPreamble | L2.cc:31-36 | a header without the preamble is rejected with the invalid-packet code after copying it in |
| L2.UnpackShort | L2.cc:38-40 | the corrected length check rejects an unescaped buffer shorter than header plus FCS and flag |
| L2.UnpackFcs | L2.cc:41-50 | when the FCS does not match, ReadPacket returns the checksum error; otherwise it returns the payload length with the payload moved to the front |
| L2.HeaderOnlyOverrunsAsWritten | L2.cc:38-40 | as written, a buffer holding only flag, header and flag makes data_length -2, which becomes a memmove of 2^64 - 2 bytes |
| L2.BareHeaderOverrunsAsWritten | L2.cc:38-40 | as written, every accepted flag-header-flag buffer gives that memmove length |
| L2.L2Packet.constructor | ProtocolManager.cc:134 | a new L2Packet holds the default header |
| L2.L2Packet.SetFields | ProtocolManager.cc:139 | the header becomes the field update of its old contents |
| L2.L2Packet.EscapeData | L2.cc:129-145 | the destination is extended by the escape of the source |
| L2.L2Packet.UnescapeData | L2.cc:107-126 | the slice is unescaped in place; its new length is returned; the bytes before it and after the written part are unchanged |
| L2.L2Packet.CheckSum | L2.cc:83-103 | returns the FCS of header[1..] followed by the data |
| L2.L2Packet.PreparePacket | L2.cc:55-80 | sets the length field and returns the envelope of the new header and the data |
| L2.L2Packet.CopyHeader | L2.cc:31 | the header becomes the first sizeof(L2PacketHeader) bytes of the buffer |
| L2.L2Packet.MemMove | L2.cc:40 | the payload is moved to the front of the buffer; the rest is unchanged |
| L2.L2Packet.UnescapeInPlace | L2.cc:27 | the buffer becomes its unescaped form; the returned count is the unescaped length |
| L2.L2Packet.CheckUnescaped | L2.cc:29-50 | header, return code and buffer equal the Check specification (with the corrected length check) |
| L2.L2Packet.ReadFramed | L2.cc:22-50 | on a flag-framed buffer, the new header, return code and buffer equal Unpack |
| L2.L2Packet.ReadPacket | L2.cc:14-51 | a null buffer gives the invalid-packet code; otherwise the new header, return code and buffer equal Unpack of the old ones (with the corrected length check) |
| Records.FrameCount | ProtocolManager.h:176 | the frame count is a uint32 and equals end - start + 1 when that does not wrap |
| Records.FramedRecordsInside | ProtocolManager.h:174-182 | under the corrected size check, every announced record lies inside the reply |
| Records.FramedIsAcceptedAsWritten | ProtocolManager.h:174-182 | every reply that fits in a C int and passes the corrected check also passes the check as written |
| Records.FrameInfo | ProtocolManager.h:39-43 | a _FrameInfo is 8 bytes |
| Records.HistoricWrapAcceptedAsWritten | ProtocolManager.h:174-182 | as written, an 8-byte reply announcing 2^30 historic frames passes the size check (the uint32 product wraps to 0); the corrected check rejects it |
| Records.YieldWrapAcceptedAsWritten | ProtocolManager.h:174-182 | the same for 2^28 yield frames of 16 bytes |
| Records.LastTagWins | ProtocolManager.cc:213-224 | the last record with a given tag decides its YieldInfo field (and the time stamp for 0x2622) |
| Records.UntaggedStaysZero | ProtocolManager.cc:196-224 | a field whose tag no record carries stays at the memset zero |
| Records.Page | ProtocolManager.cc:263-271 | one historic reply yields exactly one item per announced frame |
| Session.WaitFor | ProtocolManager.cc:306-311 | WaitForPacket succeeds only with a frame of the command from the sender, and never writes |
| Session.WaitForFrames | ProtocolManager.cc:305-311 | after readable frames with another command or sender, the first frame with the command from the sender is returned with its command, source and payload, and the input after it stays unread |
| Session.WaitForFails | ProtocolManager.cc:305-311 | after frames that are not awaited, a failed read (a delivery shorter than a header) makes WaitForPacket return false, consuming input only up to that delivery |
| Session.AwaitPing | ProtocolManager.cc:33-40 | the ping loop succeeds only with a login ping from the inverter, and never writes |
| Session.ConnectSpec | ProtocolManager.cc:22-58 | Connect after a successful BTConnect returns 0, 1, 2 or 3 |
| Session.ConnectReply | ProtocolManager.cc:41-56 | after the ping, Connect returns 0, 2 or 3 |
| Session.ConnectHandshake | ProtocolManager.cc:33-56 | a ping then a Login_3 from the inverter give 0 and our address from Login_3; exactly the echo of the ping, sent from the zero address, is written |
| Session.EchoFrame | ProtocolManager.cc:42-43 | the echo is a frame from the zero address to the inverter carrying the ping's own payload |
| Session.ShortDeliveryFails | L1.cc:14-17 | a delivery shorter than a header fails Read and is consumed |
| Session.AwaitPingSkips | ProtocolManager.cc:34-39 | a failed read before the third attempt moves on to the next attempt |
| Session.AwaitPingGivesUp | ProtocolManager.cc:36-38 | a failed third attempt ends the wait |
| Session.AwaitPingTakes | ProtocolManager.cc:34 | a login ping from the inverter is taken on any attempt |
| Session.ConnectGivesUp | ProtocolManager.cc:34-39 | three unreadable deliveries make Connect return 1 without writing |
| Session.ConnectThirdAttempt | ProtocolManager.cc:34-40 | a ping arriving after two unreadable deliveries is still accepted |
| Session.Fragments | ProtocolManager.cc:326-337 | every fragment fits an L1 frame |
| Session.FragmentsStep | ProtocolManager.cc:328-336 | one fragment carries the next min(73, remaining) bytes; it is L2Packet exactly when nothing remains, otherwise L2PacketPart |
| Session.FragmentsJoin | ProtocolManager.cc:326-337 | the fragments' payloads concatenate to the envelope; there are ceil(n/73) of them, all but the last full and L2PacketPart, the last L2Packet |
| Session.WriteFrames | ProtocolManager.cc:326-338 | writing the fragments succeeds exactly when enough writes succeed; on failure the frames written so far stay written |
| Session.SendL2Writes | ProtocolManager.cc:320-339 | SendL2 sets the length field, succeeds exactly when every fragment is written, and then the outbox gains the fragments of the envelope in order |
| Session.Reassemble | ProtocolManager.cc:92-128 | a successful ReadL2Packet consumes input and extends what was gathered; it never writes |
| Session.ReadFrame | ProtocolManager.cc:102-107 | a frame is kept exactly when it is an L2Packet or L2PacketPart from the inverter, and its payload is what is appended |
| Session.ReassembleFrames | ProtocolManager.cc:92-128 | frames ending in a final fragment reassemble to the payloads of the inverter's L2 frames in order, skipping foreign frames |
| Session.ReassembleIncomplete | ProtocolManager.cc:109-117 | input without a final fragment gives no packet and is consumed |
| Session.FragmentsComplete | ProtocolManager.cc:324-337 | the fragments of a non-empty envelope end with a final fragment and join to the envelope |
| Session.FragmentsReassemble | ProtocolManager.cc:92-128 | what SendL2 splits, ReadL2Packet reassembles unchanged |
| Session.CheckedRead | ProtocolManager.h:104-133 | ReadAndCheck returns data only with the expected packet index and the preamble; otherwise it returns one of the two L2 error codes |
| Session.CheckedReadEnvelope | ProtocolManager.h:104-133 | an envelope with the expected index, received in fragments, is returned with its header and data |
| Session.CheckedReadSkips | ProtocolManager.h:108-130 | an envelope with another index is skipped and reading continues |
| Session.CheckedReadSilence | ProtocolManager.h:110-117 | with nothing pending, ReadAndCheck reports an invalid packet and keeps the header |
| Session.CheckedReadStops | ProtocolManager.h:110-117 | when the reassembled packet fails ReadPacket, ReadAndCheck returns NULL with that error code and the decoded header, and reads nothing after the packet's frames |
| Session.CheckedReadFailsOnce | ProtocolManager.h:110-117 | the same for a packet the inverter sent in fragments: NULL with the Unpack error, the link just past the packet, whatever follows |
| Session.DummyRead | ProtocolManager.h:136-150 | DummyL2Read only reads |
| Session.FramedRead | ProtocolManager.h:152-185 | GetFramedReply returns data only with the expected index and exactly one record per announced frame after the _FrameInfo (with the corrected size check) |
| Session.FramedReadEnvelope | ProtocolManager.h:152-185 | a correctly framed reply with the expected index is returned unchanged |
| Queries.NextIndex | ProtocolManager.cc:139 | ++packet_index on a uint16 adds one and wraps 0xFFFF to 0 |
| Queries.ThirdIndexValue | ProtocolManager.cc:139-172 | the logon telegram goes out with the index three past the one before Logon, modulo 2^16 |
| Queries.PasswordScan | ProtocolManager.cc:166 | the password length stops at the first zero byte, at 12 bytes, or at the end |
| Queries.LogonPayload | ProtocolManager.cc:165-169 | the logon payload has the size of the login template |
| Queries.LogonPayloadDecodes | ProtocolManager.cc:165-169 | the payload equals the template outside bytes 16 to 16+len, and each of those bytes decodes (+0x78) to the password byte |
| Queries.EncodeByteDecodes | ProtocolManager.cc:168 | adding 0x88 modulo 256 is undone by adding 0x78 |
| Queries.LogonSpec | ProtocolManager.cc:132-183 | Logon advances the index once per telegram sent, and succeeds only after the third |
| Queries.LogonFinish | ProtocolManager.cc:154-182 | steps two and three of Logon advance the index to three past the start when they succeed |
| Queries.LogonRequest | ProtocolManager.cc:171-182 | the logon telegram is sent with the third index |
| Queries.LogonIgnoresFirstReply | ProtocolManager.cc:144-153 | Logon goes on to step 2 and step 3 even when the step 1 reply never comes, and then fails |
| Queries.LogonFinishSilent | ProtocolManager.cc:154-182 | with no acknowledgement, step 3 is still sent and Logon fails |
| Queries.YieldQuery | ProtocolManager.cc:190-229 | GetYieldInfo returns 0, -1 or -3; on error the YieldInfo stays zero; success consumes input |
| Queries.YieldQueryReads | ProtocolManager.cc:190-229 | a correctly framed reply with the right index gives 0 and the YieldInfo its records define |
| Queries.HistoricRequest | ProtocolManager.cc:242-245 | the request carries the two time stamps in 8 bytes |
| Queries.HistoricPages | ProtocolManager.cc:254-275 | the paging loop only adds records; it ends with 0 after at least one page on telegram 0 or PM_MAX_RECORDS records, or with -3 |
| Queries.HistoricNext | ProtocolManager.cc:257-275 | one page: no reply gives -3 with the records so far, otherwise the page is appended and the loop condition decides |
| Queries.HistoricQuery | ProtocolManager.cc:234-278 | GetHistoricYield returns 0, -1 or -3, and -1 with no records |
| Queries.HistoricCount | ProtocolManager.cc:262-273 | the number of records is the sum of the page sizes |
| Queries.HistoricNextCount | ProtocolManager.cc:262-273 | one page adds exactly its frame count to the records |
| Queries.HistoricOvershoot | ProtocolManager.cc:275 | the loop stops within one page of PM_MAX_RECORDS: before the last page fewer than that many were held |
| Queries.HistoricNextOvershoot | ProtocolManager.cc:275 | the same from one page |
| Manager.ProtocolManager.constructor | ProtocolManager.cc:9-14 | packet_index starts at 0 and the addresses at zero |
| Manager.ProtocolManager.WaitForPacket | ProtocolManager.cc:306-311 | packet and wire after the loop equal WaitFor |
| Manager.ProtocolManager.AwaitLoginPing | ProtocolManager.cc:33-40 | packet and wire after the ping loop equal AwaitPing |
| Manager.ProtocolManager.Connect | ProtocolManager.cc:22-58 | records the inverter address; a failed connect is returned unchanged; otherwise status, our address and wire equal ConnectSpec |
| Manager.ProtocolManager.AnswerPing | ProtocolManager.cc:41-56 | the echo and the Login_3 wait equal ConnectReply |
| Manager.ProtocolManager.ReadL2Packet | ProtocolManager.cc:92-128 | returns null exactly when Reassemble finds no final fragment; otherwise a new buffer holding the reassembled bytes and its length |
| Manager.ProtocolManager.ReadPart | ProtocolManager.cc:100-107 | one pass of the outer loop: the skip loop's result, stated against Reassemble |
| Manager.ProtocolManager.NewBuffer | ProtocolManager.cc:119-123 | a new buffer holding the gathered bytes |
| Manager.ProtocolManager.ReadAndCheck | ProtocolManager.h:104-133 | data, length, header and wire equal CheckedRead with the current packet index |
| Manager.ProtocolManager.ReadDecoded | ProtocolManager.h:109-117 | one reassembled packet decoded by ReadPacket, or the invalid-packet code when none arrives |
| Manager.ProtocolManager.DummyL2Read | ProtocolManager.h:136-150 | the result and the wire equal DummyRead |
| Manager.ProtocolManager.GetFramedReply | ProtocolManager.h:152-185 | data, length, header and wire equal FramedRead |
| Manager.ProtocolManager.SendL2 | ProtocolManager.cc:320-339 | the result, header and wire equal SendL2Spec |
| Manager.ProtocolManager.SendFragment | ProtocolManager.cc:328-336 | one pass writes the next fragment of the envelope |
| Manager.ProtocolManager.EncodePassword | ProtocolManager.cc:165-169 | the buffer holds the logon payload for the password |
| Manager.ProtocolManager.Logon | ProtocolManager.cc:132-183 | result, packet index and wire equal LogonSpec; the addresses are unchanged |
| Manager.ProtocolManager.FinishLogon | ProtocolManager.cc:154-182 | the rest of Logon after step 1 equals LogonFinish |
| Manager.ProtocolManager.LogonRequestStep | ProtocolManager.cc:163-182 | step 3 equals LogonRequest |
| Manager.ProtocolManager.GetYieldInfo | ProtocolManager.cc:190-229 | advances the index once; code, YieldInfo and wire equal YieldQuery |
| Manager.ProtocolManager.ApplyValues | ProtocolManager.cc:210-224 | the switch loop over the records gives Yields |
| Manager.ProtocolManager.GetHistoricYield | ProtocolManager.cc:234-278 | advances the index once; code, records and wire equal HistoricQuery |
| Manager.ProtocolManager.ReadHistoricPages | ProtocolManager.cc:253-275 | the do-loop equals HistoricPages |
| Manager.ProtocolManager.AppendPage | ProtocolManager.cc:262-271 | the records gain the page's items in order |

## Left out

- L2.h is not part of this model. Its header layout, preamble, command codes,
  request templates and error codes are the abstract constant `Defs`, known
  only through `Valid`. The FCS table `fcstab` is generated from the
  polynomial instead.
- The historic request layout is assumed to be `timestamp_from` then
  `timestamp_to`, each a little-endian 32-bit value, because L2.h's definitions are kept abstract.
- BTConnect, with its socket, bind and timeout setup, is not modelled. Its
  result is the `connectStatus` parameter of `Connect`, and the link is
  given to the constructor.
- str2ba is not modelled: `Connect` takes the parsed address.
- Close, PrintMac, usleep, printf and the `__DEBUG` output are left out; they
  have no effect on the protocol.
- BluetoothStrength is left out because it computes in floating point.
- The sqlite and PVOutput uploaders are outside the protocol stack.
- Timeouts and the blocking socket are not modelled. A read returns a
  pending delivery or fails when none is pending.
- The loops that "wait indefinitely" (WaitForPacket, the skip loop of
  ReadL2Packet, ReadAndCheck) end because the inbound queue is finite.
- malloc, realloc and free are replaced by fresh arrays and sequences, and
  the leaks of ReadAndCheck and GetHistoricYield are not modelled.
- The uninitialised `L1Packet` struct, `our_mac` and `sma_mac` are modelled
  as zeros.
- The password is a byte sequence whose end also acts as the terminator.
- `hi.Records` is a sequence of items rather than a growing malloc'd array.
- L1.L1Packet.Read: rejects a header whose length byte is below 18, which the
  code accepts (see Findings). L1.ShortLengthAcceptedAsWritten models the
  code as written. For the callers this means that such a frame ends a wait
  where the code would skip it when its command or source does not match
  (WaitForPacket, ProtocolManager.cc:309, and the skip loop of ReadL2Packet,
  ProtocolManager.cc:102-107): in the model, such a frame arriving during the
  wait for Login_3 makes Connect return 3, and one arriving during
  ReadL2Packet makes ReadAndCheck return the invalid-packet code.
- L2.Check: rejects an unescaped buffer shorter than header + FCS + flag with
  the invalid-packet code, where the code memmoves a negative length (see
  Findings). L2.HeaderOnlyOverrunsAsWritten models the code as written.
- L2.Unpack: carries the same correction, through Check.
- L2.L2Packet.CheckUnescaped: carries the same correction, through Check.
- L2.L2Packet.ReadPacket: carries the same correction, through Unpack.
- Transport.WriteBytes: write(2) is modelled all or nothing. A short write,
  which L1.cc:50 also reports as failure, becomes a failed write with nothing
  sent.
- Manager.ProtocolManager.GetHistoricYield: takes from and to as values
  below 2^32. The header declares them `int32_t` (ProtocolManager.h:87) while
  the definition uses `uint32_t`; the model follows the definition.
- Manager.ProtocolManager.GetFramedReply: models the corrected size check
  `Framed`, not the wrapping one (see Findings). So it is weaker than the code
  in that it rejects the replies the wrap lets through.
- Manager.ProtocolManager.GetYieldInfo: the frame count is a natural number.
  The conversion to a negative `int no_frames` for counts of 2^31 or more
  cannot arise under the corrected check, so it is not modelled.
- Queries.HistoricPages: `hi.NoRecords` is an unbounded count, not a
  wrapping uint32. It is bounded in practice by PM_MAX_RECORDS plus one page.

## Findings

| source | as written | input that shows it | evidently intended | confidence | as-written member | corrected member |
|---|---|---|---|---|---|---|
| L1.cc:14-21 | the header check tests only the byte count and the check byte, so Read returns true on a length byte below 18 and DataLength() is then negative, a size ReadL2Packet passes to realloc and memcpy | header 7E 05 00 7B followed by 14 zero bytes | reject a length field below 18 as a bad header | not executed | L1.ShortLengthAcceptedAsWritten | L1.ReadAcceptedFrame |
| L2.cc:38-40 | data_length is computed without checking that the unescaped buffer holds header, FCS and flag, and a negative value is passed to memmove as size_t | 7E, then the escaped header[1..], then 7E | return L2_ERROR_INVALID_PACKET when the buffer is shorter than header plus 3 | not executed | L2.HeaderOnlyOverrunsAsWritten | L2.UnpackShort |
| ProtocolManager.h:174-182 | expected_size multiplies the uint32 frame count by the record size in 32 bits, so large counts wrap and a short reply passes | an 8-byte reply announcing frames 0 to 0x3FFFFFFF, read as historic records of 12 bytes | the reply must hold one record per announced frame | not executed | Records.HistoricWrapAcceptedAsWritten | Records.FramedRecordsInside |
