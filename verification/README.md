# Motor GUI core, modelled in Dafny

This project models the protocol and control core of a desktop tool for a
motor controller. The tool is a Tauri application with a Rust back end and a
JavaScript front end. The model covers:

- **YMODEM** (`ymodem.dfy`, `ymodem_send.dfy`, `ymodem_recv.dfy`,
  `ymodem_transfer.dfy`):
  - the sender and the receiver of the YMODEM batch protocol that carries
    firmware images;
  - the header block 0, the 128- and 1024-byte data blocks and the empty
    end block;
  - the retry and cancel loops that share one `errors` counter;
  - the receiver's parse of the announced file size;
  - a whole transfer: the receiver, reading what the sender writes, hands
    on exactly the sender's stream.
- **The motor link** (`motor_apis.dfy`):
  - the 10-byte request frame, with no checksum;
  - the check a reply must pass, and its length-byte slicing;
  - big-endian decoding;
  - the status and parameter records and the two state-name maps;
  - the set and action commands.
- **The startup tests** (`startup_control.dfy`, `startup_test.dfy`,
  `startup_test_legacy.dfy`):
  - poll classification and the poll loop of one cycle;
  - the outer loop of cycles;
  - the `start`/`stop` handle state machine;
  - the integer progress report.

  The current controller keeps a run-wide hit count. The older one passes a
  cycle on its first hit and has a fixed 20-second timeout.
- **The firmware upgrade handshake** (`upgrade.dfy`): "update" is written
  until the boot loader answers 'C', at most 200 times. The YMODEM transfer
  follows in every case.
- **The relay board** (`relay.dfy`):
  - the two literal tables of Modbus RTU Write Single Coil frames;
  - the write loop.

  The frames are defined in section 6.5 of the Modbus Application Protocol.
  Their CRC-16 is the one of section 6.2.2 of Modbus over Serial Line. The
  model computes that CRC and proves that the tables hold exactly the
  computed frames.
- **Three small decoders** (`tool_utils.dfy`, `fault_codes.dfy`,
  `format_seconds.dfy`):
  - `parse_str`, the `key=value;` lookup;
  - `getFaultStates`, the 16-bit fault word read as flag names;
  - `formatSeconds`, the `HH:MM:SS` display of a count of seconds.

`common.dfy`, `channel.dfy` and `text.dfy` hold what these share:

- fixed-width integers and big-endian words;
- decimal numerals and Rust's `u32` parse;
- serial lines as scripts of replies;
- UTF-8 well-formedness, as in section 4 of RFC 3629.

## How serial lines are modelled

A serial line is a script of replies. Each reply is `Byte(b)`, `Timeout` or
`Fault`, and a script that has run out reads as a silent line. Every retry
loop is a recursive function over such a script, with its counters as
parameters. A phase returns four things:

- its outcome;
- the error counter;
- the unread replies;
- the frames it wrote.

Writes always succeed. The YMODEM CRC16 routine is not part of this model,
so every YMODEM operation takes it as a function parameter `crc`. A Rust
panic is an explicit `Panic` outcome. Examples are an index out of range
and a failed `unwrap`.

## Where the code is followed

Where the usual behaviour of these protocols and the code differ, the code
is followed:

- Motor frames carry no checksum in either direction.
- In `start_send` the two CANs that cancel need not be adjacent.
- The YMODEM header block is written once and never resent.
- A data block that is not acknowledged is not resent either. The next read
  of the stream carries on.
- In the current startup test a poll below target speed leaves the hit count
  alone. The count belongs to the whole run, so a canceled cycle hands its
  hits to the next cycle.
- `start` zeroes the counters even while a run is active.
- A run that ended on its own keeps its thread handle, so a later `start`
  spawns nothing until `stop` is called.

The receiver computes its block count as `(size as f32 / 1024.0).ceil()`.
That count is exact only below 2^24 bytes. `YmodemRecv.PacketCountRounds`
shows a size of 2^24 + 1 bytes. The receiver counts 16384 blocks for it,
while the sender writes 16385 blocks. The receiver then has one turn fewer
than the transfer needs.

The sender and the receiver disagree on a header that fills block 0
exactly. `send_start_frame` accepts a name, NUL and size of 128 bytes in all,
and then no NUL follows the size. The receiver reads the size field up to the
next NUL, so it runs on into the CRC and the next block. Its two buffers then
exceed 128 bytes. `YmodemTransfer.FullHeaderTransferFails` shows that such a
transfer always fails on the receiving side, with a panic or an I/O error.
The round trips therefore require `|name| + 1 + |digits| < 128`.

A stream whose size is a positive multiple of 1024 bytes is written in one
block more than the sender counts. The short-block rule looks at
`size % 1024`, which is then 0, so the block it takes for the last one is
128 bytes and a further 1024-byte block follows. For 1024 bytes
`YmodemTransfer.WholeKilobyteExtraBlock` shows the two blocks. The receiver
still gets the whole stream, because it allows two turns beyond the EOTs.
The end block is then left unread.

## Model

| member | source | states |
|---|---|---|
| Bytes.BigEndian32 | src-tauri/src/motor/apis.rs:217-220 | the argument word as four bytes, most significant first, whose base-256 value is the word |
| Bytes.DecodeEncode32 | src-tauri/src/motor/apis.rs:273-275 | `vec_to_int` of the four encoded bytes gives the word back |
| Bytes.EncodeDecode32 | src-tauri/src/motor/apis.rs:273-275 | re-encoding a decoded word gives back the four bytes it was read from |
| Bytes.Decimal | src-tauri/src/ymodem/ymodem.rs:363-366 | the size's `to_string` numeral is digits only, at least one, and a single digit exactly for values below 10 |
| Bytes.DecimalLeadingDigit | src-tauri/src/ymodem/ymodem.rs:363-366 | the numeral of a positive size has no leading zero |
| Bytes.ParseDecimal | src-tauri/src/ymodem/ymodem.rs:179-180 | parsing the numeral of a 32-bit size as `u32` gives the size back |
| Text.KeepDigits | src-tauri/src/ymodem/ymodem.rs:175-177 | the digit filter keeps only digits, never grows the text, and leaves all-digit text unchanged |
| Text.BeforeSpace | src-tauri/src/ymodem/ymodem.rs:183-186 | the first piece split at spaces is a space-free prefix, stopped by a space or by the end of the text |
| Text.AsciiIsUtf8 | src-tauri/src/ymodem/ymodem.rs:172-174 | ASCII text passes the UTF-8 check that `from_utf8` makes |
| Ymodem.CrcBytes | src-tauri/src/ymodem/ymodem.rs:368-370 | a CRC goes on the wire as two bytes, high byte first, whose value is the CRC |
| Ymodem.StartFrameLayout | src-tauri/src/ymodem/ymodem.rs:349-372 | block 0 is 133 bytes: SOH, 0, 0xFF, the name, one NUL, the decimal size, zero fill to 128 payload bytes, then the CRC of those 128 bytes, high byte first |
| Ymodem.DataFrameLayout | src-tauri/src/ymodem/ymodem.rs:439-457 | a data block is SOH for 128 and STX for 1024 bytes, then the number mod 256 and `0xFF` minus it, the chunk, pad bytes to the block size, and the CRC of the padded payload |
| Ymodem.EndFrameLayout | src-tauri/src/ymodem/ymodem.rs:516-523 | the end block is SOH, 0, 0xFF, 128 zero bytes and their CRC, high byte first |
| Ymodem.CeilDiv | src-tauri/src/ymodem/ymodem.rs:287 | the block count is the least number of blocks that together cover the size, and 0 for an empty stream |
| YmodemSend.StartSend | src-tauri/src/ymodem/ymodem.rs:302-339 | waiting for 'C': only Ok, Io, Canceled or ExhaustedRetries; exhaustion leaves the counter exactly at its limit and writes a single CAN, and nothing else writes |
| YmodemSend.StartSendReads | src-tauri/src/ymodem/ymodem.rs:302-310 | the wait reads the script from the front, and it succeeds only on reading a 'C' |
| YmodemSend.StartSendSilent | src-tauri/src/ymodem/ymodem.rs:317-339 | a silent line exhausts the wait after exactly the remaining budget, with one CAN written |
| YmodemSend.StartSendFirstC | src-tauri/src/ymodem/ymodem.rs:305-320 | misses with fewer than two CANs in all, within the budget, then a 'C': success, one error per miss |
| YmodemSend.StartSendSecondCan | src-tauri/src/ymodem/ymodem.rs:311-328 | the second CAN cancels even when the two are not adjacent, before the budget check |
| YmodemSend.AwaitByte | src-tauri/src/ymodem/ymodem.rs:374-420 | the two waits of the header phase write nothing, never lower the counter, and on exhaustion leave it exactly at its limit |
| YmodemSend.AwaitByteReads | src-tauri/src/ymodem/ymodem.rs:374-396 | a wait reads from the front and succeeds only on reading the awaited byte |
| YmodemSend.AwaitByteSilent | src-tauri/src/ymodem/ymodem.rs:385-395 | a line that never answers exhausts a wait after exactly the remaining budget |
| YmodemSend.AwaitByteHit | src-tauri/src/ymodem/ymodem.rs:374-396 | misses within the budget then the awaited byte: success, one error per miss |
| YmodemSend.SendStartFrame | src-tauri/src/ymodem/ymodem.rs:343-423 | a name and size too long for the 128-byte payload panic, exactly then, with nothing read or written and the counter unchanged; otherwise block 0 is written exactly once whatever the replies; the counter only grows, and exhaustion means it reached the limit |
| YmodemSend.Chunks | src-tauri/src/ymodem/ymodem.rs:439-446 | the stream is cut into non-empty chunks, none larger than its block, that carry every byte once and in order |
| YmodemSend.DataFramesCarryChunks | src-tauri/src/ymodem/ymodem.rs:432-457 | data block `i` is numbered `i + 1`, sized by the block-size rule, and carries chunk `i` |
| YmodemSend.SendStream | src-tauri/src/ymodem/ymodem.rs:425-485 | the stream phase ends Ok, Io or ExhaustedRetries, consumes replies from the front, and fails only after writing a block |
| YmodemSend.SendStreamWrites | src-tauri/src/ymodem/ymodem.rs:440-466 | the blocks written are a prefix of the stream's data blocks in order, all of them on success: a block that is not acknowledged is not resent |
| YmodemSend.SendEndFrame | src-tauri/src/ymodem/ymodem.rs:515-557 | the end block is written once, and every reply but a failed read costs one error, even an ACK; the phase exhausts exactly when the read does not fail and at most one error was left |
| YmodemSend.FinishSend | src-tauri/src/ymodem/ymodem.rs:487-513 | EOT is written first; success writes exactly EOT and the end block and costs exactly one error; a panic writes nothing after EOT and costs nothing |
| YmodemSend.FinishSendBadReport | src-tauri/src/ymodem/ymodem.rs:487-506 | whatever byte answers EOT, a report that is not UTF-8 makes the finish panic after writing only EOT |
| YmodemSend.CloseBatch | src-tauri/src/ymodem/ymodem.rs:501-512 | after the report is read, success writes only the end block and costs one error; a panic writes nothing |
| YmodemSend.CloseBatchReport | src-tauri/src/ymodem/ymodem.rs:501-510 | a report that is not UTF-8 panics, with nothing written and the rest of the line unread; a UTF-8 report goes on to the end block |
| YmodemSend.SendData | src-tauri/src/ymodem/ymodem.rs:295-297 | the stream then EOT and the end block: it ends Ok, Io, ExhaustedRetries or in a panic; on success the data blocks, EOT and the end block, at least one error spent |
| YmodemSend.SendBlocks | src-tauri/src/ymodem/ymodem.rs:293-297 | after the first 'C': it ends Ok, Io, ExhaustedRetries or in a panic; an overlong header panics at once with nothing read or written; success needs a header that fits and writes block 0 followed by the data transcript |
| YmodemSend.Send | src-tauri/src/ymodem/ymodem.rs:279-300 | the transfer ends Ok, Io, Canceled, ExhaustedRetries or in a panic (a header too long for block 0, or a report that is not UTF-8); it succeeds only with a header that fits and having written block 0, the data blocks, EOT and the end block, with between 1 and `max_errors - 1` errors; a cancel writes nothing |
| YmodemSend.SendOverlongHeader | src-tauri/src/ymodem/ymodem.rs:286-293 | a name and size too long for block 0 panic as soon as the receiver's first 'C' arrives, with nothing written and the counter and line as that wait left them; before that 'C', the transfer ends as the wait does |
| YmodemSend.SendSilent | src-tauri/src/ymodem/ymodem.rs:286-339 | against a line that never answers the transfer ends with ExhaustedRetries, the counter at `max_errors` (1 when that is 0), and a single CAN written |
| YmodemSend.SendNeedsTwoErrors | src-tauri/src/ymodem/ymodem.rs:540-547 | with a budget of at most one error no transfer succeeds, because the end block always costs an error |
| YmodemSend.SendEmptyStream | src-tauri/src/ymodem/ymodem.rs:440-444 | an empty stream writes no data block between block 0 and EOT |
| YmodemSend.EmptyStreamHeader | src-tauri/src/ymodem/ymodem.rs:361-366 | the header of an empty stream still announces size "0" right after the name's NUL |
| YmodemRecv.AwaitStart | src-tauri/src/ymodem/ymodem.rs:86-107 | the receiver writes only 'C', at least once; it succeeds right after reading an SOH; exhaustion leaves the count just past `max_initial_errors`; only an empty script stalls without reading |
| YmodemRecv.AwaitStartSpentBudget | src-tauri/src/ymodem/ymodem.rs:96-104 | the count is never reset, so once spent the first fault of a later wait ends it |
| YmodemRecv.AwaitStartQuiet | src-tauri/src/ymodem/ymodem.rs:86-95 | timeouts and stray bytes never end the wait; one 'C' is written per reply |
| YmodemRecv.Checksum | src-tauri/src/ymodem/ymodem.rs:146 | the two checksum bytes read high first are the value the sender's `CrcBytes` put on the wire |
| YmodemRecv.ReadFields | src-tauri/src/ymodem/ymodem.rs:116-142 | reading the number bytes and the two NUL-terminated fields fails only with Io or a panic (a name that is not UTF-8, or buffers over 128 bytes, which underflow the padding count as a debug build panics); on success it consumed at least the two number bytes, both buffers grew, and together they stay within 128 bytes |
| YmodemRecv.ReadNames | src-tauri/src/ymodem/ymodem.rs:121-142 | appending the name and size fields fails only with Io or a panic (a name that is not UTF-8, or buffers over 128 bytes, which underflow the padding count as a debug build panics); on success both buffers grew, together within 128 bytes, and the cancel flag is kept |
| Channel.ReadExactOnLine | src-tauri/src/ymodem/ymodem.rs:217 | `read_exact` of `n` bytes succeeds exactly when the first `n` replies are bytes, and then yields those bytes and leaves the replies after them |
| YmodemRecv.ReadPayload | src-tauri/src/ymodem/ymodem.rs:142-146 | exactly `n` bytes then a two-byte checksum are consumed |
| YmodemRecv.ReadPayloadOnLine | src-tauri/src/ymodem/ymodem.rs:217-218 | the payload and checksum read are the `n + 2` byte replies at the front of the line, and nothing else is read; a missing byte fails the read |
| YmodemRecv.CrcOnLine | src-tauri/src/ymodem/ymodem.rs:218-219 | two checksums are equal exactly when their two wire bytes are |
| YmodemRecv.ReadAttempt | src-tauri/src/ymodem/ymodem.rs:115-153 | one attempt fails only with Io or a panic; on success it consumed input and the three buffers grew by exactly 128 bytes together |
| YmodemRecv.RecvHeader | src-tauri/src/ymodem/ymodem.rs:115-170 | the header loop ends Ok, Io, Canceled or in a panic; it writes one NAK per error counted and then the reply its outcome calls for |
| YmodemRecv.RecvHeaderOfStartFrame | src-tauri/src/ymodem/ymodem.rs:115-170 | a block 0 as the sender builds it is read in one attempt: name and decimal size recovered and ACK, 'C' written, or CAN, CAN when its number is wrong |
| YmodemRecv.HeaderRoundTrip | src-tauri/src/ymodem/ymodem.rs:115-190 | the header block a sender writes comes back with the same name and, parsed, the same size, for a NUL-free UTF-8 name that leaves room for a NUL after the size (`|name| + 1 + |digits| < 128`) |
| YmodemRecv.FullHeaderNotReceived | src-tauri/src/ymodem/ymodem.rs:121-142 | a header block whose name, NUL and size fill all 128 bytes has no NUL after the size; the size field runs on past the CRC, so the header loop panics, or fails with Io exactly when the line stops delivering bytes before a NUL; it never succeeds |
| YmodemRecv.FileSize | src-tauri/src/ymodem/ymodem.rs:172-189 | a size is found only in UTF-8 text, as the `u32` parse of the text, of its digits, or of the piece before the first space |
| YmodemRecv.FileSizeOfDecimal | src-tauri/src/ymodem/ymodem.rs:172-189 | the decimal size a sender writes is read back exactly |
| YmodemRecv.FileSizeBeforeSpace | src-tauri/src/ymodem/ymodem.rs:179-189 | a field after a space is ignored: the size before it is found, unless the text is not UTF-8 |
| YmodemRecv.ToF32 | src-tauri/src/ymodem/ymodem.rs:192 | conversion to single precision is exact below 2^24 |
| YmodemRecv.PacketCount | src-tauri/src/ymodem/ymodem.rs:192 | below 2^24 bytes the receiver's block count is the exact ceiling of size / 1024 |
| YmodemRecv.PacketCountRounds | src-tauri/src/ymodem/ymodem.rs:192-196 | at 2^24 + 1 bytes the receiver counts 16384 blocks where the sender writes 16385 |
| YmodemRecv.RecvBlock | src-tauri/src/ymodem/ymodem.rs:206-233 | a data block is canceled with CAN, CAN; accepted with ACK, its padded payload appended and the number advanced mod 256; or refused with NAK and one error, nothing else changed; the file and the writes are only ever extended |
| YmodemRecv.RecvBlockReads | src-tauri/src/ymodem/ymodem.rs:206-233 | a block fails with Io exactly when fewer than `size + 4` bytes arrive; a cancel means a wrong number or complement, and a block handed on has the expected number and its complement |
| YmodemRecv.RecvBlockChecksCrc | src-tauri/src/ymodem/ymodem.rs:215-233 | a block read whole is answered with ACK exactly when the CRC of the payload on the line matches the checksum on the line, and then exactly that payload is appended to the file |
| YmodemRecv.RecvTurn | src-tauri/src/ymodem/ymodem.rs:196-253 | a turn only appends writes, never lowers the counter, keeps the file as a prefix of the new one, and stops only on Io or a cancel |
| YmodemRecv.EotTurn | src-tauri/src/ymodem/ymodem.rs:235-245 | the first EOT gets NAK and every later one ACK and 'C'; the block number advances either way |
| YmodemRecv.RecvBlockOfWire | src-tauri/src/ymodem/ymodem.rs:206-233 | a block read whole with a correct CRC is canceled with CAN, CAN when its number or complement is wrong, and otherwise accepted with ACK, the number advanced mod 256 and exactly its payload appended |
| YmodemRecv.RecvBlockOfDataFrame | src-tauri/src/ymodem/ymodem.rs:206-233 | a data block as the sender builds it is accepted exactly when its number matches the expected one mod 256 |
| YmodemRecv.RecvTurnOfDataFrame | src-tauri/src/ymodem/ymodem.rs:199-214 | the first byte picks the block size; the number expected is 0 on the last turn and the running number otherwise |
| YmodemRecv.EndFrameIsDataFrame | src-tauri/src/ymodem/ymodem.rs:515-523 | the sender's end block is an empty 128-byte data block numbered 0 |
| YmodemRecv.RecvEndFrame | src-tauri/src/ymodem/ymodem.rs:210-229 | on the last turn the end block is accepted with ACK and adds 128 zero bytes, which the final cut drops |
| YmodemRecv.RecvBlocks | src-tauri/src/ymodem/ymodem.rs:196-261 | the data loop only appends writes and keeps the file as a prefix of the new one; it stops with ExhaustedRetries only while turns remain, and hands on a state under the error limit, or the one it got when no turn remains |
| YmodemRecv.RecvBody | src-tauri/src/ymodem/ymodem.rs:192-266 | a successful body delivers exactly the announced number of bytes, and the writes only extend those before it |
| YmodemRecv.Recv | src-tauri/src/ymodem/ymodem.rs:74-267 | the receiver writes 'C' first; success delivers a file of exactly the announced 32-bit size after at least three writes |
| YmodemTransfer.TransferRoundTrip | src-tauri/src/ymodem/ymodem.rs:263-265 | the receiver, reading the line a sender writes, succeeds with the sender's name and size and writes out exactly the sender's stream, for any stream below 2^24 bytes, a budget of at least two errors, and a NUL-free UTF-8 name that leaves room for a NUL after the size (`|name| + 1 + |digits| < 128`) |
| YmodemTransfer.FullHeaderTransferFails | src-tauri/src/ymodem/ymodem.rs:349-366 | a header that fills block 0 exactly is one the sender builds without panicking, yet the receiver reading the sender's line ends with Io or a panic, whatever the data |
| YmodemTransfer.RecvBodyOfTransfer | src-tauri/src/ymodem/ymodem.rs:192-265 | the data blocks, EOT, a timeout and the end block read by the data loop give back exactly the stream |
| YmodemTransfer.RecvBlocksOfTransfer | src-tauri/src/ymodem/ymodem.rs:196-261 | with two or three turns beyond the data blocks, the data loop ends with the stream as a prefix of its file |
| YmodemTransfer.RecvDataFrames | src-tauri/src/ymodem/ymodem.rs:196-233 | the sender's data blocks, one per turn, are each accepted with ACK, their padded payloads appended in order and the number advanced |
| YmodemTransfer.RecvDataFrame | src-tauri/src/ymodem/ymodem.rs:206-233 | one data block on a turn before the last is accepted with ACK, its padded chunk appended and the number advanced mod 256 |
| YmodemTransfer.RecvClosing | src-tauri/src/ymodem/ymodem.rs:235-261 | EOT, a timeout and the end block, on the last two or three turns, end the loop without an error and keep the file |
| YmodemTransfer.PayloadsStartWithData | src-tauri/src/ymodem/ymodem.rs:439-441 | the padded payloads of the data blocks begin with the stream itself: padding only follows the data |
| YmodemTransfer.FrameCount | src-tauri/src/ymodem/ymodem.rs:432-446 | the sender writes as many data blocks as it counts, plus one when the size is a positive multiple of 1024 |
| YmodemTransfer.WholeKilobyteExtraBlock | src-tauri/src/ymodem/ymodem.rs:434-438 | a 1024-byte stream is written as a 128-byte block and then a 1024-byte block, though the sender counts one |
| YmodemTransfer.WireLayout | src-tauri/src/ymodem/ymodem.rs:293-297 | the line the receiver reads is SOH, the rest of block 0, the data blocks one after the other, EOT, a timeout and the end block |
| YmodemTransfer.FramesWireFlat | src-tauri/src/ymodem/ymodem.rs:460 | blocks written one after the other are their concatenation on the line |
| Upgrade.Connect | src-tauri/src/motor/upgrade.rs:44-62 | the handshake writes at least once more and at most 200 commands in all; it ends Ok, Io or in a panic, and Ok without an answer only after the 200th command |
| Upgrade.ConnectSilent | src-tauri/src/motor/upgrade.rs:53-61 | a boot loader that never answers costs exactly 200 commands, one silent read each |
| Upgrade.ConnectAnswered | src-tauri/src/motor/upgrade.rs:46-51 | a reply with 'C' at index 3 ends the handshake at once |
| Upgrade.ConnectShortReply | src-tauri/src/motor/upgrade.rs:48 | a reply shorter than four bytes makes the index panic |
| Upgrade.Start | src-tauri/src/motor/upgrade.rs:24-78 | the motor port is released; a port that does not open gives Io with nothing written; otherwise the writes start with 1 to 200 handshake commands; success needs a UTF-8 name that fits block 0 and writes exactly the commands then the YMODEM transcript |
| Upgrade.TransferAfterTimeout | src-tauri/src/motor/upgrade.rs:56-71 | after 200 unanswered commands the transfer still runs, on the rest of the line |
| Upgrade.TransferAfterAnswer | src-tauri/src/motor/upgrade.rs:44-78 | an answered first command is followed by the transfer, and the upgrade fails exactly when the transfer does |
| Relay.WithCrc | src-tauri/src/tools/relay.rs:20-23 | a frame is its message followed by the message's CRC-16/MODBUS, low byte first |
| Relay.WriteSingleCoil | src-tauri/src/tools/relay.rs:20-23 | a Write Single Coil request is 8 bytes: address 1, function 5, coil and value most significant byte first |
| Relay.TurnOnTableIsComputed | src-tauri/src/tools/relay.rs:19-23 | the `turn_on` table is exactly the four requests switching coils 0 to 3 on, and each passes the receiver's CRC check |
| Relay.TurnOffTableIsComputed | src-tauri/src/tools/relay.rs:43-47 | the `turn_off` table is exactly the four requests switching coils 0 to 3 off, and each passes the CRC check |
| Relay.WriteFrames | src-tauri/src/tools/relay.rs:26-36 | frames are written in order up to the first refused write; the result is Ok exactly when every write is accepted |
| Relay.TurnOn | src-tauri/src/tools/relay.rs:18-40 | without a port nothing is written and the result is Ok; otherwise the computed switch-on frames are written up to the first failure |
| Relay.TurnOff | src-tauri/src/tools/relay.rs:42-64 | as `turn_on`, with the switch-off frames |
| ToolUtils.Split | src-tauri/src/tools/utils.rs:6 | the pieces of a split hold no separator, and there is at least one |
| ToolUtils.JoinSplit | src-tauri/src/tools/utils.rs:6 | splitting loses nothing: the pieces join back to the text |
| ToolUtils.SplitJoin | src-tauri/src/tools/utils.rs:6 | separator-free pieces are exactly what their join splits into |
| ToolUtils.SplitOnce | src-tauri/src/tools/utils.rs:8 | `splitn(2, "=")`: a key without '=', and a value exactly when the part has an '=', the part being key, '=', value |
| ToolUtils.SplitOnceOf | src-tauri/src/tools/utils.rs:8-10 | the value is everything after the first '=', later '=' included |
| ToolUtils.Trim | src-tauri/src/tools/utils.rs:9 | trimmed text neither starts nor ends with white space, and is empty exactly for all-white-space text |
| ToolUtils.TrimPadded | src-tauri/src/tools/utils.rs:9 | trimming removes exactly the white space around the text |
| ToolUtils.Lookup | src-tauri/src/tools/utils.rs:7-13 | the first part whose trimmed key matches decides; with no match the result is None |
| ToolUtils.ParseStr | src-tauri/src/tools/utils.rs:5-14 | `parse_str` panics only when some part matches the key |
| ToolUtils.ParseStrFirstMatch | src-tauri/src/tools/utils.rs:7-11 | over text joined from parts, the first matching part's value, parsed, is the result |
| ToolUtils.ParseStrMissing | src-tauri/src/tools/utils.rs:13 | a key that no part carries gives None |
| ToolUtils.FirstValueUntrimmed | src-tauri/src/tools/utils.rs:8-10 | the key is trimmed and the value is not, and a later part with the same key is never read |
| ToolUtils.MatchWithoutValuePanics | src-tauri/src/tools/utils.rs:8-10 | a matching part without '=' panics even when a later part would answer |
| FaultCodes.FlagsAreSet | src/api/parseErrorCode.js:24-28 | every flag listed is a set bit |
| FaultCodes.SetBitsAreFlags | src/api/parseErrorCode.js:24-28 | every set bit among those read is listed |
| FaultCodes.FlagsAscending | src/api/parseErrorCode.js:24 | flags appear lowest bit first, each once |
| FaultCodes.FlagsCount | src/api/parseErrorCode.js:22-29 | a 16-bit word raises as many flags as it has bits set |
| FaultCodes.NamesAt | src/api/parseErrorCode.js:26 | each listed name is the table entry of the bit in the same place |
| FaultCodes.FaultBitsTable | src/api/parseErrorCode.js:3-20 | the table has sixteen pairwise distinct names |
| FaultCodes.FaultNamesOfFlags | src/api/parseErrorCode.js:22-30 | the loop's list is the names of the set bits, in bit order |
| FaultCodes.GetFaultStates | src/api/parseErrorCode.js:22-30 | the result lists the names of the set bits in ascending order, is as long as the low 16 bits' bit count, and holds a flag's name exactly when its bit is set |
| FaultCodes.FaultStatesCount | src/api/parseErrorCode.js:22-30 | the list is as long as the low sixteen bits have bits set |
| FaultCodes.NamesOfFlags | src/api/parseErrorCode.js:24-28 | with distinct names, a name is listed exactly when its bit is set |
| FaultCodes.HighBitsIgnored | src/api/parseErrorCode.js:24 | bits 16 and above never change the list |
| FaultCodes.NoBitsNoFlags | src/api/parseErrorCode.js:22-29 | a word with none of the low sixteen bits set, 0 in particular, gives an empty list |
| FaultCodes.SingleFlag | src/api/parseErrorCode.js:24-28 | the word with the single bit `i` set gives exactly the `i`-th name |
| FormatSeconds.ClockOf | src/utils/cmds.js:36-39 | the UTC fields are in range and make up the time of day, `sec` mod 86400 |
| FormatSeconds.TimeOfDay | src/utils/cmds.js:37-39 | hours `(sec div 3600) mod 24`, minutes `(sec div 60) mod 60` and seconds `sec mod 60` recombine to `sec mod 86400` |
| FormatSeconds.Pad2 | src/utils/cmds.js:41 | a padded field is two characters |
| FormatSeconds.Pad2Value | src/utils/cmds.js:41 | a padded field reads back as its value |
| FormatSeconds.Format | src/utils/cmds.js:35-42 | inside the `Date` range the text is 8 characters, digits with ':' at places 2 and 5; outside it is "NaN:NaN:NaN" |
| FormatSeconds.ParseFormat | src/utils/cmds.js:35-42 | the text reads back as the hours, minutes and seconds of the time of day |
| FormatSeconds.FormatWrapsDaily | src/utils/cmds.js:36-37 | a count one day later shows the same text |
| FormatSeconds.ClockWrapsDaily | src/utils/cmds.js:36-39 | a count one day later has the same fields |
| FormatSeconds.FormatInjectiveWithinDay | src/utils/cmds.js:35-42 | within one day no two counts share a text |
| FormatSeconds.OneSecondBeforeEpoch | src/utils/cmds.js:36-41 | a negative count counts back from midnight: -1 shows "23:59:59" |
| MotorApis.VecToInt | src-tauri/src/motor/apis.rs:273-275 | the decoded word re-encodes to the four bytes it came from |
| MotorApis.VecToShort | src-tauri/src/motor/apis.rs:277-279 | the signed value is negative exactly when the first byte has its top bit set |
| MotorApis.AsU16 | src-tauri/src/motor/apis.rs:145 | the cast gives the one 16-bit value congruent to its input modulo 2^16, so non-negative values are kept |
| MotorApis.ErrorCodeUnsigned | src-tauri/src/motor/apis.rs:145 | the error code is `256 * buf[5] + buf[6]` |
| MotorApis.RequestFrameLayout | src-tauri/src/motor/apis.rs:212-222 | a request is 0x5A, 0x5A, type, 4, the argument, 0xA5, 0xA5, with no checksum, and `vec_to_int` of bytes 4..8 is the argument |
| MotorApis.RequestFrameInjective | src-tauri/src/motor/apis.rs:211-222 | two requests are the same frame only for the same type and argument |
| MotorApis.ReplyBuffer | src-tauri/src/motor/apis.rs:228-230 | the read buffer holds the bytes read, then zeros, 128 bytes in all |
| MotorApis.AcceptReply | src-tauri/src/motor/apis.rs:233-243 | no answer exactly when the reply is shorter than 9 bytes or lacks the two 0x5A head and two 0xA5 tail bytes; a panic exactly when the length byte reaches past the buffer; otherwise `buf[4..4+len]` |
| MotorApis.Request | src-tauri/src/motor/apis.rs:211-259 | no answer exactly when there is no port, the write or the read fails, or the reply is rejected; a panic exactly when an accepted reply's length byte runs past the buffer; otherwise as many bytes as the length byte says, from offset 4 of the reply and zeros past its end |
| MotorApis.RequestReplyFrame | src-tauri/src/motor/apis.rs:211-243 | a request answered with a reply frame that fits the buffer gets back exactly the frame's payload |
| MotorApis.Written | src-tauri/src/motor/apis.rs:224-225 | exactly one frame is written when a port is attached, none otherwise: 0x5A, 0x5A, the type, 4, the argument (which `vec_to_int` reads back), 0xA5, 0xA5 |
| MotorApis.AcceptReplyFrame | src-tauri/src/motor/apis.rs:233-243 | a well-formed reply frame is accepted and its payload recovered exactly |
| MotorApis.AcceptReplyOverlong | src-tauri/src/motor/apis.rs:242-243 | the length byte alone cuts the payload: an overlong claim yields the frame's own tail bytes |
| MotorApis.MotorStateName | src-tauri/src/motor/apis.rs:58-68 | the map is total and every code from 6 up reads "CTRL_RUN" |
| MotorApis.MctrlStateName | src-tauri/src/motor/apis.rs:70-79 | the map is total and every code from 5 up reads "CONT_RUN" |
| MotorApis.MotorStateNameCode | src-tauri/src/motor/apis.rs:58-68 | the motor-state names tell codes 0 to 5 apart and lump the rest together |
| MotorApis.MctrlStateNameCode | src-tauri/src/motor/apis.rs:70-79 | the control-state names tell codes 0 to 4 apart and lump the rest together |
| MotorApis.StateNamesNotPlaceholder | src-tauri/src/motor/apis.rs:138-147 | no decoded state name is the "IDEL" placeholder of a missing reply |
| MotorApis.DecodeStatus | src-tauri/src/motor/apis.rs:142-149 | a status payload shorter than 10 bytes panics, and only such a payload does |
| MotorApis.GetMotorStatus | src-tauri/src/motor/apis.rs:134-159 | no reply or a rejected one gives the defaults (0, false, 0, "IDEL", "IDEL", false); an accepted reply panics exactly when its length byte runs past the buffer or is below 10; otherwise the speed is reply bytes 4..8, identified byte 8, the error code `256 * buf[9] + buf[10]`, the state names those of bytes 11 and 12, identify-enable byte 13 |
| MotorApis.DecodeEncodeStatus | src-tauri/src/motor/apis.rs:142-149 | a status record decodes to its own fields, from offsets 0..4, 4, 5..7, 7, 8 and 9 |
| MotorApis.StatusRoundTrip | src-tauri/src/motor/apis.rs:134-159 | a status reply frame read from the port decodes to the record the controller sent |
| MotorApis.DecodeParams | src-tauri/src/motor/apis.rs:95-106 | a payload shorter than 44 bytes panics, and only such a payload does; otherwise eleven words |
| MotorApis.ParamsLayout | src-tauri/src/motor/apis.rs:95-106 | parameter `i` is read from payload offsets `4i` to `4i + 4` |
| MotorApis.GetMotorParams | src-tauri/src/motor/apis.rs:82-131 | no reply or a rejected one gives all zeros; an accepted reply panics exactly when its length byte runs past the buffer or is below 44; otherwise parameter `i` is reply bytes `4 + 4i` to `8 + 4i` |
| MotorApis.DecodeEncodeParams | src-tauri/src/motor/apis.rs:95-106 | eleven words a controller sends decode back to themselves |
| MotorApis.FlagWord | src-tauri/src/motor/apis.rs:182 | `en as u32` is 1 exactly when `en` holds, and 0 otherwise |
| MotorApis.DecodeActionFrame | src-tauri/src/motor/apis.rs:161-209 | every action's frame decodes back to that action, so each one's code and argument tell it apart |
| MotorApis.Perform | src-tauri/src/motor/apis.rs:161-209 | an action panics exactly when a reply is read, accepted, and its length byte runs past the buffer; any other reply, or none, is success |
| MotorApis.PerformIgnoresReply | src-tauri/src/motor/apis.rs:161-209 | an action succeeds whatever the reply, apart from an overrunning one |
| StartupControl.Classify | src-tauri/src/motor/startup_test.rs:195-218 | a poll fails exactly on a nonzero fault code, whatever the speed, and succeeds exactly without a fault and near the target |
| StartupControl.ClassifyStatusRecord | src-tauri/src/motor/startup_test.rs:197-210 | a poll of a controller fails exactly when its status record has a nonzero fault code; a missing reply never fails one |
| StartupControl.Max1 | src-tauri/src/motor/startup_test.rs:230-232 | a total of 0 counts as 1, any other total as itself |
| StartupControl.RunCycles | src-tauri/src/motor/startup_test.rs:80-176 | counters only grow; failed, passed and canceled cycles account for every cycle that ends; a completed run has run `max(total, 1)` cycles, a stopped one fewer |
| StartupControl.StartRun | src-tauri/src/motor/startup_test.rs:77-80 | failed + success never exceeds the cycles started, which never exceed `max(total, 1)` |
| StartupControl.NeverStoppedNoCancel | src-tauri/src/motor/startup_test.rs:137-139 | a run nobody stops cancels no cycle |
| StartupControl.CompletedRunTalliesAll | src-tauri/src/motor/startup_test.rs:171-174 | a run nobody stops that completes has failed or passed exactly `max(total, 1)` cycles |
| StartupControl.Start | src-tauri/src/motor/startup_test.rs:59-181 | the total is set and both counters zeroed in every case; a thread is spawned exactly when no handle is stored |
| StartupControl.Stop | src-tauri/src/motor/startup_test.rs:183-193 | `running` is cleared and the handle taken; the counters are kept |
| StartupControl.RestartNeedsStop | src-tauri/src/motor/startup_test.rs:74-191 | a second `start` spawns nothing until `stop` has taken the handle, even after the first run ended |
| StartupControl.Finished | src-tauri/src/motor/startup_test.rs:236 | the 32-bit sum of the counters equals their sum while it fits |
| StartupControl.GetTestResult | src-tauri/src/motor/startup_test.rs:221-240 | the counters are reported unchanged, and the progress is the integer quotient of their sum by `max(total, 1)` |
| StartupControl.ProgressIsAllOrNothing | src-tauri/src/motor/startup_test.rs:236 | the progress is 0 until the last requested cycle is classified and 1 from then on |
| StartupControl.CompletedRunReportsDone | src-tauri/src/motor/startup_test.rs:221-240 | a run that completes without a stop reports progress 1 |
| StartupTest.TimeoutMs | src-tauri/src/motor/startup_test.rs:143 | the timeout is `rotate_duration * 2000` ms while that fits in 32 bits |
| StartupTest.StepExit | src-tauri/src/motor/startup_test.rs:109-152 | a poll fails the cycle exactly on a fault; no other poll gives that verdict |
| StartupTest.PollCycle | src-tauri/src/motor/startup_test.rs:107-153 | a cycle takes at least one poll to end; every ending but a cancel clears the hit count |
| StartupTest.PollCycleFirstExit | src-tauri/src/motor/startup_test.rs:107-153 | a cycle ends at the first poll that takes an exit: a fault, enough hits counted across the run, a stop, then the timeout, in that order |
| StartupTest.LoopCancelsOnlyOnStop | src-tauri/src/motor/startup_test.rs:137-139 | a cycle is canceled only after a poll reads a cleared `running` flag |
| StartupTest.TestRun | src-tauri/src/motor/startup_test.rs:77-176 | a run classifies at most as many cycles as it starts, at most `max(total, 1)`, and a completed run starts exactly that many |
| StartupTest.TestRunReportsDone | src-tauri/src/motor/startup_test.rs:171-174 | a completed unstopped run classifies exactly `max(total, 1)` cycles and reports progress 1 |
| StartupTest.NonConsecutiveHitsPass | src-tauri/src/motor/startup_test.rs:110-113 | a poll below target speed does not reset the hit count, so hits need not be consecutive |
| StartupTest.ZeroHoldPassesFirstPoll | src-tauri/src/motor/startup_test.rs:126-135 | with `rotate_duration` 0 the first poll without a fault passes the cycle |
| StartupTest.CanceledCycleKeepsHits | src-tauri/src/motor/startup_test.rs:79-139 | a canceled cycle hands its hits to the next cycle |
| StartupTestLegacy.StepExit | src-tauri/src/motor/startupTest.rs:91-125 | a poll passes the cycle exactly at target speed and fails it exactly on a fault |
| StartupTestLegacy.PollCycle | src-tauri/src/motor/startupTest.rs:89-126 | a cycle takes at least one poll to end and hands on no hit count |
| StartupTestLegacy.PollCycleFirstExit | src-tauri/src/motor/startupTest.rs:89-126 | a cycle ends at the first poll that passes, fails, reads a stop or is past 20 s |
| StartupTestLegacy.FirstHitPasses | src-tauri/src/motor/startupTest.rs:93-100 | the first poll at target speed passes the cycle |
| StartupTestLegacy.LoopCancelsOnlyOnStop | src-tauri/src/motor/startupTest.rs:111-113 | a cycle is canceled only after a poll reads a cleared `running` flag |
| StartupTestLegacy.TestRun | src-tauri/src/motor/startupTest.rs:68-144 | a run classifies at most as many cycles as it starts, at most `max(total, 1)`, and a completed run starts exactly that many |
| StartupTestLegacy.TestRunReportsDone | src-tauri/src/motor/startupTest.rs:139-142 | a completed unstopped run classifies exactly `max(total, 1)` cycles and reports progress 1 |
| StartupTestLegacy.StopBeforeTimeout | src-tauri/src/motor/startupTest.rs:111-125 | the stop check comes before the timeout: a stopped poll past 20 s cancels the cycle |

## Left out

- Serial I/O: opening ports, baud rates and timeouts are left out. Every line is a scripted sequence of replies, and every write succeeds. The exceptions are the relay port, whose writes are scripted, and the motor port, whose single write is a flag.
- The YMODEM utility module (`calc_crc`, `get_byte`, `get_byte_timeout`, `get_stream_timeout`) is not part of this model. The CRC16 is a function parameter. `get_byte` is taken to fail on a timeout, `get_byte_timeout` to give none on one, and `get_stream_timeout` to read the bytes up to the next timeout.
- YmodemSend.SendStream: every `read` of the stream is taken to fill the block, or to take all that is left. A `Read` may legally return fewer bytes. The only caller passes a `BufReader` over a file, which fills each request until the end of the file.
- Floating point: the 1e8 and 1000 scale factors of `get_motor_params` and `get_motor_status` are left out. Speeds and parameters are kept as the raw integers of the reply.
- StartupControl.Classify: the 0.5 rps tolerance on floating-point speeds is the parameter `nearTarget`. `get_current_rps` and `update_motor_speed_rps` are not part of this model.
- YmodemSend.Send: the sender's block count `f64::ceil(size / 1024.0) as u32` is modelled as exact integer ceiling division. This is exact below 2^53 bytes; the saturation of the `u32` cast is not modelled.
- YmodemRecv.AwaitStart: when the script runs out, the source keeps writing 'C' forever. The model reports this as `Stalled`.
- YmodemRecv.Recv: the debug-build overflow checks on `errors`, `initial_errors` and `num_of_packets + 3` are not modelled. The counters are unbounded integers.
- The `writes` of the receiver assume every write succeeds. A failed write would end `recv` with an I/O error, and that path is not modelled.
- StartupTest.TimeoutMs: `rotate_duration * 1000 * 2` (startup_test.rs:143) wraps modulo 2^32 as in a release build, and that wrap is modelled. The overflow panic of a debug build is not modelled.
- StartupControl.Finished: `f_cnt + s_cnt` (startup_test.rs:236) wraps modulo 2^32 as in a release build, and that wrap is modelled. The overflow panic of a debug build is not modelled.
- YmodemRecv.ReadNames: buffers over 128 bytes make `128 - file_name_buf.len() - file_size_buf.len()` (ymodem.rs:142) underflow. The model panics there, as a debug build does. A release build wraps instead, and its padding loop then reads until `get_byte` fails, an I/O error. That release behaviour is not modelled.
- YmodemRecv.ReadFields: the same underflow at ymodem.rs:142 is the debug-build panic. The release wrap, which reads on to an I/O error, is not modelled.
- Threads, `AtomicBool`, mutexes, `join`, sleeps, `Instant` are left out. So are the 2 s power-up wait, the cooling wait between cycles, the 3 s settle in `finish_send` and the relay's 30 ms spacing. The test thread is a sequential loop over scripted samples. Elapsed time is an input of each sample.
- The relay and motor commands the test thread issues are left out, because they change no counter. So are its `unwrap` panics on them.
- `get_test_status`'s `Err` branch is left out, because `get_motor_status` always returns `Ok`. A status read that panics (an accepted reply whose length byte is below 10, see `MotorApis.DecodeStatus`) ends the test thread with its counters frozen and `running` still set. That path is not modelled: the classification takes an already decoded record.
- The `target_rps`, `cold_duration` and `has_relay` fields of `StartUpTestParam` change no counter and are not modelled.
- StartupControl.Start: a `start` or `stop` that interleaves with a running thread is not modelled. A run's counters are written back with `Finish` when it ends.
- Logging, CSV speed recording (`start_rps_record`, `stop_rps_record`), YAML files, IPC wiring, the JavaScript `invoke` wrappers and the UI are left out.
- `Upgrade::start` opening the firmware file and taking its name from the path are left out. The model takes the name's bytes and the file's bytes.
- FormatSeconds.Format: counts are whole seconds. Fractional seconds and non-numeric arguments to `formatSeconds` are not modelled.
- ToolUtils.ParseStr: the value parser (`str::parse::<T>`) is a parameter.
- FaultCodes.GetFaultStates: the `{ flag: name }` objects of the JavaScript result are modelled as the names alone.
