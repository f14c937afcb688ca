/** The YMODEM sender: `send` and its phases `start_send`, `send_start_frame`,
    `send_stream`, `finish_send` and `send_end_frame`.

    Each wait-for-reply loop is a recursive function over the scripted replies
    of the line. One error counter is threaded through all phases: `send`
    zeroes it, every bad reply adds one, and a phase gives up with
    `ExhaustedRetries` as soon as the counter reaches `maxErrors`. Writes to
    the line always succeed in this model; `sent` lists them in order. */
module YmodemSend {
  import opened Bytes
  import opened Channel
  import opened Ymodem
  import Text

  /** Where a phase left the session: its outcome, the error counter, the
      replies not yet read and the blocks written. */
  datatype Phase = Phase(outcome: Outcome, errors: nat, rest: seq<Rx>, sent: seq<seq<byte>>)

  /** Replies consumed by a phase: the script shrinks by the number of reads. */
  predicate Consumed(s: seq<Rx>, p: Phase) {
    |p.rest| <= |s| && p.rest == s[|s| - |p.rest|..]
  }

  /** The last reply a phase consumed. */
  function LastRead(s: seq<Rx>, p: Phase): Rx
    requires |p.rest| < |s|
  {
    s[|s| - |p.rest| - 1]
  }

  /** A phase run on the script after its first reply consumed what it did
      of the whole script, and its last read is the same reply. */
  lemma AfterFirst(s: seq<Rx>, p: Phase)
    requires Consumed(Tail(s), p)
    ensures Consumed(s, p)
    ensures |p.rest| < |Tail(s)| ==> |p.rest| < |s| && LastRead(s, p) == LastRead(Tail(s), p)
  {
    if |s| > 0 {
      assert s[1..][|s| - 1 - |p.rest|..] == s[|s| - |p.rest|..];
    }
  }

  // ---------------------------------------------------------------------------
  // start_send

  /** Wait for the receiver's 'C'. Every other reply (and every timeout) counts
      as an error; CAN bytes are also counted, and the second one cancels, in
      preference to exhaustion. On exhaustion one CAN is written. */
  function StartSend(cfg: Config, errors: nat, cancels: nat, s: seq<Rx>): (p: Phase)
    requires cancels < 2
    ensures p.outcome in {Ok, Err(Io), Err(Canceled), Err(ExhaustedRetries)}
    ensures p.outcome.Ok? || p.outcome == Err(Io) ==> p.errors < cfg.maxErrors || p.errors == errors
    ensures p.outcome == Err(ExhaustedRetries) ==> p.errors == ExhaustedAt(errors, cfg.maxErrors)
    ensures p.sent == (if p.outcome == Err(ExhaustedRetries) then [[CAN]] else [])
    decreases cfg.maxErrors - errors
  {
    var rx := Head(s);
    if rx.Fault? then Phase(Err(Io), errors, Tail(s), [])
    else if rx == Byte(CRC) then Phase(Ok, errors, Tail(s), [])
    else
      var cancels' := if rx == Byte(CAN) then cancels + 1 else cancels;
      var errors' := errors + 1;
      if cancels' >= 2 then Phase(Err(Canceled), errors', Tail(s), [])
      else if errors' >= cfg.maxErrors then Phase(Err(ExhaustedRetries), errors', Tail(s), [[CAN]])
      else StartSend(cfg, errors', cancels', Tail(s))
  }

  /** `start_send` only reads the script from the front, and it succeeds
      exactly on reading a 'C'. */
  lemma {:induction false} StartSendReads(cfg: Config, errors: nat, cancels: nat, s: seq<Rx>)
    requires cancels < 2
    ensures var p := StartSend(cfg, errors, cancels, s);
      && Consumed(s, p)
      && (p.outcome.Ok? ==> |p.rest| < |s| && LastRead(s, p) == Byte(CRC))
    decreases cfg.maxErrors - errors
  {
    var rx := Head(s);
    if !rx.Fault? && rx != Byte(CRC) {
      var cancels' := if rx == Byte(CAN) then cancels + 1 else cancels;
      if cancels' < 2 && errors + 1 < cfg.maxErrors {
        StartSendReads(cfg, errors + 1, cancels', Tail(s));
        AfterFirst(s, StartSend(cfg, errors + 1, cancels', Tail(s)));
      }
    }
  }

  /** A reply that is neither the awaited byte nor a fault. */
  predicate Miss(rx: Rx, want: byte) {
    !rx.Fault? && rx != Byte(want)
  }

  /** The CANs among some replies. */
  function CountCan(s: seq<Rx>): nat {
    if |s| == 0 then 0 else (if s[0] == Byte(CAN) then 1 else 0) + CountCan(s[1..])
  }

  /** A silent line exhausts `start_send` after exactly the remaining budget,
      and one CAN is written. */
  lemma {:induction false} StartSendSilent(cfg: Config, errors: nat, cancels: nat)
    requires cancels < 2
    ensures StartSend(cfg, errors, cancels, [])
         == Phase(Err(ExhaustedRetries), ExhaustedAt(errors, cfg.maxErrors), [], [[CAN]])
    decreases cfg.maxErrors - errors
  {
    if errors + 1 < cfg.maxErrors {
      StartSendSilent(cfg, errors + 1, cancels);
    }
  }

  /** After misses holding fewer than two CANs in all, which the budget allows,
      a 'C' ends `start_send` successfully with one more error per miss. */
  lemma {:induction false} StartSendFirstC(cfg: Config, errors: nat, cancels: nat, misses: seq<Rx>, rest: seq<Rx>)
    requires cancels < 2
    requires forall i :: 0 <= i < |misses| ==> Miss(misses[i], CRC)
    requires cancels + CountCan(misses) < 2
    requires errors + |misses| < cfg.maxErrors
    ensures StartSend(cfg, errors, cancels, misses + [Byte(CRC)] + rest) == Phase(Ok, errors + |misses|, rest, [])
    decreases |misses|
  {
    var s := misses + [Byte(CRC)] + rest;
    if |misses| > 0 {
      var c' := if misses[0] == Byte(CAN) then cancels + 1 else cancels;
      assert s[0] == misses[0];
      assert s[1..] == misses[1..] + [Byte(CRC)] + rest;
      StartSendStep(cfg, errors, cancels, s);
      StartSendFirstC(cfg, errors + 1, c', misses[1..], rest);
      assert StartSend(cfg, errors + 1, c', s[1..]) == Phase(Ok, errors + |misses|, rest, []);
    } else {
      assert s == [Byte(CRC)] + rest;
      assert Head(s) == Byte(CRC) && Tail(s) == rest;
    }
  }

  /** After misses holding one CAN in all, which the budget allows, a second
      CAN cancels `start_send`: the two CANs need not be adjacent. */
  lemma {:induction false} StartSendSecondCan(cfg: Config, errors: nat, cancels: nat, misses: seq<Rx>, rest: seq<Rx>)
    requires cancels < 2
    requires forall i :: 0 <= i < |misses| ==> Miss(misses[i], CRC)
    requires cancels + CountCan(misses) == 1
    requires errors + |misses| < cfg.maxErrors
    ensures StartSend(cfg, errors, cancels, misses + [Byte(CAN)] + rest)
         == Phase(Err(Canceled), errors + |misses| + 1, rest, [])
    decreases |misses|
  {
    var s := misses + [Byte(CAN)] + rest;
    if |misses| > 0 {
      var c' := if misses[0] == Byte(CAN) then cancels + 1 else cancels;
      assert s[0] == misses[0];
      assert s[1..] == misses[1..] + [Byte(CAN)] + rest;
      StartSendStep(cfg, errors, cancels, s);
      StartSendSecondCan(cfg, errors + 1, c', misses[1..], rest);
      assert StartSend(cfg, errors + 1, c', s[1..]) == Phase(Err(Canceled), errors + |misses| + 1, rest, []);
    } else {
      assert s == [Byte(CAN)] + rest;
      assert Head(s) == Byte(CAN) && Tail(s) == rest;
    }
  }

  /** A miss that neither cancels nor exhausts the budget only moves the loop
      on by one reply. */
  lemma StartSendStep(cfg: Config, errors: nat, cancels: nat, s: seq<Rx>)
    requires cancels < 2 && |s| > 0 && Miss(s[0], CRC)
    requires (if s[0] == Byte(CAN) then cancels + 1 else cancels) < 2
    requires errors + 1 < cfg.maxErrors
    ensures StartSend(cfg, errors, cancels, s)
         == StartSend(cfg, errors + 1, if s[0] == Byte(CAN) then cancels + 1 else cancels, s[1..])
  {
  }

  // ---------------------------------------------------------------------------
  // send_start_frame

  /** The two wait loops of `send_start_frame`: wait for `want`, adding one
      error per other reply, until the budget is gone. */
  function AwaitByte(cfg: Config, want: byte, errors: nat, s: seq<Rx>): (p: Phase)
    ensures p.sent == []
    ensures p.outcome in {Ok, Err(Io), Err(ExhaustedRetries)}
    ensures p.outcome.Ok? ==> p.errors < cfg.maxErrors || p.errors == errors
    ensures p.outcome == Err(ExhaustedRetries) ==> p.errors == ExhaustedAt(errors, cfg.maxErrors)
    ensures p.errors >= errors
    decreases cfg.maxErrors - errors
  {
    var rx := Head(s);
    if rx.Fault? then Phase(Err(Io), errors, Tail(s), [])
    else if rx == Byte(want) then Phase(Ok, errors, Tail(s), [])
    else if errors + 1 >= cfg.maxErrors then Phase(Err(ExhaustedRetries), errors + 1, Tail(s), [])
    else AwaitByte(cfg, want, errors + 1, Tail(s))
  }

  /** A wait loop only reads the script from the front, and it succeeds
      exactly on reading the awaited byte. */
  lemma {:induction false} AwaitByteReads(cfg: Config, want: byte, errors: nat, s: seq<Rx>)
    ensures var p := AwaitByte(cfg, want, errors, s);
      && Consumed(s, p)
      && (p.outcome.Ok? ==> |p.rest| < |s| && LastRead(s, p) == Byte(want))
    decreases cfg.maxErrors - errors
  {
    var rx := Head(s);
    if !rx.Fault? && rx != Byte(want) && errors + 1 < cfg.maxErrors {
      AwaitByteReads(cfg, want, errors + 1, Tail(s));
      AfterFirst(s, AwaitByte(cfg, want, errors + 1, Tail(s)));
    }
  }

  /** A line that never answers exhausts a wait loop after exactly the
      remaining budget. */
  lemma {:induction false} AwaitByteSilent(cfg: Config, want: byte, errors: nat)
    ensures AwaitByte(cfg, want, errors, [])
         == Phase(Err(ExhaustedRetries), ExhaustedAt(errors, cfg.maxErrors), [], [])
    decreases cfg.maxErrors - errors
  {
    if errors + 1 < cfg.maxErrors {
      AwaitByteSilent(cfg, want, errors + 1);
    }
  }

  /** Misses within the budget, then the awaited byte: success with one more
      error per miss. */
  lemma {:induction false} AwaitByteHit(cfg: Config, want: byte, errors: nat, misses: seq<Rx>, rest: seq<Rx>)
    requires forall i :: 0 <= i < |misses| ==> Miss(misses[i], want)
    requires errors + |misses| < cfg.maxErrors
    ensures AwaitByte(cfg, want, errors, misses + [Byte(want)] + rest) == Phase(Ok, errors + |misses|, rest, [])
    decreases |misses|
  {
    var s := misses + [Byte(want)] + rest;
    if |misses| > 0 {
      assert s[0] == misses[0];
      assert s[1..] == misses[1..] + [Byte(want)] + rest;
      AwaitByteHit(cfg, want, errors + 1, misses[1..], rest);
    } else {
      assert s == [Byte(want)] + rest;
    }
  }

  /** Write block 0 once, then wait for its ACK and then for a 'C'. The block
      is not written again whatever the replies. A name and size too long for
      the 128-byte payload panic while the block is built, before anything
      is read or written. */
  function SendStartFrame(cfg: Config, crc: Crc16, name: seq<byte>, size: u64, errors: nat, s: seq<Rx>): (p: Phase)
    ensures Consumed(s, p)
    ensures p.outcome == Err(Panic) <==> !HeaderFits(name, size)
    ensures !HeaderFits(name, size) ==> p.sent == [] && p.rest == s && p.errors == errors
    ensures HeaderFits(name, size) ==> p.sent == [StartFrame(crc, name, size)]
    ensures p.outcome in {Ok, Err(Io), Err(ExhaustedRetries), Err(Panic)}
    ensures p.errors >= errors
    ensures p.outcome == Err(ExhaustedRetries) ==> p.errors >= cfg.maxErrors
  {
    if !HeaderFits(name, size) then Phase(Err(Panic), errors, s, [])
    else
      var frame := StartFrame(crc, name, size);
      var ack := AwaitByte(cfg, ACK, errors, s);
      AwaitByteReads(cfg, ACK, errors, s);
      if !ack.outcome.Ok? then Phase(ack.outcome, ack.errors, ack.rest, [frame])
      else
        var c := AwaitByte(cfg, CRC, ack.errors, ack.rest);
        AwaitByteReads(cfg, CRC, ack.errors, ack.rest);
        Chain(s, ack, c).(sent := [frame])
  }

  // ---------------------------------------------------------------------------
  // send_stream

  function Min(a: nat, b: nat): nat {
    if a <= b then a else b
  }

  function Flatten(cs: seq<seq<byte>>): seq<byte> {
    if |cs| == 0 then [] else cs[0] + Flatten(cs[1..])
  }

  /** How the stream is cut into blocks when every read fills its buffer or
      reaches the end of the stream: block `blockNum + i` carries chunk `i`.
      Every byte is carried exactly once and in order, and no chunk is empty
      or larger than its block. */
  function Chunks(blockNum: nat, packets: nat, lastSize: nat, data: seq<byte>): (cs: seq<seq<byte>>)
    ensures Flatten(cs) == data
    ensures forall i :: 0 <= i < |cs| ==> 1 <= |cs[i]| <= BlockSize(blockNum + i, packets, lastSize)
    decreases |data|
  {
    if |data| == 0 then []
    else
      var n := Min(BlockSize(blockNum, packets, lastSize), |data|);
      var tail := Chunks(blockNum + 1, packets, lastSize, data[n..]);
      var cs := [data[..n]] + tail;
      assert cs[1..] == tail;
      assert data[..n] + data[n..] == data;
      assert forall i :: 1 <= i < |cs| ==> cs[i] == tail[i - 1];
      cs
  }

  /** The data blocks of a stream, numbered from `blockNum + 1`, as they
      would be written if every reply were an ACK. */
  function DataFrames(cfg: Config, crc: Crc16, blockNum: nat, packets: nat, lastSize: nat, data: seq<byte>): seq<seq<byte>>
    decreases |data|
  {
    if |data| == 0 then []
    else
      var size := BlockSize(blockNum, packets, lastSize);
      var n := Min(size, |data|);
      [DataFrame(crc, cfg.padByte, blockNum + 1, size, data[..n])]
        + DataFrames(cfg, crc, blockNum + 1, packets, lastSize, data[n..])
  }

  /** Data block `i` of a stream is numbered `i + 1` and carries chunk `i`,
      padded to the size of its block. */
  lemma DataFramesCarryChunks(cfg: Config, crc: Crc16, packets: nat, lastSize: nat, data: seq<byte>, i: nat)
    requires i < |Chunks(0, packets, lastSize, data)|
    ensures |DataFrames(cfg, crc, 0, packets, lastSize, data)| == |Chunks(0, packets, lastSize, data)|
    ensures DataFrames(cfg, crc, 0, packets, lastSize, data)[i]
         == DataFrame(crc, cfg.padByte, i + 1, BlockSize(i, packets, lastSize), Chunks(0, packets, lastSize, data)[i])
  {
    DataFramesLength(cfg, crc, 0, packets, lastSize, data);
    FrameOfChunk(cfg, crc, 0, packets, lastSize, data, i, i);
  }

  /** Data block `i`, with `b` its absolute position in the stream. */
  lemma {:induction false} FrameOfChunk(cfg: Config, crc: Crc16, blockNum: nat, packets: nat, lastSize: nat,
                                        data: seq<byte>, i: nat, b: nat)
    requires i < |Chunks(blockNum, packets, lastSize, data)|
    requires b == blockNum + i
    ensures i < |DataFrames(cfg, crc, blockNum, packets, lastSize, data)|
    ensures DataFrames(cfg, crc, blockNum, packets, lastSize, data)[i]
         == DataFrame(crc, cfg.padByte, b + 1, BlockSize(b, packets, lastSize), Chunks(blockNum, packets, lastSize, data)[i])
    decreases i
  {
    var size := BlockSize(blockNum, packets, lastSize);
    var n := Min(size, |data|);
    var ds := Chunks(blockNum + 1, packets, lastSize, data[n..]);
    var fs := DataFrames(cfg, crc, blockNum + 1, packets, lastSize, data[n..]);
    var first := DataFrame(crc, cfg.padByte, blockNum + 1, size, data[..n]);
    var frames := DataFrames(cfg, crc, blockNum, packets, lastSize, data);
    var chunks := Chunks(blockNum, packets, lastSize, data);
    if i > 0 {
      FrameOfChunk(cfg, crc, blockNum + 1, packets, lastSize, data[n..], i - 1, b);
      assert i < |frames| && frames[i] == fs[i - 1] by {
        assert frames == [first] + fs;
      }
      assert chunks[i] == ds[i - 1] by {
        assert chunks == [data[..n]] + ds;
      }
    } else {
      assert 0 < |frames| && frames[0] == first by {
        assert frames == [first] + fs;
      }
      assert chunks[0] == data[..n] by {
        assert chunks == [data[..n]] + ds;
      }
    }
  }

  lemma {:induction false} DataFramesLength(cfg: Config, crc: Crc16, blockNum: nat, packets: nat, lastSize: nat, data: seq<byte>)
    ensures |DataFrames(cfg, crc, blockNum, packets, lastSize, data)| == |Chunks(blockNum, packets, lastSize, data)|
    decreases |data|
  {
    if |data| > 0 {
      var n := Min(BlockSize(blockNum, packets, lastSize), |data|);
      DataFramesLength(cfg, crc, blockNum + 1, packets, lastSize, data[n..]);
    }
  }

  /** One loop turn per read of the stream: a read of 0 bytes ends the phase
      successfully; otherwise the block is numbered one past the previous one,
      written, and its reply read. A reply other than ACK only adds an error:
      the block is not resent and the next read carries on with the stream. */
  function SendStream(cfg: Config, crc: Crc16, packets: nat, lastSize: nat, blockNum: nat,
                      data: seq<byte>, errors: nat, s: seq<Rx>): (p: Phase)
    ensures Consumed(s, p)
    ensures p.outcome in {Ok, Err(Io), Err(ExhaustedRetries)}
    ensures p.outcome.Err? ==> 1 <= |p.sent|
    ensures p.errors >= errors
    ensures p.outcome == Err(ExhaustedRetries) ==> p.errors >= cfg.maxErrors
    decreases |data|
  {
    var size := BlockSize(blockNum, packets, lastSize);
    var n := Min(size, |data|);
    if n == 0 then Phase(Ok, errors, s, [])
    else
      var frame := DataFrame(crc, cfg.padByte, blockNum + 1, size, data[..n]);
      var rx := Head(s);
      if rx.Fault? then Phase(Err(Io), errors, Tail(s), [frame])
      else if errors + 1 >= cfg.maxErrors && rx != Byte(ACK) then
        Phase(Err(ExhaustedRetries), errors + 1, Tail(s), [frame])
      else
        var errors' := if rx == Byte(ACK) then errors else errors + 1;
        var p := SendStream(cfg, crc, packets, lastSize, blockNum + 1, data[n..], errors', Tail(s));
        AfterFirst(s, p);
        Phase(p.outcome, p.errors, p.rest, [frame] + p.sent)
  }

  /** The blocks written are the data blocks of the stream, in order: all
      of them when the phase succeeds, a prefix of them otherwise. */
  lemma {:induction false} SendStreamWrites(cfg: Config, crc: Crc16, packets: nat, lastSize: nat, blockNum: nat,
                                            data: seq<byte>, errors: nat, s: seq<Rx>)
    ensures var p := SendStream(cfg, crc, packets, lastSize, blockNum, data, errors, s);
      var frames := DataFrames(cfg, crc, blockNum, packets, lastSize, data);
      && |p.sent| <= |frames|
      && p.sent == frames[..|p.sent|]
      && (p.outcome.Ok? ==> p.sent == frames)
    decreases |data|
  {
    var size := BlockSize(blockNum, packets, lastSize);
    var n := Min(size, |data|);
    var p0 := SendStream(cfg, crc, packets, lastSize, blockNum, data, errors, s);
    var frames := DataFrames(cfg, crc, blockNum, packets, lastSize, data);
    if n > 0 {
      var frame := DataFrame(crc, cfg.padByte, blockNum + 1, size, data[..n]);
      var rest := DataFrames(cfg, crc, blockNum + 1, packets, lastSize, data[n..]);
      var rx := Head(s);
      if !rx.Fault? && !(errors + 1 >= cfg.maxErrors && rx != Byte(ACK)) {
        var errors' := if rx == Byte(ACK) then errors else errors + 1;
        var p := SendStream(cfg, crc, packets, lastSize, blockNum + 1, data[n..], errors', Tail(s));
        assert p0.outcome == p.outcome && p0.sent == [frame] + p.sent;
        SendStreamWrites(cfg, crc, packets, lastSize, blockNum + 1, data[n..], errors', Tail(s));
        assert |frames| == 1 + |rest| && frames[..1 + |p.sent|] == [frame] + rest[..|p.sent|] by {
          assert frames == [frame] + rest;
          PrefixCons(frame, rest, |p.sent|);
        }
      } else {
        assert !p0.outcome.Ok? && p0.sent == [frame];
        assert |frames| >= 1 && frames[..1] == [frame] by {
          assert frames == [frame] + rest;
        }
      }
    } else {
      assert p0.sent == [] && frames == [];
    }
  }

  /** A prefix of a sequence with one more element in front. */
  lemma PrefixCons<T>(x: T, xs: seq<T>, m: nat)
    requires m <= |xs|
    ensures ([x] + xs)[..1 + m] == [x] + xs[..m]
  {
  }

  // ---------------------------------------------------------------------------
  // finish_send, send_end_frame

  /** Write the end block, read one reply, and count an error whatever the
      reply was: even an ACK exhausts a session with one error left. */
  function SendEndFrame(cfg: Config, crc: Crc16, errors: nat, s: seq<Rx>): (p: Phase)
    ensures Consumed(s, p)
    ensures p.sent == [EndFrame(crc)]
    ensures p.outcome in {Ok, Err(Io), Err(ExhaustedRetries)}
    ensures p.outcome != Err(Io) ==> p.errors == errors + 1
    ensures p.outcome == Err(ExhaustedRetries) <==> !Head(s).Fault? && errors + 1 >= cfg.maxErrors
  {
    var frame := EndFrame(crc);
    if Head(s).Fault? then Phase(Err(Io), errors, Tail(s), [frame])
    else if errors + 1 >= cfg.maxErrors then Phase(Err(ExhaustedRetries), errors + 1, Tail(s), [frame])
    else match ReadStream(Tail(s))
      case StreamError => Phase(Err(Io), errors + 1, Tail(s), [frame])
      case Burst(_, rest) =>
        AfterFirst(s, Phase(Ok, errors + 1, rest, [frame]));
        Phase(Ok, errors + 1, rest, [frame])
  }

  /** Write EOT, read one reply (an ACK is not required and a wrong reply is not
      counted), read the receiver's report, then close the batch. */
  function FinishSend(cfg: Config, crc: Crc16, errors: nat, s: seq<Rx>): (p: Phase)
    ensures Consumed(s, p)
    ensures 1 <= |p.sent| <= 2 && p.sent[0] == [EOT]
    ensures p.outcome.Ok? ==> p.sent == [[EOT], EndFrame(crc)] && p.errors == errors + 1 < cfg.maxErrors
    ensures p.outcome in {Ok, Err(Io), Err(ExhaustedRetries), Err(Panic)}
    ensures p.outcome == Err(Panic) ==> p.sent == [[EOT]] && p.errors == errors
    ensures p.errors >= errors
    ensures p.outcome == Err(ExhaustedRetries) ==> p.errors >= cfg.maxErrors
  {
    if Head(s).Fault? then Phase(Err(Io), errors, Tail(s), [[EOT]])
    else
      var q := CloseBatch(cfg, crc, errors, Tail(s));
      AfterFirst(s, q);
      AfterEot(q.sent, EndFrame(crc));
      q.(sent := [[EOT]] + q.sent)
  }

  /** The blocks of a batch's close, behind the EOT written before them. */
  lemma AfterEot(sent: seq<seq<byte>>, frame: seq<byte>)
    requires |sent| <= 1
    ensures var all := [[EOT]] + sent;
      && 1 <= |all| <= 2 && all[0] == [EOT]
      && (sent == [frame] ==> all == [[EOT], frame])
      && (sent == [] ==> all == [[EOT]])
  {
  }

  /** After EOT and its reply: read the receiver's report, which is
      unwrapped as UTF-8 text (a report that is not UTF-8 panics), then write
      the end block. */
  function CloseBatch(cfg: Config, crc: Crc16, errors: nat, s: seq<Rx>): (p: Phase)
    ensures Consumed(s, p)
    ensures |p.sent| <= 1
    ensures p.outcome.Ok? ==> p.sent == [EndFrame(crc)] && p.errors == errors + 1 < cfg.maxErrors
    ensures p.outcome in {Ok, Err(Io), Err(ExhaustedRetries), Err(Panic)}
    ensures p.outcome == Err(Panic) ==> p.sent == [] && p.errors == errors
    ensures p.errors >= errors
    ensures p.outcome == Err(ExhaustedRetries) ==> p.errors >= cfg.maxErrors
  {
    match ReadStream(s)
    case StreamError => Phase(Err(Io), errors, s, [])
    case Burst(report, rest) =>
      if report.Some? && !Text.ValidUtf8(report.value) then Phase(Err(Panic), errors, rest, [])
      else
        var p := SendEndFrame(cfg, crc, errors, rest);
        ConsumedTrans(s, Phase(Ok, errors, rest, []), p);
        p
  }

  /** A report that is not UTF-8 ends the batch in a panic, before the end
      block; a UTF-8 report goes on to the end block. */
  lemma CloseBatchReport(cfg: Config, crc: Crc16, errors: nat, report: seq<byte>, rest: seq<Rx>)
    ensures var p := CloseBatch(cfg, crc, errors, Line(report) + [Timeout] + rest);
      && (!Text.ValidUtf8(report) ==> p == Phase(Err(Panic), errors, rest, []))
      && (Text.ValidUtf8(report) ==> p == SendEndFrame(cfg, crc, errors, rest))
  {
    ReadRunLine(report, rest);
  }

  /** The report is read whatever reply EOT got: after EOT, any byte, then a
      report that is not UTF-8, the transfer's finish panics with no end
      block written. */
  lemma FinishSendBadReport(cfg: Config, crc: Crc16, errors: nat, reply: byte, report: seq<byte>, rest: seq<Rx>)
    requires !Text.ValidUtf8(report)
    ensures FinishSend(cfg, crc, errors, [Byte(reply)] + Line(report) + [Timeout] + rest)
         == Phase(Err(Panic), errors, rest, [[EOT]])
  {
    ConsAssoc(Byte(reply), Line(report), [Timeout], rest);
    FinishSendAfterReply(cfg, crc, errors, reply, Line(report) + [Timeout] + rest);
    CloseBatchReport(cfg, crc, errors, report, rest);
  }

  /** One element in front of three joined sequences. */
  lemma ConsAssoc<T>(x: T, a: seq<T>, b: seq<T>, c: seq<T>)
    ensures [x] + a + b + c == [x] + (a + b + c)
  {
  }

  /** Whatever byte answers EOT, the batch goes on to its close. */
  lemma FinishSendAfterReply(cfg: Config, crc: Crc16, errors: nat, reply: byte, t: seq<Rx>)
    ensures FinishSend(cfg, crc, errors, [Byte(reply)] + t)
         == var q := CloseBatch(cfg, crc, errors, t); q.(sent := [[EOT]] + q.sent)
  {
    assert Head([Byte(reply)] + t) == Byte(reply) && Tail([Byte(reply)] + t) == t;
  }

  // ---------------------------------------------------------------------------
  // send

  /** The blocks a successful transfer writes: the header block, the data
      blocks of the stream, EOT and the end block. */
  function Transcript(cfg: Config, crc: Crc16, name: seq<byte>, size: u64, data: seq<byte>): seq<seq<byte>>
    requires HeaderFits(name, size)
  {
    [StartFrame(crc, name, size)] + TailTranscript(cfg, crc, size, data)
  }

  /** Replies consumed by two phases in a row are consumed by the pair. */
  lemma ConsumedTrans(s: seq<Rx>, a: Phase, b: Phase)
    requires Consumed(s, a) && Consumed(a.rest, b)
    ensures Consumed(s, b)
  {
    assert s[|s| - |a.rest|..][|a.rest| - |b.rest|..] == s[|s| - |b.rest|..];
  }

  /** Phase `b`, run on the replies phase `a` left: `b`'s outcome and
      counter, after the blocks of both. */
  function Chain(s: seq<Rx>, a: Phase, b: Phase): (p: Phase)
    requires Consumed(s, a) && Consumed(a.rest, b)
    ensures Consumed(s, p)
    ensures p.outcome == b.outcome && p.errors == b.errors && p.sent == a.sent + b.sent
  {
    ConsumedTrans(s, a, b);
    Phase(b.outcome, b.errors, b.rest, a.sent + b.sent)
  }

  /** The blocks after block 0 on a successful transfer: the data blocks,
      EOT and the end block. */
  function TailTranscript(cfg: Config, crc: Crc16, size: u64, data: seq<byte>): seq<seq<byte>> {
    DataFrames(cfg, crc, 0, CeilDiv(size, LONG_BLOCK), size % LONG_BLOCK, data) + [[EOT], EndFrame(crc)]
  }

  /** The stream, then EOT and the end block, the second phase starting where
      the first one stopped. */
  function SendData(cfg: Config, crc: Crc16, size: u64, data: seq<byte>, errors: nat, s: seq<Rx>): (p: Phase)
    ensures Consumed(s, p)
    ensures p.outcome in {Ok, Err(Io), Err(ExhaustedRetries), Err(Panic)}
    ensures p.outcome.Ok? ==> p.sent == TailTranscript(cfg, crc, size, data)
    ensures p.outcome.Ok? ==> errors < p.errors < cfg.maxErrors
    ensures p.outcome == Err(ExhaustedRetries) ==> p.errors >= cfg.maxErrors
  {
    var c := SendStream(cfg, crc, CeilDiv(size, LONG_BLOCK), size % LONG_BLOCK, 0, data, errors, s);
    SendStreamWrites(cfg, crc, CeilDiv(size, LONG_BLOCK), size % LONG_BLOCK, 0, data, errors, s);
    if !c.outcome.Ok? then c
    else Chain(s, c, FinishSend(cfg, crc, c.errors, c.rest))
  }

  /** Everything after the receiver's first 'C': block 0, then the data. */
  function SendBlocks(cfg: Config, crc: Crc16, name: seq<byte>, size: u64, data: seq<byte>,
                      errors: nat, s: seq<Rx>): (p: Phase)
    ensures Consumed(s, p)
    ensures p.outcome in {Ok, Err(Io), Err(ExhaustedRetries), Err(Panic)}
    ensures !HeaderFits(name, size) ==> p == Phase(Err(Panic), errors, s, [])
    ensures p.outcome.Ok? ==> HeaderFits(name, size) && p.sent == Transcript(cfg, crc, name, size, data)
    ensures p.outcome.Ok? ==> errors < p.errors < cfg.maxErrors
    ensures p.outcome == Err(ExhaustedRetries) ==> p.errors >= cfg.maxErrors
  {
    var b := SendStartFrame(cfg, crc, name, size, errors, s);
    if !b.outcome.Ok? then b
    else Chain(s, b, SendData(cfg, crc, size, data, b.errors, b.rest))
  }

  /** The whole transfer of `data`, announced as `name` of `size` bytes. The
      error counter starts at 0 and is shared by all phases; the first phase
      that fails ends the transfer with its error. */
  function Send(cfg: Config, crc: Crc16, name: seq<byte>, size: u64, data: seq<byte>, s: seq<Rx>): (p: Phase)
    ensures Consumed(s, p)
    ensures p.outcome in {Ok, Err(Io), Err(Canceled), Err(ExhaustedRetries), Err(Panic)}
    ensures p.outcome.Ok? ==> HeaderFits(name, size) && p.sent == Transcript(cfg, crc, name, size, data)
    ensures p.outcome.Ok? ==> 1 <= p.errors < cfg.maxErrors
    ensures p.outcome == Err(ExhaustedRetries) ==> p.errors >= cfg.maxErrors
    ensures p.outcome == Err(Canceled) ==> p.sent == []
  {
    var a := StartSend(cfg, 0, 0, s);
    StartSendReads(cfg, 0, 0, s);
    if !a.outcome.Ok? then a
    else
      var b := SendBlocks(cfg, crc, name, size, data, a.errors, a.rest);
      ConsumedTrans(s, a, b);
      b
  }

  /** A header too long for block 0 panics once the receiver's first 'C' has
      arrived, with nothing written and the counter and line where the wait
      for that 'C' left them; before it, the transfer ends as the wait does. */
  lemma SendOverlongHeader(cfg: Config, crc: Crc16, name: seq<byte>, size: u64, data: seq<byte>, s: seq<Rx>)
    requires !HeaderFits(name, size)
    ensures var a := StartSend(cfg, 0, 0, s);
      Send(cfg, crc, name, size, data, s)
        == if a.outcome.Ok? then Phase(Err(Panic), a.errors, a.rest, []) else a
  {
  }

  /** A line that never answers ends `send` with `ExhaustedRetries` after
      exactly `maxErrors` failed reads (one when the budget is 0), having
      written a single CAN and nothing else. */
  lemma SendSilent(cfg: Config, crc: Crc16, name: seq<byte>, size: u64, data: seq<byte>)
    ensures Send(cfg, crc, name, size, data, [])
         == Phase(Err(ExhaustedRetries), if cfg.maxErrors == 0 then 1 else cfg.maxErrors, [], [[CAN]])
  {
    StartSendSilent(cfg, 0, 0);
  }

  /** With a budget of one error or none, even a receiver that answers every
      block as expected fails the transfer: the end block always costs an error. */
  lemma SendNeedsTwoErrors(cfg: Config, crc: Crc16, name: seq<byte>, size: u64, data: seq<byte>, s: seq<Rx>)
    requires cfg.maxErrors <= 1
    ensures !Send(cfg, crc, name, size, data, s).outcome.Ok?
  {
  }

  /** An empty stream: no data block is written between block 0 and EOT. */
  lemma SendEmptyStream(cfg: Config, crc: Crc16, name: seq<byte>, s: seq<Rx>)
    ensures var p := Send(cfg, crc, name, 0, [], s);
      p.outcome.Ok? ==> p.sent == [StartFrame(crc, name, 0), [EOT], EndFrame(crc)]
  {
    if HeaderFits(name, 0) {
      assert DataFrames(cfg, crc, 0, CeilDiv(0, LONG_BLOCK), 0 % LONG_BLOCK, []) == [];
      assert TailTranscript(cfg, crc, 0, []) == [[EOT], EndFrame(crc)];
      assert Transcript(cfg, crc, name, 0, []) == [StartFrame(crc, name, 0), [EOT], EndFrame(crc)];
    }
  }

  /** The header of an empty stream still announces its size: the single
      digit '0' right after the name's NUL. */
  lemma EmptyStreamHeader(crc: Crc16, name: seq<byte>)
    requires HeaderFits(name, 0)
    ensures StartFrame(crc, name, 0)[4 + |name|] == ZERO_DIGIT
  {
    assert Decimal(0) == [ZERO_DIGIT];
    StartFrameLayout(crc, name, 0);
    var r := StartFrame(crc, name, 0);
    assert r[4 + |name|] == r[4 + |name|..5 + |name|][0];
  }
}
