/** The motor controller's serial protocol: the 10-byte request frame, the
    check a reply must pass, the decoders for the status and parameter
    replies, the two state-name maps and the set/action commands.

    A serial port is an optional `Port` that says whether the write succeeds
    and what the single read returns. Frames carry no checksum in either
    direction. Every decoded quantity is kept as the raw integer of the
    reply: the floating-point scaling of speeds and parameters is not part
    of this model. */
module MotorApis {
  import opened Bytes

  const FRAME_HEAD: byte := 0x5A
  const FRAME_TAIL: byte := 0xA5
  /** The length byte of every request: the argument is one 32-bit word. */
  const ARG_LEN: byte := 4
  /** The buffer one read fills; it starts out all zeros. */
  const REPLY_BUFFER: nat := 128
  /** Replies shorter than this are rejected. */
  const MIN_REPLY: nat := 9

  const STATUS_REQUEST: byte := 0x06
  const PARAMS_REQUEST: byte := 0x7F

  // ---------------------------------------------------------------------------
  // Integers on the wire

  /** `vec_to_int`: four bytes, most significant first. */
  function VecToInt(b: seq<byte>): (r: u32)
    requires |b| >= 4
    ensures BigEndian32(r) == b[..4]
  {
    EncodeDecode32(b);
    FromBigEndian32(b)
  }

  type i16 = x: int | -0x8000 <= x < 0x8000

  /** `vec_to_short`: two bytes, most significant first, as a signed 16-bit
      value (the shift moves bit 7 of the first byte into the sign bit). */
  function VecToShort(b: seq<byte>): (r: i16)
    requires |b| >= 2
    ensures r < 0 <==> b[0] >= 0x80
  {
    var v := (b[0] as int) * 0x100 + b[1];
    if v >= 0x8000 then v - 0x1_0000 else v
  }

  /** `x as u16` on an `i16`: the same sixteen bits read unsigned, that is
      the one 16-bit value congruent to `x` modulo 2^16. */
  function AsU16(x: i16): (r: u16)
    ensures 0 <= x ==> r == x
    ensures r % 0x1_0000 == x % 0x1_0000
  {
    if x < 0 then x + 0x1_0000 else x
  }

  /** The error code is the two bytes read as an unsigned big-endian number:
      the round trip through the signed type loses nothing. */
  lemma ErrorCodeUnsigned(b: seq<byte>)
    requires |b| >= 2
    ensures AsU16(VecToShort(b)) == (b[0] as int) * 0x100 + b[1]
  {
  }

  // ---------------------------------------------------------------------------
  // request

  /** The request frame: two head bytes, the message type, the length 4, the
      argument most significant byte first, and two tail bytes. */
  function RequestFrame(msgType: byte, msg: u32): (r: seq<byte>)
    ensures |r| == 10
  {
    [FRAME_HEAD, FRAME_HEAD, msgType, ARG_LEN] + BigEndian32(msg) + [FRAME_TAIL, FRAME_TAIL]
  }

  /** A request frame is the fixed head, type and length, the argument, and
      the fixed tail, with no checksum; its argument decodes back with
      `vec_to_int`. */
  lemma RequestFrameLayout(msgType: byte, msg: u32)
    ensures var f := RequestFrame(msgType, msg);
      && f[0] == FRAME_HEAD && f[1] == FRAME_HEAD && f[2] == msgType && f[3] == ARG_LEN
      && f[8] == FRAME_TAIL && f[9] == FRAME_TAIL
      && VecToInt(f[4..8]) == msg
  {
    var f := RequestFrame(msgType, msg);
    assert f[4..8] == BigEndian32(msg);
    DecodeEncode32(msg);
  }

  /** Two request frames are equal only for the same type and argument. */
  lemma RequestFrameInjective(t1: byte, m1: u32, t2: byte, m2: u32)
    requires RequestFrame(t1, m1) == RequestFrame(t2, m2)
    ensures t1 == t2 && m1 == m2
  {
    RequestFrameLayout(t1, m1);
    RequestFrameLayout(t2, m2);
  }

  /** A serial port as one request sees it: whether the write succeeds, and
      what the read returns (`None` for a read error; otherwise the bytes
      read, at most the buffer's 128). */
  datatype Port = Port(writeOk: bool, read: Option<seq<byte>>)

  predicate ValidPort(port: Option<Port>) {
    port.Some? && port.value.read.Some? ==> |port.value.read.value| <= REPLY_BUFFER
  }

  /** The answer to a request: none, a payload, or a panic of the source
      (a length byte that reaches past the buffer). */
  datatype Answer = NoAnswer | Payload(bytes: seq<byte>) | Panicked

  /** The read buffer after a read of `got`: the bytes read, then the zeros
      the buffer was created with. */
  function ReplyBuffer(got: seq<byte>): (buf: seq<byte>)
    requires |got| <= REPLY_BUFFER
    ensures |buf| == REPLY_BUFFER && buf[..|got|] == got
    ensures forall i :: |got| <= i < REPLY_BUFFER ==> buf[i] == 0
  {
    got + seq(REPLY_BUFFER - |got|, _ => 0)
  }

  /** The check a reply passes: at least 9 bytes, two head bytes first and two
      tail bytes last. Nothing checks the length byte against the bytes read. */
  predicate Acceptable(got: seq<byte>) {
    && |got| >= MIN_REPLY
    && got[0] == FRAME_HEAD && got[1] == FRAME_HEAD
    && got[|got| - 1] == FRAME_TAIL && got[|got| - 2] == FRAME_TAIL
  }

  /** The payload of an accepted reply: as many bytes as its length byte says,
      from offset 4 of the buffer; beyond the bytes read they are zeros. */
  function AcceptReply(got: seq<byte>): (r: Answer)
    requires |got| <= REPLY_BUFFER
    ensures r.NoAnswer? <==> !Acceptable(got)
    ensures r.Panicked? <==> Acceptable(got) && got[3] as int + 4 > REPLY_BUFFER
    ensures r.Payload? ==> |r.bytes| == got[3] && r.bytes == ReplyBuffer(got)[4..4 + got[3]]
  {
    if !Acceptable(got) then NoAnswer
    else
      var buf := ReplyBuffer(got);
      var len := buf[3];
      if len as int + 4 > REPLY_BUFFER then Panicked else Payload(buf[4..len as int + 4])
  }

  /** A request reads a reply: a port is attached, the write succeeds and so
      does the read. */
  predicate Replies(port: Option<Port>) {
    port.Some? && port.value.writeOk && port.value.read.Some?
  }

  /** An accepted reply whose length byte reaches past the buffer. */
  predicate Overruns(got: seq<byte>) {
    Acceptable(got) && got[3] as int + 4 > REPLY_BUFFER
  }

  /** `request`: the frame is written when a port is attached; no port, a
      failed write, a failed read and a rejected reply all give no answer. An
      accepted reply yields as many bytes as its length byte says, taken from
      offset 4 of what was read and padded with zeros past its end, and
      panics when that count runs past the buffer. */
  function Request(port: Option<Port>, msgType: byte, msg: u32): (r: Answer)
    requires ValidPort(port)
    ensures r.NoAnswer? <==> !Replies(port) || !Acceptable(port.value.read.value)
    ensures r.Panicked? <==> Replies(port) && Overruns(port.value.read.value)
    ensures r.Payload? ==> var got := port.value.read.value;
      && |r.bytes| == got[3] as int
      && forall i :: 0 <= i < |r.bytes| ==> r.bytes[i] == if 4 + i < |got| then got[4 + i] else 0
  {
    match port
    case None => NoAnswer
    case Some(p) =>
      if !p.writeOk then NoAnswer
      else match p.read
        case None => NoAnswer
        case Some(got) => AcceptReply(got)
  }

  /** What `request` writes to the port: the frame when one is attached. */
  function Written(port: Option<Port>, msgType: byte, msg: u32): (w: seq<seq<byte>>)
    ensures port.None? <==> w == []
    ensures port.Some? ==> && |w| == 1 && |w[0]| == 10
                           && w[0][..4] == [FRAME_HEAD, FRAME_HEAD, msgType, ARG_LEN]
                           && VecToInt(w[0][4..8]) == msg
                           && w[0][8..] == [FRAME_TAIL, FRAME_TAIL]
  {
    RequestFrameLayout(msgType, msg);
    if port.None? then [] else [RequestFrame(msgType, msg)]
  }

  /** The bytes of an answer sit at offset 4 of the read buffer. */
  lemma PayloadInBuffer(got: seq<byte>, p: seq<byte>)
    requires |got| <= REPLY_BUFFER && 4 + |p| <= REPLY_BUFFER
    requires forall i :: 0 <= i < |p| ==> p[i] == if 4 + i < |got| then got[4 + i] else 0
    ensures forall i :: 0 <= i < |p| ==> p[i] == ReplyBuffer(got)[4 + i]
  {
    var buf := ReplyBuffer(got);
    forall i | 0 <= i < |p| ensures p[i] == buf[4 + i] {
      if 4 + i < |got| {
        assert buf[..|got|][4 + i] == got[4 + i];
      }
    }
  }

  /** A reply frame as the controller sends it: head, type, length, payload,
      tail. */
  function ReplyFrame(msgType: byte, payload: seq<byte>): (r: seq<byte>)
    requires |payload| < 0x100
    ensures |r| == |payload| + 6
  {
    [FRAME_HEAD, FRAME_HEAD, msgType, |payload| as byte] + payload + [FRAME_TAIL, FRAME_TAIL]
  }

  /** A reply frame that fits the buffer and carries at least three payload
      bytes is accepted and its payload recovered exactly. */
  lemma AcceptReplyFrame(msgType: byte, payload: seq<byte>)
    requires 3 <= |payload| && |payload| + 6 <= REPLY_BUFFER
    ensures AcceptReply(ReplyFrame(msgType, payload)) == Payload(payload)
  {
    var got := ReplyFrame(msgType, payload);
    var buf := ReplyBuffer(got);
    assert buf[4..4 + |payload|] == got[4..4 + |payload|] == payload;
  }

  /** A request answered with a reply frame that fits the buffer and carries
      at least three payload bytes gets back exactly that payload, whatever
      it asked. */
  lemma RequestReplyFrame(msgType: byte, msg: u32, replyType: byte, payload: seq<byte>)
    requires 3 <= |payload| && |payload| + 6 <= REPLY_BUFFER
    ensures var port := Some(Port(true, Some(ReplyFrame(replyType, payload))));
      && ValidPort(port)
      && Request(port, msgType, msg) == Payload(payload)
  {
    AcceptReplyFrame(replyType, payload);
  }

  /** The payload is cut by the length byte alone: a frame that claims more
      bytes than it carries yields the frame's own tail and the buffer's
      zeros. */
  lemma AcceptReplyOverlong()
    ensures AcceptReply([FRAME_HEAD, FRAME_HEAD, STATUS_REQUEST, 4, 1, 2, 3, FRAME_TAIL, FRAME_TAIL])
         == Payload([1, 2, 3, FRAME_TAIL])
  {
    var got: seq<byte> := [FRAME_HEAD, FRAME_HEAD, STATUS_REQUEST, 4, 1, 2, 3, FRAME_TAIL, FRAME_TAIL];
    assert ReplyBuffer(got)[4..8] == [1, 2, 3, FRAME_TAIL];
  }

  // ---------------------------------------------------------------------------
  // State names

  /** `motor_state_to_string`: total, every code from 6 up reading "CTRL_RUN". */
  function MotorStateName(code: byte): (r: string)
    ensures code >= 6 ==> r == "CTRL_RUN"
  {
    match code
    case 0 => "STOP_IDLE"
    case 1 => "BRAKE_STOP"
    case 2 => "SEEK_POS"
    case 3 => "ALIGNMENT"
    case 4 => "OL_START"
    case 5 => "CL_RUNNING"
    case _ => "CTRL_RUN"
  }

  /** `mctrl_state_to_string`: total, every code from 5 up reading "CONT_RUN". */
  function MctrlStateName(code: byte): (r: string)
    ensures code >= 5 ==> r == "CONT_RUN"
  {
    match code
    case 0 => "INIT_SET"
    case 1 => "FAULT_STOP"
    case 2 => "BRAKE_STOP"
    case 3 => "FIRST_RUN"
    case 4 => "NORM_STOP"
    case _ => "CONT_RUN"
  }

  /** The code a motor-state name stands for (the smallest one for "CTRL_RUN"). */
  function MotorStateCode(name: string): Option<byte> {
    if name == "STOP_IDLE" then Some(0)
    else if name == "BRAKE_STOP" then Some(1)
    else if name == "SEEK_POS" then Some(2)
    else if name == "ALIGNMENT" then Some(3)
    else if name == "OL_START" then Some(4)
    else if name == "CL_RUNNING" then Some(5)
    else if name == "CTRL_RUN" then Some(6)
    else None
  }

  function MctrlStateCode(name: string): Option<byte> {
    if name == "INIT_SET" then Some(0)
    else if name == "FAULT_STOP" then Some(1)
    else if name == "BRAKE_STOP" then Some(2)
    else if name == "FIRST_RUN" then Some(3)
    else if name == "NORM_STOP" then Some(4)
    else if name == "CONT_RUN" then Some(5)
    else None
  }

  /** The motor-state names tell codes 0 to 5 apart and lump the rest
      together: reading a name back gives the code, capped at 6. */
  lemma MotorStateNameCode(code: byte)
    ensures MotorStateCode(MotorStateName(code)) == Some(if code < 6 then code else 6)
  {
  }

  /** The control-state names tell codes 0 to 4 apart and lump the rest. */
  lemma MctrlStateNameCode(code: byte)
    ensures MctrlStateCode(MctrlStateName(code)) == Some(if code < 5 then code else 5)
  {
  }

  /** Neither map ever yields the "IDEL" placeholder of a missing reply. */
  lemma StateNamesNotPlaceholder(code: byte)
    ensures MotorStateName(code) != IDLE_PLACEHOLDER && MctrlStateName(code) != IDLE_PLACEHOLDER
  {
  }

  // ---------------------------------------------------------------------------
  // get_motor_status

  /** The state names reported when no valid reply arrives (spelled as in the
      source). */
  const IDLE_PLACEHOLDER: string := "IDEL"

  /** `MotorStatus`, with the speed as the raw thousandths of a revolution
      per second the controller sends. */
  datatype MotorStatus = MotorStatus(rpsMilli: u32, identified: bool, errorCode: u16,
                                     motorState: string, mctrlState: string, identifiedEn: bool)

  const DEFAULT_STATUS: MotorStatus := MotorStatus(0, false, 0, IDLE_PLACEHOLDER, IDLE_PLACEHOLDER, false)

  datatype StatusAnswer = Status(status: MotorStatus) | StatusPanicked

  /** The fields of a status payload: speed at 0..4, identified at 4, error
      code at 5..7, the two state codes at 7 and 8, identify-enable at 9. A
      payload shorter than 10 bytes is a panic. */
  function DecodeStatus(payload: seq<byte>): (r: StatusAnswer)
    ensures r.StatusPanicked? <==> |payload| < 10
  {
    if |payload| < 10 then StatusPanicked
    else Status(MotorStatus(VecToInt(payload[0..4]), payload[4] != 0, AsU16(VecToShort(payload[5..7])),
                            MotorStateName(payload[7]), MctrlStateName(payload[8]), payload[9] != 0))
  }

  /** `get_motor_status`: the defaults when no reply is read or it is
      rejected; a panic when the reply's length byte runs past the buffer or
      claims fewer than 10 bytes; otherwise the fields read from offsets 4 to
      13 of the reply buffer. */
  function GetMotorStatus(port: Option<Port>): (r: StatusAnswer)
    requires ValidPort(port)
    ensures !Replies(port) || !Acceptable(port.value.read.value) ==> r == Status(DEFAULT_STATUS)
    ensures Replies(port) && Acceptable(port.value.read.value) ==>
      (r.StatusPanicked? <==> Overruns(port.value.read.value) || port.value.read.value[3] < 10)
    ensures Replies(port) && Acceptable(port.value.read.value) && r.Status? ==>
      var buf := ReplyBuffer(port.value.read.value);
      r.status == MotorStatus(VecToInt(buf[4..8]), buf[8] != 0, (buf[9] as int) * 0x100 + buf[10],
                              MotorStateName(buf[11]), MctrlStateName(buf[12]), buf[13] != 0)
  {
    match Request(port, STATUS_REQUEST, 0)
    case NoAnswer => Status(DEFAULT_STATUS)
    case Panicked => StatusPanicked
    case Payload(p) =>
      PayloadInBuffer(port.value.read.value, p);
      StatusAtOffsets(ReplyBuffer(port.value.read.value), p);
      DecodeStatus(p)
  }

  /** A payload cut from offset 4 of a buffer that holds a status record has
      its fields at buffer offsets 4 to 13. */
  lemma StatusAtOffsets(buf: seq<byte>, p: seq<byte>)
    requires 4 + |p| <= |buf| && forall i :: 0 <= i < |p| ==> p[i] == buf[4 + i]
    ensures DecodeStatus(p).Status? ==>
      DecodeStatus(p).status == MotorStatus(VecToInt(buf[4..8]), buf[8] != 0, (buf[9] as int) * 0x100 + buf[10],
                                            MotorStateName(buf[11]), MctrlStateName(buf[12]), buf[13] != 0)
  {
    if |p| >= 10 {
      assert p[0..4] == buf[4..8] && p[5..7] == buf[9..11];
      ErrorCodeUnsigned(p[5..7]);
    }
  }

  /** The raw status record a controller sends. */
  datatype StatusRecord = StatusRecord(rpsMilli: u32, identified: byte, errorCode: u16,
                                       motorState: byte, mctrlState: byte, identifiedEn: byte)

  function EncodeStatus(s: StatusRecord): (r: seq<byte>)
    ensures |r| == 10
  {
    BigEndian32(s.rpsMilli) + [s.identified] + CodeBytes(s.errorCode)
      + [s.motorState, s.mctrlState, s.identifiedEn]
  }

  /** A 16-bit code, most significant byte first. */
  function CodeBytes(c: u16): (r: seq<byte>)
    ensures |r| == 2 && (r[0] as int) * 0x100 + r[1] == c
  {
    [c / 0x100, c % 0x100]
  }

  /** Decoding a controller's status record gives back each of its fields, the
      state codes as their names. */
  lemma DecodeEncodeStatus(s: StatusRecord)
    ensures DecodeStatus(EncodeStatus(s))
         == Status(MotorStatus(s.rpsMilli, s.identified != 0, s.errorCode,
                               MotorStateName(s.motorState), MctrlStateName(s.mctrlState), s.identifiedEn != 0))
  {
    var p := EncodeStatus(s);
    assert p[0..4] == BigEndian32(s.rpsMilli);
    DecodeEncode32(s.rpsMilli);
    ErrorCodeUnsigned(p[5..7]);
  }

  /** The whole path: a status reply frame read from the port decodes to the
      record the controller sent. */
  lemma StatusRoundTrip(s: StatusRecord, msgType: byte)
    ensures var port := Some(Port(true, Some(ReplyFrame(msgType, EncodeStatus(s)))));
      && ValidPort(port)
      && GetMotorStatus(port) == DecodeStatus(EncodeStatus(s))
  {
    AcceptReplyFrame(msgType, EncodeStatus(s));
  }

  // ---------------------------------------------------------------------------
  // get_motor_params

  /** `MotorParams`, as the eleven raw 32-bit words of the reply, in order:
      rs, rs_online, ls_d, ls_q, flux, poles, target_rps, torque, vdc_bus,
      acc_max_hzps, acc_start_hzps. */
  datatype MotorParams = MotorParams(words: seq<u32>)

  const PARAM_WORDS: nat := 11

  const DEFAULT_PARAMS: MotorParams := MotorParams([0, 0, 0, 0, 0, 0, 0, 0, 0, 0, 0])

  datatype ParamsAnswer = Params(params: MotorParams) | ParamsPanicked

  /** Consecutive big-endian words, four bytes each. */
  function DecodeWords(b: seq<byte>): (ws: seq<u32>)
    requires |b| % 4 == 0
    ensures |ws| == |b| / 4
    decreases |b|
  {
    if |b| == 0 then [] else [VecToInt(b[..4])] + DecodeWords(b[4..])
  }

  /** Word `i` comes from bytes `4 * i` to `4 * i + 4`. */
  lemma {:induction false} DecodeWordAt(b: seq<byte>, i: nat)
    requires |b| % 4 == 0 && i < |b| / 4
    ensures DecodeWords(b)[i] == VecToInt(b[4 * i..4 * i + 4])
    decreases i
  {
    if i > 0 {
      var k := 4 * (i - 1);
      DecodeWordAt(b[4..], i - 1);
      assert 4 * i == k + 4;
      assert b[4..][k..k + 4] == b[k + 4..k + 8];
    }
  }

  /** The parameter words of a payload: the first 44 bytes, read as eleven
      words. A payload shorter than that is a panic. */
  function DecodeParams(payload: seq<byte>): (r: ParamsAnswer)
    ensures r.ParamsPanicked? <==> |payload| < 4 * PARAM_WORDS
    ensures r.Params? ==> |r.params.words| == PARAM_WORDS
  {
    if |payload| < 4 * PARAM_WORDS then ParamsPanicked
    else Params(MotorParams(DecodeWords(payload[..4 * PARAM_WORDS])))
  }

  /** Parameter `i` (poles is word 5, target_rps word 6, and so on) is read
      from payload offsets `4 * i` to `4 * i + 4`. */
  lemma ParamsLayout(payload: seq<byte>, i: nat)
    requires |payload| >= 4 * PARAM_WORDS && i < PARAM_WORDS
    ensures DecodeParams(payload).params.words[i] == VecToInt(payload[4 * i..4 * i + 4])
  {
    DecodeWordAt(payload[..4 * PARAM_WORDS], i);
    assert payload[..4 * PARAM_WORDS][4 * i..4 * i + 4] == payload[4 * i..4 * i + 4];
  }

  /** `get_motor_params`: all zeros when no reply is read or it is rejected;
      a panic when the reply's length byte runs past the buffer or claims
      fewer than 44 bytes; otherwise word `i` read from offsets `4 + 4 * i` to
      `8 + 4 * i` of the reply buffer. */
  function GetMotorParams(port: Option<Port>): (r: ParamsAnswer)
    requires ValidPort(port)
    ensures !Replies(port) || !Acceptable(port.value.read.value) ==> r == Params(DEFAULT_PARAMS)
    ensures Replies(port) && Acceptable(port.value.read.value) ==>
      (r.ParamsPanicked? <==> Overruns(port.value.read.value) || port.value.read.value[3] < 4 * PARAM_WORDS)
    ensures Replies(port) && Acceptable(port.value.read.value) && r.Params? ==>
      && |r.params.words| == PARAM_WORDS
      && forall i :: 0 <= i < PARAM_WORDS ==>
           r.params.words[i] == VecToInt(ReplyBuffer(port.value.read.value)[4 + 4 * i..8 + 4 * i])
  {
    match Request(port, PARAMS_REQUEST, 0)
    case NoAnswer => Params(DEFAULT_PARAMS)
    case Panicked => ParamsPanicked
    case Payload(p) =>
      PayloadInBuffer(port.value.read.value, p);
      ParamsAtOffsets(ReplyBuffer(port.value.read.value), p);
      DecodeParams(p)
  }

  /** A payload cut from offset 4 of a buffer that holds the parameter words
      has word `i` at buffer offsets `4 + 4 * i` to `8 + 4 * i`. */
  lemma ParamsAtOffsets(buf: seq<byte>, p: seq<byte>)
    requires 4 + |p| <= |buf| && forall i :: 0 <= i < |p| ==> p[i] == buf[4 + i]
    ensures DecodeParams(p).Params? ==>
      forall i :: 0 <= i < PARAM_WORDS ==> DecodeParams(p).params.words[i] == VecToInt(buf[4 + 4 * i..8 + 4 * i])
  {
    if |p| >= 4 * PARAM_WORDS {
      forall i | 0 <= i < PARAM_WORDS
        ensures DecodeParams(p).params.words[i] == VecToInt(buf[4 + 4 * i..8 + 4 * i])
      {
        ParamsLayout(p, i);
        assert p[4 * i..4 * i + 4] == buf[4 + 4 * i..8 + 4 * i];
      }
    }
  }

  /** Words as a controller sends them, four bytes each, most significant
      first. */
  function EncodeWords(ws: seq<u32>): (r: seq<byte>)
    ensures |r| == 4 * |ws|
  {
    if |ws| == 0 then [] else BigEndian32(ws[0]) + EncodeWords(ws[1..])
  }

  lemma {:induction false} DecodeEncodeWords(ws: seq<u32>)
    ensures DecodeWords(EncodeWords(ws)) == ws
    decreases |ws|
  {
    if |ws| > 0 {
      var b := EncodeWords(ws);
      assert b[..4] == BigEndian32(ws[0]);
      assert b[4..] == EncodeWords(ws[1..]);
      DecodeEncode32(ws[0]);
      DecodeEncodeWords(ws[1..]);
    }
  }

  /** Decoding a controller's eleven parameter words gives them back. */
  lemma DecodeEncodeParams(ws: seq<u32>)
    requires |ws| == PARAM_WORDS
    ensures DecodeParams(EncodeWords(ws)) == Params(MotorParams(ws))
  {
    var b := EncodeWords(ws);
    assert b[..4 * PARAM_WORDS] == b by {
      assert |b| == 4 * PARAM_WORDS;
    }
    DecodeEncodeWords(ws);
  }

  // ---------------------------------------------------------------------------
  // Set and action commands

  /** The commands that only write: each has a fixed message type. */
  datatype Action =
    | UpdateSpeedHz(hz: u32)
    | StartMotor
    | StopMotor
    | ResetMotor
    | SetIdentifyEnable(en: bool)
    | SetRsOnlineEnable(en: bool)
    | SetRsRecalcEnable(en: bool)
    | ClearFaults
    | UpdateAccMax(hz: u32)
    | UpdateAccStart(hz: u32)

  function ActionType(a: Action): byte {
    match a
    case UpdateSpeedHz(_) => 0x81
    case StartMotor => 0x82
    case StopMotor => 0x83
    case ResetMotor => 0x84
    case SetIdentifyEnable(_) => 0x86
    case SetRsOnlineEnable(_) => 0x87
    case SetRsRecalcEnable(_) => 0x88
    case ClearFaults => 0x89
    case UpdateAccMax(_) => 0x8A
    case UpdateAccStart(_) => 0x8B
  }

  /** `en as u32` */
  function FlagWord(en: bool): (r: u32)
    ensures r == 0 || r == 1
    ensures r == 1 <==> en
  {
    if en then 1 else 0
  }

  function ActionArg(a: Action): u32 {
    match a
    case UpdateSpeedHz(hz) => hz
    case SetIdentifyEnable(en) => FlagWord(en)
    case SetRsOnlineEnable(en) => FlagWord(en)
    case SetRsRecalcEnable(en) => FlagWord(en)
    case UpdateAccMax(hz) => hz
    case UpdateAccStart(hz) => hz
    case _ => 0
  }

  /** The action a request frame stands for, if any: the inverse of
      `ActionFrame`. */
  function DecodeAction(frame: seq<byte>): Option<Action>
    requires |frame| == 10
  {
    var arg := VecToInt(frame[4..8]);
    if frame != RequestFrame(frame[2], arg) then None
    else match frame[2]
      case 0x81 => Some(UpdateSpeedHz(arg))
      case 0x82 => if arg == 0 then Some(StartMotor) else None
      case 0x83 => if arg == 0 then Some(StopMotor) else None
      case 0x84 => if arg == 0 then Some(ResetMotor) else None
      case 0x86 => if arg <= 1 then Some(SetIdentifyEnable(arg == 1)) else None
      case 0x87 => if arg <= 1 then Some(SetRsOnlineEnable(arg == 1)) else None
      case 0x88 => if arg <= 1 then Some(SetRsRecalcEnable(arg == 1)) else None
      case 0x89 => if arg == 0 then Some(ClearFaults) else None
      case 0x8A => Some(UpdateAccMax(arg))
      case 0x8B => Some(UpdateAccStart(arg))
      case _ => None
  }

  /** The frame an action writes. */
  function ActionFrame(a: Action): (r: seq<byte>)
    ensures |r| == 10
  {
    RequestFrame(ActionType(a), ActionArg(a))
  }

  /** Every action's frame names it unambiguously: decoding it gives the
      action back, so no two actions share a frame. */
  lemma DecodeActionFrame(a: Action)
    ensures DecodeAction(ActionFrame(a)) == Some(a)
  {
    RequestFrameLayout(ActionType(a), ActionArg(a));
  }

  /** Whatever an action's request gets back, it reports success; only a reply
      whose length byte overruns the buffer makes it panic. */
  datatype ActionResult = ActionOk | ActionPanicked

  function Perform(port: Option<Port>, a: Action): (r: ActionResult)
    requires ValidPort(port)
    ensures r.ActionPanicked? <==> Replies(port) && Overruns(port.value.read.value)
  {
    if Request(port, ActionType(a), ActionArg(a)).Panicked? then ActionPanicked else ActionOk
  }

  /** Without a port, or with any reply that is not an overrunning frame, an
      action succeeds. */
  lemma PerformIgnoresReply(port: Option<Port>, a: Action)
    requires ValidPort(port)
    requires port.None? || port.value.read.None? || !Acceptable(port.value.read.value)
             || port.value.read.value[3] as int + 4 <= REPLY_BUFFER
    ensures Perform(port, a) == ActionOk
  {
  }
}
