/** The firmware upgrade: `Upgrade::start` releases the motor's serial port,
    opens the upgrade port, asks the controller to enter its boot loader by
    writing "update" until a reply carries 'C' at index 3 (at most 200
    times), and then sends the firmware image with YMODEM whether or not the
    boot loader answered.

    The upgrade port is a scripted line (`Channel`); every write to it
    succeeds. The image is given as its bytes and its file name as the bytes
    of the name. */
module Upgrade {
  import opened Bytes
  import opened Channel
  import opened Ymodem
  import YmodemSend
  import Text
  import MotorApis

  /** "update" in ASCII. */
  const UPDATE_COMMAND: seq<byte> := [0x75, 0x70, 0x64, 0x61, 0x74, 0x65]

  /** The handshake gives up after this many writes. */
  const MAX_CONNECTS: nat := 200

  /** The handshake writes so far, all of them the command. */
  function Commands(n: nat): (r: seq<seq<byte>>)
    ensures |r| == n
    ensures forall i :: 0 <= i < n ==> r[i] == UPDATE_COMMAND
  {
    seq(n, _ => UPDATE_COMMAND)
  }

  /** Where the handshake left the port: its outcome (an I/O error from a
      read, or a panic on a reply shorter than four bytes), whether the boot
      loader answered, the number of commands written and the replies not
      yet read. */
  datatype Handshake = Handshake(outcome: Outcome, entered: bool, writes: nat, rest: seq<Rx>)

  /** The handshake loop, `count` commands into it: write the command, read
      what arrives before the line falls silent, stop on a 'C' at index 3,
      and give up once 200 commands are written. */
  function Connect(count: nat, s: seq<Rx>): (h: Handshake)
    requires count < MAX_CONNECTS
    ensures count < h.writes <= MAX_CONNECTS
    ensures h.outcome in {Ok, Err(Io), Err(Panic)}
    ensures h.outcome.Ok? && !h.entered ==> h.writes == MAX_CONNECTS
    ensures h.entered ==> h.outcome.Ok?
    decreases MAX_CONNECTS - count
  {
    match ReadStream(s)
    case StreamError => Handshake(Err(Io), false, count + 1, [])
    case Burst(reply, rest) =>
      if reply.Some? && |reply.value| < 4 then Handshake(Err(Panic), false, count + 1, rest)
      else if reply.Some? && reply.value[3] == CRC then Handshake(Ok, true, count + 1, rest)
      else if count + 1 >= MAX_CONNECTS then Handshake(Ok, false, count + 1, rest)
      else Connect(count + 1, rest)
  }

  /** `n` silent reads. */
  function Silence(n: nat): (r: seq<Rx>)
    ensures |r| == n
    ensures forall i :: 0 <= i < n ==> r[i] == Timeout
  {
    seq(n, _ => Timeout)
  }

  /** A boot loader that never answers costs exactly 200 commands and one
      silent read each; the handshake then ends normally. */
  lemma {:induction false} ConnectSilent(count: nat, s: seq<Rx>)
    requires count < MAX_CONNECTS
    ensures Connect(count, Silence(MAX_CONNECTS - count) + s) == Handshake(Ok, false, MAX_CONNECTS, s)
    decreases MAX_CONNECTS - count
  {
    var t := Silence(MAX_CONNECTS - count) + s;
    assert t[0] == Timeout;
    assert Tail(t) == Silence(MAX_CONNECTS - count - 1) + s;
    assert ReadRun(t) == ([], false, Tail(t));
    if count + 1 < MAX_CONNECTS {
      ConnectSilent(count + 1, s);
    }
  }

  /** A reply with 'C' at index 3 ends the handshake at once. */
  lemma ConnectAnswered(count: nat, reply: seq<byte>, s: seq<Rx>)
    requires count < MAX_CONNECTS
    requires |reply| >= 4 && reply[3] == CRC
    ensures Connect(count, Line(reply) + [Timeout] + s) == Handshake(Ok, true, count + 1, s)
  {
    ReadRunLine(reply, s);
  }

  /** A reply of fewer than four bytes makes the source index past it. */
  lemma ConnectShortReply(count: nat, reply: seq<byte>, s: seq<Rx>)
    requires count < MAX_CONNECTS
    requires 1 <= |reply| < 4
    ensures Connect(count, Line(reply) + [Timeout] + s).outcome == Err(Panic)
  {
    ReadRunLine(reply, s);
  }

  /** The result of an upgrade: its outcome, the motor's port afterwards,
      how many handshake commands were written, and everything written to the
      upgrade port, in order. */
  datatype Upgraded = Upgraded(outcome: Outcome, motorPort: Option<MotorApis.Port>, handshakes: nat, sent: seq<seq<byte>>)

  /** `Upgrade::start`. The motor's port is released first, whatever
      follows. Failing to open the upgrade port is an I/O error. A name that
      is not UTF-8 panics, and so does one too long for the header block,
      after the receiver's first 'C'. Any error of the transfer is the
      upgrade's error. */
  function Start(crc: Crc16, motorPort: Option<MotorApis.Port>, portOpened: bool,
                 name: seq<byte>, image: seq<byte>, s: seq<Rx>): (r: Upgraded)
    requires |image| < 0x1_0000_0000_0000_0000
    ensures r.motorPort.None?
    ensures !portOpened ==> r.outcome == Err(Io) && r.sent == []
    ensures portOpened ==> 1 <= r.handshakes <= MAX_CONNECTS && r.handshakes <= |r.sent| && r.sent[..r.handshakes] == Commands(r.handshakes)
    ensures r.outcome.Ok? ==> HeaderFits(name, |image|) && Text.ValidUtf8(name)
    ensures r.outcome.Ok? ==>
      r.sent == Commands(r.handshakes) + YmodemSend.Transcript(DEFAULT, crc, name, |image|, image)
  {
    if !portOpened then Upgraded(Err(Io), None, 0, [])
    else
      var h := Connect(0, s);
      var commands := Commands(h.writes);
      if !h.outcome.Ok? then Upgraded(h.outcome, None, h.writes, commands)
      else if !Text.ValidUtf8(name) then Upgraded(Err(Panic), None, h.writes, commands)
      else
        var p := YmodemSend.Send(DEFAULT, crc, name, |image|, image, h.rest);
        Upgraded(p.outcome, None, h.writes, commands + p.sent)
  }

  /** The transfer is attempted even when the boot loader never answered:
      after 200 unanswered commands, the upgrade is the YMODEM transfer on
      the rest of the line. */
  lemma TransferAfterTimeout(crc: Crc16, motorPort: Option<MotorApis.Port>, name: seq<byte>,
                             image: seq<byte>, s: seq<Rx>)
    requires |image| < 0x1_0000_0000_0000_0000
    requires Text.ValidUtf8(name)
    ensures var p := YmodemSend.Send(DEFAULT, crc, name, |image|, image, s);
      Start(crc, motorPort, true, name, image, Silence(MAX_CONNECTS) + s)
        == Upgraded(p.outcome, None, MAX_CONNECTS, Commands(MAX_CONNECTS) + p.sent)
  {
    ConnectSilent(0, s);
  }

  /** When the boot loader answers the first command, one command precedes
      the transfer, and the upgrade fails exactly when the transfer does. */
  lemma TransferAfterAnswer(crc: Crc16, motorPort: Option<MotorApis.Port>, name: seq<byte>,
                            image: seq<byte>, reply: seq<byte>, s: seq<Rx>)
    requires |image| < 0x1_0000_0000_0000_0000
    requires Text.ValidUtf8(name)
    requires |reply| >= 4 && reply[3] == CRC
    ensures var p := YmodemSend.Send(DEFAULT, crc, name, |image|, image, s);
      var r := Start(crc, motorPort, true, name, image, Line(reply) + [Timeout] + s);
      && r.handshakes == 1
      && (r.outcome.Ok? <==> p.outcome.Ok?)
      && r.sent == [UPDATE_COMMAND] + p.sent
  {
    ConnectAnswered(0, reply, s);
    assert Commands(1) == [UPDATE_COMMAND];
  }
}
