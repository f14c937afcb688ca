/** The relay board: four coils switched together by Modbus RTU "Write
    Single Coil" requests (function code 5, section 6.5 of the Modbus
    Application Protocol), each closed by the CRC-16 of section 6.2.2 of
    Modbus over Serial Line, low byte first.

    The controller keeps the eight frames of each command as literal
    tables; this module computes the same frames from the protocol and
    shows that the tables hold exactly those. A port is either absent or a
    script of write results, one per write. */
module Relay {
  import opened Bytes

  /** The relay frames are written as they go on the wire, as 8-bit
      vectors. */
  type octet = bv8

  /** The relay board's slave address. */
  const SLAVE: octet := 0x01
  const WRITE_SINGLE_COIL: octet := 0x05
  /** The two coil values the protocol allows. */
  const COIL_ON: bv16 := 0xFF00
  const COIL_OFF: bv16 := 0x0000

  /** The reflected CRC-16 polynomial 0x8005, as the shift-right form uses
      it, and the initial register value. */
  const CRC_POLY: bv16 := 0xA001
  const CRC_INIT: bv16 := 0xFFFF

  /** One shift of the CRC register. */
  function CrcShift(crc: bv16): bv16 {
    if crc & 1 == 1 then (crc >> 1) ^ CRC_POLY else crc >> 1
  }

  /** The register after one more byte: the byte is XORed into the low end
      and shifted out over eight steps. */
  function CrcUpdate(crc: bv16, b: octet): bv16 {
    var c := crc ^ (b as bv16);
    CrcShift(CrcShift(CrcShift(CrcShift(CrcShift(CrcShift(CrcShift(CrcShift(c))))))))
  }

  function CrcOver(crc: bv16, data: seq<octet>): bv16
    decreases |data|
  {
    if |data| == 0 then crc else CrcOver(CrcUpdate(crc, data[0]), data[1..])
  }

  /** CRC-16/MODBUS of `data`. */
  function Crc16(data: seq<octet>): bv16 {
    CrcOver(CRC_INIT, data)
  }

  /** `regs` lists the register after each byte of `data`, starting from
      `crc`. */
  predicate Trace(crc: bv16, data: seq<octet>, regs: seq<bv16>) {
    && |regs| == |data| > 0
    && regs[0] == CrcUpdate(crc, data[0])
    && forall i :: 0 < i < |data| ==> regs[i] == CrcUpdate(regs[i - 1], data[i])
  }

  /** The register after the whole of `data` is the last one of a trace. */
  lemma {:induction false} CrcOverTrace(crc: bv16, data: seq<octet>, regs: seq<bv16>)
    requires Trace(crc, data, regs)
    ensures CrcOver(crc, data) == regs[|data| - 1]
    decreases |data|
  {
    if |data| > 1 {
      assert Trace(regs[0], data[1..], regs[1..]) by {
        forall i | 0 < i < |data| - 1
          ensures regs[1..][i] == CrcUpdate(regs[1..][i - 1], data[1..][i])
        {
          assert regs[1..][i] == regs[i + 1];
        }
      }
      CrcOverTrace(regs[0], data[1..], regs[1..]);
    }
  }

  /** The low and the high byte of a 16-bit value. */
  function Low(v: bv16): (b: octet)
    ensures b as bv16 == v & 0xFF
  {
    (v & 0xFF) as octet
  }

  function High(v: bv16): (b: octet)
    ensures b as bv16 == v >> 8
  {
    (v >> 8) as octet
  }

  /** A message with its CRC appended, low byte first. */
  function WithCrc(message: seq<octet>): (frame: seq<octet>)
    ensures |frame| == |message| + 2 && frame[..|message|] == message
    ensures (frame[|message|] as bv16) | ((frame[|message| + 1] as bv16) << 8) == Crc16(message)
  {
    var c := Crc16(message);
    message + [Low(c), High(c)]
  }

  /** The check a receiver makes: the CRC over a whole frame, its own CRC
      included, leaves the register at zero. */
  predicate CrcResidueZero(frame: seq<octet>) {
    Crc16(frame) == 0
  }

  /** A Write Single Coil request: address, function code, coil number and
      coil value (both most significant byte first), CRC. */
  function WriteSingleCoil(coil: bv16, value: bv16): (frame: seq<octet>)
    ensures |frame| == 8
    ensures frame[0] == SLAVE && frame[1] == WRITE_SINGLE_COIL
    ensures ((frame[2] as bv16) << 8) | (frame[3] as bv16) == coil
    ensures ((frame[4] as bv16) << 8) | (frame[5] as bv16) == value
  {
    WithCrc([SLAVE, WRITE_SINGLE_COIL, High(coil), Low(coil), High(value), Low(value)])
  }

  /** The table `turn_on` writes. */
  const TURN_ON_TABLE: seq<seq<octet>> := [
    [0x01, 0x05, 0x00, 0x00, 0xFF, 0x00, 0x8C, 0x3A],
    [0x01, 0x05, 0x00, 0x01, 0xFF, 0x00, 0xDD, 0xFA],
    [0x01, 0x05, 0x00, 0x02, 0xFF, 0x00, 0x2D, 0xFA],
    [0x01, 0x05, 0x00, 0x03, 0xFF, 0x00, 0x7C, 0x3A]]

  /** The table `turn_off` writes. */
  const TURN_OFF_TABLE: seq<seq<octet>> := [
    [0x01, 0x05, 0x00, 0x00, 0x00, 0x00, 0xCD, 0xCA],
    [0x01, 0x05, 0x00, 0x01, 0x00, 0x00, 0x9C, 0x0A],
    [0x01, 0x05, 0x00, 0x02, 0x00, 0x00, 0x6C, 0x0A],
    [0x01, 0x05, 0x00, 0x03, 0x00, 0x00, 0x3D, 0xCA]]

  /** The four requests that set coils 0 to 3, in that order, to `value`. */
  function AllCoils(value: bv16): (frames: seq<seq<octet>>)
    ensures |frames| == 4
  {
    [WriteSingleCoil(0, value), WriteSingleCoil(1, value), WriteSingleCoil(2, value), WriteSingleCoil(3, value)]
  }

  /** An eight-byte frame whose register trace ends at zero is the request
      it spells out, and a receiver accepts it. */
  lemma CheckFrame(coil: bv16, value: bv16, frame: seq<octet>, regs: seq<bv16>)
    requires |frame| == 8 && |regs| == 8
    requires frame[..6] == [SLAVE, WRITE_SINGLE_COIL, High(coil), Low(coil), High(value), Low(value)]
    requires regs[0] == CrcUpdate(CRC_INIT, frame[0]) && regs[1] == CrcUpdate(regs[0], frame[1])
    requires regs[2] == CrcUpdate(regs[1], frame[2]) && regs[3] == CrcUpdate(regs[2], frame[3])
    requires regs[4] == CrcUpdate(regs[3], frame[4]) && regs[5] == CrcUpdate(regs[4], frame[5])
    requires regs[6] == CrcUpdate(regs[5], frame[6]) && regs[7] == CrcUpdate(regs[6], frame[7])
    requires frame[6] == Low(regs[5]) && frame[7] == High(regs[5])
    requires regs[7] == 0
    ensures WriteSingleCoil(coil, value) == frame && CrcResidueZero(frame)
  {
    assert Trace(CRC_INIT, frame, regs);
    CrcOverTrace(CRC_INIT, frame, regs);
    assert Trace(CRC_INIT, frame[..6], regs[..6]);
    CrcOverTrace(CRC_INIT, frame[..6], regs[..6]);
    assert frame == frame[..6] + [frame[6], frame[7]];
  }

  /** Row 0 of the `turn_on` table, checked through its register trace. */
  lemma TurnOnRow0()
    ensures TURN_ON_TABLE[0] == WriteSingleCoil(0, COIL_ON) && CrcResidueZero(TURN_ON_TABLE[0])
  {
    CheckFrame(0, COIL_ON, TURN_ON_TABLE[0], [0x807E, 0x23C0, 0x5023, 0xD911, 0x4C59, 0x3A8C, 0x003A, 0x0000]);
  }

  /** Row 1 of the `turn_on` table, checked through its register trace. */
  lemma TurnOnRow1()
    ensures TURN_ON_TABLE[1] == WriteSingleCoil(1, COIL_ON) && CrcResidueZero(TURN_ON_TABLE[1])
  {
    CheckFrame(1, COIL_ON, TURN_ON_TABLE[1], [0x807E, 0x23C0, 0x5023, 0x19D0, 0xDC58, 0xFADD, 0x00FA, 0x0000]);
  }

  /** Row 2 of the `turn_on` table, checked through its register trace. */
  lemma TurnOnRow2()
    ensures TURN_ON_TABLE[2] == WriteSingleCoil(2, COIL_ON) && CrcResidueZero(TURN_ON_TABLE[2])
  {
    CheckFrame(2, COIL_ON, TURN_ON_TABLE[2], [0x807E, 0x23C0, 0x5023, 0x1890, 0x2C58, 0xFA2D, 0x00FA, 0x0000]);
  }

  /** Row 3 of the `turn_on` table, checked through its register trace. */
  lemma TurnOnRow3()
    ensures TURN_ON_TABLE[3] == WriteSingleCoil(3, COIL_ON) && CrcResidueZero(TURN_ON_TABLE[3])
  {
    CheckFrame(3, COIL_ON, TURN_ON_TABLE[3], [0x807E, 0x23C0, 0x5023, 0xD851, 0xBC59, 0x3A7C, 0x003A, 0x0000]);
  }

  /** Row 0 of the `turn_off` table, checked through its register trace. */
  lemma TurnOffRow0()
    ensures TURN_OFF_TABLE[0] == WriteSingleCoil(0, COIL_OFF) && CrcResidueZero(TURN_OFF_TABLE[0])
  {
    CheckFrame(0, COIL_OFF, TURN_OFF_TABLE[0], [0x807E, 0x23C0, 0x5023, 0xD911, 0x0C19, 0xCACD, 0x00CA, 0x0000]);
  }

  /** Row 1 of the `turn_off` table, checked through its register trace. */
  lemma TurnOffRow1()
    ensures TURN_OFF_TABLE[1] == WriteSingleCoil(1, COIL_OFF) && CrcResidueZero(TURN_OFF_TABLE[1])
  {
    CheckFrame(1, COIL_OFF, TURN_OFF_TABLE[1], [0x807E, 0x23C0, 0x5023, 0x19D0, 0x9C18, 0x0A9C, 0x000A, 0x0000]);
  }

  /** Row 2 of the `turn_off` table, checked through its register trace. */
  lemma TurnOffRow2()
    ensures TURN_OFF_TABLE[2] == WriteSingleCoil(2, COIL_OFF) && CrcResidueZero(TURN_OFF_TABLE[2])
  {
    CheckFrame(2, COIL_OFF, TURN_OFF_TABLE[2], [0x807E, 0x23C0, 0x5023, 0x1890, 0x6C18, 0x0A6C, 0x000A, 0x0000]);
  }

  /** Row 3 of the `turn_off` table, checked through its register trace. */
  lemma TurnOffRow3()
    ensures TURN_OFF_TABLE[3] == WriteSingleCoil(3, COIL_OFF) && CrcResidueZero(TURN_OFF_TABLE[3])
  {
    CheckFrame(3, COIL_OFF, TURN_OFF_TABLE[3], [0x807E, 0x23C0, 0x5023, 0xD851, 0xFC19, 0xCA3D, 0x00CA, 0x0000]);
  }

  /** The `turn_on` table is the four requests switching coils 0 to 3 on,
      with their correct CRCs, and a receiver accepts each of them. */
  lemma TurnOnTableIsComputed()
    ensures TURN_ON_TABLE == AllCoils(COIL_ON)
    ensures forall i :: 0 <= i < 4 ==> CrcResidueZero(TURN_ON_TABLE[i])
  {
    assert TURN_ON_TABLE == AllCoils(COIL_ON) by {
      TurnOnRow0();
      TurnOnRow1();
      TurnOnRow2();
      TurnOnRow3();
    }
    forall i | 0 <= i < 4
      ensures CrcResidueZero(TURN_ON_TABLE[i])
    {
      if i == 0 { TurnOnRow0(); }
      else if i == 1 { TurnOnRow1(); }
      else if i == 2 { TurnOnRow2(); }
      else { TurnOnRow3(); }
    }
  }

  /** The `turn_off` table is the four requests switching coils 0 to 3 off,
      with their correct CRCs, and a receiver accepts each of them. */
  lemma TurnOffTableIsComputed()
    ensures TURN_OFF_TABLE == AllCoils(COIL_OFF)
    ensures forall i :: 0 <= i < 4 ==> CrcResidueZero(TURN_OFF_TABLE[i])
  {
    assert TURN_OFF_TABLE == AllCoils(COIL_OFF) by {
      TurnOffRow0();
      TurnOffRow1();
      TurnOffRow2();
      TurnOffRow3();
    }
    forall i | 0 <= i < 4
      ensures CrcResidueZero(TURN_OFF_TABLE[i])
    {
      if i == 0 { TurnOffRow0(); }
      else if i == 1 { TurnOffRow1(); }
      else if i == 2 { TurnOffRow2(); }
      else { TurnOffRow3(); }
    }
  }

  // ---------------------------------------------------------------------------
  // The write loop

  /** The number of leading writes the port accepts, up to `n`. */
  function AcceptedPrefix(accepts: seq<bool>, n: nat): (k: nat)
    requires n <= |accepts|
    ensures k <= n
    ensures forall i :: 0 <= i < k ==> accepts[i]
    ensures k < n ==> !accepts[k]
    decreases n
  {
    if n == 0 then 0
    else
      var k := AcceptedPrefix(accepts, n - 1);
      if k == n - 1 && accepts[n - 1] then n else k
  }

  /** Writes `frames` in order and stops at the first write the port
      refuses, returning `false`; `written` are the frames the port took. */
  method WriteFrames(frames: seq<seq<octet>>, accepts: seq<bool>) returns (ok: bool, written: seq<seq<octet>>)
    requires |accepts| >= |frames|
    ensures ok <==> forall i :: 0 <= i < |frames| ==> accepts[i]
    ensures written == frames[..AcceptedPrefix(accepts, |frames|)]
  {
    written := [];
    var i := 0;
    while i < |frames|
      invariant 0 <= i <= |frames|
      invariant forall j :: 0 <= j < i ==> accepts[j]
      invariant written == frames[..i]
    {
      if !accepts[i] {
        return false, written;
      }
      written := written + [frames[i]];
      i := i + 1;
    }
    ok := true;
  }

  /** A port that is either absent or gives one result per write. */
  datatype Port = NoPort | Port(accepts: seq<bool>)

  /** `turn_on`: without a port nothing is written and the command succeeds;
      otherwise the four frames are written in order until one fails. */
  method TurnOn(port: Port) returns (ok: bool, written: seq<seq<octet>>)
    requires port.Port? ==> |port.accepts| >= 4
    ensures port.NoPort? ==> ok && written == []
    ensures port.Port? ==> (ok <==> forall i :: 0 <= i < 4 ==> port.accepts[i])
    ensures port.Port? ==> written == AllCoils(COIL_ON)[..AcceptedPrefix(port.accepts, 4)]
  {
    if port.NoPort? {
      return true, [];
    }
    TurnOnTableIsComputed();
    ok, written := WriteFrames(TURN_ON_TABLE, port.accepts);
  }

  /** `turn_off`: as `turn_on`, with the coils switched off. */
  method TurnOff(port: Port) returns (ok: bool, written: seq<seq<octet>>)
    requires port.Port? ==> |port.accepts| >= 4
    ensures port.NoPort? ==> ok && written == []
    ensures port.Port? ==> (ok <==> forall i :: 0 <= i < 4 ==> port.accepts[i])
    ensures port.Port? ==> written == AllCoils(COIL_OFF)[..AcceptedPrefix(port.accepts, 4)]
  {
    if port.NoPort? {
      return true, [];
    }
    TurnOffTableIsComputed();
    ok, written := WriteFrames(TURN_OFF_TABLE, port.accepts);
  }
}
