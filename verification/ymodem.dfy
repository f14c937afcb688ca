/** What the YMODEM sender and receiver share: the control bytes, the session
    configuration, the error kinds, and the three block layouts (the header
    block 0, a data block, and the empty end-of-batch block 0).

    The CRC16 routine of the session's utility module is not part of this
    model; every operation that needs it takes it as the parameter `crc`. */
module Ymodem {
  import opened Bytes

  const SOH: byte := 0x01
  const STX: byte := 0x02
  const EOT: byte := 0x04
  const ACK: byte := 0x06
  const NAK: byte := 0x15
  const CAN: byte := 0x18
  /** The 'C' a receiver sends to ask for CRC mode. */
  const CRC: byte := 0x43

  /** Payload sizes of the two block kinds. */
  const SHORT_BLOCK: nat := 128
  const LONG_BLOCK: nat := 1024

  type Crc16 = seq<byte> -> u16

  /** The tunable part of a session (`errors` and `initial_errors` are state
      and travel separately). */
  datatype Config = Config(maxErrors: u32, maxInitialErrors: u32, padByte: byte, ignoreNonDigits: bool)

  /** The configuration `Ymodem::new` builds. */
  const DEFAULT: Config := Config(20, 16, 0x1A, false)

  /** Why a transfer stopped. `Panic` stands for a Rust panic of the source
      (an index out of range or a failed `unwrap`); `Stalled` for a receiver
      that would wait forever on a silent line. */
  datatype Error = Io | ExhaustedRetries | Canceled | Panic | Stalled

  datatype Outcome = Ok | Err(error: Error)

  function Fill(b: byte, n: nat): (r: seq<byte>)
    ensures |r| == n
    ensures forall i :: 0 <= i < n ==> r[i] == b
  {
    seq(n, _ => b)
  }

  /** The checksum as it goes on the wire: high byte, then low byte. */
  function CrcBytes(c: u16): (r: seq<byte>)
    ensures |r| == 2
    ensures (r[0] as int) * 0x100 + r[1] == c
  {
    [c / 0x100, c % 0x100]
  }

  /** The header payload fits in one 128-byte block: name, its NUL, and the
      decimal size. A longer one makes the source index past its buffer. */
  predicate HeaderFits(name: seq<byte>, size: u64) {
    |name| + 1 + |Decimal(size)| <= SHORT_BLOCK
  }

  /** The 128 payload bytes of the header block. */
  function HeaderPayload(name: seq<byte>, size: u64): (r: seq<byte>)
    requires HeaderFits(name, size)
    ensures |r| == SHORT_BLOCK
  {
    var digits := Decimal(size);
    name + [0] + digits + Fill(0, SHORT_BLOCK - |name| - 1 - |digits|)
  }

  /** Block 0 of a transfer, as `send_start_frame` builds it. */
  function StartFrame(crc: Crc16, name: seq<byte>, size: u64): (r: seq<byte>)
    requires HeaderFits(name, size)
    ensures |r| == SHORT_BLOCK + 5
  {
    var payload := HeaderPayload(name, size);
    [SOH, 0, 0xFF] + payload + CrcBytes(crc(payload))
  }

  /** Block 0 is SOH, number 0 and its complement, the name, one NUL, the
      decimal size, zero fill up to 128 payload bytes, and the CRC of those
      128 bytes, high byte first. */
  lemma StartFrameLayout(crc: Crc16, name: seq<byte>, size: u64)
    requires HeaderFits(name, size)
    ensures var r := StartFrame(crc, name, size);
      && |r| == 133
      && r[0] == SOH && r[1] == 0 && r[2] == 0xFF
      && r[3..3 + |name|] == name && r[3 + |name|] == 0
      && r[4 + |name|..4 + |name| + |Decimal(size)|] == Decimal(size)
      && (forall i :: 4 + |name| + |Decimal(size)| <= i < 131 ==> r[i] == 0)
      && (r[131] as int) * 0x100 + r[132] == crc(r[3..131])
  {
    var payload := HeaderPayload(name, size);
    var r := StartFrame(crc, name, size);
    assert r[3..131] == payload;
    assert r[3..3 + |name|] == payload[..|name|] == name;
    assert r[4 + |name|..4 + |name| + |Decimal(size)|]
        == payload[|name| + 1..|name| + 1 + |Decimal(size)|] == Decimal(size);
  }

  /** The payload size of the block that follows block `blockNum` (counting
      from 0): 128 for the last block the size promised when its remainder is
      at most 128 bytes, otherwise 1024. */
  function BlockSize(blockNum: nat, packets: nat, lastSize: nat): (r: nat)
    ensures r == SHORT_BLOCK || r == LONG_BLOCK
  {
    if blockNum + 1 == packets && lastSize <= SHORT_BLOCK then SHORT_BLOCK else LONG_BLOCK
  }

  /** A data block carrying `chunk`, numbered `number`, padded to `size`. */
  function DataFrame(crc: Crc16, pad: byte, number: nat, size: nat, chunk: seq<byte>): (r: seq<byte>)
    requires size == SHORT_BLOCK || size == LONG_BLOCK
    requires |chunk| <= size
    ensures |r| == size + 5
  {
    var payload := chunk + Fill(pad, size - |chunk|);
    var head: byte := if size == SHORT_BLOCK then SOH else STX;
    [head, number % 0x100, 0xFF - number % 0x100] + payload + CrcBytes(crc(payload))
  }

  /** A data block starts with SOH for a 128-byte block and STX for a 1024-byte
      one, then the block number modulo 256 and its one's complement; the chunk
      follows, then pad bytes up to the block size, then the CRC of the padded
      payload, high byte first. */
  lemma DataFrameLayout(crc: Crc16, pad: byte, number: nat, size: nat, chunk: seq<byte>)
    requires size == SHORT_BLOCK || size == LONG_BLOCK
    requires |chunk| <= size
    ensures var r := DataFrame(crc, pad, number, size, chunk);
      && r[0] == (if size == SHORT_BLOCK then SOH else STX)
      && r[1] == number % 0x100 && r[2] == 0xFF - r[1]
      && r[3..3 + |chunk|] == chunk
      && (forall i :: 3 + |chunk| <= i < 3 + size ==> r[i] == pad)
      && (r[3 + size] as int) * 0x100 + r[4 + size] == crc(r[3..3 + size])
  {
    var payload := chunk + Fill(pad, size - |chunk|);
    var r := DataFrame(crc, pad, number, size, chunk);
    assert r[3..3 + size] == payload;
    assert r[3..3 + |chunk|] == payload[..|chunk|] == chunk;
  }

  /** The empty block 0 that closes a batch. */
  function EndFrame(crc: Crc16): (r: seq<byte>)
    ensures |r| == SHORT_BLOCK + 5
  {
    var payload := Fill(0, SHORT_BLOCK);
    [SOH, 0, 0xFF] + payload + CrcBytes(crc(payload))
  }

  /** The end block is SOH, number 0 and its complement, 128 zero bytes and
      their CRC, high byte first. */
  lemma EndFrameLayout(crc: Crc16)
    ensures var r := EndFrame(crc);
      && r[0] == SOH && r[1] == 0 && r[2] == 0xFF
      && (forall i :: 3 <= i < 131 ==> r[i] == 0)
      && (r[131] as int) * 0x100 + r[132] == crc(r[3..131])
  {
    var r := EndFrame(crc);
    assert r[3..131] == Fill(0, SHORT_BLOCK);
  }

  /** `a / b` rounded up. */
  function CeilDiv(a: nat, b: nat): (r: nat)
    requires b > 0
    ensures (r - 1) * b < a <= r * b || (a == 0 && r == 0)
  {
    (a + b - 1) / b
  }

  /** The count a retry loop reaches when it gives up, having started at `errors`:
      the loop adds one per bad reply and stops once the count reaches `max`. */
  function ExhaustedAt(errors: nat, max: nat): (r: nat)
    ensures r > errors && r >= max
  {
    if errors < max then max else errors + 1
  }
}
