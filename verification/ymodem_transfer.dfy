/** A whole YMODEM transfer: the blocks `send` writes, read back by `recv`.

    The line between the two is the one the sender's transcript describes:
    every block arrives intact and in order, and the three-second pause the
    sender takes before its end block reaches the receiver as one timeout. */
module YmodemTransfer {
  import opened Bytes
  import opened Channel
  import opened Ymodem
  import opened Text
  import YmodemSend
  import YmodemRecv

  /** What the receiver reads while the sender writes `Transcript`: the
      header block, the data blocks and EOT, one timeout for the pause, then
      the end block. */
  function Wire(cfg: Config, crc: Crc16, name: seq<byte>, size: u64, data: seq<byte>): (w: seq<Rx>)
    requires HeaderFits(name, size)
  {
    var t := YmodemSend.Transcript(cfg, crc, name, size, data);
    Line(YmodemSend.Flatten(t[..|t| - 1])) + [Timeout] + Line(t[|t| - 1])
  }

  /** The padded payloads of the data blocks of a stream, numbered from
      `blockNum + 1`: what a receiver that accepts every one of them appends
      to its file. */
  function Payloads(pad: byte, blockNum: nat, packets: nat, lastSize: nat, data: seq<byte>): (p: seq<byte>)
    decreases |data|
  {
    if |data| == 0 then []
    else
      var size := BlockSize(blockNum, packets, lastSize);
      var n := YmodemSend.Min(size, |data|);
      data[..n] + Fill(pad, size - n) + Payloads(pad, blockNum + 1, packets, lastSize, data[n..])
  }

  /** Padding only follows the stream: its bytes come first, in order. */
  lemma {:induction false} PayloadsStartWithData(pad: byte, blockNum: nat, packets: nat, lastSize: nat,
                                                 data: seq<byte>)
    ensures |Payloads(pad, blockNum, packets, lastSize, data)| >= |data|
    ensures Payloads(pad, blockNum, packets, lastSize, data)[..|data|] == data
    decreases |data|
  {
    if |data| > 0 {
      var size := BlockSize(blockNum, packets, lastSize);
      var n := YmodemSend.Min(size, |data|);
      var rest := Payloads(pad, blockNum + 1, packets, lastSize, data[n..]);
      PayloadsStartWithData(pad, blockNum + 1, packets, lastSize, data[n..]);
      var p := data[..n] + Fill(pad, size - n) + rest;
      assert p == Payloads(pad, blockNum, packets, lastSize, data);
      if n == |data| {
        assert p[..|data|] == data[..n];
      } else {
        assert n == size;
        assert p == data[..n] + rest;
        assert p[..|data|] == data[..n] + rest[..|data| - n];
        assert data[..n] + data[n..] == data;
      }
    }
  }

  /** The blocks of a list, written one after the other. */
  lemma {:induction false} FlattenAppend(a: seq<seq<byte>>, b: seq<seq<byte>>)
    ensures YmodemSend.Flatten(a + b) == YmodemSend.Flatten(a) + YmodemSend.Flatten(b)
    decreases |a|
  {
    if |a| == 0 {
      assert a + b == b;
    } else {
      assert (a + b)[0] == a[0] && (a + b)[1..] == a[1..] + b;
      FlattenAppend(a[1..], b);
      assert YmodemSend.Flatten(a + b) == a[0] + YmodemSend.Flatten(a[1..] + b);
    }
  }

  /** How many data blocks the sender writes for a stream of exactly the
      announced size, counted from block `blockNum` on: one per 1024 bytes
      and one for the remainder, except that a remainder of 0 makes the
      block the count calls last a 128-byte one, so one more block follows
      with the rest of the last kilobyte. */
  lemma {:induction false} FrameCountFrom(cfg: Config, crc: Crc16, blockNum: nat, packets: nat, lastSize: nat,
                                          data: seq<byte>)
    requires blockNum < packets && lastSize < LONG_BLOCK
    requires |data| == (packets - 1 - blockNum) * LONG_BLOCK + (if lastSize == 0 then LONG_BLOCK else lastSize)
    ensures |YmodemSend.DataFrames(cfg, crc, blockNum, packets, lastSize, data)|
         == packets - blockNum + (if lastSize == 0 then 1 else 0)
    decreases packets - blockNum
  {
    var size := BlockSize(blockNum, packets, lastSize);
    var n := YmodemSend.Min(size, |data|);
    var after := YmodemSend.DataFrames(cfg, crc, blockNum + 1, packets, lastSize, data[n..]);
    assert |YmodemSend.DataFrames(cfg, crc, blockNum, packets, lastSize, data)| == 1 + |after|;
    if blockNum + 1 < packets {
      FrameCountFrom(cfg, crc, blockNum + 1, packets, lastSize, data[n..]);
    } else if lastSize == 0 {
      assert n == SHORT_BLOCK;
      var m := YmodemSend.Min(BlockSize(blockNum + 1, packets, lastSize), |data[n..]|);
      assert m == |data[n..]|;
      assert |after| == 1 + |YmodemSend.DataFrames(cfg, crc, blockNum + 2, packets, lastSize, data[n..][m..])|;
    } else {
      assert n == |data|;
    }
  }

  /** A stream of `size` bytes is sent as `CeilDiv(size, 1024)` data blocks,
      or one more when `size` is a positive multiple of 1024. */
  lemma FrameCount(cfg: Config, crc: Crc16, size: nat, data: seq<byte>)
    requires |data| == size
    ensures |YmodemSend.DataFrames(cfg, crc, 0, CeilDiv(size, LONG_BLOCK), size % LONG_BLOCK, data)|
         == CeilDiv(size, LONG_BLOCK) + (if size > 0 && size % LONG_BLOCK == 0 then 1 else 0)
  {
    if size > 0 {
      var q := size / LONG_BLOCK;
      var r := size % LONG_BLOCK;
      assert size == q * LONG_BLOCK + r;
      var packets := CeilDiv(size, LONG_BLOCK);
      if r == 0 {
        assert packets == q;
      } else {
        assert packets == q + 1;
      }
      FrameCountFrom(cfg, crc, 0, packets, r, data);
    }
  }

  /** A file of exactly 1024 bytes goes out as two data blocks, of 128 and
      1024 bytes, although one block was announced. */
  lemma WholeKilobyteExtraBlock(cfg: Config, crc: Crc16, data: seq<byte>)
    requires |data| == LONG_BLOCK
    ensures CeilDiv(|data|, LONG_BLOCK) == 1
    ensures var frames := YmodemSend.DataFrames(cfg, crc, 0, 1, 0, data);
      |frames| == 2 && |frames[0]| == SHORT_BLOCK + 5 && |frames[1]| == LONG_BLOCK + 5
  {
    FrameCount(cfg, crc, LONG_BLOCK, data);
    assert YmodemSend.Min(SHORT_BLOCK, |data|) == SHORT_BLOCK;
  }

  /** One data block, on a turn before the last: accepted with ACK, its
      padded payload appended and the block number advanced. */
  lemma RecvDataFrame(cfg: Config, crc: Crc16, k: nat, total: nat, st: YmodemRecv.Blocks, pad: byte,
                      size: nat, chunk: seq<byte>, rest: seq<Rx>)
    requires size == SHORT_BLOCK || size == LONG_BLOCK
    requires |chunk| <= size
    requires st.errors < cfg.maxErrors
    requires st.packetNum == (k + 1) % 0x100
    requires k + 1 < total
    ensures YmodemRecv.RecvBlocks(cfg, crc, k, total, st, Line(DataFrame(crc, pad, k + 1, size, chunk)) + rest)
         == YmodemRecv.RecvBlocks(cfg, crc, k + 1, total,
                                  st.(packetNum := (k + 2) % 0x100, file := st.file + (chunk + Fill(pad, size - |chunk|)),
                                      writes := st.writes + [ACK]), rest)
  {
    var st1 := st.(packetNum := (k + 2) % 0x100, file := st.file + (chunk + Fill(pad, size - |chunk|)),
                   writes := st.writes + [ACK]);
    var frame := DataFrame(crc, pad, k + 1, size, chunk);
    var body := Line(frame[1..]) + rest;
    assert (st.packetNum + 1) % 0x100 == (k + 2) % 0x100 by { NextNumber(k); }
    assert YmodemRecv.RecvBlock(crc, size, st.packetNum, st, body) == YmodemRecv.Next(st1, rest) by {
      YmodemRecv.RecvBlockOfDataFrame(crc, pad, k + 1, size, chunk, st.packetNum, st, rest);
    }
    assert YmodemRecv.RecvTurn(crc, k, total - 1, st, Line(frame) + rest) == YmodemRecv.Next(st1, rest) by {
      YmodemRecv.RecvTurnOfDataFrame(crc, k, total - 1, st, pad, k + 1, size, chunk, rest);
    }
  }

  /** Block numbers count modulo 256. */
  lemma NextNumber(k: nat)
    ensures ((k + 1) % 0x100 + 1) % 0x100 == (k + 2) % 0x100
  {
  }

  /** Blocks written one after the other, then `rest`. */
  function FramesWire(frames: seq<seq<byte>>, rest: seq<Rx>): (w: seq<Rx>)
  {
    if |frames| == 0 then rest else Line(frames[0]) + FramesWire(frames[1..], rest)
  }

  /** `FramesWire` is the flattened blocks on the line. */
  lemma {:induction false} FramesWireFlat(frames: seq<seq<byte>>, rest: seq<Rx>)
    ensures FramesWire(frames, rest) == Line(YmodemSend.Flatten(frames)) + rest
    decreases |frames|
  {
    if |frames| > 0 {
      FramesWireFlat(frames[1..], rest);
      LineAppend(frames[0], YmodemSend.Flatten(frames[1..]));
    }
  }

  /** The receiver takes the sender's data blocks one per turn, up to turn
      `j`: each is accepted with ACK, its padded payload appended and the
      block number advanced, as long as none of them lands on the last
      turn. */
  lemma {:induction false} RecvDataFrames(recvCfg: Config, sendCfg: Config, crc: Crc16, k: nat, j: nat, total: nat,
                                          st: YmodemRecv.Blocks, packets: nat, lastSize: nat,
                                          data: seq<byte>, rest: seq<Rx>)
    requires st.errors < recvCfg.maxErrors
    requires st.packetNum == (k + 1) % 0x100
    requires j == k + |YmodemSend.DataFrames(sendCfg, crc, k, packets, lastSize, data)| && j + 1 < total
    ensures YmodemRecv.RecvBlocks(recvCfg, crc, k, total, st,
                                  FramesWire(YmodemSend.DataFrames(sendCfg, crc, k, packets, lastSize, data), rest))
         == YmodemRecv.RecvBlocks(recvCfg, crc, j, total,
                                  st.(packetNum := (j + 1) % 0x100,
                                      file := st.file + Payloads(sendCfg.padByte, k, packets, lastSize, data),
                                      writes := st.writes + Fill(ACK, j - k)), rest)
    decreases |data|
  {
    if |data| == 0 {
      assert YmodemSend.DataFrames(sendCfg, crc, k, packets, lastSize, data) == [];
      assert Payloads(sendCfg.padByte, k, packets, lastSize, data) == [];
      assert Fill(ACK, 0) == [];
      assert st.(packetNum := (k + 1) % 0x100, file := st.file + [], writes := st.writes + []) == st;
    } else {
      var pad := sendCfg.padByte;
      var size := BlockSize(k, packets, lastSize);
      var n := YmodemSend.Min(size, |data|);
      var chunk := data[..n];
      var later := YmodemSend.DataFrames(sendCfg, crc, k + 1, packets, lastSize, data[n..]);
      var r := FramesWire(later, rest);
      var payload := chunk + Fill(pad, size - |chunk|);
      var payloads := Payloads(pad, k + 1, packets, lastSize, data[n..]);
      var st1 := st.(packetNum := (k + 2) % 0x100, file := st.file + payload, writes := st.writes + [ACK]);
      assert && 1 <= n <= |data| && |chunk| <= size
             && |YmodemSend.DataFrames(sendCfg, crc, k, packets, lastSize, data)| == 1 + |later|
             && FramesWire(YmodemSend.DataFrames(sendCfg, crc, k, packets, lastSize, data), rest)
                == Line(DataFrame(crc, pad, k + 1, size, chunk)) + r
             && Payloads(pad, k, packets, lastSize, data) == payload + payloads by {
        DataFramesHead(sendCfg, crc, k, packets, lastSize, data, rest);
      }
      assert YmodemRecv.RecvBlocks(recvCfg, crc, k + 1, total, st1, r)
          == YmodemRecv.RecvBlocks(recvCfg, crc, j, total,
                                   st1.(packetNum := (j + 1) % 0x100, file := st1.file + payloads,
                                        writes := st1.writes + Fill(ACK, j - (k + 1))), rest) by {
        RecvDataFrames(recvCfg, sendCfg, crc, k + 1, j, total, st1, packets, lastSize, data[n..], rest);
      }
      assert YmodemRecv.RecvBlocks(recvCfg, crc, k, total, st, Line(DataFrame(crc, pad, k + 1, size, chunk)) + r)
          == YmodemRecv.RecvBlocks(recvCfg, crc, k + 1, total, st1, r) by {
        RecvDataFrame(recvCfg, crc, k, total, st, pad, size, chunk, r);
      }
      AcceptedState(st, j, k, payload, payloads);
    }
  }

  /** The first data block of a non-empty stream, split off the blocks,
      their wire and their payloads. */
  lemma DataFramesHead(cfg: Config, crc: Crc16, k: nat, packets: nat, lastSize: nat, data: seq<byte>, rest: seq<Rx>)
    requires |data| > 0
    ensures var size := BlockSize(k, packets, lastSize);
      var n := YmodemSend.Min(size, |data|);
      var later := YmodemSend.DataFrames(cfg, crc, k + 1, packets, lastSize, data[n..]);
      && 1 <= n <= |data| && |data[..n]| <= size
      && |YmodemSend.DataFrames(cfg, crc, k, packets, lastSize, data)| == 1 + |later|
      && FramesWire(YmodemSend.DataFrames(cfg, crc, k, packets, lastSize, data), rest)
         == Line(DataFrame(crc, cfg.padByte, k + 1, size, data[..n])) + FramesWire(later, rest)
      && Payloads(cfg.padByte, k, packets, lastSize, data)
         == (data[..n] + Fill(cfg.padByte, size - |data[..n]|)) + Payloads(cfg.padByte, k + 1, packets, lastSize, data[n..])
  {
    var frames := YmodemSend.DataFrames(cfg, crc, k, packets, lastSize, data);
    var size := BlockSize(k, packets, lastSize);
    var n := YmodemSend.Min(size, |data|);
    var frame := DataFrame(crc, cfg.padByte, k + 1, size, data[..n]);
    var later := YmodemSend.DataFrames(cfg, crc, k + 1, packets, lastSize, data[n..]);
    assert frames == [frame] + later;
    assert frames[0] == frame && frames[1..] == later;
  }

  /** Accepting one block and then the blocks up to turn `j` is accepting
      every block up to turn `j`. */
  lemma AcceptedState(st: YmodemRecv.Blocks, j: nat, k: nat, payload: seq<byte>, payloads: seq<byte>)
    requires k < j
    ensures var st1 := st.(packetNum := (k + 2) % 0x100, file := st.file + payload, writes := st.writes + [ACK]);
      st1.(packetNum := (j + 1) % 0x100, file := st1.file + payloads, writes := st1.writes + Fill(ACK, j - (k + 1)))
      == st.(packetNum := (j + 1) % 0x100, file := st.file + (payload + payloads), writes := st.writes + Fill(ACK, j - k))
  {
    assert [ACK] + Fill(ACK, j - (k + 1)) == Fill(ACK, j - k);
    assert st.writes + [ACK] + Fill(ACK, j - (k + 1)) == st.writes + ([ACK] + Fill(ACK, j - (k + 1)));
    assert st.file + payload + payloads == st.file + (payload + payloads);
  }

  /** After the data blocks: EOT is refused once, the sender's pause costs
      one error, and the end block, when a turn is left for it, is accepted.
      The loop ends normally and the file keeps what it had. */
  lemma RecvClosing(cfg: Config, crc: Crc16, f: nat, total: nat, st: YmodemRecv.Blocks, more: seq<Rx>)
    requires st.errors + 1 < cfg.maxErrors && !st.seenEot
    requires total == f + 2 || total == f + 3
    ensures var t := YmodemRecv.RecvBlocks(cfg, crc, f, total, st, [Byte(EOT), Timeout] + Line(EndFrame(crc)) + more);
      t.Next? && t.st.file[..|st.file|] == st.file
  {
    var s := [Byte(EOT), Timeout] + Line(EndFrame(crc)) + more;
    var s1 := [Timeout] + Line(EndFrame(crc)) + more;
    assert s == [Byte(EOT)] + s1;
    YmodemRecv.EotTurn(crc, f, total - 1, st, s1);
    var st1 := YmodemRecv.Blocks(st.errors, (st.packetNum + 1) % 0x100, true, st.file, st.writes + [NAK]);
    assert YmodemRecv.RecvTurn(crc, f, total - 1, st, s) == YmodemRecv.Next(st1, s1);
    var s2 := Line(EndFrame(crc)) + more;
    assert Head(s1) == Timeout && Tail(s1) == s2;
    var st2 := st1.(errors := st1.errors + 1);
    assert YmodemRecv.RecvTurn(crc, f + 1, total - 1, st1, s1) == YmodemRecv.Next(st2, s2);
    assert YmodemRecv.RecvBlocks(cfg, crc, f, total, st, s) == YmodemRecv.RecvBlocks(cfg, crc, f + 1, total, st1, s1);
    assert YmodemRecv.RecvBlocks(cfg, crc, f + 1, total, st1, s1) == YmodemRecv.RecvBlocks(cfg, crc, f + 2, total, st2, s2);
    if total == f + 3 {
      YmodemRecv.RecvEndFrame(crc, f + 2, st2, more);
      var st3 := st2.(packetNum := (st2.packetNum + 1) % 0x100, file := st2.file + Fill(0, SHORT_BLOCK),
                      writes := st2.writes + [ACK]);
      assert YmodemRecv.RecvBlocks(cfg, crc, f + 2, total, st2, s2) == YmodemRecv.RecvBlocks(cfg, crc, f + 3, total, st3, more);
    }
  }

  /** The line a transfer leaves: SOH, the rest of the header block, then
      the data blocks, EOT, the pause and the end block. */
  lemma WireLayout(cfg: Config, crc: Crc16, name: seq<byte>, size: u64, data: seq<byte>, more: seq<Rx>)
    requires HeaderFits(name, size)
    ensures Wire(cfg, crc, name, size, data) + more
         == [Byte(SOH)] + (Line(StartFrame(crc, name, size)[1..])
                           + FramesWire(YmodemSend.DataFrames(cfg, crc, 0, CeilDiv(size, LONG_BLOCK), size % LONG_BLOCK, data),
                                        [Byte(EOT), Timeout] + Line(EndFrame(crc)) + more))
  {
    var frames := YmodemSend.DataFrames(cfg, crc, 0, CeilDiv(size, LONG_BLOCK), size % LONG_BLOCK, data);
    var head := StartFrame(crc, name, size);
    var body := YmodemSend.Flatten(frames);
    var closing := [Byte(EOT), Timeout] + Line(EndFrame(crc)) + more;
    assert Wire(cfg, crc, name, size, data) == Line(head + body + [EOT]) + [Timeout] + Line(EndFrame(crc)) by {
      TranscriptLayout(cfg, crc, name, size, data);
    }
    assert Line(head + body + [EOT]) == Line(head) + Line(body) + [Byte(EOT)] by {
      LineAppend(head + body, [EOT]);
      LineAppend(head, body);
    }
    assert Line(head) == [Byte(SOH)] + Line(head[1..]) by {
      StartFrameLayout(crc, name, size);
      assert head == [SOH] + head[1..];
      LineAppend([SOH], head[1..]);
    }
    FramesWireFlat(frames, closing);
    Regroup([Byte(SOH)], Line(head[1..]), Line(body), Byte(EOT), Timeout, Line(EndFrame(crc)), more);
  }

  /** Concatenation regrouped, for the shape of a transfer's line. */
  lemma Regroup<T>(x: seq<T>, a: seq<T>, b: seq<T>, e: T, f: T, c: seq<T>, m: seq<T>)
    ensures (x + a + b + [e]) + [f] + c + m == x + (a + (b + ([e, f] + c + m)))
  {
    assert [e] + [f] == [e, f];
  }

  /** The transcript without its end block, flattened: the header block,
      the data blocks and EOT. */
  lemma TranscriptLayout(cfg: Config, crc: Crc16, name: seq<byte>, size: u64, data: seq<byte>)
    requires HeaderFits(name, size)
    ensures var t := YmodemSend.Transcript(cfg, crc, name, size, data);
      && |t| >= 2 && t[|t| - 1] == EndFrame(crc)
      && YmodemSend.Flatten(t[..|t| - 1])
         == StartFrame(crc, name, size)
            + YmodemSend.Flatten(YmodemSend.DataFrames(cfg, crc, 0, CeilDiv(size, LONG_BLOCK), size % LONG_BLOCK, data))
            + [EOT]
  {
    var frames := YmodemSend.DataFrames(cfg, crc, 0, CeilDiv(size, LONG_BLOCK), size % LONG_BLOCK, data);
    var head := StartFrame(crc, name, size);
    var t := YmodemSend.Transcript(cfg, crc, name, size, data);
    assert t == [head] + frames + [[EOT], EndFrame(crc)];
    assert t[..|t| - 1] == [head] + frames + [[EOT]];
    FlattenAppend([head] + frames, [[EOT]]);
    FlattenAppend([head], frames);
    assert YmodemSend.Flatten([[EOT]]) == [EOT];
    assert YmodemSend.Flatten([head]) == head;
  }

  /** The data loop, run on a sender's data blocks, EOT, the pause and the
      end block, writes out exactly the sender's bytes. */
  lemma RecvBodyOfTransfer(recvCfg: Config, sendCfg: Config, crc: Crc16, size: u32, w: seq<byte>,
                           data: seq<byte>, more: seq<Rx>)
    requires |data| == size as int && size < YmodemRecv.F32_EXACT
    requires recvCfg.maxErrors >= 2
    ensures var b := YmodemRecv.RecvBody(recvCfg, crc, size, 0, w,
                       FramesWire(YmodemSend.DataFrames(sendCfg, crc, 0, CeilDiv(size, LONG_BLOCK), size % LONG_BLOCK, data),
                                  [Byte(EOT), Timeout] + Line(EndFrame(crc)) + more));
      b.outcome == Ok && b.file == data
  {
    FrameCount(sendCfg, crc, size as nat, data);
    RecvBlocksOfTransfer(recvCfg, sendCfg, crc, size as nat, YmodemRecv.PacketCount(size) + 3, w, data, more);
  }

  /** The turns of the data loop, run on a sender's data blocks, EOT, the
      pause and the end block, end normally with a file that starts with the
      sender's bytes, when the loop has two or three turns beyond the data
      blocks. */
  lemma RecvBlocksOfTransfer(recvCfg: Config, sendCfg: Config, crc: Crc16, size: nat, total: nat, w: seq<byte>,
                             data: seq<byte>, more: seq<Rx>)
    requires |data| == size
    requires recvCfg.maxErrors >= 2
    requires var m := |YmodemSend.DataFrames(sendCfg, crc, 0, CeilDiv(size, LONG_BLOCK), size % LONG_BLOCK, data)|;
      total == m + 2 || total == m + 3
    ensures var run := YmodemRecv.RecvBlocks(recvCfg, crc, 0, total, YmodemRecv.Blocks(0, 1, false, [], w),
                         FramesWire(YmodemSend.DataFrames(sendCfg, crc, 0, CeilDiv(size, LONG_BLOCK), size % LONG_BLOCK, data),
                                    [Byte(EOT), Timeout] + Line(EndFrame(crc)) + more));
      run.Next? && |run.st.file| >= size && run.st.file[..size] == data
  {
    var packets := CeilDiv(size, LONG_BLOCK);
    var lastSize := size % LONG_BLOCK;
    var m := |YmodemSend.DataFrames(sendCfg, crc, 0, packets, lastSize, data)|;
    var payloads := Payloads(sendCfg.padByte, 0, packets, lastSize, data);
    var st2 := YmodemRecv.Blocks(0, (m + 1) % 0x100, false, payloads, w + Fill(ACK, m));
    RecvAllDataFrames(recvCfg, sendCfg, crc, total, w, packets, lastSize, data, [Byte(EOT), Timeout] + Line(EndFrame(crc)) + more);
    RecvClosing(recvCfg, crc, m, total, st2, more);
    PayloadsStartWithData(sendCfg.padByte, 0, packets, lastSize, data);
    PrefixOfPrefix(YmodemRecv.RecvBlocks(recvCfg, crc, m, total, st2, [Byte(EOT), Timeout] + Line(EndFrame(crc)) + more).st.file,
                   payloads, data);
  }

  /** The data blocks of a whole stream, read from the first turn on, are
      all accepted. */
  lemma RecvAllDataFrames(recvCfg: Config, sendCfg: Config, crc: Crc16, total: nat, w: seq<byte>,
                          packets: nat, lastSize: nat, data: seq<byte>, rest: seq<Rx>)
    requires recvCfg.maxErrors >= 1
    requires |YmodemSend.DataFrames(sendCfg, crc, 0, packets, lastSize, data)| + 1 < total
    ensures var m := |YmodemSend.DataFrames(sendCfg, crc, 0, packets, lastSize, data)|;
      YmodemRecv.RecvBlocks(recvCfg, crc, 0, total, YmodemRecv.Blocks(0, 1, false, [], w),
                            FramesWire(YmodemSend.DataFrames(sendCfg, crc, 0, packets, lastSize, data), rest))
      == YmodemRecv.RecvBlocks(recvCfg, crc, m, total,
                               YmodemRecv.Blocks(0, (m + 1) % 0x100, false,
                                                 Payloads(sendCfg.padByte, 0, packets, lastSize, data), w + Fill(ACK, m)),
                               rest)
  {
    var st := YmodemRecv.Blocks(0, 1, false, [], w);
    var m := |YmodemSend.DataFrames(sendCfg, crc, 0, packets, lastSize, data)|;
    var payloads := Payloads(sendCfg.padByte, 0, packets, lastSize, data);
    RecvDataFrames(recvCfg, sendCfg, crc, 0, m, total, st, packets, lastSize, data, rest);
    assert st.(packetNum := (m + 1) % 0x100, file := st.file + payloads, writes := st.writes + Fill(ACK, m - 0))
        == YmodemRecv.Blocks(0, (m + 1) % 0x100, false, payloads, w + Fill(ACK, m)) by {
      assert [] + payloads == payloads;
    }
  }

  /** A prefix of a prefix is a prefix. */
  lemma PrefixOfPrefix<T>(a: seq<T>, b: seq<T>, c: seq<T>)
    requires |b| <= |a| && a[..|b|] == b
    requires |c| <= |b| && b[..|c|] == c
    ensures |c| <= |a| && a[..|c|] == c
  {
    assert a[..|c|] == a[..|b|][..|c|];
  }

  /** A transfer that runs its course delivers the file: the receiver
      reports the name and size the sender announced, and writes out
      exactly the sender's bytes, whatever the pad byte and whatever
      follows on the line. The size must stay below 2^24, where the
      receiver's block count is exact. */
  lemma TransferRoundTrip(sendCfg: Config, recvCfg: Config, crc: Crc16, initialErrors: nat, name: seq<byte>,
                          size: u32, data: seq<byte>, more: seq<Rx>)
    requires |data| == size as int && size < YmodemRecv.F32_EXACT
    requires YmodemRecv.NulFree(name) && ValidUtf8(name) && |name| + 1 + |Decimal(size)| < SHORT_BLOCK
    requires recvCfg.maxErrors >= 2
    ensures var r := YmodemRecv.Recv(recvCfg, crc, initialErrors, Wire(sendCfg, crc, name, size, data) + more);
      r.outcome == Ok && r.name == name && r.size == size as int && r.file == data
  {
    var frames := YmodemSend.DataFrames(sendCfg, crc, 0, CeilDiv(size, LONG_BLOCK), size % LONG_BLOCK, data);
    var r := FramesWire(frames, [Byte(EOT), Timeout] + Line(EndFrame(crc)) + more);
    var afterStart := Line(StartFrame(crc, name, size)[1..]) + r;
    var s := Wire(sendCfg, crc, name, size, data) + more;
    WireLayout(sendCfg, crc, name, size, data, more);
    assert s[0] == Byte(SOH) && s[1..] == afterStart;
    var start := YmodemRecv.AwaitStart(recvCfg, initialErrors, s);
    assert start == YmodemRecv.Start(Ok, initialErrors, [CRC], afterStart);
    YmodemRecv.HeaderRoundTrip(recvCfg, crc, name, size, r);
    var h := YmodemRecv.RecvHeader(crc, 0, [], [], [], afterStart);
    RecvBodyOfTransfer(recvCfg, sendCfg, crc, size, start.writes + h.writes, data, more);
  }

  /** A header that fills block 0 exactly is one the sender writes but the
      receiver never accepts: with no NUL after the size, the receiver's
      size field runs on past the block, so the transfer ends in a panic,
      or in an I/O error when the line pauses before any NUL comes. This
      holds whatever the data and whatever follows. */
  lemma FullHeaderTransferFails(sendCfg: Config, recvCfg: Config, crc: Crc16, initialErrors: nat,
                                name: seq<byte>, size: u64, data: seq<byte>, more: seq<Rx>)
    requires YmodemRecv.NulFree(name) && ValidUtf8(name)
    requires |name| + 1 + |Decimal(size)| == SHORT_BLOCK
    ensures HeaderFits(name, size)
    ensures var r := YmodemRecv.Recv(recvCfg, crc, initialErrors, Wire(sendCfg, crc, name, size, data) + more);
      r.outcome == Err(Io) || r.outcome == Err(Panic)
  {
    var frames := YmodemSend.DataFrames(sendCfg, crc, 0, CeilDiv(size, LONG_BLOCK), size % LONG_BLOCK, data);
    var r := FramesWire(frames, [Byte(EOT), Timeout] + Line(EndFrame(crc)) + more);
    var afterStart := Line(StartFrame(crc, name, size)[1..]) + r;
    var s := Wire(sendCfg, crc, name, size, data) + more;
    WireLayout(sendCfg, crc, name, size, data, more);
    assert s[0] == Byte(SOH) && s[1..] == afterStart;
    assert YmodemRecv.AwaitStart(recvCfg, initialErrors, s) == YmodemRecv.Start(Ok, initialErrors, [CRC], afterStart);
    YmodemRecv.FullHeaderNotReceived(crc, 0, name, size, r);
  }
}
