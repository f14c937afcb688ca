/** The YMODEM receiver, `recv`: wait for the sender's first SOH, read and
    check the header block, parse the announced size, then read data blocks,
    EOTs and the end block for a fixed number of turns.

    Each loop is a recursive function over the scripted replies of the line.
    Every byte the receiver writes is collected, in order, in `writes`; writes
    always succeed in this model. */
module YmodemRecv {
  import opened Bytes
  import opened Channel
  import opened Ymodem
  import opened Text

  // ---------------------------------------------------------------------------
  // Waiting for the first SOH

  /** Where the wait for the first SOH left the session. `initialErrors` is
      the receiver's field of that name, which `recv` never resets. */
  datatype Start = Start(outcome: Outcome, initialErrors: nat, writes: seq<byte>, rest: seq<Rx>)

  /** Write 'C', read one reply; SOH ends the wait. Any other byte and any
      timeout only start the next turn, uncounted; a fault adds one to
      `initialErrors`, and once that exceeds `maxInitialErrors` the wait gives
      up. A script that runs out leaves the source waiting forever, which is
      reported here as `Stalled`. */
  function AwaitStart(cfg: Config, initialErrors: nat, s: seq<Rx>): (r: Start)
    ensures r.outcome in {Ok, Err(ExhaustedRetries), Err(Stalled)}
    ensures 1 <= |r.writes| && forall i :: 0 <= i < |r.writes| ==> r.writes[i] == CRC
    ensures |r.rest| < |s| || (|s| == 0 && r.outcome == Err(Stalled))
    ensures r.outcome.Ok? ==> s[|s| - |r.rest| - 1] == Byte(SOH) && r.rest == s[|s| - |r.rest|..]
    ensures r.outcome == Err(ExhaustedRetries) ==> r.initialErrors == ExhaustedAt(initialErrors, cfg.maxInitialErrors + 1)
    ensures r.outcome != Err(ExhaustedRetries) ==> r.initialErrors <= cfg.maxInitialErrors || r.initialErrors == initialErrors
    ensures r.initialErrors >= initialErrors
    decreases |s|
  {
    if |s| == 0 then Start(Err(Stalled), initialErrors, [CRC], [])
    else if s[0] == Byte(SOH) then Start(Ok, initialErrors, [CRC], s[1..])
    else if s[0].Fault? && initialErrors + 1 > cfg.maxInitialErrors then
      Start(Err(ExhaustedRetries), initialErrors + 1, [CRC], s[1..])
    else
      var r := AwaitStart(cfg, if s[0].Fault? then initialErrors + 1 else initialErrors, s[1..]);
      r.(writes := [CRC] + r.writes)
  }

  /** The fault budget is spent across calls: once `initialErrors` exceeds
      `maxInitialErrors`, the first fault of a later wait ends it, whatever
      the replies before it (short of an SOH). */
  lemma {:induction false} AwaitStartSpentBudget(cfg: Config, initialErrors: nat, s: seq<Rx>, k: nat)
    requires initialErrors > cfg.maxInitialErrors
    requires k < |s| && s[k].Fault?
    requires forall i :: 0 <= i < k ==> s[i] != Byte(SOH) && !s[i].Fault?
    ensures AwaitStart(cfg, initialErrors, s)
         == Start(Err(ExhaustedRetries), initialErrors + 1, Fill(CRC, k + 1), s[k + 1..])
    decreases k
  {
    if k > 0 {
      assert s[1..][k - 1..][1..] == s[k + 1..];
      AwaitStartSpentBudget(cfg, initialErrors, s[1..], k - 1);
      assert [CRC] + Fill(CRC, k) == Fill(CRC, k + 1);
    }
  }

  /** Timeouts and stray bytes never end the wait: a script of nothing else
      stalls it, with one 'C' written per reply and one more for the wait
      that never ends. */
  lemma {:induction false} AwaitStartQuiet(cfg: Config, initialErrors: nat, s: seq<Rx>)
    requires forall i :: 0 <= i < |s| ==> s[i] != Byte(SOH) && !s[i].Fault?
    ensures AwaitStart(cfg, initialErrors, s) == Start(Err(Stalled), initialErrors, Fill(CRC, |s| + 1), [])
    decreases |s|
  {
    if |s| > 0 {
      AwaitStartQuiet(cfg, initialErrors, s[1..]);
      assert [CRC] + Fill(CRC, |s|) == Fill(CRC, |s| + 1);
    }
  }

  // ---------------------------------------------------------------------------
  // The header block

  /** Where the header loop left the session. On success `name` and
      `sizeText` are the name and size fields without their NUL. */
  datatype Header = Header(outcome: Outcome, errors: nat, name: seq<byte>, sizeText: seq<byte>,
                           writes: seq<byte>, rest: seq<Rx>)

  function HeaderFailure(e: Error, errors: nat): (h: Header)
    ensures h.outcome == Err(e) && h.writes == []
  {
    Header(Err(e), errors, [], [], [], [])
  }

  /** The checksum as two bytes read high byte first. */
  function Checksum(hi: byte, lo: byte): (r: u16)
    ensures CrcBytes(r) == [hi, lo]
  {
    (hi as int) * 0x100 + lo
  }

  /** Two checksums look the same on the line only when they are equal. */
  lemma CrcOnLine(c: u16, d: u16)
    ensures Line(CrcBytes(c)) == Line(CrcBytes(d)) <==> c == d
  {
    if Line(CrcBytes(c)) == Line(CrcBytes(d)) {
      UnlineLine(CrcBytes(c));
      UnlineLine(CrcBytes(d));
    }
  }

  /** One read of the header block (its SOH already read): the three buffers
      after it, whether its number or complement is wrong, and whether its
      CRC matches. */
  datatype Attempt = Attempt(cancel: bool, good: bool, nameBuf: seq<byte>, sizeBuf: seq<byte>,
                             padBuf: seq<byte>, rest: seq<Rx>)
                   | AttemptFailed(error: Error)

  /** The front of one attempt: the number and its complement, then the name
      and size fields, each through its NUL, appended to the buffers of
      earlier attempts. */
  datatype Fields = Fields(cancel: bool, nameBuf: seq<byte>, sizeBuf: seq<byte>, rest: seq<Rx>)
                  | FieldsFailed(error: Error)

  /** Read the front of one attempt. The number must be 0 with its complement.
      A name that is not UTF-8 is a panic. So are buffers that together
      exceed 128 bytes: the padding count `128 - name - size` underflows,
      which panics in a debug build (a release build would wrap instead). */
  function ReadFields(nameBuf: seq<byte>, sizeBuf: seq<byte>, s: seq<Rx>): (f: Fields)
    ensures f.FieldsFailed? ==> f.error in {Io, Panic}
    ensures f.Fields? ==> |f.rest| + 2 <= |s|
    ensures f.Fields? ==> |f.nameBuf| > |nameBuf| && |f.sizeBuf| > |sizeBuf|
    ensures f.Fields? ==> |f.nameBuf| + |f.sizeBuf| <= SHORT_BLOCK
  {
    match GetByte(s)
    case IoError => FieldsFailed(Io)
    case Got(pnum, s1) =>
      match GetByte(s1)
      case IoError => FieldsFailed(Io)
      case Got(pnum1c, s2) => ReadNames(pnum != 0 || 0xFF - pnum != pnum1c, nameBuf, sizeBuf, s2)
  }

  /** The name and size fields of one attempt, after its number bytes, with
      the debug-build panic when the padding count underflows. */
  function ReadNames(cancel: bool, nameBuf: seq<byte>, sizeBuf: seq<byte>, s: seq<Rx>): (f: Fields)
    ensures f.FieldsFailed? ==> f.error in {Io, Panic}
    ensures f.Fields? ==> |f.rest| <= |s| && f.cancel == cancel
    ensures f.Fields? ==> |f.nameBuf| > |nameBuf| && |f.sizeBuf| > |sizeBuf|
    ensures f.Fields? ==> |f.nameBuf| + |f.sizeBuf| <= SHORT_BLOCK
  {
    match ReadThroughNul(s)
    case IoError => FieldsFailed(Io)
    case Got(n, s1) =>
      var nameBuf' := nameBuf + n;
      if !ValidUtf8(nameBuf'[..|nameBuf'| - 1]) then FieldsFailed(Panic)
      else
        match ReadThroughNul(s1)
        case IoError => FieldsFailed(Io)
        case Got(z, s2) =>
          var sizeBuf' := sizeBuf + z;
          if |nameBuf'| + |sizeBuf'| > SHORT_BLOCK then FieldsFailed(Panic)
          else Fields(cancel, nameBuf', sizeBuf', s2)
  }

  /** `n` bytes, then a checksum, high byte first: the back of a header
      attempt (its padding) and the body of a data block. */
  function ReadPayload(n: nat, s: seq<Rx>): (r: Read<(seq<byte>, u16)>)
    ensures r.Got? ==> |r.value.0| == n && |r.rest| + n + 2 == |s|
  {
    match ReadExact(s, n)
    case IoError => IoError
    case Got(p, s1) =>
      match GetByte(s1)
      case IoError => IoError
      case Got(hi, s2) =>
        match GetByte(s2)
        case IoError => IoError
        case Got(lo, s3) => Got((p, Checksum(hi, lo)), s3)
  }

  /** The payload and checksum are the `n + 2` replies at the front of the
      line, all of which must be bytes. */
  lemma ReadPayloadOnLine(n: nat, s: seq<Rx>)
    ensures var r := ReadPayload(n, s);
      && (r.Got? <==> Delivers(s, n + 2))
      && (r.Got? ==> && Line(r.value.0) == s[..n] && Line(CrcBytes(r.value.1)) == s[n..n + 2]
                     && r.rest == s[n + 2..])
  {
    var e := ReadExact(s, n);
    ReadExactOnLine(s, n);
    if e.Got? {
      var s1 := e.rest;
      assert s1 == s[n..];
      if |s1| >= 2 && s1[0].Byte? && s1[1].Byte? {
        assert Delivers(s, n + 2);
      }
    } else {
      assert !Delivers(s, n + 2);
    }
  }

  /** Read one attempt at the header block. The padding read is 128 bytes
      minus both buffers and is also kept across attempts; the CRC covers all
      three buffers. */
  function ReadAttempt(crc: Crc16, nameBuf: seq<byte>, sizeBuf: seq<byte>, padBuf: seq<byte>, s: seq<Rx>): (a: Attempt)
    ensures a.AttemptFailed? ==> a.error in {Io, Panic}
    ensures a.Attempt? ==> |a.rest| < |s|
    ensures a.Attempt? ==> |a.nameBuf| > |nameBuf| && |a.sizeBuf| > |sizeBuf|
    ensures a.Attempt? ==> |a.nameBuf| + |a.sizeBuf| + |a.padBuf| == SHORT_BLOCK + |padBuf|
  {
    match ReadFields(nameBuf, sizeBuf, s)
    case FieldsFailed(e) => AttemptFailed(e)
    case Fields(cancel, nameBuf', sizeBuf', s1) =>
      match ReadPayload(SHORT_BLOCK - |nameBuf'| - |sizeBuf'|, s1)
      case IoError => AttemptFailed(Io)
      case Got((p, sum), s2) =>
        var padBuf' := padBuf + p;
        Attempt(cancel, crc(nameBuf' + sizeBuf' + padBuf') == sum, nameBuf', sizeBuf', padBuf', s2)
  }

  /** Attempts at the header block until one ends the loop. A wrong number
      cancels with two CANs once the whole block is read; a bad CRC is
      answered with NAK and one more error, and the loop reads another
      attempt, with no limit; a good one is answered with ACK and 'C'. */
  function RecvHeader(crc: Crc16, errors: nat, nameBuf: seq<byte>, sizeBuf: seq<byte>, padBuf: seq<byte>,
                      s: seq<Rx>): (h: Header)
    ensures h.outcome in {Ok, Err(Io), Err(Canceled), Err(Panic)}
    ensures h.errors >= errors
    ensures h.writes == Fill(NAK, h.errors - errors) + HeaderReply(h.outcome)
    ensures h.outcome.Ok? ==> |h.rest| < |s|
    decreases |s|
  {
    match ReadAttempt(crc, nameBuf, sizeBuf, padBuf, s)
    case AttemptFailed(e) => HeaderFailure(e, errors)
    case Attempt(cancel, good, nameBuf', sizeBuf', padBuf', rest) =>
      if cancel then Header(Err(Canceled), errors, [], [], [CAN, CAN], rest)
      else if !good then HeaderRetried(rest, s, errors, RecvHeader(crc, errors + 1, nameBuf', sizeBuf', padBuf', rest))
      else Header(Ok, errors, nameBuf'[..|nameBuf'| - 1], sizeBuf'[..|sizeBuf'| - 1], [ACK, CRC], rest)
  }

  /** What the header loop writes last: ACK and 'C' for a good block, two
      CANs for a wrong number, nothing when a read fails. */
  function HeaderReply(outcome: Outcome): seq<byte> {
    match outcome
    case Ok => [ACK, CRC]
    case Err(Canceled) => [CAN, CAN]
    case Err(_) => []
  }

  /** A later attempt's result, preceded by the NAK of the failed one. */
  function HeaderRetried(rest: seq<Rx>, s: seq<Rx>, errors: nat, h: Header): (r: Header)
    requires |rest| < |s|
    requires h.outcome.Ok? ==> |h.rest| < |rest|
    requires h.errors >= errors + 1
    requires h.writes == Fill(NAK, h.errors - (errors + 1)) + HeaderReply(h.outcome)
    ensures r.outcome == h.outcome && r.errors == h.errors
    ensures r.writes == Fill(NAK, r.errors - errors) + HeaderReply(r.outcome)
    ensures r.outcome.Ok? ==> |r.rest| < |s|
  {
    assert [NAK] + Fill(NAK, h.errors - (errors + 1)) == Fill(NAK, h.errors - errors);
    h.(writes := [NAK] + h.writes)
  }

  predicate NulFree(s: seq<byte>) {
    forall i :: 0 <= i < |s| ==> s[i] != 0
  }

  lemma GetByteLine(b: byte, x: seq<Rx>)
    ensures GetByte(Line([b]) + x) == Got(b, x)
  {
    assert (Line([b]) + x)[1..] == x;
  }

  lemma GetTwoBytesLine(hi: byte, lo: byte, x: seq<Rx>)
    ensures GetByte(Line([hi, lo]) + x) == Got(hi, Line([lo]) + x)
    ensures GetByte(Line([lo]) + x) == Got(lo, x)
  {
    assert Line([hi, lo]) + x == Line([hi]) + (Line([lo]) + x) by {
      LineAppend([hi], [lo]);
      assert [hi] + [lo] == [hi, lo];
    }
    GetByteLine(hi, Line([lo]) + x);
    GetByteLine(lo, x);
  }

  /** The number bytes of a header attempt, read one at a time. */
  lemma NumberOfWire(p: byte, q: byte, x: seq<Rx>)
    ensures GetByte(Line([p]) + (Line([q]) + x)) == Got(p, Line([q]) + x)
    ensures GetByte(Line([q]) + x) == Got(q, x)
  {
    GetByteLine(p, Line([q]) + x);
    GetByteLine(q, x);
  }

  /** The name and size fields of a header attempt, each read through its NUL. */
  lemma NamesOfWire(name: seq<byte>, text: seq<byte>, rest: seq<Rx>)
    requires NulFree(name) && NulFree(text)
    ensures ReadThroughNul(Line(name + [0]) + (Line(text + [0]) + rest)) == Got(name + [0], Line(text + [0]) + rest)
    ensures ReadThroughNul(Line(text + [0]) + rest) == Got(text + [0], rest)
  {
    ReadThroughNulLine(name, Line(text + [0]) + rest);
    ReadThroughNulLine(text, rest);
  }

  /** The fields of a well-formed header attempt: a NUL-free UTF-8 name and
      its NUL, then NUL-free size text and its NUL. */
  lemma ReadNamesOfWire(cancel: bool, name: seq<byte>, text: seq<byte>, rest: seq<Rx>)
    requires NulFree(name) && ValidUtf8(name) && NulFree(text)
    requires |name| + 1 + |text| + 1 <= SHORT_BLOCK
    ensures ReadNames(cancel, [], [], Line(name + [0]) + (Line(text + [0]) + rest))
         == Fields(cancel, name + [0], text + [0], rest)
  {
    var t := Line(text + [0]) + rest;
    var s := Line(name + [0]) + t;
    NamesOfWire(name, text, rest);
    assert ReadThroughNul(s) == Got(name + [0], t);
    var nb: seq<byte> := [] + (name + [0]);
    assert nb == name + [0];
    assert ValidUtf8(nb[..|nb| - 1]) by {
      assert nb[..|nb| - 1] == name;
    }
    var sb: seq<byte> := [] + (text + [0]);
    assert sb == text + [0];
    assert |nb| + |sb| <= SHORT_BLOCK;
  }

  /** The front of a well-formed header attempt: number bytes `p` and `q`, then
      the two fields. */
  lemma ReadFieldsOfWire(p: byte, q: byte, name: seq<byte>, text: seq<byte>, rest: seq<Rx>)
    requires NulFree(name) && ValidUtf8(name) && NulFree(text)
    requires |name| + 1 + |text| + 1 <= SHORT_BLOCK
    ensures ReadFields([], [], Line([p]) + (Line([q]) + (Line(name + [0]) + (Line(text + [0]) + rest))))
         == Fields(p != 0 || 0xFF - p != q, name + [0], text + [0], rest)
  {
    NumberOfWire(p, q, Line(name + [0]) + (Line(text + [0]) + rest));
    ReadNamesOfWire(p != 0 || 0xFF - p != q, name, text, rest);
  }

  /** The back of a header attempt: `k` padding bytes and checksum `c`. */
  lemma ReadPayloadOfWire(pad: seq<byte>, c: u16, rest: seq<Rx>)
    ensures ReadPayload(|pad|, Line(pad) + (Line(CrcBytes(c)) + rest)) == Got((pad, c), rest)
  {
    var cb := CrcBytes(c);
    var hi, lo := cb[0], cb[1];
    var s1 := Line(cb) + rest;
    ReadExactLine(pad, s1);
    assert GetByte(s1) == Got(hi, Line([lo]) + rest) && GetByte(Line([lo]) + rest) == Got(lo, rest) by {
      assert cb == [hi, lo];
      GetTwoBytesLine(hi, lo, rest);
    }
    assert Checksum(hi, lo) == c;
  }

  /** One attempt at a well-formed header block: the buffers then hold exactly
      its fields, and its checksum `c` is compared with the CRC of the 128
      payload bytes. */
  lemma ReadAttemptOfWire(crc: Crc16, p: byte, q: byte, name: seq<byte>, text: seq<byte>, pad: seq<byte>,
                          c: u16, rest: seq<Rx>)
    requires NulFree(name) && ValidUtf8(name) && NulFree(text)
    requires |name| + 1 + |text| + 1 + |pad| == SHORT_BLOCK
    ensures ReadAttempt(crc, [], [], [],
                        Line([p]) + (Line([q]) + (Line(name + [0]) + (Line(text + [0])
                          + (Line(pad) + (Line(CrcBytes(c)) + rest))))))
         == Attempt(p != 0 || 0xFF - p != q, crc(name + [0] + (text + [0]) + pad) == c,
                    name + [0], text + [0], pad, rest)
  {
    var s4 := Line(pad) + (Line(CrcBytes(c)) + rest);
    var s := Line([p]) + (Line([q]) + (Line(name + [0]) + (Line(text + [0]) + s4)));
    ReadFieldsOfWire(p, q, name, text, s4);
    ReadPayloadOfWire(pad, c, rest);
    ReadAttemptOfParts(crc, s, p != 0 || 0xFF - p != q, name + [0], text + [0], s4, pad, c, rest);
  }

  /** A first attempt is its front followed by its back. */
  lemma ReadAttemptOfParts(crc: Crc16, s: seq<Rx>, cancel: bool, nameBuf: seq<byte>, sizeBuf: seq<byte>,
                           s4: seq<Rx>, pad: seq<byte>, c: u16, rest: seq<Rx>)
    requires ReadFields([], [], s) == Fields(cancel, nameBuf, sizeBuf, s4)
    requires SHORT_BLOCK - |nameBuf| - |sizeBuf| == |pad|
    requires ReadPayload(|pad|, s4) == Got((pad, c), rest)
    ensures ReadAttempt(crc, [], [], [], s) == Attempt(cancel, crc(nameBuf + sizeBuf + pad) == c, nameBuf, sizeBuf, pad, rest)
  {
    var pb: seq<byte> := [] + pad;
    assert pb == pad;
  }

  /** A header block as the sender builds it, from its number bytes on, as
      the successive pieces the receiver reads. */
  lemma StartFrameWire(crc: Crc16, name: seq<byte>, size: u64, p: byte, q: byte, rest: seq<Rx>)
    requires |name| + 1 + |Decimal(size)| < SHORT_BLOCK
    ensures var text := Decimal(size);
      var k := SHORT_BLOCK - |name| - 1 - |text| - 1;
      var payload := name + [0] + (text + [0]) + Fill(0, k);
      && payload == HeaderPayload(name, size)
      && Line([p, q] + StartFrame(crc, name, size)[3..]) + rest
         == Line([p]) + (Line([q]) + (Line(name + [0]) + (Line(text + [0])
              + (Line(Fill(0, k)) + (Line(CrcBytes(crc(payload))) + rest)))))
  {
    var text := Decimal(size);
    var k := SHORT_BLOCK - |name| - 1 - |text| - 1;
    var pad := Fill(0, k);
    var payload := HeaderPayload(name, size);
    assert payload == name + [0] + (text + [0]) + pad by {
      HeaderPayloadPieces(name, size);
    }
    var cb := CrcBytes(crc(payload));
    assert [p, q] + StartFrame(crc, name, size)[3..] == [p] + ([q] + (name + [0] + (text + [0] + (pad + cb)))) by {
      assert StartFrame(crc, name, size)[3..] == payload + cb;
      Regroup6([p], [q], name + [0], text + [0], pad, cb);
    }
    LineSplit6([p], [q], name + [0], text + [0], pad, cb, rest);
  }

  /** The header payload in the pieces the receiver reads it in. */
  lemma HeaderPayloadPieces(name: seq<byte>, size: u64)
    requires |name| + 1 + |Decimal(size)| < SHORT_BLOCK
    ensures var text := Decimal(size);
      HeaderPayload(name, size) == name + [0] + (text + [0]) + Fill(0, SHORT_BLOCK - |name| - 1 - |text| - 1)
  {
    var text := Decimal(size);
    var k := SHORT_BLOCK - |name| - 1 - |text| - 1;
    assert Fill(0, k + 1) == [0] + Fill(0, k);
  }

  lemma Regroup6(a: seq<byte>, b: seq<byte>, c: seq<byte>, d: seq<byte>, e: seq<byte>, f: seq<byte>)
    ensures a + b + (c + d + e + f) == a + (b + (c + (d + (e + f))))
  {
  }

  /** A piece sent before others is read before them. */
  lemma LineCons(a: seq<byte>, x: seq<byte>, rest: seq<Rx>)
    ensures Line(a + x) + rest == Line(a) + (Line(x) + rest)
  {
    LineAppend(a, x);
  }

  /** Six pieces sent one after the other are read one after the other. */
  lemma LineSplit6(a: seq<byte>, b: seq<byte>, c: seq<byte>, d: seq<byte>, e: seq<byte>, f: seq<byte>, rest: seq<Rx>)
    ensures Line(a + (b + (c + (d + (e + f))))) + rest
         == Line(a) + (Line(b) + (Line(c) + (Line(d) + (Line(e) + (Line(f) + rest)))))
  {
    LineCons(e, f, rest);
    LineCons(d, e + f, rest);
    LineCons(c, d + (e + f), rest);
    LineCons(b, c + (d + (e + f)), rest);
    LineCons(a, b + (c + (d + (e + f))), rest);
  }

  /** An attempt that cancels or whose CRC matches ends the header loop at once. */
  lemma RecvHeaderOfAttempt(crc: Crc16, errors: nat, s: seq<Rx>, cancel: bool, nameBuf: seq<byte>,
                            sizeBuf: seq<byte>, pad: seq<byte>, rest: seq<Rx>)
    requires |nameBuf| >= 1 && |sizeBuf| >= 1
    requires ReadAttempt(crc, [], [], [], s) == Attempt(cancel, true, nameBuf, sizeBuf, pad, rest)
    ensures RecvHeader(crc, errors, [], [], [], s)
         == if cancel then Header(Err(Canceled), errors, [], [], [CAN, CAN], rest)
            else Header(Ok, errors, nameBuf[..|nameBuf| - 1], sizeBuf[..|sizeBuf| - 1], [ACK, CRC], rest)
  {
    var h := RecvHeader(crc, errors, [], [], [], s);
    var a := ReadAttempt(crc, [], [], [], s);
    assert a.Attempt? && a.good && a.cancel == cancel;
    if cancel {
      assert h == Header(Err(Canceled), errors, [], [], [CAN, CAN], rest);
    } else {
      assert h == Header(Ok, errors, nameBuf[..|nameBuf| - 1], sizeBuf[..|sizeBuf| - 1], [ACK, CRC], rest);
    }
  }

  /** A header block as the sender builds it, carrying the number bytes `p`
      and `q` in place of 0 and 0xFF: read back in one attempt when the number
      is right, with the name and the decimal size recovered and ACK, 'C'
      written; canceled with two CANs when it is not. The name must be NUL-free
      UTF-8 and leave room for a NUL after the size. */
  lemma RecvHeaderOfStartFrame(crc: Crc16, errors: nat, name: seq<byte>, size: u64, p: byte, q: byte, rest: seq<Rx>)
    requires NulFree(name) && ValidUtf8(name)
    requires |name| + 1 + |Decimal(size)| < SHORT_BLOCK
    ensures RecvHeader(crc, errors, [], [], [], Line([p, q] + StartFrame(crc, name, size)[3..]) + rest)
         == if p != 0 || 0xFF - p != q then Header(Err(Canceled), errors, [], [], [CAN, CAN], rest)
            else Header(Ok, errors, name, Decimal(size), [ACK, CRC], rest)
  {
    var text := Decimal(size);
    var k := SHORT_BLOCK - |name| - 1 - |text| - 1;
    var pad := Fill(0, k);
    StartFrameWire(crc, name, size, p, q, rest);
    DecimalNulFree(size);
    RecvHeaderOfPieces(crc, errors, p, q, name, text, pad, rest, Line([p, q] + StartFrame(crc, name, size)[3..]) + rest);
  }

  /** Decimal text holds no NUL. */
  lemma DecimalNulFree(size: u64)
    ensures NulFree(Decimal(size))
  {
    var text := Decimal(size);
    forall i | 0 <= i < |text| ensures text[i] != 0 {
      assert IsDigit(text[i]);
    }
  }

  /** A header attempt read in pieces with the right CRC ends the header loop. */
  lemma RecvHeaderOfPieces(crc: Crc16, errors: nat, p: byte, q: byte, name: seq<byte>, text: seq<byte>,
                           pad: seq<byte>, rest: seq<Rx>, s: seq<Rx>)
    requires NulFree(name) && ValidUtf8(name) && NulFree(text)
    requires |name| + 1 + |text| + 1 + |pad| == SHORT_BLOCK
    requires s == Line([p]) + (Line([q]) + (Line(name + [0]) + (Line(text + [0])
                    + (Line(pad) + (Line(CrcBytes(crc(name + [0] + (text + [0]) + pad))) + rest)))))
    ensures RecvHeader(crc, errors, [], [], [], s)
         == if p != 0 || 0xFF - p != q then Header(Err(Canceled), errors, [], [], [CAN, CAN], rest)
            else Header(Ok, errors, name, text, [ACK, CRC], rest)
  {
    var c := crc(name + [0] + (text + [0]) + pad);
    ReadAttemptOfWire(crc, p, q, name, text, pad, c, rest);
    RecvHeaderOfAttempt(crc, errors, s, p != 0 || 0xFF - p != q, name + [0], text + [0], pad, rest);
    assert (name + [0])[..|name + [0]| - 1] == name;
    assert (text + [0])[..|text + [0]| - 1] == text;
  }

  /** The header block a sender writes is received in one attempt: the name and
      the size it announces come back, and the receiver answers ACK and 'C'. */
  lemma HeaderRoundTrip(cfg: Config, crc: Crc16, name: seq<byte>, size: u32, rest: seq<Rx>)
    requires NulFree(name) && ValidUtf8(name)
    requires |name| + 1 + |Decimal(size)| < SHORT_BLOCK
    ensures var h := RecvHeader(crc, 0, [], [], [], Line(StartFrame(crc, name, size)[1..]) + rest);
      && h == Header(Ok, 0, name, Decimal(size), [ACK, CRC], rest)
      && FileSize(cfg, h.sizeText) == Some(size)
  {
    var frame := StartFrame(crc, name, size);
    StartFrameLayout(crc, name, size);
    assert frame[1..] == [0, 0xFF] + frame[3..];
    RecvHeaderOfStartFrame(crc, 0, name, size, 0, 0xFF, rest);
    FileSizeOfDecimal(cfg, size);
  }

  /** NUL-free bytes in front of a field all go into it: the read through
      the next NUL fails exactly when it fails without them. */
  lemma {:induction false} ReadThroughNulFree(xs: seq<byte>, t: seq<Rx>)
    requires NulFree(xs)
    ensures var r := ReadThroughNul(Line(xs) + t);
      var u := ReadThroughNul(t);
      && (r.IoError? <==> u.IoError?)
      && (u.Got? ==> r == Got(xs + u.value, u.rest))
    decreases |xs|
  {
    var u := ReadThroughNul(t);
    if |xs| == 0 {
      assert Line(xs) + t == t;
      if u.Got? {
        assert xs + u.value == u.value;
      }
    } else {
      var v := Line(xs[1..]) + t;
      LineFront(xs, t);
      assert NulFree(xs[1..]);
      ReadThroughNulFree(xs[1..], t);
      ReadThroughNulStep(xs[0], v);
      var r := ReadThroughNul(Line(xs) + t);
      assert r == ReadThroughNul([Byte(xs[0])] + v);
      if u.Got? {
        ConsSplit(xs, u.value);
      }
    }
  }

  /** A non-empty sequence is its first element followed by the others. */
  lemma ConsSplit<T>(xs: seq<T>, w: seq<T>)
    requires |xs| > 0
    ensures [xs[0]] + (xs[1..] + w) == xs + w
  {
    assert xs == [xs[0]] + xs[1..];
  }

  /** The first byte of a line is read before the rest of it. */
  lemma LineFront(xs: seq<byte>, t: seq<Rx>)
    requires |xs| > 0
    ensures Line(xs) + t == [Byte(xs[0])] + (Line(xs[1..]) + t)
  {
    assert [xs[0]] + xs[1..] == xs;
    assert Line([xs[0]]) == [Byte(xs[0])];
    LineCons([xs[0]], xs[1..], t);
  }

  /** One byte that is not NUL goes into the field read through the next NUL. */
  lemma ReadThroughNulStep(x: byte, v: seq<Rx>)
    requires x != 0
    ensures var r := ReadThroughNul([Byte(x)] + v);
      var u := ReadThroughNul(v);
      && (r.IoError? <==> u.IoError?)
      && (u.Got? ==> r == Got([x] + u.value, u.rest))
  {
    assert ([Byte(x)] + v)[1..] == v;
  }

  /** A header block whose name, NUL and size fill all 128 payload bytes, as
      the sender allows, has no NUL after the size. The size field then runs
      on into the CRC and whatever follows, so the two buffers outgrow the
      block and the padding count underflows. The header is never accepted:
      the loop panics, unless a read fails before a NUL comes. */
  lemma FullHeaderNotReceived(crc: Crc16, errors: nat, name: seq<byte>, size: u64, rest: seq<Rx>)
    requires NulFree(name) && ValidUtf8(name)
    requires |name| + 1 + |Decimal(size)| == SHORT_BLOCK
    ensures var t := Line(CrcBytes(crc(name + [0] + Decimal(size)))) + rest;
      RecvHeader(crc, errors, [], [], [], Line(StartFrame(crc, name, size)[1..]) + rest)
        == HeaderFailure(if ReadThroughNul(t).IoError? then Io else Panic, errors)
  {
    var text := Decimal(size);
    var t := Line(CrcBytes(crc(name + [0] + text))) + rest;
    var tail := Line(text) + t;
    var e := if ReadThroughNul(t).IoError? then Io else Panic;
    FullStartFrameWire(crc, name, size, rest);
    DecimalNulFree(size);
    ReadNamesOfFullHeader(false, name, text, t);
    NumberOfWire(0, 0xFF, Line(name + [0]) + tail);
    RecvHeaderOfFailedFields(crc, errors, Line([0]) + (Line([0xFF]) + (Line(name + [0]) + tail)), e);
  }

  /** Block 0 of a header that fills all 128 payload bytes, after its SOH:
      the number bytes, the name and its NUL, the size digits, then the CRC
      with no NUL between the digits and it. */
  lemma FullStartFrameWire(crc: Crc16, name: seq<byte>, size: u64, rest: seq<Rx>)
    requires |name| + 1 + |Decimal(size)| == SHORT_BLOCK
    ensures var text := Decimal(size);
      Line(StartFrame(crc, name, size)[1..]) + rest
        == Line([0]) + (Line([0xFF]) + (Line(name + [0]) + (Line(text) + (Line(CrcBytes(crc(name + [0] + text))) + rest))))
  {
    var text := Decimal(size);
    var payload := name + [0] + text;
    assert HeaderPayload(name, size) == payload by {
      assert Fill(0, 0) == [];
    }
    var cb := CrcBytes(crc(payload));
    assert StartFrame(crc, name, size)[1..] == [0] + ([0xFF] + ((name + [0]) + (text + cb)));
    LineCons(text, cb, rest);
    LineCons(name + [0], text + cb, rest);
    LineCons([0xFF], (name + [0]) + (text + cb), rest);
    LineCons([0], [0xFF] + ((name + [0]) + (text + cb)), rest);
  }

  /** A first attempt whose fields cannot be read ends the header loop with
      that error and nothing written. */
  lemma RecvHeaderOfFailedFields(crc: Crc16, errors: nat, s: seq<Rx>, e: Error)
    requires ReadFields([], [], s) == FieldsFailed(e)
    ensures RecvHeader(crc, errors, [], [], [], s) == HeaderFailure(e, errors)
  {
    assert ReadAttempt(crc, [], [], [], s) == AttemptFailed(e);
  }

  /** The name and size fields of a header that fills its block: the name is
      read, and the size field takes everything up to the next NUL after the
      block. */
  lemma ReadNamesOfFullHeader(cancel: bool, name: seq<byte>, text: seq<byte>, t: seq<Rx>)
    requires NulFree(name) && ValidUtf8(name) && NulFree(text)
    requires |name| + 1 + |text| == SHORT_BLOCK
    ensures ReadNames(cancel, [], [], Line(name + [0]) + (Line(text) + t))
         == FieldsFailed(if ReadThroughNul(t).IoError? then Io else Panic)
  {
    var tail := Line(text) + t;
    ReadThroughNulLine(name, tail);
    ReadNamesStep(cancel, Line(name + [0]) + tail, name, tail);
    ReadThroughNulFree(text, t);
  }

  /** The fields of a first attempt once a UTF-8 name field is read: the size
      field follows, and both buffers together must fit the block. */
  lemma ReadNamesStep(cancel: bool, s: seq<Rx>, name: seq<byte>, s1: seq<Rx>)
    requires ReadThroughNul(s) == Got(name + [0], s1) && ValidUtf8(name)
    ensures ReadNames(cancel, [], [], s)
         == match ReadThroughNul(s1)
            case IoError => FieldsFailed(Io)
            case Got(z, s2) =>
              if |name| + 1 + |z| > SHORT_BLOCK then FieldsFailed(Panic) else Fields(cancel, name + [0], z, s2)
  {
    var n := [] + (name + [0]);
    assert n == name + [0];
    assert n[..|n| - 1] == name;
    match ReadThroughNul(s1)
    case IoError =>
    case Got(z, s2) =>
      assert [] + z == z;
  }

  // ---------------------------------------------------------------------------
  // The announced size

  /** The file size the header announces: the size text must be UTF-8; with
      `ignoreNonDigits` only its digits are kept; it is parsed as a `u32`, and
      when that fails, its part before the first space is. `None` stands for
      the panic of the source when both parses fail. */
  function FileSize(cfg: Config, sizeText: seq<byte>): (r: Option<u32>)
    ensures r.Some? ==> ValidUtf8(sizeText)
    ensures r.Some? ==> exists t :: (t == sizeText || t == KeepDigits(sizeText) || t == BeforeSpace(sizeText)
                                      || t == BeforeSpace(KeepDigits(sizeText))) && ParseU32(t) == r
  {
    if !ValidUtf8(sizeText) then None
    else
      var t := if cfg.ignoreNonDigits then KeepDigits(sizeText) else sizeText;
      match ParseU32(t)
      case Some(v) => Some(v)
      case None => ParseU32(BeforeSpace(t))
  }

  /** The size a sender writes into the header is read back exactly. */
  lemma FileSizeOfDecimal(cfg: Config, size: u32)
    ensures FileSize(cfg, Decimal(size)) == Some(size)
  {
    var d := Decimal(size);
    assert Ascii(d) by {
      forall i | 0 <= i < |d| ensures d[i] < 0x80 {
        assert IsDigit(d[i]);
      }
    }
    AsciiIsUtf8(d);
    ParseDecimal(size);
  }

  /** A trailing field after a space is ignored: "1234 0644" announces 1234. */
  lemma FileSizeBeforeSpace(size: u32, more: seq<byte>)
    ensures FileSize(DEFAULT, Decimal(size) + [SPACE] + more) == Some(size)
        || !ValidUtf8(Decimal(size) + [SPACE] + more)
  {
    var d := Decimal(size);
    var t := d + [SPACE] + more;
    assert !IsDigit(t[|d|]);
    assert ParseU32(t) == None by {
      assert t[0] == d[0] && IsDigit(d[0]);
      assert !AllDigits(t);
      assert !AllDigits(t[1..]) by {
        assert t[1..][|d| - 1] == SPACE;
      }
    }
    BeforeSpaceOf(d, more);
    ParseDecimal(size);
  }

  lemma {:induction false} BeforeSpaceOf(d: seq<byte>, more: seq<byte>)
    requires AllDigits(d)
    ensures BeforeSpace(d + [SPACE] + more) == d
    decreases |d|
  {
    if |d| == 0 {
      assert (d + [SPACE] + more)[0] == SPACE;
    } else {
      assert (d + [SPACE] + more)[1..] == d[1..] + [SPACE] + more;
      BeforeSpaceOf(d[1..], more);
      assert [d[0]] + d[1..] == d;
    }
  }

  // ---------------------------------------------------------------------------
  // The block count, computed in single precision

  /** The number of binary digits of `n`. */
  function BitLength(n: nat): (r: nat)
    decreases n
  {
    if n == 0 then 0 else 1 + BitLength(n / 2)
  }

  /** Integers below 2^24 are exact in single precision. */
  const F32_EXACT: nat := 0x100_0000

  /** `n as f32`: `n` rounded to 24 significant bits, ties to even. */
  function ToF32(n: nat): (r: nat)
    ensures n < F32_EXACT ==> r == n
  {
    if n < F32_EXACT then n
    else
      var unit := Pow2(if BitLength(n) > 24 then BitLength(n) - 24 else 0);
      var q := n / unit;
      var rem := n % unit;
      var half := unit / 2;
      Times(if rem > half || (rem == half && q % 2 == 1) then q + 1 else q, unit)
  }

  function Times(a: nat, b: nat): nat {
    a * b
  }

  /** `(size as f32 / 1024.0).ceil() as u32`: the division by a power of two is
      exact, so only the conversion to single precision rounds. */
  function PacketCount(size: u32): (r: nat)
    ensures size < F32_EXACT ==> r == CeilDiv(size, LONG_BLOCK)
  {
    CeilDiv(ToF32(size), LONG_BLOCK)
  }

  /** Above 2^24 the rounding can lose a block: a size of 2^24 + 1 bytes,
      which the sender writes as 16385 blocks, gives a count of 16384. */
  lemma PacketCountRounds()
    ensures PacketCount(0x100_0001) == 0x4000
    ensures CeilDiv(0x100_0001, LONG_BLOCK) == 0x4001
  {
    var n := 0x100_0001;
    assert BitLength(n) == 25 by {
      BitLengthOfPow2Plus1(24);
    }
    assert ToF32(n) == 0x100_0000 by {
      assert Pow2(1) == 2;
      assert n / 2 == 0x80_0000 && n % 2 == 1;
      assert Times(0x80_0000, 2) == 0x100_0000;
    }
    assert CeilDiv(0x100_0000, LONG_BLOCK) == 0x4000;
    assert CeilDiv(n, LONG_BLOCK) == 0x4001;
  }

  lemma {:induction false} BitLengthOfPow2Plus1(e: nat)
    ensures Pow2(e) + 1 > 1 && BitLength(Pow2(e) + 1) == (if e == 0 then 2 else e + 1)
    ensures e == 24 ==> Pow2(e) == F32_EXACT
    decreases e
  {
    if e == 0 {
      assert BitLength(2) == 1 + BitLength(1);
    } else if e == 1 {
      assert BitLength(3) == 1 + BitLength(1);
    } else {
      BitLengthOfPow2Plus1(e - 1);
      assert (Pow2(e) + 1) / 2 == Pow2(e - 1);
      PowerBitLength(e - 1);
    }
    if e == 24 {
      PowValue24();
    }
  }

  lemma {:induction false} PowerBitLength(e: nat)
    ensures BitLength(Pow2(e)) == e + 1
    decreases e
  {
    if e > 0 {
      PowerBitLength(e - 1);
      assert Pow2(e) / 2 == Pow2(e - 1);
    }
  }

  lemma PowValue24()
    ensures Pow2(24) == F32_EXACT
  {
    assert Pow2(8) == 0x100;
    assert Pow2(16) == 0x1_0000;
  }

  // ---------------------------------------------------------------------------
  // The data loop

  /** The receiver's state between turns of the data loop. */
  datatype Blocks = Blocks(errors: nat, packetNum: byte, seenEot: bool, file: seq<byte>, writes: seq<byte>)

  /** `w` is `before` followed by zero or more further writes. */
  predicate Extends(before: seq<byte>, w: seq<byte>) {
    |before| <= |w| && w[..|before|] == before
  }

  /** The writes a turn leaves behind, stopped or not. */
  function TurnWrites(t: Turn): seq<byte> {
    if t.Next? then t.st.writes else t.writes
  }

  /** The result of one turn, or of the whole loop. */
  datatype Turn = Next(st: Blocks, rest: seq<Rx>) | Stop(error: Error, writes: seq<byte>)

  /** A data block after its SOH or STX: number, complement, `size` bytes and
      the CRC. A wrong number or complement cancels with two CANs once the
      block is read; a good CRC appends the whole padded payload to the file,
      advances the block number (modulo 256) and is answered with ACK; a bad
      one is answered with NAK and one more error. */
  function RecvBlock(crc: Crc16, size: nat, expected: byte, st: Blocks, s: seq<Rx>): (t: Turn)
    ensures t.Next? ==> |t.rest| < |s|
    ensures t.Stop? ==> t.error in {Io, Canceled}
    ensures t.Stop? && t.error == Canceled ==> t.writes == st.writes + [CAN, CAN]
    ensures t.Stop? && t.error == Io ==> t.writes == st.writes
    ensures t.Next? ==> t.st.seenEot == st.seenEot
    ensures t.Next? ==> || (t.st == st.(errors := st.errors + 1, writes := st.writes + [NAK]))
                        || (&& |t.st.file| == |st.file| + size && t.st.file[..|st.file|] == st.file
                            && t.st.packetNum == (st.packetNum + 1) % 0x100 && t.st.errors == st.errors
                            && t.st.writes == st.writes + [ACK])
    ensures t.Next? ==> Extends(st.file, t.st.file) && t.st.errors >= st.errors
    ensures Extends(st.writes, TurnWrites(t))
  {
    match GetByte(s)
    case IoError => Stop(Io, st.writes)
    case Got(pnum, s1) =>
      match GetByte(s1)
      case IoError => Stop(Io, st.writes)
      case Got(pnum1c, s2) =>
        match ReadPayload(size, s2)
        case IoError => Stop(Io, st.writes)
        case Got((data, sum), s3) =>
          if expected != pnum || 0xFF - pnum != pnum1c then Stop(Canceled, st.writes + [CAN, CAN])
          else if crc(data) == sum then
            Next(st.(packetNum := (st.packetNum + 1) % 0x100, file := st.file + data, writes := st.writes + [ACK]), s3)
          else Next(st.(errors := st.errors + 1, writes := st.writes + [NAK]), s3)
  }

  /** How a block can fail, read off the line: a reply missing from the
      number, the complement, the `size` payload bytes or the two CRC bytes is
      an I/O error, and a block that is read whole is cancelled exactly when
      its number or complement is wrong. */
  lemma RecvBlockReads(crc: Crc16, size: nat, expected: byte, st: Blocks, s: seq<Rx>)
    ensures var t := RecvBlock(crc, size, expected, st, s);
      && (t == Stop(Io, st.writes) <==> !Delivers(s, size + 4))
      && (t.Stop? && t.error == Canceled ==> s[0] != Byte(expected) || s[1] != Byte(0xFF - s[0].b))
      && (t.Next? ==> s[0] == Byte(expected) && s[1] == Byte(0xFF - expected))
  {
    DeliversCons(s, size + 3);
    match GetByte(s)
    case IoError =>
    case Got(pnum, s1) =>
      DeliversCons(s1, size + 2);
      match GetByte(s1)
      case IoError =>
      case Got(pnum1c, s2) => ReadPayloadOnLine(size, s2);
  }

  /** What a block that is read whole does, read off the line: it is
      answered with ACK exactly when the CRC of the payload on the line
      matches the CRC on the line, and then exactly that payload is
      appended. */
  lemma RecvBlockChecksCrc(crc: Crc16, size: nat, expected: byte, st: Blocks, s: seq<Rx>)
    ensures var t := RecvBlock(crc, size, expected, st, s);
      t.Next? ==> && Delivers(s, size + 4)
                  && (t.st.writes == st.writes + [ACK]
                      <==> Line(CrcBytes(crc(Unline(s[2..size + 2])))) == s[size + 2..size + 4])
                  && (t.st.writes == st.writes + [ACK] ==> t.st.file == st.file + Unline(s[2..size + 2]))
  {
    var t := RecvBlock(crc, size, expected, st, s);
    if t.Next? {
      RecvBlockReads(crc, size, expected, st, s);
      assert GetByte(s).Got? && GetByte(s).rest == s[1..];
      assert GetByte(s[1..]).Got? && GetByte(s[1..]).rest == s[2..];
      var r := ReadPayload(size, s[2..]);
      assert r.Got?;
      var data, sum := r.value.0, r.value.1;
      assert Unline(s[2..size + 2]) == data && s[size + 2..size + 4] == Line(CrcBytes(sum)) by {
        ReadPayloadOnLine(size, s[2..]);
        assert s[2..][..size] == s[2..size + 2] && s[2..][size..size + 2] == s[size + 2..size + 4];
        UnlineLine(data);
      }
      CrcOnLine(crc(data), sum);
      assert (t.st.writes == st.writes + [ACK]) == (crc(data) == sum) by {
        assert (st.writes + [NAK])[|st.writes|] != (st.writes + [ACK])[|st.writes|];
      }
    }
  }

  /** One turn of the data loop, turn `range` of `final + 1`. SOH and STX
      start a 128- and a 1024-byte block, numbered 0 on the last turn and the
      running block number on every other. EOT advances the block number; the
      first is answered with NAK, every later one with ACK and 'C'. Another
      byte is ignored; a timeout is one more error; a fault ends the loop. */
  function RecvTurn(crc: Crc16, range: nat, final: nat, st: Blocks, s: seq<Rx>): (t: Turn)
    ensures t.Next? ==> |t.rest| < |s| || (|s| == 0 && t.rest == [])
    ensures Extends(st.writes, TurnWrites(t))
    ensures t.Next? ==> t.st.errors >= st.errors && Extends(st.file, t.st.file)
    ensures t.Stop? ==> t.error in {Io, Canceled}
  {
    match Head(s)
    case Fault => Stop(Io, st.writes)
    case Timeout => Next(st.(errors := st.errors + 1), Tail(s))
    case Byte(b) =>
      if b == SOH || b == STX then
        RecvBlock(crc, if b == SOH then SHORT_BLOCK else LONG_BLOCK,
                  if range == final then 0 else st.packetNum, st, s[1..])
      else if b == EOT then
        var st' := st.(packetNum := (st.packetNum + 1) % 0x100, seenEot := true);
        if st.seenEot then Next(st'.(writes := st.writes + [ACK, CRC]), s[1..])
        else Next(st'.(writes := st.writes + [NAK]), s[1..])
      else Next(st, s[1..])
  }

  /** The first EOT is refused with NAK and every later one accepted with ACK
      and 'C'; either way the block number moves on and nothing else changes. */
  lemma EotTurn(crc: Crc16, range: nat, final: nat, st: Blocks, rest: seq<Rx>)
    ensures RecvTurn(crc, range, final, st, [Byte(EOT)] + rest)
         == Next(Blocks(st.errors, (st.packetNum + 1) % 0x100, true, st.file,
                        st.writes + (if st.seenEot then [ACK, CRC] else [NAK])), rest)
  {
    assert ([Byte(EOT)] + rest)[1..] == rest;
  }

  /** A block body as a sender writes it: number, complement, payload and
      the CRC of the payload. */
  lemma BlockBodyWire(a: byte, b: byte, payload: seq<byte>, c: u16, rest: seq<Rx>)
    ensures Line([a, b] + payload + CrcBytes(c)) + rest
         == Line([a]) + (Line([b]) + (Line(payload) + (Line(CrcBytes(c)) + rest)))
  {
    assert [a, b] + payload + CrcBytes(c) == [a] + ([b] + (payload + CrcBytes(c)));
    LineCons(payload, CrcBytes(c), rest);
    LineCons([b], payload + CrcBytes(c), rest);
    LineCons([a], [b] + (payload + CrcBytes(c)), rest);
  }

  /** A block body read in full: the number check and the CRC check decide. */
  lemma RecvBlockOfWire(crc: Crc16, size: nat, expected: byte, st: Blocks, a: byte, b: byte,
                        payload: seq<byte>, rest: seq<Rx>)
    requires |payload| == size
    ensures RecvBlock(crc, size, expected, st, Line([a, b] + payload + CrcBytes(crc(payload))) + rest)
         == if expected != a || 0xFF - a != b then Stop(Canceled, st.writes + [CAN, CAN])
            else Next(st.(packetNum := (st.packetNum + 1) % 0x100, file := st.file + payload,
                          writes := st.writes + [ACK]), rest)
  {
    var c := crc(payload);
    BlockBodyWire(a, b, payload, c, rest);
    NumberOfWire(a, b, Line(payload) + (Line(CrcBytes(c)) + rest));
    ReadPayloadOfWire(payload, c, rest);
  }

  /** A data block as the sender builds it, after its SOH or STX: accepted
      with ACK, its whole padded payload appended to the file and the block
      number advanced, when its number matches the one expected modulo 256;
      canceled with two CANs when it does not. */
  lemma RecvBlockOfDataFrame(crc: Crc16, pad: byte, number: nat, size: nat, chunk: seq<byte>,
                             expected: byte, st: Blocks, rest: seq<Rx>)
    requires size == SHORT_BLOCK || size == LONG_BLOCK
    requires |chunk| <= size
    ensures RecvBlock(crc, size, expected, st, Line(DataFrame(crc, pad, number, size, chunk)[1..]) + rest)
         == if number % 0x100 != expected then Stop(Canceled, st.writes + [CAN, CAN])
            else Next(st.(packetNum := (st.packetNum + 1) % 0x100, file := st.file + (chunk + Fill(pad, size - |chunk|)),
                          writes := st.writes + [ACK]), rest)
  {
    var payload := chunk + Fill(pad, size - |chunk|);
    var a: byte := number % 0x100;
    var b: byte := 0xFF - a;
    assert DataFrame(crc, pad, number, size, chunk)[1..] == [a, b] + payload + CrcBytes(crc(payload)) by {
      DataFrameBody(crc, pad, number, size, chunk);
    }
    RecvBlockOfWire(crc, size, expected, st, a, b, payload, rest);
  }

  /** A data block after its first byte: number, complement, padded payload
      and CRC. */
  lemma DataFrameBody(crc: Crc16, pad: byte, number: nat, size: nat, chunk: seq<byte>)
    requires size == SHORT_BLOCK || size == LONG_BLOCK
    requires |chunk| <= size
    ensures var payload := chunk + Fill(pad, size - |chunk|);
      DataFrame(crc, pad, number, size, chunk)[1..]
        == [number % 0x100, 0xFF - number % 0x100] + payload + CrcBytes(crc(payload))
  {
    var payload := chunk + Fill(pad, size - |chunk|);
    var head: byte := if size == SHORT_BLOCK then SOH else STX;
    var tail := [number % 0x100, 0xFF - number % 0x100] + payload + CrcBytes(crc(payload));
    assert DataFrame(crc, pad, number, size, chunk) == [head] + tail;
  }

  /** A turn that receives a whole data block: its first byte picks the block
      size the sender used, and the number expected is 0 on the last turn and
      the running block number on any other. */
  lemma RecvTurnOfDataFrame(crc: Crc16, range: nat, final: nat, st: Blocks, pad: byte, number: nat,
                            size: nat, chunk: seq<byte>, rest: seq<Rx>)
    requires size == SHORT_BLOCK || size == LONG_BLOCK
    requires |chunk| <= size
    ensures RecvTurn(crc, range, final, st, Line(DataFrame(crc, pad, number, size, chunk)) + rest)
         == RecvBlock(crc, size, if range == final then 0 else st.packetNum, st,
                      Line(DataFrame(crc, pad, number, size, chunk)[1..]) + rest)
  {
    var frame := DataFrame(crc, pad, number, size, chunk);
    DataFrameLayout(crc, pad, number, size, chunk);
    assert frame == [frame[0]] + frame[1..];
    LineCons([frame[0]], frame[1..], rest);
    GetByteLine(frame[0], Line(frame[1..]) + rest);
    assert (Line([frame[0]]) + (Line(frame[1..]) + rest))[1..] == Line(frame[1..]) + rest;
  }

  /** The sender's end block is an empty 128-byte data block numbered 0,
      padded with zeros. */
  lemma EndFrameIsDataFrame(crc: Crc16)
    ensures EndFrame(crc) == DataFrame(crc, 0, 0, SHORT_BLOCK, [])
  {
    assert [] + Fill(0, SHORT_BLOCK) == Fill(0, SHORT_BLOCK);
  }

  /** On the last turn the receiver takes the sender's end block as a good
      block: it answers ACK and appends 128 zero bytes to the file, which the
      final cut to the announced size drops. */
  lemma RecvEndFrame(crc: Crc16, final: nat, st: Blocks, rest: seq<Rx>)
    ensures RecvTurn(crc, final, final, st, Line(EndFrame(crc)) + rest)
         == Next(st.(packetNum := (st.packetNum + 1) % 0x100, file := st.file + Fill(0, SHORT_BLOCK),
                     writes := st.writes + [ACK]), rest)
  {
    EndFrameIsDataFrame(crc);
    RecvTurnOfDataFrame(crc, final, final, st, 0, 0, SHORT_BLOCK, [], rest);
    RecvBlockOfDataFrame(crc, 0, 0, SHORT_BLOCK, [], 0, st, rest);
    assert [] + Fill(0, SHORT_BLOCK) == Fill(0, SHORT_BLOCK);
  }

  /** Turns `range` up to `total - 1` of the data loop; after every turn the
      loop gives up once the error count reaches `maxErrors`. */
  function RecvBlocks(cfg: Config, crc: Crc16, range: nat, total: nat, st: Blocks, s: seq<Rx>): (t: Turn)
    requires total >= 1
    ensures t.Next? ==> t.st.errors < cfg.maxErrors || (range >= total && t.st == st)
    ensures t.Next? ==> Extends(st.file, t.st.file)
    ensures t.Stop? ==> t.error in {Io, Canceled, ExhaustedRetries}
    ensures t.Stop? && t.error == ExhaustedRetries ==> range < total
    ensures Extends(st.writes, TurnWrites(t))
    decreases total - range
  {
    if range >= total then Next(st, s)
    else match RecvTurn(crc, range, total - 1, st, s)
      case Stop(e, w) => Stop(e, w)
      case Next(st', s') =>
        if st'.errors >= cfg.maxErrors then Stop(ExhaustedRetries, st'.writes)
        else RecvBlocks(cfg, crc, range + 1, total, st', s')
  }

  // ---------------------------------------------------------------------------
  // recv

  /** What `recv` leaves behind: the outcome, the receiver's `initialErrors`
      field, the file name and size it reports, the file it writes out, and
      every byte it wrote to the line. */
  datatype Received = Received(outcome: Outcome, initialErrors: nat, name: seq<byte>, size: nat,
                               file: seq<byte>, writes: seq<byte>)

  /** What the data loop leaves: its outcome, the file and every write so
      far. */
  datatype Body = Body(outcome: Outcome, file: seq<byte>, writes: seq<byte>)

  /** The data loop once the header gave `size`: block count plus three
      turns, then the first `size` bytes of what the accepted blocks carried,
      a shorter file being a panic. */
  function RecvBody(cfg: Config, crc: Crc16, size: u32, errors: nat, w: seq<byte>, s: seq<Rx>): (b: Body)
    ensures b.outcome in {Ok, Err(Io), Err(Canceled), Err(ExhaustedRetries), Err(Panic)}
    ensures b.outcome.Ok? ==> |b.file| == size
    ensures Extends(w, b.writes)
  {
    match RecvBlocks(cfg, crc, 0, PacketCount(size) + 3, Blocks(errors, 1, false, [], w), s)
    case Stop(e, w') => Body(Err(e), [], w')
    case Next(st, _) =>
      if |st.file| < size then Body(Err(Panic), [], st.writes)
      else Body(Ok, st.file[..size], st.writes)
  }

  /** The whole reception. The error counter starts at 0 and carries over
      from the header loop into the data loop. */
  function Recv(cfg: Config, crc: Crc16, initialErrors: nat, s: seq<Rx>): (r: Received)
    ensures r.outcome in {Ok, Err(Io), Err(Canceled), Err(ExhaustedRetries), Err(Panic), Err(Stalled)}
    ensures |r.writes| >= 1 && r.writes[0] == CRC
    ensures r.initialErrors >= initialErrors
    ensures r.outcome.Ok? ==> |r.file| == r.size && r.size < 0x1_0000_0000
    ensures r.outcome.Ok? ==> |r.writes| >= 3
  {
    var start := AwaitStart(cfg, initialErrors, s);
    if !start.outcome.Ok? then Received(start.outcome, start.initialErrors, [], 0, [], start.writes)
    else
      var h := RecvHeader(crc, 0, [], [], [], start.rest);
      var w := start.writes + h.writes;
      if !h.outcome.Ok? then Received(h.outcome, start.initialErrors, [], 0, [], w)
      else match FileSize(cfg, h.sizeText)
        case None => Received(Err(Panic), start.initialErrors, h.name, 0, [], w)
        case Some(size) =>
          assert |w| >= 3 && w[0] == CRC;
          var b := RecvBody(cfg, crc, size, h.errors, w, h.rest);
          assert b.writes[0] == w[0];
          Received(b.outcome, start.initialErrors, h.name, size, b.file, b.writes)
  }
}
