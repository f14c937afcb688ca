/** A serial line seen from the side that reads it, as a script of the replies
    it will deliver. Every read takes the next entry: a byte, a read timeout or
    an I/O fault. A script that has run out reads as a silent line, that is, as
    a timeout on every further read.

    The blocking reads used by the YMODEM session come in three flavours:
    `get_byte_timeout` (a timeout is an ordinary `None` answer), `get_byte` and
    `read_exact` (a timeout is an I/O error), and `get_stream_timeout` (all the
    bytes up to the next timeout). */
module Channel {
  import opened Bytes

  datatype Rx = Byte(b: byte) | Timeout | Fault

  /** The reply the next read receives. */
  function Head(s: seq<Rx>): (r: Rx)
    ensures |s| == 0 ==> r == Timeout
    ensures |s| > 0 ==> r == s[0]
  {
    if |s| == 0 then Timeout else s[0]
  }

  /** The script after one read. */
  function Tail(s: seq<Rx>): (t: seq<Rx>)
    ensures |s| > 0 ==> t == s[1..]
    ensures |s| == 0 ==> t == []
  {
    if |s| == 0 then [] else s[1..]
  }

  /** A line that delivers exactly the bytes `bs`, one read each. */
  function Line(bs: seq<byte>): (r: seq<Rx>)
    ensures |r| == |bs|
    ensures forall i :: 0 <= i < |bs| ==> r[i] == Byte(bs[i])
  {
    if |bs| == 0 then [] else [Byte(bs[0])] + Line(bs[1..])
  }

  lemma LineAppend(xs: seq<byte>, ys: seq<byte>)
    ensures Line(xs + ys) == Line(xs) + Line(ys)
  {
  }

  /** The outcome of a read that treats a timeout as an error. */
  datatype Read<+T> = Got(value: T, rest: seq<Rx>) | IoError

  /** `get_byte`: one byte, or an I/O error on a timeout or a fault. */
  function GetByte(s: seq<Rx>): (r: Read<byte>)
    ensures r.Got? <==> |s| > 0 && s[0].Byte?
    ensures r.Got? ==> r.value == s[0].b && r.rest == s[1..]
  {
    if |s| > 0 && s[0].Byte? then Got(s[0].b, s[1..]) else IoError
  }

  /** The first `n` replies are all bytes. */
  predicate Delivers(s: seq<Rx>, n: nat) {
    n <= |s| && forall i :: 0 <= i < n ==> s[i].Byte?
  }

  /** A line delivers `n + 1` bytes exactly when its first reply is a byte
      and the replies after it deliver `n`. */
  lemma DeliversCons(s: seq<Rx>, n: nat)
    ensures Delivers(s, n + 1) <==> |s| > 0 && s[0].Byte? && Delivers(s[1..], n)
  {
    if |s| > 0 && s[0].Byte? && Delivers(s[1..], n) {
      forall i | 0 <= i < n + 1
        ensures s[i].Byte?
      {
        if i > 0 { assert s[i] == s[1..][i - 1]; }
      }
    }
  }

  /** The bytes a run of byte replies carries: the inverse of `Line`. */
  function Unline(s: seq<Rx>): (bs: seq<byte>)
    requires forall i :: 0 <= i < |s| ==> s[i].Byte?
    ensures Line(bs) == s
  {
    if |s| == 0 then [] else [s[0].b] + Unline(s[1..])
  }

  /** A run of byte replies carries the bytes it was made of. */
  lemma {:induction false} UnlineLine(bs: seq<byte>)
    ensures Unline(Line(bs)) == bs
    decreases |bs|
  {
    if |bs| > 0 {
      assert Line(bs)[1..] == Line(bs[1..]);
      UnlineLine(bs[1..]);
      assert bs == [bs[0]] + bs[1..];
    }
  }

  /** `read_exact`: exactly `n` bytes, or an I/O error if any of them is missing. */
  function ReadExact(s: seq<Rx>, n: nat): (r: Read<seq<byte>>)
    ensures r.Got? ==> |r.value| == n && |r.rest| + n == |s|
    decreases n
  {
    if n == 0 then Got([], s)
    else match GetByte(s)
      case IoError => IoError
      case Got(b, s1) =>
        match ReadExact(s1, n - 1)
        case IoError => IoError
        case Got(bs, s2) => Got([b] + bs, s2)
  }

  /** `read_exact` succeeds exactly when the first `n` replies are bytes, and
      then yields those bytes and leaves the rest of the line. */
  lemma {:induction false} ReadExactOnLine(s: seq<Rx>, n: nat)
    ensures var r := ReadExact(s, n);
      && (r.Got? <==> Delivers(s, n))
      && (r.Got? ==> Line(r.value) == s[..n] && r.rest == s[n..])
    decreases n
  {
    if n > 0 {
      if |s| > 0 && s[0].Byte? {
        ReadExactOnLine(s[1..], n - 1);
        ReadExactStep(s, n);
      } else {
        assert !Delivers(s, n) by { DeliversCons(s, n - 1); }
      }
    }
  }

  /** One byte, then `n - 1` more: what `ReadExactOnLine` says of the rest of
      the line carries over to the whole line. */
  lemma ReadExactStep(s: seq<Rx>, n: nat)
    requires n > 0 && |s| > 0 && s[0].Byte?
    requires var e := ReadExact(s[1..], n - 1);
      && (e.Got? <==> Delivers(s[1..], n - 1))
      && (e.Got? ==> Line(e.value) == s[1..][..n - 1] && e.rest == s[1..][n - 1..])
    ensures var r := ReadExact(s, n);
      && (r.Got? <==> Delivers(s, n))
      && (r.Got? ==> Line(r.value) == s[..n] && r.rest == s[n..])
  {
    var e := ReadExact(s[1..], n - 1);
    DeliversCons(s, n - 1);
    if e.Got? {
      assert ReadExact(s, n) == Got([s[0].b] + e.value, e.rest);
      LineAppend([s[0].b], e.value);
      assert s[..n] == [s[0]] + s[1..][..n - 1];
    }
  }

  /** Reading `|xs|` bytes from a line carrying `xs` first yields `xs`. */
  lemma {:induction false} ReadExactLine(xs: seq<byte>, rest: seq<Rx>)
    ensures ReadExact(Line(xs) + rest, |xs|) == Got(xs, rest)
    decreases |xs|
  {
    if |xs| > 0 {
      var t := Line(xs[1..]) + rest;
      assert GetByte(Line(xs) + rest) == Got(xs[0], t) by {
        assert Line(xs) + rest == [Byte(xs[0])] + t;
      }
      ReadExactLine(xs[1..], rest);
      assert [xs[0]] + xs[1..] == xs;
    }
  }

  /** Bytes up to and including the first NUL, each read with `get_byte`. */
  function ReadThroughNul(s: seq<Rx>): (r: Read<seq<byte>>)
    ensures r.Got? ==> 1 <= |r.value| && r.value[|r.value| - 1] == 0
    ensures r.Got? ==> forall i :: 0 <= i < |r.value| - 1 ==> r.value[i] != 0
    ensures r.Got? ==> |r.rest| == |s| - |r.value|
    decreases |s|
  {
    match GetByte(s)
    case IoError => IoError
    case Got(b, s1) =>
      if b == 0 then Got([0], s1)
      else match ReadThroughNul(s1)
        case IoError => IoError
        case Got(bs, s2) => Got([b] + bs, s2)
  }

  /** On a line carrying a NUL-free string then a NUL, the read stops at that NUL. */
  lemma {:induction false} ReadThroughNulLine(xs: seq<byte>, rest: seq<Rx>)
    requires forall i :: 0 <= i < |xs| ==> xs[i] != 0
    ensures ReadThroughNul(Line(xs + [0]) + rest) == Got(xs + [0], rest)
    decreases |xs|
  {
    var s := Line(xs + [0]) + rest;
    if |xs| == 0 {
      assert xs + [0] == [0];
      assert s[0] == Byte(0);
      assert s[1..] == rest;
      assert GetByte(s) == Got(0, rest);
    } else {
      var t := Line(xs[1..] + [0]) + rest;
      assert (xs + [0])[1..] == xs[1..] + [0];
      assert s == [Byte(xs[0])] + t by {
        assert Line(xs + [0]) == [Byte(xs[0])] + Line(xs[1..] + [0]);
      }
      assert GetByte(s) == Got(xs[0], t);
      ReadThroughNulLine(xs[1..], rest);
      assert [xs[0]] + (xs[1..] + [0]) == xs + [0];
    }
  }

  /** The outcome of `get_stream_timeout`: the bytes that arrive before the
      line falls silent (`None` when there are none), or an I/O error. */
  datatype Stream = StreamError | Burst(data: Option<seq<byte>>, rest: seq<Rx>)

  function ReadStream(s: seq<Rx>): (r: Stream)
    ensures r.Burst? && r.data.Some? ==> 1 <= |r.data.value|
    ensures r.Burst? ==> |r.rest| <= |s| && r.rest == s[|s| - |r.rest|..]
  {
    var run := ReadRun(s);
    if run.1 then StreamError
    else Burst(if |run.0| == 0 then None else Some(run.0), run.2)
  }

  /** The bytes before the first timeout or fault, whether it was a fault,
      and the script after the timeout or fault. */
  function ReadRun(s: seq<Rx>): (r: (seq<byte>, bool, seq<Rx>))
    ensures |r.2| <= |s| && r.2 == s[|s| - |r.2|..]
    decreases |s|
  {
    match Head(s)
    case Byte(b) =>
      var r := ReadRun(s[1..]);
      ([b] + r.0, r.1, r.2)
    case Timeout => ([], false, Tail(s))
    case Fault => ([], true, Tail(s))
  }

  /** A burst of bytes followed by a timeout reads as that burst. */
  lemma {:induction false} ReadRunLine(bs: seq<byte>, s: seq<Rx>)
    ensures ReadRun(Line(bs) + [Timeout] + s) == (bs, false, s)
    decreases |bs|
  {
    var t := Line(bs) + [Timeout] + s;
    if |bs| == 0 {
      assert t == [Timeout] + s;
      assert Tail(t) == s;
    } else {
      assert t[0] == Byte(bs[0]);
      assert t[1..] == Line(bs[1..]) + [Timeout] + s;
      ReadRunLine(bs[1..], s);
      assert [bs[0]] + bs[1..] == bs;
    }
  }
}
