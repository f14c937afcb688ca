/** Bytes, fixed-width integers and the two textual number formats the core
    uses: four-byte big-endian words on the motor link, and decimal digits in
    the YMODEM header block. */
module Bytes {

  type byte = x: int | 0 <= x < 0x100
  type u16 = x: int | 0 <= x < 0x1_0000
  type u32 = x: int | 0 <= x < 0x1_0000_0000
  type u64 = x: int | 0 <= x < 0x1_0000_0000_0000_0000

  datatype Option<+T> = None | Some(value: T)

  /** 2 to the power `k`. */
  function Pow2(k: nat): (p: nat)
    ensures p >= 1
  {
    if k == 0 then 1 else 2 * Pow2(k - 1)
  }

  const ZERO_DIGIT: byte := 0x30
  const PLUS_SIGN: byte := 0x2B

  // ---------------------------------------------------------------------------
  // Big-endian words

  /** The four bytes of `v`, most significant first. */
  function BigEndian32(v: u32): (r: seq<byte>)
    ensures |r| == 4
    ensures (r[0] as int) * 0x100_0000 + (r[1] as int) * 0x1_0000 + (r[2] as int) * 0x100 + r[3] == v
  {
    var b0 := v / 0x100_0000;
    var b1 := (v / 0x1_0000) % 0x100;
    var b2 := (v / 0x100) % 0x100;
    var b3 := v % 0x100;
    assert v / 0x1_0000 == b0 * 0x100 + b1;
    assert v / 0x100 == (v / 0x1_0000) * 0x100 + b2;
    [b0, b1, b2, b3]
  }

  /** Four bytes read most significant first; only the first four are looked at. */
  function FromBigEndian32(b: seq<byte>): (r: u32)
    requires |b| >= 4
  {
    (b[0] as int) * 0x100_0000 + (b[1] as int) * 0x1_0000 + (b[2] as int) * 0x100 + b[3]
  }

  /** Decoding a word recovers the value that was encoded. */
  lemma DecodeEncode32(v: u32)
    ensures FromBigEndian32(BigEndian32(v)) == v
  {
  }

  /** Encoding a decoded word gives back the four bytes it was read from. */
  lemma EncodeDecode32(b: seq<byte>)
    requires |b| >= 4
    ensures BigEndian32(FromBigEndian32(b)) == b[..4]
  {
    var v := FromBigEndian32(b);
    var r := BigEndian32(v);
    DigitsUnique(r[0], r[1], r[2], r[3], b[0], b[1], b[2], b[3]);
  }

  /** Two base-256 numerals of four digits with the same value have the same digits. */
  lemma DigitsUnique(a0: byte, a1: byte, a2: byte, a3: byte, c0: byte, c1: byte, c2: byte, c3: byte)
    requires (a0 as int) * 0x100_0000 + (a1 as int) * 0x1_0000 + (a2 as int) * 0x100 + a3
          == (c0 as int) * 0x100_0000 + (c1 as int) * 0x1_0000 + (c2 as int) * 0x100 + c3
    ensures a0 == c0 && a1 == c1 && a2 == c2 && a3 == c3
  {
    var low := (a1 as int) * 0x1_0000 + (a2 as int) * 0x100 + a3;
    var low' := (c1 as int) * 0x1_0000 + (c2 as int) * 0x100 + c3;
    assert 0 <= low < 0x100_0000 && 0 <= low' < 0x100_0000;
    assert a0 == c0;
    assert a1 == c1;
    assert a2 == c2;
  }

  // ---------------------------------------------------------------------------
  // Decimal text, as ASCII bytes

  predicate IsDigit(c: byte) {
    ZERO_DIGIT <= c < ZERO_DIGIT + 10
  }

  predicate AllDigits(s: seq<byte>) {
    forall i :: 0 <= i < |s| ==> IsDigit(s[i])
  }

  /** The shortest decimal numeral of `n` (Rust's `to_string` on an unsigned integer). */
  function Decimal(n: nat): (r: seq<byte>)
    ensures 1 <= |r|
    ensures AllDigits(r)
    ensures n < 10 <==> |r| == 1
    decreases n
  {
    if n < 10 then [ZERO_DIGIT + n] else Decimal(n / 10) + [ZERO_DIGIT + n % 10]
  }

  /** The value of a string of decimal digits, most significant first. */
  function DigitsValue(s: seq<byte>): nat
    requires AllDigits(s)
  {
    if |s| == 0 then 0 else DigitsValue(s[..|s| - 1]) * 10 + (s[|s| - 1] - ZERO_DIGIT)
  }

  lemma {:induction false} DigitsValueOfDecimal(n: nat)
    ensures DigitsValue(Decimal(n)) == n
    decreases n
  {
    if n >= 10 {
      var d := Decimal(n);
      assert d[..|d| - 1] == Decimal(n / 10);
      DigitsValueOfDecimal(n / 10);
    }
  }

  /** The leading digit of a numeral of more than one digit is not zero. */
  lemma {:induction false} DecimalLeadingDigit(n: nat)
    ensures n > 0 ==> Decimal(n)[0] != ZERO_DIGIT
    decreases n
  {
    if n >= 10 {
      DecimalLeadingDigit(n / 10);
    }
  }

  /** Rust's `str::parse::<u32>`: an optional leading '+', then one or more
      decimal digits whose value fits in 32 bits. */
  function ParseU32(s: seq<byte>): (r: Option<u32>)
    ensures r.Some? ==> 1 <= |s|
  {
    var digits := if |s| > 1 && s[0] == PLUS_SIGN then s[1..] else s;
    if |digits| > 0 && AllDigits(digits) && DigitsValue(digits) < 0x1_0000_0000
    then Some(DigitsValue(digits))
    else None
  }

  /** Parsing the numeral of a 32-bit value gives the value back. */
  lemma ParseDecimal(n: u32)
    ensures ParseU32(Decimal(n)) == Some(n)
  {
    DigitsValueOfDecimal(n);
  }

}
