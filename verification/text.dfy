/** Byte strings read as text: well-formed UTF-8 (what Rust's `str::from_utf8`
    accepts, section 4 of RFC 3629), and the two ways the YMODEM receiver
    trims the size field of the header block. */
module Text {
  import opened Bytes

  const SPACE: byte := 0x20

  /** A continuation byte, `10xxxxxx`. */
  predicate Continuation(b: byte) {
    0x80 <= b < 0xC0
  }

  /** The length of the well-formed UTF-8 sequence that starts `s`, or 0 when
      `s` does not start with one. Overlong forms, surrogates and code points
      beyond U+10FFFF are ill-formed. */
  function CharWidth(s: seq<byte>): (w: nat)
    requires |s| > 0
    ensures w <= 4 && w <= |s|
    ensures s[0] < 0x80 <==> w == 1
  {
    var b := s[0];
    if b < 0x80 then 1
    else if 0xC2 <= b <= 0xDF then
      if |s| >= 2 && Continuation(s[1]) then 2 else 0
    else if 0xE0 <= b <= 0xEF then
      var lo := if b == 0xE0 then 0xA0 else 0x80;
      var hi := if b == 0xED then 0x9F else 0xBF;
      if |s| >= 3 && lo <= s[1] <= hi && Continuation(s[2]) then 3 else 0
    else if 0xF0 <= b <= 0xF4 then
      var lo := if b == 0xF0 then 0x90 else 0x80;
      var hi := if b == 0xF4 then 0x8F else 0xBF;
      if |s| >= 4 && lo <= s[1] <= hi && Continuation(s[2]) && Continuation(s[3]) then 4 else 0
    else 0
  }

  predicate ValidUtf8(s: seq<byte>)
    decreases |s|
  {
    |s| == 0 || (CharWidth(s) > 0 && ValidUtf8(s[CharWidth(s)..]))
  }

  predicate Ascii(s: seq<byte>) {
    forall i :: 0 <= i < |s| ==> s[i] < 0x80
  }

  /** ASCII text is UTF-8. */
  lemma {:induction false} AsciiIsUtf8(s: seq<byte>)
    requires Ascii(s)
    ensures ValidUtf8(s)
    decreases |s|
  {
    if |s| > 0 {
      assert Ascii(s[1..]);
      AsciiIsUtf8(s[1..]);
    }
  }

  /** The decimal digits of `s`, in order: what is left after dropping every
      character that is not a decimal digit. In UTF-8 text no byte of a
      multi-byte character is an ASCII digit, so filtering bytes and
      filtering characters agree. */
  function KeepDigits(s: seq<byte>): (r: seq<byte>)
    ensures AllDigits(r) && |r| <= |s|
    ensures AllDigits(s) ==> r == s
    decreases |s|
  {
    if |s| == 0 then []
    else (if IsDigit(s[0]) then [s[0]] else []) + KeepDigits(s[1..])
  }

  /** The first piece of `s` split at spaces: everything before the first
      space, or all of `s` when it holds none. */
  function BeforeSpace(s: seq<byte>): (r: seq<byte>)
    ensures |r| <= |s| && r == s[..|r|]
    ensures forall i :: 0 <= i < |r| ==> r[i] != SPACE
    ensures |r| < |s| ==> s[|r|] == SPACE
    decreases |s|
  {
    if |s| == 0 || s[0] == SPACE then [] else [s[0]] + BeforeSpace(s[1..])
  }
}
