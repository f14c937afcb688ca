/** `parse_str`: a lookup in text of the form `key=value;key=value`. The
    text is split at every ';'; each part is split at its first '='; the first
    part whose key, with surrounding white space trimmed, equals the key
    asked for decides the result, which is its value parsed, untrimmed, by the
    caller's parser. A matching part without '=' makes the source index past
    the end of its split, which panics.

    Text is a sequence of Unicode scalar values, as a Rust `&str` is; the
    parser (`str::parse::<T>`) is a parameter. */
module ToolUtils {
  import opened Bytes

  /** Rust's `char::is_whitespace`: the Unicode White_Space property. */
  predicate WhiteSpace(c: char) {
    var n := c as int;
    || 0x09 <= n <= 0x0D || n == 0x20 || n == 0x85 || n == 0xA0 || n == 0x1680
    || 0x2000 <= n <= 0x200A || n == 0x2028 || n == 0x2029 || n == 0x202F
    || n == 0x205F || n == 0x3000
  }

  // ---------------------------------------------------------------------------
  // Splitting at a separator

  /** `str::split` at a single character: the pieces between separators, in
      order, empty pieces included; text without the separator is one piece. */
  function Split(s: string, sep: char): (parts: seq<string>)
    ensures |parts| >= 1
    ensures forall i :: 0 <= i < |parts| ==> sep !in parts[i]
    decreases |s|
  {
    if |s| == 0 then [""]
    else
      var rest := Split(s[1..], sep);
      if s[0] == sep then [""] + rest
      else [[s[0]] + rest[0]] + rest[1..]
  }

  /** The pieces put back together with the separator between them. */
  function Join(parts: seq<string>, sep: char): string
    requires |parts| >= 1
    decreases |parts|
  {
    if |parts| == 1 then parts[0] else parts[0] + [sep] + Join(parts[1..], sep)
  }

  /** Splitting loses nothing: the pieces join back to the text. */
  lemma {:induction false} JoinSplit(s: string, sep: char)
    ensures Join(Split(s, sep), sep) == s
    decreases |s|
  {
    if |s| > 0 {
      var rest := Split(s[1..], sep);
      JoinSplit(s[1..], sep);
      if s[0] == sep {
        assert ([""] + rest)[1..] == rest;
      } else {
        var parts := [[s[0]] + rest[0]] + rest[1..];
        if |rest| > 1 {
          assert parts[1..] == rest[1..];
          assert Join(rest, sep) == rest[0] + [sep] + Join(rest[1..], sep);
        }
      }
    }
  }

  /** Text without the separator is one piece. */
  lemma {:induction false} SplitPlain(p: string, sep: char)
    requires sep !in p
    ensures Split(p, sep) == [p]
    decreases |p|
  {
    if |p| > 0 {
      SplitPlain(p[1..], sep);
      assert [p[0]] + p[1..] == p;
    }
  }

  /** A piece without the separator, then the separator, starts a split. */
  lemma {:induction false} SplitAfterPiece(p: string, sep: char, t: string)
    requires sep !in p
    ensures Split(p + [sep] + t, sep) == [p] + Split(t, sep)
    decreases |p|
  {
    if |p| == 0 {
      assert p + [sep] + t == [sep] + t;
      assert ([sep] + t)[1..] == t;
    } else {
      var s := p + [sep] + t;
      assert s[0] == p[0];
      assert s[1..] == p[1..] + [sep] + t;
      SplitAfterPiece(p[1..], sep, t);
      assert [p[0]] + p[1..] == p;
    }
  }

  /** Joining loses nothing either: pieces that hold no separator are what
      their join splits into. */
  lemma {:induction false} SplitJoin(parts: seq<string>, sep: char)
    requires |parts| >= 1
    requires forall i :: 0 <= i < |parts| ==> sep !in parts[i]
    ensures Split(Join(parts, sep), sep) == parts
    decreases |parts|
  {
    if |parts| == 1 {
      SplitPlain(parts[0], sep);
    } else {
      SplitJoin(parts[1..], sep);
      SplitAfterPiece(parts[0], sep, Join(parts[1..], sep));
      assert [parts[0]] + parts[1..] == parts;
    }
  }

  /** `splitn(2, "=")`: the text before the first '=' and, when there is one,
      everything after it, later '=' characters included. */
  function SplitOnce(part: string): (kv: (string, Option<string>))
    ensures '=' !in kv.0
    ensures kv.1.None? <==> '=' !in part
    ensures kv.1.None? ==> kv.0 == part
    ensures kv.1.Some? ==> part == kv.0 + "=" + kv.1.value
  {
    var pieces := Split(part, '=');
    JoinSplit(part, '=');
    if |pieces| == 1 then
      (pieces[0], None)
    else
      (pieces[0], Some(Join(pieces[1..], '=')))
  }

  /** The key of a part is the text before its first '=', and the value the
      whole of the text after it. */
  lemma SplitOnceOf(key: string, value: string)
    requires '=' !in key
    ensures SplitOnce(key + "=" + value) == (key, Some(value))
  {
    SplitAfterPiece(key, '=', value);
    assert key + "=" + value == key + ['='] + value;
    JoinSplit(value, '=');
    assert ([key] + Split(value, '='))[1..] == Split(value, '=');
  }

  // ---------------------------------------------------------------------------
  // Trimming

  /** The first index at or after `i` that does not hold white space. */
  function SkipWhiteSpace(s: string, i: nat): (a: nat)
    requires i <= |s|
    ensures i <= a <= |s|
    ensures forall k :: i <= k < a ==> WhiteSpace(s[k])
    ensures a < |s| ==> !WhiteSpace(s[a])
    decreases |s| - i
  {
    if i == |s| || !WhiteSpace(s[i]) then i else SkipWhiteSpace(s, i + 1)
  }

  /** The end of `s[a..j]` once its trailing white space is dropped. */
  function DropTrailing(s: string, a: nat, j: nat): (b: nat)
    requires a <= j <= |s|
    ensures a <= b <= j
    ensures forall k :: b <= k < j ==> WhiteSpace(s[k])
    ensures b > a ==> !WhiteSpace(s[b - 1])
    decreases j
  {
    if j == a || !WhiteSpace(s[j - 1]) then j else DropTrailing(s, a, j - 1)
  }

  /** `str::trim`: `s` without its leading and trailing white space. */
  function Trim(s: string): (r: string)
    ensures |r| <= |s|
    ensures |r| > 0 ==> !WhiteSpace(r[0]) && !WhiteSpace(r[|r| - 1])
    ensures r == [] <==> forall k :: 0 <= k < |s| ==> WhiteSpace(s[k])
  {
    var a := SkipWhiteSpace(s, 0);
    var b := DropTrailing(s, a, |s|);
    s[a..b]
  }

  /** Trimming takes off exactly the white space around the text: text that
      neither starts nor ends with white space, padded with white space on
      both sides, trims back to itself. */
  lemma TrimPadded(before: string, core: string, after: string)
    requires forall k :: 0 <= k < |before| ==> WhiteSpace(before[k])
    requires forall k :: 0 <= k < |after| ==> WhiteSpace(after[k])
    requires |core| > 0 ==> !WhiteSpace(core[0]) && !WhiteSpace(core[|core| - 1])
    ensures Trim(before + core + after) == core
  {
    var s := before + core + after;
    var a := SkipWhiteSpace(s, 0);
    if |core| > 0 {
      assert s[|before|] == core[0];
      assert a == |before|;
      var b := DropTrailing(s, a, |s|);
      assert s[|before| + |core| - 1] == core[|core| - 1];
      assert b == |before| + |core|;
      assert s[a..b] == core;
    } else {
      assert forall k :: 0 <= k < |s| ==> WhiteSpace(s[k]) by {
        forall k | 0 <= k < |s| ensures WhiteSpace(s[k]) {
          if k < |before| { assert s[k] == before[k]; } else { assert s[k] == after[k - |before|]; }
        }
      }
    }
  }

  // ---------------------------------------------------------------------------
  // The lookup

  /** What `parse_str` does: return (the parsed value, or nothing), or panic. */
  datatype ParseOutcome<T> = Returned(value: Option<T>) | Panicked

  /** A part is about `key` when its text before the first '=', trimmed, is
      `key`. */
  predicate Matches(part: string, key: string) {
    Trim(SplitOnce(part).0) == key
  }

  /** What the matching part makes of the lookup: its value parsed, or a
      panic when it has no value at all. */
  function Answer<T>(part: string, parse: string -> Option<T>): ParseOutcome<T> {
    match SplitOnce(part).1
    case None => Panicked
    case Some(value) => Returned(parse(value))
  }

  /** The loop over the parts: the first part that matches decides, and the
      lookup finds nothing when none does. */
  function Lookup<T>(parts: seq<string>, key: string, parse: string -> Option<T>): (r: ParseOutcome<T>)
    ensures (forall i :: 0 <= i < |parts| ==> !Matches(parts[i], key)) ==> r == Returned(None)
    ensures forall i :: (0 <= i < |parts| && Matches(parts[i], key) &&
                         (forall j :: 0 <= j < i ==> !Matches(parts[j], key))) ==> r == Answer(parts[i], parse)
    decreases |parts|
  {
    if |parts| == 0 then Returned(None)
    else
      var kv := SplitOnce(parts[0]);
      if Trim(kv.0) == key then
        (if kv.1.None? then Panicked else Returned(parse(kv.1.value)))
      else
        var r := Lookup(parts[1..], key, parse);
        assert forall i :: 1 <= i < |parts| ==> parts[i] == parts[1..][i - 1];
        r
  }

  /** `parse_str(target, key)`. */
  function ParseStr<T>(target: string, key: string, parse: string -> Option<T>): (r: ParseOutcome<T>)
    ensures r.Panicked? ==> (exists i :: 0 <= i < |Split(target, ';')| && Matches(Split(target, ';')[i], key))
  {
    Lookup(Split(target, ';'), key, parse)
  }

  /** The lookup over text assembled from parts: no part matching gives
      nothing, and otherwise the first matching part decides. */
  lemma ParseStrFirstMatch<T>(parts: seq<string>, key: string, parse: string -> Option<T>, i: nat)
    requires |parts| >= 1 && forall j :: 0 <= j < |parts| ==> ';' !in parts[j]
    requires i < |parts| && Matches(parts[i], key)
    requires forall j :: 0 <= j < i ==> !Matches(parts[j], key)
    ensures ParseStr(Join(parts, ';'), key, parse) == Answer(parts[i], parse)
  {
    SplitJoin(parts, ';');
  }

  /** A key that no part carries is not found. */
  lemma ParseStrMissing<T>(parts: seq<string>, key: string, parse: string -> Option<T>)
    requires |parts| >= 1 && forall j :: 0 <= j < |parts| ==> ';' !in parts[j]
    requires forall j :: 0 <= j < |parts| ==> !Matches(parts[j], key)
    ensures ParseStr(Join(parts, ';'), key, parse) == Returned(None)
  {
    SplitJoin(parts, ';');
  }

  /** " mode = 1" is about "mode", and its value is " 1". */
  lemma ModePart<T>(parse: string -> Option<T>)
    ensures Matches(" mode = 1", "mode") && Answer(" mode = 1", parse) == Returned(parse(" 1"))
  {
    SplitOnceOf(" mode ", " 1");
    assert " mode = 1" == " mode " + "=" + " 1";
    TrimPadded(" ", "mode", " ");
    assert " mode " == " " + "mode" + " ";
  }

  /** The key is trimmed but the value is not, and the first match wins even
      when its value does not parse: in " mode = 1;mode=2" the value of
      "mode" is " 1", whatever the parser makes of it. */
  lemma FirstValueUntrimmed<T>(parse: string -> Option<T>)
    ensures ParseStr(" mode = 1;mode=2", "mode", parse) == Returned(parse(" 1"))
  {
    var parts := [" mode = 1", "mode=2"];
    assert Join(parts, ';') == parts[0] + [';'] + parts[1];
    assert parts[0] + [';'] + parts[1] == " mode = 1;mode=2";
    assert ';' !in parts[0] && ';' !in parts[1];
    ModePart(parse);
    ParseStrFirstMatch(parts, "mode", parse, 0);
  }

  /** A matching part without '=' panics, even when a later part would have
      answered. */
  lemma MatchWithoutValuePanics<T>(parse: string -> Option<T>)
    ensures ParseStr("mode;mode=2", "mode", parse) == Panicked
  {
    var parts := ["mode", "mode=2"];
    assert Join(parts, ';') == "mode;mode=2";
    assert '=' !in "mode";
    TrimPadded("", "mode", "");
    assert "mode" == "" + "mode" + "";
    ParseStrFirstMatch(parts, "mode", parse, 0);
  }
}
