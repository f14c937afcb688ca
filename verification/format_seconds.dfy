/** `formatSeconds`: a count of seconds shown as the time of day it falls
    on, `HH:MM:SS`, read through a JavaScript `Date` at `sec * 1000`
    milliseconds in UTC. Hours wrap after a day and negative counts count
    back from midnight; a count beyond the range of a `Date` (8.64e15
    milliseconds either side of the epoch, section 21.4.1.31 of ECMA-262,
    TimeClip) gives an invalid date, whose fields all print as "NaN".

    Counts are whole seconds. */
module FormatSeconds {
  import opened Bytes

  /** The largest count, either side of zero, a `Date` can hold. */
  const MAX_SECONDS: int := 8_640_000_000_000

  const SECONDS_PER_DAY: nat := 86400

  /** The three fields of a time of day. */
  datatype Clock = Clock(hours: nat, minutes: nat, seconds: nat)

  predicate ValidClock(c: Clock) {
    c.hours < 24 && c.minutes < 60 && c.seconds < 60
  }

  /** The UTC fields of the date `sec` seconds after the epoch: whole hours,
      minutes and seconds counted with floor division, each taken modulo
      its range. */
  function ClockOf(sec: int): (c: Clock)
    ensures ValidClock(c)
    ensures c.hours * 3600 + c.minutes * 60 + c.seconds == sec % SECONDS_PER_DAY
  {
    var c := Clock((sec / 3600) % 24, (sec / 60) % 60, sec % 60);
    TimeOfDay(sec);
    c
  }

  /** The three fields put back together give the time of day. */
  lemma TimeOfDay(sec: int)
    ensures ((sec / 3600) % 24) * 3600 + ((sec / 60) % 60) * 60 + sec % 60 == sec % SECONDS_PER_DAY
  {
    var days := sec / 86400;
    var d := sec % 86400;
    var h := d / 3600;
    var r := d % 3600;
    var m := r / 60;
    var s := r % 60;
    assert h < 24;
    DivBy3600(sec, 24 * days + h, r);
    DivBy24(24 * days + h, days, h);
    DivBy60(sec, 1440 * days + 60 * h + m, s);
    DivBy60(1440 * days + 60 * h + m, 24 * days + h, m);
  }

  /** Division by 24 of a number given as a quotient and a remainder. */
  lemma DivBy24(a: int, q: int, r: int)
    requires a == 24 * q + r && 0 <= r < 24
    ensures a / 24 == q && a % 24 == r
  {
  }

  /** Division by 60 of a number given as a quotient and a remainder. */
  lemma DivBy60(a: int, q: int, r: int)
    requires a == 60 * q + r && 0 <= r < 60
    ensures a / 60 == q && a % 60 == r
  {
  }

  /** Division by 3600 of a number given as a quotient and a remainder. */
  lemma DivBy3600(a: int, q: int, r: int)
    requires a == 3600 * q + r && 0 <= r < 3600
    ensures a / 3600 == q && a % 3600 == r
  {
  }

  /** A digit character. */
  function Digit(d: nat): (c: char)
    requires d < 10
    ensures '0' <= c <= '9'
  {
    (48 + d) as char
  }

  /** `n.toString().padStart(2, '0')` for a field below 100. */
  function Pad2(n: nat): (s: string)
    requires n < 100
    ensures |s| == 2
  {
    [Digit(n / 10), Digit(n % 10)]
  }

  /** What an invalid date prints. */
  const INVALID: string := "NaN:NaN:NaN"

  /** `formatSeconds(sec)`. */
  function Format(sec: int): (r: string)
    ensures -MAX_SECONDS <= sec <= MAX_SECONDS ==> |r| == 8 && r[2] == ':' && r[5] == ':'
    ensures -MAX_SECONDS <= sec <= MAX_SECONDS ==>
      forall i :: 0 <= i < 8 && i != 2 && i != 5 ==> '0' <= r[i] <= '9'
    ensures sec < -MAX_SECONDS || MAX_SECONDS < sec ==> r == INVALID
  {
    if sec < -MAX_SECONDS || MAX_SECONDS < sec then INVALID
    else
      var c := ClockOf(sec);
      Pad2(c.hours) + ":" + Pad2(c.minutes) + ":" + Pad2(c.seconds)
  }

  /** The value of a digit character. */
  function DigitValue(c: char): (d: nat)
    requires '0' <= c <= '9'
    ensures d < 10
  {
    c as nat - 48
  }

  /** Reads `HH:MM:SS` back, or nothing when the text is not of that form. */
  function ParseClock(s: string): (c: Option<Clock>)
    ensures c.Some? ==> c.value.hours < 100 && c.value.minutes < 100 && c.value.seconds < 100
  {
    if |s| == 8 && s[2] == ':' && s[5] == ':'
       && (forall i :: 0 <= i < 8 && i != 2 && i != 5 ==> '0' <= s[i] <= '9')
    then Some(Clock(DigitValue(s[0]) * 10 + DigitValue(s[1]),
                    DigitValue(s[3]) * 10 + DigitValue(s[4]),
                    DigitValue(s[6]) * 10 + DigitValue(s[7])))
    else None
  }

  /** A padded field reads back as itself. */
  lemma Pad2Value(n: nat)
    requires n < 100
    ensures DigitValue(Pad2(n)[0]) * 10 + DigitValue(Pad2(n)[1]) == n
  {
  }

  /** The text shows the hours, minutes and seconds of the time of day: it
      reads back as `ClockOf(sec)`. */
  lemma ParseFormat(sec: int)
    requires -MAX_SECONDS <= sec <= MAX_SECONDS
    ensures ParseClock(Format(sec)) == Some(ClockOf(sec))
  {
    var c := ClockOf(sec);
    Pad2Value(c.hours);
    Pad2Value(c.minutes);
    Pad2Value(c.seconds);
  }

  /** The clock wraps after a day: a count a whole day later shows the same
      text. */
  lemma FormatWrapsDaily(sec: int)
    requires -MAX_SECONDS <= sec && sec + SECONDS_PER_DAY <= MAX_SECONDS
    ensures Format(sec + SECONDS_PER_DAY) == Format(sec)
  {
    ClockWrapsDaily(sec);
  }

  /** A day later the clock fields are the same. */
  lemma ClockWrapsDaily(sec: int)
    ensures ClockOf(sec + SECONDS_PER_DAY) == ClockOf(sec)
  {
    var h := sec / 3600;
    var m := sec / 60;
    DivBy3600(sec + 86400, h + 24, sec % 3600);
    DivBy60(sec + 86400, m + 1440, sec % 60);
    DivBy24(h + 24, h / 24 + 1, h % 24);
    DivBy60(m + 1440, m / 60 + 24, m % 60);
  }

  /** Within one day no two counts share a text. */
  lemma FormatInjectiveWithinDay(a: int, b: int)
    requires 0 <= a < SECONDS_PER_DAY && 0 <= b < SECONDS_PER_DAY
    requires Format(a) == Format(b)
    ensures a == b
  {
    ParseFormat(a);
    ParseFormat(b);
    ClockOfInjective(a, b);
  }

  /** Within one day the clock fields determine the count. */
  lemma ClockOfInjective(a: int, b: int)
    requires 0 <= a < SECONDS_PER_DAY && 0 <= b < SECONDS_PER_DAY
    requires ClockOf(a) == ClockOf(b)
    ensures a == b
  {
    DivBy86400(a);
    DivBy86400(b);
  }

  /** A count within the first day is its own time of day. */
  lemma DivBy86400(a: int)
    requires 0 <= a < 86400
    ensures a % SECONDS_PER_DAY == a
  {
  }

  /** One second before the epoch is the last second of the day before. */
  lemma OneSecondBeforeEpoch()
    ensures Format(-1) == "23:59:59"
  {
  }
}
