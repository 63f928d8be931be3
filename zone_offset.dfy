/**
 * java.time.ZoneOffset as the transform uses it: a fixed offset from UTC of
 * whole seconds, at most 18 hours either way, with its canonical id.
 */
module ZoneOffsets {
  import opened Wrappers

  const MAX_SECONDS: int := 18 * 3600

  type OffsetSeconds = s: int | -MAX_SECONDS <= s <= MAX_SECONDS

  /** Two offsets are equal exactly when their total seconds are. */
  datatype ZoneOffset = ZoneOffset(totalSeconds: OffsetSeconds)

  const UTC: ZoneOffset := ZoneOffset(0)

  /** Two decimal digits of `n`, with a leading zero below ten. */
  function TwoDigits(n: int): (r: string)
    requires 0 <= n < 100
    ensures |r| == 2 && IsDigit(r[0]) && IsDigit(r[1])
    ensures DigitValue(r[0]) * 10 + DigitValue(r[1]) == n
  {
    [(48 + n / 10) as char, (48 + n % 10) as char]
  }

  predicate IsDigit(c: char) {
    '0' <= c <= '9'
  }

  function DigitValue(c: char): int {
    c as int - 48
  }

  /**
   * The canonical id: "Z" for UTC, otherwise the sign, two-digit hours, ":"
   * and two-digit minutes, then ":" and two-digit seconds when those are not zero.
   */
  function Id(o: ZoneOffset): (r: string)
    ensures o.totalSeconds == 0 <==> r == "Z"
    ensures o.totalSeconds != 0 ==> (|r| == 6 <==> o.totalSeconds % 60 == 0) && (|r| == 9 <==> o.totalSeconds % 60 != 0)
    ensures o.totalSeconds != 0 ==> (r[0] == '-' <==> o.totalSeconds < 0) && (r[0] == '+' <==> o.totalSeconds > 0)
  {
    if o.totalSeconds == 0 then "Z"
    else
      var abs := if o.totalSeconds < 0 then -o.totalSeconds else o.totalSeconds;
      NegatedWholeMinutes(o.totalSeconds);
      var sign := if o.totalSeconds < 0 then "-" else "+";
      var hm := sign + TwoDigits(abs / 3600) + ":" + TwoDigits(abs / 60 % 60);
      assert |hm| == 6 && hm[0] == sign[0];
      if abs % 60 == 0 then hm else hm + ":" + TwoDigits(abs % 60)
  }

  /** A count of seconds and its negation are whole minutes together. */
  lemma NegatedWholeMinutes(x: int)
    ensures (-x) % 60 == 0 <==> x % 60 == 0
  {
    NegatedMinutes(x);
    NegatedMinutes(-x);
  }

  lemma NegatedMinutes(x: int)
    ensures x % 60 == 0 ==> (-x) % 60 == 0
  {
    if x % 60 == 0 {
      var q := x / 60;
      assert -x == 60 * (-q);
    }
  }

  /** Reads back a canonical id: the partner of Id, used to show that an id names one offset. */
  function ParseId(s: string): (r: Option<int>)
    ensures r.Some? && r.value != 0 ==> |s| == 6 || |s| == 9
  {
    if s == "Z" then Some(0)
    else if (|s| == 6 || |s| == 9) && (s[0] == '+' || s[0] == '-')
      && IsDigit(s[1]) && IsDigit(s[2]) && s[3] == ':' && IsDigit(s[4]) && IsDigit(s[5])
      && (|s| == 9 ==> s[6] == ':' && IsDigit(s[7]) && IsDigit(s[8]))
    then
      var hours := DigitValue(s[1]) * 10 + DigitValue(s[2]);
      var minutes := DigitValue(s[4]) * 10 + DigitValue(s[5]);
      var seconds := if |s| == 9 then DigitValue(s[7]) * 10 + DigitValue(s[8]) else 0;
      var abs := hours * 3600 + minutes * 60 + seconds;
      Some(if s[0] == '-' then -abs else abs)
    else None
  }

  /** The id of a positive offset of `abs` seconds splits into hours, minutes and seconds. */
  lemma SplitSeconds(abs: int)
    requires 0 <= abs
    ensures (abs / 3600) * 3600 + (abs / 60 % 60) * 60 + abs % 60 == abs
  {
    var minutes := abs / 60;
    assert abs == 60 * minutes + abs % 60;
    assert minutes == 60 * (minutes / 60) + minutes % 60;
    assert minutes / 60 == abs / 3600;
  }

  /** An id of hours and minutes reads back as their seconds, signed. */
  lemma ParseHoursMinutes(sign: string, h: int, m: int)
    requires sign == "+" || sign == "-"
    requires 0 <= h < 100 && 0 <= m < 100
    ensures var abs := h * 3600 + m * 60;
      ParseId(sign + TwoDigits(h) + ":" + TwoDigits(m)) == Some(if sign == "-" then -abs else abs)
  {
    var id := sign + TwoDigits(h) + ":" + TwoDigits(m);
    assert id[1..3] == TwoDigits(h) && id[4..6] == TwoDigits(m);
  }

  /** An id of hours, minutes and seconds reads back as their seconds, signed. */
  lemma ParseHoursMinutesSeconds(sign: string, h: int, m: int, sec: int)
    requires sign == "+" || sign == "-"
    requires 0 <= h < 100 && 0 <= m < 100 && 0 <= sec < 100
    ensures var abs := h * 3600 + m * 60 + sec;
      ParseId(sign + TwoDigits(h) + ":" + TwoDigits(m) + ":" + TwoDigits(sec)) == Some(if sign == "-" then -abs else abs)
  {
    var id := sign + TwoDigits(h) + ":" + TwoDigits(m) + ":" + TwoDigits(sec);
    assert id[1..3] == TwoDigits(h) && id[4..6] == TwoDigits(m) && id[7..9] == TwoDigits(sec);
  }

  /** The id of a non-UTC offset, spelled out from the pieces of its magnitude `abs`. */
  lemma IdPieces(o: ZoneOffset, abs: int, h: int, m: int, sec: int)
    requires o.totalSeconds != 0
    requires abs == (if o.totalSeconds < 0 then -o.totalSeconds else o.totalSeconds)
    requires h == abs / 3600 && m == abs / 60 % 60 && sec == abs % 60
    ensures var sign := if o.totalSeconds < 0 then "-" else "+";
      Id(o) == if sec == 0 then sign + TwoDigits(h) + ":" + TwoDigits(m)
               else sign + TwoDigits(h) + ":" + TwoDigits(m) + ":" + TwoDigits(sec)
  {
  }

  /** Parsing an offset's id gives back its total seconds. */
  lemma ParseIdRoundTrip(o: ZoneOffset)
    ensures ParseId(Id(o)) == Some(o.totalSeconds)
  {
    if o.totalSeconds != 0 {
      var abs := if o.totalSeconds < 0 then -o.totalSeconds else o.totalSeconds;
      var sign := if o.totalSeconds < 0 then "-" else "+";
      var h, m, sec := abs / 3600, abs / 60 % 60, abs % 60;
      SplitSeconds(abs);
      assert h * 3600 + m * 60 + sec == abs;
      IdPieces(o, abs, h, m, sec);
      if sec == 0 {
        ParseHoursMinutes(sign, h, m);
      } else {
        ParseHoursMinutesSeconds(sign, h, m, sec);
      }
    }
  }

  /** Different offsets have different ids. */
  lemma IdInjective(a: ZoneOffset, b: ZoneOffset)
    requires Id(a) == Id(b)
    ensures a == b
  {
    ParseIdRoundTrip(a);
    ParseIdRoundTrip(b);
  }

  /** The id is "Z" exactly for UTC, and never contains a bracket. */
  lemma IdShape(o: ZoneOffset)
    ensures Id(o) == "Z" <==> o.totalSeconds == 0
    ensures '[' !in Id(o) && ']' !in Id(o)
  {
    if o.totalSeconds != 0 {
      ParseIdRoundTrip(o);
    }
  }
}
