/** The arithmetic of `DatabaseHandler` (SQLite/Lib/src/sourse.cpp): summing
    the durations of a user's sessions, normalising the sum into hours,
    minutes and seconds, and formatting it as `HH:MM:SS`.

    The database query is not modelled: its rows arrive as the (h, m, s)
    triples `sscanf` has already parsed from each `duration` column. */
module DatabaseLib {
  import opened Decimal

  /** One parsed duration, or a running total. Fields may be negative. */
  datatype Duration = Duration(hours: int, minutes: int, seconds: int)

  /** The length of a duration in seconds. */
  function TotalSeconds(d: Duration): int {
    d.hours * 3600 + d.minutes * 60 + d.seconds
  }

  /** The component-wise sum of the rows, in row order. */
  function SumRows(rows: seq<Duration>): Duration {
    if rows == [] then Duration(0, 0, 0)
    else
      var t := SumRows(rows[..|rows| - 1]);
      var d := rows[|rows| - 1];
      Duration(t.hours + d.hours, t.minutes + d.minutes, t.seconds + d.seconds)
  }

  /** The lengths of the rows added up, in seconds. */
  function SumSeconds(rows: seq<Duration>): int {
    if rows == [] then 0 else SumSeconds(rows[..|rows| - 1]) + TotalSeconds(rows[|rows| - 1])
  }

  /** The sum of the rows lasts as long as all the rows together. */
  lemma {:induction false} SumRowsTotal(rows: seq<Duration>)
    ensures TotalSeconds(SumRows(rows)) == SumSeconds(rows)
  {
    if rows != [] {
      SumRowsTotal(rows[..|rows| - 1]);
    }
  }

  /** C's `/` on `int`: truncates toward zero. */
  function CDiv(a: int, b: int): (q: int)
    requires b > 0
    ensures a >= 0 ==> q == a / b
  {
    if a >= 0 then a / b else -((-a) / b)
  }

  /** C's `%` on `int`: the remainder takes the sign of the dividend. */
  function CMod(a: int, b: int): (r: int)
    requires b > 0
    ensures a == b * CDiv(a, b) + r
    ensures -b < r < b
    ensures a >= 0 ==> 0 <= r
    ensures a <= 0 ==> r <= 0
  {
    if a >= 0 then a % b else -((-a) % b)
  }

  /** The carries: seconds into minutes first, then minutes into hours. The
      result lasts exactly as long as the input. */
  function Normalize(d: Duration): (r: Duration)
    ensures TotalSeconds(r) == TotalSeconds(d)
  {
    var minutes := d.minutes + CDiv(d.seconds, 60);
    var seconds := CMod(d.seconds, 60);
    var hours := d.hours + CDiv(minutes, 60);
    Duration(hours, CMod(minutes, 60), seconds)
  }

  /** For a non-negative input both minutes and seconds end in 0..59 and
      the hours do not decrease. */
  lemma NormalizeRanges(d: Duration)
    requires d.minutes >= 0 && d.seconds >= 0
    ensures 0 <= Normalize(d).minutes < 60 && 0 <= Normalize(d).seconds < 60
    ensures d.hours >= 0 ==> Normalize(d).hours >= d.hours
  {
  }

  /** A non-negative duration has one normal form: equal lengths normalise alike. */
  lemma NormalizeCanonical(a: Duration, b: Duration)
    requires a.hours >= 0 && a.minutes >= 0 && a.seconds >= 0
    requires b.hours >= 0 && b.minutes >= 0 && b.seconds >= 0
    requires TotalSeconds(a) == TotalSeconds(b)
    ensures Normalize(a) == Normalize(b)
  {
    NormalizeRanges(a);
    NormalizeRanges(b);
    var ra, rb := Normalize(a), Normalize(b);
    assert ra.hours * 3600 + (ra.minutes * 60 + ra.seconds) == rb.hours * 3600 + (rb.minutes * 60 + rb.seconds);
    assert 0 <= ra.minutes * 60 + ra.seconds < 3600;
    assert 0 <= rb.minutes * 60 + rb.seconds < 3600;
    assert ra.hours == rb.hours;
  }

  /** A seconds overflow carries through the minutes into the hours. */
  lemma SecondsCarryReachHours()
    ensures Normalize(Duration(0, 59, 60)) == Duration(1, 0, 0)
  {
  }

  /** Negative fields normalise with C's truncation: the carry and the
      remainder both stay negative. */
  lemma NegativeSecondsStayNegative()
    ensures Normalize(Duration(0, 0, -61)) == Duration(0, -1, -1)
  {
  }

  /** The loop of `calculateConnectionTimeForUser`: the running sums over the
      rows, then the carries. */
  method CalculateTotal(rows: seq<Duration>) returns (total: Duration)
    ensures total == Normalize(SumRows(rows))
    ensures TotalSeconds(total) == TotalSeconds(SumRows(rows))
  {
    var totalHours, totalMinutes, totalSeconds := 0, 0, 0;
    var i := 0;
    while i < |rows|
      invariant 0 <= i <= |rows|
      invariant Duration(totalHours, totalMinutes, totalSeconds) == SumRows(rows[..i])
    {
      assert rows[..i + 1][..i] == rows[..i];
      totalHours := totalHours + rows[i].hours;
      totalMinutes := totalMinutes + rows[i].minutes;
      totalSeconds := totalSeconds + rows[i].seconds;
      i := i + 1;
    }
    assert rows[..i] == rows;
    totalMinutes := totalMinutes + CDiv(totalSeconds, 60);
    totalSeconds := CMod(totalSeconds, 60);
    totalHours := totalHours + CDiv(totalMinutes, 60);
    totalMinutes := CMod(totalMinutes, 60);
    total := Duration(totalHours, totalMinutes, totalSeconds);
  }

  /** The first n characters of s, or all of them when s is shorter. */
  function Truncate(s: string, n: nat): (r: string)
    ensures |r| <= n && |r| <= |s| && r == s[..|r|]
    ensures |s| <= n ==> r == s
    ensures |s| > n ==> |r| == n
  {
    if |s| <= n then s else s[..n]
  }

  /** `formatTime`: `%02d:%02d:%02d` written into a 9-byte buffer, so at
      most 8 characters survive before the terminator. */
  function FormatTime(hours: int, minutes: int, seconds: int): (r: string)
    ensures |r| == 8
    ensures r == (Pad2(hours) + ":" + Pad2(minutes) + ":" + Pad2(seconds))[..|r|]
  {
    Truncate(Pad2(hours) + ":" + Pad2(minutes) + ":" + Pad2(seconds), 8)
  }

  /** Fields in 0..99 give exactly `HH:MM:SS`, whose digit pairs read back
      as the fields. */
  lemma FormatTimeFields(hours: int, minutes: int, seconds: int)
    requires 0 <= hours < 100 && 0 <= minutes < 100 && 0 <= seconds < 100
    ensures var r := FormatTime(hours, minutes, seconds);
      |r| == 8 && r[2] == ':' && r[5] == ':' &&
      AllDigits(r[0..2]) && AllDigits(r[3..5]) && AllDigits(r[6..8]) &&
      ParseDec(r[0..2]) == hours && ParseDec(r[3..5]) == minutes && ParseDec(r[6..8]) == seconds
  {
    Pad2TwoDigits(hours);
    Pad2TwoDigits(minutes);
    Pad2TwoDigits(seconds);
    var s := Pad2(hours) + ":" + Pad2(minutes) + ":" + Pad2(seconds);
    assert |s| == 8;
    assert s[0..2] == Pad2(hours);
    assert s[3..5] == Pad2(minutes);
    assert s[6..8] == Pad2(seconds);
  }

  /** Three-digit hours push the last digit out of the buffer. */
  lemma FormatTimeTruncates()
    ensures FormatTime(100, 0, 0) == "100:00:0"
  {
    assert Dec(100) == Dec(10) + [DigitChar(0)];
    assert Dec(10) == Dec(1) + [DigitChar(0)];
    assert Pad2(100) == "100";
    assert Pad2(0) == "00";
  }

  /** With no rows the total is 0:0:0 ... */
  lemma NoRowsTotalZero()
    ensures Normalize(SumRows([])) == Duration(0, 0, 0)
  {
    var d := SumRows([]);
    assert d == Duration(0, 0, 0);
  }

  /** ... which is reported as `00:00:00`. */
  lemma ZeroFormatsAsZeros()
    ensures FormatTime(0, 0, 0) == "00:00:00"
  {
    assert Pad2(0) == "00";
  }

  /** `calculateConnectionTimeForUser` without the query and the output: the
      normalised total and its text. */
  method CalculateConnectionTime(rows: seq<Duration>) returns (total: Duration, text: string)
    ensures total == Normalize(SumRows(rows))
    ensures text == FormatTime(total.hours, total.minutes, total.seconds)
    ensures |text| == 8
  {
    total := CalculateTotal(rows);
    text := FormatTime(total.hours, total.minutes, total.seconds);
  }
}
