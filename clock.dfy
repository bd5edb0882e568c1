/**
 * parseSecondsToDays: a number of simulated seconds broken into years,
 * days, hours, minutes and seconds with C's truncating division, and the
 * line the progress report prints for it.
 */
module Clock {
  import CInt
  import Text

  const SecondsPerYear: int := 31536000
  const SecondsPerDay: int := 86400
  const SecondsPerHour: int := 3600
  const SecondsPerMinute: int := 60

  datatype Duration = Duration(years: int, days: int, hours: int, mins: int, secs: int)

  /** The number of seconds a duration stands for. */
  function Seconds(d: Duration): int {
    d.years * SecondsPerYear + d.days * SecondsPerDay + d.hours * SecondsPerHour + d.mins * SecondsPerMinute + d.secs
  }

  /** Each unit is below the next larger one, and nothing is negative. */
  predicate Normal(d: Duration) {
    0 <= d.years && 0 <= d.days < 365 && 0 <= d.hours < 24 && 0 <= d.mins < 60 && 0 <= d.secs < 60
  }

  /**
   * Each unit in turn takes the truncated quotient of what is left, and the
   * remainder goes on to the next one; whatever is left are the seconds.
   * The source takes `years * 31536000` as a 32-bit `int` product, which
   * fits exactly when the time is under 69 years either way.
   */
  function Decompose(seconds: int): (d: Duration)
    ensures Seconds(d) == seconds
    ensures -0x8000_0000 <= d.years * SecondsPerYear < 0x8000_0000 <==> -69 * SecondsPerYear < seconds < 69 * SecondsPerYear
  {
    var years := CInt.Div(seconds, SecondsPerYear);
    var r1 := seconds - years * SecondsPerYear;
    var days := CInt.Div(r1, SecondsPerDay);
    var r2 := r1 - days * SecondsPerDay;
    var hours := CInt.Div(r2, SecondsPerHour);
    var r3 := r2 - hours * SecondsPerHour;
    var mins := CInt.Div(r3, SecondsPerMinute);
    Duration(years, days, hours, mins, r3 - mins * SecondsPerMinute)
  }

  /** A remainder step: what is left after taking the quotient of a non-negative amount lies in `[0, m)`. */
  lemma {:induction false} Step(x: int, m: int)
    requires 0 <= x && 0 < m
    ensures CInt.Div(x, m) == x / m && 0 <= CInt.Div(x, m)
    ensures 0 <= x - CInt.Div(x, m) * m < m
  {
    CInt.NonNegativeAgrees(x, m);
    assert x == (x / m) * m + x % m;
  }

  /** For `a < b * m` against a positive `m`, `a / m < b`. */
  lemma {:induction false} QuotientBelow(a: int, b: int, m: int)
    requires 0 <= a < b * m && 0 < m
    ensures a / m < b
  {
    CInt.LastBlock(a, m, b);
  }

  /** A non-negative number of seconds decomposes into a normal duration. */
  lemma {:induction false} DecomposeNormal(seconds: int)
    requires 0 <= seconds
    ensures Normal(Decompose(seconds))
  {
    var d := Decompose(seconds);
    Step(seconds, SecondsPerYear);
    var r1 := seconds - d.years * SecondsPerYear;
    Step(r1, SecondsPerDay);
    QuotientBelow(r1, 365, SecondsPerDay);
    var r2 := r1 - d.days * SecondsPerDay;
    Step(r2, SecondsPerHour);
    QuotientBelow(r2, 24, SecondsPerHour);
    var r3 := r2 - d.hours * SecondsPerHour;
    Step(r3, SecondsPerMinute);
    QuotientBelow(r3, 60, SecondsPerMinute);
  }

  /** A normal duration is what its own number of seconds decomposes into, so the decomposition is unique. */
  lemma {:induction false} DecomposeSeconds(d: Duration)
    requires Normal(d)
    ensures Decompose(Seconds(d)) == d
  {
    var s := Seconds(d);
    var r1 := d.days * SecondsPerDay + d.hours * SecondsPerHour + d.mins * SecondsPerMinute + d.secs;
    assert r1 < SecondsPerYear;
    CInt.DivideExactly(s, SecondsPerYear, d.years, r1);
    CInt.NonNegativeAgrees(s, SecondsPerYear);
    var r2 := d.hours * SecondsPerHour + d.mins * SecondsPerMinute + d.secs;
    CInt.DivideExactly(r1, SecondsPerDay, d.days, r2);
    CInt.NonNegativeAgrees(r1, SecondsPerDay);
    var r3 := d.mins * SecondsPerMinute + d.secs;
    CInt.DivideExactly(r2, SecondsPerHour, d.hours, r3);
    CInt.NonNegativeAgrees(r2, SecondsPerHour);
    CInt.DivideExactly(r3, SecondsPerMinute, d.mins, d.secs);
    CInt.NonNegativeAgrees(r3, SecondsPerMinute);
  }

  /** For a negative number of seconds every unit is zero or negative, and each is above minus the next larger one. */
  lemma {:induction false} DecomposeNegative(seconds: int)
    requires seconds < 0
    ensures var d := Decompose(seconds);
      d.years <= 0 && -365 < d.days <= 0 && -24 < d.hours <= 0 && -60 < d.mins <= 0 && -60 < d.secs <= 0
  {
    var d := Decompose(seconds);
    CInt.NegativeRemainder(seconds, SecondsPerYear);
    var r1 := seconds - d.years * SecondsPerYear;
    assert r1 == CInt.Mod(seconds, SecondsPerYear);
    NegativeStep(r1, SecondsPerDay, 365);
    var r2 := r1 - d.days * SecondsPerDay;
    NegativeStep(r2, SecondsPerHour, 24);
    var r3 := r2 - d.hours * SecondsPerHour;
    NegativeStep(r3, SecondsPerMinute, 60);
  }

  /** A remainder step on `(-b m, 0]`: the quotient lies in `(-b, 0]`, the remainder in `(-m, 0]`. */
  lemma {:induction false} NegativeStep(x: int, m: int, b: int)
    requires -(b * m) < x <= 0 && 0 < m
    ensures -b < CInt.Div(x, m) <= 0
    ensures -m < x - CInt.Div(x, m) * m <= 0
  {
    if x < 0 {
      CInt.NegativeRemainder(x, m);
      assert CInt.Div(x, m) == -((-x) / m);
      QuotientBelow(-x, b, m);
    }
  }

  /** The progress line: `<y> years, <d> days, <h> hours, <m> min and <s> secs`. */
  function Pretty(seconds: int): string {
    var d := Decompose(seconds);
    Text.IntToString(d.years) + (" years, " + Text.IntToString(d.days) + " days, " +
      Text.IntToString(d.hours) + " hours, " + Text.IntToString(d.mins) + " min and " +
      Text.IntToString(d.secs) + " secs")
  }

  /** Reading the progress line back with `atoi` gives the number of years it reports. */
  lemma PrettyYears(seconds: int)
    ensures Text.Atoi(Pretty(seconds)) == Decompose(seconds).years
  {
    var d := Decompose(seconds);
    var rest := " years, " + Text.IntToString(d.days) + " days, " +
      Text.IntToString(d.hours) + " hours, " + Text.IntToString(d.mins) + " min and " +
      Text.IntToString(d.secs) + " secs";
    assert rest[0] == ' ';
    Text.AtoiOfIntToString(d.years, rest);
  }
}
