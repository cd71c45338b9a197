/**
  The timer's display text for a duration in milliseconds: `formatTime` in
  script.js. Arithmetic follows JavaScript: `%` keeps the sign of the
  dividend, `Math.floor` of a quotient by a positive divisor is Dafny's `/`,
  and a number below ten is padded by string concatenation with "0".
 */
module TimeFormat {
  import opened Wrappers

  const MsPerDay: int := 1000 * 60 * 60 * 24
  const MsPerHour: int := 1000 * 60 * 60
  const MsPerMinute: int := 1000 * 60
  const MsPerSecond: int := 1000

  /** JavaScript's `%` for a positive divisor: truncating, so the remainder has the dividend's sign. */
  function JsRem(a: int, b: int): (r: int)
    requires b > 0
    ensures a >= 0 ==> 0 <= r < b && r == a % b
    ensures a < 0 ==> -b < r <= 0
  {
    if a >= 0 then a % b else -((-a) % b)
  }

  function DigitChar(d: int): (c: char)
    requires 0 <= d < 10
    ensures '0' <= c <= '9' && c as int - '0' as int == d
  {
    ('0' as int + d) as char
  }

  /** The number a string of decimal digits denotes, read left to right. */
  function DecimalValue(s: string): int
  {
    if |s| == 0 then 0
    else DecimalValue(s[..|s| - 1]) * 10 + (s[|s| - 1] as int - '0' as int)
  }

  /** Decimal text of a natural number, as JavaScript's number-to-string conversion gives it. */
  function NatToString(n: nat): (r: string)
    ensures |r| >= 1
    ensures n < 10 <==> |r| == 1
    ensures forall i :: 0 <= i < |r| ==> '0' <= r[i] <= '9'
    ensures n >= 10 ==> r[0] != '0'
  {
    if n < 10 then [DigitChar(n)] else NatToString(n / 10) + [DigitChar(n % 10)]
  }

  /** Decimal text of any integer: a minus sign before the magnitude when negative. */
  function IntToString(n: int): (r: string)
    ensures |r| >= 1
    ensures (n < 0) == (r[0] == '-')
    ensures forall i :: (if n < 0 then 1 else 0) <= i < |r| ==> IsDigit(r[i])
    ensures -10 < n < 10 ==> |r| == (if n < 0 then 2 else 1)
    ensures n >= 10 ==> r[0] != '0'
    ensures n <= -10 ==> |r| >= 2 && r[1] != '0'
  {
    if n < 0 then "-" + NatToString(-n) else NatToString(n)
  }

  /** The conversion is faithful: its digits read back as the number, after the sign when negative. */
  lemma {:induction false} IntToStringValue(n: int)
    ensures n >= 0 ==> DecimalValue(IntToString(n)) == n
    ensures n < 0 ==> DecimalValue(IntToString(n)[1..]) == -n
  {
    var m: nat := if n < 0 then -n else n;
    NatToStringValue(m);
    if n < 0 {
      assert ("-" + NatToString(m))[1..] == NatToString(m);
    }
  }

  lemma {:induction false} NatToStringValue(n: nat)
    ensures DecimalValue(NatToString(n)) == n
  {
    var r := NatToString(n);
    if n < 10 {
      assert r[..0] == [];
    } else {
      var high := NatToString(n / 10);
      NatToStringValue(n / 10);
      assert r[..|high|] == high;
    }
  }

  function TwoDigitValue(s: string): int
    requires |s| == 2
  {
    (s[0] as int - '0' as int) * 10 + (s[1] as int - '0' as int)
  }

  predicate IsDigit(c: char)
  {
    '0' <= c <= '9'
  }

  /** A field as formatTime pads it: "0" in front of anything below ten. */
  function Pad(n: int): (r: string)
    ensures |r| >= 2
    ensures 0 <= n < 100 ==> |r| == 2 && IsDigit(r[0]) && IsDigit(r[1]) && TwoDigitValue(r) == n
    ensures r == "00" <==> n == 0
  {
    if n < 10 then "0" + IntToString(n)
    else
      assert 10 <= n < 100 ==> NatToString(n) == [DigitChar(n / 10)] + [DigitChar(n % 10)];
      IntToString(n)
  }

  /** The four numeric fields formatTime computes before padding. */
  datatype Fields = Fields(hours: int, minutes: int, seconds: int, centis: int)

  function FieldsOf(time: int): (f: Fields)
    ensures time >= 0 ==> 0 <= f.hours < 24 && 0 <= f.minutes < 60 && 0 <= f.seconds < 60 && 0 <= f.centis < 100
  {
    Fields(JsRem(time, MsPerDay) / MsPerHour,
           JsRem(time, MsPerHour) / MsPerMinute,
           JsRem(time, MsPerMinute) / MsPerSecond,
           JsRem(time, MsPerSecond) / 10)
  }

  /**
    formatTime: padded fields, leading "00" hours and then "00" minutes
    dropped. FormatShape and FormatThenRead below state exactly what the text is.
   */
  function FormatTime(time: int): (r: string)
    ensures time >= 0 ==> (|r| == 5 || |r| == 8 || |r| == 11) && r[|r| - 3] == '.'
  {
    var f := FieldsOf(time);
    var hours, minutes, seconds, centis := Pad(f.hours), Pad(f.minutes), Pad(f.seconds), Pad(f.centis);
    if hours == "00" then
      if minutes == "00" then seconds + "." + centis
      else minutes + ":" + seconds + "." + centis
    else hours + ":" + minutes + ":" + seconds + "." + centis
  }

  // ---------------------------------------------------------------------------
  // Reading a display text back: an independent inverse of FormatTime.

  predicate DigitPairAt(r: string, i: nat)
  {
    i + 2 <= |r| && IsDigit(r[i]) && IsDigit(r[i + 1])
  }

  function PairAt(r: string, i: nat): int
    requires i + 2 <= |r|
  {
    TwoDigitValue(r[i..i + 2])
  }

  /** Whole centiseconds shown by `SS.CC`, `MM:SS.CC` or `HH:MM:SS.CC`; None for any other text. */
  function ReadCentis(r: string): Option<int>
  {
    if |r| == 5 && DigitPairAt(r, 0) && r[2] == '.' && DigitPairAt(r, 3) then
      Some(PairAt(r, 0) * 100 + PairAt(r, 3))
    else if |r| == 8 && DigitPairAt(r, 0) && r[2] == ':' && DigitPairAt(r, 3) && r[5] == '.'
            && DigitPairAt(r, 6) then
      Some(PairAt(r, 0) * 6000 + PairAt(r, 3) * 100 + PairAt(r, 6))
    else if |r| == 11 && DigitPairAt(r, 0) && r[2] == ':' && DigitPairAt(r, 3) && r[5] == ':'
            && DigitPairAt(r, 6) && r[8] == '.' && DigitPairAt(r, 9) then
      Some(PairAt(r, 0) * 360000 + PairAt(r, 3) * 6000 + PairAt(r, 6) * 100 + PairAt(r, 9))
    else None
  }

  // ---------------------------------------------------------------------------
  // Properties.

  lemma MulSign(a: int, k: int)
    requires a > 0
    ensures k >= 1 ==> a * k >= a
    ensures k <= -1 ==> a * k <= -a
  {
    if k >= 1 {
      assert a * k == a + a * (k - 1);
    } else if k <= -1 {
      assert a * k == -a + a * (k + 1);
    }
  }

  lemma MulDistrib(a: int, b: int, c: int)
    ensures a * (b + c) == a * b + a * c
    ensures a * (b * c) == (a * b) * c
  {
  }

  /** Taking away the truncating remainder leaves a multiple of the divisor. */
  lemma JsRemLeavesMultiple(a: int, b: int)
    requires b > 0
    ensures (a - JsRem(a, b)) % b == 0
  {
    if a >= 0 {
      DivUnique(a - a % b, b, a / b, 0);
      return;
    }
    var q, m := (-a) / b, (-a) % b;
    assert -a == b * q + m;
    MulDistrib(b, q, -q);
    assert a + m == b * (-q) + 0;
    DivUnique(a + m, b, -q, 0);
  }

  /** Division with a remainder in range determines quotient and remainder. */
  lemma DivUnique(x: int, a: int, q: int, r: int)
    requires a > 0 && 0 <= r < a && x == a * q + r
    ensures x / a == q && x % a == r
  {
    var q0, r0 := x / a, x % a;
    assert x == a * q0 + r0 && 0 <= r0 < a;
    MulDistrib(a, q, -q0);
    MulSign(a, q - q0);
  }

  /** Dividing by a * b is dividing by a and then by b; the remainder splits likewise. */
  lemma {:induction false} DivMulSplit(x: int, a: int, b: int)
    requires x >= 0 && a > 0 && b > 0
    ensures x / (a * b) == (x / a) / b
    ensures x % (a * b) == a * ((x / a) % b) + x % a
  {
    var q1, r1 := x / a, x % a;
    var q2, r2 := q1 / b, q1 % b;
    var ab := a * b;
    MulDistrib(a, b * q2, r2);
    MulDistrib(a, b, q2);
    MulDistrib(a, b - 1, -r2);
    MulDistrib(a, b, -1);
    MulSign(a, b - r2);
    DivUnique(x, ab, q2, a * r2 + r1);
  }

  /** (t % (a * b)) / a == (t / a) % b for a non-negative t. */
  lemma {:induction false} ModThenDiv(t: int, a: int, b: int)
    requires t >= 0 && a > 0 && b > 0
    ensures (t % (a * b)) / a == (t / a) % b
  {
    DivMulSplit(t, a, b);
    DivUnique(t % (a * b), a, (t / a) % b, t % a);
  }

  /**
    For a non-negative time every field is a truncated quotient: hours are
    whole hours modulo 24, minutes and seconds whole units modulo 60, and
    centiseconds whole hundredths modulo 100 (999 ms shows 99, not rounded).
   */
  lemma FieldsAreTruncatedUnits(time: int)
    requires time >= 0
    ensures FieldsOf(time).hours == (time / MsPerHour) % 24
    ensures FieldsOf(time).minutes == (time / MsPerMinute) % 60
    ensures FieldsOf(time).seconds == (time / MsPerSecond) % 60
    ensures FieldsOf(time).centis == (time / 10) % 100
  {
    ModThenDiv(time, MsPerHour, 24);
    ModThenDiv(time, MsPerMinute, 60);
    ModThenDiv(time, MsPerSecond, 60);
    ModThenDiv(time, 10, 100);
  }

  /** The fields add back up to the time within the day, less the dropped last millisecond digit. */
  lemma FieldsRecompose(time: int)
    requires time >= 0
    ensures var f := FieldsOf(time);
      (time % MsPerDay) / 10 == f.hours * 360000 + f.minutes * 6000 + f.seconds * 100 + f.centis
  {
    var f := FieldsOf(time);
    FieldsAreTruncatedUnits(time);
    var u := time / 10;
    DivMulSplit(time, 10, 100);       // seconds count  time / 1000 == u / 100
    DivMulSplit(time, 10, 6000);      // minutes count  time / 60000 == u / 6000
    DivMulSplit(time, 10, 360000);    // hours count    time / 3600000 == u / 360000
    DivMulSplit(time, 10, 8640000);   // time % MsPerDay == 10 * (u % 8640000) + time % 10
    DivUnique(time % MsPerDay, 10, u % 8640000, time % 10);
    DivMulSplit(u, 100, 86400);
    DivMulSplit(u / 100, 60, 1440);
    DivMulSplit(u, 100, 60);
    DivMulSplit(u / 6000, 60, 24);
    DivMulSplit(u, 6000, 60);
  }

  /** Two two-character groups around a separator. */
  lemma Groups2(x: string, c: char, y: string)
    requires |x| == 2 && |y| == 2
    ensures var r := x + [c] + y;
      |r| == 5 && r[2] == c && r[0..2] == x && r[3..5] == y
  {
  }

  lemma Groups3(x: string, c: char, y: string, d: char, z: string)
    requires |x| == 2 && |y| == 2 && |z| == 2
    ensures var r := x + [c] + y + [d] + z;
      |r| == 8 && r[2] == c && r[5] == d && r[0..2] == x && r[3..5] == y && r[6..8] == z
  {
    Groups2(x, c, y);
  }

  lemma Groups4(w: string, b: char, x: string, c: char, y: string, d: char, z: string)
    requires |w| == 2 && |x| == 2 && |y| == 2 && |z| == 2
    ensures var r := w + [b] + x + [c] + y + [d] + z;
      && |r| == 11 && r[2] == b && r[5] == c && r[8] == d
      && r[0..2] == w && r[3..5] == x && r[6..8] == y && r[9..11] == z
  {
    Groups3(w, b, x, c, y);
  }

  /**
    The three shapes: `SS.CC` when hours and minutes are zero, `MM:SS.CC`
    when only the hours are, `HH:MM:SS.CC` otherwise; every field is two digits.
   */
  lemma FormatShape(time: int)
    requires time >= 0
    ensures var f, r := FieldsOf(time), FormatTime(time);
      && (f.hours == 0 && f.minutes == 0 ==>
            |r| == 5 && r[2] == '.' && PairAt(r, 0) == f.seconds && PairAt(r, 3) == f.centis)
      && (f.hours == 0 && f.minutes != 0 ==>
            |r| == 8 && r[2] == ':' && r[5] == '.'
            && PairAt(r, 0) == f.minutes && PairAt(r, 3) == f.seconds && PairAt(r, 6) == f.centis)
      && (f.hours != 0 ==>
            |r| == 11 && r[2] == ':' && r[5] == ':' && r[8] == '.'
            && PairAt(r, 0) == f.hours && PairAt(r, 3) == f.minutes
            && PairAt(r, 6) == f.seconds && PairAt(r, 9) == f.centis)
  {
    var f := FieldsOf(time);
    var hh, mm, ss, cc := Pad(f.hours), Pad(f.minutes), Pad(f.seconds), Pad(f.centis);
    if f.hours == 0 && f.minutes == 0 {
      Groups2(ss, '.', cc);
    } else if f.hours == 0 {
      Groups3(mm, ':', ss, '.', cc);
    } else {
      Groups4(hh, ':', mm, ':', ss, '.', cc);
    }
  }

  predicate TwoDigits(x: string)
  {
    |x| == 2 && DigitPairAt(x, 0)
  }

  lemma ReadTwoGroups(s: string, c: string)
    requires TwoDigits(s) && TwoDigits(c)
    ensures ReadCentis(s + "." + c) == Some(TwoDigitValue(s) * 100 + TwoDigitValue(c))
  {
    var r := s + "." + c;
    assert r[0..2] == s && r[3..5] == c;
  }

  lemma ReadThreeGroups(m: string, s: string, c: string)
    requires TwoDigits(m) && TwoDigits(s) && TwoDigits(c)
    ensures ReadCentis(m + ":" + s + "." + c)
         == Some(TwoDigitValue(m) * 6000 + TwoDigitValue(s) * 100 + TwoDigitValue(c))
  {
    var r := m + ":" + s + "." + c;
    assert r[0..2] == m && r[3..5] == s && r[6..8] == c;
  }

  lemma ReadFourGroups(h: string, m: string, s: string, c: string)
    requires TwoDigits(h) && TwoDigits(m) && TwoDigits(s) && TwoDigits(c)
    ensures ReadCentis(h + ":" + m + ":" + s + "." + c)
         == Some(TwoDigitValue(h) * 360000 + TwoDigitValue(m) * 6000 + TwoDigitValue(s) * 100 + TwoDigitValue(c))
  {
    var r := h + ":" + m + ":" + s + "." + c;
    assert r[0..2] == h && r[3..5] == m && r[6..8] == s && r[9..11] == c;
  }

  /** The reader recovers the four fields of any formatted non-negative time. */
  lemma ReadFormatted(time: int)
    requires time >= 0
    ensures var f := FieldsOf(time);
      ReadCentis(FormatTime(time))
        == Some(f.hours * 360000 + f.minutes * 6000 + f.seconds * 100 + f.centis)
  {
    var f := FieldsOf(time);
    var hh, mm, ss, cc := Pad(f.hours), Pad(f.minutes), Pad(f.seconds), Pad(f.centis);
    assert TwoDigits(hh) && TwoDigits(mm) && TwoDigits(ss) && TwoDigits(cc);
    if f.hours == 0 && f.minutes == 0 {
      ReadTwoGroups(ss, cc);
    } else if f.hours == 0 {
      ReadThreeGroups(mm, ss, cc);
    } else {
      ReadFourGroups(hh, mm, ss, cc);
    }
  }

  /** Reading the display back gives the whole centiseconds within the day: nothing but the day and the last millisecond digit is lost. */
  lemma FormatThenRead(time: int)
    requires time >= 0
    ensures ReadCentis(FormatTime(time)) == Some((time % MsPerDay) / 10)
  {
    var f, r := FieldsOf(time), FormatTime(time);
    var v := f.hours * 360000 + f.minutes * 6000 + f.seconds * 100 + f.centis;
    ReadFormatted(time);
    assert ReadCentis(r) == Some(v);
    FieldsRecompose(time);
  }

  /** The display texts of a few characteristic durations. */
  lemma FormatExamples()
    ensures FormatTime(0) == "00.00"
    ensures FormatTime(999) == "00.99"
    ensures FormatTime(1050) == "01.05"
  {
    assert Pad(0) == "00" && Pad(1) == "01" && Pad(5) == "05";
    assert Pad(99) == "99" by {
      assert NatToString(99) == NatToString(9) + [DigitChar(9)];
    }
    assert FieldsOf(0) == Fields(0, 0, 0, 0);
    assert FieldsOf(999) == Fields(0, 0, 0, 99);
    assert FieldsOf(1050) == Fields(0, 0, 1, 5);
  }

  /** A whole minute keeps the minutes field; a whole hour keeps all three; a whole day wraps to zero. */
  lemma FormatUnitExamples()
    ensures FormatTime(60000) == "01:00.00"
    ensures FormatTime(3600000) == "01:00:00.00"
    ensures FormatTime(MsPerDay) == "00.00"
  {
    assert Pad(0) == "00" && Pad(1) == "01";
    assert FieldsOf(60000) == Fields(0, 1, 0, 0);
    assert FieldsOf(3600000) == Fields(1, 0, 0, 0);
    assert FieldsOf(MsPerDay) == Fields(0, 0, 0, 0);
  }
}
