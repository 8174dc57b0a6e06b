/** The player's `formatTime`: a number of seconds shown as `M:SS`.

    Minutes are printed without padding, seconds are padded to two digits,
    and NaN is shown as `0:00`. `Clock` is an independent description of the
    text for a whole number of seconds, and `ParseClock` reads such a text
    back; the lemmas tie the three together. */
module TimeFormat {
  import opened Numbers

  predicate IsDigit(c: char) {
    '0' <= c <= '9'
  }

  predicate AllDigits(s: string) {
    forall i :: 0 <= i < |s| ==> IsDigit(s[i])
  }

  /** A decimal numeral as JavaScript prints it: at least one digit, and no
      leading zero unless the numeral is "0" itself. */
  predicate IsNumeral(s: string) {
    |s| >= 1 && AllDigits(s) && (|s| > 1 ==> s[0] != '0')
  }

  function DigitChar(d: nat): (c: char)
    requires d < 10
    ensures IsDigit(c) && DigitValue(c) == d
  {
    ('0' as int + d) as char
  }

  function DigitValue(c: char): nat
    requires IsDigit(c)
  {
    c as int - '0' as int
  }

  /** `n.toString()` for a non-negative integer below 10^21, where
      JavaScript still prints plain digits. */
  function Decimal(n: nat): (s: string)
    ensures IsNumeral(s)
    ensures n < 10 <==> |s| == 1
  {
    if n < 10 then [DigitChar(n)] else Decimal(n / 10) + [DigitChar(n % 10)]
  }

  /** The value of a string of decimal digits. */
  function ParseDecimal(s: string): nat
    requires AllDigits(s)
  {
    if s == [] then 0 else ParseDecimal(s[..|s| - 1]) * 10 + DigitValue(s[|s| - 1])
  }

  /** Template-literal conversion of an integral number: a minus sign
      exactly for a negative number, then the numeral of its magnitude. */
  function IntegerString(i: int): (s: string)
    ensures |s| >= 1 && (s[0] == '-' <==> i < 0)
    ensures i >= 0 ==> IsNumeral(s) && ParseDecimal(s) == i
    ensures i < 0 ==> IsNumeral(s[1..]) && ParseDecimal(s[1..]) == -i
  {
    if i < 0 then
      DecimalRoundTrip(-i);
      assert ("-" + Decimal(-i))[1..] == Decimal(-i);
      "-" + Decimal(-i)
    else
      DecimalRoundTrip(i);
      Decimal(i)
  }

  /** `s.padStart(width, fill)` for a one-character fill. */
  function PadStart(s: string, width: nat, fill: char): (r: string)
    ensures |r| == if |s| >= width then |s| else width
    ensures r[|r| - |s|..] == s
    ensures forall i :: 0 <= i < |r| - |s| ==> r[i] == fill
    decreases width - |s|
  {
    if |s| >= width then s else PadStart([fill] + s, width, fill)
  }

  /** `formatTime(seconds)`: NaN gives "0:00"; otherwise the floor of
      `seconds / 60`, a colon, and the floor of `seconds % 60` padded to two
      characters. An infinity prints as "Infinity" and its remainder is NaN.
      NaN and every time of at least zero show as the clock text of their
      whole seconds; a negative time shows with a leading minus sign. */
  function FormatTime(seconds: Num): (r: string)
    ensures seconds.NaN? ==> r == Clock(0)
    ensures seconds.Finite? && seconds.value >= 0.0 ==> r == Clock(seconds.value.Floor)
    ensures seconds.Finite? && seconds.value < 0.0 ==> |r| >= 1 && r[0] == '-'
  {
    match seconds
    case NaN => ClockZero(); "0:00"
    case PosInf => "Infinity:NaN"
    case NegInf => "-Infinity:NaN"
    case Finite(x) =>
      var mins, secs := (x / 60.0).Floor, Remainder(x, 60.0).Floor;
      if x >= 0.0 then
        FinitePrint(x, mins, secs);
        MinutesColonSeconds(mins, secs)
      else
        MinutesAndSeconds(x);
        MinutesColonSeconds(mins, secs)
  }

  /** The template `${mins}:${secs.toString().padStart(2, '0')}`. For whole
      minutes and seconds below a minute this is the minutes' numeral, a
      colon and exactly two digits of seconds; the text starts with a minus
      sign exactly for negative minutes. */
  function MinutesColonSeconds(mins: int, secs: int): (r: string)
    ensures 0 <= mins && 0 <= secs < 60 ==> r == Decimal(mins) + ":" + TwoDigits(secs)
    ensures |r| >= 1 && (r[0] == '-' <==> mins < 0)
  {
    var head := IntegerString(mins);
    var text := head + ":" + PadStart(IntegerString(secs), 2, '0');
    assert text[0] == head[0];
    if 0 <= mins && 0 <= secs < 60 then
      PaddedSeconds(secs);
      text
    else
      text
  }

  /** Seconds below a minute as exactly two digits. */
  function TwoDigits(k: nat): (s: string)
    requires k < 60
    ensures |s| == 2 && AllDigits(s) && DigitValue(s[0]) * 10 + DigitValue(s[1]) == k
  {
    [DigitChar(k / 10), DigitChar(k % 10)]
  }

  lemma TwoDigitsValue(s: string)
    requires |s| == 2 && AllDigits(s)
    ensures ParseDecimal(s) == DigitValue(s[0]) * 10 + DigitValue(s[1])
  {
    var init := s[..1];
    assert init[..0] == [];
    assert ParseDecimal(init) == DigitValue(s[0]);
    assert s[..|s| - 1] == init;
  }

  /** The clock text for `n` whole seconds: whole minutes, a colon, and the
      remaining seconds as two digits. */
  function Clock(n: nat): string {
    Decimal(n / 60) + ":" + TwoDigits(n % 60)
  }

  /** Reads a clock text back: a numeral of minutes, a colon, and two digits
      below 60; anything else is rejected. */
  function ParseClock(s: string): Option<nat> {
    if |s| >= 4 && s[|s| - 3] == ':' && IsNumeral(s[..|s| - 3])
       && AllDigits(s[|s| - 2..]) && s[|s| - 2] < '6'
    then Some(ParseDecimal(s[..|s| - 3]) * 60 + ParseDecimal(s[|s| - 2..]))
    else None
  }

  lemma {:induction false} ParseDecimalBound(s: string)
    requires AllDigits(s) && |s| >= 1 && s[0] != '0'
    ensures ParseDecimal(s) >= 1
  {
    if |s| > 1 {
      ParseDecimalBound(s[..|s| - 1]);
    }
  }

  /** Printing a number and reading it back gives the number. */
  lemma {:induction false} DecimalRoundTrip(n: nat)
    ensures ParseDecimal(Decimal(n)) == n
  {
    if n >= 10 {
      var s := Decimal(n);
      assert s[..|s| - 1] == Decimal(n / 10);
      DecimalRoundTrip(n / 10);
    }
  }

  /** Reading a numeral and printing the value gives the numeral back. */
  lemma {:induction false} NumeralRoundTrip(s: string)
    requires IsNumeral(s)
    ensures Decimal(ParseDecimal(s)) == s
  {
    if |s| > 1 {
      var init := s[..|s| - 1];
      NumeralRoundTrip(init);
      ParseDecimalBound(init);
      var n := ParseDecimal(s);
      assert n / 10 == ParseDecimal(init) && n % 10 == DigitValue(s[|s| - 1]);
      assert s == init + [s[|s| - 1]];
    }
  }

  /** Reading a clock text back gives its number of seconds. */
  lemma ClockRoundTrip(n: nat)
    ensures ParseClock(Clock(n)) == Some(n)
  {
    var s := Clock(n);
    var m := Decimal(n / 60);
    assert s[..|s| - 3] == m;
    assert s[|s| - 2..] == TwoDigits(n % 60);
    TwoDigitsValue(TwoDigits(n % 60));
    DecimalRoundTrip(n / 60);
  }

  /** Every accepted clock text is the clock text of what it reads as, so
      `Clock` is one-to-one and `ParseClock` accepts exactly its outputs. */
  lemma ParseClockExact(s: string, n: nat)
    ensures ParseClock(s) == Some(n) <==> s == Clock(n)
  {
    if s == Clock(n) {
      ClockRoundTrip(n);
    }
    if ParseClock(s) == Some(n) {
      AcceptedIsClock(s, n);
    }
  }

  lemma AcceptedIsClock(s: string, n: nat)
    requires ParseClock(s) == Some(n)
    ensures s == Clock(n)
  {
    var m, t := s[..|s| - 3], s[|s| - 2..];
    NumeralRoundTrip(m);
    var k := ParseDecimal(t);
    TwoDigitsValue(t);
    assert k < 60;
    assert n == ParseDecimal(m) * 60 + k;
    assert n / 60 == ParseDecimal(m) && n % 60 == k;
    assert TwoDigits(k) == t;
    assert s == m + ":" + t;
  }

  lemma FloorIs(x: real, n: int)
    requires n as real <= x < n as real + 1.0
    ensures x.Floor == n
  {
  }

  /** For a time of at least zero the two floors are the whole minutes and
      the seconds left over of the whole number of seconds; for a negative
      time the minutes are negative. */
  lemma MinutesAndSeconds(x: real)
    ensures x >= 0.0 ==> (x / 60.0).Floor == x.Floor / 60
    ensures x >= 0.0 ==> Remainder(x, 60.0).Floor == x.Floor % 60
    ensures x < 0.0 ==> (x / 60.0).Floor < 0
  {
    if x >= 0.0 {
      var n := x.Floor;
      var q, k := n / 60, n % 60;
      assert n == 60 * q + k;
      FloorIs(x / 60.0, q);
      assert Trunc(x / 60.0) == q;
      FloorIs(x - 60.0 * q as real, k);
    }
  }

  /** The template applied to the two floors of a time of at least zero
      is the clock text of its whole seconds. */
  lemma FinitePrint(x: real, mins: int, secs: int)
    requires x >= 0.0 && mins == (x / 60.0).Floor && secs == Remainder(x, 60.0).Floor
    ensures MinutesColonSeconds(mins, secs) == Clock(x.Floor)
  {
    MinutesAndSeconds(x);
  }

  /** Two characters of padding turn the printed seconds into `TwoDigits`. */
  lemma PaddedSeconds(k: nat)
    requires k < 60
    ensures PadStart(IntegerString(k), 2, '0') == TwoDigits(k)
  {
    if k >= 10 {
      assert Decimal(k / 10) == [DigitChar(k / 10)];
    }
  }

  /** The clock text of zero seconds is "0:00". */
  lemma ClockZero()
    ensures Clock(0) == "0:00"
  {
    assert Decimal(0) == "0";
    assert TwoDigits(0) == "00";
  }

  /** Reading back the text of a non-negative time gives its whole seconds;
      NaN reads back as zero. */
  lemma FormatTimeRoundTrip(x: real)
    requires x >= 0.0
    ensures ParseClock(FormatTime(Finite(x))) == Some(x.Floor)
    ensures ParseClock(FormatTime(NaN)) == Some(0)
  {
    ClockRoundTrip(x.Floor);
    ClockRoundTrip(0);
  }

  /** Two non-negative times print the same exactly when they have the same
      whole seconds. */
  lemma FormatTimeSameText(x: real, y: real)
    requires x >= 0.0 && y >= 0.0
    ensures FormatTime(Finite(x)) == FormatTime(Finite(y)) <==> x.Floor == y.Floor
  {
    ParseClockExact(Clock(x.Floor), x.Floor);
    ParseClockExact(Clock(x.Floor), y.Floor);
  }

  /** 75 seconds show as one minute and fifteen seconds. */
  lemma FormatTime75()
    ensures FormatTime(Finite(75.0)) == "1:15"
  {
    assert Clock(75) == "1:15" by {
      assert Clock(75) == Decimal(1) + ":" + TwoDigits(15);
    }
    FloorIs(75.0, 75);
  }

  /** Seconds below ten are padded with a zero. */
  lemma FormatTime5()
    ensures FormatTime(Finite(5.0)) == "0:05"
  {
    assert Clock(5) == "0:05" by {
      assert Clock(5) == Decimal(0) + ":" + TwoDigits(5);
    }
    FloorIs(5.0, 5);
  }

  /** Fractions of a second are dropped, not rounded. */
  lemma FormatTime59Point9()
    ensures FormatTime(Finite(59.9)) == "0:59"
  {
    assert Clock(59) == "0:59" by {
      assert Clock(59) == Decimal(0) + ":" + TwoDigits(59);
    }
    FloorIs(59.9, 59);
  }

  /** Minutes are not wrapped into hours. */
  lemma FormatTimeHour()
    ensures FormatTime(Finite(3600.0)) == "60:00"
  {
    assert Clock(3600) == "60:00" by {
      assert Decimal(60) == Decimal(6) + "0";
      assert Clock(3600) == Decimal(60) + ":" + TwoDigits(0);
    }
    FloorIs(3600.0, 3600);
  }

  /** A negative time keeps its sign in both fields: `-5` prints as "-1:-5". */
  lemma FormatTimeNegative()
    ensures FormatTime(Finite(-5.0)) == "-1:-5"
  {
    FloorIs(-5.0 / 60.0, -1);
    assert Trunc(-5.0 / 60.0) == 0;
  }
}
