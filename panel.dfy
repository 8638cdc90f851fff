/** The clock of the waiting-room panel: the `HH:MM` and `DD/MM/YYYY` strings the header shows,
    built from the fields of the local date with `toString()` and `padStart(2, "0")`. */
module Panel {
  import opened Common

  predicate AllDigits(s: string) {
    forall i :: 0 <= i < |s| ==> IsDigit(s[i])
  }

  function DigitChar(d: nat): (c: char)
    requires d < 10
    ensures IsDigit(c)
  {
    ('0' as int + d) as char
  }

  /** `n.toString()` for a non-negative integer: its decimal digits, without leading zeros. */
  function Decimal(n: nat): (r: string)
    ensures |r| >= 1 && AllDigits(r)
    ensures |r| == 1 <==> n < 10
    ensures |r| > 1 ==> r[0] != '0'
    decreases n
  {
    if n < 10 then [DigitChar(n)] else Decimal(n / 10) + [DigitChar(n % 10)]
  }

  /** `y.toString()` for any integer: a minus sign before the digits of a negative number. */
  function IntString(y: int): (r: string)
    ensures |r| >= 1 && (r[0] == '-' <==> y < 0)
  {
    if y < 0 then "-" + Decimal(-y) else Decimal(y)
  }

  /** `s.padStart(2, "0")`: zeros in front up to length two; longer strings are left alone. */
  function PadStart2(s: string): (r: string)
    ensures |r| == if |s| >= 2 then |s| else 2
    ensures r[|r| - |s|..] == s
    ensures forall i :: 0 <= i < |r| - |s| ==> r[i] == '0'
  {
    if |s| >= 2 then s else if |s| == 1 then "0" + s else "00"
  }

  /** `n.toString().padStart(2, "0")` */
  function Pad2(n: nat): string {
    PadStart2(Decimal(n))
  }

  /** Lines 29-30 and 37: `${hours}:${minutes}`. */
  function Time(hours: nat, minutes: nat): string {
    Pad2(hours) + ":" + Pad2(minutes)
  }

  /** Lines 33-35 and 38: `${day}/${month}/${year}`, where the month shown is the zero-based
      `getMonth()` plus one. */
  function Date(day: nat, month0: nat, year: int): string {
    Pad2(day) + "/" + Pad2(month0 + 1) + "/" + IntString(year)
  }

  // ---------------------------------------------------------------------------------------------
  // Reading the strings back

  /** The number a string of decimal digits denotes; leading zeros are allowed. */
  function Value(s: string): nat
    requires AllDigits(s)
    decreases |s|
  {
    if s == [] then 0 else 10 * Value(s[..|s| - 1]) + (s[|s| - 1] as int - '0' as int)
  }

  /** Decimal digits read back as a number, or None. */
  function ParseNat(s: string): Option<nat> {
    if s != [] && AllDigits(s) then Some(Value(s)) else None
  }

  /** An optionally signed decimal read back as a number, or None. */
  function ParseInt(s: string): Option<int> {
    if |s| > 1 && s[0] == '-' && AllDigits(s[1..]) then Some(-(Value(s[1..]) as int))
    else if s != [] && AllDigits(s) then Some(Value(s))
    else None
  }

  /** `HH:MM` read back as (hours, minutes), or None. */
  function ParseTime(t: string): Option<(nat, nat)> {
    if |t| == 5 && t[2] == ':' && AllDigits(t[..2]) && AllDigits(t[3..]) then
      Some((Value(t[..2]), Value(t[3..])))
    else None
  }

  /** Reading back what `toString()` wrote gives the number back. */
  lemma {:induction false} DecimalRoundTrip(n: nat)
    ensures Value(Decimal(n)) == n
    decreases n
  {
    if n >= 10 {
      DecimalRoundTrip(n / 10);
      var r := Decimal(n);
      assert r[..|r| - 1] == Decimal(n / 10);
    }
  }

  /** Zeros in front do not change the value. */
  lemma {:induction false} LeadingZeroValue(s: string)
    requires AllDigits(s)
    ensures Value("0" + s) == Value(s)
    decreases |s|
  {
    if s != [] {
      var z := "0" + s;
      assert z[..|z| - 1] == "0" + s[..|s| - 1];
      LeadingZeroValue(s[..|s| - 1]);
    }
  }

  /** What the zero padding of line 29 yields: a single digit behind a zero, anything from ten up
      unchanged, and always the same number when read back. */
  lemma Pad2Shape(n: nat)
    ensures n < 10 ==> Pad2(n) == ['0', DigitChar(n)]
    ensures n >= 10 ==> Pad2(n) == Decimal(n)
    ensures |Pad2(n)| >= 2 && AllDigits(Pad2(n))
    ensures n < 100 ==> |Pad2(n)| == 2
    ensures Value(Pad2(n)) == n
  {
    DecimalRoundTrip(n);
    if n < 10 {
      LeadingZeroValue(Decimal(n));
    }
  }

  /** A clock reading is always five characters with the colon at position two, and it reads back
      as the hours and minutes it was built from. */
  lemma TimeRoundTrip(hours: nat, minutes: nat)
    requires hours < 24 && minutes < 60
    ensures |Time(hours, minutes)| == 5 && Time(hours, minutes)[2] == ':'
    ensures ParseTime(Time(hours, minutes)) == Some((hours, minutes))
  {
    Pad2Shape(hours);
    Pad2Shape(minutes);
    var t := Time(hours, minutes);
    assert t[..2] == Pad2(hours) && t[3..] == Pad2(minutes);
  }

  /** Two different clock readings never show the same text. */
  lemma TimeInjective(h1: nat, m1: nat, h2: nat, m2: nat)
    requires h1 < 24 && m1 < 60 && h2 < 24 && m2 < 60
    requires Time(h1, m1) == Time(h2, m2)
    ensures h1 == h2 && m1 == m2
  {
    TimeRoundTrip(h1, m1);
    TimeRoundTrip(h2, m2);
  }

  /** Reading back what `toString()` wrote for any integer gives it back. */
  lemma IntStringRoundTrip(y: int)
    ensures ParseInt(IntString(y)) == Some(y)
  {
    if y < 0 {
      var d := Decimal(-y);
      DecimalRoundTrip(-y);
      var s := "-" + d;
      assert s[0] == '-' && s[1..] == d && |s| > 1;
      assert ParseInt(s) == Some(-(Value(d) as int));
    } else {
      var d := Decimal(y);
      DecimalRoundTrip(y);
      assert IsDigit(d[0]);
      assert ParseInt(d) == Some(Value(d));
    }
  }

  /** A padded field reads back as the number it shows. */
  lemma ParsePad2(n: nat)
    ensures ParseNat(Pad2(n)) == Some(n)
  {
    Pad2Shape(n);
  }

  /** Where the fields of `${day}/${month}/${year}` sit when day and month have two characters. */
  lemma DateLayout(d: string, m: string, y: string)
    requires |d| == 2 && |m| == 2
    ensures var s := d + "/" + m + "/" + y;
      && |s| == 6 + |y| && s[2] == '/' && s[5] == '/'
      && s[..2] == d && s[3..5] == m && s[6..] == y
  {
    var s := d + "/" + m + "/" + y;
    assert s == d + ("/" + (m + ("/" + y)));
    assert s[2..] == "/" + (m + ("/" + y));
    assert s[3..] == m + ("/" + y);
    assert s[5..] == "/" + y;
  }

  /** The date string splits into the padded day, the one-based month and the year at fixed
      positions: `getMonth()` of 0 to 11 shows as 01 to 12. */
  lemma DateFields(day: nat, month0: nat, year: int)
    requires 1 <= day <= 31 && month0 < 12
    ensures var s := Date(day, month0, year);
      && |s| > 6 && s[2] == '/' && s[5] == '/'
      && ParseNat(s[..2]) == Some(day)
      && ParseNat(s[3..5]) == Some(month0 + 1)
      && ParseInt(s[6..]) == Some(year)
  {
    var d, m, y := Pad2(day), Pad2(month0 + 1), IntString(year);
    assert |d| == 2 && |m| == 2 by {
      Pad2Shape(day);
      Pad2Shape(month0 + 1);
    }
    assert ParseNat(d) == Some(day) by {
      ParsePad2(day);
    }
    assert ParseNat(m) == Some(month0 + 1) by {
      ParsePad2(month0 + 1);
    }
    assert ParseInt(y) == Some(year) by {
      IntStringRoundTrip(year);
    }
    DateLayout(d, m, y);
  }
}
