/** The timestamp the handler appends to every response body:
    `DateTime.Now` formatted as "yyyy-MM-dd HH:mm:ss.ffffff". The clock is
    read by the caller; the model takes the instant as a value. */
module Clock {
  import opened Base
  import opened Numbers

  /** A local date and time, to the microsecond. */
  datatype Instant = Instant(
    year: nat, month: nat, day: nat,
    hour: nat, minute: nat, second: nat, microsecond: nat)

  /** The ranges `DateTime` keeps its fields in. */
  predicate Valid(t: Instant) {
    && 1 <= t.year <= 9999 && 1 <= t.month <= 12 && 1 <= t.day <= 31
    && t.hour < 24 && t.minute < 60 && t.second < 60 && t.microsecond < 1_000_000
  }

  function Pow10(w: nat): (p: nat)
    ensures p >= 1
  {
    if w == 0 then 1 else 10 * Pow10(w - 1)
  }

  /** A number of fewer than `w + 1` digits has a decimal form at most `w`
      long. */
  lemma {:induction false} DecimalFits(n: nat, w: nat)
    ensures 1 <= w && n < Pow10(w) ==> |Decimal(n)| <= w
  {
    if 1 <= w && n < Pow10(w) && n >= 10 {
      assert n / 10 < Pow10(w - 1);
      DecimalFits(n / 10, w - 1);
    }
  }

  /** A format field such as "MM" or "ffffff": `n` in decimal, left-padded
      with zeros to `width` digits. */
  function Padded(n: nat, width: nat): (s: string)
    ensures AllDigits(s) && DigitsValue(s) == n
    ensures 1 <= width && n < Pow10(width) ==> |s| == width
  {
    var d := Decimal(n);
    DigitsValueDecimal(n);
    DecimalFits(n, width);
    if |d| >= width then d
    else ZerosValue(width - |d|, d); Zeros(width - |d|) + d
  }

  /** "yyyy-MM-dd". */
  function DatePart(t: Instant): (s: string)
    ensures Valid(t) ==> |s| == 10
    ensures IsAscii(s)
  {
    Padded(t.year, 4) + "-" + Padded(t.month, 2) + "-" + Padded(t.day, 2)
  }

  /** "HH:mm:ss". */
  function TimePart(t: Instant): (s: string)
    ensures Valid(t) ==> |s| == 8
    ensures IsAscii(s)
  {
    Padded(t.hour, 2) + ":" + Padded(t.minute, 2) + ":" + Padded(t.second, 2)
  }

  /** "yyyy-MM-dd HH:mm:ss.ffffff". */
  function Stamp(t: Instant): (s: string)
    ensures Valid(t) ==> |s| == 26
    ensures IsAscii(s)
  {
    DatePart(t) + " " + TimePart(t) + "." + Padded(t.microsecond, 6)
  }

  /** Each field of a valid instant can be read back from its place in the
      stamp. */
  lemma StampFields(t: Instant)
    requires Valid(t)
    ensures var s := Stamp(t);
      && s[4] == '-' && s[7] == '-' && s[10] == ' ' && s[13] == ':' && s[16] == ':' && s[19] == '.'
      && AllDigits(s[..4]) && DigitsValue(s[..4]) == t.year
      && AllDigits(s[5..7]) && DigitsValue(s[5..7]) == t.month
      && AllDigits(s[8..10]) && DigitsValue(s[8..10]) == t.day
      && AllDigits(s[11..13]) && DigitsValue(s[11..13]) == t.hour
      && AllDigits(s[14..16]) && DigitsValue(s[14..16]) == t.minute
      && AllDigits(s[17..19]) && DigitsValue(s[17..19]) == t.second
      && AllDigits(s[20..]) && DigitsValue(s[20..]) == t.microsecond
  {
    var s := Stamp(t);
    StampPieces(t);
    DateFields(t);
    TimeFields(t);
    assert Pow10(6) == 1_000_000;
    var date, time := s[..10], s[11..19];
    assert s[..4] == date[..4] && s[5..7] == date[5..7] && s[8..10] == date[8..10];
    assert s[11..13] == time[..2] && s[14..16] == time[3..5] && s[17..19] == time[6..8];
  }

  /** Where the date, the time and the fraction sit in the stamp. */
  lemma StampPieces(t: Instant)
    requires Valid(t)
    ensures var s := Stamp(t);
      && |s| == 26 && s[..10] == DatePart(t) && s[10] == ' '
      && s[11..19] == TimePart(t) && s[19] == '.' && s[20..] == Padded(t.microsecond, 6)
  {
  }

  lemma DateFields(t: Instant)
    requires Valid(t)
    ensures var d := DatePart(t);
      && |d| == 10 && d[4] == '-' && d[7] == '-'
      && d[..4] == Padded(t.year, 4) && d[5..7] == Padded(t.month, 2) && d[8..10] == Padded(t.day, 2)
  {
    assert Pow10(2) == 100 && Pow10(4) == 10000;
  }

  lemma TimeFields(t: Instant)
    requires Valid(t)
    ensures var h := TimePart(t);
      && |h| == 8 && h[2] == ':' && h[5] == ':'
      && h[..2] == Padded(t.hour, 2) && h[3..5] == Padded(t.minute, 2) && h[6..8] == Padded(t.second, 2)
  {
    assert Pow10(2) == 100;
  }
}
