/** Decimal numbers as the handler writes and reads them: `int.ToString()`
    for the `Content-Length` it sends, and `Convert.ToInt32(string)` for the
    one it receives. `Convert.ToInt32` is `int.Parse` with
    `NumberStyles.Integer`: optional leading white space, an optional sign,
    one or more ASCII digits, optional trailing white space, and then
    nothing but NUL characters; the value must fit in 32 bits. */
module Numbers {
  import opened Base

  const Int32Min: int := -0x8000_0000
  const Int32Max: int := 0x7FFF_FFFF

  predicate IsDigit(c: char) { '0' <= c <= '9' }

  predicate AllDigits(s: string) {
    forall i :: 0 <= i < |s| ==> IsDigit(s[i])
  }

  function DigitChar(d: nat): (c: char)
    requires d < 10
    ensures IsDigit(c) && c as int - '0' as int == d
  {
    (d + '0' as int) as char
  }

  /** `n.ToString()` for a non-negative `n`: its digits, most significant
      first, without leading zeros. */
  function Decimal(n: nat): (s: string)
    ensures s != [] && AllDigits(s)
    ensures s[0] == '0' ==> n == 0 && |s| == 1
  {
    if n < 10 then [DigitChar(n)] else Decimal(n / 10) + [DigitChar(n % 10)]
  }

  /** The number a string of digits denotes. */
  function DigitsValue(s: string): nat
    requires AllDigits(s)
  {
    if s == [] then 0 else DigitsValue(s[..|s| - 1]) * 10 + (s[|s| - 1] as int - '0' as int)
  }

  /** Reading back the digits `Decimal` writes gives the number. */
  lemma {:induction false} DigitsValueDecimal(n: nat)
    ensures DigitsValue(Decimal(n)) == n
  {
    if n >= 10 {
      var s := Decimal(n);
      assert s[..|s| - 1] == Decimal(n / 10);
      DigitsValueDecimal(n / 10);
    }
  }

  /** The white space `int.Parse` skips: U+0009..U+000D and the space. */
  predicate IsBlank(c: char) { c == ' ' || '\t' <= c <= '\r' }

  function LeadingBlanks(s: string): (n: nat)
    ensures n <= |s|
    ensures forall i :: 0 <= i < n ==> IsBlank(s[i])
    ensures n < |s| ==> !IsBlank(s[n])
  {
    if s == [] || !IsBlank(s[0]) then 0 else 1 + LeadingBlanks(s[1..])
  }

  function LeadingDigits(s: string): (n: nat)
    ensures n <= |s| && AllDigits(s[..n])
    ensures n < |s| ==> !IsDigit(s[n])
  {
    if s == [] || !IsDigit(s[0]) then 0 else 1 + LeadingDigits(s[1..])
  }

  /** What may follow the digits: white space, then only NUL characters. */
  predicate IsTrailer(t: string) {
    forall i :: LeadingBlanks(t) <= i < |t| ==> t[i] == '\0'
  }

  predicate AllBlank(s: string) {
    forall i :: 0 <= i < |s| ==> IsBlank(s[i])
  }

  /** The signs `Convert.ToInt32` takes in front of the digits: none, `+`
      or `-`. */
  predicate IsSign(sign: string) { sign == "" || sign == "+" || sign == "-" }

  /** The sign at the start of `t`, if any. */
  function SignOf(t: string): (sign: string)
    ensures IsSign(sign) && sign <= t
  {
    if t != [] && (t[0] == '-' || t[0] == '+') then t[..1] else []
  }

  /** The value of `digits` under `sign`. */
  function SignedValue(sign: string, digits: string): int
    requires AllDigits(digits)
  {
    if sign == "-" then 0 - DigitsValue(digits) as int else DigitsValue(digits)
  }

  /** A value that fits 32 bits, or the `OverflowException`. */
  function Fit(v: int): (r: Option<int>)
    ensures r.Some? <==> Int32Min <= v <= Int32Max
    ensures r.Some? ==> r.value == v
  {
    if Int32Min <= v <= Int32Max then Some(v) else None
  }

  /** The text after the sign: digits, then a trailer. */
  function ParseUnsigned(sign: string, u: string): (r: Option<int>)
    ensures r.Some? ==> u != [] && IsDigit(u[0])
  {
    var d := LeadingDigits(u);
    if d == 0 || !IsTrailer(u[d..]) then None else Fit(SignedValue(sign, u[..d]))
  }

  /** `Convert.ToInt32(s)`; `None` stands for the `FormatException` or
      `OverflowException` it throws. */
  function ParseInt32(s: string): (r: Option<int>)
    ensures r.Some? ==> Int32Min <= r.value <= Int32Max
    ensures r.Some? ==> exists i :: 0 <= i < |s| && IsDigit(s[i])
  {
    var t := s[LeadingBlanks(s)..];
    var sign := SignOf(t);
    var r := ParseUnsigned(sign, t[|sign|..]);
    assert r.Some? ==> s[LeadingBlanks(s) + |sign|] == t[|sign|..][0];
    r
  }

  /** Blanks in front of text that starts with no blank are all skipped. */
  lemma {:induction false} LeadingBlanksPrefix(blanks: string, rest: string)
    requires AllBlank(blanks)
    requires rest == [] || !IsBlank(rest[0])
    ensures LeadingBlanks(blanks + rest) == |blanks|
  {
    if blanks != [] {
      assert (blanks + rest)[1..] == blanks[1..] + rest;
      LeadingBlanksPrefix(blanks[1..], rest);
    }
  }

  /** The digits in front of a text that starts with no digit are all
      taken. */
  lemma {:induction false} LeadingDigitsPrefix(digits: string, tail: string)
    requires AllDigits(digits)
    requires tail == [] || !IsDigit(tail[0])
    ensures LeadingDigits(digits + tail) == |digits|
  {
    if digits != [] {
      assert (digits + tail)[1..] == digits[1..] + tail;
      LeadingDigitsPrefix(digits[1..], tail);
    }
  }

  /** A trailer starts with a blank or a NUL, never with a digit. */
  lemma TrailerStart(tail: string)
    requires IsTrailer(tail) && tail != []
    ensures !IsDigit(tail[0])
  {
    if LeadingBlanks(tail) == 0 {
      assert tail[0] == '\0';
    }
  }

  /** Digits followed by a trailer read as their signed value. */
  lemma UnsignedAccepts(sign: string, digits: string, tail: string)
    requires digits != [] && AllDigits(digits) && IsTrailer(tail)
    ensures ParseUnsigned(sign, digits + tail) == Fit(SignedValue(sign, digits))
  {
    var u := digits + tail;
    if tail != [] {
      TrailerStart(tail);
    }
    LeadingDigitsPrefix(digits, tail);
    assert u[..|digits|] == digits && u[|digits|..] == tail;
  }

  /** Blanks and a sign in front of the digits are skipped: what decides
      the result is the text after them. */
  lemma SkipPrefix(blanks: string, sign: string, u: string)
    requires AllBlank(blanks) && IsSign(sign)
    requires sign == "" ==> u != [] && IsDigit(u[0])
    ensures ParseInt32(blanks + sign + u) == ParseUnsigned(sign, u)
  {
    var t := sign + u;
    var s := blanks + t;
    assert blanks + sign + u == s;
    assert t[0] == if sign == "" then u[0] else sign[0];
    LeadingBlanksPrefix(blanks, t);
    assert s[|blanks|..] == t;
    assert SignOf(t) == sign;
    assert t[|sign|..] == u;
  }

  /** Every text of the accepted form, blanks, a sign, one or more digits
      and a trailer, reads as the signed value of its digits when that fits
      32 bits, and fails otherwise. */
  lemma ParseInt32Accepts(blanks: string, sign: string, digits: string, tail: string)
    requires AllBlank(blanks) && IsSign(sign) && digits != [] && AllDigits(digits) && IsTrailer(tail)
    ensures ParseInt32(blanks + sign + digits + tail) == Fit(SignedValue(sign, digits))
  {
    assert blanks + sign + digits + tail == blanks + sign + (digits + tail);
    SkipPrefix(blanks, sign, digits + tail);
    UnsignedAccepts(sign, digits, tail);
  }

  /** Every text `Convert.ToInt32` accepts has that form, and its value is
      the signed value of its digits: together with `ParseInt32Accepts`,
      the text is refused exactly when it has some other shape or its
      value does not fit. */
  lemma ParseInt32Form(s: string) returns (blanks: string, sign: string, digits: string, tail: string)
    requires ParseInt32(s).Some?
    ensures s == blanks + sign + digits + tail
    ensures AllBlank(blanks) && IsSign(sign) && digits != [] && AllDigits(digits) && IsTrailer(tail)
    ensures ParseInt32(s) == Some(SignedValue(sign, digits))
  {
    var n := LeadingBlanks(s);
    var t := s[n..];
    blanks, sign := s[..n], SignOf(t);
    var u := t[|sign|..];
    var d := LeadingDigits(u);
    digits, tail := u[..d], u[d..];
    assert ParseInt32(s) == Some(SignedValue(sign, digits)) && IsTrailer(tail) by {
      assert ParseInt32(s) == ParseUnsigned(sign, u);
    }
    assert sign == t[..|sign|];
    Regroup4(s, n, |sign|, d);
  }

  /** `s` cut into four pieces, each cut made in what is left. */
  lemma Regroup4(s: string, n: nat, k: nat, d: nat)
    requires n <= |s| && k <= |s| - n && d <= |s| - n - k
    ensures var t := s[n..]; var u := t[k..];
      s == s[..n] + t[..k] + u[..d] + u[d..]
  {
    var t := s[n..];
    var u := t[k..];
    assert u == u[..d] + u[d..];
    assert t == t[..k] + u;
    assert s == s[..n] + t;
  }

  /** Digits, possibly none, followed by text that is no trailer read as
      nothing. */
  lemma UnsignedRejects(sign: string, digits: string, junk: string)
    requires AllDigits(digits)
    requires junk != [] && !IsDigit(junk[0]) && !IsTrailer(junk)
    ensures ParseUnsigned(sign, digits + junk) == None
  {
    LeadingDigitsPrefix(digits, junk);
    assert (digits + junk)[|digits|..] == junk;
  }

  /** Text after the sign that neither continues the digits nor is a
      trailer makes `Convert.ToInt32` fail: a letter after the digits, a
      second number after a space, a second sign. */
  lemma ParseInt32Rejects(blanks: string, sign: string, digits: string, junk: string)
    requires AllBlank(blanks) && IsSign(sign) && AllDigits(digits) && sign + digits != []
    requires junk != [] && !IsDigit(junk[0]) && !IsTrailer(junk)
    ensures ParseInt32(blanks + sign + digits + junk) == None
  {
    assert blanks + sign + digits + junk == blanks + sign + (digits + junk);
    assert sign == "" ==> (digits + junk)[0] == digits[0];
    SkipPrefix(blanks, sign, digits + junk);
    UnsignedRejects(sign, digits, junk);
  }

  /** Instances: a digit followed by a letter ("5x"), two numbers
      separated by a space ("5 5") and a doubled sign ("+-5") are refused. */
  lemma ParseInt32Refuses(d: char, c: char)
    requires IsDigit(d) && !IsDigit(c) && !IsBlank(c) && c != '\0'
    ensures ParseInt32([d, c]) == None
    ensures ParseInt32([d, ' ', d]) == None
    ensures ParseInt32(['+', '-', d]) == None
  {
    var digit: string := [d];
    assert ParseInt32([] + [] + digit + [c]) == None by {
      assert LeadingBlanks([c]) == 0;
      ParseInt32Rejects([], [], digit, [c]);
    }
    assert ParseInt32([] + [] + digit + [' ', d]) == None by {
      var junk := [' ', d];
      assert junk[1..] == digit && LeadingBlanks(junk) == 1;
      ParseInt32Rejects([], [], digit, junk);
    }
    assert ParseInt32([] + ['+'] + [] + ['-', d]) == None by {
      assert LeadingBlanks(['-', d]) == 0;
      ParseInt32Rejects([], ['+'], [], ['-', d]);
    }
    Spell(d, c, ' ', '+', '-');
  }

  /** The strings of the examples, spelled out piece by piece. */
  lemma Spell(d: char, c: char, space: char, plus: char, minus: char)
    ensures [] + [] + [d] + [c] == [d, c]
    ensures [] + [] + [d] + [space, d] == [d, space, d]
    ensures [] + [plus] + [] + [minus, d] == [plus, minus, d]
  {
  }

  /** `k` zero digits. */
  function Zeros(k: nat): string {
    seq(k, _ => '0')
  }

  /** Leading zeros do not change the number digits denote. */
  lemma {:induction false} ZerosValue(k: nat, s: string)
    requires AllDigits(s)
    ensures DigitsValue(Zeros(k) + s) == DigitsValue(s)
    decreases |s|, k
  {
    var z := Zeros(k) + s;
    if s != [] {
      assert z[..|z| - 1] == Zeros(k) + s[..|s| - 1];
      ZerosValue(k, s[..|s| - 1]);
    } else if k > 0 {
      assert z == Zeros(k);
      assert z[..|z| - 1] == Zeros(k - 1) + [];
      ZerosValue(k - 1, []);
    }
  }

  /** Leading zeros change neither whether a number is accepted nor its
      value ("007" reads as 7). */
  lemma ParseInt32LeadingZeros(k: nat, digits: string)
    requires digits != [] && AllDigits(digits)
    ensures ParseInt32(Zeros(k) + digits) == ParseInt32(digits)
  {
    var padded := Zeros(k) + digits;
    assert AllDigits(padded) by {
      assert forall i :: 0 <= i < k ==> padded[i] == '0';
      assert forall i :: k <= i < |padded| ==> padded[i] == digits[i - k];
    }
    ZerosValue(k, digits);
    ParseInt32Accepts([], [], padded, []);
    ParseInt32Accepts([], [], digits, []);
    Bare(padded);
    Bare(digits);
  }

  /** Blanks around a number and a `+` sign in front of it change neither
      whether it is accepted nor its value (" +5 " reads as 5). */
  lemma ParseInt32Padding(blanks: string, digits: string, tail: string)
    requires AllBlank(blanks) && digits != [] && AllDigits(digits) && IsTrailer(tail)
    ensures ParseInt32(blanks + "+" + digits + tail) == ParseInt32(digits)
  {
    ParseInt32Accepts(blanks, "+", digits, tail);
    ParseInt32Accepts([], [], digits, []);
    Bare(digits);
  }

  /** A text with nothing around it. */
  lemma Bare(s: string)
    ensures [] + [] + s + [] == s
  {
  }

  /** Round trip: `Convert.ToInt32` reads back what `ToString` writes for
      every value an `int` holds, and refuses larger ones. */
  lemma ParseDecimal(n: nat)
    ensures ParseInt32(Decimal(n)) == if n <= Int32Max then Some(n) else None
  {
    var s := Decimal(n);
    assert "" + "" + s + "" == s;
    ParseInt32Accepts("", "", s, "");
    DigitsValueDecimal(n);
  }

  /** A minus sign before the digits negates the value, down to -2^31. */
  lemma ParseNegative(n: nat)
    ensures ParseInt32(['-'] + Decimal(n)) == if n <= -Int32Min then Some(-(n as int)) else None
  {
    var s := Decimal(n);
    DigitsValueDecimal(n);
    assert SignedValue("-", s) == -(n as int);
    assert ParseInt32("" + "-" + s + "") == Fit(-(n as int)) by {
      ParseInt32Accepts("", "-", s, "");
    }
    assert "" + "-" + s + "" == ['-'] + s;
  }
}
