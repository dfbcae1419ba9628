/** The decimal text of a Java `int`: `Integer.toString` and `Integer.parseInt`
    over ASCII digits. */
module JavaInteger {
  import opened Options

  const MIN_INT: int := -0x8000_0000
  const MAX_INT: int := 0x7fff_ffff

  /** The values of a Java `int`. */
  type int32 = x: int | -0x8000_0000 <= x <= 0x7fff_ffff

  predicate IsDigit(c: char) {
    '0' <= c <= '9'
  }

  predicate AllDigits(s: string) {
    forall i :: 0 <= i < |s| ==> IsDigit(s[i])
  }

  function DigitValue(c: char): (d: nat)
    requires IsDigit(c)
    ensures d < 10
  {
    c as int - '0' as int
  }

  function DigitChar(d: nat): (c: char)
    requires d < 10
    ensures IsDigit(c) && DigitValue(c) == d
  {
    ('0' as int + d) as char
  }

  /** The digits of `n`, most significant first, with no leading zero. */
  function Digits(n: nat): (s: string)
    ensures |s| >= 1 && AllDigits(s)
    ensures |s| > 1 ==> s[0] != '0'
  {
    if n < 10 then [DigitChar(n)] else Digits(n / 10) + [DigitChar(n % 10)]
  }

  /** The number a digit string denotes, read most significant first. */
  function DigitsValue(s: string): nat
    requires AllDigits(s)
  {
    if s == [] then 0 else DigitsValue(s[..|s| - 1]) * 10 + DigitValue(s[|s| - 1])
  }

  lemma {:induction false} DigitsRoundTrip(n: nat)
    ensures DigitsValue(Digits(n)) == n
  {
    if n >= 10 {
      DigitsRoundTrip(n / 10);
      var s := Digits(n);
      assert s[..|s| - 1] == Digits(n / 10);
    }
  }

  /** `Integer.toString(n)`: an optional minus sign, then the digits. */
  function ToDecimal(n: int): (s: string)
    ensures |s| >= 1 && (s[0] == '-' <==> n < 0)
    ensures var body := if n < 0 then s[1..] else s;
            && |body| >= 1 && AllDigits(body)
            && (|body| > 1 ==> body[0] != '0')
  {
    if n < 0 then "-" + Digits(-n) else Digits(n)
  }

  /** `Integer.parseInt(s)`: an optional `+` or `-`, then at least one digit,
      and a value within the range of `int`; anything else is a
      `NumberFormatException`, here `None`. */
  function ParseInt(s: string): (r: Option<int32>)
    ensures r.Some? ==> |s| >= 1 && (s[0] == '-' || s[0] == '+' || IsDigit(s[0]))
    ensures r.Some? ==> forall i :: 0 < i < |s| ==> IsDigit(s[i])
    ensures r.Some? ==> |s| >= 2 || IsDigit(s[0])
    ensures s == [] ==> r.None?
  {
    if s == [] then None
    else
      var body := if s[0] == '-' || s[0] == '+' then s[1..] else s;
      if body == [] || !AllDigits(body) then None
      else
        var v: int := if s[0] == '-' then 0 - DigitsValue(body) as int else DigitsValue(body);
        if MIN_INT <= v <= MAX_INT then Some(v) else None
  }

  /** What `Integer.toString` writes, `Integer.parseInt` reads back. */
  lemma ParseIntToDecimal(n: int32)
    ensures ParseInt(ToDecimal(n)) == Some(n)
  {
    var s := ToDecimal(n);
    if n < 0 {
      var body := Digits(-(n as int));
      DigitsRoundTrip(-(n as int));
      assert s[0] == '-' && s[1..] == body;
      assert body != [] && AllDigits(body);
      assert 0 - DigitsValue(body) as int == n;
    } else {
      DigitsRoundTrip(n);
      assert s == Digits(n) && IsDigit(s[0]);
      assert s[0] != '-' && s[0] != '+';
    }
  }

  /** Digits with or without a leading `+` give their value when it fits in
      an `int`, and are rejected when it does not; after a `-` they give the
      negated value when it fits. */
  lemma ParseIntOfDigits(d: string)
    requires d != [] && AllDigits(d)
    ensures ParseInt(d).Some? <==> DigitsValue(d) <= MAX_INT
    ensures ParseInt(d).Some? ==> ParseInt(d).value == DigitsValue(d)
    ensures ParseInt("+" + d) == ParseInt(d)
    ensures ParseInt("-" + d).Some? <==> DigitsValue(d) <= -MIN_INT
    ensures ParseInt("-" + d).Some? ==> ParseInt("-" + d).value == 0 - DigitsValue(d) as int
  {
    assert IsDigit(d[0]) && d[0] != '-' && d[0] != '+';
    assert ("+" + d)[0] == '+' && ("+" + d)[1..] == d;
    assert ("-" + d)[0] == '-' && ("-" + d)[1..] == d;
  }

  /** A leading zero does not change the value of a digit string. */
  lemma {:induction false} DigitsValueLeadingZero(d: string)
    requires AllDigits(d)
    ensures AllDigits(['0'] + d) && DigitsValue(['0'] + d) == DigitsValue(d)
    decreases |d|
  {
    var z := ['0'] + d;
    assert forall i :: 0 <= i < |z| ==> IsDigit(z[i]) by {
      forall i | 0 <= i < |z| ensures IsDigit(z[i]) {
        if i > 0 {
          assert z[i] == d[i - 1];
        }
      }
    }
    if d != [] {
      var front := d[..|d| - 1];
      assert z[..|z| - 1] == ['0'] + front;
      DigitsValueLeadingZero(front);
    }
  }

  /** `parseInt` ignores leading zeros: `"04"` reads as `4`. */
  lemma ParseIntLeadingZero(d: string)
    requires d != [] && AllDigits(d)
    ensures ParseInt(['0'] + d) == ParseInt(d)
  {
    DigitsValueLeadingZero(d);
    ParseIntOfDigits(d);
    ParseIntOfDigits(['0'] + d);
  }
}
