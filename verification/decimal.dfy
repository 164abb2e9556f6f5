/** Swift's `String(Int)` and `Int(String)`: decimal text of a 64-bit integer. */
module Decimal {
  import opened Wrappers
  import opened Json

  predicate IsDigit(c: char) {
    '0' <= c <= '9'
  }

  predicate AllDigits(s: string) {
    forall i :: 0 <= i < |s| ==> IsDigit(s[i])
  }

  function DigitChar(d: nat): (c: char)
    requires d < 10
    ensures IsDigit(c)
  {
    ('0' as int + d) as char
  }

  function DigitValue(c: char): (d: nat)
    requires IsDigit(c)
    ensures d < 10
  {
    c as int - '0' as int
  }

  /** The decimal digits of `n`, most significant first, with no leading zero. */
  function Digits(n: nat): (s: string)
    ensures |s| > 0 && AllDigits(s)
    ensures n > 0 || |s| > 1 ==> s[0] != '0'
  {
    if n < 10 then [DigitChar(n)] else Digits(n / 10) + [DigitChar(n % 10)]
  }

  /** The number a non-empty run of decimal digits denotes. */
  function ValueOf(s: string): nat
    requires AllDigits(s)
  {
    if |s| == 0 then 0 else ValueOf(s[..|s| - 1]) * 10 + DigitValue(s[|s| - 1])
  }

  lemma {:induction false} ValueOfDigits(n: nat)
    ensures ValueOf(Digits(n)) == n
  {
    var s := Digits(n);
    if n >= 10 {
      ValueOfDigits(n / 10);
      assert s[..|s| - 1] == Digits(n / 10);
      assert DigitValue(s[|s| - 1]) == n % 10;
    }
  }

  /** `String(n)`: an optional minus sign followed by the digits of |n|. The
      text is canonical: a minus sign only for a negative number, and no
      leading zero except in "0" itself. */
  function FormatInt(n: int): (s: string)
    ensures |s| > 0
    ensures n >= 0 ==> AllDigits(s) && ValueOf(s) == n
    ensures n < 0 ==> s[0] == '-' && AllDigits(s[1..]) && ValueOf(s[1..]) == -n
    ensures n == 0 <==> s == "0"
    ensures s[0] == '0' ==> |s| == 1
    ensures n < 0 ==> |s| > 1 && s[1] != '0'
  {
    if n < 0 then
      ValueOfDigits(-n);
      assert ("-" + Digits(-n))[1..] == Digits(-n);
      "-" + Digits(-n)
    else
      ValueOfDigits(n);
      Digits(n)
  }

  /** The text has a leading minus sign. */
  predicate Negative(s: string) {
    |s| > 0 && s[0] == '-'
  }

  /** The text after one optional leading `+` or `-`. */
  function Unsigned(s: string): (u: string)
    ensures |s| > 0 && (s[0] == '-' || s[0] == '+') ==> u == s[1..]
    ensures |s| == 0 || (s[0] != '-' && s[0] != '+') ==> u == s
  {
    if |s| > 0 && (s[0] == '-' || s[0] == '+') then s[1..] else s
  }

  /** `Int(s)`: an optional `+` or `-` sign followed by at least one decimal
      digit and nothing else, whose value fits in 64 bits; anything else is nil.
      Leading zeros are allowed. */
  function ParseInt(s: string): (r: Option<Int64>)
    ensures r.Some? <==>
              && |Unsigned(s)| > 0 && AllDigits(Unsigned(s))
              && (if Negative(s) then ValueOf(Unsigned(s)) <= -INT64_MIN else ValueOf(Unsigned(s)) <= INT64_MAX)
    ensures r.Some? ==> r.value == if Negative(s) then -(ValueOf(Unsigned(s)) as int) else ValueOf(Unsigned(s))
  {
    var body := Unsigned(s);
    if |body| == 0 || !AllDigits(body) then None
    else
      var v: int := ValueOf(body);
      var n := if Negative(s) then -v else v;
      if INT64_MIN <= n <= INT64_MAX then Some(n) else None
  }

  /** Formatting a 64-bit integer and parsing the text back gives the integer. */
  lemma ParseFormat(n: Int64)
    ensures ParseInt(FormatInt(n)) == Some(n)
  {
    var s := FormatInt(n);
    if n < 0 {
      ValueOfDigits(-(n as int));
      assert s[1..] == Digits(-(n as int));
    } else {
      ValueOfDigits(n);
    }
  }

  lemma NotANumber()
    ensures ParseInt("abc") == None
    ensures ParseInt("") == None
    ensures ParseInt("-") == None
    ensures ParseInt("2019") == Some(2019)
    ensures ParseInt("-7") == Some(-7)
  {
    assert !IsDigit('a');
    assert ValueOf("2") == 2;
    assert "2019"[..3] == "201";
    assert "201"[..2] == "20";
    assert "20"[..1] == "2";
    assert "-7"[1..] == "7";
  }

  /** A `+` sign and leading zeros are accepted: "+135" and "007" are numbers. */
  lemma SignAndLeadingZeros()
    ensures ParseInt("+135") == Some(135)
    ensures ParseInt("007") == Some(7)
    ensures ParseInt("+-1") == None
  {
    assert "+135"[1..] == "135";
    assert "135"[..2] == "13" && "13"[..1] == "1";
    assert ValueOf("1") == 1 && ValueOf("13") == 13 && ValueOf("135") == 135;
    assert "007"[..2] == "00" && "00"[..1] == "0";
    assert "+-1"[1..] == "-1";
    assert !IsDigit('-');
  }
}
