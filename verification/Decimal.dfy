/** Decimal strings: what `strconv.FormatInt` and `strconv.ParseInt` make of 64-bit integers. */
module Decimal {
  import opened Octets
  import opened Options

  function Pow10(k: nat): (p: int)
    ensures p >= 1
  {
    if k == 0 then 1 else 10 * Pow10(k - 1)
  }

  function Digit(d: nat): (c: char)
    requires d < 10
  {
    '0' + d as char
  }

  /** The digits of a natural number, without leading zeros. */
  function Digits(n: nat): (s: string)
    ensures s != []
    ensures s[0] != '-' && s[0] != '+'
    ensures forall i :: 0 <= i < |s| ==> '0' <= s[i] <= '9'
  {
    if n < 10 then [Digit(n)] else Digits(n / 10) + [Digit(n % 10)]
  }

  function FormatInt(x: int): (s: string) {
    if x < 0 then "-" + Digits(-x) else Digits(x)
  }

  /** The value of the first `k` characters, if they are all digits. */
  function ParseDigits(s: string, k: nat): (v: Option<nat>)
    requires k <= |s|
  {
    if k == 0 then Some(0)
    else
      var front := ParseDigits(s, k - 1);
      if front.None? || !('0' <= s[k - 1] <= '9') then None else Some(front.value * 10 + (s[k - 1] - '0') as nat)
  }

  /** A sign, then at least one digit, the value fitting an int64. */
  function ParseInt(s: string): (v: Option<int>) {
    var signed := s != [] && (s[0] == '-' || s[0] == '+');
    var body := if signed then s[1..] else s;
    if body == [] then None
    else
      var n := ParseDigits(body, |body|);
      if n.None? then None
      else
        var x: int := if signed && s[0] == '-' then 0 - n.value else n.value;
        if -TWO_TO_63 <= x < TWO_TO_63 then Some(x) else None
  }

  lemma {:induction false} ParseSame(s: string, t: string, k: nat)
    requires k <= |s| && k <= |t| && forall i :: 0 <= i < k ==> s[i] == t[i]
    ensures ParseDigits(s, k) == ParseDigits(t, k)
  {
    if k > 0 {
      ParseSame(s, t, k - 1);
    }
  }

  lemma {:induction false} ParseOfDigits(n: nat)
    ensures ParseDigits(Digits(n), |Digits(n)|) == Some(n)
  {
    var s := Digits(n);
    if n < 10 {
      assert ParseDigits(s, 0) == Some(0);
    } else {
      var front := Digits(n / 10);
      ParseOfDigits(n / 10);
      ParseSame(s, front, |front|);
      assert s[|front|] == Digit(n % 10) && (s[|front|] - '0') as nat == n % 10;
    }
  }

  /** A formatted integer parses back, exactly when it fits. */
  lemma ParseOfFormat(x: int)
    ensures ParseInt(FormatInt(x)) == Some(x) <==> -TWO_TO_63 <= x < TWO_TO_63
  {
    if x < 0 {
      ParseOfNegative(-x);
    } else {
      ParseOfDigits(x);
    }
  }

  lemma ParseOfNegative(n: int)
    requires n > 0
    ensures ParseInt("-" + Digits(n)) == if n <= TWO_TO_63 then Some(0 - n) else None
  {
    ParseOfDigits(n);
    assert ("-" + Digits(n))[1..] == Digits(n);
  }

  /** A positive number has as many digits as its size needs. */
  lemma {:induction false} DigitCount(n: nat)
    ensures n < Pow10(|Digits(n)|)
    ensures n > 0 ==> Pow10(|Digits(n)| - 1) <= n
  {
    if n < 10 {
      assert Pow10(1) == 10 * Pow10(0);
    } else {
      DigitCount(n / 10);
      assert |Digits(n)| == |Digits(n / 10)| + 1;
    }
  }
}
