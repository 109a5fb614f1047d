/** Decimal text of C# `int`: `int.ToString()` (used by string interpolation)
    and `int.TryParse(string, out int)` with its default `NumberStyles.Integer`. */
module Decimal {
  import opened Wrappers
  import opened Int32

  predicate IsDigit(c: char) { '0' <= c <= '9' }

  predicate AllDigits(s: string) { forall i :: 0 <= i < |s| ==> IsDigit(s[i]) }

  /** The white space `NumberStyles.AllowLeadingWhite` / `AllowTrailingWhite` skip. */
  predicate IsWhite(c: char) { c == ' ' || '\t' <= c <= '\r' }

  function DigitChar(d: nat): (c: char)
    requires d < 10
    ensures IsDigit(c)
  {
    ('0' as int + d) as char
  }

  function DigitValue(c: char): nat
    requires IsDigit(c)
  {
    c as int - '0' as int
  }

  /** The digits of `n`, most significant first, without leading zeros. */
  function Digits(n: nat): string
    decreases n
  {
    if n < 10 then [DigitChar(n)] else Digits(n / 10) + [DigitChar(n % 10)]
  }

  /** `n.ToString()` under the invariant culture: a minus sign, then the digits. */
  function Show(n: int): string
  {
    if n < 0 then "-" + Digits(-n) else Digits(n)
  }

  /** The number a string of digits denotes (leading zeros allowed). */
  function ValueOf(s: string): nat
    requires AllDigits(s)
    decreases |s|
  {
    if |s| == 0 then 0 else ValueOf(s[..|s| - 1]) * 10 + DigitValue(s[|s| - 1])
  }

  function TrimStart(s: string): string
    decreases |s|
  {
    if |s| > 0 && IsWhite(s[0]) then TrimStart(s[1..]) else s
  }

  function TrimEnd(s: string): string
    decreases |s|
  {
    if |s| > 0 && IsWhite(s[|s| - 1]) then TrimEnd(s[..|s| - 1]) else s
  }

  /** The signed number a trimmed string denotes: an optional sign followed by
      at least one digit. */
  function SignedValue(t: string): Option<int>
  {
    var negative := |t| > 0 && t[0] == '-';
    var body := if |t| > 0 && (t[0] == '-' || t[0] == '+') then t[1..] else t;
    if |body| == 0 || !AllDigits(body) then None
    else if negative then Some(-(ValueOf(body) as int))
    else Some(ValueOf(body) as int)
  }

  /** `int.TryParse(s, out n)`: optional surrounding white space, an optional
      sign, at least one ASCII digit and a value inside the `int` range;
      anything else is `None` (the C# call returns false and never throws). */
  function TryParse(s: string): Option<I32>
  {
    match SignedValue(TrimEnd(TrimStart(s)))
    case Some(v) => if Min <= v <= Max then Some(v) else None
    case None => None
  }

  lemma {:induction false} DigitsAreDigits(n: nat)
    ensures |Digits(n)| > 0 && AllDigits(Digits(n))
    decreases n
  {
    if n >= 10 {
      DigitsAreDigits(n / 10);
    }
  }

  lemma {:induction false} ValueOfDigits(n: nat)
    ensures AllDigits(Digits(n)) && ValueOf(Digits(n)) == n
    decreases n
  {
    DigitsAreDigits(n);
    var s := Digits(n);
    if n < 10 {
      assert s[..0] == [];
    } else {
      ValueOfDigits(n / 10);
      assert s[..|s| - 1] == Digits(n / 10);
    }
  }

  /** The printed form of a number has no white space, no separator and
      consists of digits after an optional leading minus. */
  lemma ShowShape(n: int)
    ensures |Show(n)| > 0
    ensures IsDigit(Show(n)[|Show(n)| - 1])
    ensures n < 0 ==> Show(n)[0] == '-' && Show(n)[1..] == Digits(-n)
    ensures n >= 0 ==> Show(n) == Digits(n)
    ensures forall i :: 0 <= i < |Show(n)| ==> IsDigit(Show(n)[i]) || Show(n)[i] == '-'
  {
    if n < 0 { DigitsAreDigits(-n); } else { DigitsAreDigits(n); }
  }

  /** The printed form survives white-space trimming unchanged. */
  lemma TrimShow(n: int)
    ensures TrimEnd(TrimStart(Show(n))) == Show(n)
  {
    var s := Show(n);
    ShowShape(n);
    assert !IsWhite(s[0]);
    assert TrimStart(s) == s;
    assert !IsWhite(s[|s| - 1]);
  }

  lemma SignedValueOfShow(n: int)
    ensures SignedValue(Show(n)) == Some(n)
  {
    var s := Show(n);
    ShowShape(n);
    if n < 0 {
      ValueOfDigits(-n);
      assert s[0] == '-' && s[1..] == Digits(-n);
      assert ValueOf(s[1..]) == -n;
    } else {
      ValueOfDigits(n);
      assert s == Digits(n) && IsDigit(s[0]);
      assert ValueOf(s) == n;
    }
  }

  /** Round trip: parsing the printed form of any `int` gives it back. */
  lemma ParseShow(n: I32)
    ensures TryParse(Show(n)) == Some(n)
  {
    TrimShow(n);
    SignedValueOfShow(n);
  }

  /** Distinct `int`s print differently. */
  lemma ShowInjective(a: I32, b: I32)
    requires Show(a) == Show(b)
    ensures a == b
  {
    ParseShow(a);
    ParseShow(b);
  }
}
