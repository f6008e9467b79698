/** Python's `str(n)` / `"%d" % n` and `int(s)` for base-10 text. */
module Numerals {
  import opened Strings
  import opened Optional

  function DigitChar(d: nat): (c: char)
    requires d < 10
    ensures IsDigit(c) && c as int - '0' as int == d
  {
    ('0' as int + d) as char
  }

  function DigitValue(c: char): (d: nat)
    requires IsDigit(c)
    ensures d < 10 && DigitChar(d) == c
  {
    c as int - '0' as int
  }

  /** `str(n)` for a non-negative `n`: decimal digits, no leading zero. */
  function NatToString(n: nat): (s: string)
    ensures |s| >= 1 && AllDigits(s)
    ensures |s| > 1 ==> s[0] != '0'
  {
    if n < 10 then [DigitChar(n)] else NatToString(n / 10) + [DigitChar(n % 10)]
  }

  /** `str(n)`: a minus sign in front of the digits of a negative number. */
  function IntToString(n: int): (s: string)
    ensures |s| >= 1
    ensures n < 0 <==> s[0] == '-'
  {
    if n < 0 then "-" + NatToString(-n) else NatToString(n)
  }

  /** The value of a string of decimal digits, leading zeros allowed. */
  function DigitsToNat(s: string): nat
    requires AllDigits(s)
  {
    if s == [] then 0 else DigitsToNat(s[..|s| - 1]) * 10 + DigitValue(s[|s| - 1])
  }

  lemma {:induction false} DigitsOfNat(n: nat)
    ensures DigitsToNat(NatToString(n)) == n
  {
    var s := NatToString(n);
    if n >= 10 {
      DigitsOfNat(n / 10);
      assert s[..|s| - 1] == NatToString(n / 10);
    }
  }

  lemma NatToStringInjective(a: nat, b: nat)
    requires NatToString(a) == NatToString(b)
    ensures a == b
  {
    DigitsOfNat(a);
    DigitsOfNat(b);
  }

  /** Distinct numbers print differently, so `str(int(x))` is a faithful key. */
  lemma IntToStringInjective(a: int, b: int)
    requires IntToString(a) == IntToString(b)
    ensures a == b
  {
    var s := IntToString(a);
    if a < 0 {
      assert b < 0 by {
        assert s[0] == '-';
      }
      assert s[1..] == NatToString(-a);
      assert IntToString(b)[1..] == NatToString(-b);
      NatToStringInjective(-a, -b);
    } else {
      assert b >= 0 by {
        assert s[0] != '-';
      }
      NatToStringInjective(a, b);
    }
  }

  /** The body of a base-10 literal as Python's `int()` accepts it: digits,
      with single underscores allowed between two digits. */
  predicate IsDigitGroup(s: string) {
    |s| > 0 && IsDigit(s[0]) && IsDigit(s[|s| - 1])
    && (forall i :: 0 <= i < |s| ==> IsDigit(s[i]) || s[i] == '_')
    && (forall i :: 0 <= i < |s| - 1 ==> !(s[i] == '_' && s[i + 1] == '_'))
  }

  function DropUnderscores(s: string): (r: string)
    requires forall i :: 0 <= i < |s| ==> IsDigit(s[i]) || s[i] == '_'
    ensures AllDigits(r)
  {
    if s == [] then [] else (if s[0] == '_' then [] else [s[0]]) + DropUnderscores(s[1..])
  }

  /** `int(s)`: `None` stands for the ValueError Python raises. Surrounding
      whitespace and one sign are allowed. */
  function ParseInt(s: string): (r: Option<int>)
    ensures r.Some? ==> Strip(s) != []
  {
    var t := Strip(s);
    if t == [] then None
    else
      var neg := t[0] == '-';
      var body := if t[0] == '-' || t[0] == '+' then t[1..] else t;
      if !IsDigitGroup(body) then None
      else
        var v: int := DigitsToNat(DropUnderscores(body));
        Some(if neg then -v else v)
  }

  lemma {:induction false} DropUnderscoresOfDigits(s: string)
    requires AllDigits(s)
    ensures DropUnderscores(s) == s
  {
    if s != [] {
      DropUnderscoresOfDigits(s[1..]);
    }
  }

  lemma StripUnspaced(s: string)
    requires |s| >= 1 && !IsSpace(s[0]) && !IsSpace(s[|s| - 1])
    ensures Strip(s) == s
  {
    assert LStrip(s) == s;
    assert RStrip(s) == s;
  }

  /** What `int()` does with a string that has no surrounding whitespace. */
  lemma ParseUnspaced(s: string)
    requires |s| >= 1 && !IsSpace(s[0]) && !IsSpace(s[|s| - 1])
    ensures ParseInt(s) ==
      var body := if s[0] == '-' || s[0] == '+' then s[1..] else s;
      if !IsDigitGroup(body) then None
      else Some(if s[0] == '-' then -(DigitsToNat(DropUnderscores(body)) as int) else DigitsToNat(DropUnderscores(body)))
  {
    StripUnspaced(s);
  }

  lemma ParseNatString(n: nat)
    ensures ParseInt(NatToString(n)) == Some(n)
  {
    var s := NatToString(n);
    assert !IsSpace(s[0]) && !IsSpace(s[|s| - 1]);
    assert IsDigitGroup(s);
    assert s[0] != '-' && s[0] != '+';
    ParseUnspaced(s);
    DropUnderscoresOfDigits(s);
    DigitsOfNat(n);
  }

  lemma ParseNegativeString(n: int)
    requires n < 0
    ensures ParseInt(IntToString(n)) == Some(n)
  {
    var m: nat := -n;
    var d := NatToString(m);
    DigitsOfNat(m);
    ParseMinusDigits(d);
    assert IntToString(n) == "-" + d;
  }

  /** A minus sign and then digits reads as the negated digits. */
  lemma ParseMinusDigits(d: string)
    requires d != [] && AllDigits(d)
    ensures ParseInt("-" + d) == Some(-(DigitsToNat(d) as int))
  {
    MinusDigitsShape(d);
    ParseMinusBody("-" + d, d);
  }

  /** What `int()` does with a minus sign and then digits. */
  lemma ParseMinusBody(s: string, body: string)
    requires |s| >= 1 && s[0] == '-' && s[1..] == body
    requires !IsSpace(s[0]) && !IsSpace(s[|s| - 1]) && body != [] && AllDigits(body)
    ensures ParseInt(s) == Some(-(DigitsToNat(body) as int))
  {
    DigitsAreGroup(body);
    DropUnderscoresOfDigits(body);
    StripUnspaced(s);
  }

  lemma MinusDigitsShape(d: string)
    requires d != [] && AllDigits(d)
    ensures var s := "-" + d;
      |s| >= 1 && s[0] == '-' && s[1..] == d && !IsSpace(s[0]) && !IsSpace(s[|s| - 1])
  {
    var s := "-" + d;
    assert s[|s| - 1] == d[|d| - 1];
    DigitNotSpace(d[|d| - 1]);
  }

  lemma DigitNotSpace(c: char)
    requires IsDigit(c)
    ensures !IsSpace(c)
  {
  }

  lemma DigitsAreGroup(d: string)
    requires d != [] && AllDigits(d)
    ensures IsDigitGroup(d)
  {
  }

  /** `int(str(n)) == n` */
  lemma ParseIntOfString(n: int)
    ensures ParseInt(IntToString(n)) == Some(n)
  {
    if n < 0 {
      ParseNegativeString(n);
    } else {
      ParseNatString(n);
    }
  }

  /** A string of `k` zeros. */
  function Zeros(k: nat): (z: string)
    ensures |z| == k && forall i :: 0 <= i < k ==> z[i] == '0'
  {
    if k == 0 then [] else Zeros(k - 1) + "0"
  }

  lemma {:induction false} DigitsAfterZeros(k: nat, d: string)
    requires AllDigits(d)
    ensures DigitsToNat(Zeros(k) + d) == DigitsToNat(d)
  {
    if d == [] {
      assert Zeros(k) + d == Zeros(k);
      if k > 0 {
        assert Zeros(k)[..k - 1] == Zeros(k - 1);
        DigitsAfterZeros(k - 1, d);
        assert Zeros(k - 1) + d == Zeros(k - 1);
      }
    } else {
      var t := Zeros(k) + d;
      assert t[..|t| - 1] == Zeros(k) + d[..|d| - 1];
      DigitsAfterZeros(k, d[..|d| - 1]);
    }
  }

  /** `int()` ignores leading zeros: `int("0042") == 42`. */
  lemma LeadingZerosParse(k: nat, n: nat)
    ensures ParseInt(Zeros(k) + NatToString(n)) == Some(n)
  {
    var d := NatToString(n);
    var s := Zeros(k) + d;
    if k == 0 {
      assert s == d;
      ParseNatString(n);
    } else {
      assert s[0] == '0' && s[|s| - 1] == d[|d| - 1];
      assert !IsSpace(s[0]) && !IsSpace(s[|s| - 1]);
      assert s[0] != '-' && s[0] != '+';
      assert AllDigits(s);
      assert IsDigitGroup(s);
      ParseUnspaced(s);
      DropUnderscoresOfDigits(s);
      DigitsAfterZeros(k, d);
      DigitsOfNat(n);
    }
  }
}
