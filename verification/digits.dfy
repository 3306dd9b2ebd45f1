/**
  Numerals in bases 2 to 16 and the unsigned integer conversions of C's printf
  (`%b`, `%o`, `%u`, `%x`) with an explicit precision: the value is written with
  as few digits as it needs (none at all for zero) and padded on the left with
  zeros up to the precision, using the lower-case letters `a`-`f` above nine.
*/
module Digits {
  import opened Wrappers
  import opened Arith

  /** `b` raised to the power `e`. */
  function Pow(b: nat, e: nat): (r: nat)
    ensures b >= 1 ==> r >= 1
  {
    if e == 0 then 1 else b * Pow(b, e - 1)
  }

  /** A base the conversions support. */
  predicate ValidBase(b: nat) {
    2 <= b <= 16
  }

  /** The characters a conversion may produce: `0`-`9` and lower-case `a`-`f`. */
  predicate IsLowerHexChar(c: char) {
    '0' <= c <= '9' || 'a' <= c <= 'f'
  }

  /** The character printf writes for a digit value below sixteen. */
  function DigitChar(d: nat): (c: char)
    requires d < 16
    ensures IsLowerHexChar(c)
  {
    if d < 10 then ('0' as int + d) as char else ('a' as int + (d - 10)) as char
  }

  /** The value of a digit character, or None for anything that is not `0`-`9` or `a`-`f`. */
  function DigitValue(c: char): (r: Option<nat>)
    ensures r.Some? <==> IsLowerHexChar(c)
  {
    if '0' <= c <= '9' then Some(c as int - '0' as int)
    else if 'a' <= c <= 'f' then Some(c as int - 'a' as int + 10)
    else None
  }

  /** DigitChar and DigitValue are inverse to each other. */
  lemma DigitInverse(d: nat, c: char)
    requires d < 16
    ensures DigitValue(DigitChar(d)) == Some(d)
    ensures DigitValue(c) == Some(d) ==> DigitChar(d) == c
  {
  }

  /** `c` is a digit of base `b`. */
  predicate IsDigit(c: char, b: nat) {
    DigitValue(c).Some? && DigitValue(c).value < b
  }

  /** Every character of `s` is a digit of base `b`. */
  predicate IsNumeral(s: string, b: nat) {
    forall j :: 0 <= j < |s| ==> IsDigit(s[j], b)
  }

  /** The binary digits are `0` and `1`. */
  lemma BinaryDigit(c: char)
    ensures IsDigit(c, 2) <==> c == '0' || c == '1'
  {
  }

  /** The hexadecimal digits are `0`-`9` and `a`-`f`. */
  lemma HexDigit(c: char)
    ensures IsDigit(c, 16) <==> IsLowerHexChar(c)
  {
  }

  /** A numeral followed by one more digit is a numeral. */
  lemma NumeralAppend(s: string, c: char, b: nat)
    requires IsNumeral(s, b) && IsDigit(c, b)
    ensures IsNumeral(s + [c], b)
  {
  }

  /** The low `w` digits of `v` in base `b`, most significant first, zero-padded. */
  function Fixed(v: nat, b: nat, w: nat): (s: string)
    requires ValidBase(b)
    ensures |s| == w
    decreases w
  {
    if w == 0 then ""
    else
      DivMod(v, b);
      Fixed(v / b, b, w - 1) + [DigitChar(v % b)]
  }

  /** The fixed-width digits use only digits of the base. */
  lemma {:induction false} FixedNumeral(v: nat, b: nat, w: nat)
    requires ValidBase(b)
    ensures IsNumeral(Fixed(v, b, w), b)
    decreases w
  {
    if w > 0 {
      DivMod(v, b);
      DigitInverse(v % b, ' ');
      FixedNumeral(v / b, b, w - 1);
      NumeralAppend(Fixed(v / b, b, w - 1), DigitChar(v % b), b);
    }
  }

  /** The digits of `v` in base `b` without leading zeros; zero has none. */
  function Minimal(v: nat, b: nat): string
    requires ValidBase(b)
    decreases v
  {
    if v == 0 then ""
    else
      DivMod(v, b);
      DivShrinks(v, b);
      Minimal(v / b, b) + [DigitChar(v % b)]
  }

  /** The minimal digits are digits of the base, and the first of them is never `0`. */
  lemma {:induction false} MinimalNumeral(v: nat, b: nat)
    requires ValidBase(b)
    ensures IsNumeral(Minimal(v, b), b)
    ensures |Minimal(v, b)| > 0 ==> Minimal(v, b)[0] != '0'
    decreases v
  {
    if v > 0 {
      DivMod(v, b);
      DivShrinks(v, b);
      var high, d := Minimal(v / b, b), v % b;
      MinimalNumeral(v / b, b);
      DigitInverse(d, ' ');
      NumeralAppend(high, DigitChar(d), b);
      if |high| == 0 {
        assert v / b == 0;
        assert d == v;
      } else {
        assert (high + [DigitChar(d)])[0] == high[0];
      }
    }
  }

  /** `n` zero characters. */
  function Zeros(n: nat): (s: string)
    ensures |s| == n
    ensures forall j :: 0 <= j < n ==> s[j] == '0'
  {
    seq(n, _ => '0')
  }

  /**
    The text of printf's unsigned conversion of `v` in base `b` with precision `p`:
    the minimal digits, padded with leading zeros to at least `p` characters.
  */
  function Convert(v: nat, b: nat, p: nat): (s: string)
    requires ValidBase(b)
    ensures |s| >= p
  {
    var m := Minimal(v, b);
    Zeros(if |m| < p then p - |m| else 0) + m
  }

  /** The value of a numeral in base `b`, or None when some character is not a digit of that base. */
  function Parse(s: string, b: nat): Option<nat>
    requires ValidBase(b)
  {
    if |s| == 0 then Some(0)
    else
      var c := s[|s| - 1];
      match Parse(s[..|s| - 1], b)
      case None => None
      case Some(h) => if IsDigit(c, b) then Some(h * b + DigitValue(c).value) else None
  }

  /** Parse succeeds exactly on numerals of the base. */
  lemma {:induction false} ParseNumeral(s: string, b: nat)
    requires ValidBase(b)
    ensures Parse(s, b).Some? <==> IsNumeral(s, b)
    decreases |s|
  {
    if |s| > 0 {
      var init := s[..|s| - 1];
      ParseNumeral(init, b);
      assert s == init + [s[|s| - 1]];
      if IsNumeral(s, b) {
        assert forall j :: 0 <= j < |init| ==> init[j] == s[j];
      }
    }
  }

  /** One step of Parse: the value of a numeral is the value of all but its last digit, times the base, plus that digit. */
  lemma ParseLast(s: string, b: nat)
    requires ValidBase(b) && |s| > 0
    requires Parse(s[..|s| - 1], b).Some? && IsDigit(s[|s| - 1], b)
    ensures Parse(s, b) == Some(Parse(s[..|s| - 1], b).value * b + DigitValue(s[|s| - 1]).value)
  {
  }

  /** Reading back the fixed-width digits of a value that fits gives the value. */
  lemma {:induction false} ParseFixed(v: nat, b: nat, w: nat)
    requires ValidBase(b) && v < Pow(b, w)
    ensures Parse(Fixed(v, b, w), b) == Some(v)
    decreases w
  {
    if w > 0 {
      DivBelow(v, b, Pow(b, w - 1));
      DivMod(v, b);
      var high, d := v / b, v % b;
      ParseFixed(high, b, w - 1);
      DigitInverse(d, ' ');
      var s, init := Fixed(v, b, w), Fixed(high, b, w - 1);
      assert s == init + [DigitChar(d)];
      assert s[..|s| - 1] == init;
      ParseLast(s, b);
      assert Parse(s, b) == Some(high * b + d);
    }
  }

  /** A numeral is the fixed-width rendering of its own value: digit strings and values correspond one to one. */
  lemma {:induction false} FixedOfParse(s: string, b: nat)
    requires ValidBase(b) && Parse(s, b).Some?
    ensures Fixed(Parse(s, b).value, b, |s|) == s
  {
    if |s| > 0 {
      var init, c := s[..|s| - 1], s[|s| - 1];
      var h, d := Parse(init, b).value, DigitValue(c).value;
      FixedOfParse(init, b);
      DivModUnique(h, d, b);
      DigitInverse(d, c);
      assert s == init + [c];
    }
  }

  /** Leading zeros do not change the value of a numeral. */
  lemma {:induction false} ParseZerosPrefix(n: nat, s: string, b: nat)
    requires ValidBase(b)
    ensures Parse(Zeros(n) + s, b) == Parse(s, b)
    decreases |s|
  {
    if |s| == 0 {
      ParseZeros(n, b);
      assert Zeros(n) + s == Zeros(n);
    } else {
      ParseZerosPrefix(n, s[..|s| - 1], b);
      assert (Zeros(n) + s)[..|Zeros(n) + s| - 1] == Zeros(n) + s[..|s| - 1];
    }
  }

  lemma {:induction false} ParseZeros(n: nat, b: nat)
    requires ValidBase(b)
    ensures Parse(Zeros(n), b) == Some(0)
  {
    if n > 0 {
      ParseZeros(n - 1, b);
      assert Zeros(n)[..n - 1] == Zeros(n - 1);
    }
  }

  /** The minimal digits denote the value. */
  lemma {:induction false} ParseMinimal(v: nat, b: nat)
    requires ValidBase(b)
    ensures Parse(Minimal(v, b), b) == Some(v)
    decreases v
  {
    if v > 0 {
      DivShrinks(v, b);
      ParseMinimal(v / b, b);
      DigitInverse(v % b, ' ');
      var m := Minimal(v, b);
      assert m[..|m| - 1] == Minimal(v / b, b);
      assert DigitValue(m[|m| - 1]) == Some(v % b);
      ParseLast(m, b);
      DivMod(v, b);
    }
  }

  /** The minimal digits are no longer than any width the value fits in. */
  lemma {:induction false} MinimalFits(v: nat, b: nat, w: nat)
    requires ValidBase(b) && v < Pow(b, w)
    ensures |Minimal(v, b)| <= w
    decreases w
  {
    if v > 0 {
      assert w > 0;
      DivMod(v, b);
      DivBelow(v, b, Pow(b, w - 1));
      MinimalFits(v / b, b, w - 1);
      assert Minimal(v, b) == Minimal(v / b, b) + [DigitChar(v % b)];
    }
  }

  /**
    printf's conversion with precision `p` of a value below `b^p` is exactly the
    `p`-digit zero-padded numeral of that value: the precision is an exact width.
  */
  lemma ConvertExact(v: nat, b: nat, p: nat)
    requires ValidBase(b) && v < Pow(b, p)
    ensures Convert(v, b, p) == Fixed(v, b, p)
  {
    var m := Minimal(v, b);
    MinimalFits(v, b, p);
    ParseMinimal(v, b);
    var s := Convert(v, b, p);
    assert s == Zeros(p - |m|) + m;
    ParseZerosPrefix(p - |m|, m, b);
    FixedOfParse(s, b);
  }

  /** The numeral of the largest `w`-digit value consists of `w` copies of the largest digit. */
  lemma {:induction false} FixedAllMax(b: nat, w: nat)
    requires ValidBase(b)
    ensures Fixed(Pow(b, w) - 1, b, w) == seq(w, _ => DigitChar(b - 1))
  {
    if w > 0 {
      var q := Pow(b, w - 1) - 1;
      assert Pow(b, w) - 1 == q * b + (b - 1);
      DivModUnique(q, b - 1, b);
      FixedAllMax(b, w - 1);
    }
  }

  /** Exponents add under multiplication of powers. */
  lemma {:induction false} PowAdd(b: nat, x: nat, y: nat)
    ensures Pow(b, x + y) == Pow(b, x) * Pow(b, y)
    decreases y
  {
    if y > 0 {
      PowAdd(b, x, y - 1);
      assert Pow(b, x + y) == b * Pow(b, x + y - 1);
      MulRotate(b, Pow(b, x), Pow(b, y - 1));
    }
  }

  /** Appending numerals shifts the first by the width of the second. */
  lemma {:induction false} ParseAppend(s1: string, s2: string, b: nat)
    requires ValidBase(b) && Parse(s1, b).Some? && Parse(s2, b).Some?
    ensures Parse(s1 + s2, b) == Some(Parse(s1, b).value * Pow(b, |s2|) + Parse(s2, b).value)
    decreases |s2|
  {
    if |s2| > 0 {
      var init, last := s2[..|s2| - 1], s2[|s2| - 1];
      ParseAppend(s1, init, b);
      var x1, xi, d := Parse(s1, b).value, Parse(init, b).value, DigitValue(last).value;
      var P := Pow(b, |init|);
      var lead := x1 * P + xi;
      assert Parse(s1 + init, b) == Some(lead);
      assert (s1 + s2)[..|s1 + s2| - 1] == s1 + init && (s1 + s2)[|s1 + s2| - 1] == last;
      ParseLast(s2, b);
      ParseLast(s1 + s2, b);
      assert Parse(s1 + s2, b) == Some(lead * b + d);
      assert Parse(s2, b) == Some(xi * b + d);
      assert Pow(b, |s2|) == b * P;
      ShiftDigit(lead * b + d, x1, P, xi, b, d, xi * b + d, b * P);
    } else {
      assert s1 + s2 == s1;
    }
  }

  /**
    Splitting off the last byte: when `p` digits of base `b` hold exactly one byte,
    the `w + p`-digit numeral of `v` is the `w`-digit numeral of `v / 256` followed by
    the `p`-digit numeral of `v % 256`.
  */
  lemma SplitLowByte(v: nat, b: nat, w: nat, p: nat)
    requires ValidBase(b) && Pow(b, p) == 256 && v < Pow(b, w + p)
    ensures Fixed(v, b, w + p) == Fixed(v / 256, b, w) + Fixed(v % 256, b, p)
  {
    PowAdd(b, w, p);
    DivBelow(v, 256, Pow(b, w));
    var hi, lo := Fixed(v / 256, b, w), Fixed(v % 256, b, p);
    ParseFixed(v / 256, b, w);
    ParseFixed(v % 256, b, p);
    ParseAppend(hi, lo, b);
    FixedOfParse(hi + lo, b);
  }

  /** Nesting exponents multiplies them. */
  lemma {:induction false} PowMul(b: nat, p: nat, n: nat)
    ensures Pow(b, Times(n, p)) == Pow(Pow(b, p), n)
  {
    if n > 0 {
      var e := Times(n - 1, p);
      PowMul(b, p, n - 1);
      PowAdd(b, e, p);
      var x, y := Pow(b, e), Pow(b, p);
      assert Pow(b, Times(n, p)) == x * y;
      assert Pow(y, n) == y * x;
    }
  }
}
