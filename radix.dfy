/**
 * Unsigned integers as digit strings: parsing as Rust's `uN::from_str_radix` does, and
 * rendering as the `{:0Wx}` (lower-case hexadecimal) and `{:0W}` (decimal) format specs
 * do, zero-padded to a minimum width W.
 */
module Radix {
  import opened Wrappers

  /** The error kinds `from_str_radix` reports for an unsigned target type. */
  datatype IntErrorKind = Empty | InvalidDigit | PosOverflow

  function Pow(base: nat, k: nat): (p: nat)
    requires base >= 1
    ensures p >= 1
  {
    if k == 0 then 1 else base * Pow(base, k - 1)
  }

  /**
   * The value of a character as a digit, as `char::to_digit` reads it: `0`-`9`, then the
   * letters of either case from 10 upwards; 36 for anything that is no digit in any radix.
   */
  function DigitValue(c: char): (d: nat)
    ensures d <= 36
  {
    if '0' <= c <= '9' then c as nat - '0' as nat
    else if 'a' <= c <= 'z' then c as nat - 'a' as nat + 10
    else if 'A' <= c <= 'Z' then c as nat - 'A' as nat + 10
    else 36
  }

  predicate IsDigit(c: char, radix: nat) {
    DigitValue(c) < radix
  }

  predicate AllDigits(s: string, radix: nat) {
    forall i :: 0 <= i < |s| ==> IsDigit(s[i], radix)
  }

  predicate IsLowerHexDigit(c: char) {
    '0' <= c <= '9' || 'a' <= c <= 'f'
  }

  /** The positional value of a digit string, most significant digit first. */
  function Value(s: string, radix: nat): nat
    requires AllDigits(s, radix)
    decreases |s|
  {
    if s == [] then 0 else Value(s[..|s| - 1], radix) * radix + DigitValue(s[|s| - 1])
  }

  // ---------------------------------------------------------------------------------
  // Parsing
  // ---------------------------------------------------------------------------------

  /**
   * The digit loop of `from_str_radix`: digits are consumed from the left into `acc`;
   * a character that is no digit fails with InvalidDigit, and a step whose new value
   * exceeds `bound` (the target type's maximum) fails with PosOverflow. At each character
   * the digit check comes first, so the earlier of the two failures is the one reported.
   */
  function ParseDigits(digits: string, radix: nat, bound: nat, acc: nat): Result<nat, IntErrorKind>
    requires 2 <= radix <= 36
    decreases |digits|
  {
    if digits == [] then Ok(acc)
    else if !IsDigit(digits[0], radix) then Err(InvalidDigit)
    else if acc * radix + DigitValue(digits[0]) > bound then Err(PosOverflow)
    else ParseDigits(digits[1..], radix, bound, acc * radix + DigitValue(digits[0]))
  }

  /** What `from_str_radix` reads as digits for an unsigned type: all after a leading `+`. */
  function Magnitude(src: string): string {
    if |src| > 0 && src[0] == '+' then src[1..] else src
  }

  /**
   * The texts `from_str_radix` accepts for an unsigned type of maximum `bound`: an
   * optional `+`, then one or more digits of the radix in either case, of any length,
   * whose value is at most `bound`.
   */
  predicate IsUnsignedLiteral(src: string, radix: nat, bound: nat) {
    var m := Magnitude(src);
    |m| >= 1 && AllDigits(m, radix) && Value(m, radix) <= bound
  }

  /**
   * Rust's `from_str_radix` for an unsigned integer type whose maximum is `bound`.
   * The empty text fails with Empty; a lone sign fails with InvalidDigit; a `-` is
   * no sign for an unsigned type and so is an invalid digit.
   */
  function FromStrRadix(src: string, radix: nat, bound: nat): (r: Result<nat, IntErrorKind>)
    requires 2 <= radix <= 36
    ensures r.Ok? <==> IsUnsignedLiteral(src, radix, bound)
    ensures r.Ok? ==> r.value == Value(Magnitude(src), radix) && r.value <= bound
    ensures r == Err(Empty) <==> src == []
    ensures AllDigits(Magnitude(src), radix) && src != "+" && src != [] ==> r.Ok? || r == Err(PosOverflow)
  {
    if src == [] then Err(Empty)
    else if (src[0] == '+' || src[0] == '-') && |src| == 1 then Err(InvalidDigit)
    else
      var digits := if src[0] == '+' then src[1..] else src;
      DigitLoopFromZero(digits, radix, bound);
      ParseDigits(digits, radix, bound, 0)
  }

  /** Value(a + b) splits into the value of `a` shifted by |b| places, plus that of `b`. */
  lemma {:induction false} ValueConcat(a: string, b: string, radix: nat)
    requires radix >= 1 && AllDigits(a, radix) && AllDigits(b, radix)
    ensures AllDigits(a + b, radix)
    ensures Value(a + b, radix) == Value(a, radix) * Pow(radix, |b|) + Value(b, radix)
    decreases |b|
  {
    var s := a + b;
    assert AllDigits(s, radix) by {
      forall i | 0 <= i < |s| ensures IsDigit(s[i], radix) {
        if i >= |a| { assert s[i] == b[i - |a|]; }
      }
    }
    if b == [] {
      assert s == a;
    } else {
      var b' := b[..|b| - 1];
      assert s[..|s| - 1] == a + b';
      ValueConcat(a, b', radix);
      assert Pow(radix, |b|) == radix * Pow(radix, |b'|);
      ShiftAppend(Value(a, radix), Pow(radix, |b'|), Value(b', radix), radix, DigitValue(b[|b| - 1]));
    }
  }

  /** (v * p + w) * r + d == v * (r * p) + (w * r + d): one more digit after a shifted prefix. */
  lemma ShiftAppend(v: nat, p: nat, w: nat, r: nat, d: nat)
    ensures (v * p + w) * r + d == v * (r * p) + (w * r + d)
  {
  }

  /**
   * The checked digit loop agrees with the positional value: started on the value of a
   * prefix `p` of digits, it yields the value of `p + digits` when that value fits, and
   * PosOverflow when it does not.
   */
  lemma {:induction false} ParseDigitsValue(digits: string, radix: nat, bound: nat, p: string)
    requires 2 <= radix <= 36
    requires AllDigits(p, radix) && Value(p, radix) <= bound && AllDigits(digits, radix)
    ensures AllDigits(p + digits, radix)
    ensures ParseDigits(digits, radix, bound, Value(p, radix))
      == if Value(p + digits, radix) <= bound then Ok(Value(p + digits, radix)) else Err(PosOverflow)
    decreases |digits|
  {
    if digits == [] {
      assert p + digits == p;
    } else {
      var p', rest := p + [digits[0]], digits[1..];
      assert AllDigits(p', radix) && AllDigits(rest, radix) && p' + rest == p + digits;
      var acc := Value(p', radix);
      assert acc == Value(p, radix) * radix + DigitValue(digits[0]) by {
        assert p'[..|p'| - 1] == p;
      }
      assert ParseDigits(digits, radix, bound, Value(p, radix))
        == if acc > bound then Err(PosOverflow) else ParseDigits(rest, radix, bound, acc);
      if acc <= bound {
        ParseDigitsValue(rest, radix, bound, p');
      } else {
        ValuePrefix(p', rest, radix);
      }
    }
  }

  /** The digit loop as `from_str_radix` starts it, from zero. */
  lemma DigitLoopFromZero(digits: string, radix: nat, bound: nat)
    requires 2 <= radix <= 36
    ensures AllDigits(digits, radix) ==>
      ParseDigits(digits, radix, bound, 0)
      == if Value(digits, radix) <= bound then Ok(Value(digits, radix)) else Err(PosOverflow)
    ensures !AllDigits(digits, radix) ==>
      ParseDigits(digits, radix, bound, 0) in {Err(InvalidDigit), Err(PosOverflow)}
  {
    if AllDigits(digits, radix) {
      ParseDigitsValue(digits, radix, bound, []);
      assert [] + digits == digits;
    } else {
      ParseDigitsInvalid(digits, radix, bound, 0);
    }
  }

  /** Appending digits never lowers the value. */
  lemma ValuePrefix(a: string, b: string, radix: nat)
    requires radix >= 1 && AllDigits(a, radix) && AllDigits(b, radix)
    ensures AllDigits(a + b, radix) && Value(a + b, radix) >= Value(a, radix)
  {
    ValueConcat(a, b, radix);
    MulAtLeast(Value(a, radix), Pow(radix, |b|));
  }

  lemma MulAtLeast(v: nat, p: nat)
    requires p >= 1
    ensures v * p >= v
  {
    MulMonotone(1, p, v);
  }

  /** A character that is no digit makes the digit loop fail, with a digit or overflow error. */
  lemma {:induction false} ParseDigitsInvalid(digits: string, radix: nat, bound: nat, acc: nat)
    requires 2 <= radix <= 36 && !AllDigits(digits, radix)
    ensures ParseDigits(digits, radix, bound, acc) in {Err(InvalidDigit), Err(PosOverflow)}
    decreases |digits|
  {
    if IsDigit(digits[0], radix) {
      var i :| 0 <= i < |digits| && !IsDigit(digits[i], radix);
      assert digits[1..][i - 1] == digits[i];
      ParseDigitsInvalid(digits[1..], radix, bound, acc * radix + DigitValue(digits[0]));
    }
  }

  // ---------------------------------------------------------------------------------
  // Rendering
  // ---------------------------------------------------------------------------------

  /** The lower-case digit for `d`, as the `x` format and decimal rendering write it. */
  function LowerDigit(d: nat): (c: char)
    requires d < 16
    ensures DigitValue(c) == d && IsLowerHexDigit(c)
  {
    if d < 10 then ('0' as int + d) as char else ('a' as int + d - 10) as char
  }

  /** The shortest digit string of `n` (`"0"` for zero), as `{}` and `{:x}` render it. */
  function ToDigits(n: nat, radix: nat): (s: string)
    requires 2 <= radix <= 16
    ensures |s| >= 1 && AllDigits(s, radix)
    decreases n
  {
    if n < radix then [LowerDigit(n)]
    else
      DivMod(n, radix);
      var front := ToDigits(n / radix, radix);
      var s := front + [LowerDigit(n % radix)];
      assert s[..|s| - 1] == front;
      s
  }

  /** The digits of `n` are worth `n`. */
  lemma {:induction false} ToDigitsValue(n: nat, radix: nat)
    requires 2 <= radix <= 16
    ensures Value(ToDigits(n, radix), radix) == n
    decreases n
  {
    if n >= radix {
      DivMod(n, radix);
      ToDigitsValue(n / radix, radix);
      AppendDigit(ToDigits(n / radix, radix), n, radix);
    }
  }

  /** Appending the last digit of `n` to the digits of `n / radix` gives the digits of `n`. */
  lemma AppendDigit(front: string, n: nat, radix: nat)
    requires 2 <= radix <= 16 && AllDigits(front, radix) && Value(front, radix) == n / radix
    ensures AllDigits(front + [LowerDigit(n % radix)], radix)
    ensures Value(front + [LowerDigit(n % radix)], radix) == n
  {
    var s := front + [LowerDigit(n % radix)];
    assert s[..|s| - 1] == front;
    DivModAny(n, radix);
  }

  /** The shortest rendering has lower-case digits only, and no leading zero unless n is 0. */
  lemma {:induction false} ToDigitsShape(n: nat, radix: nat)
    requires 2 <= radix <= 16
    ensures forall i :: 0 <= i < |ToDigits(n, radix)| ==> IsLowerHexDigit(ToDigits(n, radix)[i])
    ensures n > 0 ==> DigitValue(ToDigits(n, radix)[0]) >= 1
    decreases n
  {
    if n >= radix {
      DivMod(n, radix);
      ToDigitsShape(n / radix, radix);
      var front := ToDigits(n / radix, radix);
      assert ToDigits(n, radix) == front + [LowerDigit(n % radix)];
    }
  }

  function Zeros(k: nat): (z: string)
    ensures |z| == k && AllDigits(z, 2) && Value(z, 2) == 0
  {
    if k == 0 then [] else
      var z := Zeros(k - 1) + ['0'];
      assert z[..k - 1] == Zeros(k - 1);
      z
  }

  /**
   * `n` rendered in `radix` with lower-case digits, left-padded with `0` to at least
   * `width` characters: the `{:0width}` spec for radix 10, `{:0widthx}` for radix 16.
   */
  function FormatPadded(n: nat, radix: nat, width: nat): (s: string)
    requires 2 <= radix <= 16
    ensures |s| == if |ToDigits(n, radix)| >= width then |ToDigits(n, radix)| else width
    ensures AllDigits(s, radix)
    ensures forall i :: 0 <= i < |s| ==> IsLowerHexDigit(s[i])
    ensures |ToDigits(n, radix)| >= width ==> s == ToDigits(n, radix)
    ensures |ToDigits(n, radix)| < width ==> s == Zeros(width - |ToDigits(n, radix)|) + ToDigits(n, radix)
  {
    var digits := ToDigits(n, radix);
    ToDigitsShape(n, radix);
    if |digits| >= width then digits
    else
      var z := Zeros(width - |digits|);
      assert AllDigits(z, radix) by {
        forall i | 0 <= i < |z| ensures IsDigit(z[i], radix) { assert IsDigit(z[i], 2); }
      }
      var s := z + digits;
      assert AllDigits(s, radix) by {
        forall i | 0 <= i < |s| ensures IsDigit(s[i], radix) {
          if i >= |z| { assert s[i] == digits[i - |z|]; }
        }
      }
      s
  }

  /** The padded rendering of `n` is worth `n`: the padding zeros add nothing. */
  lemma FormatPaddedValue(n: nat, radix: nat, width: nat)
    requires 2 <= radix <= 16
    ensures Value(FormatPadded(n, radix, width), radix) == n
  {
    var digits := ToDigits(n, radix);
    ToDigitsValue(n, radix);
    if |digits| < width {
      var z := Zeros(width - |digits|);
      ZerosValue(z, radix);
      ValueConcat(z, digits, radix);
    }
  }

  lemma {:induction false} ZerosValue(z: string, radix: nat)
    requires radix >= 2 && AllDigits(z, 2) && Value(z, 2) == 0
    ensures AllDigits(z, radix) && Value(z, radix) == 0
    decreases |z|
  {
    assert AllDigits(z, radix) by {
      forall i | 0 <= i < |z| ensures IsDigit(z[i], radix) { assert IsDigit(z[i], 2); }
    }
    if z != [] {
      assert AllDigits(z[..|z| - 1], 2);
      ZerosValue(z[..|z| - 1], radix);
    }
  }

  /** A number has at most `k` digits exactly when it is below radix^k. */
  lemma {:induction false} DigitCount(n: nat, radix: nat, k: nat)
    requires 2 <= radix <= 16 && k >= 1
    ensures |ToDigits(n, radix)| <= k <==> n < Pow(radix, k)
    decreases n
  {
    if n < radix {
      assert Pow(radix, k) >= radix by { PowAtLeastBase(radix, k); }
    } else {
      ToDigitsStep(n, radix);
      if k == 1 {
        assert Pow(radix, 1) == radix;
      } else {
        DivMod(n, radix);
        DigitCount(n / radix, radix, k - 1);
        DivBelowPow(n, radix, k);
      }
    }
  }

  /** A number of two or more digits has one digit more than its quotient by the radix. */
  lemma ToDigitsStep(n: nat, radix: nat)
    requires 2 <= radix <= 16 && n >= radix
    ensures |ToDigits(n, radix)| == |ToDigits(n / radix, radix)| + 1
  {
  }

  /** n / radix < radix^(k-1) exactly when n < radix^k. */
  lemma DivBelowPow(n: nat, radix: nat, k: nat)
    requires radix >= 1 && k >= 1
    ensures n / radix < Pow(radix, k - 1) <==> n < Pow(radix, k)
  {
    assert Pow(radix, k) == radix * Pow(radix, k - 1);
    DivBelow(n, radix, Pow(radix, k - 1));
  }

  lemma DivModAny(n: nat, r: nat)
    requires r >= 1
    ensures n == (n / r) * r + n % r
  {
  }

  lemma DivMod(n: nat, r: nat)
    requires 2 <= r <= n
    ensures n == (n / r) * r + n % r && 1 <= n / r < n
  {
  }

  /** n / r < p exactly when n < r * p. */
  lemma DivBelow(n: nat, r: nat, p: nat)
    requires r >= 1
    ensures n / r < p <==> n < r * p
  {
    var q := n / r;
    assert n == r * q + n % r;
    if q < p {
      assert r * q <= r * (p - 1) by { MulMonotone(q, p - 1, r); }
    } else {
      MulMonotone(p, q, r);
    }
  }

  lemma {:induction false} PowAtLeastBase(radix: nat, k: nat)
    requires radix >= 1 && k >= 1
    ensures Pow(radix, k) >= radix
  {
    assert Pow(radix, k) == radix * Pow(radix, k - 1);
  }

  /** A digit string whose first digit is not zero is worth at least radix^(length-1). */
  lemma {:induction false} LeadingDigitBound(s: string, radix: nat)
    requires radix >= 1 && |s| >= 1 && AllDigits(s, radix) && DigitValue(s[0]) >= 1
    ensures Value(s, radix) >= Pow(radix, |s| - 1)
    decreases |s|
  {
    var front := s[..|s| - 1];
    if |s| > 1 {
      assert front[0] == s[0];
      LeadingDigitBound(front, radix);
      MulMonotone(Pow(radix, |front| - 1), Value(front, radix), radix);
      assert Pow(radix, |s| - 1) == radix * Pow(radix, |front| - 1);
    } else {
      assert front == [];
    }
  }

  lemma MulMonotone(a: nat, b: nat, c: nat)
    requires a <= b
    ensures a * c <= b * c
  {
  }

  /** A digit string of length k is worth less than radix^k. */
  lemma {:induction false} ValueBelowPow(s: string, radix: nat)
    requires radix >= 1 && AllDigits(s, radix)
    ensures Value(s, radix) < Pow(radix, |s|)
    decreases |s|
  {
    if s != [] {
      var front := s[..|s| - 1];
      ValueBelowPow(front, radix);
      DigitAfterBelow(Value(front, radix), Pow(radix, |front|), radix, DigitValue(s[|s| - 1]));
      assert Pow(radix, |s|) == radix * Pow(radix, |front|);
    }
  }

  /** v < p and d < r give v * r + d < r * p. */
  lemma DigitAfterBelow(v: nat, p: nat, r: nat, d: nat)
    requires v < p && d < r
    ensures v * r + d < r * p
  {
    MulMonotone(v + 1, p, r);
  }

  lemma {:induction false} PowAdd(radix: nat, i: nat, j: nat)
    requires radix >= 1
    ensures Pow(radix, i + j) == Pow(radix, i) * Pow(radix, j)
    decreases i
  {
    if i > 0 {
      PowAdd(radix, i - 1, j);
      assert Pow(radix, i + j) == radix * Pow(radix, i - 1 + j);
    }
  }

  lemma {:induction false} PowMonotone(radix: nat, i: nat, j: nat)
    requires radix >= 1 && i <= j
    ensures Pow(radix, i) <= Pow(radix, j)
    decreases j
  {
    if i < j {
      PowMonotone(radix, i, j - 1);
      MulMonotone(1, radix, Pow(radix, j - 1));
    }
  }

  /** A hexadecimal digit string of lower-case digits is the literal of its value. */
  lemma LowerHexLiteral(s: string, bound: nat)
    requires |s| >= 1 && AllDigits(s, 16) && Value(s, 16) <= bound
    requires forall i :: 0 <= i < |s| ==> IsLowerHexDigit(s[i])
    ensures Magnitude(s) == s && IsUnsignedLiteral(s, 16, bound)
  {
    assert IsLowerHexDigit(s[0]);
  }

  /**
   * A string of decimal digits read as hexadecimal is worth at least its decimal value,
   * and exactly that when its decimal value is a single digit.
   */
  lemma {:induction false} DecimalReadAsHex(s: string)
    requires AllDigits(s, 10)
    ensures AllDigits(s, 16)
    ensures Value(s, 16) >= Value(s, 10)
    ensures Value(s, 16) == Value(s, 10) <==> Value(s, 10) < 10
    decreases |s|
  {
    assert AllDigits(s, 16) by {
      forall i | 0 <= i < |s| ensures IsDigit(s[i], 16) { assert IsDigit(s[i], 10); }
    }
    if s != [] {
      var front := s[..|s| - 1];
      assert AllDigits(front, 10);
      DecimalReadAsHex(front);
    }
  }
}
