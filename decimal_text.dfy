/**
  Decimal text of integers: what Rust's `to_string` produces for an integer and
  what `str::parse` reads back. The `Number` helpers count, concatenate and
  re-parse this text, so their behaviour is stated in terms of it.
*/
module DecimalText {
  import opened Wrappers

  /** One decimal digit, as a number. */
  type DigitValue = d: nat | d <= 9

  predicate IsDigitChar(c: char) {
    '0' <= c <= '9'
  }

  predicate AllDigits(s: string) {
    forall i :: 0 <= i < |s| ==> IsDigitChar(s[i])
  }

  function DigitChar(d: DigitValue): (c: char)
    ensures IsDigitChar(c)
  {
    (48 + d) as char
  }

  function CharValue(c: char): (d: DigitValue)
    requires IsDigitChar(c)
    ensures DigitChar(d) == c
  {
    c as int - 48
  }

  /** Ten to the power `k`. */
  function Pow10(k: nat): (p: nat)
    ensures p >= 1
  {
    if k == 0 then 1 else 10 * Pow10(k - 1)
  }

  /** The digits of `n`, most significant first, with no leading zero. */
  function NatText(n: nat): (s: string)
    ensures |s| >= 1 && AllDigits(s)
    ensures s[0] == '0' ==> n == 0
    decreases n
  {
    if n < 10 then [DigitChar(n)] else NatText(n / 10) + [DigitChar(n % 10)]
  }

  /** `to_string` of a signed integer: a minus sign before the magnitude when negative. */
  function Text(x: int): (s: string)
    ensures |s| >= 1
    ensures s[0] == '-' <==> x < 0
  {
    if x < 0 then "-" + NatText(-x) else NatText(x)
  }

  /** The value of a string of digits, most significant first; leading zeros add nothing. */
  function DigitsValue(s: string): nat
    requires AllDigits(s)
    decreases |s|
  {
    if |s| == 0 then 0 else DigitsValue(s[..|s| - 1]) * 10 + CharValue(s[|s| - 1])
  }

  /**
    `str::parse` into a signed integer type: an optional `+` or `-`, then one
    digit or more; anything else is a parse error (`None`). Width overflow is
    not modelled: the integers are unbounded.
  */
  function Parse(s: string): (r: Option<int>)
    ensures r.Some? ==> |s| >= 1 && (IsDigitChar(s[0]) || s[0] == '-' || s[0] == '+')
    ensures r.Some? ==> forall i :: 1 <= i < |s| ==> IsDigitChar(s[i])
    ensures r.Some? && r.value < 0 ==> s[0] == '-'
  {
    if |s| >= 2 && s[0] == '-' && AllDigits(s[1..]) then Some(-(DigitsValue(s[1..]) as int))
    else if |s| >= 2 && s[0] == '+' && AllDigits(s[1..]) then Some(DigitsValue(s[1..]))
    else if |s| >= 1 && AllDigits(s) then Some(DigitsValue(s))
    else None
  }

  /** Reading back the digits of a non-negative value gives the value. */
  lemma {:induction false} NatTextValue(n: nat)
    ensures DigitsValue(NatText(n)) == n
    decreases n
  {
    if n >= 10 {
      var s := NatText(n);
      assert s[..|s| - 1] == NatText(n / 10);
      NatTextValue(n / 10);
    }
  }

  /** `parse` undoes `to_string` for every integer. */
  lemma ParseText(x: int)
    ensures Parse(Text(x)) == Some(x)
  {
    if x < 0 {
      var t := NatText(-x);
      var s := Text(x);
      assert s == "-" + t;
      assert |s| >= 2 && s[0] == '-';
      assert s[1..] == t;
      NatTextValue(-x);
      assert Parse(s) == Some(-(DigitsValue(t) as int));
    } else {
      var s := NatText(x);
      assert IsDigitChar(s[0]);
      assert s[0] != '-' && s[0] != '+';
      NatTextValue(x);
      assert Parse(s) == Some(DigitsValue(s) as int);
    }
  }

  /** The value of two digit strings written one after the other. */
  lemma {:induction false} DigitsValueConcat(a: string, b: string)
    requires AllDigits(a) && AllDigits(b)
    ensures AllDigits(a + b)
    ensures DigitsValue(a + b) == DigitsValue(a) * Pow10(|b|) + DigitsValue(b)
    decreases |b|
  {
    if |b| == 0 {
      assert a + b == a;
    } else {
      var b' := b[..|b| - 1];
      assert (a + b)[..|a + b| - 1] == a + b';
      assert (a + b)[|a + b| - 1] == b[|b| - 1];
      DigitsValueConcat(a, b');
      var c := CharValue(b[|b| - 1]);
      assert DigitsValue(a + b) == DigitsValue(a + b') * 10 + c;
      assert DigitsValue(b) == DigitsValue(b') * 10 + c;
      assert Pow10(|b|) == Pow10(|b'|) * 10;
      ShiftLeft(DigitsValue(a), Pow10(|b'|), DigitsValue(b'), c);
    }
  }

  /** One more digit `c` after `x * p + y` multiplies both parts by ten. */
  lemma ShiftLeft(x: nat, p: nat, y: nat, c: nat)
    ensures (x * p + y) * 10 + c == x * (p * 10) + (y * 10 + c)
  {
  }

  /**
    Writing the digits of `a` (not zero) in front of those of `b` gives the text
    of `a * 10^k + b`, where `k` is the number of digits of `b`.
  */
  lemma {:induction false} NatTextConcat(a: nat, b: nat)
    requires a >= 1
    ensures NatText(a * Pow10(|NatText(b)|) + b) == NatText(a) + NatText(b)
    decreases b
  {
    var k := |NatText(b)|;
    var x := a * Pow10(k) + b;
    if b < 10 {
      assert k == 1;
      ShiftDigits(a, 0, b);
    } else {
      assert k == |NatText(b / 10)| + 1;
      var y := a * Pow10(k - 1) + b / 10;
      ShiftDigits(a, k - 1, b);
      NatTextConcat(a, b / 10);
      assert NatText(x) == NatText(y) + [DigitChar(b % 10)];
    }
  }

  /** Splitting off the last digit of `a * 10^(k+1) + b`. */
  lemma ShiftDigits(a: nat, k: nat, b: nat)
    requires a >= 1
    ensures (a * Pow10(k + 1) + b) / 10 == a * Pow10(k) + b / 10
    ensures (a * Pow10(k + 1) + b) % 10 == b % 10
    ensures a * Pow10(k + 1) + b >= 10
  {
    var y := a * Pow10(k) + b / 10;
    assert a * Pow10(k + 1) == 10 * (a * Pow10(k));
    assert a * Pow10(k + 1) + b == 10 * y + b % 10;
  }

  /** Powers of ten grow strictly. */
  lemma {:induction false} Pow10Grows(i: nat, j: nat)
    requires i < j
    ensures Pow10(i) < Pow10(j)
    decreases j
  {
    if i < j - 1 {
      Pow10Grows(i, j - 1);
    }
  }
}
