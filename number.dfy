/**
  The `Number` trait's integer helpers (`new`, `digit`, `add_digit`,
  `sub_digit`), for one unbounded signed integer type. `digit`, `add_digit`
  and `sub_digit` work on the value's decimal text.
*/
module Number {
  import opened Wrappers
  import opened DecimalText

  /** `Number::new`: start from zero and add one, `n` times. */
  method New(n: nat) returns (num: int)
    ensures num == n
  {
    num := 0;
    for i := 0 to n
      invariant num == i
    {
      num := num + 1;
    }
  }

  /** `digit`: the number of characters of the value's text. */
  function Digit(x: int): (r: nat)
    ensures r >= 1
  {
    |Text(x)|
  }

  /**
    `add_digit`: the text of `rhs` followed by that of `n`, parsed again. With
    both operands non-negative the digits of `rhs` become the leading digits,
    so a leading zero of `rhs` is lost in the parse. A negative `n` puts a `-`
    inside the text, which does not parse; a negative `rhs` makes the whole
    text negative.
  */
  function AddDigit(n: int, rhs: int): (r: Option<int>)
    ensures n >= 0 && rhs >= 0 ==> r == Some(rhs * Pow10(Digit(n)) + n)
    ensures n >= 0 && rhs < 0 ==> r == Some(rhs * Pow10(Digit(n)) - n)
    ensures n < 0 ==> r == None
  {
    if n >= 0 && rhs >= 0 then
      ParseNonNegativeConcat(n, rhs);
      Parse(Text(rhs) + Text(n))
    else if n >= 0 then
      ParseNegativeRhsConcat(n, rhs);
      Parse(Text(rhs) + Text(n))
    else
      ParseNegativeConcat(n, rhs);
      Parse(Text(rhs) + Text(n))
  }

  /**
    `sub_digit`: the last character is popped from a temporary copy of the
    text, and the number itself is left as it was.
  */
  method SubDigit(n: int) returns (r: int)
    ensures r == n
  {
    var temporary := Text(n);
    temporary := temporary[..|temporary| - 1];
    r := n;
  }

  /**
    For a value that is not negative, `digit` is its number of decimal digits:
    `10^(digit - 1) <= x < 10^digit`, except that zero has one digit. A negative
    value has one more, for its sign.
  */
  lemma {:induction false} DigitCountsDigits(x: int)
    ensures x >= 0 ==> x < Pow10(Digit(x))
    ensures x >= 1 ==> Pow10(Digit(x) - 1) <= x
    ensures x == 0 ==> Digit(x) == 1
    ensures x < 0 ==> Digit(x) == Digit(-x) + 1
    decreases if x < 0 then 0 else x
  {
    if x >= 10 {
      DigitCountsDigits(x / 10);
      assert Digit(x) == Digit(x / 10) + 1;
    }
  }

  /** The text of `rhs` followed by that of `n`, both non-negative, parses to `rhs * 10^digit(n) + n`. */
  lemma ParseNonNegativeConcat(n: nat, rhs: nat)
    ensures Parse(Text(rhs) + Text(n)) == Some(rhs * Pow10(Digit(n)) + n)
  {
    DigitsValueConcat(NatText(rhs), NatText(n));
    NatTextValue(rhs);
    NatTextValue(n);
    var s := Text(rhs) + Text(n);
    assert s == NatText(rhs) + NatText(n);
    assert s[0] != '-' && s[0] != '+';
  }

  /** With a negative `rhs` the concatenated text is negative: `-(|rhs| * 10^digit(n) + n)`. */
  lemma ParseNegativeRhsConcat(n: nat, rhs: int)
    requires rhs < 0
    ensures Parse(Text(rhs) + Text(n)) == Some(rhs * Pow10(Digit(n)) - n)
  {
    var m: nat := -rhs;
    var t := NatText(m) + NatText(n);
    var s := Text(rhs) + Text(n);
    assert s == "-" + t;
    assert s[1..] == t;
    DigitsValueConcat(NatText(m), NatText(n));
    NatTextValue(m);
    NatTextValue(n);
    var p := Pow10(Digit(n));
    assert DigitsValue(t) == m * p + n;
    assert Parse(s) == Some(-(m * p + n));
    NegateProduct(m, p);
  }

  lemma NegateProduct(m: nat, p: nat)
    ensures -(m * p) == (-(m as int)) * p
  {
  }

  /** With a negative `n` the concatenated text has a `-` after its first character and does not parse. */
  lemma ParseNegativeConcat(n: int, rhs: int)
    requires n < 0
    ensures Parse(Text(rhs) + Text(n)) == None
  {
    var s := Text(rhs) + Text(n);
    var i := |Text(rhs)|;
    assert s[i] == '-';
    assert !AllDigits(s);
    if |s| >= 2 && s[0] == '-' {
      assert s[1..][i - 1] == '-';
    }
  }

  /** For a digit `d` from 1 to 9, `add_digit(n, d)` is `d * 10^digit(n) + n`; for 0 it is `n`. */
  lemma AddDigitOfDigit(n: nat, d: DigitValue)
    ensures d >= 1 ==> AddDigit(n, d) == Some(d * Pow10(Digit(n)) + n)
    ensures d == 0 ==> AddDigit(n, d) == Some(n)
  {
  }

  /**
    The copy that `sub_digit` pops holds the value without its last digit:
    `n / 10` for two digits or more, and nothing that parses for one digit.
  */
  lemma PoppedText(n: nat)
    ensures n >= 10 ==> Parse(Text(n)[..|Text(n)| - 1]) == Some(n / 10)
    ensures n < 10 ==> Parse(Text(n)[..|Text(n)| - 1]) == None
  {
    if n >= 10 {
      assert Text(n)[..|Text(n)| - 1] == Text(n / 10);
      ParseText(n / 10);
    }
  }

  /** A larger non-negative value never has fewer digits. */
  lemma DigitGrows(a: nat, b: nat)
    requires a <= b
    ensures Digit(a) <= Digit(b)
  {
    DigitCountsDigits(a);
    DigitCountsDigits(b);
    if Digit(b) < Digit(a) {
      Pow10Grows(Digit(b), Digit(a) - 1);
      assert false;
    }
  }
}
