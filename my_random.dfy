/**
  `range_random`: a value in a range, built from single random digits. The
  wall clock that `singl_random` reads is replaced by a finite sequence of
  digits, consumed from the front; a run that needs more digits than the
  sequence holds ends in `OutOfDigits`, where the original keeps looping.
*/
module MyRandom {
  import opened Wrappers
  import opened DecimalText
  import opened Number
  import opened Ranges

  datatype Outcome = Returned(value: int) | OutOfDigits

  /** No `0` in the decimal text of `n` except possibly as its last character. */
  predicate NoInnerZero(n: nat) {
    forall i :: 0 <= i < |Text(n)| - 1 ==> Text(n)[i] != '0'
  }

  /** The most digits a candidate may reach: `max_digit`, but never less than one. */
  function Width(maxDigit: nat): nat {
    if maxDigit == 0 then 1 else maxDigit
  }

  /**
    Prepending a digit to a candidate: the text parses, the value stays
    non-negative, grows by at most one digit, and still has no inner zero.
  */
  lemma GrowCandidate(n: nat, d: DigitValue)
    ensures AddDigit(n, d).Some? && AddDigit(n, d).value >= 0
    ensures Digit(AddDigit(n, d).value) <= Digit(n) + 1
    ensures NoInnerZero(n) ==> NoInnerZero(AddDigit(n, d).value)
  {
    AddDigitOfDigit(n, d);
    if d >= 1 {
      var v := d * Pow10(Digit(n)) + n;
      NatTextConcat(d, n);
      assert Text(v) == [DigitChar(d)] + Text(n);
      if NoInnerZero(n) {
        forall i | 0 <= i < |Text(v)| - 1
          ensures Text(v)[i] != '0'
        {
          if i > 0 {
            assert Text(v)[i] == Text(n)[i - 1];
          }
        }
      }
    }
  }

  /**
    The loop of `range_random` from candidate `num`, with digits read from
    `pos` on. A sampled digit below 7, a candidate with exactly `max_digit`
    digits and one with more all end in the same test: return the candidate
    when it is in the range, else resample it (`sub_digit` changes nothing, so
    the third case tests the candidate unchanged). Otherwise a fresh digit is
    put in front of the candidate.
  */
  function Loop(range: Range, maxDigit: nat, num: nat, digits: seq<DigitValue>, pos: nat): (o: Outcome)
    requires range.HasBound() && pos <= |digits|
    ensures o.Returned? ==> range.IsRange(o.value) && o.value >= 0
    ensures o.Returned? && NoInnerZero(num) ==> NoInnerZero(o.value)
    ensures o.Returned? && Digit(num) <= Width(maxDigit) ==> Digit(o.value) <= Width(maxDigit)
    decreases |digits| - pos
  {
    if pos == |digits| then OutOfDigits
    else if digits[pos] < 7 || Digit(num) == maxDigit || maxDigit < Digit(num) then
      if range.IsRange(num) then Returned(num)
      else if pos + 1 == |digits| then OutOfDigits
      else Loop(range, maxDigit, digits[pos + 1], digits, pos + 2)
    else if pos + 1 == |digits| then OutOfDigits
    else
      GrowCandidate(num, digits[pos + 1]);
      Loop(range, maxDigit, AddDigit(num, digits[pos + 1]).value, digits, pos + 2)
  }

  /**
    The whole of `range_random`: the first digit is the candidate, then
    `max_digit` is the digit count of the end when there is one and a sampled
    digit otherwise, then the loop runs.
  */
  function Compose(range: Range, digits: seq<DigitValue>): (o: Outcome)
    requires range.HasBound()
    ensures o.Returned? ==> range.IsRange(o.value) && o.value >= 0 && NoInnerZero(o.value)
    ensures o.Returned? && range.end.None? ==> Digit(o.value) <= 9
  {
    if |digits| == 0 then OutOfDigits
    else if range.end.Some? then Loop(range, Digit(range.end.value), digits[0], digits, 1)
    else if |digits| == 1 then OutOfDigits
    else Loop(range, digits[1], digits[0], digits, 2)
  }

  /** `range_random`, step by step, over the digits `digits` in place of the clock. */
  method RangeRandom(range: Range, digits: seq<DigitValue>) returns (o: Outcome)
    requires range.HasBound()
    ensures o == Compose(range, digits)
    ensures o.Returned? ==> range.IsRange(o.value)
  {
    if |digits| == 0 {
      return OutOfDigits;
    }
    var num: nat := digits[0];
    var pos := 1;
    var maxDigit: nat;
    if range.end.Some? {
      maxDigit := Digit(range.end.value);
    } else {
      if pos == |digits| {
        return OutOfDigits;
      }
      maxDigit := digits[pos];
      pos := pos + 1;
    }
    var seven := New(7);
    while true
      invariant pos <= |digits|
      invariant Loop(range, maxDigit, num, digits, pos) == Compose(range, digits)
      decreases |digits| - pos
    {
      if pos == |digits| {
        return OutOfDigits;
      }
      var d := digits[pos];
      pos := pos + 1;
      if d < seven {
        if range.IsRange(num) {
          break;
        } else {
          if pos == |digits| {
            return OutOfDigits;
          }
          num := digits[pos];
          pos := pos + 1;
          continue;
        }
      }
      if Digit(num) == maxDigit {
        if range.IsRange(num) {
          break;
        } else {
          if pos == |digits| {
            return OutOfDigits;
          }
          num := digits[pos];
          pos := pos + 1;
          continue;
        }
      }
      if maxDigit < Digit(num) {
        num := SubDigit(num);
        if range.IsRange(num) {
          break;
        } else {
          if pos == |digits| {
            return OutOfDigits;
          }
          num := digits[pos];
          pos := pos + 1;
          continue;
        }
      }
      if pos == |digits| {
        return OutOfDigits;
      }
      var rhs := digits[pos];
      pos := pos + 1;
      GrowCandidate(num, rhs);
      num := AddDigit(num, rhs).value;
    }
    o := Returned(num);
  }

  /** A value drawn from `0..n` lies in `0..n`: non-negative and below `n`. */
  lemma FromZeroBelowEnd(n: int, digits: seq<DigitValue>)
    ensures var o := Compose(Range.New(Included(0), Excluded(n)), digits);
      o.Returned? ==> 0 <= o.value < n
  {
  }

  /**
    The digits after the candidate that grow it into `Text(v)`: a digit of 7
    or more to keep growing, then the next digit of `v` to its left, and a
    final 0 to stop.
  */
  function GrowScript(t: string, j: nat): seq<DigitValue>
    requires AllDigits(t) && j <= |t|
  {
    if j == 0 then [0] else [9, CharValue(t[j - 1])] + GrowScript(t, j - 1)
  }

  /** Putting the next digit of `v` in front of a candidate whose text is `Text(v)[j..]` gives `Text(v)[j - 1..]`. */
  lemma PrependNextDigit(v: nat, num: nat, j: nat)
    requires NoInnerZero(v) && 1 <= j <= |Text(v)| && Text(num) == Text(v)[j..]
    ensures AddDigit(num, CharValue(Text(v)[j - 1])).Some?
    ensures Text(AddDigit(num, CharValue(Text(v)[j - 1])).value) == Text(v)[j - 1..]
  {
    var t := Text(v);
    var c := CharValue(t[j - 1]);
    assert j < |t|;
    assert c >= 1 by {
      assert t[j - 1] != '0';
    }
    AddDigitOfDigit(num, c);
    NatTextConcat(c, num);
    assert t[j - 1..] == [t[j - 1]] + t[j..];
  }

  /** From a candidate whose text is the last part `t[j..]` of `Text(v)`, the script grows it into `v`. */
  lemma {:induction false} GrowsInto(range: Range, maxDigit: nat, v: nat, num: nat,
                                     digits: seq<DigitValue>, pos: nat, j: nat)
    requires range.HasBound() && range.IsRange(v) && NoInnerZero(v)
    requires Digit(v) <= maxDigit
    requires j <= |Text(v)| && Text(num) == Text(v)[j..]
    requires pos <= |digits| && digits[pos..] == GrowScript(Text(v), j)
    ensures Loop(range, maxDigit, num, digits, pos) == Returned(v)
    decreases j
  {
    var t := Text(v);
    if j == 0 {
      ParseText(num);
      ParseText(v);
      assert digits[pos] == 0;
    } else {
      assert digits[pos] == 9 && digits[pos + 1] == CharValue(t[j - 1]);
      assert Digit(num) < maxDigit;
      PrependNextDigit(v, num, j);
      var grown := AddDigit(num, digits[pos + 1]).value;
      assert digits[pos + 2..] == GrowScript(t, j - 1);
      GrowsInto(range, maxDigit, v, grown, digits, pos + 2, j - 1);
      assert Loop(range, maxDigit, num, digits, pos) == Loop(range, maxDigit, grown, digits, pos + 2);
    }
  }

  /** Digits that make `range_random` return `v`: its last digit, the sampled `max_digit` if needed, then the growth. */
  function Script(range: Range, v: nat): seq<DigitValue> {
    var t := Text(v);
    [CharValue(t[|t| - 1])] + (if range.end.Some? then [] else [9]) + GrowScript(t, |t| - 1)
  }

  /**
    The values `range_random` can return are exactly the non-negative members
    of the range with no `0` before their last digit, having at most nine
    digits when the range has no end.
  */
  lemma ComposeReturnsExactly(range: Range, v: int)
    requires range.HasBound()
    ensures (exists digits :: Compose(range, digits) == Returned(v)) <==>
      v >= 0 && range.IsRange(v) && NoInnerZero(v) && (range.end.None? ==> Digit(v) <= 9)
  {
    if v >= 0 && range.IsRange(v) && NoInnerZero(v) && (range.end.None? ==> Digit(v) <= 9) {
      var t := Text(v);
      var digits := Script(range, v);
      var c := CharValue(t[|t| - 1]);
      assert Text(c) == t[|t| - 1..];
      if range.end.Some? {
        DigitGrows(v, range.end.value);
        assert digits[1..] == GrowScript(t, |t| - 1);
        GrowsInto(range, Digit(range.end.value), v, c, digits, 1, |t| - 1);
      } else {
        assert digits[2..] == GrowScript(t, |t| - 1);
        GrowsInto(range, 9, v, c, digits, 2, |t| - 1);
      }
      assert Compose(range, digits) == Returned(v);
    }
  }

  /** Every value from 100 to 109 has a `0` as its middle digit. */
  lemma HundredsHaveInnerZero(v: nat)
    requires 100 <= v <= 109
    ensures !NoInnerZero(v)
  {
    assert v / 10 == 10 && (v / 10) / 10 == 1;
    assert Text(v) == Text(10) + [DigitChar(v % 10)];
    assert Text(10) == [DigitChar(1), DigitChar(0)];
    assert Text(v)[1] == '0';
  }

  /** `range_random(100..110)` never returns: none of its digit sequences leads out of the loop. */
  lemma HundredsNeverReturned(digits: seq<DigitValue>)
    ensures Compose(Range.New(Included(100), Excluded(110)), digits) == OutOfDigits
  {
    var o := Compose(Range.New(Included(100), Excluded(110)), digits);
    if o.Returned? {
      HundredsHaveInnerZero(o.value);
    }
  }

  /** With no end, a returned value has at most nine digits, so a start of `10^9` or more is never met. */
  lemma NoEndStaysBelowTenDigits(s: int, digits: seq<DigitValue>)
    requires s >= Pow10(9)
    ensures Compose(Range.New(Included(s), Unbounded), digits) == OutOfDigits
  {
    var o := Compose(Range.New(Included(s), Unbounded), digits);
    if o.Returned? {
      DigitCountsDigits(o.value);
      if Digit(o.value) < 9 {
        Pow10Grows(Digit(o.value), 9);
      }
    }
  }

  /** A digit below 7 right after the first sample stops the loop at once when the sample is in the range. */
  lemma StopsOnFirstSample()
    ensures Compose(Range.New(Included(4), Excluded(10)), [5, 3]) == Returned(5)
    ensures Compose(Range.New(Included(4), Excluded(10)), [2, 3, 6, 1]) == Returned(6)
  {
  }

  /** Growth puts the new digit in front: 3, then 4 before it, gives 43. */
  lemma GrowsAtTheFront()
    ensures Compose(Range.New(Included(10), Included(99)), [3, 8, 4, 0]) == Returned(43)
  {
    AddDigitOfDigit(3, 4);
  }
}
