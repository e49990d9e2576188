# number-guessing: the digit-composing random generator

This project models `src/my_random.rs` of the number-guessing game, the
home-made "random value in a range" routine and its helpers, and proves
properties of it in Dafny.

- `range_random` builds a value out of single random digits. It picks a
  first digit as the candidate, then loops. A sampled digit below 7 stops the
  growth. A candidate whose digit count reaches `max_digit` (or goes past it)
  is checked against the range. Otherwise a fresh digit is written in front of
  the candidate's decimal text. A candidate that fails the range test is
  replaced by a fresh single digit.
- `Range` normalises a Rust range to an optional inclusive start and end.
- The `Number` helpers count, concatenate and re-parse decimal text.

Files and modules:

- `wrappers.dfy` (`Wrappers`): `Option`.
- `decimal_text.dfy` (`DecimalText`): Rust's `to_string` for integers
  (`Text`, `NatText`) and `str::parse` into a signed integer (`Parse`: an
  optional sign, then at least one digit), with the round trip and the
  concatenation lemmas the helpers rest on.
- `number.dfy` (`Number`): `Number::new` as a counting loop, `digit`,
  `add_digit` and `sub_digit`.
- `range.dfy` (`Ranges`): the `Bound` of a Rust range, the `Range` datatype
  with `New` and `IsRange`, and Rust's `RangeBounds::contains` as a reference
  definition.
- `my_random.dfy` (`MyRandom`): `RangeRandom`, a method whose `while` loop
  follows the source branch by branch. It is proved equal to the recursive
  specification `Compose` / `Loop`, and the lemmas are about that
  specification.

The clock is a parameter. `singl_random` reads the wall clock and keeps the
last character of the time text. In the model that clock is a finite
sequence of digits 0..9, read from the front. `RangeRandom` reads the
digits in the order the source samples them:

1. the first candidate;
2. `max_digit`, but only when the range has no end;
3. on each turn of the loop, the stop digit;
4. then either a replacement candidate or the digit put in front.

A run that needs more digits than the sequence holds ends in `OutOfDigits`.
The original would go on sampling at that point. `RangeRandom` takes the
range after the `Range::new` step of line 25, so a caller applies
`Ranges.Range.New` to the Rust bounds first.

Behaviour the proofs bring out:

- `add_digit` writes the new digit's text in front and parses the result
  again. A leading `0` is therefore lost: `add_digit(5, 0)` is 5, not "05".
  So the candidate's text never has a `0` in front of its last digit.
  `ComposeReturnsExactly` shows exactly which values can come out: the
  non-negative members of the range with no such inner zero, and, when the
  range has no end, at most nine digits.
- Two consequences. `range_random(100..110)` never returns
  (`HundredsNeverReturned`). `range_random(1_000_000_000..)` never returns
  either (`NoEndStaysBelowTenDigits`).
- `sub_digit` pops a character from a temporary `String` and leaves the
  number unchanged. Its name suggests that it drops the last digit, but the
  code does not: it pops a temporary copy. The model keeps it that way.
  `PoppedText` shows what the discarded copy holds.
- `is_range` unwraps a missing end when there is no start, so it is only
  defined for ranges with at least one bound (`HasBound`, a precondition).
  This precondition is carried up to `RangeRandom`.

## Model

| member | source | states |
|---|---|---|
| `DecimalText.Text` | src/my_random.rs:129 | `to_string` of an integer is never empty and starts with `-` exactly when the integer is negative; `ParseText` shows that parsing it gives the integer back |
| `DecimalText.Parse` | src/my_random.rs:133 | text that parses starts with a digit or a sign and has only digits after that, and a negative result comes only from a leading `-`; `ParseText` shows that it inverts `Text` |
| `DecimalText.ParseText` | src/my_random.rs:132-133 | parsing the `to_string` text of any integer, negative ones included, gives back that integer |
| `DecimalText.DigitsValueConcat` | src/my_random.rs:132-133 | the value of two digit strings written one after the other is the first one's value times 10 to the length of the second, plus the second one's value |
| `DecimalText.NatTextConcat` | src/my_random.rs:132 | writing the digits of a non-zero `a` in front of the digits of `b` gives the text of `a * 10^digits(b) + b` |
| `Number.New` | src/my_random.rs:121-127 | adding one `n` times, starting from zero, gives `n` |
| `Number.Digit` | src/my_random.rs:128-130 | the character count of the text is at least one |
| `Number.DigitCountsDigits` | src/my_random.rs:128-130 | for `x >= 0`, `x < 10^digit(x)`, and `10^(digit(x)-1) <= x` when `x >= 1`; `digit(0) == 1`; a negative value has one more character than its magnitude, for the sign |
| `Number.DigitGrows` | src/my_random.rs:128-130 | `digit` never decreases as a non-negative value grows |
| `Number.AddDigit` | src/my_random.rs:131-134 | `n, rhs >= 0` gives `rhs * 10^digit(n) + n`; `n >= 0 > rhs` gives `rhs * 10^digit(n) - n`; a negative `n` makes the concatenated text fail to parse |
| `Number.AddDigitOfDigit` | src/my_random.rs:131-134 | for a digit `d` from 1 to 9, `add_digit(n, d) == d * 10^digit(n) + n`; for `d == 0` the leading zero is lost and the result is `n` |
| `Number.SubDigit` | src/my_random.rs:135-137 | the number is returned unchanged; only a temporary copy of its text loses its last character |
| `Number.PoppedText` | src/my_random.rs:135-137 | the discarded popped copy would parse to `n / 10` when `n >= 10`, and to nothing when `n` has one digit |
| `Ranges.Range.New` | src/my_random.rs:70-81 | the normalised range has a bound exactly when the Rust range is not `..`; `NewShapes` gives the result for each shape and `IsRangeAgreesWithContains` relates it to the original bounds |
| `Ranges.Range.IsRange` | src/my_random.rs:98-108 | defined only when a bound is present; a range whose end lies below its start holds nothing; `IsRangeAgreesWithContains` relates it to Rust's `contains` |
| `Ranges.NewShapes` | src/my_random.rs:70-81 | `a..b` gives `(Some(a), Some(b-1))`; `a..=b` gives `(Some(a), Some(b))`; `a..` gives `(Some(a), None)`; `..b` and `..=b` give `(None, Some(b-1))` and `(None, Some(b))`; an excluded start is kept with no +1; `..` has no bound |
| `Ranges.IsRangeAgreesWithContains` | src/my_random.rs:70-108 | `is_range` on a range built by `Range::new` is Rust's `contains` on the original bounds, in both directions; the one difference is an excluded start, where the start value itself is accepted too |
| `Ranges.NewIdempotent` | src/my_random.rs:70-81 | normalising an already normalised range (inclusive bounds) gives back the same start and end |
| `Ranges.IsRangeExamples` | src/my_random.rs:83-97 | the examples in the documentation hold: `4..10` holds 4 and not 10, `10..` holds 10 and not 4, `..10` holds 4 and not 10 |
| `MyRandom.GrowCandidate` | src/my_random.rs:58 | putting a digit in front of a non-negative candidate always parses, keeps it non-negative, adds at most one digit, and keeps the text free of inner zeros |
| `MyRandom.Loop` | src/my_random.rs:32-59 | every value the loop breaks out with passes `is_range` and is non-negative; starting from a candidate with no inner zero and at most `max(1, max_digit)` digits, the returned value keeps both properties |
| `MyRandom.Compose` | src/my_random.rs:25-60 | every value returned is in the range, non-negative and free of inner zeros; with no end it has at most nine digits |
| `MyRandom.RangeRandom` | src/my_random.rs:19-61 | the loop, sampling in the source's order and exiting by `break`, returns exactly what `Compose` specifies, so a returned value passes `is_range` |
| `MyRandom.FromZeroBelowEnd` | src/my_random.rs:178 | a value drawn from `0..n` satisfies `0 <= value < n`, so it is a valid index into an array of length `n` |
| `MyRandom.ComposeReturnsExactly` | src/my_random.rs:25-60 | a value can be returned for some digit sequence exactly when it is non-negative, in the range, free of inner zeros and, for a range without end, at most nine digits long |
| `MyRandom.HundredsNeverReturned` | src/my_random.rs:32-59 | for `100..110`, no digit sequence makes the loop return |
| `MyRandom.NoEndStaysBelowTenDigits` | src/my_random.rs:27-31 | with no end, `max_digit` is one sampled digit, so a start of `10^9` or more is never reached and the loop never returns |
| `MyRandom.StopsOnFirstSample` | src/my_random.rs:33-39 | two runs on `4..10`: digits `[5, 3]` return 5 at once; digits `[2, 3, 6, 1]` reject 2, draw 6 and return it |
| `MyRandom.GrowsAtTheFront` | src/my_random.rs:58 | growing candidate 3 by digit 4 gives 43: the new digit becomes the most significant one |

## Left out

- The clock read of `singl_random` (src/my_random.rs:11-17) and
  `singl_number` (src/random.rs:3-6) is I/O on the system clock. It is
  replaced by the digit-sequence parameter, whose elements are 0..9.
- Termination of `range_random`'s loop, which depends on the clock. Only
  partial correctness is proved: a value that comes out of the loop is in the
  range. A run that reads past the end of the digit sequence is reported as
  `OutOfDigits`.
- The twelve fixed-width integer types and the generic `Num`/`FromStr`
  machinery are left out. One unbounded signed integer is modelled. As a
  result, the overflow `parse` panics of narrow types are not modelled, nor
  the underflow of an excluded end of 0 in an unsigned type
  (`n - N::one()`). The rejection of a leading `-` by unsigned types'
  `parse` is also not modelled.
- `trim()` before each `parse` is not modelled. The text it is applied to
  never holds whitespace, so it changes nothing.
- `MyRandom.Loop`: the three exits of the loop (digit below 7, digit count
  equal to `max_digit`, digit count above it) are one case in the
  specification. They act alike because `sub_digit` changes nothing.
  `RangeRandom` keeps them as three separate branches.
- MyRandom.RangeRandom: requires a range with at least one bound (`HasBound`),
  as do `Ranges.Range.IsRange`, `MyRandom.Loop` and `MyRandom.Compose`. For
  `..` the source panics on the unwrap of the missing end at
  src/my_random.rs:106; the model does not describe that panic.
- `Number.SubDigit` takes the candidate and returns it, rather than
  mutating it in place through `&mut self`.
- `src/main.rs`, the guessing loop on standard input, is left out. That
  loop uses the external `rand` crate, not this generator.
- The test helpers `show_bar_graph`, `singl_random_repeat` and
  `range_random_repeat` (src/my_random.rs:144-194) produce printed
  statistics only, so they are left out.
