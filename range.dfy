/**
  `Range`: a Rust range normalised to an optional inclusive start and an
  optional inclusive end.
*/
module Ranges {
  import opened Wrappers

  /** One end of a Rust range, as `std::ops::Bound` gives it. */
  datatype Bound = Included(n: int) | Excluded(n: int) | Unbounded

  datatype Range = Range(start: Option<int>, end: Option<int>) {

    /**
      `Range::new`: a start bound is kept whether it is included or excluded;
      an excluded end `b` becomes the inclusive end `b - 1`.
    */
    static function New(startBound: Bound, endBound: Bound): (r: Range)
      ensures r.HasBound() <==> !(startBound.Unbounded? && endBound.Unbounded?)
    {
      var start := match startBound
        case Included(n) => Some(n)
        case Excluded(n) => Some(n)
        case Unbounded => None;
      var end := match endBound
        case Excluded(n) => Some(n - 1)
        case Included(n) => Some(n)
        case Unbounded => None;
      Range(start, end)
    }

    /** `is_range` can only be asked when at least one bound is present. */
    predicate HasBound() {
      start.Some? || end.Some?
    }

    /**
      `is_range`: membership between the bounds that are present. With no
      start the end is unwrapped, so a range with no bound at all is refused.
      The start is not checked against the end: a range whose end lies below
      its start holds nothing.
    */
    predicate IsRange(num: int)
      requires HasBound()
      ensures start.Some? && end.Some? && end.value < start.value ==> !IsRange(num)
    {
      if start.Some? then
        if end.Some? then start.value <= num && num <= end.value
        else start.value <= num
      else num <= end.value
    }
  }

  /** Membership as Rust's `RangeBounds::contains` defines it from the two bounds. */
  predicate Contains(startBound: Bound, endBound: Bound, num: int) {
    (match startBound
      case Included(a) => a <= num
      case Excluded(a) => a < num
      case Unbounded => true)
    &&
    (match endBound
      case Included(b) => num <= b
      case Excluded(b) => num < b
      case Unbounded => true)
  }

  /** The bound an already-normalised end stands for. */
  function Inclusive(bound: Option<int>): Bound {
    match bound
    case Some(n) => Included(n)
    case None => Unbounded
  }

  /** The four range shapes `a..b`, `a..=b`, `a..` and `..b`, and an excluded start. */
  lemma NewShapes(a: int, b: int)
    ensures Range.New(Included(a), Excluded(b)) == Range(Some(a), Some(b - 1))
    ensures Range.New(Included(a), Included(b)) == Range(Some(a), Some(b))
    ensures Range.New(Included(a), Unbounded) == Range(Some(a), None)
    ensures Range.New(Unbounded, Excluded(b)) == Range(None, Some(b - 1))
    ensures Range.New(Unbounded, Included(b)) == Range(None, Some(b))
    ensures Range.New(Excluded(a), Excluded(b)) == Range(Some(a), Some(b - 1))
    ensures !Range.New(Unbounded, Unbounded).HasBound()
  {
  }

  /**
    `is_range` on a range built by `Range::new` agrees with Rust's own
    `contains` for every bound except an excluded start, which `Range::new`
    keeps as if it were included: the start value itself is then accepted too.
  */
  lemma IsRangeAgreesWithContains(startBound: Bound, endBound: Bound, num: int)
    requires !(startBound.Unbounded? && endBound.Unbounded?)
    ensures Range.New(startBound, endBound).HasBound()
    ensures !startBound.Excluded? ==>
      (Range.New(startBound, endBound).IsRange(num) <==> Contains(startBound, endBound, num))
    ensures startBound.Excluded? ==>
      (Range.New(startBound, endBound).IsRange(num) <==>
        Contains(startBound, endBound, num) || (num == startBound.n && Contains(Included(num), endBound, num)))
  {
  }

  /** Normalising a range that is already normalised changes nothing. */
  lemma NewIdempotent(r: Range)
    ensures Range.New(Inclusive(r.start), Inclusive(r.end)) == r
  {
  }

  /** The examples of `is_range`'s documentation. */
  lemma IsRangeExamples()
    ensures Range.New(Included(4), Excluded(10)).IsRange(4)
    ensures !Range.New(Included(4), Excluded(10)).IsRange(10)
    ensures !Range.New(Included(10), Unbounded).IsRange(4)
    ensures Range.New(Included(10), Unbounded).IsRange(10)
    ensures Range.New(Unbounded, Excluded(10)).IsRange(4)
    ensures !Range.New(Unbounded, Excluded(10)).IsRange(10)
  {
  }
}
