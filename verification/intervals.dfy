/** Parameter intervals, used both for the range of acceptable hit distances
    and for clamping colour intensities.

    The interval header is not part of this model.  The renderer only uses
    `surrounds` (strict on both ends) for hit distances and `clamp` for
    colours; an upper end may be `infinity`, which reals lack, so the upper
    bound is either a finite real or `Infinity`. */
module Intervals {

  datatype Bound = Finite(value: real) | Infinity

  /** `x < b` for a finite or infinite upper bound. */
  predicate Below(x: real, b: Bound) {
    b.Infinity? || x < b.value
  }

  datatype Interval = Interval(min: real, max: Bound) {

    /** `min <= x <= max` */
    predicate Contains(x: real) {
      min <= x && (max.Infinity? || x <= max.value)
    }

    /** `min < x < max` */
    predicate Surrounds(x: real) {
      min < x && Below(x, max)
    }

    /** `clamp(x)`: `min` below the interval, `max` above it, `x` inside. */
    function Clamp(x: real): (r: real)
      ensures Contains(x) ==> r == x
      ensures (max.Infinity? || min <= max.value) ==> Contains(r)
      ensures x < min ==> r == min
      ensures max.Finite? && max.value < x && min <= max.value ==> r == max.value
    {
      if x < min then min
      else if max.Finite? && x > max.value then max.value
      else x
    }
  }

  /** Clamping is idempotent and monotone on a non-empty interval. */
  lemma ClampIdempotentMonotone(i: Interval, x: real, y: real)
    requires i.max.Infinity? || i.min <= i.max.value
    ensures i.Clamp(i.Clamp(x)) == i.Clamp(x)
    ensures x <= y ==> i.Clamp(x) <= i.Clamp(y)
  {
  }

  /** Narrowing the upper bound of an interval to a point below it: a value is
      surrounded by the narrowed interval exactly when it is surrounded by the
      original one and lies below the new bound. */
  lemma SurroundsNarrowed(i: Interval, c: real, x: real)
    requires Below(c, i.max)
    ensures Interval(i.min, Finite(c)).Surrounds(x) <==> i.Surrounds(x) && x < c
  {
  }
}
