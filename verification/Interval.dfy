/** Half-open intervals [min, max) over the integers (base/interval.h). */
module Intervals {

  datatype Interval = Interval(min: int, max: int) {

    predicate Empty() {
      min >= max
    }

    predicate Contains(t: int) {
      min <= t && max > t
    }

    /** Contains(const Interval&): false when either side is empty. */
    predicate Includes(i: Interval) {
      !Empty() && !i.Empty() && min <= i.min && max >= i.max
    }

    ghost predicate Covers(i: Interval) {
      forall p :: i.Contains(p) ==> Contains(p)
    }

    predicate Intersects(i: Interval) {
      !Empty() && !i.Empty() && min < i.max && max > i.min
    }

    /** The interval that the two-argument Intersects stores through its out parameter. */
    function Meet(i: Interval): Interval {
      Interval(if min >= i.min then min else i.min, if max <= i.max then max else i.max)
    }

    /** The difference of two intervals leaves at most two pieces, lo below hi. */
    method Difference(i: Interval) returns (hit: bool, lo: Interval, hi: Interval)
      ensures hit <==> exists p :: Contains(p) && i.Contains(p)
      ensures forall p :: lo.Contains(p) || hi.Contains(p) <==> Contains(p) && !i.Contains(p)
      ensures forall p, q :: lo.Contains(p) && hi.Contains(q) ==> p + 1 < q
      ensures hit && !lo.Empty() ==> lo == Interval(min, i.min)
      ensures hit && !hi.Empty() ==> hi == Interval(i.max, max)
    {
      IntersectsIffCommonPoint(this, i);
      lo, hi := Interval(0, 0), Interval(0, 0);
      if Empty() {
        return false, lo, hi;
      }
      if i.Empty() {
        return false, this, hi;
      }
      if min < i.max && min >= i.min && max > i.max {
        return true, lo, Interval(i.max, max);
      }
      if max > i.min && max <= i.max && min < i.min {
        return true, Interval(min, i.min), hi;
      }
      if min < i.min && max > i.max {
        return true, Interval(min, i.min), Interval(i.max, max);
      }
      if min >= i.min && max <= i.max {
        return true, lo, hi;
      }
      return false, this, hi;
    }
  }

  lemma IntersectsIffCommonPoint(a: Interval, b: Interval)
    ensures a.Intersects(b) <==> exists p :: a.Contains(p) && b.Contains(p)
    ensures a.Intersects(b) ==> forall p :: a.Meet(b).Contains(p) <==> a.Contains(p) && b.Contains(p)
  {
    if a.Intersects(b) {
      assert a.Contains(a.Meet(b).min) && b.Contains(a.Meet(b).min);
    }
  }

  lemma IncludesIffSubset(a: Interval, b: Interval)
    ensures a.Includes(b) <==> !b.Empty() && forall p :: b.Contains(p) ==> a.Contains(p)
  {
    if !b.Empty() && forall p :: b.Contains(p) ==> a.Contains(p) {
      assert b.Contains(b.min) && b.Contains(b.max - 1);
    }
  }

  /** An interval updated in place. */
  class IntervalCell {
    var value: Interval

    constructor (value: Interval)
      ensures this.value == value
    {
      this.value := value;
    }

    /** Leaves exactly the common points, and says whether anything changed. */
    method IntersectWith(i: Interval) returns (modified: bool)
      modifies this
      ensures modified <==> value != old(value)
      ensures forall p :: value.Contains(p) <==> old(value).Contains(p) && i.Contains(p)
    {
      if value.Empty() {
        return false;
      }
      modified := false;
      if i.min > value.min {
        value := Interval(i.min, value.max);
        modified := true;
      }
      if i.max < value.max {
        value := Interval(value.min, i.max);
        modified := true;
      }
    }

    /** Leaves the smallest interval that has the points of both, and says whether anything changed. */
    method SpanningUnion(i: Interval) returns (modified: bool)
      modifies this
      ensures modified <==> value != old(value)
      ensures value.Covers(old(value)) && value.Covers(i)
      ensures forall j: Interval :: j.Covers(old(value)) && j.Covers(i) ==> j.Covers(value)
    {
      if i.Empty() {
        return false;
      }
      if value.Empty() {
        value := i;
        return true;
      }
      modified := false;
      assert i.Contains(i.min) && i.Contains(i.max - 1);
      assert value.Contains(value.min) && value.Contains(value.max - 1);
      if i.min < value.min {
        value := Interval(i.min, value.max);
        modified := true;
      }
      if i.max > value.max {
        value := Interval(value.min, i.max);
        modified := true;
      }
    }
  }
}
