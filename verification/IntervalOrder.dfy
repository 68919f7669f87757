/**
 * The std::set of intervals behind an IntervalSet, as a sequence sorted by the
 * set's comparator, and the set of integer points it stands for.
 */
module IntervalOrder {
  import opened Intervals

  /** IntervalComparator: ascending min, then descending max. */
  predicate Less(a: Interval, b: Interval) {
    a.min < b.min || (a.min == b.min && a.max > b.max)
  }

  ghost predicate Ordered(s: seq<Interval>) {
    forall i, j :: 0 <= i < j < |s| ==> Less(s[i], s[j])
  }

  ghost predicate AllNonEmpty(s: seq<Interval>) {
    forall i :: 0 <= i < |s| ==> s[i].min < s[i].max
  }

  /** Each interval ends strictly before the next begins: disjoint and not adjacent. */
  ghost predicate Separated(s: seq<Interval>) {
    forall i, j :: 0 <= i < j < |s| ==> s[i].max < s[j].min
  }

  /** The documented representation: sorted, non-empty, disjoint, non-adjacent. */
  ghost predicate Canonical(s: seq<Interval>) {
    AllNonEmpty(s) && Separated(s)
  }

  ghost predicate Covers(s: seq<Interval>, p: int) {
    exists i :: 0 <= i < |s| && s[i].Contains(p)
  }

  ghost function Points(s: seq<Interval>): iset<int> {
    iset p | Covers(s, p)
  }

  ghost function Span(i: Interval): iset<int> {
    iset p | i.Contains(p)
  }

  ghost predicate Apart(a: seq<Interval>, b: seq<Interval>) {
    Points(a) !! Points(b)
  }

  // ---- std::set primitives ----

  /** std::set::upper_bound: the first position whose element is greater than x. */
  function UpperBound(s: seq<Interval>, x: Interval): (i: nat)
    ensures i <= |s|
    ensures forall j :: 0 <= j < i ==> !Less(x, s[j])
    ensures i < |s| ==> Less(x, s[i])
  {
    if s == [] || Less(x, s[0]) then 0 else
      assert forall j :: 1 <= j < |s| ==> s[j] == s[1..][j - 1];
      1 + UpperBound(s[1..], x)
  }

  /** Where std::set::insert puts x, or finds it: the first position not less than x. */
  function Slot(s: seq<Interval>, x: Interval): (i: nat)
    ensures i <= |s|
    ensures forall j :: 0 <= j < i ==> Less(s[j], x)
    ensures i < |s| ==> !Less(s[i], x)
  {
    if s == [] || !Less(s[0], x) then 0 else
      assert forall j :: 1 <= j < |s| ==> s[j] == s[1..][j - 1];
      1 + Slot(s[1..], x)
  }

  function InsertAt(s: seq<Interval>, k: nat, x: Interval): seq<Interval>
    requires k <= |s|
  {
    s[..k] + [x] + s[k..]
  }

  // ---- points ----

  lemma PointsConcat(a: seq<Interval>, b: seq<Interval>)
    ensures Points(a + b) == Points(a) + Points(b)
  {
    forall p | p in Points(a) + Points(b) ensures p in Points(a + b) {
      if p in Points(a) {
        var i :| 0 <= i < |a| && a[i].Contains(p);
        assert (a + b)[i].Contains(p);
      } else {
        var i :| 0 <= i < |b| && b[i].Contains(p);
        assert (a + b)[|a| + i].Contains(p);
      }
    }
  }

  lemma PointsSingle(x: Interval)
    ensures Points([x]) == Span(x)
  {
    assert [x][0] == x;
  }

  lemma PointsSplit(s: seq<Interval>, k: nat)
    requires k <= |s|
    ensures Points(s) == Points(s[..k]) + Points(s[k..])
  {
    PointsConcat(s[..k], s[k..]);
    assert s == s[..k] + s[k..];
  }

  lemma PointsHead(s: seq<Interval>, k: nat)
    requires k < |s|
    ensures Points(s[k..]) == Span(s[k]) + Points(s[k + 1..])
  {
    PointsConcat([s[k]], s[k + 1..]);
    PointsSingle(s[k]);
    assert s[k..] == [s[k]] + s[k + 1..];
  }

  lemma PointsLast(s: seq<Interval>, k: nat)
    requires k < |s|
    ensures Points(s[..k + 1]) == Points(s[..k]) + Span(s[k])
  {
    PointsConcat(s[..k], [s[k]]);
    PointsSingle(s[k]);
    assert s[..k + 1] == s[..k] + [s[k]];
  }

  lemma PointsInsertAt(s: seq<Interval>, k: nat, x: Interval)
    requires k <= |s|
    ensures Points(InsertAt(s, k, x)) == Points(s) + Span(x)
  {
    PointsSplit(s, k);
    PointsSingle(x);
    PointsConcat(s[..k], [x]);
    PointsConcat(s[..k] + [x], s[k..]);
  }

  // ---- canonical form ----

  lemma CanonicalOrdered(s: seq<Interval>)
    requires Canonical(s)
    ensures Ordered(s)
  {
    forall i, j | 0 <= i < j < |s| ensures Less(s[i], s[j]) {
      assert s[i].min < s[i].max < s[j].min;
    }
  }

  lemma CanonicalSlice(s: seq<Interval>, a: nat, b: nat)
    requires Canonical(s) && a <= b <= |s|
    ensures Canonical(s[a..b])
  {
  }

  lemma CanonicalConcat(a: seq<Interval>, b: seq<Interval>)
    requires Canonical(a) && Canonical(b)
    requires a != [] && b != [] ==> a[|a| - 1].max < b[0].min
    ensures Canonical(a + b)
  {
    var s := a + b;
    forall i, j | 0 <= i < j < |s| ensures s[i].max < s[j].min {
      if i < |a| <= j {
        assert a[i].max <= a[|a| - 1].max;
        assert b[0].min <= b[j - |a|].min;
      }
    }
  }

  /** Every point of a canonical run lies between its first min and its last max. */
  lemma PointsBounds(s: seq<Interval>)
    requires Canonical(s) && s != []
    ensures forall p :: p in Points(s) ==> s[0].min <= p < s[|s| - 1].max
    ensures s[0].min in Points(s)
  {
    assert s[0].Contains(s[0].min);
    forall p | p in Points(s) ensures s[0].min <= p < s[|s| - 1].max {
      var i :| 0 <= i < |s| && s[i].Contains(p);
      assert s[0].min <= s[i].min && s[i].max <= s[|s| - 1].max;
    }
  }

  /** The max of the first interval is the first gap of the set. */
  lemma FirstGap(s: seq<Interval>)
    requires Canonical(s) && s != []
    ensures s[0].max !in Points(s)
    ensures forall p :: s[0].min <= p < s[0].max ==> p in Points(s)
  {
    forall p | s[0].min <= p < s[0].max ensures p in Points(s) {
      assert s[0].Contains(p);
    }
    forall i | 0 <= i < |s| ensures !s[i].Contains(s[0].max) {
      assert i == 0 || s[0].max < s[i].min;
    }
  }

  /** The canonical form is unique: it is determined by its points. */
  lemma {:induction false} CanonicalUnique(a: seq<Interval>, b: seq<Interval>)
    requires Canonical(a) && Canonical(b)
    requires Points(a) == Points(b)
    ensures a == b
  {
    if a == [] {
      if b != [] { PointsBounds(b); }
    } else if b == [] {
      PointsBounds(a);
    } else {
      PointsBounds(a);
      PointsBounds(b);
      assert a[0].min == b[0].min;
      FirstGap(a);
      FirstGap(b);
      assert a[0].max == b[0].max;
      TailPoints(a);
      TailPoints(b);
      CanonicalUnique(a[1..], b[1..]);
      assert a == [a[0]] + a[1..] && b == [b[0]] + b[1..];
    }
  }

  lemma TailPoints(s: seq<Interval>)
    requires Canonical(s) && s != []
    ensures Canonical(s[1..])
    ensures Points(s[1..]) == Points(s) - Span(s[0])
  {
    PointsHead(s, 0);
    assert s[0..] == s;
    CanonicalSlice(s, 1, |s|);
    if s[1..] != [] {
      PointsBounds(s[1..]);
    }
  }
}
