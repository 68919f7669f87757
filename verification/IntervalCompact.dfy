/** Reasoning for IntervalSet::Compact: coalescing a range of a sorted set of intervals. */
module IntervalCompact {
  import opened Intervals
  import opened IntervalOrder

  /** What Compact asks of the set it is called on, for the range [begin, end). */
  ghost predicate Compactable(s: seq<Interval>, begin: nat, end: nat) {
    begin <= end <= |s| && Ordered(s) && AllNonEmpty(s) &&
    forall i :: 0 <= i < begin < |s| ==> s[i].min < s[begin].min
  }

  /** The range [begin, end) of s has been coalesced into mid. */
  ghost predicate Compacted(s: seq<Interval>, begin: nat, end: nat, mid: seq<Interval>)
    requires begin <= end <= |s|
  {
    Canonical(mid) && Points(mid) == Points(s[begin..end]) &&
    (begin == end <==> mid == []) &&
    (begin < end ==> mid[0].min == s[begin].min)
  }

  /**
   * Loop state of Compact: s0 is the set on entry, s the current one, the first upTo
   * elements of s0 have been coalesced into s[begin..it] and the rest is untouched.
   */
  ghost predicate Compacting(s0: seq<Interval>, s: seq<Interval>, begin: nat, it: nat, upTo: nat) {
    begin < it <= |s| && begin < upTo <= |s0| && upTo - it == |s0| - |s| >= 0 &&
    s[..begin] == s0[..begin] && s[it..] == s0[upTo..] &&
    Compacted(s0, begin, upTo, s[begin..it]) &&
    (upTo < |s0| ==> s[it - 1].min <= s0[upTo].min)
  }

  lemma SlotIs(s: seq<Interval>, x: Interval, k: nat)
    requires k <= |s|
    requires forall j :: 0 <= j < k ==> Less(s[j], x)
    requires k < |s| ==> Less(x, s[k])
    ensures Slot(s, x) == k
    ensures k < |s| ==> s[k] != x
  {
  }

  /** Left of the last coalesced interval everything starts strictly earlier. */
  lemma PrefixBelow(s0: seq<Interval>, s: seq<Interval>, begin: nat, it: nat, upTo: nat, j: nat)
    requires Compactable(s0, begin, |s0|) && Compacting(s0, s, begin, it, upTo)
    requires j < it - 1
    ensures s[j].min < s[it - 1].min
  {
    var mid := s[begin..it];
    if j < begin {
      assert s[..begin][j] == s0[..begin][j];
      assert s[j].min < s0[begin].min == mid[0].min <= mid[|mid| - 1].min;
    } else {
      assert mid[j - begin].max < mid[|mid| - 1].min;
    }
  }

  lemma PrevBelow(s0: seq<Interval>, s: seq<Interval>, begin: nat, it: nat, upTo: nat)
    requires Compactable(s0, begin, |s0|) && Compacting(s0, s, begin, it, upTo)
    requires it < |s|
    ensures s[it] == s0[upTo]
    ensures s[it - 1].min <= s[it].min
  {
    assert s[it..][0] == s0[upTo..][0];
  }

  /** Erasing prev and it and inserting their union puts the union where prev was. */
  lemma MergeSlot(s0: seq<Interval>, s: seq<Interval>, begin: nat, it: nat, upTo: nat, i: Interval)
    requires Compactable(s0, begin, |s0|) && Compacting(s0, s, begin, it, upTo)
    requires it < |s| && i == Hull(s[it - 1], s[it])
    ensures Slot(s[..it - 1] + s[it + 1..], i) == it - 1
    ensures it + 1 < |s| ==> s[it + 1] != i
  {
    var r := s[..it - 1] + s[it + 1..];
    PrevBelow(s0, s, begin, it, upTo);
    forall j | 0 <= j < it - 1 ensures Less(r[j], i) {
      PrefixBelow(s0, s, begin, it, upTo, j);
    }
    if it + 1 < |s| {
      assert r[it - 1] == s[it + 1];
      assert s[it..][1] == s0[upTo..][1];
      assert Less(s0[upTo], s0[upTo + 1]);
    }
    SlotIs(r, i, it - 1);
  }

  function Hull(a: Interval, b: Interval): Interval {
    Interval(a.min, if a.max >= b.max then a.max else b.max)
  }

  /** Widening the last coalesced interval over an interval that touches it. */
  lemma WidenLast(mid: seq<Interval>, x: Interval)
    requires Canonical(mid) && mid != []
    requires mid[|mid| - 1].min <= x.min <= mid[|mid| - 1].max && x.min < x.max
    ensures Canonical(mid[..|mid| - 1] + [Hull(mid[|mid| - 1], x)])
    ensures Points(mid[..|mid| - 1] + [Hull(mid[|mid| - 1], x)]) == Points(mid) + Span(x)
  {
    var last := |mid| - 1;
    var i := Hull(mid[last], x);
    CanonicalSlice(mid, 0, last);
    CanonicalConcat(mid[..last], [i]);
    assert Span(i) == Span(mid[last]) + Span(x);
    PointsLast(mid, last);
    assert mid[..last + 1] == mid;
    PointsConcat(mid[..last], [i]);
    PointsSingle(i);
  }

  lemma MergeStep(s0: seq<Interval>, s: seq<Interval>, begin: nat, it: nat, upTo: nat)
    requires Compactable(s0, begin, |s0|) && Compacting(s0, s, begin, it, upTo)
    requires it < |s| && s[it - 1].max >= s[it].min
    ensures Compacting(s0, s[..it - 1] + [Hull(s[it - 1], s[it])] + s[it + 1..], begin, it, upTo + 1)
  {
    PrevBelow(s0, s, begin, it, upTo);
    var i := Hull(s[it - 1], s[it]);
    var r := s[..it - 1] + [i] + s[it + 1..];
    var mid, mid' := s[begin..it], r[begin..it];
    assert r[it..] == s[it..][1..];
    assert r[..begin] == s[..begin];
    assert upTo + 1 < |s0| ==> Less(s0[upTo], s0[upTo + 1]);
    assert Compacted(s0, begin, upTo + 1, mid') by {
      assert mid' == mid[..|mid| - 1] + [i];
      WidenLast(mid, s[it]);
      ExtendRange(s0, begin, upTo);
    }
  }

  lemma KeepStep(s0: seq<Interval>, s: seq<Interval>, begin: nat, it: nat, upTo: nat)
    requires Compactable(s0, begin, |s0|) && Compacting(s0, s, begin, it, upTo)
    requires it < |s| && s[it - 1].max < s[it].min
    ensures Compacting(s0, s, begin, it + 1, upTo + 1)
  {
    PrevBelow(s0, s, begin, it, upTo);
    var mid, mid' := s[begin..it], s[begin..it + 1];
    assert mid' == mid + [s[it]];
    assert upTo + 1 < |s0| ==> Less(s0[upTo], s0[upTo + 1]);
    assert s[it + 1..] == s[it..][1..] == s0[upTo + 1..];
    CanonicalConcat(mid, [s[it]]);
    PointsConcat(mid, [s[it]]);
    PointsSingle(s[it]);
    ExtendRange(s0, begin, upTo);
  }

  lemma ExtendRange(s: seq<Interval>, begin: nat, upTo: nat)
    requires begin <= upTo < |s|
    ensures Points(s[begin..upTo + 1]) == Points(s[begin..upTo]) + Span(s[upTo])
  {
    PointsConcat(s[begin..upTo], [s[upTo]]);
    PointsSingle(s[upTo]);
    assert s[begin..upTo + 1] == s[begin..upTo] + [s[upTo]];
  }

  lemma CompactStart(s0: seq<Interval>, begin: nat)
    requires Compactable(s0, begin, |s0|) && begin < |s0|
    ensures Compacting(s0, s0, begin, begin + 1, begin + 1)
  {
    assert s0[begin..begin + 1] == [s0[begin]];
    assert begin + 1 < |s0| ==> Less(s0[begin], s0[begin + 1]);
  }

  /** Replacing the range by its coalesced form keeps the points of the whole set. */
  lemma CompactedPoints(s: seq<Interval>, begin: nat, end: nat, mid: seq<Interval>)
    requires begin <= end <= |s| && Compacted(s, begin, end, mid)
    ensures Points(s[..begin] + mid + s[end..]) == Points(s)
  {
    PointsConcat(s[..begin], mid);
    PointsConcat(s[..begin] + mid, s[end..]);
    PointsConcat(s[..begin], s[begin..end]);
    PointsConcat(s[..begin] + s[begin..end], s[end..]);
    assert s == s[..begin] + s[begin..end] + s[end..];
  }

  // ---- Add: which range has to be compacted ----

  lemma InsertAtElements(c: seq<Interval>, pos: nat, x: Interval)
    requires pos <= |c|
    ensures |InsertAt(c, pos, x)| == |c| + 1
    ensures forall j :: 0 <= j <= |c| ==>
      InsertAt(c, pos, x)[j] == (if j < pos then c[j] else if j == pos then x else c[j - 1])
  {
  }

  lemma InsertedOrdered(c: seq<Interval>, x: Interval, pos: nat)
    requires Ordered(c) && pos == Slot(c, x)
    requires pos < |c| ==> c[pos] != x
    ensures Ordered(InsertAt(c, pos, x))
  {
    var s := InsertAt(c, pos, x);
    InsertAtElements(c, pos, x);
    forall i, j | 0 <= i < j < |s| ensures Less(s[i], s[j]) {
      if i == pos {
        assert j == pos + 1 || Less(c[pos], c[j - 1]);
      }
    }
  }

  /** The set just after Add inserted x: sorted, and canonical apart from x itself. */
  lemma InsertedCompactable(c: seq<Interval>, x: Interval, pos: nat)
    requires Canonical(c) && x.min < x.max && pos == Slot(c, x)
    requires pos < |c| ==> c[pos] != x
    ensures Compactable(InsertAt(c, pos, x), if pos == 0 then 0 else pos - 1, |c| + 1)
  {
    CanonicalOrdered(c);
    InsertedOrdered(c, x, pos);
    InsertAtElements(c, pos, x);
  }

  /** The coalesced range ends before the first interval right of it starts. */
  lemma CoalescedBelow(c: seq<Interval>, x: Interval, pos: nat, begin: nat, end: nat, mid: seq<Interval>)
    requires Canonical(c) && pos <= |c| && begin <= pos < end <= |c|
    requires InsertAt(c, pos, x)[end].min > x.max
    requires Compacted(InsertAt(c, pos, x), begin, end, mid)
    ensures mid[|mid| - 1].max < c[end - 1].min
  {
    var s := InsertAt(c, pos, x);
    InsertAtElements(c, pos, x);
    var last := mid[|mid| - 1].max - 1;
    assert mid[|mid| - 1].Contains(last);
    assert last in Points(mid);
    var k :| 0 <= k < |s[begin..end]| && s[begin..end][k].Contains(last);
    assert s[begin..end][k] == s[begin + k] && s[end] == c[end - 1];
    assert begin + k != pos ==> s[begin + k] == c[if begin + k < pos then begin + k else begin + k - 1];
  }

  lemma InsertAtOutside(c: seq<Interval>, x: Interval, pos: nat, begin: nat, end: nat)
    requires begin <= pos < end <= |c| + 1
    ensures InsertAt(c, pos, x)[..begin] == c[..begin]
    ensures InsertAt(c, pos, x)[end..] == c[end - 1..]
  {
  }

  /** Compacting from the left neighbour up to upper_bound([max, max)) is enough. */
  lemma AddCanonical(c: seq<Interval>, begin: nat, end: nat, mid: seq<Interval>)
    requires Canonical(c) && begin < end <= |c| + 1
    requires Canonical(mid) && mid != []
    requires begin > 0 ==> begin < |c| && mid[0].min == c[begin].min
    requires end <= |c| ==> mid[|mid| - 1].max < c[end - 1].min
    ensures Canonical(c[..begin] + mid + c[end - 1..])
  {
    var left, right := c[..begin], c[end - 1..];
    CanonicalSlice(c, 0, begin);
    CanonicalSlice(c, end - 1, |c|);
    CanonicalConcat(left, mid);
    CanonicalConcat(left + mid, right);
  }

  lemma CompactingRoom(s0: seq<Interval>, s: seq<Interval>, begin: nat, it: nat, upTo: nat)
    requires Compacting(s0, s, begin, it, upTo)
    ensures upTo - it == |s0| - |s| >= 0
  {
  }

  lemma NothingToCompact(s: seq<Interval>, begin: nat)
    requires begin <= |s|
    ensures Compacted(s, begin, begin, [])
    ensures s == s[..begin] + [] + s[begin..]
  {
    assert s[begin..begin] == [];
  }

  /** Leaving the loop of Compact. */
  lemma CompactEnd(s0: seq<Interval>, s: seq<Interval>, begin: nat, it: nat, upTo: nat)
    requires Compacting(s0, s, begin, it, upTo)
    ensures Compacted(s0, begin, upTo, s[begin..it])
    ensures s == s0[..begin] + s[begin..it] + s0[upTo..]
  {
    assert s == s[..begin] + s[begin..it] + s[it..];
  }
}
