/**
 * IntervalSet<int> (base/interval_set.h). The std::set is a sequence kept in comparator
 * order, an iterator is an index into it, end() is the length, and erasing or inserting
 * an element moves the indices of the elements behind it.
 */
module IntervalSets {
  import opened Intervals
  import opened IntervalOrder
  import opened IntervalCompact
  import opened IntervalPairs
  import opened IntervalAlgebra

  // ---- candidate lookups ----

  /** Only the interval just before upper_bound([v, v)) can contain v. */
  lemma OnlyCandidate(s: seq<Interval>, v: int)
    requires Canonical(s)
    ensures forall j :: 0 <= j < UpperBound(s, Interval(v, v)) ==> s[j].min <= v
    ensures forall j :: UpperBound(s, Interval(v, v)) <= j < |s| ==> s[j].min > v
    ensures forall j :: 0 <= j < |s| && j != UpperBound(s, Interval(v, v)) - 1 ==> !s[j].Contains(v)
  {
    var k := UpperBound(s, Interval(v, v));
    forall j | k <= j < |s| ensures s[j].min > v {
      assert s[k].min > v;
      assert j == k || s[k].max < s[j].min;
    }
    forall j | 0 <= j < k - 1 ensures !s[j].Contains(v) {
      assert s[j].max < s[k - 1].min <= v;
    }
  }

  /** Only the interval just before upper_bound(x) can include x. */
  lemma OnlyIncluder(s: seq<Interval>, x: Interval)
    requires Canonical(s)
    ensures forall j :: 0 <= j < |s| && s[j].Includes(x) ==> j == UpperBound(s, x) - 1
  {
    var k := UpperBound(s, x);
    forall j | 0 <= j < |s| && j + 1 != k ensures !s[j].Includes(x) {
      if j + 1 < k {
        assert s[j].max < s[k - 1].min <= x.min;
      } else {
        assert j >= k;
        assert j == k || s[k].min < s[k].max < s[j].min;
      }
    }
  }

  /** A non-empty interval all of whose points are in the set lies in one of its intervals. */
  lemma WholeInOne(s: seq<Interval>, x: Interval)
    requires Canonical(s)
    ensures (exists j :: 0 <= j < |s| && s[j].Includes(x)) <==> !x.Empty() && Span(x) <= Points(s)
  {
    if j :| 0 <= j < |s| && s[j].Includes(x) {
      IncludesIffSubset(s[j], x);
      forall p | p in Span(x) ensures p in Points(s) {
        assert s[j].Contains(p);
      }
    }
    if !x.Empty() && Span(x) <= Points(s) {
      assert x.min in Span(x);
      var j :| 0 <= j < |s| && s[j].Contains(x.min);
      GapAfter(s, j);
      assert s[j].max !in Span(x);
      assert s[j].Includes(x);
    }
  }

  lemma GapAfter(s: seq<Interval>, j: nat)
    requires Canonical(s) && j < |s|
    ensures s[j].max !in Points(s)
  {
    forall i | 0 <= i < |s| ensures !s[i].Contains(s[j].max) {
      assert i < j ==> s[i].max < s[j].min;
    }
  }

  lemma Monotone(s: seq<Interval>, i: nat, j: nat)
    requires Canonical(s) && i <= j < |s|
    ensures s[i].min <= s[j].min && s[i].max <= s[j].max
  {
    assert i == j || s[i].max < s[j].min;
  }

  /** A member at or inside x is found by one of the two tests of IsDisjoint. */
  lemma DisjointProbeFinds(s: seq<Interval>, x: Interval, it: nat, p: int, j: nat)
    requires Canonical(s) && j < |s| && s[j].Contains(p) && (p == x.min || x.Contains(p))
    requires it <= |s| && (it < |s| ==> s[it].min > x.min)
    ensures (it < |s| && x.max > s[it].min) || (it > 0 && s[it - 1].max > x.min)
  {
    if j < it {
      Monotone(s, j, it - 1);
    } else {
      Monotone(s, it, j);
    }
  }

  /** Either test of IsDisjoint points at a member at or inside x. */
  lemma DisjointProbeSound(s: seq<Interval>, x: Interval)
    requires Canonical(s)
    requires var it := UpperBound(s, Interval(x.min, x.min));
      (it < |s| && x.max > s[it].min) || (it > 0 && s[it - 1].max > x.min)
    ensures x.min in Points(s) || !(Span(x) !! Points(s))
  {
    var it := UpperBound(s, Interval(x.min, x.min));
    OnlyCandidate(s, x.min);
    if it < |s| && x.max > s[it].min {
      assert s[it].Contains(s[it].min);
      assert s[it].min in Points(s) && s[it].min in Span(x);
    } else {
      assert s[it - 1].Contains(x.min);
    }
  }

  /** What the upper_bound probe of IsDisjoint decides. */
  lemma DisjointProbe(s: seq<Interval>, x: Interval)
    requires Canonical(s)
    ensures var it := UpperBound(s, Interval(x.min, x.min));
      (it < |s| && x.max > s[it].min) || (it > 0 && s[it - 1].max > x.min) <==>
      x.min in Points(s) || !(Span(x) !! Points(s))
  {
    var it := UpperBound(s, Interval(x.min, x.min));
    OnlyCandidate(s, x.min);
    if (it < |s| && x.max > s[it].min) || (it > 0 && s[it - 1].max > x.min) {
      DisjointProbeSound(s, x);
    } else {
      forall p | p == x.min || x.Contains(p) ensures p !in Points(s) {
        forall j | 0 <= j < |s| ensures !s[j].Contains(p) {
          if s[j].Contains(p) { DisjointProbeFinds(s, x, it, p, j); }
        }
      }
    }
  }

  class IntervalSet {
    var intervals: seq<Interval>

    ghost predicate Valid()
      reads this
    {
      Canonical(intervals)
    }

    /** The integers in the set. */
    ghost function Values(): iset<int>
      reads this
    {
      Points(intervals)
    }

    constructor ()
      ensures Valid() && Values() == iset{}
    {
      intervals := [];
    }

    constructor Of(interval: Interval)
      ensures Valid() && Values() == Span(interval)
    {
      intervals := [];
      new;
      Add(interval);
    }

    // ---- queries ----

    function SpanningInterval(): (r: Interval)
      reads this
      requires Valid()
      ensures r.Empty() <==> Values() == iset{}
      ensures !r.Empty() ==> r.min in Values() && r.max - 1 in Values() && Values() <= Span(r)
    {
      if intervals == [] then SpanOf(intervals) else
        PointsBounds(intervals);
        assert intervals[|intervals| - 1].Contains(intervals[|intervals| - 1].max - 1);
        SpanOf(intervals)
    }

    predicate Contains(value: int): (r: bool)
      reads this
      requires Valid()
      ensures r <==> value in Values()
    {
      OnlyCandidate(intervals, value);
      var it := UpperBound(intervals, Interval(value, value));
      it != 0 && intervals[it - 1].Contains(value)
    }

    predicate ContainsInterval(interval: Interval): (r: bool)
      reads this
      requires Valid()
      ensures r <==> !interval.Empty() && Span(interval) <= Values()
    {
      OnlyIncluder(intervals, interval);
      WholeInOne(intervals, interval);
      var it := UpperBound(intervals, interval);
      it != 0 && intervals[it - 1].Includes(interval)
    }

    /** The position of the interval containing value; the length stands for end(). */
    function Find(value: int): (r: nat)
      reads this
      requires Valid()
      ensures r <= |intervals|
      ensures forall j :: 0 <= j < |intervals| && intervals[j].Contains(value) <==> j == r && r < |intervals|
    {
      OnlyCandidate(intervals, value);
      var it := UpperBound(intervals, Interval(value, value));
      if it == 0 then |intervals| else
      if intervals[it - 1].Contains(value) then it - 1 else |intervals|
    }

    function FindInterval(probe: Interval): (r: nat)
      reads this
      requires Valid()
      ensures r <= |intervals|
      ensures forall j :: 0 <= j < |intervals| && intervals[j].Includes(probe) <==> j == r && r < |intervals|
    {
      OnlyIncluder(intervals, probe);
      var it := UpperBound(intervals, probe);
      if it == 0 then |intervals| else
      if intervals[it - 1].Includes(probe) then it - 1 else |intervals|
    }

    /**
     * The documentation promises "no value of the interval is in the set". That is what is
     * returned except for an empty interval whose min is a member, where the answer is false.
     */
    predicate IsDisjoint(interval: Interval): (r: bool)
      reads this
      requires Valid()
      ensures r <==> Span(interval) !! Values() && !(interval.Empty() && interval.min in Values())
      ensures (r <==> Span(interval) !! Values()) <==> !(interval.Empty() && interval.min in Values())
    {
      DisjointProbe(intervals, interval);
      var it := UpperBound(intervals, Interval(interval.min, interval.min));
      if it != |intervals| && interval.max > intervals[it].min then false else
      if it == 0 then true else intervals[it - 1].max <= interval.min
    }

    method ContainsSet(other: IntervalSet) returns (r: bool)
      requires Valid() && other.Valid()
      ensures r <==> other.Values() != iset{} && other.Values() <= Values()
    {
      if !SpanningInterval().Includes(other.SpanningInterval()) {
        IncludesIffSubset(SpanningInterval(), other.SpanningInterval());
        if other.intervals != [] && other.Values() <= Values() {
          SpanSubset(intervals, other.intervals);
        }
        return false;
      }
      var i := 0;
      while i != |other.intervals|
        invariant i <= |other.intervals|
        invariant Points(other.intervals[..i]) <= Values()
      {
        PointsLast(other.intervals, i);
        if !ContainsInterval(other.intervals[i]) {
          PointsSplit(other.intervals, i + 1);
          return false;
        }
        i := i + 1;
      }
      assert other.intervals[..i] == other.intervals;
      r := true;
    }

    method Equals(other: IntervalSet) returns (r: bool)
      requires Valid() && other.Valid()
      ensures r <==> Values() == other.Values()
    {
      if Values() == other.Values() {
        CanonicalUnique(intervals, other.intervals);
      }
      if |intervals| != |other.intervals| {
        return false;
      }
      var i := 0;
      while i != |intervals|
        invariant i <= |intervals|
        invariant intervals[..i] == other.intervals[..i]
      {
        if intervals[i].min != other.intervals[i].min || intervals[i].max != other.intervals[i].max {
          return false;
        }
        i := i + 1;
      }
      assert intervals[..i] == intervals && other.intervals[..i] == other.intervals;
      r := true;
    }

    /** The integrity check Valid(): it decides exactly the documented representation. */
    method CheckValid() returns (r: bool)
      ensures r <==> Valid()
    {
      var it := 0;
      while it != |intervals|
        invariant it <= |intervals|
        invariant Canonical(intervals[..it])
      {
        if intervals[it].min >= intervals[it].max {
          return false;
        }
        if it != 0 && intervals[it - 1].max >= intervals[it].min {
          return false;
        }
        CanonicalConcat(intervals[..it], [intervals[it]]);
        assert intervals[..it + 1] == intervals[..it] + [intervals[it]];
        it := it + 1;
      }
      assert intervals[..it] == intervals;
      r := true;
    }

    method Intersects(other: IntervalSet) returns (r: bool)
      requires Valid() && other.Valid()
      ensures r <==> !(Values() !! other.Values())
    {
      if !SpanOf(intervals).Intersects(SpanOf(other.intervals)) {
        SpansApart(intervals, other.intervals);
        return false;
      }
      var mine: nat := Candidate(intervals, other.intervals[0]);
      var theirs: nat := Candidate(other.intervals, intervals[mine]);
      var xs, mine', theirs';
      ghost var skipped;
      r, xs, mine', theirs', skipped :=
        FindNextIntersectingPairImpl(intervals, other.intervals, mine, theirs, false);
      IntersectsWalk(intervals, other.intervals, mine, theirs, r, xs, mine', theirs', skipped);
    }

    // ---- std::set primitives ----

    method Insert(x: Interval) returns (pos: nat, isNew: bool)
      modifies this
      ensures pos == Slot(old(intervals), x)
      ensures isNew <==> !(pos < |old(intervals)| && old(intervals)[pos] == x)
      ensures intervals == if isNew then InsertAt(old(intervals), pos, x) else old(intervals)
    {
      pos := Slot(intervals, x);
      isNew := !(pos < |intervals| && intervals[pos] == x);
      if isNew {
        intervals := InsertAt(intervals, pos, x);
      }
    }

    method Erase(k: nat)
      requires k < |intervals|
      modifies this
      ensures intervals == old(intervals)[..k] + old(intervals)[k + 1..]
    {
      intervals := intervals[..k] + intervals[k + 1..];
    }

    // ---- union ----

    /** Erases the intervals at prev and prev + 1 and inserts their union, which lands at prev. */
    method MergePair(prev: nat) returns (pos: nat)
      requires prev + 1 < |intervals|
      requires var i := Hull(intervals[prev], intervals[prev + 1]);
        Slot(intervals[..prev] + intervals[prev + 2..], i) == prev &&
        (prev + 2 < |intervals| ==> intervals[prev + 2] != i)
      modifies this
      ensures pos == prev
      ensures intervals ==
        old(intervals)[..prev] + [Hull(old(intervals)[prev], old(intervals)[prev + 1])] + old(intervals)[prev + 2..]
    {
      ghost var s := intervals;
      var i := Hull(intervals[prev], intervals[prev + 1]);
      Erase(prev);
      Erase(prev);
      assert intervals == s[..prev] + s[prev + 2..];
      var isNew;
      pos, isNew := Insert(i);
      assert isNew;
    }

    /** One round of Compact: the intervals at prev and prev + 1 are merged if they touch. */
    method CompactPair(ghost s0: seq<Interval>, ghost begin: nat, prev: nat, ghost upTo: nat)
      returns (merged: bool, it: nat)
      requires Compactable(s0, begin, |s0|) && Compacting(s0, intervals, begin, prev + 1, upTo)
      requires prev + 1 < |intervals|
      modifies this
      ensures it == if merged then prev + 1 else prev + 2
      ensures Compacting(s0, intervals, begin, it, upTo + 1)
    {
      merged := intervals[prev].max >= intervals[prev + 1].min;
      it := prev + 1;
      if merged {
        MergeSlot(s0, intervals, begin, prev + 1, upTo, Hull(intervals[prev], intervals[prev + 1]));
        MergeStep(s0, intervals, begin, prev + 1, upTo);
        var pos := MergePair(prev);
      } else {
        KeepStep(s0, intervals, begin, prev + 1, upTo);
        it := prev + 2;
      }
    }

    /** Coalesces the range [begin, end) of a sorted set; the rest of the set is untouched. */
    method Compact(begin: nat, end0: nat) returns (ghost mid: seq<Interval>)
      requires Compactable(intervals, begin, |intervals|) && begin <= end0 <= |intervals|
      modifies this
      ensures Compacted(old(intervals), begin, end0, mid)
      ensures intervals == old(intervals)[..begin] + mid + old(intervals)[end0..]
    {
      ghost var s0 := intervals;
      if begin == end0 {
        NothingToCompact(s0, begin);
        return [];
      }
      CompactStart(s0, begin);
      var it := CompactRange(s0, begin, end0);
      mid := intervals[begin..it];
      CompactEnd(s0, intervals, begin, it, end0);
    }

    /** The loop of Compact. */
    method CompactRange(ghost s0: seq<Interval>, begin: nat, end0: nat) returns (it: nat)
      requires Compactable(s0, begin, |s0|) && begin < end0 <= |s0|
      requires Compacting(s0, intervals, begin, begin + 1, begin + 1)
      modifies this
      ensures Compacting(s0, intervals, begin, it, end0)
    {
      hide *;
      CompactingRoom(s0, intervals, begin, begin + 1, begin + 1);
      var end := end0;
      var prev: nat := begin;
      it := begin + 1;
      ghost var upTo: nat := begin + 1;
      while it != end
        invariant Compacting(s0, intervals, begin, it, upTo)
        invariant it == prev + 1 && it <= end && end0 - upTo == end - it
        decreases end - it
      {
        // Erasing two intervals and inserting one moves end, and the next interval, back by one.
        CompactingRoom(s0, intervals, begin, it, upTo);
        var merged;
        merged, it := CompactPair(s0, begin, prev, upTo);
        if merged {
          end := end - 1;
        } else {
          prev := prev + 1;
        }
        upTo := upTo + 1;
      }
    }

    method Add(interval: Interval)
      requires Valid()
      modifies this
      ensures Valid() && Values() == old(Values()) + Span(interval)
    {
      if interval.Empty() {
        return;
      }
      ghost var c := intervals;
      var pos, isNew := Insert(interval);
      if !isNew {
        assert c[pos] == interval;
        return;
      }
      var begin := pos;
      if begin != 0 {
        begin := begin - 1;
      }
      InsertedCompactable(c, interval, pos);
      PointsInsertAt(c, pos, interval);
      var end := UpperBound(intervals, Interval(interval.max, interval.max));
      AddRange(c, interval, pos, end);
      ghost var s := intervals;
      ghost var mid := Compact(begin, end);
      CompactedPoints(s, begin, end, mid);
      AddResult(c, interval, pos, begin, end, mid);
    }

    /** Add(const IntervalSet&): one Add per interval of other, which changes nothing if other is this set. */
    method AddSet(other: IntervalSet)
      requires Valid() && other.Valid()
      modifies this
      ensures Valid() && Values() == old(Values() + other.Values())
      ensures other == this ==> intervals == old(intervals)
    {
      ghost var theirs := other.intervals;
      var i := 0;
      while i != |other.intervals|
        invariant i <= |theirs| && other.intervals == theirs && Valid() && Canonical(theirs)
        invariant Values() == old(Values()) + Points(theirs[..i])
      {
        PointsLast(theirs, i);
        if other == this {
          MembersAreIn(theirs, i);
        }
        Add(other.intervals[i]);
        if other == this {
          CanonicalUnique(intervals, theirs);
        }
        i := i + 1;
      }
      assert theirs[..i] == theirs;
    }

    /** Inserts every interval of other, then coalesces the whole set once. */
    method Union(other: IntervalSet)
      requires Valid() && other.Valid()
      modifies this
      ensures Valid() && Values() == old(Values() + other.Values())
    {
      CanonicalOrdered(intervals);
      InsertAll(other.intervals);
      ghost var s := intervals;
      ghost var mid := Compact(0, |intervals|);
      CompactedPoints(s, 0, |s|, mid);
      WholeRange(s, mid);
    }

    /** std::set::insert of a range; the set is sorted afterwards, and no more than that. */
    method InsertAll(ys: seq<Interval>)
      requires Ordered(intervals) && AllNonEmpty(intervals) && AllNonEmpty(ys)
      modifies this
      ensures Ordered(intervals) && AllNonEmpty(intervals)
      ensures Points(intervals) == old(Points(intervals)) + Points(ys)
    {
      hide *;
      ghost var points := Points(intervals);
      NoPoints(ys);
      var i := 0;
      while i != |ys|
        invariant i <= |ys| && Ordered(intervals) && AllNonEmpty(intervals)
        invariant Points(intervals) == points + Points(ys[..i])
      {
        ghost var c := intervals;
        NonEmptyAt(ys, i);
        var pos, isNew := Insert(ys[i]);
        InsertKeeps(c, pos, ys[i], isNew, intervals);
        PointsLast(ys, i);
        i := i + 1;
      }
      assert ys[..i] == ys;
    }

    // ---- intersection ----

    /** Inserts the cuts of i with ys[theirs0], ys[theirs0 + 1], ... for as long as they meet i. */
    method InsertCuts(i: Interval, ys: seq<Interval>, theirs0: nat, ghost a: seq<Interval>, ghost b: seq<Interval>)
      returns (mine: nat, theirs: nat, ghost parts: seq<Interval>)
      requires Replaced(i, ys, theirs0, theirs0, a, [], b) && intervals == a + [] + b
      modifies this
      ensures Replaced(i, ys, theirs0, theirs, a, parts, b) && intervals == a + parts + b
      ensures theirs > theirs0 ==> mine == |a| + |parts| - 1
      ensures theirs < |ys| ==> !i.Intersects(ys[theirs])
    {
      mine, theirs, parts := |intervals|, theirs0, [];
      while theirs != |ys| && i.Intersects(ys[theirs])
        invariant Replaced(i, ys, theirs0, theirs, a, parts, b)
        invariant intervals == a + parts + b
        invariant theirs > theirs0 ==> mine == |a| + |parts| - 1
        decreases |ys| - theirs
      {
        CutSlot(i, ys, theirs0, theirs, a, parts, b);
        var isNew;
        mine, isNew := Insert(i.Meet(ys[theirs]));
        assert isNew;
        parts := parts + [i.Meet(ys[theirs])];
        theirs := theirs + 1;
      }
    }

    /** One round of Intersection: replaces *mine by its cuts with other's intervals from theirs on. */
    method CutHere(ghost all: iset<int>, ys: seq<Interval>, mine0: nat, theirs0: nat) returns (mine: nat, theirs: nat)
      requires Meeting(all, ys, intervals, mine0, theirs0) && Canonical(ys)
      requires mine0 < |intervals| && intervals[mine0].Intersects(ys[theirs0])
      modifies this
      ensures Meeting(all, ys, intervals, mine, theirs)
      ensures |intervals| - mine < |old(intervals)| - mine0 && theirs0 <= theirs
    {
      ghost var a, b := SplitAt(intervals, mine0);
      mine, theirs := CutBetween(all, ys, mine0, theirs0, intervals[mine0], a, b);
    }

    /** CutHere with names for what lies before and behind *mine. */
    method CutBetween(ghost all: iset<int>, ys: seq<Interval>, mine0: nat, theirs0: nat, i: Interval,
                      ghost a: seq<Interval>, ghost b: seq<Interval>) returns (mine: nat, theirs: nat)
      requires intervals == a + [i] + b && mine0 == |a|
      requires Meeting(all, ys, a + [i] + b, |a|, theirs0) && Canonical(ys)
      requires theirs0 < |ys| && i.Intersects(ys[theirs0])
      modifies this
      ensures Meeting(all, ys, intervals, mine, theirs)
      ensures |intervals| - mine == |b| && theirs0 <= theirs
    {
      hide *;
      EraseBetween(a, i, b);
      Erase(mine0);
      NothingCut(all, ys, i, theirs0, a, b);
      ghost var parts;
      mine, theirs, parts := InsertCuts(i, ys, theirs0, a, b);
      CutDone(all, ys, i, theirs0, theirs, a, parts, b);
      theirs := theirs - 1;
      mine := mine + 1;
    }

    method FindNextAndEraseHoles(ghost all: iset<int>, ys: seq<Interval>, mine0: nat, theirs0: nat)
      returns (found: bool, mine: nat, theirs: nat)
      requires Meeting(all, ys, intervals, mine0, theirs0) && Canonical(ys)
      modifies this
      ensures found ==> Meeting(all, ys, intervals, mine, theirs)
      ensures found ==> mine < |intervals| && intervals[mine].Intersects(ys[theirs])
      ensures !found ==> Valid() && Values() == all
      ensures |intervals| - mine <= |old(intervals)| - mine0 && theirs0 <= theirs
    {
      ghost var xs0, skipped := intervals, 0;
      var xs;
      found, xs, mine, theirs, skipped := FindNextIntersectingPairImpl(intervals, ys, mine0, theirs0, true);
      AheadAt(xs0, mine0, skipped, true, xs, mine, 0);
      if found {
        MeetingFind(all, ys, xs0, mine0, theirs0, xs, mine, theirs, skipped);
      } else {
        MeetingEnd(all, ys, xs0, mine0, theirs0, xs, theirs, skipped);
      }
      intervals := xs;
    }

    /** A cut followed by the search for the next pair. */
    method IntersectionRound(ghost all: iset<int>, ys: seq<Interval>, mine0: nat, theirs0: nat)
      returns (found: bool, mine: nat, theirs: nat)
      requires Meeting(all, ys, intervals, mine0, theirs0) && Canonical(ys)
      requires mine0 < |intervals| && intervals[mine0].Intersects(ys[theirs0])
      modifies this
      ensures found ==> Meeting(all, ys, intervals, mine, theirs)
      ensures found ==> mine < |intervals| && intervals[mine].Intersects(ys[theirs])
      ensures !found ==> Valid() && Values() == all
      ensures found ==> |intervals| - mine < |old(intervals)| - mine0
    {
      mine, theirs := CutHere(all, ys, mine0, theirs0);
      found, mine, theirs := FindNextAndEraseHoles(all, ys, mine, theirs);
    }

    method Intersection(other: IntervalSet)
      requires Valid() && other.Valid() && other != this
      modifies this
      ensures Valid() && Values() == old(Values()) * other.Values()
    {
      var ys := other.intervals;
      if !SpanOf(intervals).Intersects(SpanOf(ys)) {
        SpansApart(intervals, ys);
        intervals := [];
        return;
      }
      ghost var xs0, all := intervals, Values() * Points(ys);
      var mine: nat := Candidate(intervals, ys[0]);
      intervals := intervals[mine..];
      mine := 0;
      var theirs: nat := Candidate(ys, intervals[0]);
      MeetingStart(all, ys, xs0, intervals, theirs);
      var found;
      found, mine, theirs := FindNextAndEraseHoles(all, ys, mine, theirs);
      while found
        invariant found ==> Meeting(all, ys, intervals, mine, theirs)
        invariant found ==> mine < |intervals| && intervals[mine].Intersects(ys[theirs])
        invariant !found ==> Valid() && Values() == all
        decreases if found then 1 + |intervals| - mine else 0
      {
        found, mine, theirs := IntersectionRound(all, ys, mine, theirs);
      }
    }

    // ---- difference ----

    /** One round of Difference: replaces *mine by what other's *theirs leaves of it. */
    method SplitHere(ghost all: iset<int>, ys: seq<Interval>, mine0: nat, theirs: nat) returns (mine: nat)
      requires Parting(all, ys, intervals, mine0, theirs) && Canonical(ys) && theirs < |ys|
      requires mine0 < |intervals| && intervals[mine0].Intersects(ys[theirs])
      modifies this
      ensures Parting(all, ys, intervals, mine, theirs)
      ensures |intervals| - mine <= |old(intervals)| - mine0
      ensures |intervals| - mine == |old(intervals)| - mine0 ==> !intervals[mine].Intersects(ys[theirs])
    {
      ghost var a, b := SplitAt(intervals, mine0);
      var i := intervals[mine0];
      EraseBetween(a, i, b);
      Erase(mine0);
      var hit, lo, hi := i.Difference(ys[theirs]);
      IntersectsIffCommonPoint(i, ys[theirs]);
      PartingSplit(all, ys, theirs, a, i, b, lo, hi);
      PartingCanonical(all, ys, a + Piece(lo) + Piece(hi) + b, |a| + |Piece(lo)|, theirs);
      mine := InsertPieces(mine0, lo, hi, a, b);
      AfterSplit(a, i, b, ys[theirs], lo, hi);
    }

    /** Inserts what is left of the erased interval; the cursor ends up at hi, or behind lo. */
    method InsertPieces(mine0: nat, lo: Interval, hi: Interval, ghost a: seq<Interval>, ghost b: seq<Interval>)
      returns (mine: nat)
      requires intervals == a + b && mine0 == |a| && Canonical(a + Piece(lo) + Piece(hi) + b)
      modifies this
      ensures intervals == a + Piece(lo) + Piece(hi) + b && mine == |a| + |Piece(lo)|
    {
      mine := mine0;
      LoSlot(a, b, lo, hi);
      HiSlot(a + Piece(lo), b, hi);
      var pos, isNew;
      if !lo.Empty() {
        pos, isNew := Insert(lo);
        mine := mine + 1;
      }
      if !hi.Empty() {
        pos, isNew := Insert(hi);
        mine := pos;
      }
    }

    method FindNext(ghost all: iset<int>, ys: seq<Interval>, mine0: nat, theirs0: nat)
      returns (found: bool, mine: nat, theirs: nat)
      requires Parting(all, ys, intervals, mine0, theirs0) && Canonical(ys)
      ensures Parting(all, ys, intervals, mine, theirs)
      ensures found ==> mine < |intervals| && theirs < |ys| && intervals[mine].Intersects(ys[theirs])
      ensures !found ==> Values() == all
      ensures mine0 <= mine && theirs0 <= theirs
    {
      var xs;
      ghost var skipped;
      found, xs, mine, theirs, skipped := FindNextIntersectingPairImpl(intervals, ys, mine0, theirs0, false);
      KeptAhead(intervals, mine0, skipped, xs, mine);
      PartingFind(all, ys, intervals, mine0, theirs0, mine, theirs, skipped);
      if !found {
        PartingEnd(all, ys, intervals, mine, theirs);
      }
    }

    /** A split followed by the search for the next pair. */
    method DifferenceRound(ghost all: iset<int>, ys: seq<Interval>, mine0: nat, theirs0: nat)
      returns (found: bool, mine: nat, theirs: nat)
      requires Parting(all, ys, intervals, mine0, theirs0) && Canonical(ys) && theirs0 < |ys|
      requires mine0 < |intervals| && intervals[mine0].Intersects(ys[theirs0])
      modifies this
      ensures Parting(all, ys, intervals, mine, theirs)
      ensures found ==> mine < |intervals| && theirs < |ys| && intervals[mine].Intersects(ys[theirs])
      ensures !found ==> Values() == all
      ensures found ==> |intervals| - mine + |ys| - theirs < |old(intervals)| - mine0 + |ys| - theirs0
    {
      mine := SplitHere(all, ys, mine0, theirs0);
      found, mine, theirs := FindNext(all, ys, mine, theirs0);
    }

    method Difference(other: IntervalSet)
      requires Valid() && other.Valid() && other != this
      modifies this
      ensures Valid() && Values() == old(Values()) - other.Values()
    {
      var ys := other.intervals;
      if !SpanOf(intervals).Intersects(SpanOf(ys)) {
        SpansApart(intervals, ys);
        return;
      }
      ghost var all := Values() - Points(ys);
      var mine: nat := Candidate(intervals, ys[0]);
      var theirs: nat := Candidate(ys, intervals[0]);
      PartingStart(all, ys, intervals, mine, theirs);
      var found;
      found, mine, theirs := FindNext(all, ys, mine, theirs);
      while found
        invariant Parting(all, ys, intervals, mine, theirs)
        invariant found ==> mine < |intervals| && theirs < |ys| && intervals[mine].Intersects(ys[theirs])
        invariant !found ==> Values() == all
        decreases if found then 1 + |intervals| - mine + |ys| - theirs else 0
      {
        found, mine, theirs := DifferenceRound(all, ys, mine, theirs);
      }
    }

    method DifferenceInterval(interval: Interval)
      requires Valid()
      modifies this
      ensures Valid() && Values() == old(Values()) - Span(interval)
    {
      if !SpanningInterval().Intersects(interval) {
        IntersectsIffCommonPoint(SpanningInterval(), interval);
        return;
      }
      var single := new IntervalSet.Of(interval);
      Difference(single);
    }

    method Complement(min: int, max: int)
      requires Valid()
      modifies this
      ensures Valid() && Values() == Span(Interval(min, max)) - old(Values())
    {
      var span := new IntervalSet.Of(Interval(min, max));
      span.Difference(this);
      intervals := span.intervals;
    }
  }

  /** IsDisjoint answers false for an empty interval that starts inside the set. */
  lemma IsDisjointExample(s: IntervalSet)
    requires s.intervals == [Interval(0, 10)]
    ensures Span(Interval(5, 5)) !! s.Values() && !s.IsDisjoint(Interval(5, 5))
  {
    assert s.intervals[0].Contains(5);
    assert 5 in s.Values();
  }

  // ---- steps of the methods above ----

  lemma SpanSubset(xs: seq<Interval>, ys: seq<Interval>)
    requires Canonical(xs) && Canonical(ys) && ys != [] && Points(ys) <= Points(xs)
    ensures Span(SpanOf(ys)) <= Span(SpanOf(xs)) && !SpanOf(ys).Empty()
  {
    PointsBounds(ys);
    assert ys[|ys| - 1].Contains(ys[|ys| - 1].max - 1);
    assert ys[|ys| - 1].max - 1 in Points(ys);
    if xs != [] { PointsBounds(xs); }
  }

  lemma IntersectsWalk(xs0: seq<Interval>, ys: seq<Interval>, mine0: nat, theirs0: nat, found: bool,
                       xs: seq<Interval>, mine: nat, theirs: nat, skipped: nat)
    requires Canonical(xs0) && Canonical(ys) && xs0 != [] && ys != []
    requires mine0 == Candidate(xs0, ys[0]) && theirs0 == Candidate(ys, xs0[mine0])
    requires Walked(xs0, ys, mine0, theirs0, skipped, theirs) && Ahead(xs0, mine0, skipped, false, xs, mine)
    requires found ==> mine < |xs| && theirs < |ys| && xs[mine].Intersects(ys[theirs])
    requires !found ==> mine == |xs| || theirs == |ys|
    ensures found <==> !Apart(xs0, ys)
  {
    KeptAhead(xs0, mine0, skipped, xs, mine);
    if found {
      IntersectsIffCommonPoint(xs[mine], ys[theirs]);
      var p :| xs[mine].Contains(p) && ys[theirs].Contains(p);
      assert p in Points(xs0) && p in Points(ys);
    } else {
      BeforeCandidate(xs0, ys);
      PointsSplit(xs0, mine0);
      CanonicalSlice(xs0, mine0, |xs0|);
      BeforeCandidate(ys, xs0[mine0..]);
      PointsSplit(ys, theirs0);
      FindPoints(ys, xs0, mine0, theirs0, skipped, theirs);
      assert theirs == |ys| ==> ys[theirs..] == [];
      assert mine == |xs| ==> xs0[mine0 + skipped..] == [];
    }
  }

  lemma NoPoints(s: seq<Interval>)
    ensures Points(s[..0]) == iset{}
  {
  }

  lemma NonEmptyAt(s: seq<Interval>, k: nat)
    requires AllNonEmpty(s) && k < |s|
    ensures s[k].min < s[k].max
  {
  }

  lemma MembersAreIn(s: seq<Interval>, k: nat)
    requires k < |s|
    ensures Span(s[k]) <= Points(s)
  {
  }

  lemma SplitAt(s: seq<Interval>, k: nat) returns (a: seq<Interval>, b: seq<Interval>)
    requires k < |s|
    ensures s == a + [s[k]] + b && |a| == k && |b| == |s| - k - 1
  {
    a, b := s[..k], s[k + 1..];
  }

  lemma EraseBetween(a: seq<Interval>, x: Interval, b: seq<Interval>)
    ensures var s := a + [x] + b; s[..|a|] + s[|a| + 1..] == a + b
  {
  }

  lemma WholeRange(s: seq<Interval>, mid: seq<Interval>)
    ensures s[..0] + mid + s[|s|..] == mid
  {
  }

  /** Without erasing, the walk leaves the set alone and only moves its cursor. */
  lemma KeptAhead(xs0: seq<Interval>, mine0: nat, skipped: nat, xs: seq<Interval>, mine: nat)
    requires Ahead(xs0, mine0, skipped, false, xs, mine)
    ensures xs == xs0 && mine == mine0 + skipped
  {
    assert xs == xs[..mine] + xs[mine..];
    assert xs0 == xs0[..mine0 + skipped] + xs0[mine0 + skipped..];
    assert |xs[..mine]| == |xs0[..mine0 + skipped]|;
  }

  /** The set Add leaves is canonical. */
  lemma AddResult(c: seq<Interval>, x: Interval, pos: nat, begin: nat, end: nat, mid: seq<Interval>)
    requires Canonical(c) && pos <= |c| && begin == (if pos == 0 then 0 else pos - 1) && pos < end <= |c| + 1
    requires end <= |c| ==> InsertAt(c, pos, x)[end].min > x.max
    requires Compacted(InsertAt(c, pos, x), begin, end, mid)
    ensures Canonical(InsertAt(c, pos, x)[..begin] + mid + InsertAt(c, pos, x)[end..])
  {
    InsertAtOutside(c, x, pos, begin, end);
    if end <= |c| {
      CoalescedBelow(c, x, pos, begin, end, mid);
    }
    assert begin > 0 ==> InsertAt(c, pos, x)[begin] == c[begin];
    AddCanonical(c, begin, end, mid);
  }

  lemma AddRange(c: seq<Interval>, x: Interval, pos: nat, end: nat)
    requires Canonical(c) && x.min < x.max && pos <= |c|
    requires end == UpperBound(InsertAt(c, pos, x), Interval(x.max, x.max))
    requires Ordered(InsertAt(c, pos, x)) && AllNonEmpty(InsertAt(c, pos, x))
    ensures pos < end <= |c| + 1
    ensures end <= |c| ==> InsertAt(c, pos, x)[end].min > x.max
  {
    var s := InsertAt(c, pos, x);
    InsertAtElements(c, pos, x);
    forall j | 0 <= j <= pos ensures s[j].min <= x.min {
      assert j == pos || Less(s[j], s[pos]);
    }
  }

  lemma InsertKeeps(c: seq<Interval>, pos: nat, x: Interval, isNew: bool, s: seq<Interval>)
    requires Ordered(c) && AllNonEmpty(c) && x.min < x.max && pos == Slot(c, x)
    requires isNew <==> !(pos < |c| && c[pos] == x)
    requires s == if isNew then InsertAt(c, pos, x) else c
    ensures Ordered(s) && AllNonEmpty(s) && Points(s) == Points(c) + Span(x)
  {
    if isNew {
      InsertedOrdered(c, x, pos);
      InsertAtElements(c, pos, x);
      PointsInsertAt(c, pos, x);
    } else {
      forall p | p in Span(x) ensures p in Points(c) {
        assert c[pos].Contains(p);
      }
    }
  }

  /** x is not in s and would be inserted at k. */
  ghost predicate LandsAt(s: seq<Interval>, x: Interval, k: nat) {
    k <= |s| && Slot(s, x) == k && (k < |s| ==> s[k] != x)
  }

  /** The upper piece is new to the set and lands behind al. */
  lemma HiSlot(al: seq<Interval>, b: seq<Interval>, hi: Interval)
    requires Canonical(al + Piece(hi) + b)
    ensures al + Piece(hi) + b == if hi.Empty() then al + b else InsertAt(al + b, |al|, hi)
    ensures !hi.Empty() ==> LandsAt(al + b, hi, |al|)
  {
    if !hi.Empty() {
      SlotBetween(al, hi, b);
    } else {
      assert al + [] + b == al + b;
    }
  }

  /** The lower piece is new to the set, with the upper one still to come, and lands behind a. */
  lemma LoSlot(a: seq<Interval>, b: seq<Interval>, lo: Interval, hi: Interval)
    requires Canonical(a + Piece(lo) + Piece(hi) + b)
    ensures a + Piece(lo) + b == if lo.Empty() then a + b else InsertAt(a + b, |a|, lo)
    ensures !lo.Empty() ==> LandsAt(a + b, lo, |a|)
  {
    if !lo.Empty() {
      WithoutHi(a, lo, Piece(hi), b);
      SlotBetween(a, lo, b);
    } else {
      assert a + [] + b == a + b;
    }
  }

  lemma WithoutHi(a: seq<Interval>, x: Interval, h: seq<Interval>, b: seq<Interval>)
    requires Canonical(a + [x] + h + b)
    ensures Canonical(a + [x] + b)
  {
    var s, r := a + [x] + h + b, a + [x] + b;
    var n := |a| + 1;
    assert forall i :: 0 <= i < |r| ==> r[i] == s[if i < n then i else i + |h|];
  }

  /** No fewer intervals lie ahead than before, and if as many, the first of them is past o. */
  lemma AfterSplit(a: seq<Interval>, x: Interval, b: seq<Interval>, o: Interval, lo: Interval, hi: Interval)
    requires !hi.Empty() ==> hi == Interval(o.max, x.max)
    ensures var s, mine := a + Piece(lo) + Piece(hi) + b, |a| + |Piece(lo)|;
      |s| - mine <= |b| + 1 && (|s| - mine == |b| + 1 ==> !s[mine].Intersects(o))
  {
  }
}
