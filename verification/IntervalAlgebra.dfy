/** What one round of IntervalSet::Intersection and ::Difference keeps. */
module IntervalAlgebra {
  import opened Intervals
  import opened IntervalOrder
  import opened IntervalCompact
  import opened IntervalPairs

  // ---- spans and candidates ----

  function SpanOf(s: seq<Interval>): Interval {
    if s == [] then Interval(0, 0) else Interval(s[0].min, s[|s| - 1].max)
  }

  lemma SpansApart(xs: seq<Interval>, ys: seq<Interval>)
    requires Canonical(xs) && Canonical(ys) && !SpanOf(xs).Intersects(SpanOf(ys))
    ensures Apart(xs, ys)
  {
    if xs != [] && ys != [] {
      PointsBounds(xs);
      PointsBounds(ys);
      assert xs[0].min < xs[|xs| - 1].max && ys[0].min < ys[|ys| - 1].max by {
        assert xs[0].min in Points(xs) && ys[0].min in Points(ys);
      }
    }
  }

  /** FindIntersectionCandidate: the last interval not greater than x, or the first one. */
  function Candidate(s: seq<Interval>, x: Interval): (i: nat)
    ensures i <= |s| && (s != [] ==> i < |s|)
  {
    var k := UpperBound(s, x);
    if k != 0 then k - 1 else k
  }

  /** No interval before the candidate for ys[0] meets ys. */
  lemma BeforeCandidate(xs: seq<Interval>, ys: seq<Interval>)
    requires Canonical(xs) && Canonical(ys) && ys != []
    ensures Apart(xs[..Candidate(xs, ys[0])], ys)
  {
    var k := Candidate(xs, ys[0]);
    if k > 0 {
      CanonicalSlice(xs, 0, k);
      PointsBounds(xs[..k]);
      PointsBounds(ys);
      assert xs[k - 1].max < xs[k].min <= ys[0].min;
    }
  }

  // ---- Intersection ----

  /** Loop state of Intersection: xs[..mine] is final, xs[mine..] is still to be cut by ys[theirs..]. */
  ghost predicate Meeting(all: iset<int>, ys: seq<Interval>, xs: seq<Interval>, mine: nat, theirs: nat) {
    Canonical(xs) && mine <= |xs| && theirs < |ys| &&
    all == Points(xs[..mine]) + Points(xs[mine..]) * Points(ys[theirs..])
  }

  lemma MeetingStart(all: iset<int>, ys: seq<Interval>, xs0: seq<Interval>, xs: seq<Interval>, theirs: nat)
    requires Canonical(xs0) && Canonical(ys) && xs0 != [] && ys != []
    requires xs == xs0[Candidate(xs0, ys[0])..] && theirs == Candidate(ys, xs[0])
    requires all == Points(xs0) * Points(ys)
    ensures Meeting(all, ys, xs, 0, theirs)
  {
    BeforeCandidate(xs0, ys);
    PointsSplit(xs0, Candidate(xs0, ys[0]));
    CanonicalSlice(xs0, Candidate(xs0, ys[0]), |xs0|);
    BeforeCandidate(ys, xs);
    PointsSplit(ys, theirs);
    assert xs[..0] == [] && xs[0..] == xs;
  }

  lemma MeetingFind(all: iset<int>, ys: seq<Interval>, xs0: seq<Interval>, mine0: nat, theirs0: nat,
                    xs: seq<Interval>, mine: nat, theirs: nat, skipped: nat)
    requires Meeting(all, ys, xs0, mine0, theirs0) && Canonical(ys) && theirs < |ys|
    requires Walked(xs0, ys, mine0, theirs0, skipped, theirs) && Ahead(xs0, mine0, skipped, true, xs, mine)
    ensures Meeting(all, ys, xs, mine, theirs)
  {
    FindPoints(ys, xs0, mine0, theirs0, skipped, theirs);
    JoinedCanonical(xs0, mine0, mine0 + skipped, xs, mine);
  }

  /** What is left of a canonical sequence when a range is taken out. */
  lemma JoinedCanonical(s: seq<Interval>, from: nat, to: nat, r: seq<Interval>, at: nat)
    requires Canonical(s) && from <= to <= |s| && at <= |r| && r[..at] == s[..from] && r[at..] == s[to..]
    ensures Canonical(r)
  {
    assert at == from && r == s[..from] + s[to..];
    assert forall i :: 0 <= i < |r| ==> r[i] == s[if i < from then i else i + (to - from)];
  }

  lemma FindPoints(ys: seq<Interval>, xs0: seq<Interval>, mine0: nat, theirs0: nat, skipped: nat, theirs: nat)
    requires Walked(xs0, ys, mine0, theirs0, skipped, theirs)
    ensures Points(xs0[mine0..]) == Points(xs0[mine0..mine0 + skipped]) + Points(xs0[mine0 + skipped..])
    ensures Points(ys[theirs0..]) == Points(ys[theirs0..theirs]) + Points(ys[theirs..])
  {
    PointsSplit(xs0[mine0..], skipped);
    assert xs0[mine0..][..skipped] == xs0[mine0..mine0 + skipped];
    assert xs0[mine0..][skipped..] == xs0[mine0 + skipped..];
    PointsSplit(ys[theirs0..], theirs - theirs0);
    assert ys[theirs0..][..theirs - theirs0] == ys[theirs0..theirs];
    assert ys[theirs0..][theirs - theirs0..] == ys[theirs..];
  }

  /** When the walk finds no further pair, everything still ahead has been erased. */
  lemma MeetingEnd(all: iset<int>, ys: seq<Interval>, xs0: seq<Interval>, mine0: nat, theirs0: nat,
                   xs: seq<Interval>, theirs: nat, skipped: nat)
    requires Meeting(all, ys, xs0, mine0, theirs0)
    requires Walked(xs0, ys, mine0, theirs0, skipped, theirs) && Ahead(xs0, mine0, skipped, true, xs, |xs|)
    ensures Canonical(xs) && Points(xs) == all
  {
    FindPoints(ys, xs0, mine0, theirs0, skipped, theirs);
    assert xs[..|xs|] == xs;
    assert xs0[mine0 + skipped..] == [];
    CanonicalSlice(xs0, 0, mine0);
  }

  ghost predicate CutBy(x: Interval, y: Interval, part: Interval) {
    x.Intersects(y) && part == x.Meet(y)
  }

  /** Inner loop of Intersection: parts are the cuts of x by ys[from..to], in order. */
  ghost predicate Cut(x: Interval, ys: seq<Interval>, from: nat, to: nat, parts: seq<Interval>) {
    from <= to <= |ys| && |parts| == to - from &&
    forall k :: 0 <= k < |parts| ==> CutBy(x, ys[from + k], parts[k])
  }

  lemma CutCanonical(x: Interval, ys: seq<Interval>, from: nat, to: nat, parts: seq<Interval>)
    requires Canonical(ys) && Cut(x, ys, from, to, parts)
    ensures Canonical(parts)
    ensures forall k :: 0 <= k < |parts| ==> x.min <= parts[k].min && parts[k].max <= x.max
  {
    forall i, j | 0 <= i < j < |parts| ensures parts[i].max < parts[j].min {
      assert CutBy(x, ys[from + i], parts[i]) && CutBy(x, ys[from + j], parts[j]);
    }
  }

  lemma {:induction false} CutPoints(x: Interval, ys: seq<Interval>, from: nat, to: nat, parts: seq<Interval>)
    requires Cut(x, ys, from, to, parts)
    ensures Points(parts) == Span(x) * Points(ys[from..to])
    decreases |parts|
  {
    if parts == [] {
      assert ys[from..to] == [];
    } else {
      var last := |parts| - 1;
      assert CutBy(x, ys[from + last], parts[last]);
      CutPoints(x, ys, from, to - 1, parts[..last]);
      IntersectsIffCommonPoint(x, ys[to - 1]);
      PointsLast(parts, last);
      assert parts[..last + 1] == parts;
      ExtendRange(ys, from, to - 1);
    }
  }

  /** a + parts + b with x cut into parts; the state of the set inside the inner loop. */
  ghost predicate Replaced(x: Interval, ys: seq<Interval>, from: nat, to: nat, a: seq<Interval>, parts: seq<Interval>,
                           b: seq<Interval>) {
    Canonical(a + [x] + b) && Canonical(ys) && Cut(x, ys, from, to, parts)
  }

  lemma CanonicalParts(a: seq<Interval>, x: Interval, b: seq<Interval>)
    requires Canonical(a + [x] + b)
    ensures Canonical(a) && Canonical(b) && x.min < x.max
    ensures forall j :: 0 <= j < |a| ==> a[j].max < x.min
    ensures forall j :: 0 <= j < |b| ==> x.max < b[j].min
  {
    var s := a + [x] + b;
    assert s[|a|] == x && s[..|a|] == a && s[|a| + 1..] == b;
    CanonicalSlice(s, 0, |a|);
    CanonicalSlice(s, |a| + 1, |s|);
    forall j | 0 <= j < |a| ensures a[j].max < x.min {
      assert a[j] == s[j];
    }
    forall j | 0 <= j < |b| ensures x.max < b[j].min {
      assert b[j] == s[|a| + 1 + j];
    }
  }

  lemma ReplacedCanonical(x: Interval, ys: seq<Interval>, from: nat, to: nat, a: seq<Interval>, parts: seq<Interval>,
                          b: seq<Interval>)
    requires Replaced(x, ys, from, to, a, parts, b)
    ensures Canonical(a + parts + b)
    ensures Canonical(b) && (b != [] ==> x.max < b[0].min)
  {
    CanonicalParts(a, x, b);
    CutCanonical(x, ys, from, to, parts);
    CanonicalConcat(a, parts);
    CanonicalConcat(a + parts, b);
  }

  /** Each cut is fresh and lands right after the previous one. */
  lemma CutSlot(x: Interval, ys: seq<Interval>, from: nat, to: nat, a: seq<Interval>, parts: seq<Interval>,
                b: seq<Interval>)
    requires Replaced(x, ys, from, to, a, parts, b) && to < |ys| && x.Intersects(ys[to])
    ensures Replaced(x, ys, from, to + 1, a, parts + [x.Meet(ys[to])], b)
    ensures Slot(a + parts + b, x.Meet(ys[to])) == |a| + |parts|
    ensures |a| + |parts| < |a + parts + b| ==> (a + parts + b)[|a| + |parts|] != x.Meet(ys[to])
    ensures InsertAt(a + parts + b, |a| + |parts|, x.Meet(ys[to])) == a + (parts + [x.Meet(ys[to])]) + b
  {
    var piece := x.Meet(ys[to]);
    var parts' := parts + [piece];
    assert Cut(x, ys, from, to + 1, parts');
    ReplacedCanonical(x, ys, from, to + 1, a, parts', b);
    assert a + parts' + b == (a + parts) + [piece] + b;
    SlotBetween(a + parts, piece, b);
  }

  /** Before the first cut. */
  lemma NothingCut(all: iset<int>, ys: seq<Interval>, x: Interval, from: nat, a: seq<Interval>, b: seq<Interval>)
    requires Meeting(all, ys, a + [x] + b, |a|, from) && Canonical(ys)
    ensures Replaced(x, ys, from, from, a, [], b)
    ensures a + b == a + [] + b
  {
  }

  lemma CutDone(all: iset<int>, ys: seq<Interval>, x: Interval, from: nat, to: nat, a: seq<Interval>,
                parts: seq<Interval>, b: seq<Interval>)
    requires Meeting(all, ys, a + [x] + b, |a|, from)
    requires Replaced(x, ys, from, to, a, parts, b)
    requires from < |ys| && x.Intersects(ys[from]) && (to < |ys| ==> !x.Intersects(ys[to]))
    ensures from < to && Meeting(all, ys, a + parts + b, |a| + |parts|, to - 1)
  {
    var xs, xs', m' := a + [x] + b, a + parts + b, |a| + |parts|;
    ReplacedCanonical(x, ys, from, to, a, parts, b);
    CutPoints(x, ys, from, to, parts);
    assert xs[..|a|] == a && xs[|a|..] == [x] + b && xs'[..m'] == a + parts && xs'[m'..] == b;
    PointsConcat([x], b);
    PointsSingle(x);
    PointsConcat(a, parts);
    assert CutBy(x, ys[from + (|parts| - 1)], parts[|parts| - 1]);
    RestAbove(x, ys, from, to);
    EarlierBelow(x, ys, from, to, b);
  }

  /** Beyond the last interval that meets x, nothing meets x. */
  lemma RestAbove(x: Interval, ys: seq<Interval>, from: nat, to: nat)
    requires Canonical(ys) && from < to <= |ys| && x.Intersects(ys[to - 1])
    requires to < |ys| ==> !x.Intersects(ys[to])
    ensures Span(x) * Points(ys[from..]) == Span(x) * Points(ys[from..to])
  {
    PointsSplit(ys[from..], to - from);
    assert ys[from..][..to - from] == ys[from..to] && ys[from..][to - from..] == ys[to..];
    if to < |ys| {
      assert ys[to - 1].max < ys[to].min < ys[to].max;
      CanonicalSlice(ys, to, |ys|);
      BelowApart(x, ys[to..]);
    }
  }

  /** All but the last interval that meets x end before anything that follows x. */
  lemma EarlierBelow(x: Interval, ys: seq<Interval>, from: nat, to: nat, b: seq<Interval>)
    requires Canonical(ys) && Canonical(b) && from < to <= |ys| && x.Intersects(ys[to - 1])
    requires b != [] ==> x.max < b[0].min
    ensures Points(b) * Points(ys[from..]) == Points(b) * Points(ys[to - 1..])
  {
    PointsSplit(ys[from..], to - 1 - from);
    assert ys[from..][..to - 1 - from] == ys[from..to - 1] && ys[from..][to - 1 - from..] == ys[to - 1..];
    if b != [] && from < to - 1 {
      PointsBounds(b);
      CanonicalSlice(ys, from, to - 1);
      PointsBounds(ys[from..to - 1]);
      assert ys[from..to - 1][to - 2 - from] == ys[to - 2];
      assert ys[to - 2].max < ys[to - 1].min < x.max;
    }
  }

  // ---- Difference ----

  /** Loop state of Difference: xs[..mine] is final, ys[theirs..] is still to be removed from xs[mine..]. */
  ghost predicate Parting(all: iset<int>, ys: seq<Interval>, xs: seq<Interval>, mine: nat, theirs: nat) {
    Canonical(xs) && mine <= |xs| && theirs <= |ys| &&
    all == Points(xs[..mine]) + (Points(xs[mine..]) - Points(ys[theirs..]))
  }

  lemma PartingStart(all: iset<int>, ys: seq<Interval>, xs: seq<Interval>, mine: nat, theirs: nat)
    requires Canonical(xs) && Canonical(ys) && xs != [] && ys != []
    requires mine == Candidate(xs, ys[0]) && theirs == Candidate(ys, xs[0])
    requires all == Points(xs) - Points(ys)
    ensures Parting(all, ys, xs, mine, theirs)
  {
    BeforeCandidate(xs, ys);
    PointsSplit(xs, mine);
    BeforeCandidate(ys, xs);
    PointsSplit(ys, theirs);
  }

  lemma PartingFind(all: iset<int>, ys: seq<Interval>, xs: seq<Interval>, mine0: nat, theirs0: nat, mine: nat,
                    theirs: nat, skipped: nat)
    requires Parting(all, ys, xs, mine0, theirs0)
    requires Walked(xs, ys, mine0, theirs0, skipped, theirs) && mine == mine0 + skipped
    ensures Parting(all, ys, xs, mine, theirs)
  {
    FindPoints(ys, xs, mine0, theirs0, skipped, theirs);
    PointsConcat(xs[..mine0], xs[mine0..mine]);
    assert xs[..mine] == xs[..mine0] + xs[mine0..mine];
  }

  lemma PartingEnd(all: iset<int>, ys: seq<Interval>, xs: seq<Interval>, mine: nat, theirs: nat)
    requires Parting(all, ys, xs, mine, theirs) && (mine == |xs| || theirs == |ys|)
    ensures Points(xs) == all
  {
    PointsSplit(xs, mine);
    assert mine == |xs| ==> xs[mine..] == [];
    assert theirs == |ys| ==> ys[theirs..] == [];
  }

  lemma PartingCanonical(all: iset<int>, ys: seq<Interval>, xs: seq<Interval>, mine: nat, theirs: nat)
    requires Parting(all, ys, xs, mine, theirs)
    ensures Canonical(xs)
  {
  }

  function Piece(i: Interval): seq<Interval> {
    if i.Empty() then [] else [i]
  }

  /** Replacing x by what Interval::Difference leaves of it. */
  lemma PartingSplit(all: iset<int>, ys: seq<Interval>, theirs: nat, a: seq<Interval>, x: Interval, b: seq<Interval>,
                     lo: Interval, hi: Interval)
    requires Parting(all, ys, a + [x] + b, |a|, theirs) && Canonical(ys) && theirs < |ys|
    requires x.Intersects(ys[theirs])
    requires forall p :: lo.Contains(p) || hi.Contains(p) <==> x.Contains(p) && !ys[theirs].Contains(p)
    requires !lo.Empty() ==> lo == Interval(x.min, ys[theirs].min)
    requires !hi.Empty() ==> hi == Interval(ys[theirs].max, x.max)
    ensures Parting(all, ys, a + Piece(lo) + Piece(hi) + b, |a| + |Piece(lo)|, theirs)
  {
    var o := ys[theirs];
    var xs, l, h := a + [x] + b, Piece(lo), Piece(hi);
    var xs' := a + l + h + b;
    SplitCanonical(a, x, b, o, lo, hi);
    assert xs[..|a|] == a && xs[|a|..] == [x] + b;
    assert xs'[..|a| + |l|] == a + l && xs'[|a| + |l|..] == h + b;
    assert Points(xs[|a|..]) == Span(x) + Points(b) by { PointsConcat([x], b); PointsSingle(x); }
    assert Points(a + l) == Points(a) + Span(lo) by { PointsConcat(a, l); PiecePoints(lo); }
    assert Points(h + b) == Span(hi) + Points(b) by { PointsConcat(h, b); PiecePoints(hi); }
    SplitPoints(Points(a), Points(b), ys, theirs, x, lo, hi);
  }

  /** What is below o is final, what is above is still to be parted from the rest of ys. */
  lemma SplitPoints(before: iset<int>, behind: iset<int>, ys: seq<Interval>, theirs: nat, x: Interval,
                    lo: Interval, hi: Interval)
    requires Canonical(ys) && theirs < |ys| && x.Intersects(ys[theirs])
    requires forall p :: lo.Contains(p) || hi.Contains(p) <==> x.Contains(p) && !ys[theirs].Contains(p)
    requires !lo.Empty() ==> lo == Interval(x.min, ys[theirs].min)
    ensures before + ((Span(x) + behind) - Points(ys[theirs..])) ==
      before + Span(lo) + ((Span(hi) + behind) - Points(ys[theirs..]))
  {
    var o := ys[theirs];
    PointsHead(ys, theirs);
    CanonicalSlice(ys, theirs + 1, |ys|);
    assert ys[theirs + 1..] != [] ==> o.max < ys[theirs + 1..][0].min;
    BelowApart(Interval(x.min, o.max), ys[theirs + 1..]);
    assert Span(lo) <= Span(Interval(x.min, o.max));
  }

  lemma PiecePoints(i: Interval)
    ensures Points(Piece(i)) == Span(i)
  {
    PointsSingle(i);
  }

  lemma SplitCanonical(a: seq<Interval>, x: Interval, b: seq<Interval>, o: Interval, lo: Interval, hi: Interval)
    requires Canonical(a + [x] + b) && x.Intersects(o)
    requires !lo.Empty() ==> lo == Interval(x.min, o.min)
    requires !hi.Empty() ==> hi == Interval(o.max, x.max)
    ensures Canonical(a + Piece(lo) + Piece(hi) + b)
  {
    CanonicalParts(a, x, b);
    CanonicalConcat(a, Piece(lo));
    CanonicalConcat(a + Piece(lo), Piece(hi));
    CanonicalConcat(a + Piece(lo) + Piece(hi), b);
  }

  /** A piece belonging between a and b in canonical order is fresh and lands there. */
  lemma SlotBetween(a: seq<Interval>, x: Interval, b: seq<Interval>)
    requires Canonical(a + [x] + b)
    ensures Slot(a + b, x) == |a|
    ensures |a| < |a + b| ==> (a + b)[|a|] != x
    ensures InsertAt(a + b, |a|, x) == a + [x] + b
  {
    CanonicalParts(a, x, b);
    var s := a + b;
    assert forall j :: 0 <= j < |a| ==> s[j] == a[j] && a[j].min < a[j].max;
    assert b != [] ==> s[|a|] == b[0];
    SlotIs(s, x, |a|);
    assert s[..|a|] == a && s[|a|..] == b;
  }
}
