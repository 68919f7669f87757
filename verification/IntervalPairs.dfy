/** The two-cursor walk shared by IntervalSet's Intersection, Difference and Intersects. */
module IntervalPairs {
  import opened Intervals
  import opened IntervalOrder

  lemma BelowApart(x: Interval, ys: seq<Interval>)
    requires Canonical(ys) && (ys != [] ==> x.max <= ys[0].min)
    ensures Span(x) !! Points(ys)
  {
    if ys != [] { PointsBounds(ys); }
  }

  /** Moving a cursor past an interval that ends before the other side starts. */
  lemma SkipOne(xs: seq<Interval>, from: nat, at: nat, ys: seq<Interval>)
    requires from <= at < |xs| && Canonical(ys) && (ys != [] ==> xs[at].max <= ys[0].min)
    requires Apart(xs[from..at], ys)
    ensures Apart(xs[from..at + 1], ys)
  {
    BelowApart(xs[at], ys);
    PointsConcat(xs[from..at], [xs[at]]);
    PointsSingle(xs[at]);
    assert xs[from..at + 1] == xs[from..at] + [xs[at]];
  }

  /**
   * Loop state of the walk: of xs0[mine0..] the first `skipped` intervals share nothing with
   * ys[theirs0..], and ys[theirs0..theirs] shares nothing with what is left of xs0.
   */
  ghost predicate Walked(xs0: seq<Interval>, ys: seq<Interval>, mine0: nat, theirs0: nat, skipped: nat, theirs: nat) {
    mine0 + skipped <= |xs0| && theirs0 <= theirs <= |ys| &&
    Apart(xs0[mine0..mine0 + skipped], ys[theirs0..]) &&
    Apart(xs0[mine0 + skipped..], ys[theirs0..theirs])
  }

  lemma WalkStart(xs0: seq<Interval>, ys: seq<Interval>, mine0: nat, theirs0: nat)
    requires mine0 <= |xs0| && theirs0 <= |ys|
    ensures Walked(xs0, ys, mine0, theirs0, 0, theirs0)
  {
    assert xs0[mine0..mine0 + 0] == [] && ys[theirs0..theirs0] == [];
  }

  lemma WalkMine(xs0: seq<Interval>, ys: seq<Interval>, mine0: nat, theirs0: nat, skipped: nat, theirs: nat)
    requires Canonical(xs0) && Canonical(ys)
    requires Walked(xs0, ys, mine0, theirs0, skipped, theirs)
    requires mine0 + skipped < |xs0| && theirs < |ys| && xs0[mine0 + skipped].max <= ys[theirs].min
    ensures Walked(xs0, ys, mine0, theirs0, skipped + 1, theirs)
  {
    var x := xs0[mine0 + skipped];
    PointsHead(xs0, mine0 + skipped);
    CanonicalSlice(ys, theirs, |ys|);
    BelowApart(x, ys[theirs..]);
    PointsSplit(ys[theirs0..], theirs - theirs0);
    assert ys[theirs0..][..theirs - theirs0] == ys[theirs0..theirs];
    assert ys[theirs0..][theirs - theirs0..] == ys[theirs..];
    PointsConcat(xs0[mine0..mine0 + skipped], [x]);
    PointsSingle(x);
    assert xs0[mine0..mine0 + skipped + 1] == xs0[mine0..mine0 + skipped] + [x];
  }

  lemma WalkTheirs(xs0: seq<Interval>, ys: seq<Interval>, mine0: nat, theirs0: nat, skipped: nat, theirs: nat)
    requires Canonical(xs0) && Canonical(ys)
    requires Walked(xs0, ys, mine0, theirs0, skipped, theirs)
    requires mine0 + skipped < |xs0| && theirs < |ys| && ys[theirs].max <= xs0[mine0 + skipped].min
    ensures Walked(xs0, ys, mine0, theirs0, skipped, theirs + 1)
  {
    CanonicalSlice(xs0, mine0 + skipped, |xs0|);
    SkipOne(ys, theirs0, theirs, xs0[mine0 + skipped..]);
  }

  lemma WalkDone(xs0: seq<Interval>, ys: seq<Interval>, mine0: nat, theirs0: nat, skipped: nat)
    requires Walked(xs0, ys, mine0, theirs0, skipped, |ys|)
    ensures Walked(xs0, ys, mine0, theirs0, |xs0| - mine0, |ys|)
  {
    PointsSplit(xs0[mine0..], skipped);
    assert xs0[mine0..][..skipped] == xs0[mine0..mine0 + skipped];
    assert xs0[mine0..][skipped..] == xs0[mine0 + skipped..];
    assert ys[theirs0..|ys|] == ys[theirs0..];
    assert xs0[mine0..mine0 + (|xs0| - mine0)] == xs0[mine0..];
  }

  lemma {:induction false} WalkMineMany(xs0: seq<Interval>, ys: seq<Interval>, mine0: nat, theirs0: nat, skipped: nat,
                                        theirs: nat, n: nat)
    requires Canonical(xs0) && Canonical(ys)
    requires Walked(xs0, ys, mine0, theirs0, skipped, theirs)
    requires mine0 + skipped + n <= |xs0| && theirs < |ys|
    requires forall j :: mine0 + skipped <= j < mine0 + skipped + n ==> xs0[j].max <= ys[theirs].min
    ensures Walked(xs0, ys, mine0, theirs0, skipped + n, theirs)
    decreases n
  {
    if n > 0 {
      WalkMine(xs0, ys, mine0, theirs0, skipped, theirs);
      WalkMineMany(xs0, ys, mine0, theirs0, skipped + 1, theirs, n - 1);
    }
  }

  lemma {:induction false} WalkTheirsMany(xs0: seq<Interval>, ys: seq<Interval>, mine0: nat, theirs0: nat,
                                          skipped: nat, theirs: nat, n: nat)
    requires Canonical(xs0) && Canonical(ys)
    requires Walked(xs0, ys, mine0, theirs0, skipped, theirs)
    requires mine0 + skipped < |xs0| && theirs + n <= |ys|
    requires forall j :: theirs <= j < theirs + n ==> ys[j].max <= xs0[mine0 + skipped].min
    ensures Walked(xs0, ys, mine0, theirs0, skipped, theirs + n)
    decreases n
  {
    if n > 0 {
      WalkTheirs(xs0, ys, mine0, theirs0, skipped, theirs);
      WalkTheirsMany(xs0, ys, mine0, theirs0, skipped, theirs + 1, n - 1);
    }
  }

  /** Skips the intervals that end at or before a bound: either inner loop of the walk. */
  method SkipUpTo(xs: seq<Interval>, from: nat, bound: int) returns (at: nat)
    requires from <= |xs|
    ensures from <= at <= |xs|
    ensures forall j :: from <= j < at ==> xs[j].max <= bound
    ensures at < |xs| ==> xs[at].max > bound
  {
    at := from;
    while at != |xs| && xs[at].max <= bound
      invariant from <= at <= |xs|
      invariant forall j :: from <= j < at ==> xs[j].max <= bound
    {
      at := at + 1;
    }
  }

  /** The walk's view of the current set: holes erased or kept, the rest of xs0 still ahead. */
  ghost predicate Ahead(xs0: seq<Interval>, mine0: nat, skipped: nat, eraseHoles: bool, xs: seq<Interval>, mine: nat) {
    mine0 + skipped <= |xs0| && mine <= |xs| &&
    xs[mine..] == xs0[mine0 + skipped..] &&
    xs[..mine] == if eraseHoles then xs0[..mine0] else xs0[..mine0 + skipped]
  }

  lemma AheadAt(xs0: seq<Interval>, mine0: nat, skipped: nat, eraseHoles: bool, xs: seq<Interval>, mine: nat, n: nat)
    requires Ahead(xs0, mine0, skipped, eraseHoles, xs, mine)
    ensures |xs| - mine == |xs0| - mine0 - skipped
    ensures mine + n < |xs| ==> xs[mine + n] == xs0[mine0 + skipped + n]
  {
    assert mine + n < |xs| ==> xs[mine..][n] == xs0[mine0 + skipped..][n];
  }

  lemma AheadSkip(xs0: seq<Interval>, mine0: nat, skipped: nat, eraseHoles: bool, xs: seq<Interval>, mine: nat, to: nat)
    requires Ahead(xs0, mine0, skipped, eraseHoles, xs, mine) && mine <= to <= |xs|
    ensures eraseHoles ==> Ahead(xs0, mine0, skipped + to - mine, true, xs[..mine] + xs[to..], mine)
    ensures !eraseHoles ==> Ahead(xs0, mine0, skipped + to - mine, false, xs, to)
  {
    var n := to - mine;
    assert xs[to..] == xs[mine..][n..] == xs0[mine0 + skipped + n..];
    if eraseHoles {
      assert (xs[..mine] + xs[to..])[mine..] == xs[to..];
    } else {
      assert xs[..to] == xs[..mine] + xs[mine..][..n];
      assert xs0[..mine0 + skipped + n] == xs0[..mine0 + skipped] + xs0[mine0 + skipped..][..n];
    }
  }

  /** y is exhausted: with eraseHoles everything left of x is erased. */
  lemma EraseRest(xs0: seq<Interval>, ys: seq<Interval>, mine0: nat, theirs0: nat, skipped: nat, xs: seq<Interval>,
                  mine: nat)
    requires Walked(xs0, ys, mine0, theirs0, skipped, |ys|) && Ahead(xs0, mine0, skipped, true, xs, mine)
    ensures Walked(xs0, ys, mine0, theirs0, |xs0| - mine0, |ys|)
    ensures Ahead(xs0, mine0, |xs0| - mine0, true, xs[..mine], mine)
  {
    WalkDone(xs0, ys, mine0, theirs0, skipped);
    AheadSkip(xs0, mine0, skipped, true, xs, mine, |xs|);
    assert xs[..mine] + xs[|xs|..] == xs[..mine];
    AheadAt(xs0, mine0, skipped, true, xs, mine, 0);
  }

  /** First half of a round: passes (and erases) the intervals of x that do not reach ys[theirs]. */
  method SkipMine(ghost xs0: seq<Interval>, ys: seq<Interval>, ghost mine0: nat, ghost theirs0: nat, eraseHoles: bool,
                  xs: seq<Interval>, mine: nat, theirs: nat, ghost skipped: nat)
    returns (xs': seq<Interval>, mine': nat, ghost skipped': nat)
    requires Canonical(xs0) && Canonical(ys)
    requires Walked(xs0, ys, mine0, theirs0, skipped, theirs) && Ahead(xs0, mine0, skipped, eraseHoles, xs, mine)
    requires mine < |xs| && theirs < |ys|
    ensures Walked(xs0, ys, mine0, theirs0, skipped', theirs) && Ahead(xs0, mine0, skipped', eraseHoles, xs', mine')
    ensures mine' < |xs'| ==> xs'[mine'].max > ys[theirs].min
    ensures skipped' >= skipped && (skipped' == skipped ==> xs' == xs && mine' == mine)
  {
    var to := SkipUpTo(xs, mine, ys[theirs].min);
    SkipMineStep(xs0, ys, mine0, theirs0, eraseHoles, xs, mine, theirs, skipped, to);
    skipped' := skipped + (to - mine);
    if eraseHoles {
      xs', mine' := xs[..mine] + xs[to..], mine;
      AfterErasing(xs, mine, to);
    } else {
      xs', mine' := xs, to;
    }
  }

  lemma AfterErasing(xs: seq<Interval>, mine: nat, to: nat)
    requires mine <= to <= |xs|
    ensures mine < |xs[..mine] + xs[to..]| ==> to < |xs| && (xs[..mine] + xs[to..])[mine] == xs[to]
    ensures to == mine ==> xs[..mine] + xs[to..] == xs
  {
  }

  /** Passing xs[mine..to], none of which reaches ys[theirs], keeps the state of the walk. */
  lemma SkipMineStep(xs0: seq<Interval>, ys: seq<Interval>, mine0: nat, theirs0: nat, eraseHoles: bool,
                     xs: seq<Interval>, mine: nat, theirs: nat, skipped: nat, to: nat)
    requires Canonical(xs0) && Canonical(ys)
    requires Walked(xs0, ys, mine0, theirs0, skipped, theirs) && Ahead(xs0, mine0, skipped, eraseHoles, xs, mine)
    requires mine <= to <= |xs| && theirs < |ys| && forall j :: mine <= j < to ==> xs[j].max <= ys[theirs].min
    ensures Walked(xs0, ys, mine0, theirs0, skipped + (to - mine), theirs)
    ensures eraseHoles ==> Ahead(xs0, mine0, skipped + (to - mine), true, xs[..mine] + xs[to..], mine)
    ensures !eraseHoles ==> Ahead(xs0, mine0, skipped + (to - mine), false, xs, to)
  {
    AheadAt(xs0, mine0, skipped, eraseHoles, xs, mine, 0);
    AheadBound(xs0, mine0, skipped, eraseHoles, xs, mine, to, ys[theirs].min);
    WalkMineMany(xs0, ys, mine0, theirs0, skipped, theirs, to - mine);
    AheadSkip(xs0, mine0, skipped, eraseHoles, xs, mine, to);
  }

  lemma AheadBound(xs0: seq<Interval>, mine0: nat, skipped: nat, eraseHoles: bool, xs: seq<Interval>, mine: nat,
                   to: nat, bound: int)
    requires Ahead(xs0, mine0, skipped, eraseHoles, xs, mine)
    requires mine <= to <= |xs| && forall j :: mine <= j < to ==> xs[j].max <= bound
    ensures mine0 + skipped + (to - mine) <= |xs0|
    ensures forall j :: mine0 + skipped <= j < mine0 + skipped + (to - mine) ==> xs0[j].max <= bound
  {
    AheadAt(xs0, mine0, skipped, eraseHoles, xs, mine, 0);
    forall j | mine0 + skipped <= j < mine0 + skipped + (to - mine) ensures xs0[j].max <= bound {
      AheadAt(xs0, mine0, skipped, eraseHoles, xs, mine, j - mine0 - skipped);
    }
  }

  /** Second half of a round: passes the intervals of y that do not reach xs[mine]. */
  method SkipTheirs(ghost xs0: seq<Interval>, ys: seq<Interval>, ghost mine0: nat, ghost theirs0: nat, eraseHoles: bool,
                    xs: seq<Interval>, mine: nat, theirs: nat, ghost skipped: nat)
    returns (xs': seq<Interval>, theirs': nat, ghost skipped': nat)
    requires Canonical(xs0) && Canonical(ys)
    requires Walked(xs0, ys, mine0, theirs0, skipped, theirs) && Ahead(xs0, mine0, skipped, eraseHoles, xs, mine)
    requires mine < |xs| && theirs < |ys|
    ensures Walked(xs0, ys, mine0, theirs0, skipped', theirs') && Ahead(xs0, mine0, skipped', eraseHoles, xs', mine)
    ensures theirs' < |ys| ==> xs' == xs && skipped' == skipped && ys[theirs'].max > xs[mine].min
    ensures theirs' == |ys| && eraseHoles ==> mine == |xs'|
    ensures theirs' >= theirs
  {
    theirs' := SkipUpTo(ys, theirs, xs[mine].min);
    AheadAt(xs0, mine0, skipped, eraseHoles, xs, mine, 0);
    WalkTheirsMany(xs0, ys, mine0, theirs0, skipped, theirs, theirs' - theirs);
    xs', skipped' := xs, skipped;
    if theirs' == |ys| && eraseHoles {
      EraseRest(xs0, ys, mine0, theirs0, skipped, xs, mine);
      xs', skipped' := xs[..mine], |xs0| - mine0;
    }
  }

  /**
   * FindNextIntersectingPairImpl: advances mine over x and theirs over y to the next pair that
   * intersects; with eraseHoles, intervals of x that meet nothing of y are erased on the way.
   * `skipped` counts the intervals of x passed over.
   */
  method FindNextIntersectingPairImpl(xs0: seq<Interval>, ys: seq<Interval>, mine0: nat, theirs0: nat, eraseHoles: bool)
    returns (found: bool, xs: seq<Interval>, mine: nat, theirs: nat, ghost skipped: nat)
    requires Canonical(xs0) && Canonical(ys) && mine0 <= |xs0| && theirs0 <= |ys|
    ensures Walked(xs0, ys, mine0, theirs0, skipped, theirs)
    ensures Ahead(xs0, mine0, skipped, eraseHoles, xs, mine)
    ensures found ==> mine < |xs| && theirs < |ys| && xs[mine].Intersects(ys[theirs])
    ensures !found ==> mine == |xs| || theirs == |ys|
    ensures !found && eraseHoles && theirs0 < |ys| ==> mine == |xs|
  {
    found, xs, mine, theirs, skipped := false, xs0, mine0, theirs0, 0;
    WalkStart(xs0, ys, mine0, theirs0);
    if mine == |xs| || theirs == |ys| {
      return;
    }
    while !xs[mine].Intersects(ys[theirs])
      invariant Walked(xs0, ys, mine0, theirs0, skipped, theirs)
      invariant Ahead(xs0, mine0, skipped, eraseHoles, xs, mine)
      invariant mine < |xs| && theirs < |ys|
      decreases |xs0| - skipped + |ys| - theirs
    {
      assert xs[mine].min < xs[mine].max by { AheadAt(xs0, mine0, skipped, eraseHoles, xs, mine, 0); }
      xs, mine, skipped := SkipMine(xs0, ys, mine0, theirs0, eraseHoles, xs, mine, theirs, skipped);
      if mine == |xs| {
        return;
      }
      xs, theirs, skipped := SkipTheirs(xs0, ys, mine0, theirs0, eraseHoles, xs, mine, theirs, skipped);
      if theirs == |ys| {
        return;
      }
    }
    found := true;
  }
}
