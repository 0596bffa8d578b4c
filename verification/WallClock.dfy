/** `resolve_wall_clock`: the instant at which a station's wall clock shows a given
    local time, under gaps and folds.  A zone is a table of transitions; local times
    and instants are integers counting the same unit.  Local times are read back to
    offsets the way PEP 495 prescribes: with `fold` 0 a transition takes effect at
    the later of its two local readings, with `fold` 1 at the earlier. */
module WallClock {
  import opened Options

  datatype Transition = Transition(at: int, offset: int)

  /** Segment 0 lies before the first transition, segment k after transition k. */
  datatype Zone = Zone(base: int, transitions: seq<Transition>) {
    const N := |transitions|

    function Offset(k: nat): int
      requires k <= N
    {
      if k == 0 then base else transitions[k - 1].offset
    }

    function At(k: nat): int
      requires 0 < k <= N
    {
      transitions[k - 1].at
    }

    /** The two local readings of transition k. */
    function Lo(k: nat): int
      requires 0 < k <= N
    {
      At(k) + if Offset(k) < Offset(k - 1) then Offset(k) else Offset(k - 1)
    }

    function Hi(k: nat): int
      requires 0 < k <= N
    {
      At(k) + if Offset(k) < Offset(k - 1) then Offset(k - 1) else Offset(k)
    }

    /** The lists that are searched by bisection are sorted. */
    ghost predicate Valid()
    {
      && (forall j, k :: 0 < j < k <= N ==> At(j) < At(k))
      && (forall j, k :: 0 < j < k <= N ==> Lo(j) <= Lo(k))
      && (forall j, k :: 0 < j < k <= N ==> Hi(j) <= Hi(k))
    }

    /** Transitions far enough apart that their local readings do not interleave. */
    ghost predicate Spaced()
    {
      && (forall j, k :: 0 < j < k <= N ==> At(j) < At(k))
      && (forall j, k :: 0 < j < k <= N ==> Hi(j) <= Lo(k))
    }

    /** How many transitions, counted from the left, have taken effect. */
    function AtInstant(u: int, k: nat): (r: nat)
      requires k <= N
      ensures r <= k && (r > 0 ==> At(r) <= u)
      ensures forall j :: r < j <= k ==> At(j) > u
    {
      if k == 0 || At(k) <= u then k else AtInstant(u, k - 1)
    }

    function AtWall(w: int, fold: int, k: nat): (r: nat)
      requires k <= N
      ensures r <= k && (r > 0 ==> (if fold == 0 then Hi(r) else Lo(r)) <= w)
      ensures forall j :: r < j <= k ==> (if fold == 0 then Hi(j) else Lo(j)) > w
    {
      if k == 0 || (if fold == 0 then Hi(k) else Lo(k)) <= w then k else AtWall(w, fold, k - 1)
    }

    /** `instant.astimezone(tz)` without its zone. */
    function WallOf(u: int): int
    {
      u + Offset(AtInstant(u, N))
    }

    /** `naive.replace(tzinfo=tz, fold=fold).astimezone(UTC)` */
    function InstantOf(w: int, fold: int): int
    {
      w - Offset(AtWall(w, fold, N))
    }

    /** Local time w is skipped or repeated at transition k. */
    ghost predicate Holds(k: nat, w: int)
      requires 0 < k <= N
    {
      Lo(k) <= w < Hi(k)
    }

    ghost predicate Gap(k: nat) requires 0 < k <= N { Offset(k - 1) < Offset(k) }
    ghost predicate Fold(k: nat) requires 0 < k <= N { Offset(k) < Offset(k - 1) }

    /** Some instant of segment k shows w. */
    ghost predicate Segment(k: nat, w: int)
      requires k <= N
    {
      (k > 0 ==> At(k) + Offset(k) <= w) && (k < N ==> w < At(k + 1) + Offset(k))
    }
  }

  datatype Candidate = Candidate(instant: int, fold: int)

  ghost predicate Earliest(z: Zone, w: int, u: int)
  {
    z.WallOf(u) == w && forall v :: z.WallOf(v) == w ==> u <= v
  }

  /** What the documentation promises: nothing for a time that never shows, otherwise
      the earliest instant that shows it. */
  ghost predicate Promised(z: Zone, w: int, r: Option<Candidate>)
  {
    match r
    case None => forall u :: z.WallOf(u) != w
    case Some(c) => Earliest(z, w, c.instant)
  }

  /** The function, as it computes. */
  ghost function Resolve(z: Zone, w: int): Option<Candidate>
  {
    var u0, u1 := z.InstantOf(w, 0), z.InstantOf(w, 1);
    if z.WallOf(u1) == w && (z.WallOf(u0) != w || u1 <= u0) then Some(Candidate(u1, 1))
    else if z.WallOf(u0) == w then Some(Candidate(u0, 0))
    else None
  }

  method ResolveWallClock(z: Zone, w: int) returns (r: Option<Candidate>)
    ensures r == Resolve(z, w)
  {
    var valid: map<int, Candidate> := map[];
    for fold := 0 to 2
      invariant forall u :: u in valid <==>
                  (fold > 0 && u == z.InstantOf(w, 0) && z.WallOf(u) == w) ||
                  (fold > 1 && u == z.InstantOf(w, 1) && z.WallOf(u) == w)
      invariant forall u :: u in valid ==>
                  valid[u] == Candidate(u, if fold > 1 && u == z.InstantOf(w, 1) then 1 else 0)
    {
      var instant := z.InstantOf(w, fold);
      if z.WallOf(instant) == w {
        valid := valid[instant := Candidate(instant, fold)];
      }
    }
    if valid == map[] {
      assert z.InstantOf(w, 0) !in valid && z.InstantOf(w, 1) !in valid;
      return None;
    }
    var least := MinKey(valid);
    return Some(valid[least]);
  }

  lemma SetWitness(s: set<int>)
    ensures s == {} || exists x :: x in s
  {
    if forall x :: x !in s { assert s == {}; }
  }

  method MinKey(m: map<int, Candidate>) returns (least: int)
    requires m != map[]
    ensures least in m && forall k :: k in m ==> least <= k
  {
    assert m.Keys == {} ==> m == map[];
    SetWitness(m.Keys);
    least :| least in m.Keys;
    var rest := m.Keys - {least};
    while rest != {}
      invariant rest <= m.Keys && least in m
      invariant forall k :: k in m && k !in rest ==> least <= k
      decreases |rest|
    {
      SetWitness(rest);
      var k :| k in rest;
      rest := rest - {k};
      if k < least { least := k; }
    }
  }

  // ---- Segments and instants ----

  lemma SegmentShows(z: Zone, w: int, k: nat)
    requires z.Valid() && k <= z.N && z.Segment(k, w)
    ensures z.AtInstant(w - z.Offset(k), z.N) == k && z.WallOf(w - z.Offset(k)) == w
  {
    var r := z.AtInstant(w - z.Offset(k), z.N);
    assert k > 0 ==> z.At(k) <= w - z.Offset(k);
    assert forall j :: k < j <= z.N ==> z.At(k + 1) <= z.At(j);
  }

  lemma ShownBySegment(z: Zone, w: int, u: int) returns (k: nat)
    requires z.Valid() && z.WallOf(u) == w
    ensures k <= z.N && z.Segment(k, w) && u == w - z.Offset(k)
  {
    k := z.AtInstant(u, z.N);
  }

  /** A later segment shows the time at a later instant. */
  lemma LaterSegment(z: Zone, w: int, j: nat, k: nat)
    requires z.Valid() && j < k <= z.N && z.Segment(j, w) && z.Segment(k, w)
    ensures w - z.Offset(j) < w - z.Offset(k)
  {
    assert j + 1 < k ==> z.At(j + 1) < z.At(k);
  }

  // ---- The two folds ----

  /** The transitions that skip or repeat w are those between the two bisection results. */
  lemma HoldsBetween(z: Zone, w: int, k: nat)
    requires z.Valid() && 0 < k <= z.N
    ensures z.Holds(k, w) <==> z.AtWall(w, 0, z.N) < k <= z.AtWall(w, 1, z.N)
  {
    var i0, i1 := z.AtWall(w, 0, z.N), z.AtWall(w, 1, z.N);
    assert k < i0 ==> z.Hi(k) <= z.Hi(i0);
    assert k < i1 ==> z.Lo(k) <= z.Lo(i1);
  }

  /** Which segments show w, read off the transitions that hold it. */
  lemma SegmentsShown(z: Zone, w: int, k: nat)
    requires z.Valid() && k <= z.N
    ensures var i0, i1 := z.AtWall(w, 0, z.N), z.AtWall(w, 1, z.N);
            i0 <= i1 &&
            (z.Segment(k, w) <==>
             i0 <= k <= i1 && (i0 < k ==> z.Fold(k)) && (k < i1 ==> z.Fold(k + 1)))
  {
    var i0, i1 := z.AtWall(w, 0, z.N), z.AtWall(w, 1, z.N);
    if k > 0 { HoldsBetween(z, w, k); }
    if k < z.N { HoldsBetween(z, w, k + 1); }
    if i0 > 0 { HoldsBetween(z, w, i0); }
  }

  // ---- The promise ----

  /** The time w falls into a gap first, and then into two folds in a row, whose common
      segment is the first to show w; its offset is neither of the two that are tried. */
  ghost predicate Missed(z: Zone, w: int, k: nat)
  {
    var i0, i1 := z.AtWall(w, 0, z.N), z.AtWall(w, 1, z.N);
    && i0 < k < i1
    && z.Gap(i0 + 1) && z.Fold(k) && z.Fold(k + 1)
    && (forall j :: i0 < j < k ==> !(z.Fold(j) && z.Fold(j + 1)))
    && z.Offset(k) != z.Offset(i0) && z.Offset(k) != z.Offset(i1)
  }

  /** The first segment that shows w is at the earliest instant that does. */
  lemma FirstSegmentIsEarliest(z: Zone, w: int, k: nat)
    requires z.Valid() && k <= z.N && z.Segment(k, w)
    requires forall j :: 0 <= j < k ==> !z.Segment(j, w)
    ensures Earliest(z, w, w - z.Offset(k))
  {
    SegmentShows(z, w, k);
    forall v | z.WallOf(v) == w
      ensures w - z.Offset(k) <= v
    {
      var j := ShownBySegment(z, w, v);
      if k < j { LaterSegment(z, w, k, j); }
    }
  }

  lemma NoSegmentNoInstant(z: Zone, w: int)
    requires z.Valid() && forall j :: 0 <= j <= z.N ==> !z.Segment(j, w)
    ensures forall u :: z.WallOf(u) != w
  {
    forall u
      ensures z.WallOf(u) != w
    {
      if z.WallOf(u) == w { var j := ShownBySegment(z, w, u); }
    }
  }

  /** The first segment that shows w, if any does. */
  ghost function FirstShown(z: Zone, w: int, from: nat): (r: Option<nat>)
    requires from <= z.N + 1
    ensures r == None ==> forall j :: from <= j <= z.N ==> !z.Segment(j, w)
    ensures r.Some? ==> from <= r.value <= z.N && z.Segment(r.value, w)
    ensures r.Some? ==> forall j :: from <= j < r.value ==> !z.Segment(j, w)
    decreases z.N + 1 - from
  {
    if from > z.N then None else if z.Segment(from, w) then Some(from) else FirstShown(z, w, from + 1)
  }

  /** If one of the two tried instants is the earliest, it is the one returned. */
  lemma TriedIsReturned(z: Zone, w: int, u: int)
    requires Earliest(z, w, u)
    ensures Promised(z, w, Resolve(z, w)) <==> u == z.InstantOf(w, 0) || u == z.InstantOf(w, 1)
  {
  }

  /** The promise is kept for a zone and a local time exactly when no segment is missed. */
  lemma KeptExactly(z: Zone, w: int)
    requires z.Valid()
    ensures Promised(z, w, Resolve(z, w)) <==> !exists k :: Missed(z, w, k)
  {
    hide Zone.AtWall, Zone.AtInstant, Zone.WallOf, Zone.Segment, Zone.Valid;
    var i0, i1 := z.AtWall(w, 0, z.N), z.AtWall(w, 1, z.N);
    match FirstShown(z, w, 0)
    case None =>
      NoSegmentNoInstant(z, w);
      forall k | i0 < k < i1
        ensures !Missed(z, w, k)
      {
        SegmentsShown(z, w, k);
      }
    case Some(f) =>
      FirstSegmentIsEarliest(z, w, f);
      TriedIsReturned(z, w, w - z.Offset(f));
      SegmentsShown(z, w, f);
      OnlyFirstIsMissed(z, w, f);
  }

  lemma OnlyFirstIsMissed(z: Zone, w: int, f: nat)
    requires z.Valid() && f <= z.N && z.Segment(f, w)
    requires forall j :: 0 <= j < f ==> !z.Segment(j, w)
    ensures (exists k :: Missed(z, w, k)) <==>
            z.Offset(f) != z.Offset(z.AtWall(w, 0, z.N)) && z.Offset(f) != z.Offset(z.AtWall(w, 1, z.N))
  {
    hide Zone.AtWall, Zone.AtInstant, Zone.WallOf, Zone.Segment, Zone.Valid;
    var i0, i1 := z.AtWall(w, 0, z.N), z.AtWall(w, 1, z.N);
    SegmentsShown(z, w, f);
    SegmentsShown(z, w, i0);
    forall k | Missed(z, w, k)
      ensures k == f
    {
      SegmentsShown(z, w, k);
    }
    if i0 < f < i1 {
      HoldsBetween(z, w, i0 + 1);
      forall j | i0 < j < f
        ensures !(z.Fold(j) && z.Fold(j + 1))
      {
        SegmentsShown(z, w, j);
      }
      assert z.Offset(f) != z.Offset(i0) && z.Offset(f) != z.Offset(i1) ==> Missed(z, w, f);
    }
  }

  /** In particular it is always kept when transitions do not interleave. */
  lemma SpacedIsValid(z: Zone)
    requires z.Spaced()
    ensures z.Valid()
  {
    forall j, k | 0 < j < k <= z.N
      ensures z.Lo(j) <= z.Lo(k) && z.Hi(j) <= z.Hi(k)
    {
      assert z.Lo(j) <= z.Hi(j) <= z.Lo(k) <= z.Hi(k);
    }
  }

  lemma AtMostOneHolds(z: Zone, w: int)
    requires z.Spaced() && z.Valid()
    ensures z.AtWall(w, 0, z.N) <= z.AtWall(w, 1, z.N) <= z.AtWall(w, 0, z.N) + 1
  {
    var i0, i1 := z.AtWall(w, 0, z.N), z.AtWall(w, 1, z.N);
    SegmentsShown(z, w, i0);
    if i0 + 1 < i1 {
      HoldsBetween(z, w, i0 + 1);
      HoldsBetween(z, w, i1);
    }
  }

  /** The answer carries `fold` 0 exactly when the clock shows the time twice. */
  lemma KeptWhenSpaced(z: Zone, w: int)
    requires z.Spaced()
    ensures Promised(z, w, Resolve(z, w))
    ensures var r := Resolve(z, w);
            r.Some? ==> (r.value.fold == 0 <==> exists u, v :: u != v && z.WallOf(u) == w && z.WallOf(v) == w)
  {
    SpacedIsValid(z);
    KeptExactly(z, w);
    AtMostOneHolds(z, w);
    AmbiguousExactly(z, w, z.AtWall(w, 0, z.N));
    FoldBit(z, w, z.AtWall(w, 0, z.N));
  }

  lemma FoldBit(z: Zone, w: int, i0: nat)
    requires z.Valid() && i0 == z.AtWall(w, 0, z.N)
    requires z.AtWall(w, 1, z.N) == i0 || z.AtWall(w, 1, z.N) == i0 + 1
    ensures var r := Resolve(z, w);
            r.Some? ==> (r.value.fold == 0 <==> z.AtWall(w, 1, z.N) == i0 + 1 && z.Fold(i0 + 1))
  {
    hide Zone.AtWall, Zone.AtInstant, Zone.WallOf, Zone.Segment, Zone.Valid;
    SegmentsShown(z, w, i0);
    if z.AtWall(w, 1, z.N) == i0 + 1 {
      SegmentsShown(z, w, i0 + 1);
      if z.Fold(i0 + 1) {
        SegmentShows(z, w, i0);
        LaterSegment(z, w, i0, i0 + 1);
      } else {
        HoldsBetween(z, w, i0 + 1);
        forall j | 0 <= j <= z.N
          ensures !z.Segment(j, w)
        {
          SegmentsShown(z, w, j);
        }
        NoSegmentNoInstant(z, w);
      }
    }
  }

  lemma AmbiguousExactly(z: Zone, w: int, i0: nat)
    requires z.Valid() && i0 == z.AtWall(w, 0, z.N)
    requires z.AtWall(w, 1, z.N) == i0 || z.AtWall(w, 1, z.N) == i0 + 1
    ensures (exists u, v :: u != v && z.WallOf(u) == w && z.WallOf(v) == w) <==>
            z.AtWall(w, 1, z.N) == i0 + 1 && z.Fold(i0 + 1)
  {
    hide Zone.AtWall, Zone.AtInstant, Zone.WallOf, Zone.Segment, Zone.Valid;
    if u, v :| u < v && z.WallOf(u) == w && z.WallOf(v) == w {
      var j := ShownBySegment(z, w, u);
      var k := ShownBySegment(z, w, v);
      SegmentsShown(z, w, j);
      SegmentsShown(z, w, k);
    }
    if z.AtWall(w, 1, z.N) == i0 + 1 && z.Fold(i0 + 1) {
      SegmentsShown(z, w, i0);
      SegmentsShown(z, w, i0 + 1);
      SegmentShows(z, w, i0);
      SegmentShows(z, w, i0 + 1);
    }
  }

  /** Every instant's own clock reading resolves, to that instant or to the earlier
      of the two that show it. */
  lemma ReadingResolves(z: Zone, u: int)
    requires z.Spaced()
    ensures Resolve(z, z.WallOf(u)).Some?
    ensures Resolve(z, z.WallOf(u)).value.instant <= u
    ensures z.WallOf(Resolve(z, z.WallOf(u)).value.instant) == z.WallOf(u)
  {
    KeptWhenSpaced(z, z.WallOf(u));
  }

  const TWO_FALL_BACKS := Zone(0, [Transition(0, 100), Transition(1, 90), Transition(11, 80)])

  lemma TwoFallBacksTable()
    ensures var z := TWO_FALL_BACKS;
            && z.Valid() && z.AtWall(95, 0, 3) == 0 && z.AtWall(95, 1, 3) == 3
            && z.Gap(1) && z.Fold(2) && z.Fold(3)
            && forall k :: 0 <= k <= 3 ==> (z.Segment(k, 95) <==> k >= 2)
  {
    var z := TWO_FALL_BACKS;
    assert z.Lo(1) == 0 && z.Hi(1) == 100;
    assert z.Lo(2) == 91 && z.Hi(2) == 101;
    assert z.Lo(3) == 91 && z.Hi(3) == 101;
  }

  /** A valid zone in which a time is shown exactly twice, at 5 and at 15, yet 15 is
      returned: that each time repeats at most twice is not enough. */
  lemma EarlierInstantMissed()
    ensures var z := TWO_FALL_BACKS;
            && z.Valid() && Missed(z, 95, 2)
            && Resolve(z, 95) == Some(Candidate(15, 1))
            && Earliest(z, 95, 5)
            && (forall u :: z.WallOf(u) == 95 <==> u == 5 || u == 15)
  {
    hide Zone.AtWall, Zone.AtInstant, Zone.WallOf, Zone.Valid, Zone.Segment;
    var z := TWO_FALL_BACKS;
    TwoFallBacksTable();
    SegmentShows(z, 95, 2);
    SegmentShows(z, 95, 3);
    forall u | z.WallOf(u) == 95
      ensures u == 5 || u == 15
    {
      var k := ShownBySegment(z, 95, u);
    }
  }
}
