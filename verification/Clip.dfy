/** CM_ClipBoxToBrush of qcommon/cmodel.c, over the reals: a box swept along a segment against a
    convex brush, which is the set of points behind all its sides. */
module Clip {
  import opened Geometry

  const DIST_EPSILON: real := 0.03125

  datatype Side = Side(plane: Plane, surface: int)

  datatype Brush = Brush(sides: seq<Side>, contents: int)

  datatype Hit = Hit(plane: Plane, surface: int, contents: int)

  /** The fields of `trace_t` that the clip writes. */
  datatype Trace = Trace(fraction: real, startsolid: bool, allsolid: bool, hit: Hit)

  datatype Sweep = Sweep(mins: Vec3, maxs: Vec3, p1: Vec3, p2: Vec3, isPoint: bool)

  /** `trace_ispoint` is only set for an empty box. */
  predicate SweepOk(s: Sweep) {
    BoxOk(s.mins, s.maxs) && (s.isPoint ==> s.mins == s.maxs == Vec3(0.0, 0.0, 0.0))
  }

  /** How far the box, placed at `p`, is in front of a plane: the distance of its rearmost corner. */
  function Gap(s: Sweep, plane: Plane, p: Vec3): real {
    Dot(plane.normal, Plus(p, BackCorner(plane.normal, s.mins, s.maxs))) - plane.dist
  }

  function Position(s: Sweep, t: real): Vec3 {
    Lerp(s.p1, s.p2, t)
  }

  /** The whole box at time `t` is strictly in front of the plane. */
  ghost predicate InFront(s: Sweep, plane: Plane, t: real) {
    forall q :: Within(q, s.mins, s.maxs) ==> Dot(plane.normal, Plus(Position(s, t), q)) > plane.dist
  }

  lemma GapMeaning(s: Sweep, plane: Plane, t: real)
    requires SweepOk(s)
    ensures InFront(s, plane, t) <==> Gap(s, plane, Position(s, t)) > 0.0
  {
    var n, p := plane.normal, Position(s, t);
    var c := BackCorner(n, s.mins, s.maxs);
    CornersWithin(n, s.mins, s.maxs);
    forall q | Within(q, s.mins, s.maxs) ensures Dot(n, Plus(p, q)) >= Dot(n, Plus(p, c)) {
      CornersBound(n, s.mins, s.maxs, q);
      DotPlus(n, p, q);
      DotPlus(n, p, c);
    }
  }

  /** The code's d1 and d2. */
  function D1(s: Sweep, side: Side): real {
    Gap(s, side.plane, s.p1)
  }

  function D2(s: Sweep, side: Side): real {
    Gap(s, side.plane, s.p2)
  }

  lemma GapAt(s: Sweep, side: Side, t: real)
    ensures Gap(s, side.plane, Position(s, t)) == D1(s, side) + t * (D2(s, side) - D1(s, side))
  {
    var n := side.plane.normal;
    var c := BackCorner(n, s.mins, s.maxs);
    DotPlus(n, Position(s, t), c);
    DotPlus(n, s.p1, c);
    DotPlus(n, s.p2, c);
    DotLerp(n, s.p1, s.p2, t);
  }

  // ---------------------------------------------------------------------------------------------
  // What the loop computes

  predicate Enters(s: Sweep, side: Side) {
    D1(s, side) > 0.0 && D1(s, side) > D2(s, side)
  }

  predicate Leaves(s: Sweep, side: Side) {
    D1(s, side) <= 0.0 && D2(s, side) > 0.0
  }

  /** The box starts in front of the side and never approaches it. */
  predicate Misses(s: Sweep, side: Side) {
    D1(s, side) > 0.0 && D2(s, side) >= D1(s, side)
  }

  function EnterTime(s: Sweep, side: Side): real
    requires Enters(s, side)
  {
    (D1(s, side) - DIST_EPSILON) / (D1(s, side) - D2(s, side))
  }

  function LeaveTime(s: Sweep, side: Side): real
    requires Leaves(s, side)
  {
    (D1(s, side) + DIST_EPSILON) / (D1(s, side) - D2(s, side))
  }

  /** `e` is the latest time at which the sweep enters behind one of the sides, or -1; `lead` is the
      first side that attains it. */
  ghost predicate LatestEntry(s: Sweep, sides: seq<Side>, e: real, lead: int) {
    && e >= -1.0
    && (forall i :: 0 <= i < |sides| && Enters(s, sides[i]) ==> EnterTime(s, sides[i]) <= e)
    && (e > -1.0 ==> 0 <= lead < |sides| && Enters(s, sides[lead]) && EnterTime(s, sides[lead]) == e)
    && (e > -1.0 ==> forall i :: 0 <= i < lead && Enters(s, sides[i]) ==> EnterTime(s, sides[i]) < e)
  }

  ghost predicate EarliestExit(s: Sweep, sides: seq<Side>, l: real) {
    && l <= 1.0
    && (forall i :: 0 <= i < |sides| && Leaves(s, sides[i]) ==> l <= LeaveTime(s, sides[i]))
    && (l < 1.0 ==> exists i :: 0 <= i < |sides| && Leaves(s, sides[i]) && LeaveTime(s, sides[i]) == l)
  }

  /** The box starts, or ends, behind every side. */
  predicate StartsInside(s: Sweep, sides: seq<Side>) {
    forall i :: 0 <= i < |sides| ==> D1(s, sides[i]) <= 0.0
  }

  predicate EndsInside(s: Sweep, sides: seq<Side>) {
    forall i :: 0 <= i < |sides| ==> D2(s, sides[i]) <= 0.0
  }

  predicate SomeMiss(s: Sweep, sides: seq<Side>) {
    exists i :: 0 <= i < |sides| && Misses(s, sides[i])
  }

  /** The brush takes over the hit: the box starts outside, comes behind every side before it leaves
      one again, and does so before the fraction reached so far. */
  predicate Clips(s: Sweep, sides: seq<Side>, fraction: real, e: real, l: real) {
    sides != [] && !SomeMiss(s, sides) && !StartsInside(s, sides) && e < l && -1.0 < e < fraction
  }

  /** The trace after the brush, given the latest entry and the earliest exit. */
  function Clipped(s: Sweep, brush: Brush, tr: Trace, e: real, l: real, lead: int): Trace {
    if brush.sides == [] || SomeMiss(s, brush.sides) then tr
    else if StartsInside(s, brush.sides) then
      tr.(startsolid := true, allsolid := tr.allsolid || EndsInside(s, brush.sides))
    else if e < l && -1.0 < e < tr.fraction && 0 <= lead < |brush.sides| then
      tr.(fraction := if e < 0.0 then 0.0 else e,
          hit := Hit(brush.sides[lead].plane, brush.sides[lead].surface, brush.contents))
    else tr
  }

  /** What the loop knows after some sides, none of which the sweep misses. */
  ghost predicate Scanned(s: Sweep, done: seq<Side>, startout: bool, getout: bool, e: real, l: real, lead: int) {
    && !SomeMiss(s, done) && LatestEntry(s, done, e, lead) && EarliestExit(s, done, l)
    && (startout <==> !StartsInside(s, done)) && (getout <==> !EndsInside(s, done))
  }

  lemma NothingScanned(s: Sweep, sides: seq<Side>)
    ensures Scanned(s, sides[..0], false, false, -1.0, 1.0, -1)
  {
  }

  lemma ScannedParts(s: Sweep, done: seq<Side>, startout: bool, getout: bool, e: real, l: real, lead: int)
    requires Scanned(s, done, startout, getout, e, l, lead)
    ensures !SomeMiss(s, done) && LatestEntry(s, done, e, lead) && EarliestExit(s, done, l)
    ensures (startout <==> !StartsInside(s, done)) && (getout <==> !EndsInside(s, done))
  {
  }

  lemma MissedLater(s: Sweep, sides: seq<Side>, i: nat)
    requires i < |sides| && Misses(s, sides[i])
    ensures SomeMiss(s, sides)
  {
  }

  lemma InsideAdded(s: Sweep, done: seq<Side>, side: Side)
    ensures StartsInside(s, done + [side]) <==> StartsInside(s, done) && D1(s, side) <= 0.0
    ensures EndsInside(s, done + [side]) <==> EndsInside(s, done) && D2(s, side) <= 0.0
    ensures SomeMiss(s, done + [side]) <==> SomeMiss(s, done) || Misses(s, side)
  {
    var all := done + [side];
    assert all[|done|] == side && forall i :: 0 <= i < |done| ==> all[i] == done[i];
  }

  lemma EntryAdded(s: Sweep, done: seq<Side>, side: Side, e: real, lead: int)
    requires LatestEntry(s, done, e, lead)
    ensures if Enters(s, side) && EnterTime(s, side) > e
      then LatestEntry(s, done + [side], EnterTime(s, side), |done|)
      else LatestEntry(s, done + [side], e, lead)
  {
    var all := done + [side];
    assert all[|done|] == side && forall i :: 0 <= i < |done| ==> all[i] == done[i];
  }

  lemma ExitAdded(s: Sweep, done: seq<Side>, side: Side, l: real)
    requires EarliestExit(s, done, l)
    ensures if Leaves(s, side) && LeaveTime(s, side) < l
      then EarliestExit(s, done + [side], LeaveTime(s, side))
      else EarliestExit(s, done + [side], l)
  {
    var all := done + [side];
    assert all[|done|] == side && forall i :: 0 <= i < |done| ==> all[i] == done[i];
  }

  /** One side more. */
  lemma ScanStep(s: Sweep, done: seq<Side>, side: Side, startout: bool, getout: bool, e: real, l: real, lead: int,
                 d1: real, d2: real)
    requires Scanned(s, done, startout, getout, e, l, lead) && d1 == D1(s, side) && d2 == D2(s, side)
    ensures d1 > 0.0 && d2 >= d1 ==> Misses(s, side)
    ensures !(d1 > 0.0 && d2 >= d1) ==>
      var later := d1 > 0.0 && d1 > d2 && (d1 - DIST_EPSILON) / (d1 - d2) > e;
      var sooner := d1 <= 0.0 && d2 > 0.0 && (d1 + DIST_EPSILON) / (d1 - d2) < l;
      Scanned(s, done + [side], startout || d1 > 0.0, getout || d2 > 0.0,
              if later then (d1 - DIST_EPSILON) / (d1 - d2) else e,
              if sooner then (d1 + DIST_EPSILON) / (d1 - d2) else l,
              if later then |done| else lead)
  {
    InsideAdded(s, done, side);
    EntryAdded(s, done, side, e, lead);
    ExitAdded(s, done, side, l);
    hide SomeMiss, LatestEntry, EarliestExit, StartsInside, EndsInside, D1, D2;
  }

  /** The distances of both ends from a side, with the plane pushed out by the box, or not pushed at
      all in the point case. */
  method Distances(s: Sweep, side: Side) returns (d1: real, d2: real)
    requires SweepOk(s)
    ensures d1 == D1(s, side) && d2 == D2(s, side)
  {
    var n := side.plane.normal;
    var dist := side.plane.dist;
    if !s.isPoint {
      dist := side.plane.dist - Dot(n, BackCorner(n, s.mins, s.maxs));
    }
    d1 := Dot(n, s.p1) - dist;
    d2 := Dot(n, s.p2) - dist;
    DotPlus(n, s.p1, BackCorner(n, s.mins, s.maxs));
    DotPlus(n, s.p2, BackCorner(n, s.mins, s.maxs));
  }

  /** The loop of CM_ClipBoxToBrush over the sides; `missed` is its early return. */
  method ScanSides(s: Sweep, sides: seq<Side>)
    returns (missed: bool, startout: bool, getout: bool, enterfrac: real, leavefrac: real, leadside: int)
    requires SweepOk(s)
    ensures missed <==> SomeMiss(s, sides)
    ensures !missed ==> LatestEntry(s, sides, enterfrac, leadside) && EarliestExit(s, sides, leavefrac)
    ensures !missed ==> (startout <==> !StartsInside(s, sides)) && (getout <==> !EndsInside(s, sides))
  {
    hide *;
    missed, startout, getout := false, false, false;
    enterfrac, leavefrac, leadside := -1.0, 1.0, -1;
    var i := 0;
    NothingScanned(s, sides);
    while i < |sides|
      invariant 0 <= i <= |sides|
      invariant Scanned(s, sides[..i], startout, getout, enterfrac, leavefrac, leadside)
    {
      var side := sides[i];
      var d1, d2 := Distances(s, side);
      assert sides[..i + 1] == sides[..i] + [side];
      ScanStep(s, sides[..i], side, startout, getout, enterfrac, leavefrac, leadside, d1, d2);
      getout := getout || d2 > 0.0;
      startout := startout || d1 > 0.0;
      if d1 > 0.0 && d2 >= d1 {
        MissedLater(s, sides, i);
        return true, startout, getout, enterfrac, leavefrac, leadside;
      }
      if !(d1 <= 0.0 && d2 <= 0.0) {
        if d1 > d2 {
          var f := (d1 - DIST_EPSILON) / (d1 - d2);
          if f > enterfrac {
            enterfrac := f;
            leadside := i;
          }
        } else {
          var f := (d1 + DIST_EPSILON) / (d1 - d2);
          if f < leavefrac {
            leavefrac := f;
          }
        }
      }
      i := i + 1;
    }
    assert sides[..i] == sides;
    ScannedParts(s, sides, startout, getout, enterfrac, leavefrac, leadside);
  }

  /** The global `trace_trace`. */
  class TraceState {
    var trace: Trace

    constructor (t: Trace)
      ensures trace == t
    {
      trace := t;
    }

    /** CM_ClipBoxToBrush. The "missing leadside" error is unreachable. */
    method ClipBoxToBrush(s: Sweep, brush: Brush) returns (ghost e: real, ghost l: real, ghost lead: int)
      requires SweepOk(s)
      modifies this
      ensures !SomeMiss(s, brush.sides) ==> LatestEntry(s, brush.sides, e, lead) && EarliestExit(s, brush.sides, l)
      ensures trace == Clipped(s, brush, old(trace), e, l, lead)
    {
      e, l, lead := -1.0, 1.0, -1;
      if brush.sides == [] {
        return;
      }
      var missed, startout, getout, enterfrac, leavefrac, leadside := ScanSides(s, brush.sides);
      e, l, lead := enterfrac, leavefrac, leadside;
      if missed {
        return;
      }
      hide SomeMiss, StartsInside, EndsInside, EarliestExit;
      if !startout {
        trace := trace.(startsolid := true);
        if !getout {
          trace := trace.(allsolid := true);
        }
        return;
      }
      if enterfrac < leavefrac {
        if -1.0 < enterfrac < trace.fraction {
          if enterfrac < 0.0 {
            enterfrac := 0.0;
          }
          var clip := brush.sides[leadside];
          trace := trace.(fraction := enterfrac, hit := Hit(clip.plane, clip.surface, brush.contents));
        }
      }
    }
  }

  // ---------------------------------------------------------------------------------------------
  // What it means

  /** The box is strictly in front of some side, so it does not touch the brush. */
  ghost predicate Outside(s: Sweep, sides: seq<Side>, t: real) {
    exists i :: 0 <= i < |sides| && InFront(s, sides[i].plane, t)
  }

  /** At time `t` the box reaches at least DIST_EPSILON behind every side. */
  ghost predicate Deep(s: Sweep, sides: seq<Side>, t: real) {
    forall i :: 0 <= i < |sides| ==> Gap(s, sides[i].plane, Position(s, t)) <= -DIST_EPSILON
  }

  lemma DivideTimes(a: real, b: real)
    requires b != 0.0
    ensures (a / b) * b == a
  {
  }

  lemma DistanceLeft(d1: real, d2: real, t: real, f: real)
    requires d1 > d2 && t <= f && f == (d1 - DIST_EPSILON) / (d1 - d2)
    ensures d1 + t * (d2 - d1) >= DIST_EPSILON
    ensures t == f ==> d1 + t * (d2 - d1) == DIST_EPSILON
  {
    DivideTimes(d1 - DIST_EPSILON, d1 - d2);
    ProductOrder(d1 - d2, t, f);
    assert t * (d2 - d1) == -((d1 - d2) * t);
  }

  lemma EntryGap(s: Sweep, side: Side, t: real)
    requires Enters(s, side) && t <= EnterTime(s, side)
    ensures var g := Gap(s, side.plane, Position(s, t));
      g >= DIST_EPSILON > 0.0 && (t == EnterTime(s, side) ==> g == DIST_EPSILON)
  {
    GapAt(s, side, t);
    DistanceLeft(D1(s, side), D2(s, side), t, EnterTime(s, side));
    hide D1, D2, Gap;
  }

  /** Before and at its entry time, the box is in front of the side it enters behind, and at the
      entry time exactly DIST_EPSILON in front. */
  lemma BeforeEntry(s: Sweep, side: Side, t: real)
    requires SweepOk(s) && Enters(s, side) && t <= EnterTime(s, side)
    ensures Gap(s, side.plane, Position(s, t)) >= DIST_EPSILON && InFront(s, side.plane, t)
    ensures t == EnterTime(s, side) ==> Gap(s, side.plane, Position(s, t)) == DIST_EPSILON
  {
    hide *;
    GapMeaning(s, side.plane, t);
    EntryGap(s, side, t);
  }

  lemma AtStart(s: Sweep, side: Side)
    requires SweepOk(s)
    ensures InFront(s, side.plane, 0.0) <==> D1(s, side) > 0.0
    ensures InFront(s, side.plane, 1.0) <==> D2(s, side) > 0.0
  {
    GapAt(s, side, 0.0);
    GapAt(s, side, 1.0);
    GapMeaning(s, side.plane, 0.0);
    GapMeaning(s, side.plane, 1.0);
  }

  /** Soundness: if the brush takes over the hit, with the fraction f, the plane it reports is one of
      the brush's and separates the box from the brush at every time up to f; if f is not 0, the box
      stops exactly DIST_EPSILON in front of that plane. A fraction is never raised, and one above 0
      is lowered. Otherwise the brush leaves fraction and hit as they were. */
  lemma StopsInTime(s: Sweep, brush: Brush, tr: Trace, e: real, l: real, lead: int, t: real)
    requires SweepOk(s) && (SomeMiss(s, brush.sides) || LatestEntry(s, brush.sides, e, lead))
    ensures var c := Clipped(s, brush, tr, e, l, lead);
      if Clips(s, brush.sides, tr.fraction, e, l) then
        && 0 <= lead < |brush.sides|
        && c.hit == Hit(brush.sides[lead].plane, brush.sides[lead].surface, brush.contents)
        && (0.0 <= t <= c.fraction ==> InFront(s, c.hit.plane, t) && Outside(s, brush.sides, t))
        && (c.fraction > 0.0 ==> Gap(s, c.hit.plane, Position(s, c.fraction)) == 0.03125)
        && (tr.fraction >= 0.0 ==> c.fraction <= tr.fraction)
        && (tr.fraction > 0.0 ==> c.fraction < tr.fraction)
      else c.fraction == tr.fraction && c.hit == tr.hit
  {
    if Clips(s, brush.sides, tr.fraction, e, l) {
      var side := brush.sides[lead];
      if e < 0.0 {
        AtStart(s, side);
      } else {
        BeforeEntry(s, side, e);
        if t <= e {
          BeforeEntry(s, side, t);
        }
      }
      hide SomeMiss, StartsInside, InFront, Gap, D1, D2, EnterTime;
    }
  }

  lemma ProductSign(t: real, x: real)
    requires 0.0 <= t && t * x < 0.0
    ensures t > 0.0 && x < 0.0
  {
  }

  lemma ApproachesBy(d1: real, d2: real, t: real, step: real, change: real)
    requires d1 > 0.0 && 0.0 <= t && step == d2 - d1 && change == t * step && d1 + change <= -DIST_EPSILON
    ensures d2 < d1 && t > 0.0
  {
    ProductSign(t, step);
  }

  lemma Approaches(d1: real, d2: real, t: real)
    requires d1 > 0.0 && 0.0 <= t <= 1.0 && d1 + t * (d2 - d1) <= -DIST_EPSILON
    ensures d2 < d1 && t > 0.0
  {
    ApproachesBy(d1, d2, t, d2 - d1, t * (d2 - d1));
  }

  lemma DeepEntry(d1: real, d2: real, t: real, f: real)
    requires d1 > 0.0 && d1 > d2 && 0.0 <= t <= 1.0 && d1 + t * (d2 - d1) <= -DIST_EPSILON
    requires f == (d1 - DIST_EPSILON) / (d1 - d2)
    ensures -1.0 < f < t
  {
    var a := d1 - d2;
    DivideTimes(d1 - DIST_EPSILON, a);
    assert a * f == d1 - DIST_EPSILON && a * t >= d1 + DIST_EPSILON;
    ProductOrder(a, t, 1.0);
    if f >= t {
      ProductOrder(a, t, f);
    }
    if f <= -1.0 {
      ProductOrder(a, f, -1.0);
    }
  }

  lemma StrictProduct(n: real, a: real, b: real)
    requires n > 0.0 && a < b
    ensures n * a < n * b
  {
    assert n * (b - a) > 0.0;
  }

  lemma DeepExit(d1: real, d2: real, t: real, f: real)
    requires d1 <= 0.0 && d2 > 0.0 && 0.0 <= t <= 1.0 && d1 + t * (d2 - d1) <= -DIST_EPSILON
    requires f == (d1 + DIST_EPSILON) / (d1 - d2)
    ensures t <= f
  {
    var a := d2 - d1;
    DivideTimes(d1 + DIST_EPSILON, d1 - d2);
    assert f * (d1 - d2) == -(a * f) && t * a == a * t;
    if f < t {
      StrictProduct(a, f, t);
    }
  }

  lemma DeepEnters(s: Sweep, side: Side, t: real)
    requires 0.0 <= t <= 1.0 && Gap(s, side.plane, Position(s, t)) <= -DIST_EPSILON
    ensures !Misses(s, side)
    ensures D1(s, side) > 0.0 ==> Enters(s, side) && -1.0 < EnterTime(s, side) && t > 0.0
    ensures Enters(s, side) ==> EnterTime(s, side) < t
    ensures Leaves(s, side) ==> t <= LeaveTime(s, side)
  {
    var d1, d2 := D1(s, side), D2(s, side);
    GapAt(s, side, t);
    if d1 > 0.0 {
      Approaches(d1, d2, t);
      DeepEntry(d1, d2, t, EnterTime(s, side));
    } else if d2 > 0.0 {
      DeepExit(d1, d2, t, LeaveTime(s, side));
    }
  }

  /** Completeness: if the box starts outside and is at some time t at least DIST_EPSILON deep behind
      every side, the trace ends before t. */
  lemma CatchesDeepHits(s: Sweep, brush: Brush, tr: Trace, e: real, l: real, lead: int, t: real)
    requires SweepOk(s) && brush.sides != []
    requires SomeMiss(s, brush.sides) || (LatestEntry(s, brush.sides, e, lead) && EarliestExit(s, brush.sides, l))
    requires Outside(s, brush.sides, 0.0) && 0.0 <= t <= 1.0 && Deep(s, brush.sides, t)
    ensures Clipped(s, brush, tr, e, l, lead).fraction < t
  {
    var k :| 0 <= k < |brush.sides| && InFront(s, brush.sides[k].plane, 0.0);
    AtStart(s, brush.sides[k]);
    forall i | 0 <= i < |brush.sides|
      ensures !Misses(s, brush.sides[i])
      ensures D1(s, brush.sides[i]) > 0.0 ==> t > 0.0
      ensures D1(s, brush.sides[i]) > 0.0 ==> Enters(s, brush.sides[i]) && -1.0 < EnterTime(s, brush.sides[i])
      ensures Enters(s, brush.sides[i]) ==> EnterTime(s, brush.sides[i]) < t
      ensures Leaves(s, brush.sides[i]) ==> t <= LeaveTime(s, brush.sides[i])
    {
      DeepEnters(s, brush.sides[i], t);
    }
    assert e < t <= l;
  }

  lemma PartOf(t: real, step: real)
    requires 0.0 <= t <= 1.0
    ensures t * step <= if step <= 0.0 then 0.0 else step
  {
    if step > 0.0 {
      ProductOrder(step, t, 1.0);
    }
  }

  lemma Between(d1: real, d2: real, t: real)
    requires d1 <= 0.0 && d2 <= 0.0 && 0.0 <= t <= 1.0
    ensures d1 + t * (d2 - d1) <= 0.0
  {
    PartOf(t, d2 - d1);
  }

  lemma StaysBehind(s: Sweep, side: Side, t: real)
    requires SweepOk(s) && D1(s, side) <= 0.0 && D2(s, side) <= 0.0 && 0.0 <= t <= 1.0
    ensures !InFront(s, side.plane, t)
  {
    GapAt(s, side, t);
    GapMeaning(s, side.plane, t);
    Between(D1(s, side), D2(s, side), t);
    hide D1, D2, Gap, InFront;
  }

  lemma AfterEntryTime(d1: real, d2: real, t: real, f: real, g: real)
    requires d1 > d2 && f == (d1 - DIST_EPSILON) / (d1 - d2) && g == d1 + t * (d2 - d1)
    ensures f <= t <==> g <= 0.03125
  {
    DivideTimes(d1 - DIST_EPSILON, d1 - d2);
    assert t * (d2 - d1) == -((d1 - d2) * t);
    if f < t {
      StrictProduct(d1 - d2, f, t);
    } else if t < f {
      StrictProduct(d1 - d2, t, f);
    }
  }

  lemma BeforeLeaveTime(d1: real, d2: real, t: real, f: real, g: real)
    requires d1 < d2 && f == (d1 + DIST_EPSILON) / (d1 - d2) && g == d1 + t * (d2 - d1)
    ensures t < f <==> g < -0.03125
  {
    DivideTimes(d1 + DIST_EPSILON, d1 - d2);
    assert f * (d1 - d2) == -((d2 - d1) * f) && t * (d2 - d1) == (d2 - d1) * t;
    if t < f {
      StrictProduct(d2 - d1, t, f);
    } else if f < t {
      StrictProduct(d2 - d1, f, t);
    }
  }

  lemma TimesAre(s: Sweep, side: Side)
    ensures Enters(s, side) ==> var d1, d2 := D1(s, side), D2(s, side);
      d1 > d2 && EnterTime(s, side) == (d1 - DIST_EPSILON) / (d1 - d2)
    ensures Leaves(s, side) ==> var d1, d2 := D1(s, side), D2(s, side);
      d1 < d2 && LeaveTime(s, side) == (d1 + DIST_EPSILON) / (d1 - d2)
  {
    hide D1, D2;
  }

  /** An entry or leave time is the time at which a side is DIST_EPSILON before, or behind, the box. */
  lemma TimesAreGaps(s: Sweep, side: Side, t: real)
    ensures Enters(s, side) ==> (EnterTime(s, side) <= t <==> Gap(s, side.plane, Position(s, t)) <= 0.03125)
    ensures Leaves(s, side) ==> (t < LeaveTime(s, side) <==> Gap(s, side.plane, Position(s, t)) < -0.03125)
  {
    hide *;
    var g := Gap(s, side.plane, Position(s, t));
    GapAt(s, side, t);
    TimesAre(s, side);
    if Enters(s, side) {
      AfterEntryTime(D1(s, side), D2(s, side), t, EnterTime(s, side), g);
    }
    if Leaves(s, side) {
      BeforeLeaveTime(D1(s, side), D2(s, side), t, LeaveTime(s, side), g);
    }
  }

  /** At time `t` the box has come within DIST_EPSILON of every side that it starts in front of, and is
      still more than that behind every side that it leaves. */
  ghost predicate Touches(s: Sweep, sides: seq<Side>, t: real) {
    forall side <- sides ::
      && (Gap(s, side.plane, s.p1) > 0.0 ==> Gap(s, side.plane, Position(s, t)) <= 0.03125)
      && (Gap(s, side.plane, s.p1) <= 0.0 < Gap(s, side.plane, s.p2) ==>
            Gap(s, side.plane, Position(s, t)) < -0.03125)
  }

  lemma SideKinds(s: Sweep, side: Side)
    ensures Enters(s, side) <==> Gap(s, side.plane, s.p1) > 0.0 && Gap(s, side.plane, s.p2) < Gap(s, side.plane, s.p1)
    ensures Leaves(s, side) <==> Gap(s, side.plane, s.p1) <= 0.0 < Gap(s, side.plane, s.p2)
    ensures Misses(s, side) <==> Gap(s, side.plane, s.p1) > 0.0 && Gap(s, side.plane, s.p2) >= Gap(s, side.plane, s.p1)
  {
    hide Gap;
  }

  /** The times at which the box touches are those from the latest entry to the earliest exit. */
  lemma TouchingTimes(s: Sweep, sides: seq<Side>, e: real, l: real, lead: int, t: real)
    requires !SomeMiss(s, sides) && LatestEntry(s, sides, e, lead) && EarliestExit(s, sides, l) && -1.0 <= t < 1.0
    ensures e <= t < l <==> Touches(s, sides, t)
  {
    forall i | 0 <= i < |sides|
      ensures !Misses(s, sides[i])
      ensures Enters(s, sides[i]) <==> Gap(s, sides[i].plane, s.p1) > 0.0
      ensures Leaves(s, sides[i]) <==> Gap(s, sides[i].plane, s.p1) <= 0.0 < Gap(s, sides[i].plane, s.p2)
      ensures Enters(s, sides[i]) ==>
        (EnterTime(s, sides[i]) <= t <==> Gap(s, sides[i].plane, Position(s, t)) <= 0.03125)
      ensures Leaves(s, sides[i]) ==>
        (t < LeaveTime(s, sides[i]) <==> Gap(s, sides[i].plane, Position(s, t)) < -0.03125)
    {
      SideKinds(s, sides[i]);
      TimesAreGaps(s, sides[i], t);
    }
    hide Enters, Leaves, Misses, EnterTime, LeaveTime, Gap;
  }

  lemma EntriesBefore(s: Sweep, sides: seq<Side>, e: real, lead: int)
    requires LatestEntry(s, sides, e, lead)
    ensures e > -1.0 <==>
      exists side <- sides :: Enters(s, side) && Gap(s, side.plane, Position(s, -1.0)) > 0.03125
  {
    forall i | 0 <= i < |sides| && Enters(s, sides[i])
      ensures EnterTime(s, sides[i]) <= -1.0 <==> Gap(s, sides[i].plane, Position(s, -1.0)) <= 0.03125
    {
      TimesAreGaps(s, sides[i], -1.0);
    }
    hide Enters, EnterTime, Gap;
    if e > -1.0 {
      assert sides[lead] in sides;
    }
  }

  /** When the brush takes over the hit: no side is passed by, some side is approached from more than an
      epsilon away (looking one sweep back), and at some time before the fraction reached so far the box
      touches. */
  lemma ClipsExactly(s: Sweep, sides: seq<Side>, fraction: real, e: real, l: real, lead: int)
    requires SomeMiss(s, sides) || (LatestEntry(s, sides, e, lead) && EarliestExit(s, sides, l))
    ensures Clips(s, sides, fraction, e, l) <==>
      && (forall side <- sides ::
            Gap(s, side.plane, s.p1) > 0.0 ==> Gap(s, side.plane, s.p2) < Gap(s, side.plane, s.p1))
      && (exists side <- sides ::
            Gap(s, side.plane, s.p1) > 0.0 && Gap(s, side.plane, Position(s, -1.0)) > 0.03125)
      && (exists t :: -1.0 <= t < 1.0 && t < fraction && Touches(s, sides, t))
  {
    forall side | side in sides
      ensures Misses(s, side) <==>
        Gap(s, side.plane, s.p1) > 0.0 && Gap(s, side.plane, s.p2) >= Gap(s, side.plane, s.p1)
      ensures Enters(s, side) <==>
        Gap(s, side.plane, s.p1) > 0.0 && Gap(s, side.plane, s.p2) < Gap(s, side.plane, s.p1)
    {
      SideKinds(s, side);
    }
    if !SomeMiss(s, sides) {
      EntriesBefore(s, sides, e, lead);
      forall t | -1.0 <= t < 1.0
        ensures e <= t < l <==> Touches(s, sides, t)
      {
        TouchingTimes(s, sides, e, l, lead, t);
      }
      hide Enters, Leaves, Misses, EnterTime, LeaveTime, Gap, Touches;
      if Clips(s, sides, fraction, e, l) {
        assert Touches(s, sides, e);
      }
    }
  }

  lemma HitAtSide(s: Sweep, side: Side, e: real, f: real)
    requires f == (if e < 0.0 then 0.0 else e) && f < 1.0 && !Misses(s, side)
    requires (Enters(s, side) ==> EnterTime(s, side) <= e) && (Leaves(s, side) ==> e < LeaveTime(s, side))
    ensures Gap(s, side.plane, Position(s, f)) <= 0.03125
  {
    TimesAreGaps(s, side, f);
    SideKinds(s, side);
    GapAt(s, side, f);
    if !Enters(s, side) {
      if Leaves(s, side) {
        assert e < 0.0 ==> f * (D2(s, side) - D1(s, side)) == 0.0;
      } else {
        Between(D1(s, side), D2(s, side), f);
      }
    }
  }

  /** A hit is a hit: where the trace then ends, the box is within DIST_EPSILON of the brush. */
  lemma HitTouches(s: Sweep, brush: Brush, tr: Trace, e: real, l: real, lead: int, side: Side)
    requires LatestEntry(s, brush.sides, e, lead) && EarliestExit(s, brush.sides, l)
    requires Clips(s, brush.sides, tr.fraction, e, l) && side in brush.sides
    ensures var c := Clipped(s, brush, tr, e, l, lead);
      0.0 <= c.fraction < 1.0 && Gap(s, side.plane, Position(s, c.fraction)) <= 0.03125
  {
    var i :| 0 <= i < |brush.sides| && brush.sides[i] == side;
    assert !Misses(s, brush.sides[i]);
    HitAtSide(s, side, e, if e < 0.0 then 0.0 else e);
    hide Enters, Leaves, Misses, EnterTime, LeaveTime, Gap, StartsInside;
  }

  /** `startsolid` is set exactly if the box starts touching or inside every side, and `allsolid`
      exactly if it moreover ends so; then it is so all along, because the brush is convex. */
  lemma SolidMeaning(s: Sweep, brush: Brush, tr: Trace, e: real, l: real, lead: int)
    requires SweepOk(s) && brush.sides != [] && !tr.startsolid && !tr.allsolid
    ensures var c := Clipped(s, brush, tr, e, l, lead);
      && (c.startsolid <==> !Outside(s, brush.sides, 0.0))
      && (c.allsolid <==> !Outside(s, brush.sides, 0.0) && !Outside(s, brush.sides, 1.0))
      && (c.allsolid <==> forall t :: 0.0 <= t <= 1.0 ==> !Outside(s, brush.sides, t))
      && (c.startsolid ==> c.fraction == tr.fraction)
  {
    var sides := brush.sides;
    forall i | 0 <= i < |sides|
      ensures InFront(s, sides[i].plane, 0.0) <==> D1(s, sides[i]) > 0.0
      ensures InFront(s, sides[i].plane, 1.0) <==> D2(s, sides[i]) > 0.0
    {
      AtStart(s, sides[i]);
    }
    if StartsInside(s, sides) && EndsInside(s, sides) {
      forall t | 0.0 <= t <= 1.0 ensures !Outside(s, sides, t) {
        forall i | 0 <= i < |sides| ensures !InFront(s, sides[i].plane, t) {
          StaysBehind(s, sides[i], t);
        }
      }
    }
  }
}
