/**
 * Tessellation of one conic orbit into GL.LINES vertex pairs.
 *
 * A closed conic (an ellipse) is sampled n times starting at the current
 * eccentric anomaly, each later sample wrapped by the host's remainder by 2·PI,
 * and the loop is closed back to the first point. An open conic (a parabola or
 * hyperbola) is walked in two independent arms from the current anomaly, one
 * backward and one forward, in a fixed step, each arm stopping before it
 * reaches its side of the asymptotic bound.
 *
 * pos is the host's anomaly-to-scaled-space position function; it is never
 * interpreted here.
 */
module ConicSampling {
  import opened Scene
  import opened Polyline

  // ---------------------------------------------------------------------------
  // Closed conics

  /** Sample i of the closed tessellation: the seam point for i = 0, else the wrapped anomaly. */
  function ClosedSample(pos: real -> Vector3, wrapAngle: real -> real, origin: real, radStep: real, i: nat): Vector3
  {
    if i == 0 then pos(origin) else pos(wrapAngle(origin + i as real * radStep))
  }

  /** Samples 0 .. n-1 in order. */
  function ClosedPoints(pos: real -> Vector3, wrapAngle: real -> real, origin: real, radStep: real, n: nat): seq<Vector3>
  {
    seq(n, i requires 0 <= i < n => ClosedSample(pos, wrapAngle, origin, radStep, i))
  }

  /** The closed polyline: the path through the samples and back to the seam point. */
  function ClosedVertices(pos: real -> Vector3, wrapAngle: real -> real, origin: real, radStep: real, n: nat): seq<Vector3>
  {
    PathVertices(ClosedPoints(pos, wrapAngle, origin, radStep, n) + [pos(origin)])
  }

  /**
   * The closed polyline has exactly n segments; segment s joins sample s to
   * sample (s+1) mod n, so it starts and ends at the seam point pos(origin),
   * and each segment starts where the previous one ended.
   */
  lemma ClosedTessellation(pos: real -> Vector3, wrapAngle: real -> real, origin: real, radStep: real, n: nat)
    requires n >= 1
    ensures |ClosedVertices(pos, wrapAngle, origin, radStep, n)| == 2 * n
    ensures forall s: nat :: s < n ==>
      SegmentStart(ClosedVertices(pos, wrapAngle, origin, radStep, n), s) == ClosedSample(pos, wrapAngle, origin, radStep, s) &&
      SegmentEnd(ClosedVertices(pos, wrapAngle, origin, radStep, n), s) == ClosedSample(pos, wrapAngle, origin, radStep, (s + 1) % n)
    ensures SegmentStart(ClosedVertices(pos, wrapAngle, origin, radStep, n), 0) == pos(origin)
    ensures SegmentEnd(ClosedVertices(pos, wrapAngle, origin, radStep, n), n - 1) == pos(origin)
    ensures Chained(ClosedVertices(pos, wrapAngle, origin, radStep, n))
  {
    var ps := ClosedPoints(pos, wrapAngle, origin, radStep, n);
    assert ps[0] == pos(origin);
    LoopSegments(ps);
  }

  /** The elliptic branch of DrawOrbits: n samples from the current anomaly, then the closing segment. */
  method SampleClosedConic(pos: real -> Vector3, wrapAngle: real -> real, origin: real, radStep: real, n: int)
    returns (vertices: seq<Vector3>)
    requires n >= 1
    ensures vertices == ClosedVertices(pos, wrapAngle, origin, radStep, n)
  {
    ghost var samples := ClosedPoints(pos, wrapAngle, origin, radStep, n);
    var first := pos(origin);
    var previous := first;
    vertices := [];
    for i := 1 to n
      invariant previous == samples[i - 1]
      invariant vertices == PathVertices(samples[..i])
    {
      var eccentricAnomaly := wrapAngle(origin + i as real * radStep);
      var point := pos(eccentricAnomaly);
      assert samples[i] == point;
      assert samples[..i + 1] == samples[..i] + [point];
      PathVerticesSnoc(samples[..i], point);
      vertices := vertices + [previous, point];
      previous := point;
    }
    assert samples[..n] == samples;
    PathVerticesSnoc(samples, first);
    vertices := vertices + [previous, first];
  }

  // ---------------------------------------------------------------------------
  // Open conics

  /** Which way an arm of an open conic is walked from the current anomaly. */
  datatype Direction = Backward | Forward

  /** The anomaly of sample i of an arm: origin - i·step backward, origin + i·step forward. */
  function ArmAnomaly(dir: Direction, origin: real, step: real, i: nat): real
  {
    if dir == Backward then origin - i as real * step else origin + i as real * step
  }

  /** The loop guard of an arm: strictly above the lower bound backward, strictly below the upper bound forward. */
  predicate BeforeLimit(dir: Direction, anomaly: real, limit: real)
  {
    if dir == Backward then anomaly > limit else anomaly < limit
  }

  /** Distance from the current anomaly to the arm's limit, in the arm's direction. */
  function Room(dir: Direction, origin: real, limit: real): real
  {
    if dir == Backward then origin - limit else limit - origin
  }

  /**
   * Number of samples the arm takes after its seed: the count of i >= 1 with
   * i·step < Room, that is ceil(Room/step) - 1 when Room is positive.
   */
  function ArmLength(dir: Direction, origin: real, step: real, limit: real): nat
    requires step > 0.0
  {
    var room := Room(dir, origin, limit);
    if room <= 0.0 then 0 else -((-(room / step)).Floor) - 1
  }

  /** Sample i >= 1 is taken exactly when i <= ArmLength: the loop guard holds for 1 .. ArmLength and fails next. */
  lemma ArmLengthCounts(dir: Direction, origin: real, step: real, limit: real, i: nat)
    requires step > 0.0 && i >= 1
    ensures i <= ArmLength(dir, origin, step, limit) <==> BeforeLimit(dir, ArmAnomaly(dir, origin, step, i), limit)
  {
    var room := Room(dir, origin, limit);
    var offset := i as real * step;
    assert BeforeLimit(dir, ArmAnomaly(dir, origin, step, i), limit) <==> offset < room;
    if room <= 0.0 {
      assert offset >= step by {
        MulMono(1.0, i as real, step);
      }
    } else {
      var q := room / step;
      var f := (-q).Floor;
      assert ArmLength(dir, origin, step, limit) == -f - 1;
      assert (i as real) < q <==> f < -(i as int) by {
        FloorBelow(-q, -(i as int));
      }
      BelowQuotient(i as real, room, step);
    }
  }

  lemma PositiveProduct(x: real, y: real)
    requires x > 0.0 && y > 0.0
    ensures x * y > 0.0
  {
  }

  lemma BelowQuotient(k: real, r: real, s: real)
    requires s > 0.0
    ensures k < r / s <==> k * s < r
  {
    assert (r / s) * s == r;
    MulMono(k, r / s, s);
  }

  lemma MulMono(a: real, b: real, c: real)
    requires c > 0.0
    ensures a < b <==> a * c < b * c
    ensures a <= b <==> a * c <= b * c
  {
    if a < b {
      PositiveProduct(b - a, c);
    } else if b < a {
      PositiveProduct(a - b, c);
    }
  }

  lemma FloorBelow(x: real, k: int)
    ensures x.Floor < k <==> x < k as real
  {
  }

  /** The points of an arm: the seed pos(origin), then its ArmLength samples. */
  function ArmPoints(pos: real -> Vector3, dir: Direction, origin: real, step: real, m: nat): seq<Vector3>
  {
    seq(m + 1, i requires 0 <= i < m + 1 => pos(ArmAnomaly(dir, origin, step, i)))
  }

  /** The vertex list an arm emits. */
  function ArmVertices(pos: real -> Vector3, dir: Direction, origin: real, step: real, limit: real): seq<Vector3>
    requires step > 0.0
  {
    PathVertices(ArmPoints(pos, dir, origin, step, ArmLength(dir, origin, step, limit)))
  }

  /**
   * An arm is a chained path of ArmLength segments, seeded at pos(origin), each
   * joining consecutive samples; every sample it takes is strictly inside its
   * limit, and it is empty exactly when the first step already reaches the limit.
   */
  lemma ArmTessellation(pos: real -> Vector3, dir: Direction, origin: real, step: real, limit: real)
    requires step > 0.0
    ensures |ArmVertices(pos, dir, origin, step, limit)| == 2 * ArmLength(dir, origin, step, limit)
    ensures ArmVertices(pos, dir, origin, step, limit) == [] <==> !BeforeLimit(dir, ArmAnomaly(dir, origin, step, 1), limit)
    ensures ArmLength(dir, origin, step, limit) > 0 ==> SegmentStart(ArmVertices(pos, dir, origin, step, limit), 0) == pos(origin)
    ensures forall s: nat :: s < ArmLength(dir, origin, step, limit) ==>
      SegmentStart(ArmVertices(pos, dir, origin, step, limit), s) == pos(ArmAnomaly(dir, origin, step, s)) &&
      SegmentEnd(ArmVertices(pos, dir, origin, step, limit), s) == pos(ArmAnomaly(dir, origin, step, s + 1))
    ensures forall i: nat :: 1 <= i <= ArmLength(dir, origin, step, limit) ==> BeforeLimit(dir, ArmAnomaly(dir, origin, step, i), limit)
    ensures Chained(ArmVertices(pos, dir, origin, step, limit))
  {
    var m := ArmLength(dir, origin, step, limit);
    var ps := ArmPoints(pos, dir, origin, step, m);
    PathSegments(ps);
    ArmLengthCounts(dir, origin, step, limit, 1);
    assert ArmAnomaly(dir, origin, step, 0) == origin;
    forall i: nat | 1 <= i <= m
      ensures BeforeLimit(dir, ArmAnomaly(dir, origin, step, i), limit)
    {
      ArmLengthCounts(dir, origin, step, limit, i);
    }
    forall s: nat | s < m
      ensures SegmentStart(PathVertices(ps), s) == pos(ArmAnomaly(dir, origin, step, s))
      ensures SegmentEnd(PathVertices(ps), s) == pos(ArmAnomaly(dir, origin, step, s + 1))
    {
      assert SegmentStart(PathVertices(ps), s) == ps[s];
      assert SegmentEnd(PathVertices(ps), s) == ps[s + 1];
    }
  }

  /**
   * One arm of the hyperbolic branch of DrawOrbits: from the seed pos(origin),
   * step i gives anomaly origin -/+ i·step, and the walk continues while that
   * anomaly is strictly inside the limit.
   */
  method WalkArm(pos: real -> Vector3, dir: Direction, origin: real, step: real, limit: real)
    returns (vertices: seq<Vector3>)
    requires step > 0.0
    ensures vertices == ArmVertices(pos, dir, origin, step, limit)
  {
    ghost var m := ArmLength(dir, origin, step, limit);
    ghost var samples := ArmPoints(pos, dir, origin, step, m);
    var i := 1;
    var previous := pos(origin);
    assert ArmAnomaly(dir, origin, step, 0) == origin;
    vertices := [];
    var eccentricAnomaly := if dir == Backward then origin - step else origin + step;
    while BeforeLimit(dir, eccentricAnomaly, limit)
      invariant 1 <= i <= m + 1
      invariant eccentricAnomaly == ArmAnomaly(dir, origin, step, i)
      invariant previous == samples[i - 1]
      invariant vertices == PathVertices(samples[..i])
      decreases m + 1 - i
    {
      ArmLengthCounts(dir, origin, step, limit, i);
      var point := pos(eccentricAnomaly);
      assert samples[i] == point;
      assert samples[..i + 1] == samples[..i] + [point];
      PathVerticesSnoc(samples[..i], point);
      vertices := vertices + [previous, point];
      previous := point;
      i := i + 1;
      eccentricAnomaly := if dir == Backward then origin - i as real * step else origin + i as real * step;
    }
    ArmLengthCounts(dir, origin, step, limit, i);
    assert samples[..i] == samples;
  }

  /** The fixed step of the open tessellation: the span (-bound, bound) cut into n - 1 parts. */
  function OpenStep(bound: real, n: int): real
    requires n >= 2
  {
    (bound - -bound) / (n - 1) as real
  }

  /** The open polyline: the backward arm towards -bound, then the forward arm towards bound. */
  function OpenVertices(pos: real -> Vector3, origin: real, bound: real, n: int): seq<Vector3>
    requires bound > 0.0 && n >= 2
  {
    var step := OpenStep(bound, n);
    ArmVertices(pos, Backward, origin, step, -bound) + ArmVertices(pos, Forward, origin, step, bound)
  }

  /**
   * The step is positive; the backward arm's anomalies decrease strictly and lie
   * in (-bound, origin), the forward arm's increase strictly and lie in
   * (origin, bound); when the current anomaly is itself inside (-bound, bound),
   * no anomaly requested by either arm reaches either bound.
   */
  lemma OpenDomain(origin: real, bound: real, n: int)
    requires bound > 0.0 && n >= 2
    ensures OpenStep(bound, n) > 0.0
    ensures forall i: nat :: 1 <= i <= ArmLength(Backward, origin, OpenStep(bound, n), -bound) ==>
      -bound < ArmAnomaly(Backward, origin, OpenStep(bound, n), i) < ArmAnomaly(Backward, origin, OpenStep(bound, n), i - 1)
    ensures forall i: nat :: 1 <= i <= ArmLength(Forward, origin, OpenStep(bound, n), bound) ==>
      ArmAnomaly(Forward, origin, OpenStep(bound, n), i - 1) < ArmAnomaly(Forward, origin, OpenStep(bound, n), i) < bound
    ensures -bound < origin < bound ==>
      (forall i: nat :: i <= ArmLength(Backward, origin, OpenStep(bound, n), -bound) ==>
         -bound < ArmAnomaly(Backward, origin, OpenStep(bound, n), i) < bound) &&
      (forall i: nat :: i <= ArmLength(Forward, origin, OpenStep(bound, n), bound) ==>
         -bound < ArmAnomaly(Forward, origin, OpenStep(bound, n), i) < bound)
  {
    var step := OpenStep(bound, n);
    OpenStepPositive(bound, n);
    forall i: nat | i <= ArmLength(Backward, origin, step, -bound)
      ensures i >= 1 ==> -bound < ArmAnomaly(Backward, origin, step, i) < ArmAnomaly(Backward, origin, step, i - 1)
      ensures ArmAnomaly(Backward, origin, step, i) <= origin
      ensures -bound < origin ==> -bound < ArmAnomaly(Backward, origin, step, i)
    {
      ArmSample(Backward, origin, step, -bound, i);
    }
    forall i: nat | i <= ArmLength(Forward, origin, step, bound)
      ensures i >= 1 ==> ArmAnomaly(Forward, origin, step, i - 1) < ArmAnomaly(Forward, origin, step, i) < bound
      ensures origin <= ArmAnomaly(Forward, origin, step, i)
      ensures origin < bound ==> ArmAnomaly(Forward, origin, step, i) < bound
    {
      ArmSample(Forward, origin, step, bound, i);
    }
  }

  /**
   * Sample i of an arm that the walk takes: it moves one step further from the
   * current anomaly than sample i - 1, and it has not passed the limit.
   */
  lemma ArmSample(dir: Direction, origin: real, step: real, limit: real, i: nat)
    requires step > 0.0 && i <= ArmLength(dir, origin, step, limit)
    ensures i >= 1 ==> BeforeLimit(dir, ArmAnomaly(dir, origin, step, i), limit)
    ensures i >= 1 ==>
      ArmAnomaly(dir, origin, step, i) ==
        if dir == Backward then ArmAnomaly(dir, origin, step, i - 1) - step else ArmAnomaly(dir, origin, step, i - 1) + step
    ensures dir == Backward ==> ArmAnomaly(dir, origin, step, i) <= origin
    ensures dir == Forward ==> origin <= ArmAnomaly(dir, origin, step, i)
    ensures BeforeLimit(dir, origin, limit) ==> BeforeLimit(dir, ArmAnomaly(dir, origin, step, i), limit)
  {
    MulMono(0.0, i as real, step);
    if i >= 1 {
      ArmLengthCounts(dir, origin, step, limit, i);
      assert i as real * step == (i - 1) as real * step + step;
    }
  }

  /**
   * The open polyline is the backward arm followed by the forward arm and
   * nothing else: segment s < Lb joins backward samples s and s+1, segment
   * Lb + s joins forward samples s and s+1, and both arms are seeded at
   * pos(origin). There is no segment joining the two arm ends.
   */
  lemma OpenTessellation(pos: real -> Vector3, origin: real, bound: real, n: int)
    requires bound > 0.0 && n >= 2
    ensures OpenStep(bound, n) > 0.0
    ensures |OpenVertices(pos, origin, bound, n)| ==
      2 * (ArmLength(Backward, origin, OpenStep(bound, n), -bound) + ArmLength(Forward, origin, OpenStep(bound, n), bound))
    ensures forall s: nat :: s < ArmLength(Backward, origin, OpenStep(bound, n), -bound) ==>
      SegmentStart(OpenVertices(pos, origin, bound, n), s) == pos(ArmAnomaly(Backward, origin, OpenStep(bound, n), s)) &&
      SegmentEnd(OpenVertices(pos, origin, bound, n), s) == pos(ArmAnomaly(Backward, origin, OpenStep(bound, n), s + 1))
    ensures forall t: nat ::
      ArmLength(Backward, origin, OpenStep(bound, n), -bound) <= t <
        ArmLength(Backward, origin, OpenStep(bound, n), -bound) + ArmLength(Forward, origin, OpenStep(bound, n), bound) ==>
      SegmentStart(OpenVertices(pos, origin, bound, n), t) ==
        pos(ArmAnomaly(Forward, origin, OpenStep(bound, n), t - ArmLength(Backward, origin, OpenStep(bound, n), -bound))) &&
      SegmentEnd(OpenVertices(pos, origin, bound, n), t) ==
        pos(ArmAnomaly(Forward, origin, OpenStep(bound, n), t - ArmLength(Backward, origin, OpenStep(bound, n), -bound) + 1))
  {
    var step := OpenStep(bound, n);
    OpenStepPositive(bound, n);
    TwoArmSegments(pos, origin, step, ArmLength(Backward, origin, step, -bound), ArmLength(Forward, origin, step, bound));
  }

  /** Segments of a backward arm of m1 steps followed by a forward arm of m2 steps. */
  lemma TwoArmSegments(pos: real -> Vector3, origin: real, step: real, m1: nat, m2: nat)
    ensures var v := PathVertices(ArmPoints(pos, Backward, origin, step, m1)) + PathVertices(ArmPoints(pos, Forward, origin, step, m2));
      |v| == 2 * (m1 + m2) &&
      (forall s: nat :: s < m1 ==>
        SegmentStart(v, s) == pos(ArmAnomaly(Backward, origin, step, s)) &&
        SegmentEnd(v, s) == pos(ArmAnomaly(Backward, origin, step, s + 1))) &&
      (forall t: nat :: m1 <= t < m1 + m2 ==>
        SegmentStart(v, t) == pos(ArmAnomaly(Forward, origin, step, t - m1)) &&
        SegmentEnd(v, t) == pos(ArmAnomaly(Forward, origin, step, t - m1 + 1)))
  {
    var bp := ArmPoints(pos, Backward, origin, step, m1);
    var fp := ArmPoints(pos, Forward, origin, step, m2);
    var v := PathVertices(bp) + PathVertices(fp);
    ConcatPathSegments(bp, fp);
    forall s: nat | s < m1
      ensures SegmentStart(v, s) == pos(ArmAnomaly(Backward, origin, step, s))
      ensures SegmentEnd(v, s) == pos(ArmAnomaly(Backward, origin, step, s + 1))
    {
      assert SegmentStart(v, s) == bp[s];
      assert SegmentEnd(v, s) == bp[s + 1];
    }
    forall t: nat | m1 <= t < m1 + m2
      ensures SegmentStart(v, t) == pos(ArmAnomaly(Forward, origin, step, t - m1))
      ensures SegmentEnd(v, t) == pos(ArmAnomaly(Forward, origin, step, t - m1 + 1))
    {
      assert SegmentStart(v, t) == fp[t - m1];
      assert SegmentEnd(v, t) == fp[t - m1 + 1];
    }
  }

  /** The open step is positive. */
  lemma OpenStepPositive(bound: real, n: int)
    requires bound > 0.0 && n >= 2
    ensures OpenStep(bound, n) > 0.0
  {
  }

  /** The hyperbolic branch of DrawOrbits: both arms from the current anomaly, no closing segment. */
  method SampleOpenConic(pos: real -> Vector3, origin: real, bound: real, n: int)
    returns (vertices: seq<Vector3>)
    requires bound > 0.0 && n >= 2
    ensures vertices == OpenVertices(pos, origin, bound, n)
  {
    var start := -bound;
    var end := -start;
    var step := (end - start) / (n - 1) as real;
    assert step == OpenStep(bound, n);
    OpenDomain(origin, bound, n);
    var backward := WalkArm(pos, Backward, origin, step, start);
    var forward := WalkArm(pos, Forward, origin, step, end);
    vertices := backward + forward;
  }

  /**
   * With the 180-sample setting, an open orbit seen at periapsis (anomaly 0)
   * gets exactly 89 segments on each arm, whatever its eccentricity: the step
   * is 2·bound/179, and 89 steps stay inside the bound while 90 do not.
   */
  lemma PeriapsisArms(bound: real)
    requires bound > 0.0
    ensures ArmLength(Backward, 0.0, OpenStep(bound, 180), -bound) == 89
    ensures ArmLength(Forward, 0.0, OpenStep(bound, 180), bound) == 89
  {
    var step := OpenStep(bound, 180);
    assert step == 2.0 * bound / 179.0;
    ArmLengthCounts(Backward, 0.0, step, -bound, 89);
    ArmLengthCounts(Backward, 0.0, step, -bound, 90);
    ArmLengthCounts(Forward, 0.0, step, bound, 89);
    ArmLengthCounts(Forward, 0.0, step, bound, 90);
  }
}
