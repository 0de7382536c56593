/**
 * DrawOrbits: once per frame, after the side camera renders, every orbit the
 * player may see is drawn as one GL.LINES block, the whole call wrapped in one
 * PushMatrix / PopMatrix pair. The GL calls are returned as a trace.
 */
module OrbitDrawing {
  import opened Scene
  import opened GlTrace
  import opened Polyline
  import opened ConicSampling

  /** Angular resolution of the tessellation, in degrees. */
  const DegStep: real := 2.0

  /** Alpha given to every orbit colour. */
  const OrbitAlpha: real := 0.9

  /** Number of samples for an angular step in degrees: floor(360 / degStep). */
  function PointsCountFor(degStep: real): int
    requires degStep > 0.0
  {
    (360.0 / degStep).Floor
  }

  /** Samples per orbit with the 2-degree step. */
  const PointsCount: int := PointsCountFor(DegStep)

  /** 2 degrees gives 180 samples; halving the step doubles them; 90 degrees gives a square. */
  lemma PointsCounts()
    ensures PointsCount == 180
    ensures PointsCountFor(1.0) == 2 * PointsCount
    ensures PointsCountFor(90.0) == 4
  {
  }

  /**
   * Whether DrawOrbits draws an orbit: it needs a renderer with discovery info,
   * orbits shown for the tracking station's level, and knowledge of the orbit's
   * state vectors.
   */
  predicate Visible(od: OrbitDriver, showOrbits: bool)
  {
    match od.renderer
    case None => false
    case Some(renderer) =>
      match renderer.discoveryInfo
      case None => false
      case Some(info) => showOrbits && info.knowsStateVectors
  }

  /** For e >= 1 the argument -1/e handed to acos lies in [-1, 0). */
  lemma InverseEccentricity(e: real)
    requires e >= 1.0
    ensures -1.0 <= -(1.0 / e) < 0.0
  {
    assert (1.0 / e) * e == 1.0;
    MulMono(1.0 / e, 1.0, e);
  }

  /** The asymptotic bound acos(-1/e) of an open orbit. */
  function AsymptoticBound(o: Orbit, host: Host): (bound: real)
    requires host.Valid() && o.eccentricity >= 1.0
    ensures bound > 0.0
  {
    InverseEccentricity(o.eccentricity);
    host.acos(-(1.0 / o.eccentricity))
  }

  /** The vertices DrawOrbits emits for one orbit: closed below eccentricity 1, open from 1 on. */
  function OrbitVertices(o: Orbit, host: Host): seq<Vector3>
    requires host.Valid()
  {
    PointsCounts();
    var pos := OrbitPosition(o, host);
    if o.eccentricity < 1.0 then
      ClosedVertices(pos, host.wrapAngle, o.eccentricAnomaly, DegStep * host.deg2Rad, PointsCount)
    else
      OpenVertices(pos, o.eccentricAnomaly, AsymptoticBound(o, host), PointsCount)
  }

  /** The GL block of one drawn orbit: Begin(LINES), its colour at alpha 0.9, its vertices, End. */
  function OrbitBlock(od: OrbitDriver, host: Host): seq<GlEvent>
    requires host.Valid() && od.renderer.Some?
  {
    [BeginLines, SetColor(WithAlpha(od.renderer.value.orbitColor, OrbitAlpha))]
      + VertexEvents(OrbitVertices(od.orbit, host))
      + [End]
  }

  /** The blocks for a list of orbits, in order; an orbit that is not visible contributes nothing. */
  function Blocks(ods: seq<OrbitDriver>, showOrbits: bool, host: Host): seq<GlEvent>
    requires host.Valid()
    decreases |ods|
  {
    if ods == [] then []
    else
      var last := ods[|ods| - 1];
      Blocks(ods[..|ods| - 1], showOrbits, host) + (if Visible(last, showOrbits) then OrbitBlock(last, host) else [])
  }

  /** Number of visible orbits. */
  function VisibleCount(ods: seq<OrbitDriver>, showOrbits: bool): nat
    decreases |ods|
  {
    if ods == [] then 0
    else VisibleCount(ods[..|ods| - 1], showOrbits) + (if Visible(ods[|ods| - 1], showOrbits) then 1 else 0)
  }

  /** r is obtained from s by dropping elements, keeping the order of the rest. */
  ghost predicate Subsequence<T>(r: seq<T>, s: seq<T>)
    decreases |s|
  {
    if r == [] then true
    else if s == [] then false
    else
      (r[|r| - 1] == s[|s| - 1] && Subsequence(r[..|r| - 1], s[..|s| - 1]))
      || Subsequence(r, s[..|s| - 1])
  }

  /** Appending an element to s keeps every subsequence, and appending it to both keeps the relation. */
  lemma SubsequenceSnoc<T>(r: seq<T>, s: seq<T>, x: T)
    requires Subsequence(r, s)
    ensures Subsequence(r, s + [x])
    ensures Subsequence(r + [x], s + [x])
  {
    assert (s + [x])[..|s|] == s;
    assert (r + [x])[..|r|] == r;
  }

  /** The visible orbits, in their original order. */
  function VisibleOnly(ods: seq<OrbitDriver>, showOrbits: bool): (r: seq<OrbitDriver>)
    ensures |r| == VisibleCount(ods, showOrbits)
    ensures forall k :: 0 <= k < |r| ==> Visible(r[k], showOrbits)
    decreases |ods|
  {
    if ods == [] then []
    else
      var last := ods[|ods| - 1];
      VisibleOnly(ods[..|ods| - 1], showOrbits) + (if Visible(last, showOrbits) then [last] else [])
  }

  /** VisibleOnly keeps each visible orbit as often as it occurs and drops every invisible one. */
  lemma {:induction false} VisibleOnlyCounts(ods: seq<OrbitDriver>, showOrbits: bool)
    ensures forall od :: multiset(VisibleOnly(ods, showOrbits))[od] == if Visible(od, showOrbits) then multiset(ods)[od] else 0
    decreases |ods|
  {
    if ods != [] {
      var init := ods[..|ods| - 1];
      var last := ods[|ods| - 1];
      VisibleOnlyCounts(init, showOrbits);
      assert ods == init + [last];
      assert multiset(ods) == multiset(init) + multiset{last};
    }
  }

  /** An orbit is kept if and only if it is one of the drivers and visible. */
  lemma VisibleOnlyMembers(ods: seq<OrbitDriver>, showOrbits: bool)
    ensures forall od :: od in VisibleOnly(ods, showOrbits) <==> od in ods && Visible(od, showOrbits)
  {
    VisibleOnlyCounts(ods, showOrbits);
    forall od
      ensures od in VisibleOnly(ods, showOrbits) <==> od in ods && Visible(od, showOrbits)
    {
      assert od in VisibleOnly(ods, showOrbits) <==> multiset(VisibleOnly(ods, showOrbits))[od] > 0;
      assert od in ods <==> multiset(ods)[od] > 0;
    }
  }

  /** VisibleOnly keeps the drivers' order. */
  lemma {:induction false} VisibleOnlyOrdered(ods: seq<OrbitDriver>, showOrbits: bool)
    ensures Subsequence(VisibleOnly(ods, showOrbits), ods)
    decreases |ods|
  {
    if ods == [] {
      assert Subsequence([], ods);
    } else {
      var init := ods[..|ods| - 1];
      var last := ods[|ods| - 1];
      var kept := VisibleOnly(init, showOrbits);
      VisibleOnlyOrdered(init, showOrbits);
      assert ods == init + [last];
      SubsequenceSnoc(kept, init, last);
      if Visible(last, showOrbits) {
        assert VisibleOnly(ods, showOrbits) == kept + [last];
      } else {
        assert VisibleOnly(ods, showOrbits) == kept;
      }
    }
  }

  /**
   * The per-frame orbit drawing routine: for every orbit that passes the
   * visibility gate, one block of GL calls, all of it between PushMatrix and
   * PopMatrix.
   */
  method DrawOrbits(orbits: seq<OrbitDriver>, showOrbits: bool, host: Host) returns (trace: seq<GlEvent>)
    requires host.Valid()
    ensures trace == [PushMatrix] + Blocks(orbits, showOrbits, host) + [PopMatrix]
  {
    trace := [PushMatrix];
    var degStep := DegStep;
    var pointsCount := (360.0 / degStep).Floor;
    var radStep := degStep * host.deg2Rad;
    PointsCounts();
    for j := 0 to |orbits|
      invariant trace == [PushMatrix] + Blocks(orbits[..j], showOrbits, host)
    {
      var orbitDriver := orbits[j];
      BlocksStep(orbits, j, showOrbits, host);
      if orbitDriver.renderer.None? || orbitDriver.renderer.value.discoveryInfo.None? {
        continue;
      }
      var visible := showOrbits && orbitDriver.renderer.value.discoveryInfo.value.knowsStateVectors;
      if !visible {
        continue;
      }
      assert Visible(orbitDriver, showOrbits);
      var block := [BeginLines, SetColor(WithAlpha(orbitDriver.renderer.value.orbitColor, OrbitAlpha))];
      var orbit := orbitDriver.orbit;
      var pos := OrbitPosition(orbit, host);
      var vertices;
      if orbit.eccentricity < 1.0 {
        vertices := SampleClosedConic(pos, host.wrapAngle, orbit.eccentricAnomaly, radStep, pointsCount);
      } else {
        var bound := AsymptoticBound(orbit, host);
        vertices := SampleOpenConic(pos, orbit.eccentricAnomaly, bound, pointsCount);
      }
      block := block + VertexEvents(vertices) + [End];
      assert block == OrbitBlock(orbitDriver, host);
      AppendAssoc([PushMatrix], Blocks(orbits[..j], showOrbits, host), block);
      trace := trace + block;
    }
    assert orbits[..|orbits|] == orbits;
    trace := trace + [PopMatrix];
  }

  lemma AppendAssoc(a: seq<GlEvent>, b: seq<GlEvent>, c: seq<GlEvent>)
    ensures a + b + c == a + (b + c)
  {
  }

  /** Extending the prefix by one orbit appends that orbit's block when it is visible. */
  lemma BlocksStep(ods: seq<OrbitDriver>, j: nat, showOrbits: bool, host: Host)
    requires host.Valid() && j < |ods|
    ensures Blocks(ods[..j + 1], showOrbits, host) ==
      Blocks(ods[..j], showOrbits, host) + (if Visible(ods[j], showOrbits) then OrbitBlock(ods[j], host) else [])
  {
    assert ods[..j + 1][..j] == ods[..j];
  }

  /** Every orbit emits whole segments: an even number of vertices. */
  lemma OrbitVerticesEven(o: Orbit, host: Host)
    requires host.Valid()
    ensures |OrbitVertices(o, host)| % 2 == 0
  {
    PointsCounts();
    var pos := OrbitPosition(o, host);
    if o.eccentricity < 1.0 {
      ClosedTessellation(pos, host.wrapAngle, o.eccentricAnomaly, DegStep * host.deg2Rad, PointsCount);
    } else {
      OpenTessellation(pos, o.eccentricAnomaly, AsymptoticBound(o, host), PointsCount);
    }
  }

  /**
   * An elliptic orbit is drawn as 180 segments starting and ending at the
   * body's current position.
   */
  lemma ClosedOrbitDrawing(o: Orbit, host: Host)
    requires host.Valid() && o.eccentricity < 1.0
    ensures |OrbitVertices(o, host)| == 2 * 180
    ensures OrbitVertices(o, host)[0] == OrbitPosition(o, host)(o.eccentricAnomaly)
    ensures OrbitVertices(o, host)[2 * 180 - 1] == OrbitPosition(o, host)(o.eccentricAnomaly)
    ensures Chained(OrbitVertices(o, host))
  {
    PointsCounts();
    var pos := OrbitPosition(o, host);
    ClosedTessellation(pos, host.wrapAngle, o.eccentricAnomaly, DegStep * host.deg2Rad, PointsCount);
    assert SegmentStart(OrbitVertices(o, host), 0) == OrbitVertices(o, host)[0];
    assert SegmentEnd(OrbitVertices(o, host), 179) == OrbitVertices(o, host)[2 * 180 - 1];
  }

  /**
   * The blocks form a well-formed sequence of LINES blocks, one per visible
   * orbit: as many Begin and End events as visible orbits, and no matrix
   * push or pop among them.
   */
  lemma {:induction false} BlocksShape(ods: seq<OrbitDriver>, showOrbits: bool, host: Host)
    requires host.Valid()
    ensures LineBlocks(Blocks(ods, showOrbits, host))
    ensures Count(Blocks(ods, showOrbits, host), BeginLines) == VisibleCount(ods, showOrbits)
    ensures Count(Blocks(ods, showOrbits, host), End) == VisibleCount(ods, showOrbits)
    ensures Count(Blocks(ods, showOrbits, host), PushMatrix) == 0
    ensures Count(Blocks(ods, showOrbits, host), PopMatrix) == 0
    decreases |ods|
  {
    if ods != [] {
      var prefix := ods[..|ods| - 1];
      var last := ods[|ods| - 1];
      BlocksShape(prefix, showOrbits, host);
      var before := Blocks(prefix, showOrbits, host);
      if Visible(last, showOrbits) {
        var block := OrbitBlock(last, host);
        BlockShape(last, host);
        RunAppend(before, block, Outside);
        CountAppend(before, block, BeginLines);
        CountAppend(before, block, End);
        CountAppend(before, block, PushMatrix);
        CountAppend(before, block, PopMatrix);
      } else {
        assert Blocks(ods, showOrbits, host) == before + [];
        assert before + [] == before;
      }
    }
  }

  /** One orbit's block is a single well-formed LINES block. */
  lemma BlockShape(od: OrbitDriver, host: Host)
    requires host.Valid() && od.renderer.Some?
    ensures Run(OrbitBlock(od, host), Outside) == Some(Outside)
    ensures Count(OrbitBlock(od, host), BeginLines) == 1
    ensures Count(OrbitBlock(od, host), End) == 1
    ensures Count(OrbitBlock(od, host), PushMatrix) == 0
    ensures Count(OrbitBlock(od, host), PopMatrix) == 0
  {
    var vs := OrbitVertices(od.orbit, host);
    var head := [BeginLines, SetColor(WithAlpha(od.renderer.value.orbitColor, OrbitAlpha))];
    var tail := VertexEvents(vs) + [End];
    assert OrbitBlock(od, host) == head + tail;
    assert Run(head, Outside) == Some(EvenVertices) by {
      assert Step(Outside, head[0]) == Some(Begun);
      assert Run(head, Outside) == Run(head[1..], Begun);
      assert Step(Begun, head[1..][0]) == Some(EvenVertices);
      assert Run(head[1..], Begun) == Run(head[1..][1..], EvenVertices);
      assert head[1..][1..] == [];
    }
    assert Run(tail, EvenVertices) == Some(Outside) by {
      OrbitVerticesEven(od.orbit, host);
      RunVertices(vs);
      RunAppend(VertexEvents(vs), [End], EvenVertices);
      assert [End][1..] == [];
    }
    RunAppend(head, tail, Outside);
    BlockCount(head, vs, BeginLines);
    BlockCount(head, vs, End);
    BlockCount(head, vs, PushMatrix);
    BlockCount(head, vs, PopMatrix);
  }

  /** Counting a non-vertex event over head, vertices, End. */
  lemma BlockCount(head: seq<GlEvent>, vs: seq<Vector3>, ev: GlEvent)
    requires |head| == 2 && head[0] == BeginLines && head[1].SetColor?
    requires !ev.Vertex3? && !ev.SetColor?
    ensures Count(head + (VertexEvents(vs) + [End]), ev) ==
      (if ev == BeginLines then 1 else 0) + (if ev == End then 1 else 0)
  {
    CountVertices(vs, ev);
    CountAppend(head, VertexEvents(vs) + [End], ev);
    CountAppend(VertexEvents(vs), [End], ev);
    assert Count(head, ev) == (if ev == BeginLines then 1 else 0) + Count(head[1..], ev);
    assert Count(head[1..], ev) == 0 + Count(head[1..][1..], ev);
    assert head[1..][1..] == [];
    assert Count([End], ev) == (if ev == End then 1 else 0) + Count([End][1..], ev);
    assert [End][1..] == [];
  }

  /** Orbits that fail the gate emit nothing: the blocks are those of the visible orbits alone. */
  lemma {:induction false} BlocksOfVisible(ods: seq<OrbitDriver>, showOrbits: bool, host: Host)
    requires host.Valid()
    ensures Blocks(ods, showOrbits, host) == Blocks(VisibleOnly(ods, showOrbits), showOrbits, host)
    decreases |ods|
  {
    if ods != [] {
      var prefix := ods[..|ods| - 1];
      var last := ods[|ods| - 1];
      BlocksOfVisible(prefix, showOrbits, host);
      var kept := VisibleOnly(prefix, showOrbits);
      if Visible(last, showOrbits) {
        assert VisibleOnly(ods, showOrbits) == kept + [last];
        assert (kept + [last])[..|kept + [last]| - 1] == kept;
      } else {
        assert VisibleOnly(ods, showOrbits) == kept + [];
        assert kept + [] == kept;
      }
    }
  }

  /** With no visible orbit, nothing at all is drawn between the matrix push and pop. */
  lemma {:induction false} NoVisibleOrbitNoBlock(ods: seq<OrbitDriver>, showOrbits: bool, host: Host)
    requires host.Valid()
    ensures VisibleCount(ods, showOrbits) == 0 <==> Blocks(ods, showOrbits, host) == []
    ensures !showOrbits ==> Blocks(ods, showOrbits, host) == []
    decreases |ods|
  {
    BlocksShape(ods, showOrbits, host);
    if ods != [] {
      var prefix := ods[..|ods| - 1];
      NoVisibleOrbitNoBlock(prefix, showOrbits, host);
    }
  }

  /**
   * The whole trace DrawOrbits records: the modelview matrix is pushed once at
   * the start and popped once at the end, with nothing but complete LINES
   * blocks, one per visible orbit, in between.
   */
  lemma FrameTrace(ods: seq<OrbitDriver>, showOrbits: bool, host: Host)
    requires host.Valid()
    ensures var t := [PushMatrix] + Blocks(ods, showOrbits, host) + [PopMatrix];
      t[0] == PushMatrix && t[|t| - 1] == PopMatrix &&
      Count(t, PushMatrix) == 1 && Count(t, PopMatrix) == 1 &&
      Count(t, BeginLines) == VisibleCount(ods, showOrbits) &&
      LineBlocks(t[1..|t| - 1])
  {
    var b := Blocks(ods, showOrbits, host);
    var t := [PushMatrix] + b + [PopMatrix];
    BlocksShape(ods, showOrbits, host);
    assert t[1..|t| - 1] == b;
    CountAppend([PushMatrix] + b, [PopMatrix], PushMatrix);
    CountAppend([PushMatrix], b, PushMatrix);
    CountAppend([PushMatrix] + b, [PopMatrix], PopMatrix);
    CountAppend([PushMatrix], b, PopMatrix);
    CountAppend([PushMatrix] + b, [PopMatrix], BeginLines);
    CountAppend([PushMatrix], b, BeginLines);
  }
}
