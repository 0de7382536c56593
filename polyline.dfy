/**
 * A polyline drawn in GL.LINES mode is a flat list of vertices in which
 * vertices 2s and 2s+1 form segment s. This module builds that list for the
 * path through a sequence of points and states which points each segment joins.
 */
module Polyline {

  /** The vertex list for the open path through ps: one pair per consecutive pair of points. */
  function PathVertices<P>(ps: seq<P>): seq<P>
    decreases |ps|
  {
    if |ps| < 2 then [] else [ps[0], ps[1]] + PathVertices(ps[1..])
  }

  /** First vertex of segment s. */
  function SegmentStart<P>(vs: seq<P>, s: nat): P
    requires 2 * s + 1 < |vs|
  {
    vs[2 * s]
  }

  /** Second vertex of segment s. */
  function SegmentEnd<P>(vs: seq<P>, s: nat): P
    requires 2 * s + 1 < |vs|
  {
    vs[2 * s + 1]
  }

  /** Every segment starts where the one before it ended. */
  ghost predicate Chained<P>(vs: seq<P>)
  {
    forall s: nat :: s + 1 < |vs| / 2 ==> SegmentEnd(vs, s) == SegmentStart(vs, s + 1)
  }

  /** Appending a point adds exactly one segment, from the old last point to the new one. */
  lemma {:induction false} PathVerticesSnoc<P>(ps: seq<P>, p: P)
    requires |ps| >= 1
    ensures PathVertices(ps + [p]) == PathVertices(ps) + [ps[|ps| - 1], p]
    decreases |ps|
  {
    if |ps| == 1 {
      assert ps + [p] == [ps[0], p];
      assert PathVertices([p]) == [];
    } else {
      assert (ps + [p])[1..] == ps[1..] + [p];
      PathVerticesSnoc(ps[1..], p);
    }
  }

  /**
   * The path through k+1 points has k segments, and segment s joins point s to
   * point s+1; in particular the segments chain.
   */
  lemma {:induction false} PathSegments<P>(ps: seq<P>)
    requires |ps| >= 1
    ensures |PathVertices(ps)| == 2 * (|ps| - 1)
    ensures forall s: nat :: s < |ps| - 1 ==>
      SegmentStart(PathVertices(ps), s) == ps[s] && SegmentEnd(PathVertices(ps), s) == ps[s + 1]
    ensures Chained(PathVertices(ps))
    decreases |ps|
  {
    if |ps| >= 2 {
      var tail := PathVertices(ps[1..]);
      PathSegments(ps[1..]);
      assert PathVertices(ps) == [ps[0], ps[1]] + tail;
      forall s: nat | s < |ps| - 1
        ensures SegmentStart(PathVertices(ps), s) == ps[s] && SegmentEnd(PathVertices(ps), s) == ps[s + 1]
      {
        if s > 0 {
          assert SegmentStart(tail, s - 1) == ps[1..][s - 1];
          assert SegmentEnd(tail, s - 1) == ps[1..][s];
        }
      }
    }
  }

  /**
   * Closing the path back to its first point gives |ps| segments; segment s
   * joins point s to point (s+1) mod |ps|.
   */
  lemma LoopSegments<P>(ps: seq<P>)
    requires |ps| >= 1
    ensures |PathVertices(ps + [ps[0]])| == 2 * |ps|
    ensures forall s: nat :: s < |ps| ==>
      SegmentStart(PathVertices(ps + [ps[0]]), s) == ps[s] &&
      SegmentEnd(PathVertices(ps + [ps[0]]), s) == ps[(s + 1) % |ps|]
    ensures Chained(PathVertices(ps + [ps[0]]))
  {
    var loop := ps + [ps[0]];
    PathSegments(loop);
    forall s: nat | s < |ps|
      ensures SegmentStart(PathVertices(loop), s) == ps[s]
      ensures SegmentEnd(PathVertices(loop), s) == ps[(s + 1) % |ps|]
    {
      assert SegmentStart(PathVertices(loop), s) == loop[s];
      assert SegmentEnd(PathVertices(loop), s) == loop[s + 1];
      NextIndex(s, |ps|);
    }
  }

  lemma NextIndex(s: nat, n: nat)
    requires s < n
    ensures (s + 1) % n == if s + 1 == n then 0 else s + 1
  {
  }

  /**
   * Two paths drawn one after the other: the first path's segments, then the
   * second's, with no segment joining the end of one to the start of the other.
   */
  lemma ConcatPathSegments<P>(ps: seq<P>, qs: seq<P>)
    requires |ps| >= 1 && |qs| >= 1
    ensures |PathVertices(ps) + PathVertices(qs)| == 2 * (|ps| - 1 + |qs| - 1)
    ensures forall s: nat :: s < |ps| - 1 ==>
      SegmentStart(PathVertices(ps) + PathVertices(qs), s) == ps[s] &&
      SegmentEnd(PathVertices(ps) + PathVertices(qs), s) == ps[s + 1]
    ensures forall t: nat :: |ps| - 1 <= t < |ps| - 1 + |qs| - 1 ==>
      SegmentStart(PathVertices(ps) + PathVertices(qs), t) == qs[t - (|ps| - 1)] &&
      SegmentEnd(PathVertices(ps) + PathVertices(qs), t) == qs[t - (|ps| - 1) + 1]
  {
    var a := PathVertices(ps);
    var b := PathVertices(qs);
    var m := |ps| - 1;
    PathSegments(ps);
    PathSegments(qs);
    assert |a| == 2 * m;
    forall s: nat | s < m
      ensures SegmentStart(a + b, s) == ps[s] && SegmentEnd(a + b, s) == ps[s + 1]
    {
      SegmentOfConcat(a, b, s, s);
    }
    forall t: nat | m <= t < m + |qs| - 1
      ensures SegmentStart(a + b, t) == qs[t - m] && SegmentEnd(a + b, t) == qs[t - m + 1]
    {
      SegmentOfConcat(a, b, t, t - m);
    }
  }

  /** Segment t of a + b is segment t of a, or segment t - |a|/2 of b. */
  lemma SegmentOfConcat<P>(a: seq<P>, b: seq<P>, t: nat, s: nat)
    requires 2 * t + 1 < |a| + |b|
    requires (2 * t + 1 < |a| && s == t) || (2 * t == |a| + 2 * s)
    ensures 2 * t + 1 < |a| ==> SegmentStart(a + b, t) == SegmentStart(a, s) && SegmentEnd(a + b, t) == SegmentEnd(a, s)
    ensures 2 * t == |a| + 2 * s ==> SegmentStart(a + b, t) == SegmentStart(b, s) && SegmentEnd(a + b, t) == SegmentEnd(b, s)
  {
  }
}
