/**
 * The immediate-mode GL calls the orbit renderer issues, recorded as a trace,
 * and a recogniser for the shape a LINES block must have: Begin, one Color,
 * whole segments (an even number of vertices), End.
 */
module GlTrace {
  import opened Scene

  datatype GlEvent =
    | PushMatrix
    | PopMatrix
    | BeginLines
    | SetColor(color: Color)
    | Vertex3(p: Vector3)
    | End

  /** One GL.Vertex3 call per vertex, in order. */
  function VertexEvents(vs: seq<Vector3>): (t: seq<GlEvent>)
    ensures |t| == |vs|
    ensures forall k :: 0 <= k < |vs| ==> t[k] == Vertex3(vs[k])
  {
    seq(|vs|, k requires 0 <= k < |vs| => Vertex3(vs[k]))
  }

  /** Where the recogniser stands: outside any block, just after Begin, or among vertices. */
  datatype Phase = Outside | Begun | EvenVertices | OddVertices

  /** One step of the recogniser; None means the event is out of place. */
  function Step(ph: Phase, ev: GlEvent): Option<Phase>
  {
    match (ph, ev)
    case (Outside, BeginLines) => Some(Begun)
    case (Begun, SetColor(_)) => Some(EvenVertices)
    case (EvenVertices, Vertex3(_)) => Some(OddVertices)
    case (OddVertices, Vertex3(_)) => Some(EvenVertices)
    case (EvenVertices, End) => Some(Outside)
    case _ => None
  }

  /** Runs the recogniser over a whole trace. */
  function Run(t: seq<GlEvent>, ph: Phase): Option<Phase>
    decreases |t|
  {
    if t == [] then Some(ph)
    else match Step(ph, t[0])
      case None => None
      case Some(next) => Run(t[1..], next)
  }

  /** A sequence of complete blocks, each Begin, Color, whole segments, End. */
  ghost predicate LineBlocks(t: seq<GlEvent>)
  {
    Run(t, Outside) == Some(Outside)
  }

  /** Number of occurrences of ev in t. */
  function Count(t: seq<GlEvent>, ev: GlEvent): nat
    decreases |t|
  {
    if t == [] then 0 else (if t[0] == ev then 1 else 0) + Count(t[1..], ev)
  }

  /** Running the recogniser over a concatenation runs it over each part in turn. */
  lemma {:induction false} RunAppend(a: seq<GlEvent>, b: seq<GlEvent>, ph: Phase)
    ensures Run(a + b, ph) == (match Run(a, ph) case None => None case Some(mid) => Run(b, mid))
    decreases |a|
  {
    if a == [] {
      assert a + b == b;
    } else {
      assert (a + b)[0] == a[0];
      assert (a + b)[1..] == a[1..] + b;
      match Step(ph, a[0])
      case None =>
      case Some(next) => RunAppend(a[1..], b, next);
    }
  }

  /** Counting distributes over concatenation. */
  lemma {:induction false} CountAppend(a: seq<GlEvent>, b: seq<GlEvent>, ev: GlEvent)
    ensures Count(a + b, ev) == Count(a, ev) + Count(b, ev)
    decreases |a|
  {
    if a == [] {
      assert a + b == b;
    } else {
      assert (a + b)[0] == a[0];
      assert (a + b)[1..] == a[1..] + b;
      CountAppend(a[1..], b, ev);
    }
  }

  /** An even number of vertices leaves the recogniser ready for End; an odd one does not. */
  lemma {:induction false} RunVertices(vs: seq<Vector3>)
    ensures Run(VertexEvents(vs), EvenVertices) == Some(if |vs| % 2 == 0 then EvenVertices else OddVertices)
    ensures Run(VertexEvents(vs), OddVertices) == Some(if |vs| % 2 == 0 then OddVertices else EvenVertices)
    decreases |vs|
  {
    if vs != [] {
      assert VertexEvents(vs)[0] == Vertex3(vs[0]);
      assert VertexEvents(vs)[1..] == VertexEvents(vs[1..]);
      RunVertices(vs[1..]);
    }
  }

  /** Vertex events contain no other kind of event. */
  lemma {:induction false} CountVertices(vs: seq<Vector3>, ev: GlEvent)
    requires !ev.Vertex3?
    ensures Count(VertexEvents(vs), ev) == 0
    decreases |vs|
  {
    if vs != [] {
      assert VertexEvents(vs)[1..] == VertexEvents(vs[1..]);
      CountVertices(vs[1..], ev);
    }
  }
}
