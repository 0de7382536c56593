/**
 * Values the orbit renderer reads from the host simulation each frame, and the
 * host capabilities it calls (coordinate conversion, floating-point helpers).
 * None of these is owned by the add-on: they are inputs to the model.
 */
module Scene {

  datatype Option<T> = None | Some(value: T)

  /** A point in scaled (render) space, as handed to GL.Vertex3. */
  datatype Vector3 = Vector3(x: real, y: real, z: real)

  /** An RGBA colour. */
  datatype Color = Color(r: real, g: real, b: real, a: real)

  /** The colour with its alpha channel replaced, as the host's Color.A extension does. */
  function WithAlpha(c: Color, alpha: real): (r: Color)
    ensures r.a == alpha
    ensures r.r == c.r && r.g == c.g && r.b == c.b
  {
    c.(a := alpha)
  }

  /**
   * One orbit at the sampling instant. positionAt is the host's
   * getPositionFromEccAnomalyWithSemiMinorAxis: anomaly and semi-minor axis to a
   * position in the orbit's local frame.
   */
  datatype Orbit = Orbit(
    eccentricity: real,
    semiMinorAxis: real,
    eccentricAnomaly: real,
    positionAt: (real, real) -> Vector3)

  /** The renderer's answer to HaveKnowledgeAbout(DiscoveryLevels.StateVectors). */
  datatype DiscoveryInfo = DiscoveryInfo(knowsStateVectors: bool)

  /** The orbit renderer attached to an orbit driver. */
  datatype OrbitRenderer = OrbitRenderer(discoveryInfo: Option<DiscoveryInfo>, orbitColor: Color)

  /** One entry of the host's list of orbits; renderer is None when the driver has none. */
  datatype OrbitDriver = OrbitDriver(renderer: Option<OrbitRenderer>, orbit: Orbit)

  /**
   * Host capabilities used while drawing: LocalToScaledSpace, the floating-point
   * remainder by 2·PI applied to elliptic anomalies, Math.Acos and the constant
   * Deg2Rad.
   */
  datatype Host = Host(
    localToScaledSpace: Vector3 -> Vector3,
    wrapAngle: real -> real,
    acos: real -> real,
    deg2Rad: real)
  {
    /**
     * What the model relies on from the host: acos is strictly positive on
     * [-1, 0), where the true arc cosine lies in (PI/2, PI].
     */
    ghost predicate Valid()
    {
      forall x :: -1.0 <= x < 0.0 ==> acos(x) > 0.0
    }
  }

  /** The scaled-space position of the orbit at a given anomaly. */
  function OrbitPosition(o: Orbit, host: Host): real -> Vector3
  {
    anomaly => host.localToScaledSpace(o.positionAt(anomaly, o.semiMinorAxis))
  }
}
