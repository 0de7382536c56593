/**
 * The add-on's per-frame control state: one-time display initialisation, the
 * map-mode toggle on Keypad0 with its camera-control lock, and the choice of
 * the map object the side camera follows, cycled with Tab and Shift-Tab.
 */
module SideViewControl {
  import opened Scene

  /**
   * C#'s % on int: it truncates toward zero, so the result takes the
   * dividend's sign, is smaller in size than n, and differs from the dividend
   * by a multiple of n. It agrees with Dafny's Euclidean % on non-negative
   * dividends, and leaves a negative dividend smaller in size than n unchanged.
   */
  function CsRemainder(a: int, n: int): (r: int)
    requires n > 0
    ensures -n < r < n
    ensures a >= 0 ==> r >= 0
    ensures a <= 0 ==> r <= 0
    ensures (a - r) % n == 0
    ensures a >= 0 ==> r == a % n
    ensures -n < a <= 0 ==> r == a
  {
    if a >= 0 then
      DivModUnique(a - a % n, n, a / n, 0);
      a % n
    else
      NegRemainder(a, n);
      -((-a) % n)
  }

  /** The facts about a negative dividend's truncated remainder. */
  lemma NegRemainder(a: int, n: int)
    requires n > 0 && a < 0
    ensures (a + (-a) % n) % n == 0
    ensures -n < a ==> (-a) % n == -a
  {
    var x := -a;
    var k := x / n;
    assert x == n * k + x % n;
    assert a + x % n == n * -k;
    DivModUnique(n * -k, n, -k, 0);
    if x < n {
      DivModUnique(x, n, 0, x);
    }
  }

  /** Euclidean division is unique: a quotient and remainder in range are x / n and x % n. */
  lemma DivModUnique(x: int, n: int, q: int, r: int)
    requires n > 0 && 0 <= r < n && x == n * q + r
    ensures x % n == r && x / n == q
  {
    var q2 := x / n;
    var r2 := x % n;
    assert x == n * q2 + r2;
    assert n * (q - q2) == r2 - r;
    if q - q2 >= 1 {
      MulAtLeast(n, q - q2);
    } else if q2 - q >= 1 {
      MulAtLeast(n, q2 - q);
    }
  }

  lemma MulAtLeast(n: int, d: int)
    requires n > 0 && d >= 1
    ensures n * d >= n
    decreases d
  {
    if d > 1 {
      MulAtLeast(n, d - 1);
      assert n * d == n * (d - 1) + n;
    }
  }

  /** Identity of a map object the planetarium camera can target. */
  type MapObjectId = nat

  /** List.IndexOf: the first index holding x, or -1 when x is absent. */
  function IndexOf(targets: seq<MapObjectId>, x: MapObjectId): (r: int)
    ensures -1 <= r < |targets|
    ensures r >= 0 ==> targets[r] == x && x !in targets[..r]
    ensures r == -1 <==> x !in targets
    decreases |targets|
  {
    if targets == [] then -1
    else if targets[0] == x then 0
    else
      var k := IndexOf(targets[1..], x);
      if k < 0 then -1 else k + 1
  }

  /**
   * The index ResetTarget chooses: the active vessel's map object when there is
   * an active vessel, the home body's otherwise; -1 when it is not a target.
   */
  function ResetIndex(targets: seq<MapObjectId>, activeVessel: Option<MapObjectId>, home: MapObjectId): (r: int)
    ensures -1 <= r < |targets|
    ensures var focus := if activeVessel.Some? then activeVessel.value else home;
      (r >= 0 ==> targets[r] == focus) && (r == -1 <==> focus !in targets)
  {
    match activeVessel
    case Some(vessel) => IndexOf(targets, vessel)
    case None => IndexOf(targets, home)
  }

  /** The keys LateUpdate reads in one frame. */
  datatype FrameInput = FrameInput(keypad0: bool, cameraReset: bool, tab: bool, leftShift: bool)

  /**
   * The target index at the end of a frame's target handling, from the index
   * idx it starts with: camera reset, then Tab forward or Shift-Tab back (C#
   * remainder by the target count n), then a reset whenever the index is out of
   * range. All three key actions apply only in map mode.
   */
  function SelectTarget(idx: int, n: int, resetIdx: int, inMap: bool, input: FrameInput): (r: int)
    requires n > 0 && -1 <= resetIdx < n
    ensures 0 <= r < n || r == resetIdx
    ensures !inMap ==> r == (if 0 <= idx < n then idx else resetIdx)
  {
    var afterReset := if inMap && input.cameraReset then resetIdx else idx;
    var afterTab := if inMap && input.tab && !input.leftShift then CsRemainder(afterReset + 1, n) else afterReset;
    var afterBack := if inMap && input.tab && input.leftShift then CsRemainder(afterTab - 1, n) else afterTab;
    if afterBack < 0 || afterBack >= n then resetIdx else afterBack
  }

  /** The frame's target index is a valid target whenever the reset index is. */
  lemma TargetInRange(idx: int, n: int, resetIdx: int, inMap: bool, input: FrameInput)
    requires n > 0 && 0 <= resetIdx < n
    ensures 0 <= SelectTarget(idx, n, resetIdx, inMap, input) < n
  {
  }

  /**
   * Tab moves to the next target and wraps from the last to the first; the
   * initial index -1 moves to the first target.
   */
  lemma TabCycles(idx: int, n: int, resetIdx: int)
    requires n > 0 && -1 <= resetIdx < n && -1 <= idx < n
    ensures SelectTarget(idx, n, resetIdx, true, FrameInput(false, false, true, false)) == (idx + 1) % n
    ensures idx == n - 1 ==> SelectTarget(idx, n, resetIdx, true, FrameInput(false, false, true, false)) == 0
    ensures idx == -1 ==> SelectTarget(idx, n, resetIdx, true, FrameInput(false, false, true, false)) == 0
  {
  }

  /**
   * Shift-Tab moves to the previous target, but does not wrap: from the first
   * target C#'s remainder gives -1 (with two or more targets), which falls back
   * to the reset index rather than the last target. With a single target the
   * remainder is 0 and the index stays put.
   */
  lemma ShiftTabSteps(idx: int, n: int, resetIdx: int)
    requires n > 0 && -1 <= resetIdx < n && 0 <= idx < n
    ensures idx >= 1 ==> SelectTarget(idx, n, resetIdx, true, FrameInput(false, false, true, true)) == idx - 1
    ensures idx == 0 && n >= 2 ==> CsRemainder(idx - 1, n) == -1
    ensures idx == 0 && n >= 2 ==> SelectTarget(idx, n, resetIdx, true, FrameInput(false, false, true, true)) == resetIdx
    ensures idx == 0 && n == 1 ==> SelectTarget(idx, n, resetIdx, true, FrameInput(false, false, true, true)) == 0
  {
    if idx >= 1 {
      DivModUnique(idx - 1, n, 0, idx - 1);
      assert CsRemainder(idx - 1, n) == idx - 1;
    } else if n >= 2 {
      assert CsRemainder(-1, n) == -1;
    } else {
      assert CsRemainder(-1, 1) == 0;
    }
  }

  /**
   * Shift-Tab from the unset index -1 (as left by a scene load): C#'s remainder
   * of -2 is 0 with one or two targets, and -2 otherwise, which falls back to
   * the reset index.
   */
  lemma ShiftTabFromUnset(n: int, resetIdx: int)
    requires n > 0 && -1 <= resetIdx < n
    ensures SelectTarget(-1, n, resetIdx, true, FrameInput(false, false, true, true)) == if n <= 2 then 0 else resetIdx
  {
    if n == 2 {
      DivModUnique(-2, 2, -1, 0);
    }
  }

  /** The add-on's behaviour object, reduced to the state its control logic updates. */
  class SideView {
    /** Index of the display to render to, from the configuration file. */
    var displayIdx: nat
    var isInit: bool
    /** Whether the side camera object exists (it is created once a flight scene is loaded after init). */
    var hasCamera: bool
    var isInMap: bool
    /** Whether the "SideView" camera-control lock is set in the host's input lock manager. */
    var lockHeld: bool
    var targetIdx: int

    /** The lock is held exactly in map mode, and a camera exists only after init. */
    ghost predicate Valid()
      reads this
    {
      lockHeld == isInMap && (hasCamera ==> isInit)
    }

    constructor (displayIdx: nat)
      ensures Valid()
      ensures this.displayIdx == displayIdx
      ensures !isInit && !hasCamera && !isInMap && !lockHeld && targetIdx == -1
    {
      this.displayIdx := displayIdx;
      isInit := false;
      hasCamera := false;
      isInMap := false;
      lockHeld := false;
      targetIdx := -1;
    }

    /**
     * Scene-load handler: after init, entering flight creates the camera if it
     * is missing and clears the target index.
     */
    method LevelWasLoaded(inFlight: bool)
      requires Valid()
      modifies this
      ensures Valid()
      ensures if isInit && inFlight then hasCamera && targetIdx == -1
              else hasCamera == old(hasCamera) && targetIdx == old(targetIdx)
      ensures isInit == old(isInit) && isInMap == old(isInMap) && lockHeld == old(lockHeld)
      ensures displayIdx == old(displayIdx)
    {
      if !isInit || !inFlight {
        return;
      }
      if !hasCamera {
        hasCamera := true;
      }
      targetIdx := -1;
    }

    /**
     * One-time display set-up: it succeeds only when not yet initialised, more
     * than one display exists, the game is not in the editor, and the
     * configured display exists; then it runs the scene-load handler.
     */
    method Init(displayCount: nat, isEditor: bool, inFlight: bool)
      requires Valid() && displayCount >= 1
      modifies this
      ensures Valid()
      ensures isInit == (old(isInit) || (displayCount > 1 && !isEditor && displayIdx < displayCount))
      ensures if !old(isInit) && isInit && inFlight then hasCamera && targetIdx == -1
              else hasCamera == old(hasCamera) && targetIdx == old(targetIdx)
      ensures isInMap == old(isInMap) && lockHeld == old(lockHeld) && displayIdx == old(displayIdx)
    {
      if isInit || displayCount == 1 || isEditor {
        return;
      }
      if displayIdx >= displayCount {
        return;
      }
      isInit := true;
      LevelWasLoaded(inFlight);
    }

    /** Points the camera back at the active vessel, or at the home body when there is none. */
    method ResetTarget(targets: seq<MapObjectId>, activeVessel: Option<MapObjectId>, home: MapObjectId)
      modifies this`targetIdx
      ensures targetIdx == ResetIndex(targets, activeVessel, home)
    {
      if activeVessel.Some? {
        targetIdx := IndexOf(targets, activeVessel.value);
      } else {
        targetIdx := IndexOf(targets, home);
      }
    }

    /** The target handling of one frame in map mode, as SelectTarget states it. */
    method StepTarget(input: FrameInput, targets: seq<MapObjectId>, activeVessel: Option<MapObjectId>, home: MapObjectId)
      requires |targets| > 0
      modifies this`targetIdx
      ensures targetIdx == SelectTarget(old(targetIdx), |targets|, ResetIndex(targets, activeVessel, home), isInMap, input)
    {
      var count := |targets|;
      if isInMap && input.cameraReset {
        ResetTarget(targets, activeVessel, home);
      }
      if isInMap && input.tab && !input.leftShift {
        targetIdx := CsRemainder(targetIdx + 1, count);
      }
      if isInMap && input.tab && input.leftShift {
        targetIdx := CsRemainder(targetIdx - 1, count);
      }
      if targetIdx < 0 || targetIdx >= count {
        ResetTarget(targets, activeVessel, home);
      }
    }

    /**
     * The control part of the frame update: Keypad0 initialises when there is
     * no camera yet; with a camera, Keypad0 toggles map mode and the lock, and
     * the target index is updated as SelectTarget says.
     */
    method LateUpdate(input: FrameInput, targets: seq<MapObjectId>, activeVessel: Option<MapObjectId>,
                      home: MapObjectId, displayCount: nat, isEditor: bool, inFlight: bool)
      requires Valid() && |targets| > 0 && displayCount >= 1
      modifies this
      ensures Valid()
      ensures isInit == (old(isInit) ||
        (!old(hasCamera) && input.keypad0 && displayCount > 1 && !isEditor && displayIdx < displayCount))
      ensures hasCamera == (old(hasCamera) ||
        (input.keypad0 && !old(isInit) && displayCount > 1 && !isEditor && displayIdx < displayCount && inFlight))
      ensures isInMap == (if hasCamera && input.keypad0 then !old(isInMap) else old(isInMap))
      ensures hasCamera ==> targetIdx == SelectTarget(if old(hasCamera) then old(targetIdx) else -1,
                                                      |targets|, ResetIndex(targets, activeVessel, home), isInMap, input)
      ensures !hasCamera ==> targetIdx == old(targetIdx)
      ensures displayIdx == old(displayIdx)
    {
      if !hasCamera && input.keypad0 {
        Init(displayCount, isEditor, inFlight);
      }
      if hasCamera {
        if input.keypad0 {
          isInMap := !isInMap;
          if isInMap {
            lockHeld := true;
          } else {
            lockHeld := false;
          }
        }
        StepTarget(input, targets, activeVessel, home);
      }
    }
  }
}
