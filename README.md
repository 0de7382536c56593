# SideView, modelled in Dafny

SideView is a Kerbal Space Program add-on that renders a second, independent
map view on another physical display. This project models its control and
drawing core, all of it in `SideView.cs`:

- **Orbit drawing (`DrawOrbits`).** Once per frame, every orbit the player may
  see is tessellated into `GL.LINES` vertex pairs.
  - An ellipse becomes a closed loop of 180 segments. The loop is seamed at the
    body's current eccentric anomaly.
  - A parabola or hyperbola becomes two arms walked backward and forward from
    the current anomaly. The arms use a fixed step and stop short of the
    asymptotic bound ±acos(-1/e).
  - The GL calls are recorded as a trace (`GlTrace`). A small recogniser states
    what a well-formed block is: Begin, one Color, whole segments, End.
- **Frame control (`SideView.LateUpdate`).** Keypad0 performs one-time display
  initialisation, then toggles map mode. Map mode holds a camera-control
  lock. Tab and Shift-Tab cycle the followed map object, with C#'s truncating
  `%`. An out-of-range index falls back to the active vessel, or to the home
  body when there is no active vessel.
- **`FollowRotEnabler.Update`.** On an object that is active in the
  hierarchy, it keeps a `FollowRot` behaviour enabled exactly while that
  behaviour has a target. A behaviour with a target always ends enabled.

Modules:
- `Scene`: value types and the host functions, which are passed in as parameters.
- `Polyline`: LINES vertex pairing and segment views.
- `GlTrace`: the event trace and its recogniser.
- `ConicSampling`: the tessellation loops and their specification functions.
- `OrbitDrawing`: visibility and `DrawOrbits`.
- `SideViewControl`: target selection and the `SideView` class.
- `FollowRotation`: the `FollowRotEnabler` class.

Two consequences of the code are worth stating.

**Open orbit seen at periapsis.** With 180 samples, the open-orbit step is
2·bound/179, not 2 degrees. An orbit seen at periapsis therefore gets exactly
89 segments per arm for every eccentricity (`PeriapsisArms`).

**Shift-Tab from the first target.** C#'s `%` keeps the sign of the dividend.
With two or more targets, Shift-Tab from the first target gives -1. The index
then resets to the active vessel instead of wrapping to the last target
(`ShiftTabSteps`).

## Model

| member | source | states |
|---|---|---|
| Scene.WithAlpha | SideView.cs:427 | the block colour keeps the renderer's red, green and blue and takes the given alpha |
| ConicSampling.SampleClosedConic | SideView.cs:431-451 | the elliptic branch's loop emits exactly the closed polyline of its n samples: the path through samples 0..n-1 and back to the seam point |
| ConicSampling.ClosedTessellation | SideView.cs:434-450 | the closed polyline has n segments; segment s joins sample s to sample (s+1) mod n; it starts and ends at the body's current position; consecutive segments share endpoints |
| ConicSampling.ArmLengthCounts | SideView.cs:462-492 | the number of samples an arm takes is exactly the number of steps whose anomaly passes the loop guard: step i is taken if and only if i <= ArmLength |
| ConicSampling.ArmTessellation | SideView.cs:462-492 | an arm has ArmLength segments, seeded at the current position and joining consecutive samples; every sample is strictly inside the limit; the arm is empty if and only if the first step already fails the guard; consecutive segments share endpoints |
| ConicSampling.WalkArm | SideView.cs:462-492 | the while loop of one arm emits exactly the arm's specified vertex list |
| ConicSampling.OpenDomain | SideView.cs:454-492 | the step is positive; backward anomalies strictly decrease and stay above -bound; forward anomalies strictly increase and stay below bound; if the current anomaly is inside the domain, every anomaly requested is inside it |
| ConicSampling.OpenTessellation | SideView.cs:460-494 | the open polyline is the backward arm's segments followed by the forward arm's, and nothing else: no segment joins the two arm ends |
| ConicSampling.SampleOpenConic | SideView.cs:452-493 | the hyperbolic branch, with start = -acos(-1/e), end = -start and step = (end-start)/(pointsCount-1), emits exactly the backward arm then the forward arm |
| ConicSampling.PeriapsisArms | SideView.cs:454-492 | at anomaly 0 with 180 samples, each arm has exactly 89 segments for any bound |
| OrbitDrawing.PointsCounts | SideView.cs:396-397 | a 2-degree step gives 180 samples per orbit; the sample count is floor(360/step) |
| OrbitDrawing.AsymptoticBound | SideView.cs:454-455 | for eccentricity >= 1 the bound acos(-1/e) is positive, so start < 0 < end |
| OrbitDrawing.VisibleOnly | SideView.cs:412-421 | the orbits that pass the visibility filter: the result has VisibleCount elements, all visible |
| OrbitDrawing.VisibleOnlyCounts | SideView.cs:412-421 | the filter keeps each visible orbit driver as often as it occurs and drops every invisible one |
| OrbitDrawing.VisibleOnlyMembers | SideView.cs:412-421 | an orbit driver survives the filter if and only if it is one of the drivers and is visible |
| OrbitDrawing.VisibleOnlyOrdered | SideView.cs:400-421 | the filter keeps the drivers' order: the result is a subsequence of the drivers |
| OrbitDrawing.DrawOrbits | SideView.cs:385-498 | the loop's trace is PushMatrix, then one block per orbit that has a renderer with discovery info and is visible, in order, then PopMatrix |
| OrbitDrawing.OrbitVerticesEven | SideView.cs:431-493 | every orbit emits an even number of vertices, so LINES never gets a dangling vertex |
| OrbitDrawing.ClosedOrbitDrawing | SideView.cs:431-451 | an ellipse is drawn with 360 vertices; the first and last are the body's current position; consecutive segments share endpoints |
| OrbitDrawing.BlockShape | SideView.cs:425-494 | one orbit's block is well formed: Begin, one Color, whole segments, End |
| OrbitDrawing.BlocksShape | SideView.cs:400-495 | the blocks form a well-formed sequence of complete LINES blocks, with one Begin and one End per visible orbit and no matrix push or pop |
| OrbitDrawing.FrameTrace | SideView.cs:385-498 | the whole trace has exactly one PushMatrix, first, and one PopMatrix, last, with only complete blocks between them, one per visible orbit |
| OrbitDrawing.BlocksOfVisible | SideView.cs:412-421 | skipping an invisible orbit or one without a renderer changes nothing: the trace equals the trace of the visible orbits alone |
| OrbitDrawing.NoVisibleOrbitNoBlock | SideView.cs:392-421 | no block is drawn if and only if no orbit is visible; without the tracking-station level for all orbits, nothing is drawn |
| SideViewControl.CsRemainder | SideView.cs:270-275 | C#'s `%` truncates: the result lies strictly between -n and n; it agrees with Euclidean `%` on non-negative dividends; it is never positive for a non-positive dividend; it differs from the dividend by a multiple of n; it keeps a dividend in (-n, 0] unchanged |
| SideViewControl.IndexOf | SideView.cs:325-329 | List.IndexOf: the result is the first position holding the element, or -1 if and only if the element is absent |
| SideViewControl.ResetIndex | SideView.cs:321-331 | the reset index points at the active vessel's map object, or at the home body's when there is no active vessel; it is -1 if and only if that object is not a target |
| SideViewControl.SelectTarget | SideView.cs:261-279 | after a frame's target handling the index is a valid target or the reset index; outside map mode only the range check acts |
| SideViewControl.TargetInRange | SideView.cs:278-279 | whenever the focus object is a target, the frame always ends with a valid target index |
| SideViewControl.TabCycles | SideView.cs:268-271 | Tab moves to the next target, wrapping from the last to the first; from the initial -1 it moves to the first |
| SideViewControl.ShiftTabSteps | SideView.cs:273-279 | Shift-Tab moves to the previous target; from the first of two or more targets it falls back to the reset index rather than wrapping; with one target it stays |
| SideViewControl.ShiftTabFromUnset | SideView.cs:273-279 | Shift-Tab from the unset index -1 gives 0 with one or two targets, because (-2) % 2 is 0; with three or more it falls back to the reset index |
| SideViewControl.SideView.constructor | SideView.cs:37-71 | a new instance is not initialised, has no camera, is out of map mode, holds no lock, and has target index -1 |
| SideViewControl.SideView.Init | SideView.cs:114-136 | initialisation succeeds only when not yet done, with more than one display, outside the editor, and when the configured display exists; then it runs the scene-load handler; it is never undone |
| SideViewControl.SideView.LevelWasLoaded | SideView.cs:138-220 | after init, loading the flight scene ensures a camera exists and clears the target index; otherwise nothing changes |
| SideViewControl.SideView.ResetTarget | SideView.cs:321-331 | sets the target index to the reset index |
| SideViewControl.SideView.StepTarget | SideView.cs:261-279 | the target index becomes SelectTarget of the previous index |
| SideViewControl.SideView.LateUpdate | SideView.cs:242-279 | Keypad0 without a camera runs Init, so the instance is initialised afterwards if and only if it was before or Init's conditions held; with a camera it toggles map mode, and the lock is held exactly in map mode; the target index follows SelectTarget |
| FollowRotation.FollowRotEnabler.Update | SideView.cs:515-522 | a FollowRot with a target ends enabled; on an active object it ends enabled if and only if it has a target; an inactive one without a target keeps its flag |

## Left out

- Camera set-up, matrices and rendering callbacks are not modelled: the focus and camera object creation details, culling masks, the galaxy-cube renderers, `onPreCull`/`onPostRender` and the sun-corona handling (SideView.cs:143-238, 333-383). They are Unity calls with no logic of their own.
- The camera part of `LateUpdate` is not modelled: re-parenting the focus, minimum distance, zoom, pitch and heading (SideView.cs:281-317). It is floating-point camera arithmetic.
- The configuration file I/O and event registration in `Start` and `OnDestroy` are not modelled (SideView.cs:73-101). Only the configured display index is kept.
- The launch-pad spotlight fix at the end of the scene-load handler is not modelled (SideView.cs:221-237). It only adjusts a light's culling mask.
- Display activation, `print` logging, `GL.LoadProjectionMatrix`, `GL.modelview` and `material.SetPass` do not appear in the trace; they have no ordering constraints that the model states.
- The host functions are parameters, not definitions: `ScaledSpace.LocalToScaledSpace`, `getPositionFromEccAnomalyWithSemiMinorAxis`, `Math.Acos` and the floating-point `% (2 * Mathf.PI)`. For `Math.Acos` the model assumes only that it is positive on [-1, 0).
- All arithmetic is exact real arithmetic. Single and double precision rounding, including the float cast of 2·PI, is not modelled.
- The tracking-station query that yields `showOrbits` (SideView.cs:392-394) is a boolean parameter. The discovery-level query is the boolean `knowsStateVectors`.
- Unity's destroyed-object semantics are not modelled. The camera and focus objects vanishing on scene change are not part of the model, so `hasCamera` only ever becomes true.
- SideViewControl.SideView.LateUpdate: requires at least one map target. With none, the source divides by zero on Tab or indexes an empty list.
- SideViewControl.SideView.LateUpdate: does not model the exception at SideView.cs:283. It is raised when the reset index is -1 (the focus object is not a target) and the target changed.
- The configured display index is a `nat`. A negative index in the configuration file, which the source's `>=` check would let through to `Display.displays`, is not modelled.
- FollowRotation.FollowRotEnabler.Update: the flag equals "has a target" only on an object active in the hierarchy, because the source tests `isActiveAndEnabled`. An inactive object without a target keeps its flag.
