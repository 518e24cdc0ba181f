# Curves: control-point ring buffer and cubic Bezier polyline

A Dafny model of the logic of the `Curves` demo (`Curves/Curves.cpp`). The user places
control points with mouse clicks, and the program draws a cubic Bezier curve defined by
the first four of them. Each frame, `Curves::Update` does three things:

1. It writes the live cursor point into control slot `controlVertexIndex` as a preview.
2. On a left click it commits that point. This moves `controlVertexIndex` on modulo 80 and
   raises `controlVertexCount`, which stops at 80.
3. Once more than one point is committed, it rebuilds the 28-sample `curveVertexes` polyline:
   - sample 0 is a copy of control slot 0;
   - samples 1..26 are points of the Bezier curve of control slots 0-3 at t = i/27;
   - sample 27 is a copy of control slot 79.

Modules:

- `Geometry`: the `Vertex` record (an XMFLOAT3 position over `real`, and an abstract colour).
- `Bezier`: `calculateBezierCoordinate` (Bernstein form, with `pow` as `Pow`), and
  `generateBezierPoint`. It also gives the sample parameters `i * tIncrement` and the
  properties of the blend. De Casteljau's construction serves as an independent reference.
- `ControlRing`: the 80-slot buffer and its two counters as a value (`Ring`). It has the
  preview write, the commit and one frame as functions, and lemmas about runs of frames,
  clicking or not.
- `Polyline`: the 28-sample curve as a function of the control slots, with lemmas about
  which slots it reads and where its samples lie.
- `CurvesApp`: class `Curves`, holding the two arrays and the two counters. `Update` changes
  them in place with the source's loop. It is proved to follow `ControlRing.Frame` and
  `Polyline.CurvePolyline`.

The last curve sample is always a copy of control slot 79 (`CONTROL_VERTEX_QUANTITY - 1`),
whatever was committed. `TwoCommitsSnapToSlot79` shows that after two clicks it is still the
zeroed slot 79, not the second point.

Every frame rewrites slot `controlVertexIndex` with the live cursor point, click or not. So
between clicks a full ring holds 79 committed points and the preview, not 80
(`RunContents`, `CommitsBetweenClicks`, `PreviewOverwritesOldestWhenFull`). Clicks arrive one
frame at a time with frames without a click between them; `FramesNormalForm` reduces any such
run to its committed points followed by at most one frame without a click.

## Model

| member | source | states |
|---|---|---|
| `Bezier.Pow` | Curves/Curves.cpp:131 | `pow` with a natural exponent: exponent 0 gives 1; a non-negative base gives a non-negative result; base 1 gives 1; base 0 gives 0 for a positive exponent |
| `Bezier.CalculateBezierCoordinate` | Curves/Curves.cpp:130-132 | the blend returns p1 at t = 0 and p4 at t = 1 |
| `Bezier.BezierMatchesDeCasteljau` | Curves/Curves.cpp:130-132 | for every t, the Bernstein blend equals de Casteljau's repeated linear interpolation of the four values, so it is the cubic Bezier curve |
| `Bezier.BezierTranslates` | Curves/Curves.cpp:130-132 | the weights sum to one: shifting all four control values by d shifts the result by d |
| `Bezier.BezierReversed` | Curves/Curves.cpp:130-132 | evaluating the reversed control values at 1 - t gives the same point as the original values at t |
| `Bezier.BezierWithinBounds` | Curves/Curves.cpp:130-132 | convex hull: for t in [0, 1] the result lies between any lower and upper bound of the four control values |
| `Bezier.GenerateBezierPoint` | Curves/Curves.cpp:121-128 | x and y are blended independently from the four positions; z is 0; the colour is Aqua; at t = 0 it is p1's (x, y) and at t = 1 it is p4's |
| `Bezier.SampleParameter` | Curves/Curves.cpp:78-81 | `i * tIncrement` lies in [0, 1]; it is 0 exactly for sample 0 and 1 exactly for sample 27; times 27 it gives i back |
| `Bezier.SampleParametersIncrease` | Curves/Curves.cpp:78-81 | sample parameters strictly increase with the sample number |
| `ControlRing.Initial` | Curves/Curves.cpp:14-21 | a new object has both counters at 0, every slot zeroed, and satisfies the ring invariant |
| `ControlRing.Preview` | Curves/Curves.cpp:65 | the cursor point (z = 0, Blue) goes into slot `controlVertexIndex`; every other slot and both counters are unchanged; the ring invariant is kept |
| `ControlRing.NextIndex` | Curves/Curves.cpp:69 | the index after a commit, (old + 1) mod 80, is always below 80 |
| `ControlRing.Advance` | Curves/Curves.cpp:67-73 | a commit sets the index to `NextIndex` of the old one; the count grows by one only while below 80, so it becomes min(count + 1, 80); the slots are untouched; the ring invariant (count <= 80, and index == count while not full) is kept |
| `ControlRing.Frame` | Curves/Curves.cpp:65-73 | one frame keeps the ring invariant; the slots become the old slots with the cursor point in slot `controlVertexIndex`, click or not; without a click both counters are unchanged; with a click the index moves on by one and the count becomes min(count + 1, 80) |
| `ControlRing.ClickFrames` | Curves/Curves.cpp:65-73 | a run of clicking frames from a valid state ends in a valid state |
| `ControlRing.ClickFramesStep` | Curves/Curves.cpp:65-73 | the last clicking frame of a run writes its cursor point into the slot the run had reached, moves the index on by one and raises the count to min(count + 1, 80) |
| `ControlRing.ClickFramesCounters` | Curves/Curves.cpp:69-72 | after k clicks the index is (index + k) mod 80 and the count is min(count + k, 80) |
| `ControlRing.ClicksFromStart` | Curves/Curves.cpp:20-73 | from a new object, any run of frames with k clicks among them gives index k mod 80 and count min(k, 80), so 80 or more clicks leave the count at 80 |
| `ControlRing.FullRingStaysFull` | Curves/Curves.cpp:65-73 | once the count is 80, any further run of frames leaves it at 80 while the index moves on one place per click, modulo 80 |
| `ControlRing.ClickFramesRecent` | Curves/Curves.cpp:65-73 | right after a run of clicking frames, the k-th point of the run sits in slot (index + k) mod 80 unless 80 or more points were committed after it |
| `ControlRing.ClickFramesUntouched` | Curves/Curves.cpp:65-73 | the slots a run of commits has not reached keep their old contents |
| `ControlRing.LatestCommitBeforeIndex` | Curves/Curves.cpp:65-73 | after any run of frames, clicking or not, the point of the last clicking frame is at slot `PrevIndex(index)`, (index - 1) mod 80: later frames without a click only rewrite slot `index` |
| `ControlRing.Frames` | Curves/Curves.cpp:65-73 | any run of frames, clicking or not, from a valid state ends in a valid state |
| `ControlRing.Committed` | Curves/Curves.cpp:65-69 | the cursor points committed by a run, in order: one per clicking frame, so never more than the run's frames |
| `ControlRing.FramesNormalForm` | Curves/Curves.cpp:65-73 | any run of frames equals the clicking frames of its committed points alone, followed by its last frame when that one does not click: frames without a click before a click leave no trace |
| `ControlRing.FramesCounters` | Curves/Curves.cpp:65-73 | over any run of frames only the clicks move the counters: k clicks move the index k places modulo 80 and make the count min(count + k, 80) |
| `ControlRing.RunContents` | Curves/Curves.cpp:65-73 | after any run of frames, the k-th committed point is in slot (index + k) mod 80 while fewer than 80 points, itself included, were committed after it; after a frame without a click, slot `index` holds that frame's cursor point |
| `ControlRing.PreviewThenPreview` | Curves/Curves.cpp:65 | a frame without a click followed by another leaves the same state as the second alone |
| `ControlRing.PreviousIndex` | Curves/Curves.cpp:69 | `PrevIndex` undoes `NextIndex` for every index below 80 |
| `ControlRing.PreviewThenClick` | Curves/Curves.cpp:65-73 | a frame without a click followed by a clicking frame leaves the same state as the clicking frame alone: the second preview overwrites the first |
| `ControlRing.PreviewBetweenClicks` | Curves/Curves.cpp:65 | after a run of clicks and a frame without a click, slot `index` holds that frame's cursor point and the index is (index + k) mod 80 |
| `ControlRing.CommitsBetweenClicks` | Curves/Curves.cpp:65-73 | after a run of clicks and a frame without a click, a committed point survives if fewer than 80 points, itself included, were committed after it, and the point with exactly 80 is replaced by the preview: a full ring between clicks holds 79 committed points and the preview |
| `ControlRing.PreviewOverwritesOldestWhenFull` | Curves/Curves.cpp:65-73 | 80 clicks from a new object and one frame without a click: the count is 80 and slot 0 holds the live cursor point instead of the first committed point |
| `ControlRing.OverwriteAfterWrap` | Curves/Curves.cpp:65-73 | 81 commits from a new object overwrite slot 0 with the 81st point, and the count is 80 |
| `ControlRing.FrameWithoutClickIdempotent` | Curves/Curves.cpp:65-73 | repeating a frame without a click at the same cursor position changes nothing more |
| `Polyline.CurvePolyline` | Curves/Curves.cpp:75-84 | 28 samples: sample 0 is control slot 0 exactly (colour included); sample 27 is control slot 79 exactly; each sample i in 1..26 is Aqua with z = 0 and has x and y given by the blend of slots 0-3 at t = i/27 |
| `Polyline.PolylineReadsWindowOnly` | Curves/Curves.cpp:75-84 | the polyline depends only on control slots 0-3 and 79, so rebuilding from buffers that agree there gives identical polylines |
| `Polyline.PreviewOutsideWindowKeepsCurve` | Curves/Curves.cpp:65-84 | a preview write into any slot from 4 to 78 leaves the polyline unchanged |
| `Polyline.FirstSampleOnCurve` | Curves/Curves.cpp:76-81 | the copied first sample is at the curve's t = 0 position |
| `Polyline.InteriorWithinControlBox` | Curves/Curves.cpp:78-82 | every interior sample lies in the x/y bounding box of control slots 0-3 |
| `Polyline.TwoCommitsSnapToSlot79` | Curves/Curves.cpp:65-84 | two clicks on a new object: count 2; the first sample is the first point; the last sample is the zeroed slot 79, not the second point |
| `CurvesApp.Curves.constructor` | Curves/Curves.cpp:14-21 | both buffers fresh and zeroed, both counters 0, object invariant established |
| `CurvesApp.Curves.Update` | Curves/Curves.cpp:65-85 | keeps the object invariant; the control buffer and counters become `Frame(old state, x, y, click)`; when the count is above 1 the curve buffer becomes `CurvePolyline` of the control buffer, otherwise it is unchanged |
| `CurvesApp.Curves.RebuildCurve` | Curves/Curves.cpp:75-85 | the curve buffer becomes `CurvePolyline` of the control buffer, which it only reads |

## Left out

- Direct3D 12 setup, upload and drawing (`Init`, `Display`, `Finalize`, `BuildRootSignature`,
  `BuildPipelineState`, `WinMain`, and the `graphics->Copy`/`SubmitCommands` calls at
  lines 87-92). These are foreign API calls with no logic of their own. One consequence is
  not modelled: `Display` draws only 27 curve vertices, so the slot-79 sample is never drawn.
- The conversion of mouse coordinates to normalised window coordinates (lines 54-60).
  `Update` takes the resulting cursor position (x, y) as parameters. The left-button test is
  a boolean parameter.
- The Escape-key window close (lines 62-63), which is I/O.
- IEEE `float`/`double` rounding and the library `pow`. Coordinates, the blend and the
  parameter `i * tIncrement` are idealised over `real`, so `i * tIncrement` equals i/27
  exactly. Interior samples therefore carry no rounding error in the model. The loop never
  evaluates t = 0 or t = 1; the endpoint identities are properties of the blend over `real`.
- The RGBA values of `Colors::Blue` and `Colors::Aqua`, and the layout in `Vertex.h`.
  Vertex.h is not part of this model. Colours are an enum. `Unset` stands for the all-zero
  colour of a slot that was never written. The model assumes the buffers start zeroed, as
  value-initialisation of the `Curves` object gives them.
- The `uint` width of the counters. Both stay at or below 80, so they never wrap.
