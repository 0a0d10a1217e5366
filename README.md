# Slot detection for one parking wing

This project models the detection loop of `core_ai/detector.py`. That loop is
the per-wing process of the smart-parking system. It reads a video, runs
inference on every third successfully read frame, and decides for each slot
polygon whether a car is present. A car is present when the centre of some
detected box lies inside the polygon or on its edge. That raw signal feeds a
per-slot hysteresis state machine:

- five consecutive positives from a counter of 0 confirm Occupied;
- thirty negatives from a counter of 0 confirm Vacant;
- the counter is clamped to the range -30..5;
- each change of the confirmed status is reported to the database under a
  label such as `W1-07`.

Modules, one per file:

- `Fsm` (fsm.dfy): the slot state, one evaluation (`Step`), a run of
  evaluations (`Run`), and the hysteresis properties.
- `Geometry` (geometry.dfy): the point-in-polygon test (+1, 0 or -1), by
  integer ray casting with an inclusive boundary.
- `Signal` (signal.dfy): box centres, and the per-slot scan over the
  detections that stops at the first match.
- `Label` (label.dfy): slot labels, their decimal round trip, and their
  injectivity.
- `Sampler` (sampler.dfy): failed reads are skipped, and every third success
  is evaluated.
- `Wing` (wing.dfy): a whole wing as values. It covers one evaluated frame,
  one pass of the main loop, and the loop over a sequence of reads. It also
  gives each slot's projection: its state and its reports are exactly those
  of its own `Run`.
- `Detector` (detector.dfy): the class `WingDetector`, holding the slot
  states in an array, the frame counter and the reports. Its methods update
  these in place and are proved equal to the `Wing` functions.

The counter is not reset when a status is confirmed. So a slot held Occupied
(counter 5) needs 35 consecutive negatives to become Vacant, not the 30 that
`FRAMES_TO_VACATE` (core_ai/detector.py:35) alone suggests. The model follows the code and proves 35
(`Fsm.HeldOccupiedVacatesAfterThirtyFive`).

## Model

| member | source | states |
|---|---|---|
| Fsm.Step | core_ai/detector.py:86-103 | The counter moves one step towards the signal's clamp and stays within -30..5. The status flips exactly when that clamp is reached. A report is due iff the status changed, and then it names the confirmed status. Valid states stay valid, and repeating a signal at its clamp changes nothing. |
| Fsm.Run | core_ai/detector.py:73-103 | A run of evaluations keeps a valid slot state valid and reports at most once per evaluation. |
| Fsm.RunSnoc | core_ai/detector.py:86-103 | (proof helper) One more signal is one more FSM step, appending that step's report if any. |
| Fsm.RunAppend | core_ai/detector.py:86-103 | Evaluating two signal sequences in turn equals evaluating their concatenation, for final state and reports. |
| Fsm.PositiveRun | core_ai/detector.py:90-93 | From any valid state, k positives raise the counter by k with no report until exactly 5 - count of them. Then the slot is Occupied, reported once if it was Vacant. |
| Fsm.NegativeRun | core_ai/detector.py:94-97 | From any valid state, exactly count + 30 negatives confirm Vacant, reported once if it was Occupied. Fewer change only the counter. |
| Fsm.FreshSlotOccupiesAfterFive | core_ai/detector.py:34-93 | A fresh slot is still Vacant after 4 positives. It is confirmed and reported Occupied on the 5th, and a 6th changes nothing. |
| Fsm.HeldOccupiedVacatesAfterThirtyFive | core_ai/detector.py:35-97 | A slot held Occupied is still Occupied after 30 and after 34 negatives, and becomes Vacant, reported once, on the 35th. |
| Fsm.HeldVacantOccupiesAfterThirtyFive | core_ai/detector.py:34-93 | A slot held Vacant at -30 needs 35 positives to become Occupied. |
| Fsm.AlternatingNeverReports | core_ai/detector.py:90-97 | Flickering true/false from any counter between -29 and 3 never reports and returns to the starting state. |
| Fsm.UpThenDown | core_ai/detector.py:90-97 | Away from the clamps, a positive then a negative restore the state without reporting. |
| Fsm.UpThenDownRun | core_ai/detector.py:90-97 | (proof helper) The same as a two-signal run. |
| Fsm.RunReportsAlternate | core_ai/detector.py:99-103 | The reports of any run strictly alternate, the first differing from the starting status. The final status is the last one reported. |
| Fsm.AlternatesFromVacant | core_ai/detector.py:99-103 | Statuses alternating from Vacant are Occupied, Vacant, Occupied, and so on. |
| Fsm.FreshSlotReports | core_ai/detector.py:49-103 | From a fresh slot the reports are Occupied, Vacant, Occupied, and so on, whatever the signals. |
| Geometry.PointPolygonTest | core_ai/detector.py:81 | The containment test answers only +1, 0 or -1. |
| Geometry.EdgePointsAreInside | core_ai/detector.py:81 | Every point on an edge tests 0, so the inclusive `>= 0` test counts it as inside. |
| Geometry.VerticesAreInside | core_ai/detector.py:81 | Every vertex tests 0. |
| Geometry.OutsideBoundingBox | core_ai/detector.py:81 | A point beyond the polygon's bounding box on any side tests -1. |
| Geometry.CrossesIffStraddles | core_ai/detector.py:81 | For a point to the left of every vertex, the ray crosses exactly the edges that straddle its row. |
| Geometry.NoCrossings | core_ai/detector.py:81 | For a point to the right of, above or below every vertex, the ray crosses no edge. |
| Geometry.StraddleCountIsEven | core_ai/detector.py:81 | A closed polygon's edges straddle any row an even number of times. |
| Geometry.PathStraddleParity | core_ai/detector.py:81 | Along an open path of vertices, the straddle count is odd iff the path ends on the other side of the row. |
| Geometry.RectangleInterior | core_ai/detector.py:81 | Every point strictly inside any axis-aligned rectangle tests +1. |
| Geometry.DiamondRayThroughVertex | core_ai/detector.py:81 | A point whose ray passes through a vertex of a diamond still tests +1: the two edges meeting there count once. |
| Geometry.SquareEdgePoint | core_ai/detector.py:81 | For a 10x10 square, an edge midpoint tests 0. |
| Geometry.SquareCentre | core_ai/detector.py:81 | For the same square, the centre tests +1. |
| Geometry.SquareOutside | core_ai/detector.py:81 | For the same square, a point beyond it tests -1. |
| Signal.Centre | core_ai/detector.py:76-78 | The centre is the truncated mean of each coordinate pair and lies within the box. |
| Signal.AnyInside | core_ai/detector.py:75-83 | When the first-match scan is false, no detection's centre passes the inclusive test. Both directions are in AnyInsideIff. |
| Signal.AnyInsideIff | core_ai/detector.py:73-83 | The first-match scan is true iff some detection's centre passes the inclusive test. |
| Signal.OrderAndDuplicatesIrrelevant | core_ai/detector.py:73-83 | Two detection lists with the same elements give the same signal. |
| Signal.SlotSignal | core_ai/detector.py:74-83 | The loop with `break` returns the first-match scan's value, i.e. whether some centre is inside or on the edge. |
| Label.Decimal | core_ai/detector.py:88 | The decimal digits of n are at least one digit, one exactly when n < 10, and at most two when n < 100. |
| Label.NoLeadingZero | core_ai/detector.py:88 | The digits of any n >= 10 do not start with 0. |
| Label.ZeroPad | core_ai/detector.py:88 | Padding keeps a digit string a digit string. |
| Label.ZeroPadShape | core_ai/detector.py:88 | Padding gives exactly max(len, width) characters: zeros, then the original string as the tail. |
| Label.SlotLabel | core_ai/detector.py:88 | A label starts with the wing id and a dash and has at least two more characters. Its partner SlotLabelShape fixes the digits. |
| Label.DecimalRoundTrip | core_ai/detector.py:88 | Reading back the digits of n gives n. |
| Label.ZeroPadKeepsValue | core_ai/detector.py:88 | Zero padding keeps the value the digits denote. |
| Label.SlotLabelShape | core_ai/detector.py:88 | A label is the wing id, a dash, and digits denoting i + 1. There are exactly two when i + 1 < 100. Otherwise there are as many as i + 1 has, with no leading zero. So the label is fixed for every index. |
| Label.SlotLabelInjective | core_ai/detector.py:88 | Distinct slots of a wing have distinct labels. |
| Label.SlotLabelExamples | core_ai/detector.py:88 | Slot 0 of W1 is `W1-01`, slot 11 is `W1-12`. |
| Sampler.Successes | core_ai/detector.py:59-65 | The successfully read frames, in order: at most one per read. |
| Sampler.SampledFrames | core_ai/detector.py:59-69 | The frames handed to inference are never more than the successful reads. Its partner FailedReadsAreSkipped shows they are every third one. |
| Sampler.SampledSnoc | core_ai/detector.py:59-69 | One more read leaves the successes and sampled frames unchanged on failure. On success it appends the frame, and samples it when the new counter is a multiple of 3. |
| Sampler.FailedReadsAreSkipped | core_ai/detector.py:59-69 | The sampled frames are every third successful read: failed reads neither count nor are sampled. |
| Sampler.EveryThirdFromStart | core_ai/detector.py:52-69 | From counter 0, n successes give n / 3 evaluated frames, and the k-th is success 3k + 2 (0-based). |
| Sampler.SampledFromStart | core_ai/detector.py:52-69 | The same, stated directly over the reads, failed ones included. |
| Wing.Signals | core_ai/detector.py:73-83 | One raw signal per polygon. Each is the first-match scan, which `Signal.SlotSignal` computes. |
| Wing.Evaluate | core_ai/detector.py:73-103 | One evaluated frame keeps one state per polygon and leaves the frame counter alone. Its partners are EvaluateOneSlot, EvaluateKeepsWellFormed and `Detector.WingDetector.Evaluate`. |
| Wing.CycleReportsAtMostOnePerSlot | core_ai/detector.py:73-103 | One evaluated frame makes at most one report per slot. |
| Wing.AfterRead | core_ai/detector.py:59-69 | One pass of the main loop keeps one state per polygon. A failed read changes nothing; a successful one advances the counter by one. |
| Wing.AfterReads | core_ai/detector.py:59-103 | The main loop keeps one state per polygon and advances the counter by the number of successful reads. |
| Wing.InitialState | core_ai/detector.py:49-52 | Initially every slot is Vacant with counter 0, one per polygon, and all are valid. |
| Wing.SlotLabelsDistinct | core_ai/detector.py:73-88 | No other slot of a wing shares slot i's label. |
| Wing.CycleReportsNext | core_ai/detector.py:73-103 | (proof helper) Reports so far plus slot i's report are the reports of the first i + 1 slots. |
| Wing.EvaluateKeepsWellFormed | core_ai/detector.py:73-103 | One evaluated frame keeps every slot state valid. |
| Wing.EvaluateParts | core_ai/detector.py:73-103 | (proof helper) A frame's evaluation equals every slot replaced by its step's result, with all slots' reports appended in slot order. |
| Wing.AfterReadsKeepsWellFormed | core_ai/detector.py:59-103 | The main loop keeps every slot state valid, whatever the reads. |
| Wing.EvaluateAll | core_ai/detector.py:69-103 | Evaluating frames keeps the slot count and does not touch the frame counter. |
| Wing.OnlySampledFramesStep | core_ai/detector.py:59-69 | The loop over any reads changes slots and reports exactly as evaluating the sampled frames does. The counter grows by the number of successful reads. |
| Wing.EvaluateAllSnoc | core_ai/detector.py:69-103 | (proof helper) One more evaluated frame is one more `Evaluate`. |
| Wing.AfterReadCases | core_ai/detector.py:60-69 | (proof helper) A failed read changes nothing. A success increments the counter and evaluates when the counter becomes a multiple of 3. |
| Wing.ReportsOfAppend | core_ai/detector.py:103 | Filtering reports by label distributes over concatenation. |
| Wing.ReportsOfSlotReport | core_ai/detector.py:88-103 | A slot's report is filed under its own label only. |
| Wing.ReportsOfSnocReport | core_ai/detector.py:88-103 | Appending a slot's report adds its status under its own label and under no other. |
| Wing.CycleReportsOwn | core_ai/detector.py:73-103 | Slot n - 1 adds exactly its own report under its label. |
| Wing.CycleReportsOther | core_ai/detector.py:73-103 | A slot reports nothing under another slot's label. |
| Wing.CycleReportsUnchanged | core_ai/detector.py:73-103 | Slots not carrying a label add nothing under it. |
| Wing.CycleReportsOfSlot | core_ai/detector.py:73-103 | Within one frame, slot i's label carries exactly slot i's own report. |
| Wing.EvaluateOneSlot | core_ai/detector.py:73-103 | Seen from slot i, evaluating a frame is one step of its own FSM on its own signal, reported under its own label. |
| Wing.SlotSignalsSnoc | core_ai/detector.py:73-83 | (proof helper) A slot's signals over one more frame append that frame's signal. |
| Wing.SlotHistory | core_ai/detector.py:73-98 | After any evaluated frames, slot i's state is that of its own `Run` on its own signals, whatever the other slots do. |
| Wing.SlotReportHistory | core_ai/detector.py:73-103 | The statuses reported under slot i's label are exactly those of its own `Run`. |
| Wing.SlotStateFromStart | core_ai/detector.py:49-103 | From the initial state, after any reads, slot i's state is the `Run` from a fresh slot on its signals in the sampled frames. |
| Wing.WingReportsAlternate | core_ai/detector.py:49-103 | From the initial state, after any reads, the statuses reported for any slot alternate Occupied, Vacant, Occupied, and so on. |
| Detector.WingDetector.constructor | core_ai/detector.py:49-52 | A new detector has one Vacant slot with counter 0 per polygon, counter 0 and no reports. |
| Detector.WingDetector.StepSlot | core_ai/detector.py:86-103 | The in-place update changes only slot i, to its FSM step's state, and keeps the frame counter. It appends a report exactly when the status changed. |
| Detector.WingDetector.Evaluate | core_ai/detector.py:73-103 | The loop over the slots leaves the detector equal to `Wing.Evaluate` of its previous state. |
| Detector.WingDetector.OnFrame | core_ai/detector.py:60-69 | One pass of the main loop leaves the detector equal to `Wing.AfterRead` of its previous state. |
| Detector.WingDetector.Run | core_ai/detector.py:59-103 | The main loop over a sequence of reads leaves the detector equal to `Wing.AfterReads` of its previous state. |

## Left out

- YOLO inference (lines 38-40, 70-71) is not modelled. Each successfully read frame arrives as its list of detections.
- Video capture is not modelled: opening the capture, `cap.isOpened`, `cv2.resize`, and the frame size constants. A read is either a failure or a decoded frame.
- The rewind on a failed read (line 62) is left out because the capture position is not modelled. A failed read changes no modelled state.
- The `q` key and `cv2.imshow` / `cv2.waitKey` (lines 116-120) are left out as user-interface I/O. The model covers any finite prefix of the loop.
- Drawing of the slot outlines and numbers (lines 105-114) is left out. It only reads the slot states.
- Console `print` calls are left out as I/O.
- The database client `backend/database.py` is not part of this model. Each `update_slot_status` call is recorded as a `Report` appended to a sequence.
- The guarded import of `update_slot_status` (core_ai/detector.py:13-18) is assumed to succeed. If it fails, the program only prints a warning. The first confirmed status change then raises NameError at line 103 and ends the process. The model does not capture this: `Detector.WingDetector.StepSlot` and `Detector.WingDetector.Run` assume every call at line 103 succeeds.
- Geometry.PointPolygonTest: OpenCV's own implementation is not part of this model. The model uses integer ray casting with the boundary counted as 0, which agrees with OpenCV on integer points for simple polygons. It is not proved against OpenCV's code.
- Signal.Centre: box coordinates are natural numbers, not floats, so `int((a + b) / 2)` is integer division. Confidence and class are not used by the slot test and are dropped.
- Command-line parsing, the pickle file loading the polygons, and the model weights are left out. The wing id and the polygons are parameters.
- `core_ai/main.py`, `core_ai/picker.py`, `core_ai/manager.py`, `run_all.py`, `history.py` and `convert.py` are separate programs and are not part of this model.
