/** What one wing's detector process does to its slot states and its reports,
    frame by frame (core_ai/detector.py, lines 49-103), as functions on values.
    The WingDetector class in module Detector runs the same steps in place and
    is proved against these functions. */
module Wing {
  import opened Fsm
  import opened Geometry
  import opened Signal
  import opened Label
  import opened Sampler

  /** One call `update_slot_status(W_ID, slot_label, status)`. */
  datatype Report = Report(wing: string, slotLabel: string, status: Status)

  /** The slot states (one per polygon, in the configured order), the frame
      counter, and the reports made so far. */
  datatype WingState = WingState(slots: seq<SlotState>, frameCounter: nat, reports: seq<Report>)

  /** A read of the video; a decoded frame is represented by the detections
      inference returns for it. */
  type Frame = Read<seq<Box>>

  /** One state per polygon, each within its clamps and consistent with its status. */
  predicate WellFormed(polygons: seq<Polygon>, ws: WingState) {
    |ws.slots| == |polygons| && forall i :: 0 <= i < |ws.slots| ==> Fsm.Valid(ws.slots[i])
  }

  /** Before the first frame: every slot Vacant with counter 0, nothing counted or reported. */
  function InitialState(polygons: seq<Polygon>): (ws: WingState)
    ensures WellFormed(polygons, ws)
    ensures forall i :: 0 <= i < |ws.slots| ==> ws.slots[i] == Fsm.Initial
  {
    WingState(seq(|polygons|, _ => Fsm.Initial), 0, [])
  }

  /** The raw signal of every slot for one evaluated frame. */
  function Signals(polygons: seq<Polygon>, detections: seq<Box>): (r: seq<bool>)
    ensures |r| == |polygons|
  {
    seq(|polygons|, i requires 0 <= i < |polygons| => AnyInside(polygons[i], detections))
  }

  /** Every slot stepped with its own signal. */
  function StepSlots(slots: seq<SlotState>, signals: seq<bool>): seq<SlotState>
    requires |slots| == |signals|
  {
    seq(|slots|, i requires 0 <= i < |slots| => Step(slots[i], signals[i]).state)
  }

  /** The outcome of every slot's step. */
  function Outcomes(slots: seq<SlotState>, signals: seq<bool>): (r: seq<StepOutcome>)
    requires |slots| == |signals|
    ensures |r| == |slots|
  {
    seq(|slots|, i requires 0 <= i < |slots| => Step(slots[i], signals[i]))
  }

  /** The labels of the first `n` slots of a wing, in slot order. */
  function SlotLabels(wing: string, n: nat): seq<string> {
    seq(n, i requires 0 <= i < n => SlotLabel(wing, i))
  }

  /** No other slot of a wing shares slot `i`'s label. */
  lemma SlotLabelsDistinct(wing: string, n: nat, i: nat)
    requires i < n
    ensures forall k :: 0 <= k < n && k != i ==> SlotLabels(wing, n)[k] != SlotLabels(wing, n)[i]
  {
    forall k | 0 <= k < n && k != i
      ensures SlotLabels(wing, n)[k] != SlotLabels(wing, n)[i]
    {
      if SlotLabel(wing, k) == SlotLabel(wing, i) {
        SlotLabelInjective(wing, k, i);
      }
    }
  }

  /** The report one slot's step makes, if its status changed. */
  function SlotReport(wing: string, slotLabel: string, o: StepOutcome): seq<Report> {
    if o.changed then [Report(wing, slotLabel, o.state.status)] else []
  }

  /** The reports of the first `n` slots' steps, in slot order. */
  function CycleReports(wing: string, labels: seq<string>, outcomes: seq<StepOutcome>, n: nat): (r: seq<Report>)
    requires n <= |outcomes| == |labels|
  {
    if n == 0 then []
    else CycleReports(wing, labels, outcomes, n - 1) + SlotReport(wing, labels[n - 1], outcomes[n - 1])
  }

  /** Each slot reports at most once per evaluated frame. */
  lemma {:induction false} CycleReportsAtMostOnePerSlot(wing: string, labels: seq<string>, outcomes: seq<StepOutcome>, n: nat)
    requires n <= |outcomes| == |labels|
    ensures |CycleReports(wing, labels, outcomes, n)| <= n
  {
    if n > 0 {
      CycleReportsAtMostOnePerSlot(wing, labels, outcomes, n - 1);
    }
  }

  /** Reports made so far, extended by slot `i`'s, are those of the first `i + 1` slots. */
  lemma CycleReportsNext(wing: string, labels: seq<string>, outcomes: seq<StepOutcome>, i: nat, prior: seq<Report>, now: seq<Report>)
    requires i < |outcomes| == |labels|
    requires now == prior + CycleReports(wing, labels, outcomes, i) + SlotReport(wing, labels[i], outcomes[i])
    ensures now == prior + CycleReports(wing, labels, outcomes, i + 1)
  {
  }

  /** One evaluated frame: every slot is stepped, reports are appended in slot order. */
  function Evaluate(wing: string, polygons: seq<Polygon>, ws: WingState, detections: seq<Box>): (r: WingState)
    requires |ws.slots| == |polygons|
    ensures |r.slots| == |polygons| && r.frameCounter == ws.frameCounter
  {
    var signals := Signals(polygons, detections);
    WingState(StepSlots(ws.slots, signals), ws.frameCounter, ws.reports + CycleReports(wing, SlotLabels(wing, |ws.slots|), Outcomes(ws.slots, signals), |ws.slots|))
  }

  /** Every slot state stays within its clamps and consistent with its status. */
  lemma EvaluateKeepsWellFormed(wing: string, polygons: seq<Polygon>, ws: WingState, detections: seq<Box>)
    requires WellFormed(polygons, ws)
    ensures WellFormed(polygons, Evaluate(wing, polygons, ws, detections))
  {
  }

  /** An evaluation assembled from its parts: every slot replaced by its step's
      new state, and the reports of all slots' steps appended. */
  lemma EvaluateParts(wing: string, polygons: seq<Polygon>, ws: WingState, detections: seq<Box>, slots: seq<SlotState>, reports: seq<Report>)
    requires |ws.slots| == |polygons| == |slots|
    requires forall j :: 0 <= j < |slots| ==> slots[j] == Outcomes(ws.slots, Signals(polygons, detections))[j].state
    requires reports == ws.reports + CycleReports(wing, SlotLabels(wing, |ws.slots|), Outcomes(ws.slots, Signals(polygons, detections)), |ws.slots|)
    ensures WingState(slots, ws.frameCounter, reports) == Evaluate(wing, polygons, ws, detections)
  {
    assert slots == StepSlots(ws.slots, Signals(polygons, detections));
  }

  /** One pass of the main loop. */
  function AfterRead(wing: string, polygons: seq<Polygon>, ws: WingState, read: Frame): (r: WingState)
    requires |ws.slots| == |polygons|
    ensures |r.slots| == |polygons|
    ensures r.frameCounter == if read.ReadFailed? then ws.frameCounter else ws.frameCounter + 1
    ensures read.ReadFailed? ==> r == ws
  {
    match read
    case ReadFailed => ws
    case Decoded(detections) =>
      var counted := ws.(frameCounter := ws.frameCounter + 1);
      if counted.frameCounter % SampleEvery == 0 then Evaluate(wing, polygons, counted, detections) else counted
  }

  /** The main loop over a sequence of reads. */
  function AfterReads(wing: string, polygons: seq<Polygon>, ws: WingState, attempts: seq<Frame>): (r: WingState)
    requires |ws.slots| == |polygons|
    ensures |r.slots| == |polygons|
    ensures r.frameCounter == ws.frameCounter + |Successes(attempts)|
  {
    if attempts == [] then ws
    else AfterRead(wing, polygons, AfterReads(wing, polygons, ws, attempts[..|attempts| - 1]), attempts[|attempts| - 1])
  }

  /** The main loop keeps every slot state well formed, whatever the reads. */
  lemma {:induction false} AfterReadsKeepsWellFormed(wing: string, polygons: seq<Polygon>, ws: WingState, attempts: seq<Frame>)
    requires WellFormed(polygons, ws)
    ensures WellFormed(polygons, AfterReads(wing, polygons, ws, attempts))
  {
    if attempts != [] {
      var prior := AfterReads(wing, polygons, ws, attempts[..|attempts| - 1]);
      AfterReadsKeepsWellFormed(wing, polygons, ws, attempts[..|attempts| - 1]);
      match attempts[|attempts| - 1]
      case ReadFailed =>
      case Decoded(d) =>
        EvaluateKeepsWellFormed(wing, polygons, prior.(frameCounter := prior.frameCounter + 1), d);
    }
  }

  /** Evaluating a sequence of frames, one after the other. */
  function EvaluateAll(wing: string, polygons: seq<Polygon>, ws: WingState, evaluated: seq<seq<Box>>): (r: WingState)
    requires |ws.slots| == |polygons|
    ensures |r.slots| == |polygons| && r.frameCounter == ws.frameCounter
  {
    if evaluated == [] then ws
    else Evaluate(wing, polygons, EvaluateAll(wing, polygons, ws, evaluated[..|evaluated| - 1]), evaluated[|evaluated| - 1])
  }

  /** The main loop changes the slots and reports exactly as evaluating the
      sampled frames does: failed reads and unsampled frames leave them alone,
      and the frame counter advances by the number of successful reads. */
  lemma {:induction false} OnlySampledFramesStep(wing: string, polygons: seq<Polygon>, ws: WingState, attempts: seq<Frame>)
    requires |ws.slots| == |polygons|
    ensures AfterReads(wing, polygons, ws, attempts) ==
      EvaluateAll(wing, polygons, ws, SampledFrames(attempts, ws.frameCounter))
        .(frameCounter := ws.frameCounter + |Successes(attempts)|)
  {
    if attempts != [] {
      var prior, last := attempts[..|attempts| - 1], attempts[|attempts| - 1];
      OnlySampledFramesStep(wing, polygons, ws, prior);
      var sampled := SampledFrames(prior, ws.frameCounter);
      var done := EvaluateAll(wing, polygons, ws, sampled);
      var counter := ws.frameCounter + |Successes(prior)|;
      assert AfterReads(wing, polygons, ws, attempts) == AfterRead(wing, polygons, done.(frameCounter := counter), last);
      AfterReadCases(wing, polygons, done, counter, last);
      SampledSnoc(attempts, ws.frameCounter);
      match last
      case ReadFailed =>
        assert SampledFrames(attempts, ws.frameCounter) == sampled;
        assert |Successes(attempts)| == |Successes(prior)|;
      case Decoded(d) =>
        assert |Successes(attempts)| == |Successes(prior)| + 1;
        if (counter + 1) % SampleEvery == 0 {
          assert SampledFrames(attempts, ws.frameCounter) == sampled + [d];
          EvaluateAllSnoc(wing, polygons, ws, sampled, d);
        } else {
          assert SampledFrames(attempts, ws.frameCounter) == sampled;
        }
    }
  }

  lemma EvaluateAllSnoc(wing: string, polygons: seq<Polygon>, ws: WingState, evaluated: seq<seq<Box>>, detections: seq<Box>)
    requires |ws.slots| == |polygons|
    ensures EvaluateAll(wing, polygons, ws, evaluated + [detections]) ==
      Evaluate(wing, polygons, EvaluateAll(wing, polygons, ws, evaluated), detections)
  {
    assert (evaluated + [detections])[..|evaluated|] == evaluated;
  }

  /** One pass of the main loop, case by case, on a state whose counter is `counter`. */
  lemma AfterReadCases(wing: string, polygons: seq<Polygon>, ws: WingState, counter: nat, read: Frame)
    requires |ws.slots| == |polygons|
    ensures AfterRead(wing, polygons, ws.(frameCounter := counter), read) ==
      match read
      case ReadFailed => ws.(frameCounter := counter)
      case Decoded(d) =>
        if (counter + 1) % SampleEvery == 0 then Evaluate(wing, polygons, ws, d).(frameCounter := counter + 1)
        else ws.(frameCounter := counter + 1)
  {
  }

  /** The statuses reported for one label, in order. */
  function ReportsOf(reports: seq<Report>, slotLabel: string): seq<Status> {
    if reports == [] then []
    else
      var last := reports[|reports| - 1];
      ReportsOf(reports[..|reports| - 1], slotLabel) + if last.slotLabel == slotLabel then [last.status] else []
  }

  lemma {:induction false} ReportsOfAppend(a: seq<Report>, b: seq<Report>, slotLabel: string)
    ensures ReportsOf(a + b, slotLabel) == ReportsOf(a, slotLabel) + ReportsOf(b, slotLabel)
    decreases |b|
  {
    if b == [] {
      assert a + b == a;
    } else {
      assert (a + b)[..|a + b| - 1] == a + b[..|b| - 1];
      ReportsOfAppend(a, b[..|b| - 1], slotLabel);
    }
  }

  /** A slot's own report is filed under its label and no other. */
  lemma ReportsOfSlotReport(wing: string, slotLabel: string, o: StepOutcome, target: string)
    ensures ReportsOf(SlotReport(wing, slotLabel, o), target) == if slotLabel == target then Reported(o) else []
  {
    if o.changed {
      assert SlotReport(wing, slotLabel, o)[..0] == [];
    }
  }

  /** Appending one slot's report adds its status under its own label only. */
  lemma ReportsOfSnocReport(prev: seq<Report>, wing: string, slotLabel: string, o: StepOutcome, target: string)
    ensures ReportsOf(prev + SlotReport(wing, slotLabel, o), target) ==
      ReportsOf(prev, target) + if slotLabel == target then Reported(o) else []
  {
    ReportsOfAppend(prev, SlotReport(wing, slotLabel, o), target);
    ReportsOfSlotReport(wing, slotLabel, o, target);
  }

  lemma CycleReportsOwn(wing: string, labels: seq<string>, outcomes: seq<StepOutcome>, n: nat)
    requires 0 < n <= |outcomes| == |labels|
    requires ReportsOf(CycleReports(wing, labels, outcomes, n - 1), labels[n - 1]) == []
    ensures ReportsOf(CycleReports(wing, labels, outcomes, n), labels[n - 1]) == Reported(outcomes[n - 1])
  {
    ReportsOfSnocReport(CycleReports(wing, labels, outcomes, n - 1), wing, labels[n - 1], outcomes[n - 1], labels[n - 1]);
  }

  lemma CycleReportsOther(wing: string, labels: seq<string>, outcomes: seq<StepOutcome>, n: nat, target: string)
    requires 0 < n <= |outcomes| == |labels| && labels[n - 1] != target
    ensures ReportsOf(CycleReports(wing, labels, outcomes, n), target) == ReportsOf(CycleReports(wing, labels, outcomes, n - 1), target)
  {
    ReportsOfSnocReport(CycleReports(wing, labels, outcomes, n - 1), wing, labels[n - 1], outcomes[n - 1], target);
  }

  /** Slots `m` to `n - 1` report nothing under a label none of them carries. */
  lemma {:induction false} CycleReportsUnchanged(wing: string, labels: seq<string>, outcomes: seq<StepOutcome>, m: nat, n: nat, target: string)
    requires m <= n <= |outcomes| == |labels|
    requires forall k :: m <= k < n ==> labels[k] != target
    ensures ReportsOf(CycleReports(wing, labels, outcomes, n), target) == ReportsOf(CycleReports(wing, labels, outcomes, m), target)
  {
    if m < n {
      CycleReportsUnchanged(wing, labels, outcomes, m, n - 1, target);
      CycleReportsOther(wing, labels, outcomes, n, target);
    }
  }

  /** Within one evaluated frame, slot `i`'s label carries exactly the report of
      slot `i`'s own step: as labels are distinct, no other slot reports under it. */
  lemma CycleReportsOfSlot(wing: string, labels: seq<string>, outcomes: seq<StepOutcome>, n: nat, i: nat)
    requires i < n <= |outcomes| == |labels|
    requires forall k :: 0 <= k < |labels| && k != i ==> labels[k] != labels[i]
    ensures ReportsOf(CycleReports(wing, labels, outcomes, n), labels[i]) == Reported(outcomes[i])
  {
    CycleReportsUnchanged(wing, labels, outcomes, 0, i, labels[i]);
    CycleReportsOwn(wing, labels, outcomes, i + 1);
    CycleReportsUnchanged(wing, labels, outcomes, i + 1, n, labels[i]);
  }

  /** Slot `i`'s raw signals over a sequence of evaluated frames. */
  function SlotSignals(poly: Polygon, evaluated: seq<seq<Box>>): seq<bool> {
    seq(|evaluated|, k requires 0 <= k < |evaluated| => AnyInside(poly, evaluated[k]))
  }

  /** Seen from slot `i`, evaluating one frame is one step of its own FSM,
      reported under its own label. */
  lemma EvaluateOneSlot(wing: string, polygons: seq<Polygon>, ws: WingState, detections: seq<Box>, i: nat)
    requires |ws.slots| == |polygons| && i < |polygons|
    ensures Evaluate(wing, polygons, ws, detections).slots[i] == Step(ws.slots[i], AnyInside(polygons[i], detections)).state
    ensures ReportsOf(Evaluate(wing, polygons, ws, detections).reports, SlotLabel(wing, i)) ==
      ReportsOf(ws.reports, SlotLabel(wing, i)) + Reported(Step(ws.slots[i], AnyInside(polygons[i], detections)))
  {
    var signals := Signals(polygons, detections);
    var labels := SlotLabels(wing, |polygons|);
    var outcomes := Outcomes(ws.slots, signals);
    var cycle := CycleReports(wing, labels, outcomes, |ws.slots|);
    SlotLabelsDistinct(wing, |polygons|, i);
    assert labels[i] == SlotLabel(wing, i);
    ReportsOfAppend(ws.reports, cycle, labels[i]);
    CycleReportsOfSlot(wing, labels, outcomes, |ws.slots|, i);
    assert outcomes[i] == Step(ws.slots[i], AnyInside(polygons[i], detections));
  }

  /** A slot's signals over one more evaluated frame. */
  lemma SlotSignalsSnoc(poly: Polygon, evaluated: seq<seq<Box>>)
    requires evaluated != []
    ensures SlotSignals(poly, evaluated) ==
      SlotSignals(poly, evaluated[..|evaluated| - 1]) + [AnyInside(poly, evaluated[|evaluated| - 1])]
  {
  }

  /** Seen from one slot, evaluating frames is running that slot's FSM on its
      own signals: its final state is that of `Run`, whatever the other slots do. */
  lemma {:induction false} SlotHistory(wing: string, polygons: seq<Polygon>, ws: WingState, evaluated: seq<seq<Box>>, i: nat)
    requires |ws.slots| == |polygons| && i < |polygons|
    ensures EvaluateAll(wing, polygons, ws, evaluated).slots[i] == Run(ws.slots[i], SlotSignals(polygons[i], evaluated)).final
  {
    if evaluated != [] {
      var prior, d := evaluated[..|evaluated| - 1], evaluated[|evaluated| - 1];
      SlotHistory(wing, polygons, ws, prior, i);
      EvaluateOneSlot(wing, polygons, EvaluateAll(wing, polygons, ws, prior), d, i);
      SlotSignalsSnoc(polygons[i], evaluated);
      RunSnoc(ws.slots[i], SlotSignals(polygons[i], prior), AnyInside(polygons[i], d));
    }
  }

  /** ... and the statuses reported under its label are those `Run` reports. */
  lemma {:induction false} SlotReportHistory(wing: string, polygons: seq<Polygon>, ws: WingState, evaluated: seq<seq<Box>>, i: nat)
    requires |ws.slots| == |polygons| && i < |polygons|
    ensures ReportsOf(EvaluateAll(wing, polygons, ws, evaluated).reports, SlotLabel(wing, i)) ==
      ReportsOf(ws.reports, SlotLabel(wing, i)) + Run(ws.slots[i], SlotSignals(polygons[i], evaluated)).reports
  {
    if evaluated != [] {
      var prior, d := evaluated[..|evaluated| - 1], evaluated[|evaluated| - 1];
      var before := EvaluateAll(wing, polygons, ws, prior);
      var run := Run(ws.slots[i], SlotSignals(polygons[i], prior));
      var signal := AnyInside(polygons[i], d);
      SlotReportHistory(wing, polygons, ws, prior, i);
      SlotHistory(wing, polygons, ws, prior, i);
      EvaluateOneSlot(wing, polygons, before, d, i);
      SlotSignalsSnoc(polygons[i], evaluated);
      RunSnoc(ws.slots[i], SlotSignals(polygons[i], prior), signal);
      var earlier := ReportsOf(ws.reports, SlotLabel(wing, i));
      var last := Reported(Step(run.final, signal));
      assert (earlier + run.reports) + last == earlier + (run.reports + last);
    }
  }

  /** From the initial state, whatever the reads, each slot's state is that
      of its own FSM run, from a fresh slot, on its signals in the sampled frames. */
  lemma SlotStateFromStart(wing: string, polygons: seq<Polygon>, attempts: seq<Frame>, i: nat)
    requires i < |polygons|
    ensures AfterReads(wing, polygons, InitialState(polygons), attempts).slots[i] ==
      Run(Fsm.Initial, SlotSignals(polygons[i], SampledFrames(attempts, 0))).final
  {
    OnlySampledFramesStep(wing, polygons, InitialState(polygons), attempts);
    SlotHistory(wing, polygons, InitialState(polygons), SampledFrames(attempts, 0), i);
  }

  /** From the initial state, whatever the reads, the statuses reported for any
      one slot alternate Occupied, Vacant, Occupied, ... */
  lemma WingReportsAlternate(wing: string, polygons: seq<Polygon>, attempts: seq<Frame>, i: nat)
    requires i < |polygons|
    ensures var rs := ReportsOf(AfterReads(wing, polygons, InitialState(polygons), attempts).reports, SlotLabel(wing, i));
      forall k :: 0 <= k < |rs| ==> rs[k] == if k % 2 == 0 then Occupied else Vacant
  {
    var ws := InitialState(polygons);
    var evaluated := SampledFrames(attempts, 0);
    var signals := SlotSignals(polygons[i], evaluated);
    var slotLabel := SlotLabel(wing, i);
    OnlySampledFramesStep(wing, polygons, ws, attempts);
    assert AfterReads(wing, polygons, ws, attempts).reports == EvaluateAll(wing, polygons, ws, evaluated).reports;
    SlotReportHistory(wing, polygons, ws, evaluated, i);
    assert ws.slots[i] == Fsm.Initial && ReportsOf(ws.reports, slotLabel) == [];
    assert ReportsOf(AfterReads(wing, polygons, ws, attempts).reports, slotLabel) == Run(Fsm.Initial, signals).reports;
    FreshSlotReports(signals);
  }
}
