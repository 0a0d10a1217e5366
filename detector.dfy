/** One wing's detector process (core_ai/detector.py, lines 49-103), in place:
    the slot states live in an array updated slot by slot, the frame counter is
    a field, and every `update_slot_status` call is appended to `reports`.
    Each method is proved against the value-level functions of module Wing. */
module Detector {
  import opened Fsm
  import opened Geometry
  import opened Signal
  import opened Label
  import opened Sampler
  import opened Wing

  class WingDetector {
    /** The wing id, e.g. "W1". */
    const wing: string
    /** The slot polygons, in configured order. */
    const polygons: seq<Polygon>
    /** `slot_states`: one entry per polygon. */
    const states: array<SlotState>
    /** `frame_counter`: successful reads so far. */
    var frameCounter: nat
    /** The `update_slot_status` calls made so far, in order. */
    var reports: seq<Report>

    /** The detector's state as a value. */
    ghost function Abstract(): WingState
      reads this, states
    {
      WingState(states[..], frameCounter, reports)
    }

    /** One state per polygon, each within its clamps and consistent with its status. */
    ghost predicate Valid()
      reads this, states
    {
      WellFormed(polygons, Abstract())
    }

    /** Loads the polygons and starts every slot Vacant with counter 0. */
    constructor (wing: string, polygons: seq<Polygon>)
      ensures this.wing == wing && this.polygons == polygons && fresh(states)
      ensures Valid()
      ensures Abstract() == InitialState(polygons)
    {
      this.wing := wing;
      this.polygons := polygons;
      states := new SlotState[|polygons|](_ => Fsm.Initial);
      frameCounter := 0;
      reports := [];
    }

    /** The FSM update of slot `i` with raw signal `occupied`, followed by the
        database update when the confirmed status changed. */
    method StepSlot(i: nat, occupied: bool)
      requires Valid() && i < states.Length
      modifies states, this
      ensures Valid()
      ensures states[..] == old(states[..])[i := Step(old(states[i]), occupied).state]
      ensures frameCounter == old(frameCounter)
      ensures reports == old(reports) + SlotReport(wing, SlotLabel(wing, i), Step(old(states[i]), occupied))
    {
      var oldStatus := states[i].status;
      var slotLabel := SlotLabel(wing, i);
      var count, status := states[i].count, states[i].status;
      if occupied {
        count := Min(count + 1, FramesToOccupy);
        if count >= FramesToOccupy {
          status := Occupied;
        }
      } else {
        count := Max(count - 1, -FramesToVacate);
        if count <= -FramesToVacate {
          status := Vacant;
        }
      }
      states[i] := SlotState(count, status);
      if oldStatus != status {
        reports := reports + [Report(wing, slotLabel, status)];
      }
    }

    /** One evaluated frame: for each slot in order, scan the detections for a
        centre inside its polygon, then step its FSM. */
    method Evaluate(detections: seq<Box>)
      requires Valid()
      modifies states, this
      ensures Valid()
      ensures Abstract() == Wing.Evaluate(wing, polygons, old(Abstract()), detections)
    {
      ghost var before := states[..];
      ghost var signals := Signals(polygons, detections);
      ghost var labels := SlotLabels(wing, |before|);
      ghost var outcomes := Outcomes(before, signals);
      var i := 0;
      while i < |polygons|
        invariant 0 <= i <= |polygons| && Valid()
        invariant frameCounter == old(frameCounter)
        invariant forall j :: 0 <= j < |before| ==> states[j] == if j < i then outcomes[j].state else before[j]
        invariant reports == old(reports) + CycleReports(wing, labels, outcomes, i)
      {
        var occupied := SlotSignal(polygons[i], detections);
        assert labels[i] == SlotLabel(wing, i) && signals[i] == occupied && states[i] == before[i];
        assert outcomes[i] == Step(before[i], signals[i]);
        StepSlot(i, occupied);
        CycleReportsNext(wing, labels, outcomes, i, old(reports), reports);
        i := i + 1;
      }
      EvaluateParts(wing, polygons, old(Abstract()), detections, states[..], reports);
    }

    /** One pass of the main loop: a failed read changes nothing (the video is
        rewound); a successful one is counted and, every third, evaluated. */
    method OnFrame(read: Frame)
      requires Valid()
      modifies states, this
      ensures Valid()
      ensures Abstract() == AfterRead(wing, polygons, old(Abstract()), read)
    {
      match read
      case ReadFailed =>
      case Decoded(detections) =>
        frameCounter := frameCounter + 1;
        if frameCounter % SampleEvery == 0 {
          Evaluate(detections);
        }
    }

    /** The main loop over a sequence of reads. */
    method Run(attempts: seq<Frame>)
      requires Valid()
      modifies states, this
      ensures Valid()
      ensures Abstract() == AfterReads(wing, polygons, old(Abstract()), attempts)
    {
      var k := 0;
      while k < |attempts|
        invariant 0 <= k <= |attempts| && Valid()
        invariant Abstract() == AfterReads(wing, polygons, old(Abstract()), attempts[..k])
      {
        OnFrame(attempts[k]);
        assert attempts[..k + 1][..k] == attempts[..k];
        k := k + 1;
      }
      assert attempts[..|attempts|] == attempts;
    }
  }
}
