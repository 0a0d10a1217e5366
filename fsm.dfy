/** The per-slot hysteresis state machine of the wing detector
    (core_ai/detector.py, lines 34-35, 49 and 86-103).

    Each slot keeps a counter and a confirmed status. A positive signal moves the
    counter up, a negative one down; each direction is clamped, and the confirmed
    status flips only when the matching clamp is reached. The counter is not reset
    on confirmation, so leaving a long-held status takes a full opposite run from
    the clamp. */
module Fsm {

  /** Positive evaluations that confirm Occupied from a counter of 0. */
  const FramesToOccupy: int := 5
  /** Negative evaluations that confirm Vacant from a counter of 0. */
  const FramesToVacate: int := 30

  datatype Status = Vacant | Occupied

  datatype SlotState = SlotState(count: int, status: Status)

  /** One evaluation: the new state and whether the confirmed status changed,
      i.e. whether a report to the database is due. */
  datatype StepOutcome = StepOutcome(state: SlotState, changed: bool)

  /** A run of evaluations: the final state and the statuses reported, in order. */
  datatype RunOutcome = RunOutcome(final: SlotState, reports: seq<Status>)

  /** Every slot starts with counter 0 and status Vacant. */
  const Initial: SlotState := SlotState(0, Vacant)

  /** The counter's clamp in the direction of a signal. */
  function Clamp(occupied: bool): int {
    if occupied then FramesToOccupy else -FramesToVacate
  }

  /** The status a signal confirms once its clamp is reached. */
  function Confirms(occupied: bool): Status {
    if occupied then Occupied else Vacant
  }

  predicate InRange(count: int) {
    -FramesToVacate <= count <= FramesToOccupy
  }

  /** The reachable states: the counter is within its clamps, and a counter at
      a clamp goes with the status that clamp confirms. */
  predicate Valid(s: SlotState) {
    InRange(s.count)
    && (s.count == FramesToOccupy ==> s.status == Occupied)
    && (s.count == -FramesToVacate ==> s.status == Vacant)
  }

  /** One FSM evaluation of a slot with raw signal `occupied`. */
  function Step(s: SlotState, occupied: bool): (r: StepOutcome)
    // the counter stays within its clamps and moves in the signal's direction
    ensures InRange(s.count) ==> InRange(r.state.count)
    ensures occupied ==> r.state.count <= FramesToOccupy
    ensures !occupied ==> -FramesToVacate <= r.state.count
    ensures InRange(s.count) && occupied ==> s.count <= r.state.count <= s.count + 1
    ensures InRange(s.count) && !occupied ==> s.count - 1 <= r.state.count <= s.count
    ensures InRange(s.count) ==> (r.state.count == s.count <==> s.count == Clamp(occupied))
    // the status is confirmed exactly when the signal's clamp is reached
    ensures r.state.count == Clamp(occupied) ==> r.state.status == Confirms(occupied)
    ensures r.state.count != Clamp(occupied) ==> r.state.status == s.status
    // a report is due exactly when the status differs from before the step,
    // and then it reports the status the signal confirms
    ensures r.changed <==> r.state.status != s.status
    ensures r.changed ==> r.state.status == Confirms(occupied) && r.state.count == Clamp(occupied)
    ensures Valid(s) ==> Valid(r.state)
    // repeating a signal at its clamp changes nothing and reports nothing
    ensures Valid(s) && s.count == Clamp(occupied) ==> r == StepOutcome(s, false)
  {
    if occupied then
      var count := Min(s.count + 1, FramesToOccupy);
      var status := if count >= FramesToOccupy then Occupied else s.status;
      StepOutcome(SlotState(count, status), status != s.status)
    else
      var count := Max(s.count - 1, -FramesToVacate);
      var status := if count <= -FramesToVacate then Vacant else s.status;
      StepOutcome(SlotState(count, status), status != s.status)
  }

  function Min(a: int, b: int): int { if a <= b then a else b }

  function Max(a: int, b: int): int { if a >= b then a else b }

  /** The statuses a step reports: one when the status changed, none otherwise. */
  function Reported(o: StepOutcome): seq<Status> {
    if o.changed then [o.state.status] else []
  }

  /** Evaluates a slot on a sequence of raw signals, in order. */
  function Run(s: SlotState, signals: seq<bool>): (r: RunOutcome)
    ensures Valid(s) ==> Valid(r.final)
    ensures |r.reports| <= |signals|
    decreases |signals|
  {
    if signals == [] then RunOutcome(s, [])
    else
      var prev := Run(s, signals[..|signals| - 1]);
      var o := Step(prev.final, signals[|signals| - 1]);
      RunOutcome(o.state, prev.reports + Reported(o))
  }

  /** One more signal is one more step. */
  lemma RunSnoc(s: SlotState, signals: seq<bool>, occupied: bool)
    ensures Run(s, signals + [occupied]) ==
      var prev := Run(s, signals);
      var o := Step(prev.final, occupied);
      RunOutcome(o.state, prev.reports + Reported(o))
  {
    assert (signals + [occupied])[..|signals|] == signals;
  }

  /** `n` raw signals, all equal to `b`. */
  function Repeat(b: bool, n: nat): seq<bool> {
    seq(n, _ => b)
  }

  /** `n` repetitions of the pair `true, false`. */
  function Alternating(n: nat): seq<bool> {
    if n == 0 then [] else Alternating(n - 1) + [true, false]
  }

  /** Each reported status differs from the one before it, the first from `first`. */
  predicate Alternates(first: Status, reports: seq<Status>) {
    (|reports| > 0 ==> reports[0] != first)
    && forall k :: 0 < k < |reports| ==> reports[k] != reports[k - 1]
  }

  /** Evaluating a concatenation is evaluating its halves one after the other. */
  lemma {:induction false} RunAppend(s: SlotState, a: seq<bool>, b: seq<bool>)
    ensures Run(s, a + b).final == Run(Run(s, a).final, b).final
    ensures Run(s, a + b).reports == Run(s, a).reports + Run(Run(s, a).final, b).reports
    decreases |b|
  {
    if b == [] {
      assert a + b == a;
    } else {
      var b' := b[..|b| - 1];
      assert (a + b)[..|a + b| - 1] == a + b';
      assert (a + b)[|a + b| - 1] == b[|b| - 1];
      RunAppend(s, a, b');
    }
  }

  /** A run of positive signals from a valid state: the counter climbs one per
      signal, the status is unchanged and nothing is reported until exactly
      `FramesToOccupy - count` signals have been seen; then the slot is Occupied,
      reported once if it was Vacant, and further positives change nothing. */
  lemma {:induction false} PositiveRun(s: SlotState, k: nat)
    requires Valid(s)
    ensures Run(s, Repeat(true, k)) ==
      if k < FramesToOccupy - s.count then RunOutcome(SlotState(s.count + k, s.status), [])
      else RunOutcome(SlotState(FramesToOccupy, Occupied), if s.status == Vacant then [Occupied] else [])
  {
    if k > 0 {
      assert Repeat(true, k)[..k - 1] == Repeat(true, k - 1);
      PositiveRun(s, k - 1);
    }
  }

  /** A run of negative signals from a valid state: exactly
      `count + FramesToVacate` of them confirm Vacant. */
  lemma {:induction false} NegativeRun(s: SlotState, k: nat)
    requires Valid(s)
    ensures Run(s, Repeat(false, k)) ==
      if k < s.count + FramesToVacate then RunOutcome(SlotState(s.count - k, s.status), [])
      else RunOutcome(SlotState(-FramesToVacate, Vacant), if s.status == Occupied then [Vacant] else [])
  {
    if k > 0 {
      assert Repeat(false, k)[..k - 1] == Repeat(false, k - 1);
      NegativeRun(s, k - 1);
    }
  }

  /** A fresh slot is confirmed Occupied by exactly five positive evaluations,
      reported once on the fifth; a sixth changes and reports nothing. */
  lemma FreshSlotOccupiesAfterFive()
    ensures Run(Initial, Repeat(true, 4)) == RunOutcome(SlotState(4, Vacant), [])
    ensures Run(Initial, Repeat(true, 5)) == RunOutcome(SlotState(FramesToOccupy, Occupied), [Occupied])
    ensures Run(Initial, Repeat(true, 6)) == RunOutcome(SlotState(FramesToOccupy, Occupied), [Occupied])
  {
    PositiveRun(Initial, 4);
    PositiveRun(Initial, 5);
    PositiveRun(Initial, 6);
  }

  /** A slot held Occupied (counter at its clamp of 5) needs 35 negative
      evaluations, not 30, to be confirmed Vacant: after 30 it is still Occupied
      with counter -25, after 34 nothing has been reported yet. */
  lemma HeldOccupiedVacatesAfterThirtyFive()
    ensures Run(SlotState(FramesToOccupy, Occupied), Repeat(false, 30)) == RunOutcome(SlotState(-25, Occupied), [])
    ensures Run(SlotState(FramesToOccupy, Occupied), Repeat(false, 34)) == RunOutcome(SlotState(-29, Occupied), [])
    ensures Run(SlotState(FramesToOccupy, Occupied), Repeat(false, 35)) == RunOutcome(SlotState(-FramesToVacate, Vacant), [Vacant])
  {
    NegativeRun(SlotState(FramesToOccupy, Occupied), 30);
    NegativeRun(SlotState(FramesToOccupy, Occupied), 34);
    NegativeRun(SlotState(FramesToOccupy, Occupied), 35);
  }

  /** Symmetrically, a slot held Vacant (counter at -30) needs 35 positive evaluations. */
  lemma HeldVacantOccupiesAfterThirtyFive()
    ensures Run(SlotState(-FramesToVacate, Vacant), Repeat(true, 34)) == RunOutcome(SlotState(4, Vacant), [])
    ensures Run(SlotState(-FramesToVacate, Vacant), Repeat(true, 35)) == RunOutcome(SlotState(FramesToOccupy, Occupied), [Occupied])
  {
    PositiveRun(SlotState(-FramesToVacate, Vacant), 34);
    PositiveRun(SlotState(-FramesToVacate, Vacant), 35);
  }

  /** Alternating `true, false` from any counter strictly between the vacate
      clamp and one below the occupy clamp (0 in particular) never reaches a
      clamp: nothing is ever reported and the slot returns to where it started. */
  lemma {:induction false} AlternatingNeverReports(s: SlotState, n: nat)
    requires -FramesToVacate < s.count < FramesToOccupy - 1
    ensures Run(s, Alternating(n)) == RunOutcome(s, [])
  {
    if n > 0 {
      AlternatingNeverReports(s, n - 1);
      RunAppend(s, Alternating(n - 1), [true, false]);
      UpThenDownRun(s);
    }
  }

  /** Away from both clamps, a positive then a negative signal return the
      state to where it was, reporting nothing. */
  lemma UpThenDown(s: SlotState)
    requires -FramesToVacate < s.count < FramesToOccupy - 1
    ensures Step(s, true) == StepOutcome(SlotState(s.count + 1, s.status), false)
    ensures Step(Step(s, true).state, false) == StepOutcome(s, false)
  {
  }

  lemma UpThenDownRun(s: SlotState)
    requires -FramesToVacate < s.count < FramesToOccupy - 1
    ensures Run(s, [true, false]) == RunOutcome(s, [])
  {
    UpThenDown(s);
    assert [true, false][..1] == [true];
    assert [true][..0] == [];
  }

  /** The reports of any run strictly alternate, starting with the status
      opposite to the initial one, and the final status is the last reported
      (or the initial status when nothing was reported). */
  lemma {:induction false} RunReportsAlternate(s: SlotState, signals: seq<bool>)
    ensures Alternates(s.status, Run(s, signals).reports)
    ensures Run(s, signals).final.status ==
      if Run(s, signals).reports == [] then s.status else Run(s, signals).reports[|Run(s, signals).reports| - 1]
    decreases |signals|
  {
    if signals != [] {
      var prior := signals[..|signals| - 1];
      RunReportsAlternate(s, prior);
      var prev := Run(s, prior);
      var o := Step(prev.final, signals[|signals| - 1]);
      var rs := Run(s, signals).reports;
      assert rs == prev.reports + Reported(o);
      if o.changed {
        forall k | 0 < k < |rs|
          ensures rs[k] != rs[k - 1]
        {
          if k < |prev.reports| {
            assert rs[k] == prev.reports[k] && rs[k - 1] == prev.reports[k - 1];
          }
        }
      } else {
        assert rs == prev.reports;
      }
    }
  }

  /** Statuses that alternate starting from Vacant are Occupied, Vacant, Occupied, ... */
  lemma {:induction false} AlternatesFromVacant(reports: seq<Status>)
    requires Alternates(Vacant, reports)
    ensures forall k :: 0 <= k < |reports| ==> reports[k] == if k % 2 == 0 then Occupied else Vacant
  {
    if reports != [] {
      var prefix := reports[..|reports| - 1];
      assert Alternates(Vacant, prefix) by {
        forall k | 0 < k < |prefix|
          ensures prefix[k] != prefix[k - 1]
        {
          assert prefix[k] == reports[k] && prefix[k - 1] == reports[k - 1];
        }
      }
      AlternatesFromVacant(prefix);
      forall k | 0 <= k < |reports|
        ensures reports[k] == if k % 2 == 0 then Occupied else Vacant
      {
        if k < |prefix| {
          assert reports[k] == prefix[k];
        } else if k > 0 {
          assert reports[k] != reports[k - 1];
          assert reports[k - 1] == prefix[k - 1];
        } else {
          assert reports[0] != Vacant;
        }
      }
    }
  }

  /** From a fresh slot the reported statuses are Occupied, Vacant, Occupied, ...,
      whatever the signals. */
  lemma FreshSlotReports(signals: seq<bool>)
    ensures forall k :: 0 <= k < |Run(Initial, signals).reports| ==>
      Run(Initial, signals).reports[k] == if k % 2 == 0 then Occupied else Vacant
  {
    RunReportsAlternate(Initial, signals);
    AlternatesFromVacant(Run(Initial, signals).reports);
  }
}
