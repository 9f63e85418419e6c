/**
 Attempts of one slot: the run row that makes them idempotent, the steps they execute
 and the deliveries they remember.
 */
module Runs {
  import opened Wrappers

  datatype Step = Deliver(id: string) | Other(id: string)

  /** What happens when a step runs.  `Lost`: the delivery went out and the process died
      before recording it. */
  datatype Outcome = Done | Stop | Fail | Crash | Lost

  datatype Status = Running | Completed | Skipped | Failed

  /** `saved` are the delivered steps in the row's stored output. */
  datatype Run = Run(status: Status, attempt: nat, saved: seq<string>)

  datatype End = Finished | Stopped | Broken | Died

  /** `sent` are the deliveries that went out, in order; `recorded` those written down. */
  datatype Trace = Trace(sent: seq<string>, recorded: seq<string>, end: End)

  /** The linear flow: a step already delivered by the previous attempt is passed over;
      a missing outcome is a success. */
  function Execute(steps: seq<Step>, outcomes: seq<Outcome>, delivered: set<string>): Trace {
    if steps == [] then Trace([], [], Finished)
    else
      var rest := Execute(steps[1..], if outcomes == [] then [] else outcomes[1..], delivered);
      var outcome := if outcomes == [] then Done else outcomes[0];
      if steps[0].Deliver? && steps[0].id in delivered then rest
      else match outcome
        case Done =>
          if steps[0].Deliver? then Trace([steps[0].id] + rest.sent, [steps[0].id] + rest.recorded, rest.end) else rest
        case Stop => Trace([], [], Stopped)
        case Fail => Trace([], [], Broken)
        case Crash => Trace([], [], Died)
        case Lost => Trace(if steps[0].Deliver? then [steps[0].id] else [], [], Died)
  }

  /** The circumstances of one attempt: the steps of the spec it loaded, how they went,
      whether the automation is still active, and over its daily cap.  A broken attempt
      is stored alike whether or not it will be retried. */
  datatype Attempt = Attempt(steps: seq<Step>, outcomes: seq<Outcome>, active: bool, overCap: bool)

  predicate Over(run: Option<Run>) {
    run.Some? && (run.value.status == Completed || run.value.status == Skipped)
  }

  /** The deliveries the row lists. */
  function Delivered(run: Option<Run>): set<string> {
    if run.None? then {} else set id | id in run.value.saved
  }

  /** The steps an attempt executes. */
  function TraceOf(run: Option<Run>, a: Attempt): Option<Trace> {
    if !a.active || Over(run) || a.overCap then None
    else Some(Execute(a.steps, a.outcomes, Delivered(run)))
  }

  function Sent(run: Option<Run>, a: Attempt): seq<string> {
    var t := TraceOf(run, a);
    if t.None? then [] else t.value.sent
  }

  /** The row after the attempt. */
  function AfterAttempt(run: Option<Run>, a: Attempt, number: nat): Option<Run> {
    if !a.active || Over(run) then run
    else
      var saved := if run.None? then [] else run.value.saved;
      match TraceOf(run, a)
      case None => Some(Run(Failed, number, saved))
      case Some(t) =>
        match t.end
        case Died => Some(Run(Running, number, if t.recorded == [] then saved else t.recorded))
        case Finished => Some(Run(Completed, number, t.recorded))
        case Stopped => Some(Run(Skipped, number, t.recorded))
        case Broken => Some(Run(Failed, number, t.recorded))
  }

  /** The run rows, one per automation and slot. */
  class RunTable {
    var runs: map<(nat, string), Run>

    constructor ()
      ensures runs == map[]
    {
      runs := map[];
    }

    /** `execute`: insert or reload the row, run the flow, store how it ended. */
    method ExecuteSlot(key: (nat, string), a: Attempt, number: nat) returns (sent: seq<string>)
      modifies this
      ensures var before := if key in old(runs) then Some(old(runs)[key]) else None;
        var after := AfterAttempt(before, a, number);
        && sent == Sent(before, a)
        && runs == if after.None? then old(runs) else old(runs)[key := after.value]
    {
      if !a.active {
        assert key in runs ==> runs[key := runs[key]] == runs;
        return [];
      }
      var saved: seq<string> := [];
      if key in runs {
        if runs[key].status == Completed || runs[key].status == Skipped {
          assert runs[key := runs[key]] == runs;
          return [];
        }
        saved := runs[key].saved;
      }
      runs := runs[key := Run(Running, number, saved)];
      if a.overCap {
        Finish(key, Run(Failed, number, saved));
        assert runs == old(runs)[key := Run(Failed, number, saved)];
        return [];
      }
      var delivered := set id | id in saved;
      assert key !in old(runs) ==> delivered == {};
      var recorded, end;
      sent, recorded, end := RunSteps(a.steps, a.outcomes, delivered);
      var status := match end
        case Died => Running
        case Finished => Completed
        case Stopped => Skipped
        case Broken => Failed;
      if !(end.Died? && recorded == []) {
        saved := recorded;
      }
      Finish(key, Run(status, number, saved));
      assert runs == old(runs)[key := Run(status, number, saved)];
    }

    /** `saveProgress` and `finishRun` store how the attempt ended. */
    method Finish(key: (nat, string), run: Run)
      modifies this
      ensures runs == old(runs)[key := run]
    {
      runs := runs[key := run];
    }
  }

  /** The flow engine's loop over the steps. */
  method RunSteps(steps: seq<Step>, outcomes: seq<Outcome>, delivered: set<string>)
    returns (sent: seq<string>, recorded: seq<string>, end: End)
    ensures Trace(sent, recorded, end) == Execute(steps, outcomes, delivered)
  {
    sent, recorded := [], [];
    var i := 0;
    while i < |steps|
      invariant 0 <= i <= |steps|
      invariant Execute(steps, outcomes, delivered)
        == Continue(sent, recorded, Execute(steps[i..], From(outcomes, i), delivered))
    {
      var step := steps[i];
      var outcome := if i < |outcomes| then outcomes[i] else Done;
      assert steps[i..][1..] == steps[i + 1..];
      if step.Deliver? && step.id in delivered {
        i := i + 1;
        continue;
      }
      match outcome {
        case Done =>
          if step.Deliver? {
            ContinueOne(sent, recorded, step.id, Execute(steps[i + 1..], From(outcomes, i + 1), delivered));
            sent, recorded := sent + [step.id], recorded + [step.id];
          }
        case Stop => return sent, recorded, Stopped;
        case Fail => return sent, recorded, Broken;
        case Crash => return sent, recorded, Died;
        case Lost =>
          return if step.Deliver? then sent + [step.id] else sent, recorded, Died;
      }
      i := i + 1;
    }
    return sent, recorded, Finished;
  }

  /** What has happened, followed by the rest. */
  function Continue(sent: seq<string>, recorded: seq<string>, t: Trace): Trace {
    Trace(sent + t.sent, recorded + t.recorded, t.end)
  }

  lemma ContinueOne(sent: seq<string>, recorded: seq<string>, id: string, t: Trace)
    ensures Continue(sent, recorded, Trace([id] + t.sent, [id] + t.recorded, t.end))
      == Continue(sent + [id], recorded + [id], t)
  {
    assert sent + ([id] + t.sent) == sent + [id] + t.sent;
    assert recorded + ([id] + t.recorded) == recorded + [id] + t.recorded;
  }

  function From(outcomes: seq<Outcome>, i: nat): seq<Outcome> {
    if i < |outcomes| then outcomes[i..] else []
  }

  // ---- what a flow delivers, by position ----

  /** How the step at a position goes, were it executed. */
  function OutcomeAt(outcomes: seq<Outcome>, i: nat): Outcome {
    if i < |outcomes| then outcomes[i] else Done
  }

  predicate IsDelivered(step: Step, delivered: set<string>) {
    step.Deliver? && step.id in delivered
  }

  /** The first position at which the flow does not go on: a step not yet delivered that
      is not done.  The number of steps when there is none. */
  ghost predicate FlowStopsAt(steps: seq<Step>, outcomes: seq<Outcome>, delivered: set<string>, k: nat) {
    && k <= |steps|
    && (forall i | 0 <= i < k :: IsDelivered(steps[i], delivered) || OutcomeAt(outcomes, i) == Done)
    && (k < |steps| ==> !IsDelivered(steps[k], delivered) && OutcomeAt(outcomes, k) != Done)
  }

  /** The deliveries among the first `k` steps that have not been made, in order. */
  function Undelivered(steps: seq<Step>, delivered: set<string>, k: nat): seq<string>
    requires k <= |steps|
  {
    if k == 0 then []
    else
      Undelivered(steps, delivered, k - 1)
      + (if steps[k - 1].Deliver? && steps[k - 1].id !in delivered then [steps[k - 1].id] else [])
  }

  lemma {:induction false} UndeliveredFromTheLeft(steps: seq<Step>, delivered: set<string>, k: nat)
    requires 0 < k <= |steps|
    ensures Undelivered(steps, delivered, k) ==
      Undelivered(steps, delivered, 1) + Undelivered(steps[1..], delivered, k - 1)
  {
    if k > 1 {
      UndeliveredFromTheLeft(steps, delivered, k - 1);
      assert steps[1..][k - 2] == steps[k - 1];
    }
  }

  lemma {:induction false} FlowStopsSomewhere(steps: seq<Step>, outcomes: seq<Outcome>, delivered: set<string>) returns (k: nat)
    ensures FlowStopsAt(steps, outcomes, delivered, k)
  {
    k := 0;
    while k < |steps| && (IsDelivered(steps[k], delivered) || OutcomeAt(outcomes, k) == Done)
      invariant k <= |steps|
      invariant forall i | 0 <= i < k :: IsDelivered(steps[i], delivered) || OutcomeAt(outcomes, i) == Done
    {
      k := k + 1;
    }
  }

  lemma FlowStopsInTail(steps: seq<Step>, outcomes: seq<Outcome>, delivered: set<string>, k: nat)
    requires 0 < k && FlowStopsAt(steps, outcomes, delivered, k)
    ensures FlowStopsAt(steps[1..], if outcomes == [] then [] else outcomes[1..], delivered, k - 1)
  {
    var tail, rest := steps[1..], if outcomes == [] then [] else outcomes[1..];
    forall i | 0 <= i < |tail|
      ensures tail[i] == steps[i + 1] && OutcomeAt(rest, i) == OutcomeAt(outcomes, i + 1)
    {
    }
    forall i | 0 <= i < k - 1
      ensures IsDelivered(tail[i], delivered) || OutcomeAt(rest, i) == Done
    {
      assert IsDelivered(steps[i + 1], delivered) || OutcomeAt(outcomes, i + 1) == Done;
    }
    assert k < |steps| ==> tail[k - 1] == steps[k];
    assert FlowStopsAt(tail, rest, delivered, k - 1);
  }

  /** Every step is reached until one is not done: what goes out is what was not yet
      delivered before it, plus that step's own delivery if it was only lost, and the end
      is the one its outcome names. */
  lemma {:induction false} FlowByPosition(steps: seq<Step>, outcomes: seq<Outcome>, delivered: set<string>, k: nat)
    requires FlowStopsAt(steps, outcomes, delivered, k)
    ensures var t := Execute(steps, outcomes, delivered);
      && t.recorded == Undelivered(steps, delivered, k)
      && t.sent == t.recorded
           + (if k < |steps| && steps[k].Deliver? && outcomes[k] == Lost then [steps[k].id] else [])
      && (t.end == Finished <==> k == |steps|)
      && (k < |steps| ==>
            && (t.end == Stopped <==> outcomes[k] == Stop)
            && (t.end == Broken <==> outcomes[k] == Fail)
            && (t.end == Died <==> outcomes[k] == Crash || outcomes[k] == Lost))
    decreases |steps|
  {
    if k > 0 {
      var rest := if outcomes == [] then [] else outcomes[1..];
      assert OutcomeAt(outcomes, 0) == if outcomes == [] then Done else outcomes[0];
      assert IsDelivered(steps[0], delivered) || OutcomeAt(outcomes, 0) == Done;
      FlowStopsInTail(steps, outcomes, delivered, k);
      FlowByPosition(steps[1..], rest, delivered, k - 1);
      UndeliveredFromTheLeft(steps, delivered, k);
      assert Undelivered(steps, delivered, 1) == Undelivered(steps, delivered, 0)
        + (if steps[0].Deliver? && steps[0].id !in delivered then [steps[0].id] else []);
      hide Undelivered;
    }
  }

  /** What an attempt sends and what becomes of the row: nothing for an inactive
      automation or a finished slot, a failure over the cap, and otherwise what the
      position at which the flow stops says. */
  lemma AttemptByPosition(run: Option<Run>, a: Attempt, number: nat, k: nat)
    requires FlowStopsAt(a.steps, a.outcomes, Delivered(run), k)
    ensures var after, was := AfterAttempt(run, a, number), if run.None? then [] else run.value.saved;
      var made := Undelivered(a.steps, Delivered(run), k);
      if !a.active || (run.Some? && run.value.status in {Completed, Skipped}) then Sent(run, a) == [] && after == run
      else if a.overCap then Sent(run, a) == [] && after == Some(Run(Failed, number, was))
      else if k == |a.steps| then Sent(run, a) == made && after == Some(Run(Completed, number, made))
      else
        && Sent(run, a) == made + (if a.steps[k].Deliver? && a.outcomes[k] == Lost then [a.steps[k].id] else [])
        && (a.outcomes[k] == Stop ==> after == Some(Run(Skipped, number, made)))
        && (a.outcomes[k] == Fail ==> after == Some(Run(Failed, number, made)))
        && (a.outcomes[k] in {Crash, Lost} ==> after == Some(Run(Running, number, if made == [] then was else made)))
  {
    FlowByPosition(a.steps, a.outcomes, Delivered(run), k);
    hide Execute, Undelivered;
  }

  /** A first attempt whose steps all succeed makes every delivery, in order, and completes the slot. */
  lemma SuccessDeliversEverything(a: Attempt, number: nat)
    requires a.active && !a.overCap && forall o | o in a.outcomes :: o == Done
    ensures Sent(None, a) == Undelivered(a.steps, {}, |a.steps|)
    ensures AfterAttempt(None, a, number) == Some(Run(Completed, number, Sent(None, a)))
  {
    forall i | 0 <= i < |a.steps|
      ensures OutcomeAt(a.outcomes, i) == Done
    {
      assert i < |a.outcomes| ==> a.outcomes[i] in a.outcomes;
    }
    AttemptByPosition(None, a, number, |a.steps|);
  }

  // ---- what the row guarantees ----

  /** Once a slot is completed or skipped, no later attempt executes a step or changes it. */
  lemma {:induction false} FinishedSlotsStayFinished(run: Option<Run>, later: seq<Attempt>, number: nat)
    requires Over(run)
    ensures RunAfter(run, later, number) == run
    ensures forall sent | sent in Sends(run, later, number) :: sent == []
    decreases |later|
  {
    if later != [] {
      FinishedSlotsStayFinished(run, later[1..], number + 1);
    }
  }

  function RunAfter(run: Option<Run>, attempts: seq<Attempt>, number: nat): Option<Run>
    decreases |attempts|
  {
    if attempts == [] then run else RunAfter(AfterAttempt(run, attempts[0], number), attempts[1..], number + 1)
  }

  /** What each attempt of a history sends. */
  function Sends(run: Option<Run>, attempts: seq<Attempt>, number: nat): seq<seq<string>>
    decreases |attempts|
  {
    if attempts == [] then []
    else [Sent(run, attempts[0])] + Sends(AfterAttempt(run, attempts[0], number), attempts[1..], number + 1)
  }

  lemma {:induction false} ExecuteSkipsDelivered(steps: seq<Step>, outcomes: seq<Outcome>, delivered: set<string>)
    ensures forall id | id in Execute(steps, outcomes, delivered).sent :: id !in delivered && Deliver(id) in steps
  {
    if steps != [] {
      ExecuteSkipsDelivered(steps[1..], if outcomes == [] then [] else outcomes[1..], delivered);
      assert steps[0] in steps && forall s | s in steps[1..] :: s in steps;
    }
  }

  lemma {:induction false} RecordedUnlessLost(steps: seq<Step>, outcomes: seq<Outcome>, delivered: set<string>)
    requires Lost !in outcomes
    ensures var t := Execute(steps, outcomes, delivered); t.recorded == t.sent
  {
    if steps != [] {
      var rest := if outcomes == [] then [] else outcomes[1..];
      assert forall o | o in rest :: o in outcomes;
      RecordedUnlessLost(steps[1..], rest, delivered);
    }
  }

  /** A delivery that went out in one attempt does not go out in the next, unless the
      process died between sending and recording it. */
  lemma NotSentAgainNext(run: Option<Run>, a: Attempt, b: Attempt, number: nat, id: string)
    requires Lost !in a.outcomes && id in Sent(run, a)
    ensures id !in Sent(AfterAttempt(run, a, number), b)
  {
    RecordedUnlessLost(a.steps, a.outcomes, Delivered(run));
    var after := AfterAttempt(run, a, number);
    assert id in after.value.saved;
    ExecuteSkipsDelivered(b.steps, b.outcomes, Delivered(after));
  }

  // ---- how often a delivery can go out ----

  predicate DistinctSteps(steps: seq<Step>) {
    forall i, j | 0 <= i < j < |steps| :: steps[i].id != steps[j].id
  }

  /** A validated spec, and no death between sending and recording. */
  predicate RegularAttempt(a: Attempt) {
    DistinctSteps(a.steps) && Lost !in a.outcomes
  }

  predicate Regular(attempts: seq<Attempt>) {
    forall a | a in attempts :: RegularAttempt(a)
  }

  function Times(id: string, sends: seq<seq<string>>): nat {
    if sends == [] then 0 else multiset(sends[0])[id] + Times(id, sends[1..])
  }

  lemma {:induction false} SentOncePerAttempt(steps: seq<Step>, outcomes: seq<Outcome>, delivered: set<string>, id: string)
    requires DistinctSteps(steps)
    ensures multiset(Execute(steps, outcomes, delivered).sent)[id] <= 1
  {
    if steps != [] {
      var rest := if outcomes == [] then [] else outcomes[1..];
      var t := Execute(steps[1..], rest, delivered);
      SentOncePerAttempt(steps[1..], rest, delivered, id);
      ExecuteSkipsDelivered(steps[1..], rest, delivered);
      FirstIsNotLater(steps);
      assert steps[0].id !in t.sent;
      assert multiset([steps[0].id] + t.sent) == multiset{steps[0].id} + multiset(t.sent);
      assert multiset([steps[0].id])[id] <= 1;
    }
  }

  lemma FirstIsNotLater(steps: seq<Step>)
    requires steps != [] && DistinctSteps(steps)
    ensures DistinctSteps(steps[1..]) && Deliver(steps[0].id) !in steps[1..]
  {
    forall k | 0 <= k < |steps[1..]|
      ensures steps[1..][k].id != steps[0].id
    {
      assert steps[1..][k] == steps[k + 1];
    }
  }

  lemma AttemptSendsOnce(run: Option<Run>, a: Attempt, id: string)
    requires DistinctSteps(a.steps)
    ensures multiset(Sent(run, a))[id] <= 1
  {
    SentOncePerAttempt(a.steps, a.outcomes, Delivered(run), id);
  }

  lemma TwoAttemptsSendOnce(attempts: seq<Attempt>, id: string)
    requires |attempts| <= 2 && Regular(attempts)
    ensures Times(id, Sends(None, attempts, 1)) <= 1
  {
    hide Sent, AfterAttempt;
    if |attempts| >= 1 {
      var a := attempts[0];
      assert a in attempts;
      AttemptSendsOnce(None, a, id);
      var after := AfterAttempt(None, a, 1);
      if |attempts| == 2 {
        var b := attempts[1];
        assert b in attempts;
        AttemptSendsOnce(after, b, id);
        if id in Sent(None, a) {
          NotSentAgainNext(None, a, b, 1, id);
        }
        assert attempts[1..] == [b];
        SendsOfOne(after, b, 2);
        assert Sends(None, attempts, 1) == [Sent(None, a)] + [Sent(after, b)];
        TimesOfTwo(id, Sent(None, a), Sent(after, b));
      } else {
        assert attempts == [a];
        SendsOfOne(None, a, 1);
        TimesOfTwo(id, Sent(None, a), []);
        assert [Sent(None, a)] + [] == [Sent(None, a)];
      }
    }
  }

  lemma SendsOfOne(run: Option<Run>, a: Attempt, number: nat)
    ensures Sends(run, [a], number) == [Sent(run, a)]
  {
    hide Sent, AfterAttempt;
  }

  lemma TimesOfTwo(id: string, xs: seq<string>, ys: seq<string>)
    ensures Times(id, [xs]) == multiset(xs)[id]
    ensures Times(id, [xs] + [ys]) == multiset(xs)[id] + multiset(ys)[id]
  {
    assert [xs][1..] == [] && [ys][1..] == [];
    assert ([xs] + [ys])[1..] == [ys];
  }

  // ---- when a delivery goes out again ----

  /** A step delivered first and a later step that fails. */
  function DeliverThenFail(id: string): Attempt {
    Attempt([Deliver(id), Other(id + "'")], [Done, Fail], true, false)
  }

  /** Repeating it alternates: it sends, it passes over and forgets, it sends again. */
  lemma DeliverThenFailAlternates(run: Option<Run>, id: string, number: nat)
    requires !Over(run)
    ensures RegularAttempt(DeliverThenFail(id))
    ensures var sent := if Exposed(run, id) then [id] else [];
      && TraceOf(run, DeliverThenFail(id)) == Some(Trace(sent, sent, Broken))
      && AfterAttempt(run, DeliverThenFail(id), number) == Some(Run(Failed, number, sent))
  {
    var a := DeliverThenFail(id);
    assert |a.steps[0].id| != |a.steps[1].id|;
    assert a.steps[1..] == [Other(id + "'")] && a.outcomes[1..] == [Fail];
    assert Execute(a.steps[1..], a.outcomes[1..], Delivered(run)) == Trace([], [], Broken);
    assert a.steps[0] == Deliver(id) && a.outcomes[0] == Done;
    assert id in Delivered(run) <==> !Exposed(run, id);
    assert Execute(a.steps, a.outcomes, Delivered(run)) ==
      if id in Delivered(run) then Trace([], [], Broken) else Trace([id] + [], [id] + [], Broken);
    assert [id] + [] == [id];
  }

  /** The slot may be attempted again and its row does not list the delivery. */
  predicate Exposed(run: Option<Run>, id: string) {
    !Over(run) && (run.None? || id !in run.value.saved)
  }

  lemma NextSendsIffExposed(run: Option<Run>, id: string)
    ensures (exists a :: RegularAttempt(a) && id in Sent(run, a)) <==> Exposed(run, id)
  {
    if Exposed(run, id) {
      DeliverThenFailAlternates(run, id, 0);
      assert id in Sent(run, DeliverThenFail(id));
    }
    forall a | id in Sent(run, a)
      ensures Exposed(run, id)
    {
      ExecuteSkipsDelivered(a.steps, a.outcomes, Delivered(run));
    }
  }

  /** After any history that sent a delivery, some next attempt can send it again
      exactly when the row is not over and no longer lists it. */
  lemma SentAgainIffForgotten(history: seq<Attempt>, id: string)
    requires Times(id, Sends(None, history, 1)) >= 1
    ensures var row := RunAfter(None, history, 1);
      row.Some? &&
      ((exists a :: RegularAttempt(a) && Times(id, Sends(None, history + [a], 1)) > Times(id, Sends(None, history, 1)))
       <==> !Over(row) && id !in row.value.saved)
  {
    hide Sent, AfterAttempt, TraceOf;
    var row := RunAfter(None, history, 1);
    SendingLeavesARow(None, history, 1, id);
    NextSendsIffExposed(row, id);
    forall a
      ensures Times(id, Sends(None, history + [a], 1)) > Times(id, Sends(None, history, 1)) <==> id in Sent(row, a)
    {
      OneMoreAttempt(None, history, a, 1, id);
    }
  }

  lemma {:induction false} SendingLeavesARow(run: Option<Run>, history: seq<Attempt>, number: nat, id: string)
    requires run.Some? || Times(id, Sends(run, history, number)) >= 1
    ensures RunAfter(run, history, number).Some?
    decreases |history|
  {
    hide Execute;
    if history != [] {
      var after := AfterAttempt(run, history[0], number);
      assert Sends(run, history, number)[1..] == Sends(after, history[1..], number + 1);
      SendingLeavesARow(after, history[1..], number + 1, id);
    }
  }

  lemma OneMoreAttempt(run: Option<Run>, history: seq<Attempt>, a: Attempt, number: nat, id: string)
    ensures Times(id, Sends(run, history + [a], number))
         == Times(id, Sends(run, history, number)) + multiset(Sent(RunAfter(run, history, number), a))[id]
  {
    hide Sent, AfterAttempt;
    SendsSplit(run, history, [a], number, id);
    SendsOfOne(RunAfter(run, history, number), a, number + |history|);
    TimesOfTwo(id, Sent(RunAfter(run, history, number), a), []);
  }

  /** The row forgets a delivery exactly when an attempt that passed it over stores its own output. */
  lemma ForgetsIffItStoresOutput(run: Option<Run>, a: Attempt, number: nat, id: string)
    requires run.Some? && !Over(run) && id in run.value.saved
    ensures Exposed(AfterAttempt(run, a, number), id) <==>
      var t := TraceOf(run, a); t.Some? && (t.value.end.Broken? || (t.value.end.Died? && t.value.recorded != []))
  {
    RecordedIsSent(a.steps, a.outcomes, Delivered(run));
    ExecuteSkipsDelivered(a.steps, a.outcomes, Delivered(run));
    hide Execute;
    var t := Execute(a.steps, a.outcomes, Delivered(run));
    assert id in t.recorded ==> id in t.sent;
    assert id in Delivered(run);
  }

  lemma {:induction false} RecordedIsSent(steps: seq<Step>, outcomes: seq<Outcome>, delivered: set<string>)
    ensures var t := Execute(steps, outcomes, delivered); t.recorded <= t.sent
  {
    if steps != [] {
      var rest := if outcomes == [] then [] else outcomes[1..];
      RecordedIsSent(steps[1..], rest, delivered);
    }
  }

  /** Nothing short of a finished slot is safe for good: from any other row some
      further attempts send a delivery twice. */
  lemma OnlyFinishedSlotsAreSafe(run: Option<Run>, number: nat, id: string)
    ensures (forall more | Regular(more) :: Times(id, Sends(run, more, number)) <= 1) <==> Over(run)
  {
    if Over(run) {
      forall more
        ensures Times(id, Sends(run, more, number)) <= 1
      {
        FinishedSlotsStayFinished(run, more, number);
        NothingSent(id, Sends(run, more, number));
      }
    } else {
      var more := FourAttemptsSendTwice(run, number, id);
      assert Regular(more) && !(Times(id, Sends(run, more, number)) <= 1);
    }
  }

  lemma {:induction false} NothingSent(id: string, sends: seq<seq<string>>)
    requires forall sent | sent in sends :: sent == []
    ensures Times(id, sends) == 0
  {
    if sends != [] {
      assert sends[0] in sends && forall sent | sent in sends[1..] :: sent in sends;
      NothingSent(id, sends[1..]);
    }
  }

  lemma FourAttemptsSendTwice(run: Option<Run>, number: nat, id: string) returns (more: seq<Attempt>)
    requires !Over(run)
    ensures Regular(more) && Times(id, Sends(run, more, number)) == 2
  {
    var a := DeliverThenFail(id);
    more := [a, a, a, a];
    DeliverThenFailAlternates(run, id, number);
    AlternatesTwice(run, id, number);
    AlternatesTwice(AfterAttempt(AfterAttempt(run, a, number), a, number + 1), id, number + 2);
    hide AfterAttempt, Sent, DeliverThenFail;
    var r2 := AfterAttempt(AfterAttempt(run, a, number), a, number + 1);
    assert more[..2] == [a, a] && more[2..] == [a, a];
    SendsSplit(run, [a, a], [a, a], number, id);
    assert more == [a, a] + [a, a];
  }

  /** Two repetitions send exactly once, whichever of them it is. */
  lemma AlternatesTwice(run: Option<Run>, id: string, number: nat)
    requires !Over(run)
    ensures var a := DeliverThenFail(id);
      && Times(id, Sends(run, [a, a], number)) == 1
      && RunAfter(run, [a, a], number) == AfterAttempt(AfterAttempt(run, a, number), a, number + 1)
      && !Over(RunAfter(run, [a, a], number))
  {
    var a := DeliverThenFail(id);
    DeliverThenFailAlternates(run, id, number);
    var r1 := AfterAttempt(run, a, number);
    DeliverThenFailAlternates(r1, id, number + 1);
    hide AfterAttempt, Sent, DeliverThenFail;
    assert [a, a][1..] == [a] && [a][1..] == [];
    SendsOfOne(r1, a, number + 1);
    assert Sends(run, [a, a], number) == [Sent(run, a)] + [Sent(r1, a)];
    TimesOfTwo(id, Sent(run, a), Sent(r1, a));
    assert RunAfter(r1, [a], number + 1) == AfterAttempt(r1, a, number + 1);
  }

  lemma {:induction false} SendsSplit(run: Option<Run>, first: seq<Attempt>, second: seq<Attempt>, number: nat, id: string)
    ensures Times(id, Sends(run, first + second, number))
         == Times(id, Sends(run, first, number))
            + Times(id, Sends(RunAfter(run, first, number), second, number + |first|))
    decreases |first|
  {
    hide Sent, AfterAttempt;
    if first == [] {
      assert first + second == second;
    } else {
      var after := AfterAttempt(run, first[0], number);
      assert (first + second)[0] == first[0] && (first + second)[1..] == first[1..] + second;
      SendsSplit(after, first[1..], second, number + 1, id);
      assert Sends(run, first, number)[1..] == Sends(after, first[1..], number + 1);
      assert Sends(run, first + second, number)[1..] == Sends(after, first[1..] + second, number + 1);
    }
  }

  // ---- how many attempts a slot gets ----

  /** One that sent, one that passed over, one that sends again. */
  lemma ThirdAttemptSendsAgain() returns (attempts: seq<Attempt>)
    ensures |attempts| == 3 && Regular(attempts) && Times("a", Sends(None, attempts, 1)) == 2
  {
    var a := DeliverThenFail("a");
    attempts := [a, a, a];
    DeliverThenFailAlternates(None, "a", 1);
    DeliverThenFailAlternates(AfterAttempt(None, a, 1), "a", 2);
    AlternatesTwice(None, "a", 1);
    DeliverThenFailAlternates(RunAfter(None, [a, a], 1), "a", 3);
    OneMoreAttempt(None, [a, a], a, 1, "a");
    assert attempts == [a, a] + [a];
  }

  /** The queue's job for the slot.  `Settled`: its handler returned without an error. */
  datatype Job = Waiting(spent: nat) | Dead | Settled

  /** How the queue books a failed attempt: against the budget, as the fault of a
      shutdown, or as an error that no retry cures. */
  datatype Booking = Counted | Interrupted | Permanent

  /** Besides attempts: a dead job is retried with a fresh budget; the slot is enqueued
      again when its job no longer lives. */
  datatype JobEvent = Work(a: Attempt, booking: Booking) | Retry | Enqueue

  datatype Slot = Slot(job: Job, run: Option<Run>)

  const NEW_SLOT := Slot(Waiting(0), None)

  predicate FailedAttempt(run: Option<Run>, a: Attempt) {
    var t := TraceOf(run, a);
    t.Some? && (t.value.end.Broken? || t.value.end.Died?)
  }

  predicate CanHappen(s: Slot, e: JobEvent) {
    match e
    case Work(_, _) => s.job.Waiting?
    case Retry => s.job.Dead?
    case Enqueue => !s.job.Waiting?
  }

  function Happen(s: Slot, e: JobEvent, maxAttempts: nat): Slot
    requires CanHappen(s, e)
  {
    match e
    case Work(a, booking) => Slot(Booked(s, a, booking, maxAttempts), AfterAttempt(s.run, a, s.job.spent + 1))
    case _ => s.(job := Waiting(0))
  }

  function Booked(s: Slot, a: Attempt, booking: Booking, maxAttempts: nat): Job
    requires s.job.Waiting?
  {
    if !FailedAttempt(s.run, a) then Settled
    else match booking
      case Interrupted => s.job
      case Permanent => Dead
      case Counted => if s.job.spent + 1 >= maxAttempts then Dead else Waiting(s.job.spent + 1)
  }

  predicate LegalCourse(s: Slot, course: seq<JobEvent>, maxAttempts: nat)
    decreases |course|
  {
    course == [] ||
    (CanHappen(s, course[0]) && LegalCourse(Happen(s, course[0], maxAttempts), course[1..], maxAttempts))
  }

  /** What goes out along a course. */
  function CourseSends(s: Slot, course: seq<JobEvent>, maxAttempts: nat): seq<seq<string>>
    requires LegalCourse(s, course, maxAttempts)
    decreases |course|
  {
    if course == [] then []
    else
      (if course[0].Work? then [Sent(s.run, course[0].a)] else [])
      + CourseSends(Happen(s, course[0], maxAttempts), course[1..], maxAttempts)
  }

  /** A legal course of a new slot's job whose attempts are regular. */
  predicate RegularCourse(course: seq<JobEvent>, maxAttempts: nat) {
    LegalCourse(NEW_SLOT, course, maxAttempts) && forall e | e in course && e.Work? :: RegularAttempt(e.a)
  }

  /** What gives a slot attempts beyond its job's budget. */
  predicate Renews(e: JobEvent) {
    e.Retry? || e.Enqueue? || (e.Work? && e.booking.Interrupted?)
  }

  predicate Unrenewed(course: seq<JobEvent>) {
    forall e | e in course :: e.Work? && !Renews(e)
  }

  function AttemptsOf(course: seq<JobEvent>): seq<Attempt>
    requires Unrenewed(course)
  {
    seq(|course|, i requires 0 <= i < |course| => course[i].a)
  }

  /** Without renewals the budget bounds the attempts, and they are the history of the row. */
  lemma {:induction false} BudgetBoundsAttempts(s: Slot, course: seq<JobEvent>, maxAttempts: nat)
    requires LegalCourse(s, course, maxAttempts) && Unrenewed(course)
    requires s.job.Waiting? ==> s.job.spent < maxAttempts
    ensures |course| <= (if s.job.Waiting? then maxAttempts - s.job.spent else 0)
    ensures s.job.Waiting? ==>
      CourseSends(s, course, maxAttempts) == Sends(s.run, AttemptsOf(course), s.job.spent + 1)
    decreases |course|
  {
    hide AfterAttempt, Sent, FailedAttempt;
    if course != [] {
      assert course[0] in course && forall e | e in course[1..] :: e in course;
      var after := Happen(s, course[0], maxAttempts);
      BudgetBoundsAttempts(after, course[1..], maxAttempts);
      assert AttemptsOf(course)[1..] == AttemptsOf(course[1..]);
    }
  }

  /** As long as nothing renews the budget, every step is delivered at most once in
      every course of events exactly when the budget is at most two attempts. */
  lemma AtMostOnceIffTwoAttempts(maxAttempts: nat)
    requires maxAttempts >= 1
    ensures (forall course, id | RegularCourse(course, maxAttempts) && Unrenewed(course) ::
               Times(id, CourseSends(NEW_SLOT, course, maxAttempts)) <= 1)
            <==> maxAttempts <= 2
  {
    if maxAttempts <= 2 {
      forall course, id | RegularCourse(course, maxAttempts) && Unrenewed(course)
        ensures Times(id, CourseSends(NEW_SLOT, course, maxAttempts)) <= 1
      {
        BudgetBoundsAttempts(NEW_SLOT, course, maxAttempts);
        forall a | a in AttemptsOf(course)
          ensures RegularAttempt(a)
        {
          var i :| 0 <= i < |course| && AttemptsOf(course)[i] == a;
          assert course[i] in course;
        }
        TwoAttemptsSendOnce(AttemptsOf(course), id);
      }
    } else {
      var w := Work(DeliverThenFail("a"), Counted);
      var course := Repeat(w, [], 3);
      RepeatSends(NEW_SLOT, w, [], 3, maxAttempts);
      RepeatsOnly(w, [], 3);
      DeliverThenFailAlternates(None, "a", 1);
      assert RegularCourse(course, maxAttempts) && Unrenewed(course);
      assert !(Times("a", CourseSends(NEW_SLOT, course, maxAttempts)) <= 1);
    }
  }

  /** Any one kind of renewal breaks every budget. */
  lemma RenewalsBreakEveryBudget(maxAttempts: nat, renewal: JobEvent) returns (course: seq<JobEvent>)
    requires maxAttempts >= 1
    requires Renews(renewal) && (renewal.Work? ==> renewal.a == DeliverThenFail("a"))
    ensures RegularCourse(course, maxAttempts) && forall e | e in course && Renews(e) :: e == renewal
    ensures Times("a", CourseSends(NEW_SLOT, course, maxAttempts)) == 2
  {
    var w := if renewal.Work? then renewal else Work(DeliverThenFail("a"), Permanent);
    var gap := if renewal.Work? then [] else [renewal];
    course := Repeat(w, gap, 3);
    RepeatSends(NEW_SLOT, w, gap, 3, maxAttempts);
    RepeatsOnly(w, gap, 3);
    DeliverThenFailAlternates(None, "a", 1);
  }

  /** The same attempt over and over, with the gap after each. */
  function Repeat(w: JobEvent, gap: seq<JobEvent>, n: nat): seq<JobEvent> {
    if n == 0 then [] else [w] + gap + Repeat(w, gap, n - 1)
  }

  /** Every second repetition sends. */
  lemma {:induction false} RepeatSends(s: Slot, w: JobEvent, gap: seq<JobEvent>, n: nat, maxAttempts: nat)
    requires s.job.Waiting? && !Over(s.run) && w.Work? && w.a == DeliverThenFail("a")
    requires if gap == [] then w.booking.Interrupted? || (w.booking.Counted? && s.job.spent + n <= maxAttempts)
             else w.booking.Permanent? && |gap| == 1 && !gap[0].Work?
    ensures LegalCourse(s, Repeat(w, gap, n), maxAttempts)
    ensures Times("a", CourseSends(s, Repeat(w, gap, n), maxAttempts)) == (n + if Exposed(s.run, "a") then 1 else 0) / 2
    decreases n
  {
    hide *;
    if n == 0 {
      NoRepetition(s, w, gap, maxAttempts);
    } else {
      var after := RoundEnds(s, w, gap, maxAttempts);
      if gap != [] || n > 1 {
        RepeatSends(after, w, gap, n - 1, maxAttempts);
      } else {
        NoRepetition(after, w, gap, maxAttempts);
      }
      OneRound(s, w, gap, n, after, maxAttempts);
    }
  }

  /** One attempt and the gap after it. */
  lemma RoundEnds(s: Slot, w: JobEvent, gap: seq<JobEvent>, maxAttempts: nat) returns (after: Slot)
    requires s.job.Waiting? && !Over(s.run) && w.Work? && w.a == DeliverThenFail("a")
    requires if gap == [] then w.booking.Interrupted? || w.booking.Counted?
             else w.booking.Permanent? && |gap| == 1 && !gap[0].Work?
    ensures gap != [] ==> CanHappen(Happen(s, w, maxAttempts), gap[0])
    ensures after == if gap == [] then Happen(s, w, maxAttempts) else Happen(Happen(s, w, maxAttempts), gap[0], maxAttempts)
    ensures !Over(after.run) && Exposed(after.run, "a") == !Exposed(s.run, "a")
    ensures gap != [] ==> after.job == Waiting(0)
    ensures gap == [] && w.booking.Interrupted? ==> after.job == s.job
    ensures gap == [] && w.booking.Counted? && s.job.spent + 1 < maxAttempts ==> after.job == Waiting(s.job.spent + 1)
  {
    OneRepetition(s, w, maxAttempts);
    hide DeliverThenFail, AfterAttempt, TraceOf, Over, Exposed;
    after := Happen(s, w, maxAttempts);
    if gap != [] {
      after := Happen(after, gap[0], maxAttempts);
    }
  }

  lemma OneRound(s: Slot, w: JobEvent, gap: seq<JobEvent>, n: nat, after: Slot, maxAttempts: nat)
    requires s.job.Waiting? && !Over(s.run) && w.Work? && w.a == DeliverThenFail("a") && n > 0
    requires gap == [] || (|gap| == 1 && !gap[0].Work? && CanHappen(Happen(s, w, maxAttempts), gap[0]))
    requires after == if gap == [] then Happen(s, w, maxAttempts) else Happen(Happen(s, w, maxAttempts), gap[0], maxAttempts)
    requires LegalCourse(after, Repeat(w, gap, n - 1), maxAttempts)
    ensures LegalCourse(s, Repeat(w, gap, n), maxAttempts)
    ensures Times("a", CourseSends(s, Repeat(w, gap, n), maxAttempts)) ==
      (if Exposed(s.run, "a") then 1 else 0) + Times("a", CourseSends(after, Repeat(w, gap, n - 1), maxAttempts))
  {
    OneRepetition(s, w, maxAttempts);
    hide DeliverThenFail, AfterAttempt, TraceOf, Over, Exposed, Happen, Sent, LegalCourse, CourseSends, Times;
    var course := Repeat(w, gap, n);
    assert course[1..] == gap + Repeat(w, gap, n - 1);
    if gap != [] {
      assert course[1..][1..] == Repeat(w, gap, n - 1);
      OneMoreEvent(Happen(s, w, maxAttempts), course[1..], maxAttempts);
    }
    OneMoreEvent(s, course, maxAttempts);
  }

  lemma NoRepetition(s: Slot, w: JobEvent, gap: seq<JobEvent>, maxAttempts: nat)
    ensures Repeat(w, gap, 0) == []
    ensures LegalCourse(s, [], maxAttempts) && Times("a", CourseSends(s, [], maxAttempts)) == 0
  {
  }

  lemma OneRepetition(s: Slot, w: JobEvent, maxAttempts: nat)
    requires s.job.Waiting? && !Over(s.run) && w.Work? && w.a == DeliverThenFail("a")
    ensures var after := Happen(s, w, maxAttempts);
      && !Over(after.run) && Exposed(after.run, "a") == !Exposed(s.run, "a")
      && after.job == match w.booking
         case Interrupted => s.job
         case Permanent => Dead
         case Counted => if s.job.spent + 1 >= maxAttempts then Dead else Waiting(s.job.spent + 1)
    ensures multiset(Sent(s.run, w.a))["a"] == if Exposed(s.run, "a") then 1 else 0
  {
    DeliverThenFailAlternates(s.run, "a", s.job.spent + 1);
    hide DeliverThenFail, AfterAttempt, TraceOf;
    assert multiset(["a"])["a"] == 1;
  }

  lemma OneMoreEvent(s: Slot, course: seq<JobEvent>, maxAttempts: nat)
    requires course != [] && CanHappen(s, course[0]) && LegalCourse(Happen(s, course[0], maxAttempts), course[1..], maxAttempts)
    ensures LegalCourse(s, course, maxAttempts)
    ensures Times("a", CourseSends(s, course, maxAttempts)) ==
      (if course[0].Work? then multiset(Sent(s.run, course[0].a))["a"] else 0)
      + Times("a", CourseSends(Happen(s, course[0], maxAttempts), course[1..], maxAttempts))
  {
    hide Sent, Happen;
    var rest := CourseSends(Happen(s, course[0], maxAttempts), course[1..], maxAttempts);
    if course[0].Work? {
      assert ([Sent(s.run, course[0].a)] + rest)[1..] == rest;
    } else {
      assert [] + rest == rest;
    }
  }

  lemma {:induction false} RepeatsOnly(w: JobEvent, gap: seq<JobEvent>, n: nat)
    ensures forall e | e in Repeat(w, gap, n) :: e == w || e in gap
  {
    if n > 0 {
      RepeatsOnly(w, gap, n - 1);
    }
  }
}
