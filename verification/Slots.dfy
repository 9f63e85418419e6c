/**
 The slots one automation claims along a whole life: ticks, commands, edits and
 finishing runs in any order, each command writing a schedule it computed earlier.
 */
module Slots {
  import opened Wrappers
  import opened Trigger
  import opened Lifecycle

  /** The slot a statement claims. */
  function Claimed(row: Row, a: Action): Option<int> {
    if a.Tick? && a.readable && IsDue(row, a.now) then row.next else None
  }

  function SlotsOf(s: System, run: seq<Action>): seq<int>
    decreases |run|
  {
    if run == [] then []
    else
      var c := Claimed(s.row, run[0]);
      (if c.Some? then [c.value] else []) + SlotsOf(Take(s, run[0]), run[1..])
  }

  ghost predicate Increasing(slots: seq<int>) {
    forall i, j | 0 <= i < j < |slots| :: slots[i] < slots[j]
  }

  /** The status and version checks of a command that writes a new schedule. */
  predicate MayReschedule(row: Row, a: Action) {
    match a
    case Update(snap, _, assisted, expected, valid, _) =>
      && snap.status in {Active, Errored, Completed} && !assisted
      && (expected == 0 || expected == snap.version) && valid && row.version == snap.version
    case Confirm(snap, valid, _) => snap.status == Proposed && row.status == Proposed && valid
    case Resume(first, snap, valid, _) =>
      first.status in {Paused, Errored} && snap.status in {Paused, Errored} && valid && row.version == snap.version
    case _ => false
  }

  function KindOf(a: Action): Kind
    requires a.Update? || a.Confirm? || a.Resume?
  {
    if a.Resume? then a.first.kind else a.snap.kind
  }

  function SpecOf(a: Action): Spec
    requires a.Update? || a.Confirm? || a.Resume?
  {
    if a.Update? then a.spec else if a.Confirm? then a.snap.spec else a.first.spec
  }

  predicate Reschedules(row: Row, a: Action) {
    MayReschedule(row, a) && ScheduleOf(KindOf(a), SpecOf(a), a.now).Ok?
  }

  function LastClaim(last: Option<int>, row: Row, a: Action): Option<int> {
    if Claimed(row, a).Some? then Claimed(row, a) else last
  }

  /** The schedule, if any, lies beyond the last claimed slot. */
  predicate Ahead(row: Row, last: Option<int>) {
    row.next.Some? && last.Some? ==> last.value < row.next.value
  }

  /** A command that writes a schedule read the clock no earlier than the last claimed slot. */
  predicate IsPrompt(row: Row, a: Action, last: Option<int>) {
    Reschedules(row, a) && last.Some? ==> a.now >= last.value
  }

  predicate Prompt(s: System, run: seq<Action>, last: Option<int>)
    decreases |run|
  {
    run == [] || (IsPrompt(s.row, run[0], last) && Prompt(Take(s, run[0]), run[1..], LastClaim(last, s.row, run[0])))
  }

  lemma ScheduleIsLater(kind: Kind, spec: Spec, now: int)
    ensures var r := ScheduleOf(kind, spec, now); r.Ok? && r.value.Some? ==> now < r.value.value
  {
    if spec.trigger.Some? && NextRun(spec.trigger, now).At? {
      NextRunIsFirst(spec.trigger.value, now);
    }
    hide NextRun;
  }

  lemma StepStaysAhead(row: Row, a: Action, last: Option<int>)
    requires Ahead(row, last) && IsPrompt(row, a, last)
    ensures Ahead(Write(row, a), LastClaim(last, row, a))
  {
    if a.Tick? && IsDue(row, a.now) {
      var from := if a.now > row.next.value then a.now else row.next.value;
      if row.spec.trigger.Some? && NextRun(row.spec.trigger, from).At? {
        NextRunIsFirst(row.spec.trigger.value, from);
      }
    }
    hide NextRun, ScheduleOf;
    if a.Update? || a.Confirm? || a.Resume? {
      ScheduleIsLater(KindOf(a), SpecOf(a), a.now);
    }
  }

  /** Whatever the order of the statements and of the ticks' clock readings: as long as
      no schedule computed before the last claimed slot is written after it, the claimed
      slots strictly increase, so none is claimed twice. */
  lemma {:induction false} PromptSlotsIncrease(s: System, run: seq<Action>, last: Option<int>)
    requires Ahead(s.row, last) && Prompt(s, run, last)
    ensures Increasing(SlotsOf(s, run))
    ensures last.Some? ==> forall x | x in SlotsOf(s, run) :: last.value < x
    decreases |run|
  {
    hide Write, IsPrompt;
    if run != [] {
      StepStaysAhead(s.row, run[0], last);
      var rest := SlotsOf(Take(s, run[0]), run[1..]);
      PromptSlotsIncrease(Take(s, run[0]), run[1..], LastClaim(last, s.row, run[0]));
      var c := Claimed(s.row, run[0]);
      if c.Some? {
        assert forall i | 0 <= i < |rest| :: rest[i] in rest;
        assert SlotsOf(s, run) == [c.value] + rest;
      }
    }
  }

  // ---- and no less will do ----

  /** The same command for another spec. */
  function WithSpec(a: Action, spec: Spec): Action
    requires a.Update? || a.Confirm? || a.Resume?
  {
    match a
    case Update(snap, _, assisted, expected, valid, now) => Update(snap, spec, assisted, expected, valid, now)
    case Confirm(snap, valid, now) => Confirm(snap.(spec := spec), valid, now)
    case Resume(first, snap, valid, now) => Resume(first.(spec := spec), snap, valid, now)
  }

  lemma {:induction false} SlotsSplit(s: System, run: seq<Action>, more: seq<Action>)
    ensures SlotsOf(s, run + more) == SlotsOf(s, run) + SlotsOf(After(s, run), more)
    decreases |run|
  {
    hide Take, Claimed;
    if run == [] {
      assert run + more == more;
    } else {
      assert (run + more)[0] == run[0] && (run + more)[1..] == run[1..] + more;
      SlotsSplit(Take(s, run[0]), run[1..], more);
    }
  }

  /** What a command with the spec and a tick after it claim. */
  lemma CommandThenTick(s: System, a: Action, tick: int)
    requires MayReschedule(s.row, a)
    ensures var row := Write(s.row, a); SlotsOf(s, [a, Tick(true, tick)]) == if IsDue(row, tick) then [row.next.value] else []
  {
    hide Write;
    assert [a, Tick(true, tick)][1..] == [Tick(true, tick)] && [Tick(true, tick)][1..] == [];
    var t := Take(s, a);
    assert SlotsOf(Take(t, Tick(true, tick)), []) == [];
    assert SlotsOf(t, [Tick(true, tick)]) == if IsDue(t.row, tick) then [t.row.next.value] else [];
  }

  lemma RescheduledRow(row: Row, a: Action)
    requires Reschedules(row, a)
    ensures var after := Write(row, a); after.status == Active && Ok(after.next) == ScheduleOf(KindOf(a), SpecOf(a), a.now)
  {
    hide ScheduleOf;
  }

  /** After any run whose slots increased up to a last one, a command that writes a
      schedule keeps them increasing for every spec and every tick that follows exactly
      when it read the clock no earlier than that slot. */
  lemma SlotsIncreaseIffPrompt(s: System, run: seq<Action>, a: Action)
    requires SlotsOf(s, run) != [] && Increasing(SlotsOf(s, run))
    requires MayReschedule(After(s, run).row, a) && KindOf(a) == Automation
    ensures (forall spec, tick | Reschedules(After(s, run).row, WithSpec(a, spec)) ::
               Increasing(SlotsOf(s, run + [WithSpec(a, spec), Tick(true, tick)])))
            <==> a.now >= SlotsOf(s, run)[|SlotsOf(s, run)| - 1]
  {
    hide SlotsOf, After, Increasing, Write, ScheduleOf;
    var slots, e := SlotsOf(s, run), After(s, run);
    var last := slots[|slots| - 1];
    if a.now >= last {
      forall spec, tick | Reschedules(e.row, WithSpec(a, spec))
        ensures Increasing(SlotsOf(s, run + [WithSpec(a, spec), Tick(true, tick)]))
      {
        SameGuards(e.row, a, spec);
        LaterSlotIncreases(s, run, WithSpec(a, spec), a.now, tick);
      }
    } else {
      var spec := LateCommandRepeats(s, run, a, last);
      assert !Increasing(SlotsOf(s, run + [WithSpec(a, spec), Tick(true, last)]));
    }
  }

  lemma SameGuards(row: Row, a: Action, spec: Spec)
    requires MayReschedule(row, a)
    ensures var b := WithSpec(a, spec);
      MayReschedule(row, b) && KindOf(b) == KindOf(a) && SpecOf(b) == spec && b.now == a.now
  {
  }

  lemma LaterSlotIncreases(s: System, run: seq<Action>, b: Action, now: int, tick: int)
    requires SlotsOf(s, run) != [] && Increasing(SlotsOf(s, run)) && now >= SlotsOf(s, run)[|SlotsOf(s, run)| - 1]
    requires Reschedules(After(s, run).row, b) && b.now == now
    ensures Increasing(SlotsOf(s, run + [b, Tick(true, tick)]))
  {
    var e := After(s, run);
    SlotsSplit(s, run, [b, Tick(true, tick)]);
    CommandThenTick(e, b, tick);
    RescheduledRow(e.row, b);
    ScheduleIsLater(KindOf(b), SpecOf(b), b.now);
    hide After, SlotsOf, ScheduleOf, Write;
  }

  /** An interval as long as the delay brings the last slot back. */
  lemma LateCommandRepeats(s: System, run: seq<Action>, a: Action, last: int) returns (spec: Spec)
    requires MayReschedule(After(s, run).row, a) && KindOf(a) == Automation && a.now < last
    requires SlotsOf(s, run) != [] && last == SlotsOf(s, run)[|SlotsOf(s, run)| - 1]
    ensures Reschedules(After(s, run).row, WithSpec(a, spec))
    ensures !Increasing(SlotsOf(s, run + [WithSpec(a, spec), Tick(true, last)]))
  {
    var slots, row := SlotsOf(s, run), After(s, run).row;
    spec := Spec("", Some(Interval(Some(last - a.now))), false);
    var b := WithSpec(a, spec);
    SameGuards(row, a, spec);
    IntervalSchedules(spec, a.now, last);
    hide ScheduleOf, After, Write, SlotsOf, WithSpec, MayReschedule;
    RescheduledRow(row, b);
    CommandThenTick(After(s, run), b, last);
    SlotsSplit(s, run, [b, Tick(true, last)]);
    assert (slots + [last])[|slots| - 1] == (slots + [last])[|slots|];
  }

  lemma IntervalSchedules(spec: Spec, now: int, next: int)
    requires now < next && spec.trigger == Some(Interval(Some(next - now)))
    ensures ScheduleOf(Automation, spec, now) == Ok(Some(next))
  {
  }

  /** An edit that read the clock just before a tick and is written after it makes the
      claimed slot due again: ticks keep the version its write is guarded by. */
  lemma RacedEditClaimsTwice() returns (s: System, run: seq<Action>)
    ensures Start(s) && Legal(s, run) && |SlotsOf(s, run)| == 2 && SlotsOf(s, run)[0] == SlotsOf(s, run)[1]
  {
    var row0 := ActiveDraft();
    var hour := row0.next.value;
    ActiveDraftIsCreated();
    s := System(row0, {row0});
    var once := Spec("b", Some(Once(Some(hour), Some(0))), false);
    var a, b, c := Tick(true, hour), Update(row0, once, false, 0, true, hour - 1), Tick(true, hour);
    var s1 := Take(s, a);
    assert s1.row == row0.(next := Some(2 * hour));
    var s2 := Take(s1, b);
    assert s2.row.next == Some(hour) && s2.row.status == Active;
    RunOfThree(s, a, b, c);
    run := [a, b, c];
    assert run == [a] + [b, c] && [a][1..] == [];
    SlotsSplit(s, [a], [b, c]);
    assert After(s, [a]) == s1 && SlotsOf(s, [a]) == [hour] + SlotsOf(s1, []);
    CommandThenTick(s1, b, hour);
  }
}
