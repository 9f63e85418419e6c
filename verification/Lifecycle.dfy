/**
 The life of an automation row.  A command loads the row, decides on what it
 loaded, and writes in one guarded statement; in between, other commands, the
 scheduler and finishing runs may write too.  Instants are nanoseconds.
 */
module Lifecycle {
  import opened Wrappers
  import opened Trigger

  datatype Status = Proposed | Active | Paused | Errored | Completed | Archived

  datatype Kind = Automation | Tool

  datatype Author = Person | Agent

  datatype Origin = Chat | Ui | Api

  datatype Spec = Spec(body: string, trigger: Option<Trigger>, reminder: bool)

  /** The last three fields record history the code does not store: who wrote the
      current spec, the spec a person was shown when confirming since, and whether it
      is an auto-approved personal reminder. */
  datatype Row = Row(kind: Kind, spec: Spec, status: Status, next: Option<int>, version: nat, failures: nat,
                     author: Author, confirmed: Option<Spec>, exempt: bool)

  datatype Error = NotFound | BadState | Conflict | InvalidSpec | Disabled | Forbidden | TooMany

  // ---- the decisions ----

  /** `schedule`: the first run of an automation that becomes active. */
  function ScheduleOf(kind: Kind, spec: Spec, now: int): Result<Option<int>, Error> {
    if kind != Automation || spec.trigger.None? then Ok(None)
    else match NextRun(spec.trigger, now)
      case Invalid => Err(InvalidSpec)
      case Never => if spec.trigger.value.Once? then Err(InvalidSpec) else Ok(None)
      case At(x) => Ok(Some(x))
  }

  datatype Draft = Draft(kind: Kind, spec: Spec, origin: Origin, assisted: bool, propose: bool)

  /** The agent's request needs a confirmation unless it is a personal reminder asked for in chat. */
  predicate NeedsConfirmation(d: Draft, autoApprove: bool) {
    && (d.propose || d.origin == Chat || d.assisted)
    && !(d.origin == Chat && autoApprove && d.kind == Automation && d.spec.reminder)
  }

  function Created(d: Draft, autoApprove: bool, now: int): Result<Row, Error> {
    var author := if d.assisted || d.origin == Chat then Agent else Person;
    if NeedsConfirmation(d, autoApprove) then
      Ok(Row(d.kind, d.spec, Proposed, None, 1, 0, author, None, false))
    else match ScheduleOf(d.kind, d.spec, now)
      case Err(e) => Err(e)
      case Ok(next) => Ok(Row(d.kind, d.spec, Active, next, 1, 0, author, None, d.origin == Chat))
  }

  /** A new row is active exactly when a person asked for it outright, or when it is a
      personal reminder asked for in chat and the policy approves those by itself; the
      agent is its author when it helped or was asked. */
  lemma OnlyRemindersSkipConfirmation(d: Draft, autoApprove: bool, now: int)
    requires Created(d, autoApprove, now).Ok?
    ensures var row := Created(d, autoApprove, now).value;
      && (row.status == Active <==>
            || (!d.propose && !d.assisted && d.origin != Chat)
            || (autoApprove && d.origin == Chat && d.kind == Automation && d.spec.reminder))
      && (row.status == Active || (row.status == Proposed && row.next == None))
      && (row.author == Agent <==> d.assisted || d.origin == Chat)
      && (row.exempt <==> row.status == Active && d.origin == Chat)
      && row.kind == d.kind && row.spec == d.spec && row.version == 1 && row.failures == 0 && row.confirmed == None
    ensures var row := Created(d, autoApprove, now).value;
      row.status == Active ==> IsScheduleOf(row.next, d.kind, d.spec, now)
  {
    hide NextRun;
  }

  /** The row waits for the first run of its trigger, if it is an automation with one. */
  predicate IsScheduleOf(next: Option<int>, kind: Kind, spec: Spec, now: int) {
    match next
    case Some(x) => kind == Automation && spec.trigger.Some? && NextRun(spec.trigger, now) == At(x)
    case None => kind == Tool || spec.trigger.None? || (!spec.trigger.value.Once? && NextRun(spec.trigger, now) == Never)
  }

  /** The trigger can be read and is not a one-shot of the past. */
  predicate HasSchedule(t: Trigger, now: int) {
    Readable(t) && (t.Once? ==> t.at.value > now)
  }

  /** Activation is refused exactly for an automation whose trigger is unreadable or a past one-shot. */
  lemma ScheduleMeans(kind: Kind, spec: Spec, now: int)
    ensures var r := ScheduleOf(kind, spec, now);
      && (r.Ok? ==> IsScheduleOf(r.value, kind, spec, now))
      && (r.Err? <==> kind == Automation && spec.trigger.Some? && !HasSchedule(spec.trigger.value, now))
  {
    if spec.trigger.Some? {
      InvalidIffUnreadable(spec.trigger.value, now);
    }
  }

  datatype NextWrite = KeepNext | SetNext(next: Option<int>)

  datatype Plan = Plan(status: Status, next: NextWrite)

  /** What an edit writes besides the spec, decided on the row it loaded. */
  function PlanUpdate(snap: Row, spec: Spec, assisted: bool, now: int): Result<Plan, Error> {
    var back := assisted && snap.status != Proposed;
    var status := if back then Proposed else snap.status;
    if status == Active || status == Errored || status == Completed then
      (match ScheduleOf(snap.kind, spec, now)
       case Err(e) => Err(e)
       case Ok(next) => Ok(Plan(Active, SetNext(next))))
    else Ok(Plan(status, if back then SetNext(None) else KeepNext))
  }

  function Updated(row: Row, snap: Row, spec: Spec, assisted: bool, plan: Plan): Row {
    row.(spec := spec, version := snap.version + 1, status := plan.status,
         next := if plan.next.KeepNext? then row.next else plan.next.next,
         failures := if plan.status == Active then 0 else row.failures,
         author := if assisted then Agent else Person, confirmed := None, exempt := false)
  }

  /** `Update`, writing under the version it loaded. */
  function UpdateWrite(row: Row, snap: Row, spec: Spec, assisted: bool, expected: nat, valid: bool, now: int)
    : Result<Row, Error>
  {
    if snap.status == Archived then Err(BadState)
    else if expected > 0 && expected != snap.version then Err(Conflict)
    else if !valid then Err(InvalidSpec)
    else match PlanUpdate(snap, spec, assisted, now)
      case Err(e) => Err(e)
      case Ok(plan) =>
        if row.version != snap.version then Err(Conflict) else Ok(Updated(row, snap, spec, assisted, plan))
  }

  /** `Confirm`, writing if the row is still proposed, whatever its version. */
  function ConfirmWrite(row: Row, snap: Row, valid: bool, now: int): Result<Row, Error> {
    if snap.status == Active then Ok(row)
    else if snap.status != Proposed then Err(BadState)
    else if !valid then Err(InvalidSpec)
    else match ScheduleOf(snap.kind, snap.spec, now)
      case Err(e) => Err(e)
      case Ok(next) =>
        if row.status != Proposed then Ok(row)
        else Ok(row.(status := Active, next := next, version := snap.version + 1, confirmed := Some(snap.spec)))
  }

  /** `transition`: from one of the statuses, under the version it loaded. */
  function Transition(row: Row, snap: Row, from: set<Status>, to: Status, next: Option<int>, failures: nat)
    : Result<Row, Error>
  {
    if snap.status !in from then (if snap.status == to then Ok(row) else Err(BadState))
    else if row.version != snap.version then Err(Conflict)
    else Ok(row.(status := to, next := next, version := snap.version + 1, failures := failures))
  }

  function PauseWrite(row: Row, snap: Row): Result<Row, Error> {
    Transition(row, snap, {Active, Errored}, Paused, None, row.failures)
  }

  function ArchiveWrite(row: Row, snap: Row): Result<Row, Error> {
    Transition(row, snap, {Proposed, Active, Paused, Errored, Completed}, Archived, None, row.failures)
  }

  /** `Resume` loads twice: once to plan, once to write. */
  function ResumeWrite(row: Row, first: Row, snap: Row, valid: bool, now: int): Result<Row, Error> {
    if first.status != Paused && first.status != Errored then
      (if first.status == Active then Ok(row) else Err(BadState))
    else if !valid then Err(InvalidSpec)
    else match ScheduleOf(first.kind, first.spec, now)
      case Err(e) => Err(e)
      case Ok(next) => Transition(row, snap, {Paused, Errored}, Active, next, 0)
  }

  predicate IsDue(row: Row, now: int) {
    row.status == Active && row.next.Some? && row.next.value <= now
  }

  /** `Tick` on a row its query returned; an unreadable spec pauses it with an error. */
  function TickWrite(row: Row, readable: bool, now: int): Row {
    if !IsDue(row, now) then row
    else if !readable then row.(status := Errored, next := None)
    else match NextRun(row.spec.trigger, if now > row.next.value then now else row.next.value)
      case At(x) => row.(next := Some(x))
      case _ => row.(next := None)
  }

  /** How a run ended: budget overruns and permanent errors stop the automation. */
  datatype RunEnd = Succeeded | Stopped | FailedForGood

  /** `finishRun` writes by id, without a guard; `snap` is the row the run started from. */
  function FinishWrite(row: Row, snap: Row, end: RunEnd, maxFailures: nat): Row {
    match end
    case Succeeded =>
      if snap.spec.trigger.Some? && snap.spec.trigger.value.Once?
      then row.(failures := 0, status := Completed, next := None)
      else row.(failures := 0)
    case Stopped => row.(status := Errored, next := None)
    case FailedForGood =>
      if snap.failures + 1 >= maxFailures
      then row.(failures := row.failures + 1, status := Errored, next := None)
      else row.(failures := row.failures + 1)
  }

  // ---- interleavings ----

  /** One database statement.  Snapshots are rows the command loaded earlier. */
  datatype Action =
    | Update(snap: Row, spec: Spec, assisted: bool, expected: nat, valid: bool, now: int)
    | Confirm(snap: Row, valid: bool, now: int)
    | Pause(snap: Row)
    | Archive(snap: Row)
    | Resume(first: Row, snap: Row, valid: bool, now: int)
    | Tick(readable: bool, now: int)
    | Finish(snap: Row, end: RunEnd, maxFailures: nat)

  function Settle(row: Row, r: Result<Row, Error>): Row {
    match r case Ok(after) => after case Err(_) => row
  }

  function Write(row: Row, a: Action): Row {
    match a
    case Update(snap, spec, assisted, expected, valid, now) =>
      Settle(row, UpdateWrite(row, snap, spec, assisted, expected, valid, now))
    case Confirm(snap, valid, now) => Settle(row, ConfirmWrite(row, snap, valid, now))
    case Pause(snap) => Settle(row, PauseWrite(row, snap))
    case Archive(snap) => Settle(row, ArchiveWrite(row, snap))
    case Resume(first, snap, valid, now) => Settle(row, ResumeWrite(row, first, snap, valid, now))
    case Tick(readable, now) => TickWrite(row, readable, now)
    case Finish(snap, end, maxFailures) => FinishWrite(row, snap, end, maxFailures)
  }

  /** `seen` holds every value the row has had: what any command still in flight may have loaded. */
  datatype System = System(row: Row, seen: set<Row>)

  predicate Possible(s: System, a: Action) {
    match a
    case Resume(first, snap, _, _) => first in s.seen && snap in s.seen
    case Tick(_, _) => true
    case Finish(snap, _, _) => snap in s.seen && (snap.status == Active || snap.status == Paused)
    case _ => a.snap in s.seen
  }

  function Take(s: System, a: Action): System {
    var row := Write(s.row, a);
    System(row, s.seen + {row})
  }

  ghost predicate Start(s: System) {
    exists d, autoApprove, now :: Created(d, autoApprove, now) == Ok(s.row) && s.seen == {s.row}
  }

  predicate Legal(s: System, run: seq<Action>)
    decreases |run|
  {
    run == [] || (Possible(s, run[0]) && Legal(Take(s, run[0]), run[1..]))
  }

  function After(s: System, run: seq<Action>): System
    decreases |run|
  {
    if run == [] then s else After(Take(s, run[0]), run[1..])
  }

  // ---- next_run_at is set only while active ----

  predicate ScheduledOnlyActive(row: Row) {
    row.next.Some? ==> row.status == Active
  }

  /** The guards of an edit that does not touch the schedule: it was decided on a
      proposed row, or by a person on a paused one, and it passes its version checks. */
  predicate EditsUnscheduled(row: Row, a: Action) {
    && a.Update? && (a.snap.status == Proposed || (a.snap.status == Paused && !a.assisted))
    && (a.expected == 0 || a.expected == a.snap.version) && a.valid && row.version == a.snap.version
  }

  /** Such an edit lands on a row that has a schedule. */
  predicate KeepsForeignSchedule(row: Row, a: Action) {
    EditsUnscheduled(row, a) && row.next.Some?
  }

  /** One statement breaks the rule exactly through that branch. */
  lemma StepKeepsSchedule(row: Row, a: Action)
    requires ScheduledOnlyActive(row)
    ensures ScheduledOnlyActive(Write(row, a)) <==> !KeepsForeignSchedule(row, a)
  {
    hide NextRun;
  }

  /** The confirmation is written over the version it loaded. */
  predicate ConfirmIsCurrent(row: Row, a: Action) {
    a.Confirm? && a.snap.status == Proposed && row.status == Proposed ==> a.snap.version == row.version
  }

  predicate ConfirmsAreCurrent(s: System, run: seq<Action>)
    decreases |run|
  {
    run == [] || (ConfirmIsCurrent(s.row, run[0]) && ConfirmsAreCurrent(Take(s, run[0]), run[1..]))
  }

  /** A snapshot of the current version that an edit would not reschedule sees no schedule. */
  ghost predicate ScheduleInv(s: System) {
    && s.row in s.seen && ScheduledOnlyActive(s.row)
    && (forall r | r in s.seen :: r.version <= s.row.version)
    && (forall r | r in s.seen && r.version == s.row.version && (r.status == Proposed || r.status == Paused) :: s.row.next.None?)
  }

  lemma ScheduleInvStep(s: System, a: Action)
    requires ScheduleInv(s) && Possible(s, a) && ConfirmIsCurrent(s.row, a)
    ensures ScheduleInv(Take(s, a))
  {
    hide NextRun;
    StepKeepsSchedule(s.row, a);
    VersionsGrow(s.row, a);
  }

  /** A write with a version guard, or a confirmation that is current, moves to the next version. */
  lemma VersionsGrow(row: Row, a: Action)
    requires ConfirmIsCurrent(row, a)
    ensures Write(row, a) == row || a.Tick? || a.Finish? || Write(row, a).version == row.version + 1
    ensures a.Tick? || a.Finish? ==> Write(row, a).version == row.version
    ensures a.Finish? || a.Tick? ==>
      Write(row, a).next.None? || Write(row, a).status == row.status == Active || Write(row, a).(failures := row.failures) == row
  {
    hide NextRun;
  }

  /** In every interleaving of commands, ticks and finishing runs in which no
      confirmation overwrites a newer version, `next_run_at` is set only while the
      automation is active. */
  lemma {:induction false} ScheduledOnlyWhileActive(s: System, run: seq<Action>)
    requires ScheduleInv(s) && Legal(s, run) && ConfirmsAreCurrent(s, run)
    ensures ScheduleInv(After(s, run))
    decreases |run|
  {
    hide Write, ScheduleInv;
    if run != [] {
      ScheduleInvStep(s, run[0]);
      ScheduledOnlyWhileActive(Take(s, run[0]), run[1..]);
    }
  }

  lemma StartIsScheduled(s: System)
    requires Start(s)
    ensures ScheduleInv(s)
  {
  }

  // ---- the two races ----

  const EVERY_HOUR := Some(Interval(Some(3_600_000_000_000)))

  function Written(body: string): Spec { Spec(body, EVERY_HOUR, false) }

  /** A proposal saved as a draft by a person. */
  function SavedDraft(): Row {
    Row(Automation, Written("a"), Proposed, None, 1, 0, Person, None, false)
  }

  lemma SavedDraftIsCreated()
    ensures Start(System(SavedDraft(), {SavedDraft()}))
  {
    assert Created(Draft(Automation, Written("a"), Ui, false, true), true, 0) == Ok(SavedDraft());
  }

  lemma RunOfThree(s: System, a: Action, b: Action, c: Action)
    requires Possible(s, a) && Possible(Take(s, a), b) && Possible(Take(Take(s, a), b), c)
    ensures Legal(s, [a, b, c]) && After(s, [a, b, c]) == Take(Take(Take(s, a), b), c)
  {
    hide Possible, Take;
    var s1, s2 := Take(s, a), Take(Take(s, a), b);
    var s3 := Take(s2, c);
    assert [a, b, c][1..] == [b, c] && [b, c][1..] == [c] && [c][1..] == [];
    assert Legal(s3, []) && After(s3, []) == s3;
    assert Legal(s2, [c]) && After(s2, [c]) == s3;
    assert Legal(s1, [b, c]) && After(s1, [b, c]) == s3;
  }

  /** Without that condition the rule fails: a confirmation loaded before an edit
      resets the version the edit reached, and a second edit, loaded in between,
      passes its version check and puts a scheduled row back to proposed. */
  lemma StaleConfirmLeavesSchedule() returns (s: System, run: seq<Action>)
    ensures Start(s) && Legal(s, run) && !ScheduledOnlyActive(After(s, run).row)
  {
    SavedDraftIsCreated();
    var row0 := SavedDraft();
    var row1 := row0.(spec := Written("b"), version := 2);
    var a := Update(row0, Written("b"), false, 0, true, 10);
    var b := Confirm(row0, true, 20);
    var c := Update(row1, Written("c"), false, 0, true, 30);
    s := System(row0, {row0});
    assert Take(s, a).row == row1;
    RunOfThree(s, a, b, c);
    run := [a, b, c];
  }

  // ---- nothing runs that a person has not written or confirmed ----

  /** The current spec was last written by a person, or confirmed by one after the
      last agent edit, or is an auto-approved personal reminder. */
  predicate Vetted(row: Row) {
    row.author == Person || row.confirmed == Some(row.spec) || row.exempt
  }

  predicate Live(status: Status) {
    status != Proposed && status != Archived
  }

  predicate Trusted(row: Row) {
    Live(row.status) ==> Vetted(row)
  }

  /** A run in flight that changes the status ends on a row that is not live: it overran
      its budget or met a permanent error, it was a one-shot, or it failed once too often. */
  predicate FinishRevives(row: Row, a: Action) {
    && a.Finish? && !Live(row.status)
    && match a.end
       case Stopped => true
       case Succeeded => a.snap.spec.trigger.Some? && a.snap.spec.trigger.value.Once?
       case FailedForGood => a.snap.failures + 1 >= a.maxFailures
  }

  /** A confirmation loaded while proposed, and still able to go ahead, of another spec than the row's. */
  predicate ConfirmsAnotherSpec(row: Row, a: Action) {
    && a.Confirm? && a.snap.status == Proposed && row.status == Proposed
    && a.valid && ScheduleOf(a.snap.kind, a.snap.spec, a.now).Ok?
    && a.snap.spec != row.spec
  }

  /** A pause or resume decided on a live row passes its version check on one that is not. */
  predicate TransitionRevives(row: Row, a: Action) {
    && !Live(row.status)
    && ((a.Pause? && a.snap.status in {Active, Errored} && row.version == a.snap.version)
        || (a.Resume? && a.first.status in {Paused, Errored} && a.snap.status in {Paused, Errored}
            && a.valid && ScheduleOf(a.first.kind, a.first.spec, a.now).Ok? && row.version == a.snap.version))
  }

  /** One statement activates an unconfirmed agent spec exactly in these cases. */
  lemma StepKeepsTrust(row: Row, a: Action)
    requires Trusted(row)
    ensures !Trusted(Write(row, a)) <==>
      || (ConfirmsAnotherSpec(row, a) && row.author == Agent && !row.exempt)
      || ((FinishRevives(row, a) || TransitionRevives(row, a)) && !Vetted(row))
  {
    hide NextRun;
  }

  /** Confirmations land on the version they loaded and runs finish on live rows. */
  predicate Orderly(row: Row, a: Action) {
    ConfirmIsCurrent(row, a) && !FinishRevives(row, a)
  }

  predicate OrderlyRun(s: System, run: seq<Action>)
    decreases |run|
  {
    run == [] || (Orderly(s.row, run[0]) && OrderlyRun(Take(s, run[0]), run[1..]))
  }

  /** Snapshots of the current version agree with the row on everything trust depends on. */
  ghost predicate TrustInv(s: System) {
    && s.row in s.seen && Trusted(s.row)
    && (forall r | r in s.seen :: r.version <= s.row.version)
    && (forall r | r in s.seen && r.version == s.row.version ::
          r.spec == s.row.spec && (Live(r.status) ==> Live(s.row.status)))
  }

  lemma TrustInvStep(s: System, a: Action)
    requires TrustInv(s) && Possible(s, a) && Orderly(s.row, a)
    ensures TrustInv(Take(s, a))
  {
    hide NextRun;
    StepKeepsTrust(s.row, a);
    VersionsGrow(s.row, a);
    UnversionedWrites(s.row, a);
    hide Write;
  }

  /** Ticks and finishing runs leave the spec alone and never take a live row out of life. */
  lemma UnversionedWrites(row: Row, a: Action)
    ensures var after := Write(row, a);
      after.version == row.version && (a.Tick? || a.Finish?) ==>
        after.spec == row.spec && (Live(row.status) ==> Live(after.status))
  {
    hide NextRun;
  }

  /** No path through pause, resume, error or edit skips the confirmation. */
  lemma {:induction false} ActiveMeansVetted(s: System, run: seq<Action>)
    requires TrustInv(s) && Legal(s, run) && OrderlyRun(s, run)
    ensures TrustInv(After(s, run))
    decreases |run|
  {
    hide Write, TrustInv, Orderly;
    if run != [] {
      TrustInvStep(s, run[0]);
      ActiveMeansVetted(Take(s, run[0]), run[1..]);
    }
  }

  lemma StartIsTrusted(s: System)
    requires Start(s)
    ensures TrustInv(s)
  {
  }

  /** Every snapshot the action uses is the row as it is: commands and runs are atomic. */
  predicate IsAtomic(row: Row, a: Action) {
    match a
    case Resume(first, snap, _, _) => first == row && snap == row
    case Tick(_, _) => true
    case _ => a.snap == row
  }

  predicate AtomicRun(s: System, run: seq<Action>)
    decreases |run|
  {
    run == [] || (IsAtomic(s.row, run[0]) && AtomicRun(Take(s, run[0]), run[1..]))
  }

  lemma {:induction false} AtomicIsOrderly(s: System, run: seq<Action>)
    requires Legal(s, run) && AtomicRun(s, run)
    ensures OrderlyRun(s, run) && ConfirmsAreCurrent(s, run)
    decreases |run|
  {
    if run != [] {
      AtomicIsOrderly(Take(s, run[0]), run[1..]);
      hide Write, Take;
    }
  }

  /** Only a personal reminder is ever exempt from confirmation. */
  predicate ExemptIsReminder(row: Row) {
    row.exempt ==> row.kind == Automation && row.spec.reminder
  }

  lemma {:induction false} ExemptStaysReminder(s: System, run: seq<Action>)
    requires ExemptIsReminder(s.row)
    ensures ExemptIsReminder(After(s, run).row)
    decreases |run|
  {
    if run != [] {
      ExemptStepsReminder(s.row, run[0]);
      ExemptStaysReminder(Take(s, run[0]), run[1..]);
      hide Write;
    }
  }

  lemma ExemptStepsReminder(row: Row, a: Action)
    requires ExemptIsReminder(row)
    ensures ExemptIsReminder(Write(row, a))
  {
    hide NextRun;
  }

  lemma StartIsReminder(s: System)
    requires Start(s)
    ensures ExemptIsReminder(s.row)
  {
    var d, autoApprove, now :| Created(d, autoApprove, now) == Ok(s.row);
    OnlyRemindersSkipConfirmation(d, autoApprove, now);
    hide Created;
  }

  /** With commands and runs taken as atomic, an active automation runs only what a
      person wrote or confirmed, or a personal reminder; and only active ones are scheduled. */
  lemma AtomicCommandsAreSafe(s: System, run: seq<Action>)
    requires Start(s) && Legal(s, run) && AtomicRun(s, run)
    ensures var row := After(s, run).row;
      && ScheduledOnlyActive(row)
      && (row.status == Active ==>
            row.author == Person || row.confirmed == Some(row.spec) || (row.kind == Automation && row.spec.reminder))
  {
    hide *;
    StartIsReminder(s);
    ExemptStaysReminder(s, run);
    AtomicIsOrderly(s, run);
    StartIsScheduled(s);
    StartIsTrusted(s);
    ScheduledOnlyWhileActive(s, run);
    ActiveMeansVetted(s, run);
    SafeRow(After(s, run));
  }

  lemma SafeRow(s: System)
    requires ScheduleInv(s) && TrustInv(s) && ExemptIsReminder(s.row)
    ensures var row := s.row;
      && ScheduledOnlyActive(row)
      && (row.status == Active ==>
            row.author == Person || row.confirmed == Some(row.spec) || (row.kind == Automation && row.spec.reminder))
  {
  }

  /** An agent edit between the load and the write of a confirmation goes live unseen. */
  lemma EditDuringConfirmGoesLive() returns (s: System, run: seq<Action>)
    ensures Start(s) && Legal(s, run)
    ensures var row := After(s, run).row; row.status == Active && !Vetted(row)
  {
    SavedDraftIsCreated();
    var row0 := SavedDraft();
    var a := Update(row0, Written("agent"), true, 0, true, 10);
    var b := Confirm(row0, true, 20);
    var c := Tick(true, 30);
    s := System(row0, {row0});
    assert Written("agent") != Written("a");
    RunOfThree(s, a, b, c);
    run := [a, b, c];
  }

  function ActiveDraft(): Row {
    Row(Automation, Written("a"), Active, Some(3_600_000_000_000), 1, 0, Person, None, false)
  }

  lemma ActiveDraftIsCreated()
    ensures Start(System(ActiveDraft(), {ActiveDraft()}))
  {
    assert Created(Draft(Automation, Written("a"), Ui, false, false), true, 0) == Ok(ActiveDraft());
  }

  /** An agent edit while a run is in flight: the run ends in an error, and resuming
      activates the edit without a confirmation. */
  lemma RunInFlightRevivesProposal() returns (s: System, run: seq<Action>)
    ensures Start(s) && Legal(s, run)
    ensures var row := After(s, run).row; row.status == Active && !Vetted(row)
  {
    var row0 := ActiveDraft();
    ActiveDraftIsCreated();
    var a := Update(row0, Written("agent"), true, 0, true, 10);
    var b := Finish(row0, Stopped, 3);
    var errored := Row(Automation, Written("agent"), Errored, None, 2, 0, Agent, None, false);
    var c := Resume(errored, errored, true, 30);
    s := System(row0, {row0});
    assert Take(Take(s, a), b).row == errored;
    RunOfThree(s, a, b, c);
    run := [a, b, c];
  }

  // ---- what each statement writes ----

  /** The guards under which an edit commits. */
  predicate EditCommits(row: Row, a: Action) {
    && a.Update? && a.snap.status != Archived && (a.expected == 0 || a.expected == a.snap.version)
    && a.valid && row.version == a.snap.version
    && (a.assisted || a.snap.status == Proposed || a.snap.status == Paused
        || ScheduleOf(a.snap.kind, a.spec, a.now).Ok?)
  }

  /** The guards under which a confirmation activates the row. */
  predicate ConfirmCommits(row: Row, a: Action) {
    && a.Confirm? && a.snap.status == Proposed && row.status == Proposed && a.valid
    && ScheduleOf(a.snap.kind, a.snap.spec, a.now).Ok?
  }

  /** The history fields tell the truth: the author is who wrote the last edit that went
      through, and the confirmed spec is the one a person was shown since. */
  lemma HistoryIsTrue(row: Row, a: Action)
    ensures var after := Write(row, a);
      && after.spec == (if EditCommits(row, a) then a.spec else row.spec)
      && after.author == (if EditCommits(row, a) then (if a.assisted then Agent else Person) else row.author)
      && after.confirmed == (if EditCommits(row, a) then None
                             else if ConfirmCommits(row, a) then Some(a.snap.spec) else row.confirmed)
      && after.kind == row.kind
  {
    hide NextRun, ScheduleOf;
  }

  /** A write decided on a row that has moved on since changes nothing: edits and
      transitions check the version they loaded, a confirmation that the row is proposed. */
  lemma StaleWritesFail(row: Row, a: Action)
    requires IsCommand(a)
    ensures a.Confirm? && row.status != Proposed ==> Write(row, a) == row
    ensures !a.Confirm? && row.version != a.snap.version ==> Write(row, a) == row
    ensures a.Resume? && a.first.status !in {Paused, Errored} ==> Write(row, a) == row
  {
    hide NextRun, ScheduleOf;
  }

  predicate IsCommand(a: Action) {
    !a.Tick? && !a.Finish?
  }

  /** The statuses a command that sees the row as it is may start from, and where it leads. */
  function Destination(from: Status, a: Action): Option<Status> {
    match a
    case Update(_, _, assisted, _, _, _) =>
      if from == Archived then None
      else if assisted || from == Proposed then Some(Proposed)
      else if from == Paused then Some(Paused)
      else Some(Active)
    case Confirm(_, _, _) => if from == Proposed then Some(Active) else None
    case Pause(_) => if from in {Active, Errored} then Some(Paused) else None
    case Resume(_, _, _, _) => if from in {Paused, Errored} then Some(Active) else None
    case Archive(_) => if from == Archived then None else Some(Archived)
    case _ => None
  }

  /** The command's own input is acceptable: a valid spec, the version its caller expects,
      and a readable trigger where the row becomes active. */
  predicate Acceptable(row: Row, a: Action) {
    match a
    case Update(_, spec, _, expected, valid, now) =>
      && valid && (expected == 0 || expected == row.version)
      && (Destination(row.status, a) == Some(Active) ==> ScheduleOf(row.kind, spec, now).Ok?)
    case Confirm(_, valid, now) => valid && ScheduleOf(row.kind, row.spec, now).Ok?
    case Resume(_, _, valid, now) => valid && ScheduleOf(row.kind, row.spec, now).Ok?
    case _ => true
  }

  function ClockOf(a: Action): int
    requires a.Update? || a.Confirm? || a.Resume?
  {
    a.now
  }

  /** A command taken as atomic moves the row along the table of statuses, to the next
      version, or leaves it alone; a row that becomes active gets a fresh schedule and,
      save by a confirmation, a clean failure count; one that stops being active loses
      its schedule. */
  lemma CommandsFollowTheTable(row: Row, a: Action)
    requires IsCommand(a) && IsAtomic(row, a)
    ensures var after, to := Write(row, a), Destination(row.status, a);
      if to.None? || !Acceptable(row, a) then after == row
      else
        && after.status == to.value && after.version == row.version + 1
        && (after.status == Active ==>
              && IsScheduleOf(after.next, row.kind, after.spec, ClockOf(a))
              && (after.failures == 0 || (a.Confirm? && after.failures == row.failures)))
        && (after.status != Active ==>
              && after.failures == row.failures
              && after.next == (if after.status == row.status && a.Update? then row.next else None))
  {
    if a.Update? || a.Confirm? || a.Resume? {
      ScheduleMeans(row.kind, if a.Update? then a.spec else row.spec, ClockOf(a));
    }
    hide NextRun, ScheduleOf;
  }

  // ---- the failure limit ----

  function Repeated(n: nat, snap: Row, maxFailures: nat): Row
    decreases n
  {
    if n == 0 then snap
    else
      var row := Repeated(n - 1, snap, maxFailures);
      FinishWrite(row, row, FailedForGood, maxFailures)
  }

  /** From a clean row, each run in a row that fails for good counts one, and the row is
      stopped with an error exactly when the count reaches the limit. */
  lemma {:induction false} StreakStopsAtTheLimit(row: Row, n: nat, maxFailures: nat)
    requires row.status == Active && row.failures == 0 && maxFailures > 0
    ensures var after := Repeated(n, row, maxFailures);
      && after.failures == n
      && (after.status == Errored <==> n >= maxFailures) && (after.status == Active <==> n < maxFailures)
      && (n < maxFailures ==> after.next == row.next) && (n >= maxFailures ==> after.next == None)
      && after.spec == row.spec && after.version == row.version
    decreases n
  {
    if n > 0 {
      StreakStopsAtTheLimit(row, n - 1, maxFailures);
    }
  }

  /** A success clears the count and completes a one-shot; an overrun or a permanent
      error stops the automation at once. */
  lemma EndsOfRuns(row: Row, snap: Row, maxFailures: nat)
    ensures var after := FinishWrite(row, snap, Succeeded, maxFailures);
      && after.failures == 0
      && (snap.spec.trigger.Some? && snap.spec.trigger.value.Once? ==> after.status == Completed && after.next == None)
      && (!(snap.spec.trigger.Some? && snap.spec.trigger.value.Once?) ==> after.status == row.status && after.next == row.next)
    ensures var after := FinishWrite(row, snap, Stopped, maxFailures);
      after.status == Errored && after.next == None && after.failures == row.failures
  {
  }
}
