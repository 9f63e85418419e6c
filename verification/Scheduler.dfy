/**
 The store of automation rows: the commands of the service and the scheduler's tick,
 each as one atomic change of the rows and of the outbox queue.
 */
module Scheduler {
  import opened Wrappers
  import opened Cron
  import opened Trigger
  import opened Lifecycle

  type Id = nat

  const SECOND := 1_000_000_000

  /** The RFC 3339 text of a slot keeps whole seconds. */
  function SlotKey(slot: int): int {
    slot / SECOND
  }

  datatype Job = Job(automation: Id, slot: int)

  /** What a command gives back: the row as it now stands, or why it was refused. */
  type Reply = Result<Row, Error>

  class Service {
    var rows: map<Id, Row>
    /** Run jobs in the order they were enqueued, and the keys still pending or running. */
    var jobs: seq<Job>
    var live: set<Job>
    /** The policy; when disabled, every mutation is refused and ticks do nothing. */
    const enabled: bool
    const autoApprove: bool
    const maxFailures: nat
    const maxPerUser: nat

    /** Only active rows are scheduled, and what is live has been vetted. */
    ghost predicate Valid()
      reads this
    {
      forall id | id in rows :: ScheduledOnlyActive(rows[id]) && Trusted(rows[id])
    }

    constructor (enabled: bool, autoApprove: bool, maxFailures: nat, maxPerUser: nat)
      ensures Valid() && rows == map[] && jobs == [] && live == {}
    {
      this.enabled, this.autoApprove, this.maxFailures, this.maxPerUser := enabled, autoApprove, maxFailures, maxPerUser;
      rows, jobs, live := map[], [], {};
    }

    /** `known`: the caller has an organization and a user; `owned`: how many rows of
        theirs are not archived. */
    method Create(id: Id, d: Draft, known: bool, owned: nat, valid: bool, now: int) returns (r: Reply)
      requires Valid() && id !in rows
      modifies this`rows
      ensures Valid()
      ensures r == if !enabled then Err(Disabled)
                   else if !known then Err(Forbidden)
                   else if !valid then Err(InvalidSpec)
                   else if owned >= maxPerUser then Err(TooMany)
                   else Created(d, autoApprove, now)
      ensures r.Ok? ==> (r.value.status == Active <==>
        || (!d.propose && !d.assisted && d.origin != Chat)
        || (autoApprove && d.origin == Chat && d.kind == Automation && d.spec.reminder))
      ensures rows == if r.Ok? then old(rows)[id := r.value] else old(rows)
    {
      if !enabled {
        return Err(Disabled);
      }
      if !known {
        return Err(Forbidden);
      }
      if !valid {
        return Err(InvalidSpec);
      }
      if owned >= maxPerUser {
        return Err(TooMany);
      }
      var row := Row(d.kind, d.spec, Proposed, None, 1, 0, Person, None, false);
      if d.assisted || d.origin == Chat {
        row := row.(author := Agent);
      }
      var proposal := d.propose || d.origin == Chat || d.assisted;
      if proposal && d.origin == Chat && autoApprove && d.kind == Automation && d.spec.reminder {
        proposal := false;
      }
      if !proposal {
        var scheduled := ScheduleOf(d.kind, d.spec, now);
        if scheduled.Err? {
          return Err(scheduled.error);
        }
        row := row.(status := Active, next := scheduled.value, exempt := d.origin == Chat);
      }
      rows := rows[id := row];
      return Ok(row);
    }

    method Update(id: Id, spec: Spec, assisted: bool, expected: nat, valid: bool, now: int) returns (r: Reply)
      requires Valid()
      modifies this`rows
      ensures Valid()
      ensures r == if !enabled then Err(Disabled)
                   else if id !in old(rows) then Err(NotFound)
                   else UpdateWrite(old(rows)[id], old(rows)[id], spec, assisted, expected, valid, now)
      ensures rows == if r.Ok? then old(rows)[id := r.value] else old(rows)
    {
      if !enabled {
        return Err(Disabled);
      }
      if id !in rows {
        return Err(NotFound);
      }
      var a := rows[id];
      if a.status == Archived {
        return Err(BadState);
      }
      if expected > 0 && expected != a.version {
        return Err(Conflict);
      }
      if !valid {
        return Err(InvalidSpec);
      }
      var updates := a.(spec := spec, version := a.version + 1, author := if assisted then Agent else Person,
                        confirmed := None, exempt := false);
      var status := a.status;
      if assisted && a.status != Proposed {
        status := Proposed;
        updates := updates.(next := None);
      }
      if status == Active || status == Errored || status == Completed {
        status := Active;
        var scheduled := ScheduleOf(a.kind, spec, now);
        if scheduled.Err? {
          return Err(scheduled.error);
        }
        updates := updates.(next := scheduled.value, failures := 0);
      }
      updates := updates.(status := status);
      rows := rows[id := updates];
      return Ok(updates);
    }

    method Confirm(id: Id, valid: bool, now: int) returns (r: Reply)
      requires Valid()
      modifies this`rows
      ensures Valid()
      ensures r == if !enabled then Err(Disabled)
                   else if id !in old(rows) then Err(NotFound)
                   else ConfirmWrite(old(rows)[id], old(rows)[id], valid, now)
      ensures rows == if r.Ok? then old(rows)[id := r.value] else old(rows)
    {
      if !enabled {
        return Err(Disabled);
      }
      if id !in rows {
        return Err(NotFound);
      }
      var a := rows[id];
      if a.status == Active {
        assert rows[id := a] == rows;
        return Ok(a);
      }
      if a.status != Proposed {
        return Err(BadState);
      }
      if !valid {
        return Err(InvalidSpec);
      }
      var scheduled := ScheduleOf(a.kind, a.spec, now);
      if scheduled.Err? {
        return Err(scheduled.error);
      }
      a := a.(status := Active, next := scheduled.value, version := a.version + 1, confirmed := Some(a.spec));
      rows := rows[id := a];
      return Ok(a);
    }

    method Pause(id: Id) returns (r: Reply)
      requires Valid()
      modifies this`rows
      ensures Valid()
      ensures r == if id !in old(rows) then Err(NotFound) else PauseWrite(old(rows)[id], old(rows)[id])
      ensures rows == if r.Ok? then old(rows)[id := r.value] else old(rows)
    {
      if id !in rows {
        return Err(NotFound);
      }
      r := Move(id, {Active, Errored}, Paused, None, rows[id].failures);
    }

    method ArchiveRow(id: Id) returns (r: Reply)
      requires Valid()
      modifies this`rows
      ensures Valid()
      ensures r == if id !in old(rows) then Err(NotFound) else ArchiveWrite(old(rows)[id], old(rows)[id])
      ensures rows == if r.Ok? then old(rows)[id := r.value] else old(rows)
    {
      if id !in rows {
        return Err(NotFound);
      }
      r := Move(id, {Proposed, Active, Paused, Errored, Completed}, Archived, None, rows[id].failures);
    }

    method Resume(id: Id, valid: bool, now: int) returns (r: Reply)
      requires Valid()
      modifies this`rows
      ensures Valid()
      ensures r == if id !in old(rows) then Err(NotFound)
                   else ResumeWrite(old(rows)[id], old(rows)[id], old(rows)[id], valid, now)
      ensures rows == if r.Ok? then old(rows)[id := r.value] else old(rows)
    {
      if id !in rows {
        return Err(NotFound);
      }
      var a := rows[id];
      if a.status != Paused && a.status != Errored {
        if a.status == Active {
          assert rows[id := a] == rows;
          return Ok(a);
        }
        return Err(BadState);
      }
      if !valid {
        return Err(InvalidSpec);
      }
      var scheduled := ScheduleOf(a.kind, a.spec, now);
      if scheduled.Err? {
        return Err(scheduled.error);
      }
      r := Move(id, {Paused, Errored}, Active, scheduled.value, 0);
    }

    /** `transition`: a status change allowed from some statuses only. */
    method Move(id: Id, from: set<Status>, to: Status, next: Option<int>, failures: nat) returns (r: Reply)
      requires id in rows
      modifies this`rows
      ensures r == Transition(old(rows)[id], old(rows)[id], from, to, next, failures)
      ensures rows == if r.Ok? then old(rows)[id := r.value] else old(rows)
    {
      var a := rows[id];
      if a.status !in from {
        if to == a.status {
          assert rows[id := a] == rows;
          return Ok(a);
        }
        return Err(BadState);
      }
      a := a.(status := to, next := next, version := a.version + 1, failures := failures);
      rows := rows[id := a];
      return Ok(a);
    }

    /** `finishRun`, for a run that started from `snap`; it writes whatever became of the
        row meanwhile, so the store stays valid except where that revives an unvetted spec. */
    method FinishRun(id: Id, snap: Row, end: RunEnd)
      requires Valid()
      modifies this`rows
      ensures rows == if id !in old(rows) then old(rows)
                      else old(rows)[id := FinishWrite(old(rows)[id], snap, end, maxFailures)]
      ensures Valid() <==> !(id in old(rows) && FinishRevives(old(rows)[id], Lifecycle.Finish(snap, end, maxFailures))
                             && !Vetted(old(rows)[id]))
    {
      if id !in rows {
        return;
      }
      var row := rows[id];
      var au := row;
      var stop := false;
      if end == Succeeded {
        au := au.(failures := 0);
        if snap.spec.trigger.Some? && snap.spec.trigger.value.Once? {
          au := au.(status := Completed, next := None);
        }
      } else if end == Stopped {
        stop := true;
      } else {
        stop := snap.failures + 1 >= maxFailures;
        au := au.(failures := row.failures + 1);
      }
      if stop {
        au := au.(status := Errored, next := None);
      }
      rows := rows[id := au];
      assert Trusted(au) <==> !(FinishRevives(row, Lifecycle.Finish(snap, end, maxFailures)) && !Vetted(row));
      assert ScheduledOnlyActive(au);
      assert rows[id] == au;
    }

    /** The rows the tick's query may return: due, each once, at most a batch. */
    ghost predicate Batch(due: seq<Id>, now: int)
      reads this
    {
      && |due| <= 50
      && (forall i | 0 <= i < |due| :: due[i] in rows && IsDue(rows[due[i]], now))
      && (forall i, j | 0 <= i < j < |due| :: due[i] != due[j])
    }

    /** One tick in one transaction.  `unreadable` are the rows whose spec does not
        parse; an enqueue that fails for another reason than a duplicate rolls all back. */
    method Tick(due: seq<Id>, unreadable: set<Id>, enqueueFails: set<Id>, now: int) returns (enqueued: Option<nat>)
      requires Valid() && Batch(due, now)
      modifies this`rows, this`jobs, this`live
      ensures Valid()
      ensures enqueued.None? <==> enabled && exists id :: id in due && id !in unreadable && id in enqueueFails
      ensures enqueued.None? || !enabled ==> rows == old(rows) && jobs == old(jobs) && live == old(live)
      ensures !enabled ==> enqueued == Some(0)
      ensures enabled && enqueued.Some? ==>
        && rows.Keys == old(rows).Keys
        && (forall id | id in rows ::
              rows[id] == if id in due then TickWrite(old(rows)[id], id !in unreadable, now) else old(rows)[id])
        && (forall j :: j in live <==> j in old(live) || j in Claims(due, old(rows), unreadable))
        && jobs == old(jobs) + Fresh(due, old(rows), unreadable, old(live))
        && enqueued.value == |Claims(due, old(rows), unreadable)|
    {
      hide ScheduledOnlyActive, Trusted, TickWrite, Claims, Fresh, SlotKey;
      if !enabled {
        return Some(0);
      }
      ClaimsNone(rows, unreadable, live);
      var rows', jobs', live' := rows, jobs, live;
      var count := 0;
      var i := 0;
      while i < |due|
        invariant 0 <= i <= |due|
        invariant rows == old(rows) && jobs == old(jobs) && live == old(live)
        invariant forall k | 0 <= k < i :: due[k] in unreadable || due[k] !in enqueueFails
        invariant rows'.Keys == rows.Keys
        invariant forall id | id in rows ::
          rows'[id] == if id in due[..i] then TickWrite(rows[id], id !in unreadable, now) else rows[id]
        invariant forall j :: j in live' <==> j in live || j in Claims(due[..i], rows, unreadable)
        invariant jobs' == jobs + Fresh(due[..i], rows, unreadable, live)
        invariant count == |Claims(due[..i], rows, unreadable)|
      {
        var id := due[i];
        assert due[..i + 1] == due[..i] + [id];
        ClaimsStep(due, i, rows, unreadable);
        FreshStep(due, i, rows, unreadable, live);
        if id !in unreadable {
          if id in enqueueFails {
            return None;
          }
          var job := Job(id, SlotKey(rows[id].next.value));
          if job !in live {
            jobs' := jobs' + [job];
          }
          live' := live' + {job};
          count := count + 1;
        }
        var after := Advance(rows[id], id !in unreadable, now);
        rows' := rows'[id := after];
        i := i + 1;
      }
      assert due[..i] == due;
      TickKeepsRows(rows, now);
      rows, jobs, live := rows', jobs', live';
      return Some(count);
    }

    /** The updates a tick writes to one claimed row. */
    method Advance(a: Row, readable: bool, now: int) returns (after: Row)
      requires IsDue(a, now)
      ensures after == TickWrite(a, readable, now)
    {
      if !readable {
        return a.(status := Errored, next := None);
      }
      after := a.(next := None);
      var result := NextRun(a.spec.trigger, if now > a.next.value then now else a.next.value);
      if result.At? {
        after := after.(next := Some(result.instant));
      }
    }
  }

  lemma TickKeepsRows(rows: map<Id, Row>, now: int)
    requires forall id | id in rows :: ScheduledOnlyActive(rows[id]) && Trusted(rows[id])
    ensures forall id, readable | id in rows ::
      ScheduledOnlyActive(TickWrite(rows[id], readable, now)) && Trusted(TickWrite(rows[id], readable, now))
  {
    hide NextRun;
  }

  lemma ClaimsNone(rows: map<Id, Row>, unreadable: set<Id>, live: set<Job>)
    ensures Claims([], rows, unreadable) == [] && Fresh([], rows, unreadable, live) == []
  {
  }

  /** The slot jobs a tick claims, one per readable row. */
  function Claims(due: seq<Id>, rows: map<Id, Row>, unreadable: set<Id>): seq<Job>
    requires forall i | 0 <= i < |due| :: due[i] in rows && rows[due[i]].next.Some?
  {
    if due == [] then []
    else
      var id := due[|due| - 1];
      Claims(due[..|due| - 1], rows, unreadable)
      + (if id in unreadable then [] else [Job(id, SlotKey(rows[id].next.value))])
  }

  /** The claims that are not duplicates of a live job. */
  function Fresh(due: seq<Id>, rows: map<Id, Row>, unreadable: set<Id>, live: set<Job>): seq<Job>
    requires forall i | 0 <= i < |due| :: due[i] in rows && rows[due[i]].next.Some?
  {
    if due == [] then []
    else
      var id := due[|due| - 1];
      var job := Job(id, SlotKey(rows[id].next.value));
      Fresh(due[..|due| - 1], rows, unreadable, live) + (if id in unreadable || job in live then [] else [job])
  }

  lemma ClaimsStep(due: seq<Id>, i: nat, rows: map<Id, Row>, unreadable: set<Id>)
    requires i < |due|
    requires forall k | 0 <= k < |due| :: due[k] in rows && rows[due[k]].next.Some?
    ensures Claims(due[..i + 1], rows, unreadable) == Claims(due[..i], rows, unreadable)
      + (if due[i] in unreadable then [] else [Job(due[i], SlotKey(rows[due[i]].next.value))])
  {
    assert due[..i + 1][..i] == due[..i];
  }

  lemma FreshStep(due: seq<Id>, i: nat, rows: map<Id, Row>, unreadable: set<Id>, live: set<Job>)
    requires i < |due|
    requires forall k | 0 <= k < |due| :: due[k] in rows && rows[due[k]].next.Some?
    ensures var job := Job(due[i], SlotKey(rows[due[i]].next.value));
      Fresh(due[..i + 1], rows, unreadable, live) == Fresh(due[..i], rows, unreadable, live)
        + (if due[i] in unreadable || job in live then [] else [job])
  {
    assert due[..i + 1][..i] == due[..i];
  }

  /** A tick claims, for each readable due row once, the slot the row waits for; what it
      enqueues are the claims that have no live job. */
  lemma {:induction false} ClaimsAreTheDueSlots(due: seq<Id>, rows: map<Id, Row>, unreadable: set<Id>, live: set<Job>)
    requires forall i | 0 <= i < |due| :: due[i] in rows && rows[due[i]].next.Some?
    ensures forall j :: j in Claims(due, rows, unreadable) <==>
      j.automation in due && j.automation !in unreadable && j.slot == SlotKey(rows[j.automation].next.value)
    ensures forall j :: j in Fresh(due, rows, unreadable, live) <==> j in Claims(due, rows, unreadable) && j !in live
    decreases |due|
  {
    hide SlotKey;
    if due != [] {
      var front, id := due[..|due| - 1], due[|due| - 1];
      ClaimsAreTheDueSlots(front, rows, unreadable, live);
      assert forall x :: x in due <==> x in front || x == id;
      var job := Job(id, SlotKey(rows[id].next.value));
      assert Claims(due, rows, unreadable) == Claims(front, rows, unreadable) + (if id in unreadable then [] else [job]);
    }
  }

  function ReadableRows(due: seq<Id>, unreadable: set<Id>): set<Id> {
    set id | id in due && id !in unreadable
  }

  lemma {:induction false} OneClaimPerReadableRow(due: seq<Id>, rows: map<Id, Row>, unreadable: set<Id>)
    requires forall i | 0 <= i < |due| :: due[i] in rows && rows[due[i]].next.Some?
    requires forall i, j | 0 <= i < j < |due| :: due[i] != due[j]
    ensures |Claims(due, rows, unreadable)| == |ReadableRows(due, unreadable)|
    decreases |due|
  {
    hide SlotKey;
    if due != [] {
      var front, id := due[..|due| - 1], due[|due| - 1];
      OneClaimPerReadableRow(front, rows, unreadable);
      OneMoreReadable(due, unreadable);
      hide ReadableRows;
    }
  }

  lemma OneMoreReadable(due: seq<Id>, unreadable: set<Id>)
    requires due != [] && forall i, j | 0 <= i < j < |due| :: due[i] != due[j]
    ensures |ReadableRows(due, unreadable)| ==
      |ReadableRows(due[..|due| - 1], unreadable)| + (if due[|due| - 1] in unreadable then 0 else 1)
  {
    var front, id := due[..|due| - 1], due[|due| - 1];
    assert due == front + [id] && id !in front;
    var before := ReadableRows(front, unreadable);
    assert ReadableRows(due, unreadable) == if id in unreadable then before else before + {id};
  }

  // ---- the slots of one automation between two reschedules ----

  /** After a tick the claimed row waits for the first later run of its trigger, strictly
      in the future, or for nothing when there is none; an unreadable one stops with an error. */
  lemma TickLooksAhead(row: Row, readable: bool, now: int)
    requires IsDue(row, now)
    ensures var after := TickWrite(row, readable, now);
      && (after.next.Some? ==> now < after.next.value && NextRun(row.spec.trigger, now) == At(after.next.value))
      && (after.next.Some? ==> after.status == Active)
      && (after.next.None? ==> if readable then !NextRun(row.spec.trigger, now).At? else after.status == Errored)
      && (readable ==> after.status == Active)
      && after.(next := row.next, status := row.status) == row
  {
    if row.spec.trigger.Some? && NextRun(row.spec.trigger, now).At? {
      NextRunIsFirst(row.spec.trigger.value, now);
    }
    hide NextRun;
  }

  datatype Claim = Claim(slot: int, now: int)

  /** The slots claimed by ticks at the given clock readings, in any order of readings. */
  function ClaimsOf(row: Row, nows: seq<int>): seq<Claim>
    decreases |nows|
  {
    if nows == [] then []
    else
      (if IsDue(row, nows[0]) then [Claim(row.next.value, nows[0])] else [])
      + ClaimsOf(TickWrite(row, true, nows[0]), nows[1..])
  }

  /** No slot is claimed early, and each lies after the clock that claimed the one before. */
  ghost predicate Collapsing(cs: seq<Claim>) {
    && (forall c | c in cs :: c.slot <= c.now)
    && (forall i, j | 0 <= i < j < |cs| :: cs[i].now < cs[j].slot)
  }

  /** The claimed slots strictly increase, none is later than its tick's clock, and
      each lies after the clock of the tick before: a backlog collapses into one job. */
  lemma {:induction false} SlotsIncrease(row: Row, nows: seq<int>)
    ensures Collapsing(ClaimsOf(row, nows))
    ensures forall c | c in ClaimsOf(row, nows) :: row.next.Some? && row.next.value <= c.slot
    decreases |nows|
  {
    hide NextRun;
    if nows != [] {
      var now := nows[0];
      var after := TickWrite(row, true, now);
      SlotsIncrease(after, nows[1..]);
      if IsDue(row, now) {
        TickLooksAhead(row, true, now);
        var rest := ClaimsOf(after, nows[1..]);
        assert forall c | c in rest :: now < c.slot;
        PrependClaim(Claim(row.next.value, now), rest);
      }
    }
  }

  lemma PrependClaim(c: Claim, rest: seq<Claim>)
    requires c.slot <= c.now && Collapsing(rest) && forall d | d in rest :: c.now < d.slot
    ensures Collapsing([c] + rest) && forall d | d in [c] + rest :: c.slot <= d.slot
  {
    var cs := [c] + rest;
    assert forall d :: d in cs <==> d == c || d in rest;
    forall i, j | 0 <= i < j < |cs|
      ensures cs[i].now < cs[j].slot
    {
      assert cs[j] == rest[j - 1];
      assert i > 0 ==> cs[i] == rest[i - 1];
    }
  }

  /** The schedule came from the trigger. */
  ghost predicate Scheduled(row: Row) {
    row.next.Some? ==> row.spec.trigger.Some? && exists after :: NextRun(row.spec.trigger, after) == At(row.next.value)
  }

  predicate SubSecond(t: Trigger) {
    t.Interval? && t.every.Some? && t.every.value < SECOND
  }

  lemma NextKeyGrows(row: Row, now: int)
    requires Scheduled(row) && IsDue(row, now) && !SubSecond(row.spec.trigger.value)
    ensures var after := TickWrite(row, true, now);
      after.next.Some? ==> SlotKey(row.next.value) < SlotKey(after.next.value)
  {
    TickLooksAhead(row, true, now);
    var after := TickWrite(row, true, now);
    var t := row.spec.trigger.value;
    if after.next.Some? {
      var before :| NextRun(row.spec.trigger, before) == At(row.next.value);
      if t.CronTrigger? {
        NextRunIsFirst(t, before);
        NextRunIsFirst(t, now);
        hide NextRun, NextFire, Matches;
        AlignedKeys(row.next.value, after.next.value);
      }
    }
  }

  lemma AlignedKeys(a: int, b: int)
    requires a < b && a % MINUTE == 0 && b % MINUTE == 0
    ensures SlotKey(a) < SlotKey(b)
  {
    var m, n := a / MINUTE, b / MINUTE;
    assert a == SECOND * (60 * m) && b == SECOND * (60 * n);
  }

  ghost predicate KeysIncrease(cs: seq<Claim>) {
    forall i, j | 0 <= i < j < |cs| :: SlotKey(cs[i].slot) < SlotKey(cs[j].slot)
  }

  /** The keys that name the slots differ too, unless an interval is shorter than the
      second the keys are cut to. */
  lemma {:induction false} SlotKeysIncrease(row: Row, nows: seq<int>)
    requires Scheduled(row) && (row.spec.trigger.Some? ==> !SubSecond(row.spec.trigger.value))
    ensures KeysIncrease(ClaimsOf(row, nows))
    decreases |nows|
  {
    hide NextRun, SlotKey;
    if nows != [] {
      var now := nows[0];
      var after := TickWrite(row, true, now);
      if IsDue(row, now) {
        NextKeyGrows(row, now);
        TickLooksAhead(row, true, now);
        SlotsIncrease(after, nows[1..]);
      }
      StaysScheduled(row, now);
      SlotKeysIncrease(after, nows[1..]);
      var rest := ClaimsOf(after, nows[1..]);
      if IsDue(row, now) {
        forall c | c in rest
          ensures SlotKey(row.next.value) < SlotKey(c.slot)
        {
          KeysOrdered(after.next.value, c.slot);
        }
        PrependKey(Claim(row.next.value, now), rest);
      }
    }
  }

  lemma StaysScheduled(row: Row, now: int)
    requires Scheduled(row)
    ensures Scheduled(TickWrite(row, true, now)) && TickWrite(row, true, now).spec == row.spec
  {
    hide NextRun;
  }

  lemma PrependKey(c: Claim, rest: seq<Claim>)
    requires KeysIncrease(rest) && forall d | d in rest :: SlotKey(c.slot) < SlotKey(d.slot)
    ensures KeysIncrease([c] + rest)
  {
    hide SlotKey;
    var cs := [c] + rest;
    forall i, j | 0 <= i < j < |cs|
      ensures SlotKey(cs[i].slot) < SlotKey(cs[j].slot)
    {
      assert cs[j] == rest[j - 1];
      assert i > 0 ==> cs[i] == rest[i - 1];
    }
  }

  lemma KeysOrdered(a: int, b: int)
    requires a <= b
    ensures SlotKey(a) <= SlotKey(b)
  {
  }

  /** Below a second two slots share a key, so the second one finds a run already made. */
  lemma SubSecondSlotsCollide(every: int) returns (row: Row, nows: seq<int>)
    requires 0 < every < SECOND
    ensures Scheduled(row) && row.spec.trigger == Some(Interval(Some(every)))
    ensures var cs := ClaimsOf(row, nows); |cs| == 2 && SlotKey(cs[0].slot) == SlotKey(cs[1].slot)
  {
    row := Row(Automation, Spec("", Some(Interval(Some(every))), false), Active, Some(0), 1, 0, Person, None, false);
    nows := [0, every];
    assert NextRun(row.spec.trigger, -every) == At(0);
    var second := TickWrite(row, true, 0);
    assert nows[1..] == [every] && [every][1..] == [];
    assert ClaimsOf(second, [every]) == [Claim(every, every)] + ClaimsOf(TickWrite(second, true, every), []);
  }
}
