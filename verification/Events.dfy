/**
 Event ingestion for one automation: the event record, the cooldown window claimed in
 `last_run_at`, and the finishing runs that write the same column.
 */
module Events {
  import opened Wrappers

  datatype Key = Key(name: string, id: string)

  datatype Fire = Fire(key: Key, at: int)

  /** `fires` is the history; `live` are the event ids whose job is pending or running. */
  datatype Gate = Gate(last: Option<int>, records: set<Key>, live: set<string>, jobs: seq<string>, fires: seq<Fire>)

  datatype Step =
    | Ingest(key: Key, now: int, snapshot: Option<int>)
    | Finish(stamp: int)
    | JobDone(id: string)

  /** The guarded update that claims the cooldown window. */
  predicate Claims(g: Gate, now: int, cooldown: int) {
    g.last.None? || g.last.value <= now - cooldown
  }

  /** The first check, on the row as it was loaded. */
  predicate CoolingDown(snapshot: Option<int>, now: int, cooldown: int) {
    snapshot.Some? && now - snapshot.value < cooldown
  }

  function Take(g: Gate, s: Step, cooldown: int): Gate {
    match s
    case Finish(stamp) => g.(last := Some(stamp))
    case JobDone(id) => g.(live := g.live - {id})
    case Ingest(key, now, snapshot) =>
      if CoolingDown(snapshot, now, cooldown) || key in g.records then g
      else if !Claims(g, now, cooldown) then g.(records := g.records + {key})
      else Gate(Some(now), g.records + {key}, g.live + {key.id},
                if key.id in g.live then g.jobs else g.jobs + [key.id], g.fires + [Fire(key, now)])
  }

  class EventGate {
    var last: Option<int>
    var records: set<Key>
    var live: set<string>
    var jobs: seq<string>
    ghost var fires: seq<Fire>
    const cooldown: int

    ghost function Now(): Gate
      reads this
    {
      Gate(last, records, live, jobs, fires)
    }

    constructor (cooldown: int)
      ensures this.cooldown == cooldown && Now() == Gate(None, {}, {}, [], [])
    {
      this.cooldown := cooldown;
      last, records, live, jobs, fires := None, {}, {}, [], [];
    }

    /** The transaction of one matching event. */
    method IngestEvent(key: Key, now: int, snapshot: Option<int>) returns (fired: bool)
      modifies this
      ensures Now() == Take(old(Now()), Ingest(key, now, snapshot), cooldown)
      ensures fired <==> |fires| > |old(fires)|
    {
      if snapshot.Some? && now - snapshot.value < cooldown {
        return false;
      }
      if key in records {
        return false;
      }
      records := records + {key};
      if last.Some? && last.value > now - cooldown {
        return false;
      }
      last := Some(now);
      if key.id !in live {
        jobs := jobs + [key.id];
      }
      live := live + {key.id};
      fires := fires + [Fire(key, now)];
      return true;
    }
  }

  function After(g: Gate, steps: seq<Step>, cooldown: int): Gate
    decreases |steps|
  {
    if steps == [] then g else After(Take(g, steps[0], cooldown), steps[1..], cooldown)
  }

  // ---- when an event fires ----

  /** The stamp lies at least the cooldown before the clock, or there is none. */
  predicate LongAgo(stamp: Option<int>, now: int, cooldown: int) {
    stamp.None? || stamp.value + cooldown <= now
  }

  /** An event fires exactly when it has not been recorded and both the row as it was
      loaded and the row as it is were stamped at least the cooldown ago.  Firing stamps
      the row and leaves a live job for the event; an event that finds the window taken
      is recorded all the same. */
  lemma FiresIffOutsideTheCooldown(g: Gate, key: Key, now: int, snapshot: Option<int>, cooldown: int)
    ensures var h := Take(g, Ingest(key, now, snapshot), cooldown);
      && (h.fires == g.fires + [Fire(key, now)] <==>
            key !in g.records && LongAgo(snapshot, now, cooldown) && LongAgo(g.last, now, cooldown))
      && (h.fires == g.fires || h.fires == g.fires + [Fire(key, now)])
      && (h.fires != g.fires ==> h.last == Some(now) && key.id in h.live)
      && (h.fires != g.fires ==> h.jobs == if key.id in g.live then g.jobs else g.jobs + [key.id])
      && (h.fires == g.fires ==> h.last == g.last && h.live == g.live && h.jobs == g.jobs)
      && (key in h.records <==> key in g.records || LongAgo(snapshot, now, cooldown))
  {
    var h := Take(g, Ingest(key, now, snapshot), cooldown);
    assert |g.fires + [Fire(key, now)]| != |g.fires|;
  }

  /** A recorded event never fires again: one that lost the window is lost for good. */
  lemma {:induction false} RecordedNeverFires(g: Gate, steps: seq<Step>, cooldown: int, key: Key)
    requires key in g.records
    ensures var h := After(g, steps, cooldown);
      |g.fires| <= |h.fires| && forall i | |g.fires| <= i < |h.fires| :: h.fires[i].key != key
    decreases |steps|
  {
    if steps != [] {
      var next := Take(g, steps[0], cooldown);
      assert g.fires <= next.fires && forall i | |g.fires| <= i < |next.fires| :: next.fires[i].key != key;
      RecordedNeverFires(next, steps[1..], cooldown, key);
      FiresGrow(next, steps[1..], cooldown);
    }
  }

  lemma {:induction false} FiresGrow(g: Gate, steps: seq<Step>, cooldown: int)
    ensures g.fires <= After(g, steps, cooldown).fires
    decreases |steps|
  {
    if steps != [] {
      FiresGrow(Take(g, steps[0], cooldown), steps[1..], cooldown);
    }
  }

  // ---- at most once per event ----

  ghost predicate FiredOnce(g: Gate) {
    && (forall f | f in g.fires :: f.key in g.records)
    && (forall i, j | 0 <= i < j < |g.fires| :: g.fires[i].key != g.fires[j].key)
  }

  /** However ingestions, finishing runs and job completions interleave, and whatever
      snapshots they decided on, no event fires the automation twice. */
  lemma {:induction false} NoEventFiresTwice(g: Gate, steps: seq<Step>, cooldown: int)
    requires FiredOnce(g)
    ensures FiredOnce(After(g, steps, cooldown))
    decreases |steps|
  {
    if steps != [] {
      var h := Take(g, steps[0], cooldown);
      assert forall f :: f in h.fires ==> f in g.fires || f == h.fires[|h.fires| - 1];
      NoEventFiresTwice(h, steps[1..], cooldown);
    }
  }

  // ---- the cooldown ----

  ghost predicate Spaced(g: Gate, cooldown: int) {
    forall i, j | 0 <= i < j < |g.fires| :: g.fires[j].at - g.fires[i].at >= cooldown
  }

  /** The column is not behind the last firing. */
  predicate Covered(g: Gate) {
    g.fires != [] ==> g.last.Some? && g.last.value >= g.fires[|g.fires| - 1].at
  }

  /** A finishing run writes a clock reading it took after the last firing. */
  predicate StampIsFresh(g: Gate, s: Step) {
    s.Finish? && g.fires != [] ==> s.stamp >= g.fires[|g.fires| - 1].at
  }

  predicate StampsAreFresh(g: Gate, steps: seq<Step>, cooldown: int)
    decreases |steps|
  {
    steps == [] || (StampIsFresh(g, steps[0]) && StampsAreFresh(Take(g, steps[0], cooldown), steps[1..], cooldown))
  }

  lemma StepKeepsSpacing(g: Gate, s: Step, cooldown: int)
    requires cooldown >= 0 && Spaced(g, cooldown) && Covered(g) && StampIsFresh(g, s)
    ensures Spaced(Take(g, s, cooldown), cooldown) && Covered(Take(g, s, cooldown))
  {
    var h := Take(g, s, cooldown);
    if |h.fires| > |g.fires| && g.fires != [] {
      forall i, j | 0 <= i < j < |h.fires|
        ensures h.fires[j].at - h.fires[i].at >= cooldown
      {
        var last := |g.fires| - 1;
        assert i < last ==> g.fires[last].at - g.fires[i].at >= cooldown;
      }
    }
  }

  /** Firings stay a cooldown apart, even when other runs update the column in
      between, as long as none writes a reading older than the last firing. */
  lemma {:induction false} FiringsAreSpaced(g: Gate, steps: seq<Step>, cooldown: int)
    requires cooldown >= 0 && Spaced(g, cooldown) && Covered(g) && StampsAreFresh(g, steps, cooldown)
    ensures Spaced(After(g, steps, cooldown), cooldown)
    decreases |steps|
  {
    if steps != [] {
      StepKeepsSpacing(g, steps[0], cooldown);
      FiringsAreSpaced(Take(g, steps[0], cooldown), steps[1..], cooldown);
    }
  }

  /** And exactly then: the next claim keeps the distance at every clock reading
      exactly when the column is not behind the last firing. */
  lemma NextClaimIsSpacedIffCovered(g: Gate, cooldown: int)
    requires g.fires != [] && g.last.Some? && cooldown > 0
    ensures (forall now | now >= g.fires[|g.fires| - 1].at && Claims(g, now, cooldown) ::
               now - g.fires[|g.fires| - 1].at >= cooldown)
            <==> Covered(g)
  {
    var at := g.fires[|g.fires| - 1].at;
    if !Covered(g) {
      var now := if g.last.value + cooldown > at then g.last.value + cooldown else at;
      assert now >= at && Claims(g, now, cooldown);
    }
  }

  /** A run that read the clock before a firing and writes it afterwards reopens the window. */
  lemma StaleStampBreaksCooldown() returns (steps: seq<Step>)
    ensures var g := After(Gate(None, {}, {}, [], []), steps, 5); FiredOnce(g) && !Spaced(g, 5)
  {
    var a, b, c := Ingest(Key("e", "1"), 11, None), Finish(10), Ingest(Key("e", "2"), 15, Some(10));
    steps := [a, b, c];
    var g0 := Gate(None, {}, {}, [], []);
    var g1 := Take(g0, a, 5);
    var g2 := Take(g1, b, 5);
    var g3 := Take(g2, c, 5);
    assert Key("e", "1").id[0] != Key("e", "2").id[0];
    assert g3.fires == [Fire(Key("e", "1"), 11), Fire(Key("e", "2"), 15)];
    assert steps[1..] == [b, c] && [b, c][1..] == [c] && [c][1..] == [];
    assert After(g2, [c], 5) == g3;
    assert After(g1, [b, c], 5) == g3;
    assert After(g0, steps, 5) == g3;
    assert g3.fires[1].at - g3.fires[0].at == 4;
  }
}
