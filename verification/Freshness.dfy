/**
 The cache-coherence protocol as a step system: mutations of the source, bumps
 that invalidate layer by layer, read-through fills and consumers that tag what
 they read, interleaved freely.  A layer's content is the version of the source
 it was derived from.  The set of registered layers does not change.
 */
module Freshness {
  import opened Wrappers
  import opened Sorting
  import opened CacheRegistry

  /** A bump in progress: `done` layers of `order` have run. */
  datatype Flight = Flight(ev: Event, order: seq<string>, done: nat, cause: nat, start: nat, clean: bool)

  /** A published bump: the mutation that caused it, the source version when it
      started, and whether every layer succeeded. */
  datatype Bump = Bump(ev: Event, cause: nat, start: nat, clean: bool)

  /** A consumer that read its token after `at` published bumps. */
  datatype Reader = Reader(org: string, addon: string, tag: Epoch, at: nat)

  /** What the consumer then read, from a layer or straight from the source. */
  datatype Entry = Entry(reader: Reader, version: nat, fromSource: bool)

  datatype World = World(
    epochs: Epochs, serial: nat, invs: map<string, Invalidator>, states: map<string, RunState>,
    source: nat, content: map<string, Option<nat>>, flight: Option<Flight>,
    log: seq<Bump>, past: seq<Epochs>, readers: set<Reader>, entries: set<Entry>)

  datatype Step =
    | Mutate
    | Start(ev: Event, cause: nat, order: seq<string>)
    | Invoke(outcome: Option<string>, dropped: bool)
    | Publish
    | Fill(layer: string, lower: Option<string>)
    | ReadToken(org: string, addon: string)
    | Refetch(reader: Reader, via: Option<string>)

  /** The steps the code can take if bumps ran the layers in any order at all. */
  ghost predicate EnabledInAnyOrder(w: World, s: Step) {
    match s
    case Mutate => true
    case Start(_, cause, order) => w.flight.None? && cause <= w.source && multiset(order) == multiset(w.invs.Keys)
    case Invoke(_, _) => w.flight.Some? && w.flight.value.done < |w.flight.value.order|
    case Publish => w.flight.Some? && w.flight.value.done == |w.flight.value.order|
    case Fill(layer, lower) => layer in w.content &&
      (lower.Some? ==> Filled(w, lower.value) && OrderOf(w.invs, lower.value) < OrderOf(w.invs, layer))
    case ReadToken(_, _) => true
    case Refetch(reader, layer) => reader in w.readers && (layer.Some? ==> Filled(w, layer.value))
  }

  predicate Filled(w: World, layer: string) {
    layer in w.content && w.content[layer].Some?
  }

  /** Bumps run the layers in ascending order. */
  ghost predicate Enabled(w: World, s: Step) {
    EnabledInAnyOrder(w, s) && (s.Start? ==> InvocationOrder(w.invs, s.order))
  }

  function Apply(w: World, s: Step): World
    requires EnabledInAnyOrder(w, s)
  {
    match s
    case Mutate => w.(source := w.source + 1)
    case Start(ev, cause, order) => w.(flight := Some(Flight(ev, order, 0, cause, w.source, true)))
    case Invoke(outcome, dropped) =>
      var f := w.flight.value;
      var name := f.order[f.done];
      w.(states := w.states[name := Record(w.states, name, w.serial + 1, outcome)],
         content := if outcome.None? || dropped then w.content[name := None] else w.content,
         flight := Some(f.(done := f.done + 1, clean := f.clean && outcome.None?)))
    case Publish =>
      var f := w.flight.value;
      var epochs := Advance(w.epochs, f.ev);
      w.(epochs := epochs, serial := w.serial + 1, flight := None,
         log := w.log + [Bump(f.ev, f.cause, f.start, f.clean)], past := w.past + [epochs])
    case Fill(layer, lower) =>
      w.(content := w.content[layer := if lower.None? then Some(w.source) else w.content[lower.value]])
    case ReadToken(org, addon) =>
      w.(readers := w.readers + {Reader(org, addon, View(w.epochs, org, addon), |w.log|)})
    case Refetch(reader, layer) =>
      var version := if layer.None? then w.source else w.content[layer.value].value;
      w.(entries := w.entries + {Entry(reader, version, layer.None?)})
  }

  /** A registry with freshly registered, empty layers. */
  ghost predicate Init(w: World) {
    && w.content.Keys == w.invs.Keys == w.states.Keys
    && (forall n | n in w.content :: w.content[n].None?)
    && (forall n | n in w.states :: w.states[n].lastSeq == w.serial)
    && w.flight.None? && w.log == [] && w.past == [w.epochs]
    && w.readers == {} && w.entries == {}
  }

  ghost predicate Legal(w: World, steps: seq<Step>)
    decreases |steps|
  {
    steps == [] || (Enabled(w, steps[0]) && Legal(Apply(w, steps[0]), steps[1..]))
  }

  ghost function Run(w: World, steps: seq<Step>): World
    requires Legal(w, steps)
    decreases |steps|
  {
    if steps == [] then w else Run(Apply(w, steps[0]), steps[1..])
  }

  // ---- the invariant ----

  predicate AtLeast(c: Option<nat>, version: nat) {
    c.Some? ==> c.value >= version
  }

  /** Bumps are published one after the other, each started after what caused it. */
  ghost predicate LogInv(w: World) {
    && w.content.Keys == w.invs.Keys == w.states.Keys
    && |w.past| == |w.log| + 1 && w.past[|w.log|] == w.epochs
    && (forall i | 0 <= i < |w.log| :: w.past[i + 1] == Advance(w.past[i], w.log[i].ev))
    && (forall i | 0 <= i < |w.log| :: w.log[i].cause <= w.log[i].start <= w.source)
    && (forall i, j | 0 <= i < j < |w.log| :: w.log[i].start <= w.log[j].start)
  }

  /** After a clean bump no layer ever holds anything older than its start. */
  ghost predicate FreshInv(w: World) {
    forall i, n | 0 <= i < |w.log| && w.log[i].clean && n in w.content :: AtLeast(w.content[n], w.log[i].start)
  }

  /** The layers already flushed by a clean bump in progress stay fresh: they can
      only refill from below, and below is flushed too. */
  ghost predicate FlightInv(w: World) {
    w.flight.Some? ==>
      var f := w.flight.value;
      && InvocationOrder(w.invs, f.order) && f.done <= |f.order|
      && f.cause <= f.start <= w.source
      && (forall i | 0 <= i < |w.log| :: w.log[i].start <= f.start)
      && (forall n | n in f.order :: n in w.content)
      && (f.clean ==> forall i | 0 <= i < f.done :: AtLeast(w.content[f.order[i]], f.start))
  }

  ghost predicate Behind(w: World) {
    exists n :: n in w.states && w.states[n].lastSeq < w.serial
  }

  /** A failed layer stays behind until a later bump succeeds on it. */
  ghost predicate StatusInv(w: World) {
    match w.flight
    case None =>
      && (forall n | n in w.states :: w.states[n].lastSeq <= w.serial)
      && (w.log != [] && !w.log[|w.log| - 1].clean ==> Behind(w))
    case Some(f) =>
      && (forall n | n in w.states :: w.states[n].lastSeq <= w.serial + 1)
      && (forall n | n in w.states && n in f.order[Cut(f)..] :: w.states[n].lastSeq <= w.serial)
      && (!f.clean ==> exists n :: n in w.states && n !in f.order[Cut(f)..] && w.states[n].lastSeq <= w.serial)
  }

  function Cut(f: Flight): nat {
    if f.done <= |f.order| then f.done else |f.order|
  }

  ghost predicate ReaderOk(w: World, r: Reader) {
    r.at <= |w.log| && r.at < |w.past| && r.tag == View(w.past[r.at], r.org, r.addon)
  }

  ghost predicate EntryOk(w: World, e: Entry) {
    ReaderOk(w, e.reader)
    && forall i | 0 <= i < e.reader.at && (w.log[i].clean || e.fromSource) :: e.version >= w.log[i].start
  }

  ghost predicate ConsumerInv(w: World) {
    (forall r | r in w.readers :: ReaderOk(w, r)) && (forall e | e in w.entries :: EntryOk(w, e))
  }

  ghost predicate Inv(w: World) {
    LogInv(w) && FreshInv(w) && FlightInv(w) && StatusInv(w) && ConsumerInv(w)
  }

  // ---- every step keeps the invariant ----

  lemma LowerRunsFirst(invs: map<string, Invalidator>, order: seq<string>, i: nat, j: nat)
    requires InvocationOrder(invs, order) && i < |order| && j < |order|
    requires OrderOf(invs, order[i]) < OrderOf(invs, order[j])
    ensures i < j
  {
    var before := (a: string, b: string) => RunsBefore(invs, a, b);
    assert before(order[i], order[j]);
  }

  lemma FillKeepsFlight(w: World, layer: string, lower: Option<string>)
    requires Inv(w) && Enabled(w, Fill(layer, lower))
    ensures FlightInv(Apply(w, Fill(layer, lower)))
  {
    var u := Apply(w, Fill(layer, lower));
    if w.flight.Some? && w.flight.value.clean {
      var f := w.flight.value;
      forall i | 0 <= i < f.done
        ensures AtLeast(u.content[f.order[i]], f.start)
      {
        if f.order[i] == layer && lower.Some? {
          assert lower.value in w.invs.Keys;
          assert lower.value in multiset(f.order);
          var j :| 0 <= j < |f.order| && f.order[j] == lower.value;
          LowerRunsFirst(w.invs, f.order, j, i);
        }
      }
    }
  }

  /** The running layer leaves the layers still to run. */
  lemma RunningLayer(f: Flight, names: set<string>)
    requires f.done < |f.order| && multiset(f.order) == multiset(names)
    ensures var name, later := f.order[f.done], f.order[f.done + 1..];
      name in names && name !in later && forall n :: n in f.order[f.done..] <==> n == name || n in later
  {
    SameNames(f.order, names);
    NotLater(f.order, names, f.done);
    assert f.order[f.done..] == [f.order[f.done]] + f.order[f.done + 1..];
  }

  /** What one invocation does to the records. */
  lemma InvokeEffect(w: World, outcome: Option<string>, dropped: bool)
    requires EnabledInAnyOrder(w, Invoke(outcome, dropped)) && w.flight.value.order[w.flight.value.done] in w.states
    ensures var f, u := w.flight.value, Apply(w, Invoke(outcome, dropped));
      var name := f.order[f.done];
      && u.flight == Some(f.(done := f.done + 1, clean := f.clean && outcome.None?)) && u.serial == w.serial
      && u.states.Keys == w.states.Keys && (forall n | n in w.states && n != name :: u.states[n] == w.states[n])
      && u.states[name].lastSeq == (if outcome.None? then w.serial + 1 else w.states[name].lastSeq)
  {
  }

  /** The running layer is recorded as of the new bump, or some layer stays behind. */
  lemma InvokeKeepsStatus(w: World, outcome: Option<string>, dropped: bool)
    requires Inv(w) && Enabled(w, Invoke(outcome, dropped))
    ensures StatusInv(Apply(w, Invoke(outcome, dropped)))
  {
    var f := w.flight.value;
    var u := Apply(w, Invoke(outcome, dropped));
    RunningLayer(f, w.invs.Keys);
    InvokeEffect(w, outcome, dropped);
    RunsKeepStatus(w.states, u.states, w.serial, f.order[f.done], f.order[f.done..], f.order[f.done + 1..],
                   f.clean, outcome.None?);
    hide Apply, LogInv, FreshInv, ConsumerInv, FlightInv;
  }

  lemma RunsKeepStatus(states: map<string, RunState>, now: map<string, RunState>, serial: nat, name: string,
                       pending: seq<string>, later: seq<string>, clean: bool, ok: bool)
    requires now.Keys == states.Keys && name in states
    requires forall n | n in states && n != name :: now[n] == states[n]
    requires now[name].lastSeq == (if ok then serial + 1 else states[name].lastSeq)
    requires name !in later && forall n :: n in pending <==> n == name || n in later
    requires forall n | n in states :: states[n].lastSeq <= serial + 1
    requires forall n | n in states && n in pending :: states[n].lastSeq <= serial
    requires !clean ==> exists n :: n in states && n !in pending && states[n].lastSeq <= serial
    ensures forall n | n in now :: now[n].lastSeq <= serial + 1
    ensures forall n | n in now && n in later :: now[n].lastSeq <= serial
    ensures !(clean && ok) ==> exists n :: n in now && n !in later && now[n].lastSeq <= serial
  {
    if !clean {
      var n :| n in states && n !in pending && states[n].lastSeq <= serial;
      assert n in now && n !in later && now[n].lastSeq <= serial;
    } else {
      assert name in now && name !in later;
    }
  }

  lemma NotLater(xs: seq<string>, names: set<string>, i: nat)
    requires multiset(xs) == multiset(names) && i < |xs|
    ensures xs[i] !in xs[i + 1..]
  {
    assert xs == xs[..i] + [xs[i]] + xs[i + 1..];
    assert multiset(xs) == multiset(xs[..i]) + multiset{xs[i]} + multiset(xs[i + 1..]);
    assert multiset(names)[xs[i]] <= 1;
    assert multiset(xs[i + 1..])[xs[i]] == 0;
  }

  lemma StartKeepsInv(w: World, ev: Event, cause: nat, order: seq<string>)
    requires Inv(w) && Enabled(w, Start(ev, cause, order))
    ensures Inv(Apply(w, Start(ev, cause, order)))
  {
    hide InvocationOrder, Advance, View;
    SameNames(order, w.invs.Keys);
    assert order[0..] == order;
  }

  lemma InvokeKeepsFlight(w: World, outcome: Option<string>, dropped: bool)
    requires Inv(w) && Enabled(w, Invoke(outcome, dropped))
    ensures FlightInv(Apply(w, Invoke(outcome, dropped)))
  {
    hide StatusInv, FreshInv, ConsumerInv, InvocationOrder, Advance, View, Record;
  }

  lemma InvokeKeepsRest(w: World, outcome: Option<string>, dropped: bool)
    requires Inv(w) && Enabled(w, Invoke(outcome, dropped))
    ensures var u := Apply(w, Invoke(outcome, dropped)); LogInv(u) && FreshInv(u) && ConsumerInv(u)
  {
    var u := Apply(w, Invoke(outcome, dropped));
    hide StatusInv, InvocationOrder, Advance, View, Record;
    assert forall n | n in w.content :: u.content[n] == w.content[n] || u.content[n].None?;
    assert w.flight.value.order[w.flight.value.done] in w.content;
    hide FlightInv;
  }

  lemma InvokeKeepsInv(w: World, outcome: Option<string>, dropped: bool)
    requires Inv(w) && Enabled(w, Invoke(outcome, dropped))
    ensures Inv(Apply(w, Invoke(outcome, dropped)))
  {
    InvokeKeepsStatus(w, outcome, dropped);
    InvokeKeepsFlight(w, outcome, dropped);
    InvokeKeepsRest(w, outcome, dropped);
    hide Apply, LogInv, FreshInv, FlightInv, StatusInv, ConsumerInv;
  }

  lemma PublishKeepsLog(w: World)
    requires Inv(w) && Enabled(w, Publish)
    ensures LogInv(Apply(w, Publish)) && FlightInv(Apply(w, Publish))
  {
    hide InvocationOrder, Advance, View, FreshInv, StatusInv, ConsumerInv;
  }

  lemma PublishKeepsFresh(w: World)
    requires Inv(w) && Enabled(w, Publish)
    ensures FreshInv(Apply(w, Publish))
  {
    var f := w.flight.value;
    SameNames(f.order, w.invs.Keys);
    hide InvocationOrder, Advance, View, StatusInv, ConsumerInv;
    forall n | n in w.content && f.clean
      ensures AtLeast(w.content[n], f.start)
    {
      assert n in f.order;
    }
  }

  lemma PublishKeepsStatus(w: World)
    requires Inv(w) && Enabled(w, Publish)
    ensures StatusInv(Apply(w, Publish))
  {
    var f := w.flight.value;
    assert f.order[f.done..] == [];
    hide InvocationOrder, Advance, View, FreshInv, ConsumerInv;
  }

  lemma PublishKeepsConsumers(w: World)
    requires Inv(w) && Enabled(w, Publish)
    ensures ConsumerInv(Apply(w, Publish))
  {
    hide InvocationOrder, Advance, View, FreshInv, FlightInv, StatusInv;
    var u := Apply(w, Publish);
    assert forall i | 0 <= i < |w.log| :: u.log[i] == w.log[i];
    assert forall i | 0 <= i < |w.past| :: u.past[i] == w.past[i];
    forall r | ReaderOk(w, r)
      ensures ReaderOk(u, r)
    {
    }
  }

  lemma PublishKeepsInv(w: World)
    requires Inv(w) && Enabled(w, Publish)
    ensures Inv(Apply(w, Publish))
  {
    PublishKeepsLog(w);
    PublishKeepsFresh(w);
    PublishKeepsStatus(w);
    PublishKeepsConsumers(w);
    hide Apply, LogInv, FreshInv, FlightInv, StatusInv, ConsumerInv;
  }

  lemma FillKeepsInv(w: World, layer: string, lower: Option<string>)
    requires Inv(w) && Enabled(w, Fill(layer, lower))
    ensures Inv(Apply(w, Fill(layer, lower)))
  {
    FillKeepsFlight(w, layer, lower);
    FillKeepsFresh(w, layer, lower);
    hide FlightInv, FreshInv, InvocationOrder, Advance, View;
  }

  lemma FillKeepsFresh(w: World, layer: string, lower: Option<string>)
    requires Inv(w) && Enabled(w, Fill(layer, lower))
    ensures FreshInv(Apply(w, Fill(layer, lower)))
  {
    hide FlightInv, StatusInv, ConsumerInv, InvocationOrder, Advance, View;
  }

  lemma MutateKeepsInv(w: World)
    requires Inv(w)
    ensures Inv(Apply(w, Mutate))
  {
    hide InvocationOrder, Advance, View;
  }

  lemma ReadTokenKeepsInv(w: World, org: string, addon: string)
    requires Inv(w)
    ensures Inv(Apply(w, ReadToken(org, addon)))
  {
    hide InvocationOrder, Advance, View, FlightInv, FreshInv, StatusInv;
    var u := Apply(w, ReadToken(org, addon));
    assert FlightInv(w) && FreshInv(w) && StatusInv(w);
    SameProtocol(w, u);
  }

  lemma RefetchKeepsInv(w: World, reader: Reader, via: Option<string>)
    requires Inv(w) && Enabled(w, Refetch(reader, via))
    ensures Inv(Apply(w, Refetch(reader, via)))
  {
    var u := Apply(w, Refetch(reader, via));
    SameProtocol(w, u);
    hide InvocationOrder, Advance, View, FlightInv, StatusInv;
    forall e | e in u.entries && e !in w.entries
      ensures EntryOk(u, e)
    {
    }
  }

  /** Consumers do not disturb the registry. */
  lemma SameProtocol(w: World, u: World)
    requires u.(readers := w.readers, entries := w.entries) == w
    ensures LogInv(u) == LogInv(w) && FreshInv(u) == FreshInv(w)
    ensures FlightInv(u) == FlightInv(w) && StatusInv(u) == StatusInv(w)
    ensures LogInv(w) ==> forall r :: ReaderOk(u, r) == ReaderOk(w, r)
    ensures LogInv(w) ==> forall e :: EntryOk(u, e) == EntryOk(w, e)
  {
  }

  lemma StepKeepsInv(w: World, s: Step)
    requires Inv(w) && Enabled(w, s)
    ensures Inv(Apply(w, s))
  {
    hide Inv, Apply;
    match s
    case Mutate => MutateKeepsInv(w);
    case Start(ev, cause, order) => StartKeepsInv(w, ev, cause, order);
    case Invoke(outcome, dropped) => InvokeKeepsInv(w, outcome, dropped);
    case Publish => PublishKeepsInv(w);
    case Fill(layer, lower) => FillKeepsInv(w, layer, lower);
    case ReadToken(org, addon) => ReadTokenKeepsInv(w, org, addon);
    case Refetch(reader, via) => RefetchKeepsInv(w, reader, via);
  }

  /** The invariant holds in every state of every interleaving. */
  lemma {:induction false} RunKeepsInv(w: World, steps: seq<Step>)
    requires Inv(w) && Legal(w, steps)
    ensures Inv(Run(w, steps))
    decreases |steps|
  {
    hide Inv;
    if steps != [] {
      StepKeepsInv(w, steps[0]);
      RunKeepsInv(Apply(w, steps[0]), steps[1..]);
    }
  }

  lemma ReachableInv(w: World, steps: seq<Step>)
    requires Init(w) && Legal(w, steps)
    ensures Inv(Run(w, steps))
  {
    assert Inv(w);
    RunKeepsInv(w, steps);
  }

  // ---- the steps of one bump are the registry's run ----

  /** The next `k` layers of the bump in progress, one step each. */
  ghost function InvokeMany(w: World, outcome: string -> Option<string>, k: nat): (u: World)
    requires w.flight.Some? && w.flight.value.done + k <= |w.flight.value.order|
    ensures u.flight.Some? && u.flight.value.order == w.flight.value.order && u.flight.value.done == w.flight.value.done + k
    ensures u.serial == w.serial
  {
    if k == 0 then w
    else
      var v := InvokeMany(w, outcome, k - 1);
      Apply(v, Invoke(outcome(v.flight.value.order[v.flight.value.done]), false))
  }

  /** The layers that ran have their outcome recorded, the others are as before. */
  ghost predicate Recorded(before: map<string, RunState>, now: map<string, RunState>, ran: seq<string>,
                           number: nat, outcome: string -> Option<string>)
  {
    && now.Keys == before.Keys
    && forall n | n in before :: now[n] == (if n in ran then Record(before, n, number, outcome(n)) else before[n])
  }

  /** Invoking the layers one step at a time records what `Registry.Run` records. */
  lemma {:induction false} InvokesRecordLikeRun(w: World, outcome: string -> Option<string>, k: nat)
    requires w.flight.Some? && w.flight.value.done + k <= |w.flight.value.order|
    requires multiset(w.flight.value.order) == multiset(w.invs.Keys) && w.states.Keys == w.invs.Keys
    ensures Recorded(w.states, InvokeMany(w, outcome, k).states,
                     w.flight.value.order[w.flight.value.done..w.flight.value.done + k], w.serial + 1, outcome)
  {
    hide InvokeMany, Recorded;
    if k == 0 {
      NoInvokes(w, outcome);
    } else {
      var f := w.flight.value;
      var v := InvokeMany(w, outcome, k - 1);
      var last := f.done + k - 1;
      InvokesRecordLikeRun(w, outcome, k - 1);
      LastInvoke(w, outcome, k);
      OneMoreLayer(f, last, w.invs.Keys);
      RecordedOneMore(w.states, v.states, f.order[f.done..last], f.order[last], w.serial + 1, outcome);
    }
  }

  lemma RecordedOneMore(before: map<string, RunState>, now: map<string, RunState>, ran: seq<string>, name: string,
                        number: nat, outcome: string -> Option<string>)
    requires Recorded(before, now, ran, number, outcome) && name in before && name !in ran
    ensures Recorded(before, now[name := Record(now, name, number, outcome(name))], ran + [name], number, outcome)
  {
    RecordReadsItsName(now, before, name, number, outcome(name));
    hide Record;
  }

  lemma NoInvokes(w: World, outcome: string -> Option<string>)
    requires w.flight.Some? && w.flight.value.done <= |w.flight.value.order|
    ensures InvokeMany(w, outcome, 0) == w
    ensures Recorded(w.states, w.states, w.flight.value.order[w.flight.value.done..w.flight.value.done], w.serial + 1, outcome)
  {
  }

  lemma LastInvoke(w: World, outcome: string -> Option<string>, k: nat)
    requires k > 0 && w.flight.Some? && w.flight.value.done + k <= |w.flight.value.order|
    ensures var name := w.flight.value.order[w.flight.value.done + k - 1];
      var before := InvokeMany(w, outcome, k - 1).states;
      InvokeMany(w, outcome, k).states == before[name := Record(before, name, w.serial + 1, outcome(name))]
  {
    hide Record;
  }

  lemma OneMoreLayer(f: Flight, last: nat, names: set<string>)
    requires f.done <= last < |f.order| && multiset(f.order) == multiset(names)
    ensures f.order[last] in names && f.order[last] !in f.order[f.done..last]
    ensures f.order[f.done..last + 1] == f.order[f.done..last] + [f.order[last]]
  {
    SameNames(f.order, names);
    AppearsOnce(f.order, names, last);
    assert forall n | n in f.order[f.done..last] :: n in f.order[..last];
  }

  // ---- the guarantees ----

  /** When a bump whose layers all succeeded is about to publish, every layer is
      empty or derived from a source that includes the mutation that caused it. */
  lemma PublishesThroughCleanLayers(w0: World, steps: seq<Step>)
    requires Init(w0) && Legal(w0, steps)
    ensures var w := Run(w0, steps);
      Enabled(w, Publish) && w.flight.value.clean
      ==> forall n | n in w.content :: AtLeast(w.content[n], w.flight.value.cause)
  {
    ReachableInv(w0, steps);
    var w := Run(w0, steps);
    if Enabled(w, Publish) && w.flight.value.clean {
      SameNames(w.flight.value.order, w.invs.Keys);
      forall n | n in w.content
        ensures AtLeast(w.content[n], w.flight.value.cause)
      {
        assert n in w.flight.value.order;
      }
    }
  }

  /** With layers that may fail at any bump: when none is in progress and every
      layer reports up to date, no layer holds anything older than the mutation of
      any published bump. */
  lemma AllUpToDateIsFresh(w0: World, steps: seq<Step>)
    requires Init(w0) && Legal(w0, steps)
    ensures var w := Run(w0, steps);
      w.flight.None? && (forall n | n in w.invs :: UpToDate(w.states, n, w.serial))
      ==> forall i, n | 0 <= i < |w.log| && n in w.content :: AtLeast(w.content[n], w.log[i].cause)
  {
    ReachableInv(w0, steps);
    var w := Run(w0, steps);
    if w.flight.None? && (forall n | n in w.invs :: UpToDate(w.states, n, w.serial)) && w.log != [] {
      var last := |w.log| - 1;
      assert w.log[last].clean;
      forall i, n | 0 <= i < |w.log| && n in w.content
        ensures AtLeast(w.content[n], w.log[i].cause)
      {
        assert w.log[i].cause <= w.log[i].start <= w.log[last].start;
        assert AtLeast(w.content[n], w.log[last].start);
      }
    }
  }

  /** No counter the view depends on was at its maximum when a bump had to move it. */
  ghost predicate NoneExhausted(w: World, from: nat, org: string, addon: string)
    requires LogInv(w)
  {
    forall i | from <= i < |w.log| :: !Exhausted(w.past[i], w.log[i].ev, org, addon)
  }

  lemma {:induction false} ViewsAdvance(w: World, i: nat, j: nat, org: string, addon: string)
    requires LogInv(w) && i <= j <= |w.log| && NoneExhausted(w, i, org, addon)
    ensures LessEq(View(w.past[i], org, addon), View(w.past[j], org, addon))
    decreases j - i
  {
    hide View;
    if i < j {
      ViewsAdvance(w, i, j - 1, org, addon);
      BumpMovesForward(w.past[j - 1], w.log[j - 1].ev, org, addon);
      assert !Exhausted(w.past[j - 1], w.log[j - 1].ev, org, addon);
    }
  }

  /** A token that still equals the current epoch saw every bump of its scope. */
  lemma CurrentTokenSawEveryBump(w: World, r: Reader, i: nat)
    requires Inv(w) && ReaderOk(w, r) && NoneExhausted(w, r.at, r.org, r.addon)
    requires r.tag == View(w.epochs, r.org, r.addon)
    requires i < |w.log| && Touches(w.log[i].ev, r.org, r.addon)
    ensures i < r.at
  {
    if r.at <= i {
      ViewsAdvance(w, r.at, i, r.org, r.addon);
      ViewsAdvance(w, i + 1, |w.log|, r.org, r.addon);
      assert !Exhausted(w.past[i], w.log[i].ev, r.org, r.addon);
      BumpMovesForward(w.past[i], w.log[i].ev, r.org, r.addon);
      hide View, Advance, Touches, Exhausted;
      LessEqAntisymmetric(View(w.past[i], r.org, r.addon), View(w.past[i + 1], r.org, r.addon));
    }
  }

  /** What was read after its token includes the mutation of every published bump
      of its scope, as long as the tag equals the current epoch: always when read
      from the source, and for every clean bump when read through the layers.  What
      was fetched before such a bump was published is detected as stale. */
  lemma CurrentEntriesAreFresh(w0: World, steps: seq<Step>, e: Entry, i: nat)
    requires Init(w0) && Legal(w0, steps)
    ensures var w := Run(w0, steps);
      LogInv(w) &&
      (e in w.entries && e.reader.tag == View(w.epochs, e.reader.org, e.reader.addon)
       && NoneExhausted(w, e.reader.at, e.reader.org, e.reader.addon)
       && i < |w.log| && Touches(w.log[i].ev, e.reader.org, e.reader.addon)
       && (e.fromSource || w.log[i].clean)
       ==> e.version >= w.log[i].cause)
  {
    ReachableInv(w0, steps);
    var w := Run(w0, steps);
    if e in w.entries && e.reader.tag == View(w.epochs, e.reader.org, e.reader.addon)
       && NoneExhausted(w, e.reader.at, e.reader.org, e.reader.addon)
       && i < |w.log| && Touches(w.log[i].ev, e.reader.org, e.reader.addon)
       && (e.fromSource || w.log[i].clean)
    {
      assert EntryOk(w, e);
      CurrentTokenSawEveryBump(w, e.reader, i);
    }
  }

  // ---- what the hypotheses are for ----

  const A := "a"
  const B := "b"
  const FLUSH := Event(0, "", "", Epoch(0, 0, 0), false)

  /** Layer `a` below layer `b`, both empty, at source version 0. */
  function TwoLayers(): World {
    World(Epochs(0, map[], map[]), 0, map[A := Invalidator(10, 1), B := Invalidator(20, 2)],
          map[A := RunState(0, 0, ""), B := RunState(0, 0, "")],
          0, map[A := None, B := None], None, [], [Epochs(0, map[], map[])], {}, {})
  }

  ghost predicate LegalInAnyOrder(w: World, steps: seq<Step>)
    decreases |steps|
  {
    steps == [] || (EnabledInAnyOrder(w, steps[0]) && LegalInAnyOrder(Apply(w, steps[0]), steps[1..]))
  }

  ghost function RunInAnyOrder(w: World, steps: seq<Step>): World
    requires LegalInAnyOrder(w, steps)
    decreases |steps|
  {
    if steps == [] then w else RunInAnyOrder(Apply(w, steps[0]), steps[1..])
  }

  lemma TwoLayerNames()
    ensures Init(TwoLayers()) && multiset([A, B]) == multiset(TwoLayers().invs.Keys) == multiset([B, A])
  {
    assert TwoLayers().invs.Keys == {A, B};
    assert A != B;
    assert multiset({A, B}) == multiset{A, B};
  }

  /** Ascending order is needed: run top-down, a bump whose layers all succeed
      publishes over a layer that refilled from a not yet flushed one. */
  lemma DescendingOrderIsStale() returns (steps: seq<Step>)
    ensures Init(TwoLayers()) && LegalInAnyOrder(TwoLayers(), steps)
    ensures var w := RunInAnyOrder(TwoLayers(), steps);
      |w.log| == 1 && w.log[0].clean && B in w.content && !AtLeast(w.content[B], w.log[0].cause)
  {
    var w := BumpStartsTopDown();
    hide LegalInAnyOrder, RunInAnyOrder;
    var flush, refill, finish := Invoke(None, false), Fill(B, Some(A)), [Invoke(None, false), Publish];
    StalePublish(w);
    Prepend(Apply(w, flush), refill, finish);
    Prepend(w, flush, [refill] + finish);
    var s1, s2, s3 := Fill(A, None), Mutate, Start(FLUSH, 1, [B, A]);
    var tail := [flush] + ([refill] + finish);
    TwoLayerNames();
    Prepend(Apply(Apply(TwoLayers(), s1), s2), s3, tail);
    Prepend(Apply(TwoLayers(), s1), s2, [s3] + tail);
    Prepend(TwoLayers(), s1, [s2] + ([s3] + tail));
    steps := [s1] + ([s2] + ([s3] + tail));
  }

  ghost predicate TopDown(w: World, done: nat, b: Option<nat>) {
    && w.invs == TwoLayers().invs && w.content == map[A := Some(0), B := b] && w.log == []
    && w.flight == Some(Flight(FLUSH, [B, A], done, 1, 1, true))
  }

  lemma BumpStartsTopDown() returns (w: World)
    ensures EnabledInAnyOrder(TwoLayers(), Fill(A, None))
    ensures var v := Apply(Apply(TwoLayers(), Fill(A, None)), Mutate);
      EnabledInAnyOrder(v, Start(FLUSH, 1, [B, A])) && w == Apply(v, Start(FLUSH, 1, [B, A]))
    ensures TopDown(w, 0, None)
  {
    TwoLayerNames();
    w := Apply(Apply(Apply(TwoLayers(), Fill(A, None)), Mutate), Start(FLUSH, 1, [B, A]));
  }

  lemma StalePublish(w: World)
    requires TopDown(w, 0, None)
    ensures EnabledInAnyOrder(w, Invoke(None, false))
    ensures var u := Apply(w, Invoke(None, false));
      EnabledInAnyOrder(u, Fill(B, Some(A))) &&
      var v := Apply(u, Fill(B, Some(A)));
      LegalInAnyOrder(v, [Invoke(None, false), Publish]) &&
      var end := RunInAnyOrder(v, [Invoke(None, false), Publish]);
      |end.log| == 1 && end.log[0].clean && end.content == map[A := None, B := Some(0)] && end.log[0].cause == 1
  {
    hide Record, Advance;
    var u := Apply(w, Invoke(None, false));
    assert TopDown(u, 1, None);
    var v := Apply(u, Fill(B, Some(A)));
    assert TopDown(v, 1, Some(0));
    FinishTopDown(v);
  }

  lemma FinishTopDown(v: World)
    requires TopDown(v, 1, Some(0))
    ensures LegalInAnyOrder(v, [Invoke(None, false), Publish])
    ensures var end := RunInAnyOrder(v, [Invoke(None, false), Publish]);
      |end.log| == 1 && end.log[0].clean && end.content == map[A := None, B := Some(0)] && end.log[0].cause == 1
  {
    hide LegalInAnyOrder, RunInAnyOrder, Record, Advance;
    var x := Apply(v, Invoke(None, false));
    assert x.content == map[A := None, B := Some(0)];
    NoSteps(Apply(x, Publish));
    Prepend(x, Publish, []);
    assert [Publish] + [] == [Publish] && [Invoke(None, false)] + [Publish] == [Invoke(None, false), Publish];
    Prepend(v, Invoke(None, false), [Publish]);
  }

  lemma NoSteps(w: World)
    ensures LegalInAnyOrder(w, []) && RunInAnyOrder(w, []) == w
  {
  }

  lemma Prepend(w: World, s: Step, rest: seq<Step>)
    requires EnabledInAnyOrder(w, s) && LegalInAnyOrder(Apply(w, s), rest)
    ensures LegalInAnyOrder(w, [s] + rest)
    ensures RunInAnyOrder(w, [s] + rest) == RunInAnyOrder(Apply(w, s), rest)
  {
    assert ([s] + rest)[1..] == rest;
  }
}
