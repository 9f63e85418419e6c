/**
 The cache-coherence registry: epochs per scope, ordered invalidators, and the
 watchers that compare epochs.  Counters are 64-bit and wrap.
 */
module CacheRegistry {
  import opened Wrappers
  import opened Sorting

  const MAX_COUNTER := 0xffff_ffff_ffff_ffff

  type Counter = n: int | 0 <= n <= MAX_COUNTER

  function Inc(n: Counter): Counter {
    if n == MAX_COUNTER then 0 else n + 1
  }

  function Max(a: Counter, b: Counter): Counter {
    if b > a then b else a
  }

  datatype Epoch = Epoch(global: Counter, org: Counter, addon: Counter)

  /** An empty `org` and `addon` make the event a global flush. */
  datatype Event = Event(serial: nat, org: string, addon: string, epoch: Epoch, remote: bool)

  datatype Epochs = Epochs(global: Counter, orgs: map<string, Counter>, addons: map<string, Counter>)

  /** The empty string never names a scope. */
  predicate WellFormed(e: Epochs) {
    "" !in e.orgs && "" !in e.addons
  }

  function At(m: map<string, Counter>, key: string): Counter {
    if key in m then m[key] else 0
  }

  /** `Registry.Epoch`: the version vector of one (org, addon) view. */
  function View(e: Epochs, org: string, addon: string): Epoch {
    Epoch(e.global, if org != "" then At(e.orgs, org) else 0, if addon != "" then At(e.addons, addon) else 0)
  }

  function MaxEpoch(a: Epoch, b: Epoch): Epoch {
    Epoch(Max(a.global, b.global), Max(a.org, b.org), Max(a.addon, b.addon))
  }

  predicate IsFlush(ev: Event) {
    ev.org == "" && ev.addon == ""
  }

  /** The epoch the event will publish. */
  function NextEpoch(e: Epochs, ev: Event): Epoch {
    var bumped := Epoch(
      if IsFlush(ev) then Inc(e.global) else e.global,
      if ev.org != "" then Inc(At(e.orgs, ev.org)) else At(e.orgs, ev.org),
      if ev.addon != "" then Inc(At(e.addons, ev.addon)) else At(e.addons, ev.addon));
    if ev.remote then MaxEpoch(bumped, ev.epoch) else bumped
  }

  /** The epochs after the event is published. */
  function Advance(e: Epochs, ev: Event): Epochs {
    var next := NextEpoch(e, ev);
    Epochs(
      if next.global > e.global then next.global else e.global,
      if ev.org != "" then e.orgs[ev.org := next.org] else e.orgs,
      if ev.addon != "" then e.addons[ev.addon := next.addon] else e.addons)
  }

  // ---- what a bump moves ----

  predicate Touches(ev: Event, org: string, addon: string) {
    IsFlush(ev) || (org != "" && ev.org == org) || (addon != "" && ev.addon == addon)
  }

  predicate LessEq(a: Epoch, b: Epoch) {
    a.global <= b.global && a.org <= b.org && a.addon <= b.addon
  }

  /** A counter of the view sits at its maximum and the bump resets it. */
  predicate Wraps(e: Epochs, ev: Event, org: string, addon: string) {
    || (org != "" && ev.org == org && At(e.orgs, org) == MAX_COUNTER && !(ev.remote && ev.epoch.org == MAX_COUNTER))
    || (addon != "" && ev.addon == addon && At(e.addons, addon) == MAX_COUNTER
        && !(ev.remote && ev.epoch.addon == MAX_COUNTER))
  }

  /** A global flush that cannot move the exhausted global counter. */
  predicate Stuck(e: Epochs, ev: Event) {
    IsFlush(ev) && e.global == MAX_COUNTER
  }

  /** A counter the bump has to move for this view is at its maximum. */
  predicate Exhausted(e: Epochs, ev: Event, org: string, addon: string) {
    || Stuck(e, ev)
    || (org != "" && ev.org == org && At(e.orgs, org) == MAX_COUNTER)
    || (addon != "" && ev.addon == addon && At(e.addons, addon) == MAX_COUNTER)
  }

  /** A bump, local or remote, never moves a view backwards, save for the wrap of
      an exhausted counter, and it moves every view it names. */
  lemma BumpMovesForward(e: Epochs, ev: Event, org: string, addon: string)
    ensures LessEq(View(e, org, addon), View(Advance(e, ev), org, addon)) <==> !Wraps(e, ev, org, addon)
    ensures Touches(ev, org, addon) && !Exhausted(e, ev, org, addon)
            ==> View(Advance(e, ev), org, addon) != View(e, org, addon)
    ensures WellFormed(e) ==> WellFormed(Advance(e, ev))
  {
    var next := NextEpoch(e, ev);
    assert ev.org != "" ==> (next.org < At(e.orgs, ev.org) <==>
      At(e.orgs, ev.org) == MAX_COUNTER && !(ev.remote && ev.epoch.org == MAX_COUNTER));
  }

  /** A local bump moves exactly the views its scope names. */
  lemma LocalBumpMovesItsScope(e: Epochs, ev: Event, org: string, addon: string)
    requires !ev.remote
    ensures View(Advance(e, ev), org, addon) != View(e, org, addon)
            <==> Touches(ev, org, addon) && !Stuck(e, ev)
    ensures var was, now := View(e, org, addon), View(Advance(e, ev), org, addon);
      && (now.global != was.global ==> IsFlush(ev))
      && (now.org != was.org ==> ev.org == org)
      && (now.addon != was.addon ==> ev.addon == addon)
  {
    assert Inc(At(e.orgs, ev.org)) != At(e.orgs, ev.org);
    assert Inc(At(e.addons, ev.addon)) != At(e.addons, ev.addon);
  }

  /** A local bump advances exactly the named counters, each by one; an exhausted scope
      counter starts again, an exhausted global one stays. */
  lemma LocalBumpAdvancesByOne(e: Epochs, ev: Event)
    requires !ev.remote
    ensures var f := Advance(e, ev);
      && f.global == (if IsFlush(ev) && e.global < MAX_COUNTER then e.global + 1 else e.global)
      && (forall o :: At(f.orgs, o) == if o == "" || o != ev.org then At(e.orgs, o)
                                       else if At(e.orgs, o) == MAX_COUNTER then 0 else At(e.orgs, o) + 1)
      && (forall a :: At(f.addons, a) == if a == "" || a != ev.addon then At(e.addons, a)
                                         else if At(e.addons, a) == MAX_COUNTER then 0 else At(e.addons, a) + 1)
  {
  }

  /** A peer's event advances the named counters to at least the announced values: each
      ends at the greater of the announced value and what the event would give as a local one. */
  lemma RemoteReachesAnnounced(e: Epochs, ev: Event)
    requires ev.remote
    ensures var f, l := Advance(e, ev), Advance(e, ev.(remote := false));
      && f.global >= ev.epoch.global && f.global >= l.global
      && (f.global == ev.epoch.global || f.global == l.global)
      && (ev.org != "" ==>
            && At(f.orgs, ev.org) >= ev.epoch.org && At(f.orgs, ev.org) >= At(l.orgs, ev.org)
            && (At(f.orgs, ev.org) == ev.epoch.org || At(f.orgs, ev.org) == At(l.orgs, ev.org)))
      && (ev.addon != "" ==>
            && At(f.addons, ev.addon) >= ev.epoch.addon && At(f.addons, ev.addon) >= At(l.addons, ev.addon)
            && (At(f.addons, ev.addon) == ev.epoch.addon || At(f.addons, ev.addon) == At(l.addons, ev.addon)))
      && (forall o | o != ev.org :: At(f.orgs, o) == At(e.orgs, o))
      && (forall a | a != ev.addon :: At(f.addons, a) == At(e.addons, a))
  {
  }

  // ---- histories ----

  function Replay(e: Epochs, evs: seq<Event>): Epochs
    decreases |evs|
  {
    if evs == [] then e else Replay(Advance(e, evs[0]), evs[1..])
  }

  lemma {:induction false} ReplaySplit(e: Epochs, evs: seq<Event>, more: seq<Event>)
    ensures Replay(e, evs + more) == Replay(Replay(e, evs), more)
    decreases |evs|
  {
    hide Advance;
    if evs == [] {
      assert evs + more == more;
    } else {
      assert (evs + more)[0] == evs[0] && (evs + more)[1..] == evs[1..] + more;
      ReplaySplit(Advance(e, evs[0]), evs[1..], more);
    }
  }

  predicate NeverWraps(e: Epochs, evs: seq<Event>, org: string, addon: string)
    decreases |evs|
  {
    evs == [] || (!Wraps(e, evs[0], org, addon) && NeverWraps(Advance(e, evs[0]), evs[1..], org, addon))
  }

  /** Some event of the history changed the view. */
  predicate Moved(e: Epochs, evs: seq<Event>, org: string, addon: string)
    decreases |evs|
  {
    evs != [] && (View(Advance(e, evs[0]), org, addon) != View(e, org, addon)
                  || Moved(Advance(e, evs[0]), evs[1..], org, addon))
  }

  lemma LessEqAntisymmetric(a: Epoch, b: Epoch)
    requires LessEq(a, b) && LessEq(b, a)
    ensures a == b
  {
  }

  /** Over any history of local and remote bumps a view only moves forward, and it
      is back at an earlier value only if it never left it: comparing with the
      epoch seen at the last refresh detects every change. */
  lemma {:induction false} OldEpochsNeverReturn(e: Epochs, evs: seq<Event>, org: string, addon: string)
    requires NeverWraps(e, evs, org, addon)
    ensures LessEq(View(e, org, addon), View(Replay(e, evs), org, addon))
    ensures View(Replay(e, evs), org, addon) != View(e, org, addon) <==> Moved(e, evs, org, addon)
    decreases |evs|
  {
    if evs != [] {
      var f := Advance(e, evs[0]);
      BumpMovesForward(e, evs[0], org, addon);
      OldEpochsNeverReturn(f, evs[1..], org, addon);
      hide View, Advance;
      if View(Replay(e, evs), org, addon) == View(e, org, addon) {
        LessEqAntisymmetric(View(e, org, addon), View(f, org, addon));
      }
    }
  }

  /** The event a peer publishes for its local bump, as a replica receives it. */
  function Announced(peer: Epochs, ev: Event): Event {
    ev.(epoch := NextEpoch(peer, ev), remote := true)
  }

  /** A replica that has applied a peer's event is, for the scope the event names, never
      behind what the peer published, whatever it did before and does after, as long as
      no counter wraps. */
  lemma ReplicaCatchesUp(peer: Epochs, ev: Event, replica: Epochs, before: seq<Event>, later: seq<Event>)
    requires !ev.remote && !Exhausted(peer, ev, ev.org, ev.addon)
    requires NeverWraps(Replay(replica, before + [Announced(peer, ev)]), later, ev.org, ev.addon)
    ensures LessEq(View(Advance(peer, ev), ev.org, ev.addon),
                   View(Replay(replica, before + [Announced(peer, ev)] + later), ev.org, ev.addon))
  {
    var a := Announced(peer, ev);
    var r := Replay(replica, before);
    ReplaySplit(replica, before, [a]);
    ReplaySplit(replica, before + [a], later);
    assert [a][1..] == [] && Replay(r, [a]) == Advance(r, a);
    OldEpochsNeverReturn(Advance(r, a), later, ev.org, ev.addon);
    RemoteReachesAnnounced(r, a);
    hide Replay, NeverWraps, Moved;
  }

  /** The condition is needed: a peer that announces the largest counter makes the next
      local bump wrap, and an old view can come back. */
  lemma WrappingBringsOldEpochsBack() returns (e: Epochs, evs: seq<Event>)
    ensures View(Replay(e, evs), "o", "") == View(e, "o", "") && Moved(e, evs, "o", "")
  {
    e := Epochs(1, map["o" := 5], map[]);
    var jump := Event(0, "o", "", Epoch(0, MAX_COUNTER, 0), true);
    var bump := Event(0, "o", "", Epoch(0, 0, 0), false);
    var back := Event(0, "o", "", Epoch(0, 5, 0), true);
    evs := [jump, bump, back];
    var e1 := Advance(e, jump);
    var e2 := Advance(e1, bump);
    var e3 := Advance(e2, back);
    assert "o" != "" && At(e1.orgs, "o") == MAX_COUNTER && At(e2.orgs, "o") == 0 && At(e3.orgs, "o") == 5;
    assert evs[1..] == [bump, back] && [bump, back][1..] == [back] && [back][1..] == [];
    assert Replay(e2, [back]) == e3;
    assert Replay(e1, [bump, back]) == e3;
  }

  predicate NeverStuck(e: Epochs, evs: seq<Event>)
    decreases |evs|
  {
    evs == [] || (!Stuck(e, evs[0]) && NeverStuck(Advance(e, evs[0]), evs[1..]))
  }

  /** With local bumps only, the view moved exactly when some bump named it. */
  lemma {:induction false} MovedByItsScope(e: Epochs, evs: seq<Event>, org: string, addon: string)
    requires forall ev | ev in evs :: !ev.remote
    requires NeverStuck(e, evs)
    ensures Moved(e, evs, org, addon) <==> exists ev :: ev in evs && Touches(ev, org, addon)
    decreases |evs|
  {
    if evs != [] {
      LocalBumpMovesItsScope(e, evs[0], org, addon);
      MovedByItsScope(Advance(e, evs[0]), evs[1..], org, addon);
      hide View, Advance, Touches;
      assert forall ev :: ev in evs <==> ev == evs[0] || ev in evs[1..];
    }
  }

  // ---- the view of a whole organization ----

  ghost function SumOf(m: map<string, Counter>): nat {
    if m == map[] then 0
    else
      var k :| k in m;
      m[k] + SumOf(m - {k})
  }

  lemma {:induction false} SumWithout(m: map<string, Counter>, k: string)
    requires k in m
    ensures SumOf(m) == m[k] + SumOf(m - {k})
    decreases m
  {
    var j :| j in m && SumOf(m) == m[j] + SumOf(m - {j});
    if j != k {
      SumWithout(m - {j}, k);
      SumWithout(m - {k}, j);
      assert m - {j} - {k} == m - {k} - {j};
    }
  }

  lemma SumUpdate(m: map<string, Counter>, k: string, v: Counter)
    ensures SumOf(m[k := v]) == SumOf(m) - At(m, k) + v
  {
    var n := m[k := v];
    SumWithout(n, k);
    assert n - {k} == m - {k};
    if k in m {
      SumWithout(m, k);
    } else {
      assert m - {k} == m;
    }
  }

  /** `Registry.ViewEpoch`, whose addon component is a wrapping sum. */
  ghost function OrgView(e: Epochs, org: string): Epoch {
    Epoch(e.global, if org != "" then At(e.orgs, org) else 0, SumOf(e.addons) % (MAX_COUNTER + 1))
  }

  /** The peer's announcement keeps an exhausted counter where it is. */
  predicate Pinned(ev: Event, was: Counter, announced: Counter) {
    ev.remote && was == MAX_COUNTER && announced == MAX_COUNTER
  }

  /** The bump names the organization, any addon, or everything, or a peer announces a
      later global component; and the counter it moves is not stuck at its maximum. */
  predicate TouchesOrgView(e: Epochs, ev: Event, org: string) {
    || (IsFlush(ev) && e.global < MAX_COUNTER)
    || (ev.remote && ev.epoch.global > e.global)
    || (org != "" && ev.org == org && !Pinned(ev, At(e.orgs, org), ev.epoch.org))
    || (ev.addon != "" && !Pinned(ev, At(e.addons, ev.addon), ev.epoch.addon))
  }

  /** The organization's view moves with exactly the bumps, local or remote, that can
      change what the organization sees. */
  lemma OrgViewMoves(e: Epochs, ev: Event, org: string)
    ensures OrgView(Advance(e, ev), org) != OrgView(e, org) <==> TouchesOrgView(e, ev, org)
  {
    if ev.addon != "" {
      SumUpdate(e.addons, ev.addon, NextEpoch(e, ev).addon);
      WrappedSumMoves(SumOf(e.addons), At(e.addons, ev.addon), NextEpoch(e, ev).addon);
    }
  }

  /** A counter that counts for the view is exhausted and the bump resets it. */
  predicate WrapsOrgView(e: Epochs, ev: Event, org: string) {
    || (org != "" && ev.org == org && At(e.orgs, org) == MAX_COUNTER && !Pinned(ev, At(e.orgs, org), ev.epoch.org))
    || (ev.addon != "" && At(e.addons, ev.addon) == MAX_COUNTER && !Pinned(ev, At(e.addons, ev.addon), ev.epoch.addon))
  }

  predicate OrgViewNeverWraps(e: Epochs, evs: seq<Event>, org: string)
    decreases |evs|
  {
    evs == [] || (!WrapsOrgView(e, evs[0], org) && OrgViewNeverWraps(Advance(e, evs[0]), evs[1..], org))
  }

  predicate SomeTouchOrgView(e: Epochs, evs: seq<Event>, org: string)
    decreases |evs|
  {
    evs != [] && (TouchesOrgView(e, evs[0], org) || SomeTouchOrgView(Advance(e, evs[0]), evs[1..], org))
  }

  /** The counters behind the view, the sum not yet cut to 64 bits. */
  ghost predicate OrgCountersLessEq(e: Epochs, f: Epochs, org: string) {
    e.global <= f.global && OrgView(e, org).org <= OrgView(f, org).org && SumOf(e.addons) <= SumOf(f.addons)
  }

  ghost predicate OrgCountersEqual(e: Epochs, f: Epochs, org: string) {
    e.global == f.global && OrgView(e, org).org == OrgView(f, org).org && SumOf(e.addons) == SumOf(f.addons)
  }

  lemma OrgCountersGrow(e: Epochs, ev: Event, org: string)
    requires !WrapsOrgView(e, ev, org)
    ensures OrgCountersLessEq(e, Advance(e, ev), org)
    ensures OrgCountersEqual(e, Advance(e, ev), org) <==> !TouchesOrgView(e, ev, org)
  {
    if ev.addon != "" {
      SumUpdate(e.addons, ev.addon, NextEpoch(e, ev).addon);
    }
  }

  lemma {:induction false} OrgCountersOverHistory(e: Epochs, evs: seq<Event>, org: string)
    requires OrgViewNeverWraps(e, evs, org)
    ensures OrgCountersLessEq(e, Replay(e, evs), org)
    ensures OrgCountersEqual(e, Replay(e, evs), org) <==> !SomeTouchOrgView(e, evs, org)
    decreases |evs|
  {
    if evs != [] {
      OrgCountersGrow(e, evs[0], org);
      OrgCountersOverHistory(Advance(e, evs[0]), evs[1..], org);
      hide Advance, TouchesOrgView, WrapsOrgView;
    }
  }

  /** Over any history without a wrapped counter the view changed exactly when some bump
      touched it, unless the addon counters together advanced by a whole number of 2^64
      and nothing else moved: the sum is the one component that can come back. */
  lemma OrgViewReturnsIff(e: Epochs, evs: seq<Event>, org: string)
    requires OrgViewNeverWraps(e, evs, org)
    ensures var f := Replay(e, evs);
      OrgView(f, org) == OrgView(e, org) && SomeTouchOrgView(e, evs, org) <==>
        && f.global == e.global && OrgView(f, org).org == OrgView(e, org).org
        && SumOf(f.addons) > SumOf(e.addons) && (SumOf(f.addons) - SumOf(e.addons)) % (MAX_COUNTER + 1) == 0
  {
    OrgCountersOverHistory(e, evs, org);
    hide SumOf, Replay, OrgViewNeverWraps, SomeTouchOrgView;
    SameRemainder(SumOf(Replay(e, evs).addons), SumOf(e.addons));
  }

  lemma SameRemainder(a: int, b: int)
    ensures a % (MAX_COUNTER + 1) == b % (MAX_COUNTER + 1) <==> (a - b) % (MAX_COUNTER + 1) == 0
  {
  }

  /** It does come back: one addon jumps to the maximum, another takes one step. */
  lemma OrgViewComesBack() returns (e: Epochs, evs: seq<Event>)
    ensures OrgViewNeverWraps(e, evs, "o") && SomeTouchOrgView(e, evs, "o")
    ensures OrgView(Replay(e, evs), "o") == OrgView(e, "o")
  {
    e := Epochs(1, map[], map[]);
    var jump := Event(0, "", "a", Epoch(0, 0, MAX_COUNTER), true);
    var bump := Event(0, "", "b", Epoch(0, 0, 0), false);
    evs := [jump, bump];
    assert "b"[0] != "a"[0];
    var f := Epochs(1, map[], map["a" := MAX_COUNTER]);
    var g := Epochs(1, map[], map["a" := MAX_COUNTER, "b" := 1]);
    assert Advance(e, jump) == f && Advance(f, bump) == g;
    assert TouchesOrgView(e, jump, "o") && !WrapsOrgView(e, jump, "o") && !WrapsOrgView(f, bump, "o");
    TwoEvents(e, jump, bump, f, g, "o");
    SumUpdate(map[], "a", MAX_COUNTER);
    SumUpdate(f.addons, "b", 1);
    assert f.addons == map["a" := MAX_COUNTER] && g.addons == f.addons["b" := 1];
    assert SumOf(g.addons) == MAX_COUNTER + 1 && SumOf(e.addons) == 0;
  }

  lemma TwoEvents(e: Epochs, a: Event, b: Event, f: Epochs, g: Epochs, org: string)
    requires Advance(e, a) == f && Advance(f, b) == g
    requires TouchesOrgView(e, a, org) && !WrapsOrgView(e, a, org) && !WrapsOrgView(f, b, org)
    ensures Replay(e, [a, b]) == g && OrgViewNeverWraps(e, [a, b], org) && SomeTouchOrgView(e, [a, b], org)
  {
    hide Advance, TouchesOrgView, WrapsOrgView;
    assert [a, b][1..] == [b] && [b][1..] == [];
    assert Replay(f, [b]) == g && OrgViewNeverWraps(f, [b], org);
  }

  function WrapAdd(a: Counter, b: Counter): Counter {
    (a + b) % (MAX_COUNTER + 1)
  }

  lemma WrapOnce(a: Counter, b: Counter, rest: int)
    ensures (WrapAdd(a, b) + rest) % (MAX_COUNTER + 1) == (a + b + rest) % (MAX_COUNTER + 1)
  {
  }

  lemma WrappedSumMoves(sum: int, was: Counter, now: Counter)
    ensures (sum - was + now) % (MAX_COUNTER + 1) != sum % (MAX_COUNTER + 1) <==> now != was
  {
    SameRemainder(sum - was + now, sum);
  }

  // ---- invalidators ----

  /** `id` is the registration that owns the slot. */
  datatype Invalidator = Invalidator(order: int, id: nat)

  datatype RunState = RunState(runs: nat, lastSeq: nat, lastErr: string)

  function OrderOf(invs: map<string, Invalidator>, name: string): int {
    if name in invs then invs[name].order else 0
  }

  /** Ascending order, ties broken by name. */
  predicate RunsBefore(invs: map<string, Invalidator>, a: string, b: string) {
    OrderOf(invs, a) < OrderOf(invs, b) || (OrderOf(invs, a) == OrderOf(invs, b) && Less(a, b))
  }

  lemma RunsBeforeIsStrict(invs: map<string, Invalidator>)
    ensures StrictWeakOrder((a: string, b: string) => RunsBefore(invs, a, b))
  {
    LessIsStrict();
  }

  /** Every registered layer exactly once, lower orders first. */
  ghost predicate InvocationOrder(invs: map<string, Invalidator>, called: seq<string>) {
    && multiset(called) == multiset(invs.Keys)
    && SortedBy((a: string, b: string) => RunsBefore(invs, a, b), called)
  }

  /** The layer's record after its function returned: None is success.  A failure
      leaves `lastSeq` behind. */
  function Record(states: map<string, RunState>, name: string, serial: nat, outcome: Option<string>): RunState {
    var was := if name in states then states[name] else RunState(0, 0, "");
    match outcome
    case None => RunState(was.runs + 1, serial, "")
    case Some(err) => RunState(was.runs + 1, was.lastSeq, err)
  }

  predicate UpToDate(states: map<string, RunState>, name: string, serial: nat) {
    name in states && states[name].lastErr == "" && states[name].lastSeq >= serial
  }

  class Registry {
    var global: Counter
    var serial: nat
    var orgs: map<string, Counter>
    var addons: map<string, Counter>
    var invs: map<string, Invalidator>
    var states: map<string, RunState>
    var regSeq: nat
    /** The epochs at creation and every bump since. */
    ghost const start: Epochs
    ghost var history: seq<Event>

    ghost predicate Valid()
      reads this
    {
      && WellFormed(Current()) && Current() == Replay(start, history)
      && invs.Keys <= states.Keys
      && (forall n | n in invs :: invs[n].id <= regSeq)
      && (forall n | n in states :: states[n].lastSeq <= serial)
    }

    function Current(): Epochs
      reads this
    {
      Epochs(global, orgs, addons)
    }

    constructor (first: Counter)
      ensures Valid() && Current() == Epochs(first, map[], map[]) && serial == 0 && invs == map[] && history == []
    {
      global, serial, regSeq := first, 0, 0;
      orgs, addons, invs, states := map[], map[], map[], map[];
      start, history := Epochs(first, map[], map[]), [];
    }

    /** Adds or replaces a layer; a new one starts consistent with the present. */
    method Register(name: string, order: int) returns (id: nat)
      requires Valid()
      modifies this`regSeq, this`invs, this`states
      ensures Valid()
      ensures name == "" ==> invs == old(invs) && states == old(states)
      ensures name != "" ==> invs == old(invs)[name := Invalidator(order, id)] && id > old(regSeq)
      ensures name != "" ==> states == (if name in old(states) then old(states)
                                        else old(states)[name := RunState(0, serial, "")])
      ensures name != "" ==> UpToDate(states, name, serial) || name in old(states)
    {
      if name == "" {
        return 0;
      }
      regSeq := regSeq + 1;
      id := regSeq;
      invs := invs[name := Invalidator(order, id)];
      if name !in states {
        states := states[name := RunState(0, serial, "")];
      }
    }

    /** Removes the layer unless it was registered again since. */
    method Unregister(name: string, id: nat)
      requires Valid()
      modifies this`invs, this`states
      ensures Valid()
      ensures var mine := name in old(invs) && old(invs)[name].id == id;
        invs == (if mine then old(invs) - {name} else old(invs)) &&
        states == (if mine then old(states) - {name} else old(states))
    {
      if name in invs && invs[name].id == id {
        invs := invs - {name};
        states := states - {name};
      }
    }

    method Names() returns (names: seq<string>)
      ensures multiset(names) == multiset(invs.Keys)
    {
      names := [];
      var rest := invs.Keys;
      while rest != {}
        invariant rest <= invs.Keys
        invariant multiset(names) == multiset(invs.Keys - rest)
        decreases rest
      {
        var n :| n in rest;
        assert invs.Keys - (rest - {n}) == (invs.Keys - rest) + {n};
        names := names + [n];
        rest := rest - {n};
      }
      assert invs.Keys - rest == invs.Keys;
    }

    /** The registered layers in the order a bump runs them. */
    method Ordered() returns (called: seq<string>)
      ensures InvocationOrder(invs, called)
    {
      var names := Names();
      var layers := invs;
      called := Sort((a: string, b: string) => RunsBefore(layers, a, b), names);
      RunsBeforeIsStrict(layers);
      SortSorts((a: string, b: string) => RunsBefore(layers, a, b), names);
    }

    /** Runs the layers one by one; a failure is recorded and does not stop the rest. */
    method Invalidate(called: seq<string>, number: nat, outcome: string -> Option<string>)
      returns (failed: seq<string>)
      requires Valid() && multiset(called) == multiset(invs.Keys)
      modifies this`states
      ensures states.Keys == old(states).Keys
      ensures forall n | n in states ::
        states[n] == (if n in invs then Record(old(states), n, number, outcome(n)) else old(states)[n])
      ensures forall n :: n in failed <==> n in invs && outcome(n).Some?
    {
      hide Record;
      SameNames(called, invs.Keys);
      failed := [];
      var i := 0;
      while i < |called|
        invariant 0 <= i <= |called|
        invariant states.Keys == old(states).Keys
        invariant forall n | n in states ::
          states[n] == (if n in called[..i] then Record(old(states), n, number, outcome(n)) else old(states)[n])
        invariant forall n :: n in failed <==> n in called[..i] && outcome(n).Some?
      {
        var name := called[i];
        AppearsOnce(called, invs.Keys, i);
        RecordReadsItsName(states, old(states), name, number, outcome(name));
        states := states[name := Record(states, name, number, outcome(name))];
        if outcome(name).Some? {
          failed := failed + [name];
        }
        assert called[..i + 1] == called[..i] + [name];
        i := i + 1;
      }
      assert called[..i] == called;
    }

    /** Makes the new epoch visible; never moves the global component back. */
    method Publish(ev: Event, next: Epoch, number: nat)
      modifies this`global, this`serial, this`orgs, this`addons
      ensures serial == number
      ensures next == NextEpoch(old(Current()), ev) ==> Current() == Advance(old(Current()), ev)
    {
      serial := number;
      if next.global > global {
        global := next.global;
      }
      if ev.org != "" {
        orgs := orgs[ev.org := next.org];
      }
      if ev.addon != "" {
        addons := addons[ev.addon := next.addon];
      }
    }

    /** One bump: run every layer in order, record how it went, then publish. */
    method Run(ev: Event, outcome: string -> Option<string>)
      returns (published: Event, called: seq<string>, failed: seq<string>)
      requires Valid()
      modifies this`global, this`serial, this`orgs, this`addons, this`states, this`history
      ensures Valid() && history == old(history) + [ev]
      ensures InvocationOrder(invs, called)
      ensures Current() == Advance(old(Current()), ev) && serial == old(serial) + 1
      ensures published == ev.(serial := serial, epoch := NextEpoch(old(Current()), ev))
      ensures states.Keys == old(states).Keys
      ensures forall n | n in states ::
        states[n] == (if n in invs then Record(old(states), n, serial, outcome(n)) else old(states)[n])
      ensures forall n :: n in failed <==> n in invs && outcome(n).Some?
      ensures forall n | n in invs ::
        && (UpToDate(states, n, serial) <==> outcome(n).None?)
        && states[n].runs == old(states)[n].runs + 1
    {
      var next := NextEpoch(Current(), ev);
      var number := serial + 1;
      called := Ordered();
      failed := Invalidate(called, number, outcome);
      Publish(ev, next, number);
      ReplaySplit(start, history, [ev]);
      history := history + [ev];
      published := ev.(serial := number, epoch := next);
    }

    /** The organization's view, summing the addons one by one. */
    method ViewEpoch(org: string) returns (e: Epoch)
      requires Valid()
      ensures e == OrgView(Current(), org)
    {
      var sum: Counter := 0;
      var rest := addons;
      while rest != map[]
        invariant rest.Keys <= addons.Keys
        invariant forall k | k in rest :: rest[k] == addons[k]
        invariant (sum + SumOf(rest)) % (MAX_COUNTER + 1) == SumOf(addons) % (MAX_COUNTER + 1)
        decreases rest
      {
        var k :| k in rest;
        SumWithout(rest, k);
        WrapOnce(sum, rest[k], SumOf(rest - {k}));
        sum := WrapAdd(sum, rest[k]);
        rest := rest - {k};
      }
      e := Epoch(global, if org != "" then At(orgs, org) else 0, sum);
    }

    /** `Status().AllUpToDate`. */
    method AllUpToDate() returns (all: bool)
      requires Valid()
      ensures all <==> forall n | n in invs :: UpToDate(states, n, serial)
    {
      all := true;
      var rest := invs.Keys;
      while rest != {}
        invariant rest <= invs.Keys
        invariant all <==> forall n | n in invs.Keys - rest :: UpToDate(states, n, serial)
        decreases rest
      {
        var n :| n in rest;
        if !UpToDate(states, n, serial) {
          all := false;
        }
        rest := rest - {n};
      }
    }
  }

  lemma SameNames(xs: seq<string>, names: set<string>)
    requires multiset(xs) == multiset(names)
    ensures forall n :: n in xs <==> n in names
  {
    assert forall n :: n in xs <==> n in multiset(xs);
  }

  lemma RecordReadsItsName(a: map<string, RunState>, b: map<string, RunState>, name: string, number: nat,
                           outcome: Option<string>)
    requires name in a && name in b && a[name] == b[name]
    ensures Record(a, name, number, outcome) == Record(b, name, number, outcome)
  {
  }

  lemma AppearsOnce(xs: seq<string>, names: set<string>, i: nat)
    requires multiset(xs) == multiset(names) && i < |xs|
    ensures xs[i] !in xs[..i]
  {
    assert xs == xs[..i] + [xs[i]] + xs[i + 1..];
    assert multiset(xs) == multiset(xs[..i]) + multiset{xs[i]} + multiset(xs[i + 1..]);
    assert multiset(names)[xs[i]] <= 1;
    assert multiset(xs[..i])[xs[i]] == 0;
  }

  /** Asks whether the world changed since its holder last filled itself. */
  class Watcher {
    const registry: Registry
    const org: string
    const addon: string
    var seen: Epoch
    /** How many of the registry's bumps had been published at the last refresh. */
    ghost var at: nat

    ghost predicate Valid()
      reads this, registry
    {
      && registry.Valid() && at <= |registry.history|
      && seen == View(Then(), org, addon)
    }

    /** The epochs at the last refresh. */
    ghost function Then(): Epochs
      requires at <= |registry.history|
      reads this, registry
    {
      Replay(registry.start, registry.history[..at])
    }

    /** The bumps since the last refresh. */
    ghost function Since(): seq<Event>
      requires at <= |registry.history|
      reads this, registry
    {
      registry.history[at..]
    }

    constructor (registry: Registry, org: string, addon: string)
      requires registry.Valid()
      ensures this.registry == registry && this.org == org && this.addon == addon
      ensures Valid() && Since() == []
    {
      this.registry, this.org, this.addon := registry, org, addon;
      seen := View(registry.Current(), org, addon);
      at := |registry.history|;
      new;
      assert registry.history[..at] == registry.history;
    }

    /** Stale exactly when some bump since the last refresh moved the watched view; when
        all of them were local, exactly when one of them named it. */
    method Stale() returns (stale: bool)
      requires Valid()
      ensures stale <==> View(registry.Current(), org, addon) != seen
      ensures NeverWraps(Then(), Since(), org, addon) ==> (stale <==> Moved(Then(), Since(), org, addon))
      ensures NeverWraps(Then(), Since(), org, addon) && NeverStuck(Then(), Since())
              && (forall ev | ev in Since() :: !ev.remote)
              ==> (stale <==> exists ev :: ev in Since() && Touches(ev, org, addon))
    {
      stale := View(registry.Current(), org, addon) != seen;
      assert registry.history == registry.history[..at] + registry.history[at..];
      ReplaySplit(registry.start, registry.history[..at], registry.history[at..]);
      if NeverWraps(Then(), Since(), org, addon) {
        OldEpochsNeverReturn(Then(), Since(), org, addon);
      }
      if NeverStuck(Then(), Since()) && forall ev | ev in Since() :: !ev.remote {
        MovedByItsScope(Then(), Since(), org, addon);
      }
    }

    /** Marks the watcher current and reports whether it had been stale. */
    method Refresh() returns (was: bool)
      requires Valid()
      modifies this
      ensures Valid() && Since() == [] && seen == View(registry.Current(), org, addon)
      ensures was <==> old(seen) != seen
      ensures NeverWraps(old(Then()), old(Since()), org, addon) ==> (was <==> Moved(old(Then()), old(Since()), org, addon))
    {
      was := Stale();
      seen := View(registry.Current(), org, addon);
      at := |registry.history|;
      assert registry.history[..at] == registry.history;
    }
  }

  /** Bumps leave a watcher valid: they only add to what it has not seen. */
  twostate lemma WatcherOutlivesBumps(w: Watcher)
    requires old(w.Valid()) && w.registry.Valid() && old(w.registry.history) <= w.registry.history
    requires w.at == old(w.at) && w.seen == old(w.seen)
    ensures w.Valid() && w.Then() == old(w.Then()) && old(w.Since()) <= w.Since()
  {
    assert w.registry.history[..w.at] == old(w.registry.history)[..w.at];
  }
}
