/**
 The provider resolver: which installed providers a call reaches for an
 organization, a market and a capability.
 */
module Resolver {
  import opened Wrappers
  import opened Sorting

  datatype Status = Unset | Ready | NotConfigured | Unhealthy

  datatype Provider = Provider(addon: string, countries: seq<string>, isDefault: bool, markets: seq<string>,
                               priority: int, status: Status)

  datatype Market = Market(code: string, countries: seq<string>)

  datatype Reason = NoProvider | AmbiguousProvider | NoneConfigured

  datatype Outcome = Chosen(providers: seq<Provider>) | Failed(reason: Reason, candidates: seq<string>)

  const MAX_INT := 0x7fff_ffff_ffff_ffff

  function FoldChar(c: char): char {
    if 'A' <= c <= 'Z' then (c as int + 32) as char else c
  }

  /** Case folding of ASCII keys and codes. */
  function Fold(s: string): string {
    seq(|s|, i requires 0 <= i < |s| => FoldChar(s[i]))
  }

  predicate Usable(p: Provider) {
    p.status != NotConfigured
  }

  predicate Serves(p: Provider, m: Market) {
    || p.countries == [] || m.countries == []
    || exists i, j | 0 <= i < |p.countries| && 0 <= j < |m.countries| :: Fold(p.countries[i]) == Fold(m.countries[j])
  }

  predicate SelectedFor(p: Provider, code: string) {
    code != "" && exists i | 0 <= i < |p.markets| :: Fold(p.markets[i]) == Fold(code)
  }

  /** Lower wins; no priority comes after every positive one. */
  function Rank(p: Provider): int {
    if p.priority > 0 then p.priority else MAX_INT
  }

  function Keep(ps: seq<Provider>, f: Provider -> bool): (r: seq<Provider>)
    ensures forall p :: p in r <==> p in ps && f(p)
    ensures |r| <= |ps|
  {
    if ps == [] then []
    else if f(ps[0]) then [ps[0]] + Keep(ps[1..], f)
    else Keep(ps[1..], f)
  }

  lemma KeepNone(f: Provider -> bool)
    ensures Keep([], f) == []
  {
  }

  lemma KeepAppend(ps: seq<Provider>, p: Provider, f: Provider -> bool)
    ensures Keep(ps + [p], f) == Keep(ps, f) + (if f(p) then [p] else [])
  {
    if ps == [] {
      assert ps + [p] == [p];
    } else {
      KeepAppend(ps[1..], p, f);
      assert (ps + [p])[1..] == ps[1..] + [p];
    }
  }

  function Selecting(code: string): Provider -> bool { (p: Provider) => SelectedFor(p, code) }

  function Serving(m: Market): Provider -> bool { (p: Provider) => Serves(p, m) }

  function Defaults(): Provider -> bool { (p: Provider) => p.isDefault }

  function Ranked(rank: int): Provider -> bool { (p: Provider) => Rank(p) == rank }

  function Names(ps: seq<Provider>): seq<string> {
    seq(|ps|, i requires 0 <= i < |ps| => ps[i].addon)
  }

  // ---- the specification ----

  predicate ByAddon(p: Provider, q: Provider) {
    Less(p.addon, q.addon)
  }

  /** The first non-empty tier: the market's selection, the defaults, the eligible.
      A fan-out has no default tier. */
  function Tier(fanout: bool, ps: seq<Provider>, m: Market): seq<Provider> {
    var selected := Keep(ps, Selecting(m.code));
    var eligible := Keep(ps, Serving(m));
    var defaults := Keep(eligible, Defaults());
    if selected != [] then selected
    else if !fanout && defaults != [] then defaults
    else eligible
  }

  function LeastRank(ps: seq<Provider>): int
    requires ps != []
  {
    if |ps| == 1 then Rank(ps[0])
    else
      var rest := LeastRank(ps[..|ps| - 1]);
      if Rank(ps[|ps| - 1]) < rest then Rank(ps[|ps| - 1]) else rest
  }

  function BestRanked(ps: seq<Provider>): seq<Provider>
    requires ps != []
  {
    Keep(ps, Ranked(LeastRank(ps)))
  }

  function Decide(fanout: bool, sorted: seq<Provider>, m: Market): Outcome {
    var tier := Tier(fanout, sorted, m);
    var usable := Keep(tier, Usable);
    if tier == [] then Failed(NoProvider, Names(sorted))
    else if usable == [] then Failed(NoneConfigured, Names(tier))
    else if fanout then Chosen(usable)
    else if |BestRanked(usable)| > 1 then Failed(AmbiguousProvider, Names(BestRanked(usable)))
    else Chosen(BestRanked(usable))
  }

  /** `Select`. */
  function Select(fanout: bool, ps: seq<Provider>, m: Market): Outcome {
    Decide(fanout, Sort(ByAddon, ps), m)
  }

  // ---- the code ----

  method FilterUsable(tier: seq<Provider>) returns (usable: seq<Provider>)
    ensures usable == Keep(tier, Usable)
  {
    usable := [];
    for i := 0 to |tier|
      invariant usable == Keep(tier[..i], Usable)
    {
      assert tier[..i + 1] == tier[..i] + [tier[i]];
      KeepAppend(tier[..i], tier[i], Usable);
      if Usable(tier[i]) {
        usable := usable + [tier[i]];
      }
    }
    assert tier[..|tier|] == tier;
  }

  method ComputeBestRanked(ps: seq<Provider>) returns (out: seq<Provider>)
    requires ps != []
    ensures out == BestRanked(ps)
  {
    var best := Rank(ps[0]);
    var i := 1;
    assert ps[..1] == [ps[0]];
    while i < |ps|
      invariant 1 <= i <= |ps|
      invariant best == LeastRank(ps[..i])
    {
      assert ps[..i + 1][..i] == ps[..i];
      if Rank(ps[i]) < best {
        best := Rank(ps[i]);
      }
      i := i + 1;
    }
    assert ps[..i] == ps;
    var f := Ranked(best);
    out := [];
    for j := 0 to |ps|
      invariant out == Keep(ps[..j], f)
    {
      assert ps[..j + 1] == ps[..j] + [ps[j]];
      KeepAppend(ps[..j], ps[j], f);
      if Rank(ps[j]) == best {
        out := out + [ps[j]];
      }
    }
    assert ps[..|ps|] == ps;
  }

  datatype Resolution = Resolution(sorted: seq<Provider>, selected: seq<bool>, eligible: seq<bool>, outcome: Outcome)

  /** The first loop: who is selected and who is eligible. */
  method Classify(sorted: seq<Provider>, m: Market)
    returns (selected: seq<Provider>, eligible: seq<Provider>, selectedAt: seq<bool>, eligibleAt: seq<bool>)
    ensures selected == Keep(sorted, Selecting(m.code)) && eligible == Keep(sorted, Serving(m))
    ensures |selectedAt| == |eligibleAt| == |sorted|
    ensures forall k | 0 <= k < |sorted| ::
      selectedAt[k] == SelectedFor(sorted[k], m.code) && eligibleAt[k] == Serves(sorted[k], m)
  {
    KeepNone(Selecting(m.code));
    KeepNone(Serving(m));
    hide Serves, SelectedFor, Keep;
    selected, eligible, selectedAt, eligibleAt := [], [], [], [];
    for i := 0 to |sorted|
      invariant selected == Keep(sorted[..i], Selecting(m.code)) && eligible == Keep(sorted[..i], Serving(m))
      invariant |selectedAt| == |eligibleAt| == i
      invariant forall k | 0 <= k < i ::
        selectedAt[k] == SelectedFor(sorted[k], m.code) && eligibleAt[k] == Serves(sorted[k], m)
    {
      var p := sorted[i];
      assert sorted[..i + 1] == sorted[..i] + [p];
      KeepAppend(sorted[..i], p, Selecting(m.code));
      KeepAppend(sorted[..i], p, Serving(m));
      if SelectedFor(p, m.code) {
        selected := selected + [p];
      }
      if Serves(p, m) {
        eligible := eligible + [p];
      }
      selectedAt, eligibleAt := selectedAt + [SelectedFor(p, m.code)], eligibleAt + [Serves(p, m)];
    }
    assert sorted[..|sorted|] == sorted;
  }

  /** `resolve`: the one resolution every consumer uses. */
  method Resolve(fanout: bool, providers: seq<Provider>, m: Market) returns (r: Resolution)
    ensures r.outcome == Select(fanout, providers, m)
    ensures r.sorted == Sort(ByAddon, providers) && |r.selected| == |r.eligible| == |r.sorted|
    ensures forall i | 0 <= i < |r.sorted| ::
      r.selected[i] == SelectedFor(r.sorted[i], m.code) && r.eligible[i] == Serves(r.sorted[i], m)
  {
    hide Serves, SelectedFor, Sort, BestRanked, Usable, Keep, Names;
    var sorted := Sort(ByAddon, providers);
    var selected, eligible, selectedAt, eligibleAt := Classify(sorted, m);
    var outcome;
    if fanout {
      outcome := ResolveFanout(sorted, selected, eligible);
    } else {
      outcome := ResolveOne(sorted, selected, eligible);
    }
    r := Resolution(sorted, selectedAt, eligibleAt, outcome);
  }

  method ResolveFanout(sorted: seq<Provider>, selected: seq<Provider>, eligible: seq<Provider>) returns (r: Outcome)
    ensures var tier := if selected != [] then selected else eligible;
      r == if tier == [] then Failed(NoProvider, Names(sorted))
           else if Keep(tier, Usable) == [] then Failed(NoneConfigured, Names(tier))
           else Chosen(Keep(tier, Usable))
  {
    var tier := eligible;
    if |selected| > 0 {
      tier := selected;
    }
    if |tier| == 0 {
      return Failed(NoProvider, Names(sorted));
    }
    var usable := FilterUsable(tier);
    if |usable| == 0 {
      return Failed(NoneConfigured, Names(tier));
    }
    return Chosen(usable);
  }

  method ResolveOne(sorted: seq<Provider>, selected: seq<Provider>, eligible: seq<Provider>) returns (r: Outcome)
    ensures var defaults := Keep(eligible, Defaults());
      var tier := if selected != [] then selected else if defaults != [] then defaults else eligible;
      var usable := Keep(tier, Usable);
      r == if tier == [] then Failed(NoProvider, Names(sorted))
           else if usable == [] then Failed(NoneConfigured, Names(tier))
           else if |BestRanked(usable)| > 1 then Failed(AmbiguousProvider, Names(BestRanked(usable)))
           else Chosen(BestRanked(usable))
  {
    var isDefault := Defaults();
    var defaults: seq<Provider> := [];
    for i := 0 to |eligible|
      invariant defaults == Keep(eligible[..i], isDefault)
    {
      assert eligible[..i + 1] == eligible[..i] + [eligible[i]];
      KeepAppend(eligible[..i], eligible[i], isDefault);
      if eligible[i].isDefault {
        defaults := defaults + [eligible[i]];
      }
    }
    assert eligible[..|eligible|] == eligible;
    var tier := selected;
    if |tier| == 0 {
      tier := defaults;
    }
    if |tier| == 0 {
      tier := eligible;
    }
    if |tier| == 0 {
      return Failed(NoProvider, Names(sorted));
    }
    var usable := FilterUsable(tier);
    if |usable| == 0 {
      return Failed(NoneConfigured, Names(tier));
    }
    var best := ComputeBestRanked(usable);
    if |best| > 1 {
      return Failed(AmbiguousProvider, Names(best));
    }
    return Chosen(best);
  }

  datatype ProviderView = ProviderView(provider: Provider, status: Status, selected: bool, serves: bool, reached: bool)

  /** `Eligible`: every provider with how the resolver treats it. */
  method Eligible(fanout: bool, providers: seq<Provider>, m: Market) returns (views: seq<ProviderView>, outcome: Outcome)
    ensures outcome == Select(fanout, providers, m)
    ensures |views| == |Sort(ByAddon, providers)|
    ensures forall i | 0 <= i < |views| :: var p := Sort(ByAddon, providers)[i];
      && views[i].provider == p
      && views[i].status == (if p.status == Unset then Ready else p.status)
      && views[i].selected == SelectedFor(p, m.code) && views[i].serves == Serves(p, m)
      && views[i].reached == (outcome.Chosen? && p.addon in Names(outcome.providers))
  {
    hide Serves, SelectedFor, Sort, Decide;
    var r := Resolve(fanout, providers, m);
    outcome := r.outcome;
    var reached: set<string> := {};
    if outcome.Chosen? {
      var chosen := Names(outcome.providers);
      for i := 0 to |chosen|
        invariant forall a :: a in reached <==> a in chosen[..i]
      {
        reached := reached + {chosen[i]};
        assert chosen[..i + 1] == chosen[..i] + [chosen[i]];
      }
      assert chosen[..|chosen|] == chosen;
    }
    views := [];
    for i := 0 to |r.sorted|
      invariant |views| == i
      invariant forall k | 0 <= k < i ::
        views[k] == ProviderView(r.sorted[k], if r.sorted[k].status == Unset then Ready else r.sorted[k].status,
                                 r.selected[k], r.eligible[k], r.sorted[k].addon in reached)
    {
      var p := r.sorted[i];
      views := views + [ProviderView(p, if p.status == Unset then Ready else p.status,
                                     r.selected[i], r.eligible[i], p.addon in reached)];
    }
  }

  predicate IsPinned(p: Provider, m: Market, addon: string) {
    p.addon == addon && Serves(p, m)
  }

  /** `SelectPinned`: the first provider of that name that still serves the market;
      selection, defaults, status and ambiguity play no role. */
  method SelectPinned(providers: seq<Provider>, m: Market, addon: string) returns (r: Outcome)
    ensures r.Chosen? <==> addon != "" && exists p :: p in providers && IsPinned(p, m, addon)
    ensures r.Chosen? ==> exists i :: 0 <= i < |providers| && r.providers == [providers[i]]
                                      && IsPinned(providers[i], m, addon)
                                      && forall k | 0 <= k < i :: !IsPinned(providers[k], m, addon)
    ensures r.Failed? ==> r.reason == NoProvider && multiset(r.candidates) == multiset(Names(providers))
                          && SortedBy(Less, r.candidates)
  {
    var all: seq<string> := [];
    for i := 0 to |providers|
      invariant all == Names(providers[..i])
      invariant addon != "" ==> forall k | 0 <= k < i :: !IsPinned(providers[k], m, addon)
    {
      var p := providers[i];
      all := all + [p.addon];
      if addon != "" && p.addon == addon && Serves(p, m) {
        assert IsPinned(providers[i], m, addon);
        return Chosen([p]);
      }
    }
    assert providers[..|providers|] == providers;
    LessIsStrict();
    SortSorts(Less, all);
    return Failed(NoProvider, Sort(Less, all));
  }

  // ---- what the resolver promises ----

  ghost predicate DistinctAddons(ps: seq<Provider>) {
    forall i, j | 0 <= i < j < |ps| :: ps[i].addon != ps[j].addon
  }

  lemma ByAddonIsStrict()
    ensures StrictWeakOrder(ByAddon)
  {
    LessIsStrict();
  }

  lemma DistinctHasNoTies(ps: seq<Provider>)
    requires DistinctAddons(ps)
    ensures NoTies(ByAddon, ps)
  {
    forall i, j | 0 <= i < j < |ps|
      ensures ByAddon(ps[i], ps[j]) || ByAddon(ps[j], ps[i])
    {
      LessTotal(ps[i].addon, ps[j].addon);
    }
  }

  lemma DistinctCons(p: Provider, rest: seq<Provider>)
    ensures DistinctAddons([p] + rest) <==> DistinctAddons(rest) && forall q | q in rest :: q.addon != p.addon
  {
    var ps := [p] + rest;
    if DistinctAddons(ps) {
      forall j | 0 <= j < |rest|
        ensures rest[j].addon != p.addon && forall i | 0 <= i < j :: rest[i].addon != rest[j].addon
      {
        assert ps[j + 1] == rest[j] && ps[0] == p;
        assert forall i | 0 <= i < j :: ps[i + 1] == rest[i];
      }
    }
    if DistinctAddons(rest) && (forall q | q in rest :: q.addon != p.addon) {
      forall i, j | 0 <= i < j < |ps|
        ensures ps[i].addon != ps[j].addon
      {
        assert ps[j] == rest[j - 1];
        assert i > 0 ==> ps[i] == rest[i - 1];
      }
    }
  }

  ghost predicate Once(ps: seq<Provider>) {
    && (forall p, q | p in ps && q in ps && p.addon == q.addon :: p == q)
    && (forall p :: multiset(ps)[p] <= 1)
  }

  lemma OnceCons(p: Provider, rest: seq<Provider>)
    ensures Once([p] + rest) <==> Once(rest) && forall q | q in rest :: q.addon != p.addon
  {
    var ps := [p] + rest;
    assert multiset(ps) == multiset{p} + multiset(rest);
    assert forall q :: q in ps <==> q == p || q in rest;
    assert forall q :: q in rest <==> multiset(rest)[q] > 0;
    assert forall q :: multiset(ps)[q] == (if q == p then 1 else 0) + multiset(rest)[q];
    var unseen := forall q | q in rest :: q.addon != p.addon;
    if Once(ps) {
      assert multiset(ps)[p] == 1 + multiset(rest)[p];
      assert p !in rest;
      assert forall q | q in rest :: q in ps;
      assert forall q :: multiset(rest)[q] <= multiset(ps)[q];
    }
    if Once(rest) && unseen {
      assert p !in rest;
      assert forall q :: multiset(ps)[q] <= 1;
      forall q, r | q in ps && r in ps && q.addon == r.addon
        ensures q == r
      {
        assert (q == p || q in rest) && (r == p || r in rest);
      }
    }
  }

  lemma {:induction false} DistinctMeansOnce(ps: seq<Provider>)
    ensures DistinctAddons(ps) <==> Once(ps)
  {
    if ps != [] {
      hide DistinctAddons, Once;
      DistinctMeansOnce(ps[1..]);
      DistinctCons(ps[0], ps[1..]);
      OnceCons(ps[0], ps[1..]);
      assert ps == [ps[0]] + ps[1..];
    }
  }

  /** A permutation of distinct addons is distinct. */
  lemma DistinctPermutes(ps: seq<Provider>, qs: seq<Provider>)
    requires multiset(ps) == multiset(qs) && DistinctAddons(ps)
    ensures DistinctAddons(qs)
  {
    DistinctMeansOnce(ps);
    DistinctMeansOnce(qs);
    SameElements(ps, qs);
  }

  /** The answer does not depend on the order in which providers are listed. */
  lemma OrderDoesNotMatter(fanout: bool, ps: seq<Provider>, qs: seq<Provider>, m: Market)
    requires DistinctAddons(ps) && multiset(ps) == multiset(qs)
    ensures Select(fanout, ps, m) == Select(fanout, qs, m)
  {
    hide Decide;
    var xs, ys := Sort(ByAddon, ps), Sort(ByAddon, qs);
    ByAddonIsStrict();
    SortSorts(ByAddon, ps);
    SortSorts(ByAddon, qs);
    DistinctPermutes(ps, xs);
    DistinctHasNoTies(xs);
    SortedUnique(ByAddon, xs, ys);
  }

  // ---- the winner, by membership alone ----

  /** The provider is a candidate of the deciding tier. */
  ghost predicate InTier(fanout: bool, ps: seq<Provider>, m: Market, p: Provider) {
    && p in ps
    && if exists q :: q in ps && SelectedFor(q, m.code) then SelectedFor(p, m.code)
       else if !fanout && exists q :: q in ps && Serves(q, m) && q.isDefault then Serves(p, m) && p.isDefault
       else Serves(p, m)
  }

  ghost predicate Wins(ps: seq<Provider>, m: Market, w: Provider) {
    && InTier(false, ps, m, w) && Usable(w)
    && forall p | InTier(false, ps, m, p) && Usable(p) && p != w :: Rank(w) < Rank(p)
  }

  lemma TierMembers(fanout: bool, ps: seq<Provider>, m: Market)
    ensures forall p :: p in Tier(fanout, ps, m) <==> InTier(fanout, ps, m, p)
  {
    var selected, eligible := Keep(ps, Selecting(m.code)), Keep(ps, Serving(m));
    var defaults := Keep(eligible, Defaults());
    hide Serves, SelectedFor, Keep;
    assert selected != [] ==> selected[0] in selected;
    assert defaults != [] ==> defaults[0] in defaults;
  }

  lemma {:induction false} LeastRankIsLeast(ps: seq<Provider>)
    requires ps != []
    ensures forall p | p in ps :: LeastRank(ps) <= Rank(p)
    ensures exists p :: p in ps && Rank(p) == LeastRank(ps)
  {
    hide Rank;
    var last := ps[|ps| - 1];
    var front := ps[..|ps| - 1];
    assert ps == front + [last];
    assert forall p :: p in ps <==> p in front || p == last;
    if |ps| > 1 {
      LeastRankIsLeast(front);
      if Rank(last) < LeastRank(front) {
        assert last in ps && Rank(last) == LeastRank(ps);
      } else {
        var p :| p in front && Rank(p) == LeastRank(front);
        assert p in ps;
      }
    } else {
      assert ps[0] in ps;
    }
  }

  lemma KeepDistinct(ps: seq<Provider>, f: Provider -> bool)
    requires DistinctAddons(ps)
    ensures DistinctAddons(Keep(ps, f))
  {
    if ps != [] {
      assert DistinctAddons(ps[1..]);
      KeepDistinct(ps[1..], f);
      forall p | p in ps[1..]
        ensures p.addon != ps[0].addon
      {
        var j :| 0 <= j < |ps[1..]| && ps[1..][j] == p;
        assert ps[j + 1] == p;
      }
    }
  }

  lemma SingletonIff(ps: seq<Provider>, w: Provider)
    requires DistinctAddons(ps)
    ensures ps == [w] <==> w in ps && forall p | p in ps :: p == w
  {
    assert |ps| > 1 ==> ps[0] in ps && ps[1] in ps && ps[0] != ps[1];
  }

  /** Cardinality one routes to a provider exactly when it is the usable candidate
      of the deciding tier with the strictly best rank. */
  lemma ChosenIffWins(ps: seq<Provider>, m: Market, w: Provider)
    requires DistinctAddons(ps)
    ensures Decide(false, ps, m) == Chosen([w]) <==> Wins(ps, m, w)
  {
    var tier := Tier(false, ps, m);
    var usable := Keep(tier, Usable);
    TierMembers(false, ps, m);
    TierDistinct(ps, m);
    KeepDistinct(tier, Usable);
    hide Tier, Usable, Keep;
    if usable == [] {
      assert w !in usable;
    } else {
      var best := BestRanked(usable);
      LeastRankIsLeast(usable);
      KeepDistinct(usable, Ranked(LeastRank(usable)));
      SingletonIff(best, w);
      var first :| first in usable && Rank(first) == LeastRank(usable);
      assert first in best;
      assert usable[0] in usable && usable[0] in tier;
    }
  }

  lemma TierDistinct(ps: seq<Provider>, m: Market)
    requires DistinctAddons(ps)
    ensures DistinctAddons(Tier(false, ps, m))
  {
    KeepDistinct(ps, Selecting(m.code));
    KeepDistinct(ps, Serving(m));
    KeepDistinct(Keep(ps, Serving(m)), Defaults());
  }

  function Without(ps: seq<Provider>, i: nat): seq<Provider>
    requires i < |ps|
  {
    ps[..i] + ps[i + 1..]
  }

  lemma WithoutMembers(ps: seq<Provider>, i: nat)
    requires i < |ps| && DistinctAddons(ps)
    ensures DistinctAddons(Without(ps, i))
    ensures forall p :: p in Without(ps, i) <==> p in ps && p != ps[i]
  {
    var rest := Without(ps, i);
    assert forall j | 0 <= j < |rest| :: rest[j] == ps[if j < i then j else j + 1];
    forall p | p in ps && p != ps[i]
      ensures p in rest
    {
      var j :| 0 <= j < |ps| && ps[j] == p;
      assert rest[if j < i then j else j - 1] == p;
    }
  }

  /** The winner of a call by membership is the winner of the sorted list. */
  lemma SelectIffWins(ps: seq<Provider>, m: Market, w: Provider)
    requires DistinctAddons(ps)
    ensures Select(false, ps, m) == Chosen([w]) <==> Wins(ps, m, w)
  {
    var xs := Sort(ByAddon, ps);
    SameElements(xs, ps);
    DistinctPermutes(ps, xs);
    ChosenIffWins(xs, m, w);
    hide Serves, SelectedFor, Usable, Rank;
    assert forall p :: InTier(false, xs, m, p) == InTier(false, ps, m, p);
  }

  /** Uninstalling a provider that was not chosen never changes the winner. */
  lemma RemovalKeepsTheWinner(ps: seq<Provider>, i: nat, m: Market, w: Provider)
    requires DistinctAddons(ps) && i < |ps| && ps[i] != w
    requires Select(false, ps, m) == Chosen([w])
    ensures Select(false, Without(ps, i), m) == Chosen([w])
  {
    hide Select;
    SelectIffWins(ps, m, w);
    WithoutMembers(ps, i);
    SelectIffWins(Without(ps, i), m, w);
    hide Serves, SelectedFor, Usable, Rank;
    assert forall p | InTier(false, Without(ps, i), m, p) :: InTier(false, ps, m, p);
  }

  /** The listing marks as reached exactly the providers a call is routed to. */
  lemma ReachedIffChosen(fanout: bool, ps: seq<Provider>, m: Market, p: Provider)
    requires DistinctAddons(ps) && p in ps && Select(fanout, ps, m).Chosen?
    ensures var chosen := Select(fanout, ps, m).providers;
      p.addon in Names(chosen) <==> p in chosen
  {
    var chosen := Select(fanout, ps, m).providers;
    ChosenArePresent(fanout, ps, m);
    DistinctMeansOnce(ps);
    hide Select, DistinctAddons;
    if p.addon in Names(chosen) {
      var k :| 0 <= k < |chosen| && Names(chosen)[k] == p.addon;
      assert chosen[k] in chosen && chosen[k] in ps;
    }
    if p in chosen {
      var k :| 0 <= k < |chosen| && chosen[k] == p;
      assert Names(chosen)[k] == p.addon;
    }
  }

  lemma ChosenArePresent(fanout: bool, ps: seq<Provider>, m: Market)
    requires Select(fanout, ps, m).Chosen?
    ensures forall q | q in Select(fanout, ps, m).providers :: q in ps
  {
    var xs := Sort(ByAddon, ps);
    SameElements(xs, ps);
    TierMembers(fanout, xs, m);
    hide Tier, Sort, Serves, SelectedFor;
  }

  // ---- the rule before priorities and statuses ----

  /** The original algorithm: one provider in the first non-empty tier wins,
      several are ambiguous, none is no provider; a fan-out takes the tier. */
  function Original(fanout: bool, ps: seq<Provider>, m: Market): Outcome {
    var tier := Tier(fanout, Sort(ByAddon, ps), m);
    if tier == [] then Failed(NoProvider, Names(Sort(ByAddon, ps)))
    else if fanout || |tier| == 1 then Chosen(tier)
    else Failed(AmbiguousProvider, Names(tier))
  }

  lemma {:induction false} KeepAll(ps: seq<Provider>, f: Provider -> bool)
    requires forall p | p in ps :: f(p)
    ensures Keep(ps, f) == ps
  {
    if ps != [] {
      assert ps[0] in ps && forall p | p in ps[1..] :: p in ps;
      KeepAll(ps[1..], f);
    }
  }

  /** With no priority and no "not configured" status the resolver is the original
      rule, bit for bit. */
  lemma ConservativeExtension(fanout: bool, ps: seq<Provider>, m: Market)
    requires forall p | p in ps :: p.priority <= 0 && p.status != NotConfigured
    ensures Select(fanout, ps, m) == Original(fanout, ps, m)
  {
    var xs := Sort(ByAddon, ps);
    var tier := Tier(fanout, xs, m);
    SameElements(xs, ps);
    TierMembers(fanout, xs, m);
    KeepAll(tier, Usable);
    if tier != [] {
      LeastRankIsLeast(tier);
      KeepAll(tier, Ranked(LeastRank(tier)));
    }
  }

  // ---- the winner, by the data of the providers alone ----

  const UPPER := "ABCDEFGHIJKLMNOPQRSTUVWXYZ"
  const LOWER := "abcdefghijklmnopqrstuvwxyz"

  /** The same character, or the two cases of one letter. */
  ghost predicate SameLetter(a: char, b: char) {
    a == b || CasesOf(a, b) || CasesOf(b, a)
  }

  ghost predicate CasesOf(upper: char, lower: char) {
    exists k | 0 <= k < 26 :: upper == UPPER[k] && lower == LOWER[k]
  }

  ghost predicate SameText(s: string, t: string) {
    |s| == |t| && forall i | 0 <= i < |s| :: SameLetter(s[i], t[i])
  }

  lemma FoldCharIff(a: char, b: char)
    ensures FoldChar(a) == FoldChar(b) <==> SameLetter(a, b)
  {
    CasesOfLetters();
    hide CasesOf;
    if a != b && FoldChar(a) == FoldChar(b) {
      if 'A' <= a <= 'Z' {
        SameLetterAt(a, b, a as int - 65);
      } else {
        SameLetterAt(b, a, b as int - 65);
      }
    }
    SameLetterFolds(a, b);
  }

  lemma SameLetterAt(upper: char, lower: char, k: int)
    requires 0 <= k < 26 && upper == (65 + k) as char && lower == (97 + k) as char
    ensures CasesOf(upper, lower)
  {
    CasesOfLetters();
    assert upper == UPPER[k] && lower == LOWER[k];
  }

  lemma SameLetterFolds(a: char, b: char)
    ensures SameLetter(a, b) ==> FoldChar(a) == FoldChar(b)
  {
    CasesOfLetters();
  }

  lemma CasesOfLetters()
    ensures forall k | 0 <= k < 26 :: UPPER[k] == (65 + k) as char && LOWER[k] == (97 + k) as char
  {
  }

  lemma FoldIff(s: string, t: string)
    ensures Fold(s) == Fold(t) <==> SameText(s, t)
  {
    forall i | 0 <= i < |s| && i < |t|
      ensures Fold(s)[i] == Fold(t)[i] <==> SameLetter(s[i], t[i])
    {
      FoldCharIff(s[i], t[i]);
    }
    hide SameLetter;
    if SameText(s, t) {
      assert Fold(s) == Fold(t);
    } else if |s| == |t| {
      var i :| 0 <= i < |s| && !SameLetter(s[i], t[i]);
      assert Fold(s)[i] != Fold(t)[i];
    }
  }

  /** The provider and the market share a country, or one of them names none. */
  ghost predicate Covers(p: Provider, m: Market) {
    p.countries == [] || m.countries == [] || exists c, d :: c in p.countries && d in m.countries && SameText(c, d)
  }

  /** The organization picked the provider for the market. */
  ghost predicate Picked(p: Provider, m: Market) {
    m.code != "" && exists c :: c in p.markets && SameText(c, m.code)
  }

  lemma ServesIff(p: Provider, m: Market)
    ensures Serves(p, m) <==> Covers(p, m)
    ensures SelectedFor(p, m.code) <==> Picked(p, m)
  {
    forall c, d
      ensures Fold(c) == Fold(d) <==> SameText(c, d)
    {
      FoldIff(c, d);
    }
    hide SameText, Fold;
    if Serves(p, m) && p.countries != [] && m.countries != [] {
      var i, j :| 0 <= i < |p.countries| && 0 <= j < |m.countries| && Fold(p.countries[i]) == Fold(m.countries[j]);
      assert p.countries[i] in p.countries && m.countries[j] in m.countries;
    }
    if SelectedFor(p, m.code) {
      var i :| 0 <= i < |p.markets| && Fold(p.markets[i]) == Fold(m.code);
      assert p.markets[i] in p.markets;
    }
  }

  /** A smaller positive priority wins, and any positive one wins over none; the largest
      integer counts as none. */
  predicate Outranks(p: Provider, q: Provider) {
    p.priority > 0 && if q.priority > 0 then p.priority < q.priority else p.priority < MAX_INT
  }

  lemma RankIff(p: Provider, q: Provider)
    requires p.priority <= MAX_INT && q.priority <= MAX_INT
    ensures Rank(p) < Rank(q) <==> Outranks(p, q)
  {
  }

  /** Every priority is a value of the platform's integer type. */
  predicate InRange(ps: seq<Provider>) {
    forall p | p in ps :: p.priority <= MAX_INT
  }

  /** A candidate: picked for the market if anyone is; else, for a single answer, a
      default that covers it if there is one; else one that covers it. */
  ghost predicate Candidate(fanout: bool, ps: seq<Provider>, m: Market, p: Provider) {
    && p in ps
    && if exists q :: q in ps && Picked(q, m) then Picked(p, m)
       else if !fanout && exists q :: q in ps && Covers(q, m) && q.isDefault then Covers(p, m) && p.isDefault
       else Covers(p, m)
  }

  lemma InTierIff(fanout: bool, ps: seq<Provider>, m: Market)
    ensures forall p :: InTier(fanout, ps, m, p) <==> Candidate(fanout, ps, m, p)
  {
    forall p
      ensures (Serves(p, m) <==> Covers(p, m)) && (SelectedFor(p, m.code) <==> Picked(p, m))
    {
      ServesIff(p, m);
    }
    hide Serves, Covers, SelectedFor, Picked;
  }

  /** A single answer goes to a provider exactly when it is a configured candidate that
      outranks every other configured candidate. */
  lemma WinnerByData(ps: seq<Provider>, m: Market, w: Provider)
    requires DistinctAddons(ps) && InRange(ps)
    ensures Select(false, ps, m) == Chosen([w]) <==>
      && Candidate(false, ps, m, w) && w.status != NotConfigured
      && forall p | Candidate(false, ps, m, p) && p.status != NotConfigured && p != w :: Outranks(w, p)
  {
    SelectIffWins(ps, m, w);
    InTierIff(false, ps, m);
    forall p, q | p in ps && q in ps
      ensures Rank(p) < Rank(q) <==> Outranks(p, q)
    {
      RankIff(p, q);
    }
    hide Select, Candidate, Rank, Outranks, DistinctAddons;
    assert forall p | InTier(false, ps, m, p) :: p in ps;
  }

  /** A fan-out reaches exactly the configured candidates; without any candidate there is
      no provider, and with candidates of which none is configured none is. */
  lemma AnswersByData(fanout: bool, ps: seq<Provider>, m: Market)
    ensures var r := Select(fanout, ps, m);
      && (r.Failed? && r.reason == NoProvider <==> forall p :: !Candidate(fanout, ps, m, p))
      && (r.Failed? && r.reason == NoneConfigured <==>
            (exists p :: Candidate(fanout, ps, m, p))
            && forall p | Candidate(fanout, ps, m, p) :: p.status == NotConfigured)
      && (fanout && r.Failed? ==> r.reason != AmbiguousProvider)
      && (!fanout && r.Chosen? ==> |r.providers| == 1)
      && (fanout && r.Chosen? ==> forall p :: p in r.providers <==> Candidate(fanout, ps, m, p) && p.status != NotConfigured)
  {
    hide Serves, SelectedFor, Tier, Sort, Decide, Candidate, InTier;
    var xs := Sort(ByAddon, ps);
    SameElements(xs, ps);
    TierMembers(fanout, xs, m);
    AnswersOfTier(fanout, xs, m);
    InTierIff(fanout, ps, m);
    SameTier(fanout, xs, ps, m);
    assert forall p :: p in Tier(fanout, xs, m) <==> Candidate(fanout, ps, m, p);
  }

  lemma SameTier(fanout: bool, xs: seq<Provider>, ps: seq<Provider>, m: Market)
    requires forall p :: p in xs <==> p in ps
    ensures forall p :: InTier(fanout, xs, m, p) == InTier(fanout, ps, m, p)
  {
    hide Serves, SelectedFor;
  }

  lemma AnswersOfTier(fanout: bool, xs: seq<Provider>, m: Market)
    ensures var r, tier := Decide(fanout, xs, m), Tier(fanout, xs, m);
      && (r.Failed? && r.reason == NoProvider <==> forall p :: p !in tier)
      && (r.Failed? && r.reason == NoneConfigured <==>
            (exists p :: p in tier) && forall p | p in tier :: p.status == NotConfigured)
      && (fanout && r.Failed? ==> r.reason != AmbiguousProvider)
      && (!fanout && r.Chosen? ==> |r.providers| == 1)
      && (fanout && r.Chosen? ==> forall p :: p in r.providers <==> p in tier && p.status != NotConfigured)
  {
    var tier := Tier(fanout, xs, m);
    var usable := Keep(tier, Usable);
    hide Tier, Keep, LeastRank;
    assert tier != [] ==> tier[0] in tier;
    assert usable != [] ==> usable[0] in usable;
    if usable != [] {
      LeastRankIsLeast(usable);
      var p :| p in usable && Rank(p) == LeastRank(usable);
      assert p in BestRanked(usable);
    }
  }
}
