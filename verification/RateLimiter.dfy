/**
 The in-memory token bucket: capacity `perMinute`, refilled continuously.  Tokens
 and seconds are real numbers, the clock does not run backwards.
 */
module RateLimiter {
  import opened Wrappers

  const SWEEP_EVERY := 1024
  const IDLE := 60.0

  datatype Bucket = Bucket(tokens: real, last: real)

  type Buckets = map<string, Bucket>

  /** `wait` is how long until a request would fit; zero when it does. */
  datatype Answer = Answer(ok: bool, wait: real)

  datatype Call = Call(key: string, perMinute: int, now: real)

  function Min(a: real, b: real): real {
    if a <= b then a else b
  }

  /** Tokens per second. */
  function Rate(perMinute: int): real {
    perMinute as real / 60.0
  }

  /** Tokens gained in a span of seconds. */
  function Refill(seconds: real, perMinute: int): real {
    seconds * Rate(perMinute)
  }

  /** The tokens a bucket offers at a time; a missing bucket is a full one. */
  function Level(b: Option<Bucket>, perMinute: int, now: real): real {
    match b
    case None => perMinute as real
    case Some(b) => Min(perMinute as real, b.tokens + Refill(now - b.last, perMinute))
  }

  function Find(m: Buckets, key: string): Option<Bucket> {
    if key in m then Some(m[key]) else None
  }

  function Sweep(m: Buckets, now: real): Buckets {
    map k | k in m && now - m[k].last <= IDLE :: m[k]
  }

  function Decide(level: real, perMinute: int): Answer
    requires perMinute > 0
  {
    if level >= 1.0 then Answer(true, 0.0) else Answer(false, (1.0 - level) / Rate(perMinute))
  }

  function Spend(level: real): real {
    if level >= 1.0 then level - 1.0 else level
  }

  datatype Limiter = Limiter(buckets: Buckets, calls: nat)

  /** One `Allow`, with or without the periodic sweep. */
  function Step(l: Limiter, c: Call, sweeping: bool): Limiter {
    if c.perMinute <= 0 then l
    else
      var level := Level(Find(l.buckets, c.key), c.perMinute, c.now);
      var touched := l.buckets[c.key := Bucket(level, c.now)];
      var kept := if sweeping && (l.calls + 1) % SWEEP_EVERY == 0 then Sweep(touched, c.now) else touched;
      Limiter(kept[c.key := Bucket(Spend(level), c.now)], l.calls + 1)
  }

  function Answered(l: Limiter, c: Call): Answer {
    if c.perMinute <= 0 then Answer(true, 0.0)
    else Decide(Level(Find(l.buckets, c.key), c.perMinute, c.now), c.perMinute)
  }

  class MemoryLimiter {
    var buckets: Buckets
    var calls: nat

    ghost function Now(): Limiter
      reads this
    {
      Limiter(buckets, calls)
    }

    constructor ()
      ensures Now() == Limiter(map[], 0)
    {
      buckets, calls := map[], 0;
    }

    method Allow(key: string, perMinute: int, now: real) returns (r: Answer)
      modifies this
      ensures r == Answered(old(Now()), Call(key, perMinute, now))
      ensures Now() == Step(old(Now()), Call(key, perMinute, now), true)
    {
      if perMinute <= 0 {
        return Answer(true, 0.0);
      }
      var capacity := perMinute as real;
      var rate := capacity / 60.0;
      var tokens := capacity;
      if key in buckets {
        var b := buckets[key];
        tokens := Min(capacity, b.tokens + (now - b.last) * rate);
      }
      ghost var level := Level(Find(buckets, key), perMinute, now);
      assert tokens == level;
      buckets := buckets[key := Bucket(tokens, now)];
      calls := calls + 1;
      if calls % SWEEP_EVERY == 0 {
        SweepIdle(now);
      }
      ghost var touched := old(buckets)[key := Bucket(level, now)];
      assert buckets == if calls % SWEEP_EVERY == 0 then Sweep(touched, now) else touched;
      if tokens >= 1.0 {
        buckets := buckets[key := Bucket(tokens - 1.0, now)];
        return Answer(true, 0.0);
      }
      assert buckets[key := Bucket(tokens, now)] == buckets;
      return Answer(false, (1.0 - tokens) / rate);
    }

    /** Deletes, one by one, the buckets idle for more than a minute. */
    method SweepIdle(now: real)
      modifies this`buckets
      ensures buckets == Sweep(old(buckets), now)
    {
      var rest := buckets.Keys;
      while rest != {}
        invariant rest <= old(buckets).Keys
        invariant buckets == map k | k in old(buckets) && (k in rest || now - old(buckets)[k].last <= IDLE) :: old(buckets)[k]
        decreases rest
      {
        var k :| k in rest;
        if now - buckets[k].last > IDLE {
          buckets := buckets - {k};
        }
        rest := rest - {k};
      }
    }
  }

  // ---- call sequences ----

  predicate InOrder(calls: seq<Call>, from: real) {
    calls == [] || (from <= calls[0].now && InOrder(calls[1..], calls[0].now))
  }

  function Answers(l: Limiter, calls: seq<Call>, sweeping: bool): (r: seq<Answer>)
    ensures |r| == |calls|
    decreases |calls|
  {
    if calls == [] then []
    else [Answered(l, calls[0])] + Answers(Step(l, calls[0], sweeping), calls[1..], sweeping)
  }

  /** Buckets never go into debt and were last touched in the past. */
  ghost predicate Sound(l: Limiter, now: real) {
    forall k | k in l.buckets :: l.buckets[k].tokens >= 0.0 && l.buckets[k].last <= now
  }

  lemma RefillIsNonNegative(dt: real, perMinute: int)
    requires dt >= 0.0 && perMinute > 0
    ensures Refill(dt, perMinute) >= 0.0
    ensures dt > IDLE ==> Refill(dt, perMinute) >= perMinute as real
  {
    var rate := Rate(perMinute);
    assert rate > 0.0 && IDLE * rate == perMinute as real;
    if dt > IDLE {
      assert (dt - IDLE) * rate >= 0.0;
    }
  }

  lemma StepIsSound(l: Limiter, c: Call, sweeping: bool)
    requires Sound(l, c.now)
    ensures Sound(Step(l, c, sweeping), c.now)
  {
    if c.perMinute > 0 {
      LevelIsNonNegative(l, c.key, c.perMinute, c.now);
      hide Level, Decide;
      var next := Step(l, c, sweeping);
      forall k | k in next.buckets
        ensures next.buckets[k].tokens >= 0.0 && next.buckets[k].last <= c.now
      {
        if k != c.key {
          assert k in l.buckets && next.buckets[k] == l.buckets[k];
        }
      }
    }
  }

  lemma SoundLater(l: Limiter, now: real, later: real)
    requires Sound(l, now) && now <= later
    ensures Sound(l, later)
  {
  }

  /** The sweeping limiter misses only buckets that are idle long enough to be full. */
  ghost predicate Shadows(s: Limiter, u: Limiter, now: real) {
    && s.calls == u.calls
    && (forall k | k in s.buckets :: k in u.buckets && u.buckets[k] == s.buckets[k])
    && (forall k | k in u.buckets && k !in s.buckets :: now - u.buckets[k].last > IDLE)
  }

  /** A bucket idle for over a minute offers what a fresh one does. */
  lemma IdleIsFull(b: Bucket, perMinute: int, now: real)
    requires b.tokens >= 0.0 && now - b.last > IDLE && perMinute > 0
    ensures Level(Some(b), perMinute, now) == Level(None, perMinute, now)
  {
    RefillIsNonNegative(now - b.last, perMinute);
  }

  lemma SameLevel(s: Limiter, u: Limiter, c: Call)
    requires Sound(u, c.now) && Shadows(s, u, c.now) && c.perMinute > 0
    ensures Level(Find(s.buckets, c.key), c.perMinute, c.now) == Level(Find(u.buckets, c.key), c.perMinute, c.now)
  {
    if c.key in u.buckets && c.key !in s.buckets {
      IdleIsFull(u.buckets[c.key], c.perMinute, c.now);
    }
  }

  lemma StepShadows(s: Limiter, u: Limiter, c: Call)
    requires Sound(u, c.now) && Shadows(s, u, c.now)
    ensures Shadows(Step(s, c, true), Step(u, c, false), c.now)
    ensures Answered(s, c) == Answered(u, c)
  {
    if c.perMinute > 0 {
      SameLevel(s, u, c);
      hide Level, Decide;
    }
  }

  lemma ShadowsLater(s: Limiter, u: Limiter, now: real, later: real)
    requires Shadows(s, u, now) && now <= later
    ensures Shadows(s, u, later)
  {
  }

  lemma {:induction false} ShadowAnswers(s: Limiter, u: Limiter, calls: seq<Call>, now: real)
    requires Sound(u, now) && Shadows(s, u, now) && InOrder(calls, now)
    ensures Answers(s, calls, true) == Answers(u, calls, false)
    decreases |calls|
  {
    hide Step, Answered, Sound, Shadows;
    if calls != [] {
      var c := calls[0];
      SoundLater(u, now, c.now);
      ShadowsLater(s, u, now, c.now);
      StepShadows(s, u, c);
      StepIsSound(u, c, false);
      ShadowAnswers(Step(s, c, true), Step(u, c, false), calls[1..], c.now);
    }
  }

  /** Sweeping is unobservable: for every sequence of calls over any mix of keys and
      changing budgets, the answers and waits are those of a limiter that never
      deletes a bucket. */
  lemma SweepingIsUnobservable(calls: seq<Call>, now: real)
    requires InOrder(calls, now)
    ensures var l := Limiter(map[], 0); Answers(l, calls, true) == Answers(l, calls, false)
  {
    ShadowAnswers(Limiter(map[], 0), Limiter(map[], 0), calls, now);
  }

  // ---- the rate bound ----

  /** Requests of the key admitted. */
  function Admitted(key: string, calls: seq<Call>, answers: seq<Answer>): nat
    requires |calls| == |answers|
  {
    if calls == [] then 0
    else (if calls[0].key == key && answers[0].ok then 1 else 0) + Admitted(key, calls[1..], answers[1..])
  }

  predicate Budgeted(key: string, perMinute: int, calls: seq<Call>) {
    forall c | c in calls && c.key == key :: c.perMinute == perMinute
  }

  function EndOf(calls: seq<Call>, from: real): real {
    if calls == [] then from else calls[|calls| - 1].now
  }

  /** Waiting adds at most the refill. */
  lemma LevelGrows(b: Option<Bucket>, perMinute: int, now: real, later: real)
    requires now <= later && perMinute > 0
    ensures Level(b, perMinute, later) <= Level(b, perMinute, now) + Refill(later - now, perMinute)
  {
    RefillIsNonNegative(later - now, perMinute);
    if b.Some? {
      RefillAdds(b.value.last, now, later, perMinute);
      hide Refill;
    }
  }

  /** An admission costs the key one token; other keys cost it nothing. */
  lemma StepSpends(l: Limiter, c: Call, key: string, perMinute: int)
    requires perMinute > 0 && (c.key == key ==> c.perMinute == perMinute) && Sound(l, c.now)
    ensures Level(Find(Step(l, c, false).buckets, key), perMinute, c.now)
      + (if c.key == key && Answered(l, c).ok then 1.0 else 0.0)
      <= Level(Find(l.buckets, key), perMinute, c.now)
  {
    var next := Step(l, c, false);
    if c.perMinute > 0 {
      if c.key == key {
        var level := Level(Find(l.buckets, key), perMinute, c.now);
        LevelNow(Spend(level), perMinute, c.now);
        assert Find(next.buckets, key) == Some(Bucket(Spend(level), c.now));
      } else {
        assert Find(next.buckets, key) == Find(l.buckets, key);
      }
    }
  }

  lemma LevelNow(tokens: real, perMinute: int, now: real)
    requires perMinute > 0
    ensures Level(Some(Bucket(tokens, now)), perMinute, now) == Min(perMinute as real, tokens)
  {
    assert Refill(now - now, perMinute) == 0.0;
  }

  lemma RefillAdds(a: real, b: real, c: real, perMinute: int)
    ensures Refill(b - a, perMinute) + Refill(c - b, perMinute) == Refill(c - a, perMinute)
  {
  }

  lemma OneMore(key: string, calls: seq<Call>, l: Limiter)
    requires calls != []
    ensures Admitted(key, calls, Answers(l, calls, false)) ==
      (if calls[0].key == key && Answered(l, calls[0]).ok then 1 else 0)
      + Admitted(key, calls[1..], Answers(Step(l, calls[0], false), calls[1..], false))
  {
    assert Answers(l, calls, false)[1..] == Answers(Step(l, calls[0], false), calls[1..], false);
  }

  lemma {:induction false} AdmittedWithinLevel(l: Limiter, key: string, perMinute: int, calls: seq<Call>, now: real)
    requires perMinute > 0 && Budgeted(key, perMinute, calls) && InOrder(calls, now) && Sound(l, now)
    ensures now <= EndOf(calls, now)
    ensures Admitted(key, calls, Answers(l, calls, false)) as real
      <= Level(Find(l.buckets, key), perMinute, now) + Refill(EndOf(calls, now) - now, perMinute)
    decreases |calls|
  {
    RefillIsNonNegative(0.0, perMinute);
    hide Step, Answered, Level, Sound, Refill, Answers;
    if calls == [] {
      LevelIsNonNegative(l, key, perMinute, now);
    } else {
      var c := calls[0];
      var next := Step(l, c, false);
      assert c in calls && forall d | d in calls[1..] :: d in calls;
      SoundLater(l, now, c.now);
      StepIsSound(l, c, false);
      AdmittedWithinLevel(next, key, perMinute, calls[1..], c.now);
      assert EndOf(calls[1..], c.now) == EndOf(calls, now);
      StepSpends(l, c, key, perMinute);
      LevelGrows(Find(l.buckets, key), perMinute, now, c.now);
      RefillAdds(now, c.now, EndOf(calls, now), perMinute);
      OneMore(key, calls, l);
    }
  }

  lemma LevelIsNonNegative(l: Limiter, key: string, perMinute: int, now: real)
    requires Sound(l, now) && perMinute > 0
    ensures Level(Find(l.buckets, key), perMinute, now) >= 0.0
  {
    if key in l.buckets {
      RefillIsNonNegative(now - l.buckets[key].last, perMinute);
      hide Refill;
    }
  }

  function After(l: Limiter, calls: seq<Call>, sweeping: bool): Limiter
    decreases |calls|
  {
    if calls == [] then l else After(Step(l, calls[0], sweeping), calls[1..], sweeping)
  }

  lemma {:induction false} AnswersSplit(l: Limiter, xs: seq<Call>, ys: seq<Call>, sweeping: bool)
    ensures Answers(l, xs + ys, sweeping) == Answers(l, xs, sweeping) + Answers(After(l, xs, sweeping), ys, sweeping)
    decreases |xs|
  {
    hide Step, Answered;
    if xs == [] {
      assert xs + ys == ys;
    } else {
      AnswersSplit(Step(l, xs[0], sweeping), xs[1..], ys, sweeping);
      assert (xs + ys)[1..] == xs[1..] + ys;
    }
  }

  lemma {:induction false} AfterIsSound(l: Limiter, xs: seq<Call>, ys: seq<Call>, now: real)
    requires Sound(l, now) && InOrder(xs + ys, now)
    ensures Sound(After(l, xs, false), EndOf(xs, now)) && InOrder(ys, EndOf(xs, now))
    decreases |xs|
  {
    hide Step, Sound;
    if xs == [] {
      assert xs + ys == ys;
    } else {
      assert (xs + ys)[1..] == xs[1..] + ys;
      SoundLater(l, now, xs[0].now);
      StepIsSound(l, xs[0], false);
      AfterIsSound(Step(l, xs[0], false), xs[1..], ys, xs[0].now);
    }
  }

  /** For a key with budget N, at most N + N*T/60 of the requests made within any T
      seconds are admitted, whatever came before, between other keys and across sweeps. */
  lemma WindowBound(before: seq<Call>, window: seq<Call>, key: string, perMinute: int, now: real)
    requires perMinute > 0 && window != [] && Budgeted(key, perMinute, window) && InOrder(before + window, now)
    ensures var answers := Answers(Limiter(map[], 0), before + window, true)[|before|..];
      var seconds := window[|window| - 1].now - window[0].now;
      Admitted(key, window, answers) as real <= perMinute as real + perMinute as real * seconds / 60.0
  {
    hide *;
    var l0 := Limiter(map[], 0);
    var start := window[0].now;
    var l := After(l0, before, false);
    WindowAnswers(before, window, now);
    LevelAtMostCapacity(Find(l.buckets, key), perMinute, start);
    AdmittedWithinLevel(l, key, perMinute, window, start);
    EndOfWindow(window, start);
    Combine(Admitted(key, window, Answers(l, window, false)) as real, Level(Find(l.buckets, key), perMinute, start),
            perMinute, window[|window| - 1].now - start);
  }

  /** What the sweeping limiter answers in the window is what the other one answers
      from the state it has reached. */
  lemma WindowAnswers(before: seq<Call>, window: seq<Call>, now: real)
    requires window != [] && InOrder(before + window, now)
    ensures var l := After(Limiter(map[], 0), before, false);
      && Answers(Limiter(map[], 0), before + window, true)[|before|..] == Answers(l, window, false)
      && Sound(l, window[0].now) && InOrder(window, window[0].now)
  {
    hide Answers, After, Step, Sound;
    var l0 := Limiter(map[], 0);
    EmptyIsSound(now);
    SweepingIsUnobservable(before + window, now);
    AnswersSplit(l0, before, window, false);
    AfterIsSound(l0, before, window, now);
    SoundLater(After(l0, before, false), EndOf(before, now), window[0].now);
  }

  lemma EndOfWindow(window: seq<Call>, start: real)
    requires window != []
    ensures EndOf(window, start) == window[|window| - 1].now
  {
  }

  lemma Combine(admitted: real, level: real, perMinute: int, seconds: real)
    requires level <= perMinute as real && admitted <= level + Refill(seconds, perMinute)
    ensures admitted <= perMinute as real + perMinute as real * seconds / 60.0
  {
    Scale(perMinute as real, seconds);
  }

  lemma Scale(n: real, seconds: real)
    ensures seconds * (n / 60.0) == n * seconds / 60.0
  {
  }

  lemma EmptyIsSound(now: real)
    ensures Sound(Limiter(map[], 0), now)
  {
  }

  lemma LevelAtMostCapacity(b: Option<Bucket>, perMinute: int, now: real)
    ensures Level(b, perMinute, now) <= perMinute as real
  {
  }

  /** The wait is exact: with no other request of the key in between, a request made
      after a refusal is admitted exactly from the announced moment on. */
  lemma RetryAfterIsExact(l: Limiter, c: Call, delay: real)
    requires c.perMinute > 0 && !Answered(l, c).ok && delay >= 0.0
    ensures var next := Step(l, c, true);
      Answered(next, c.(now := c.now + delay)).ok <==> delay >= Answered(l, c).wait
  {
    var level := Level(Find(l.buckets, c.key), c.perMinute, c.now);
    var next := Step(l, c, true);
    assert Find(next.buckets, c.key) == Some(Bucket(level, c.now));
    assert Level(Find(next.buckets, c.key), c.perMinute, c.now + delay)
      == Min(c.perMinute as real, level + Refill(delay, c.perMinute));
    WaitIsExact(level, delay, Rate(c.perMinute));
  }

  lemma WaitIsExact(level: real, delay: real, rate: real)
    requires rate > 0.0
    ensures level + delay * rate >= 1.0 <==> delay >= (1.0 - level) / rate
  {
    var wait := (1.0 - level) / rate;
    assert wait * rate == 1.0 - level;
    ScaleReals(wait, delay, rate);
    ScaleReals(delay, wait, rate);
  }

  lemma ScaleReals(a: real, b: real, rate: real)
    requires rate > 0.0
    ensures a <= b ==> a * rate <= b * rate
    ensures a < b ==> a * rate < b * rate
  {
    if a < b {
      assert (b - a) * rate > 0.0;
    }
  }

  // ---- what is admitted at least ----

  /** Without a positive budget nothing is limited and nothing is remembered; an admitted
      request waits for nothing, a refused one for something. */
  lemma NoBudgetNoLimit(l: Limiter, c: Call, sweeping: bool)
    ensures c.perMinute <= 0 ==> Answered(l, c) == Answer(true, 0.0) && Step(l, c, sweeping) == l
    ensures Answered(l, c).ok ==> Answered(l, c).wait == 0.0
    ensures !Answered(l, c).ok ==> Answered(l, c).wait > 0.0
  {
    if c.perMinute > 0 {
      var level := Level(Find(l.buckets, c.key), c.perMinute, c.now);
      if level < 1.0 {
        WaitIsExact(level, 0.0, Rate(c.perMinute));
      }
    }
  }

  /** `n` requests of the key at the same moment. */
  function Burst(key: string, perMinute: int, now: real, n: nat): seq<Call> {
    seq(n, i requires 0 <= i < n => Call(key, perMinute, now))
  }

  lemma {:induction false} BurstFromLevel(l: Limiter, key: string, perMinute: int, now: real, level: nat, n: nat)
    requires perMinute > 0 && level <= perMinute
    requires Level(Find(l.buckets, key), perMinute, now) == level as real
    ensures var calls := Burst(key, perMinute, now, n);
      Admitted(key, calls, Answers(l, calls, false)) == if n <= level then n else level
    decreases n
  {
    if n > 0 {
      var calls, c := Burst(key, perMinute, now, n), Call(key, perMinute, now);
      var next := Step(l, c, false);
      var left := if level > 0 then level - 1 else 0;
      assert Find(next.buckets, key) == Some(Bucket(left as real, now));
      LevelNow(left as real, perMinute, now);
      BurstFromLevel(next, key, perMinute, now, left, n - 1);
      OneMore(key, calls, l);
      assert calls[1..] == Burst(key, perMinute, now, n - 1);
      hide Level, Step, Answers;
    }
  }

  /** A key not seen for over a minute, or never, has its whole budget at once: of n
      requests made together exactly the first min(n, N) are admitted. */
  lemma WholeBudgetAtOnce(l: Limiter, key: string, perMinute: int, now: real, n: nat)
    requires perMinute > 0 && Sound(l, now)
    requires key in l.buckets ==> now - l.buckets[key].last > IDLE
    ensures var calls := Burst(key, perMinute, now, n);
      Admitted(key, calls, Answers(l, calls, false)) == if n <= perMinute then n else perMinute
  {
    if key in l.buckets {
      IdleIsFull(l.buckets[key], perMinute, now);
    }
    hide Sound;
    BurstFromLevel(l, key, perMinute, now, perMinute, n);
  }

  /** The requests of the key keep the distance, also to its last one if there was one. */
  predicate KeepsDistance(key: string, calls: seq<Call>, gap: real, last: Option<real>) {
    calls == [] ||
    if calls[0].key == key
    then (last.Some? ==> calls[0].now - last.value >= gap) && KeepsDistance(key, calls[1..], gap, Some(calls[0].now))
    else KeepsDistance(key, calls[1..], gap, last)
  }

  predicate LastTouched(l: Limiter, key: string, last: Option<real>) {
    if last.None? then key !in l.buckets
    else key in l.buckets && l.buckets[key].last == last.value
  }

  /** Requests a refill of one token apart are all admitted, for ever, whatever the other
      keys do. */
  lemma {:induction false} SteadyRequestsAreAdmitted(l: Limiter, key: string, perMinute: int, calls: seq<Call>, now: real,
                                                    last: Option<real>)
    requires perMinute > 0 && Budgeted(key, perMinute, calls) && InOrder(calls, now) && Sound(l, now)
    requires LastTouched(l, key, last) && KeepsDistance(key, calls, 60.0 / perMinute as real, last)
    ensures forall i | 0 <= i < |calls| && calls[i].key == key :: Answers(l, calls, false)[i].ok
    decreases |calls|
  {
    if calls != [] {
      var c := calls[0];
      var next := Step(l, c, false);
      assert c in calls && forall d | d in calls[1..] :: d in calls;
      SoundLater(l, now, c.now);
      StepIsSound(l, c, false);
      StepTouches(l, c, key);
      if c.key == key {
        SpacedRequestIsAdmitted(l, c, last);
      }
      SteadyRequestsAreAdmitted(next, key, perMinute, calls[1..], c.now, if c.key == key then Some(c.now) else last);
      hide Step, Answered, Sound;
      assert Answers(l, calls, false)[1..] == Answers(next, calls[1..], false);
    }
  }

  lemma StepTouches(l: Limiter, c: Call, key: string)
    ensures var next := Step(l, c, false);
      && (c.key != key ==> (key in next.buckets <==> key in l.buckets)
                           && (key in l.buckets ==> next.buckets[key] == l.buckets[key]))
      && (c.key == key && c.perMinute > 0 ==> key in next.buckets && next.buckets[key].last == c.now)
  {
    hide Level;
  }

  lemma SpacedRequestIsAdmitted(l: Limiter, c: Call, last: Option<real>)
    requires c.perMinute > 0 && Sound(l, c.now) && LastTouched(l, c.key, last)
    requires last.Some? ==> c.now - last.value >= 60.0 / c.perMinute as real
    ensures Answered(l, c).ok
  {
    if last.Some? {
      RefillsOneToken(c.now - last.value, c.perMinute);
    }
  }

  lemma RefillsOneToken(seconds: real, perMinute: int)
    requires perMinute > 0 && seconds >= 60.0 / perMinute as real
    ensures Refill(seconds, perMinute) >= 1.0
  {
    var rate := Rate(perMinute);
    assert 60.0 / perMinute as real * rate == 1.0;
    ScaleReals(60.0 / perMinute as real, seconds, rate);
  }
}
