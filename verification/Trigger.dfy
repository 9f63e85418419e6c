/** When a trigger fires next.  Text that does not parse is None. */
module Trigger {
  import opened Wrappers
  import opened Cron

  datatype Trigger =
    | CronTrigger(schedule: Option<Schedule>, location: Option<int>)
    | Interval(every: Option<int>)
    | Once(at: Option<int>, location: Option<int>)
    | OnEvent
    | Unknown

  datatype NextResult = Never | At(instant: int) | Invalid

  /** `NextRun`: the next fire strictly after an instant. */
  function NextRun(t: Option<Trigger>, after: int): NextResult {
    match t
    case None => Never
    case Some(CronTrigger(schedule, location)) =>
      if location.None? || schedule.None? then Invalid
      else (match NextFire(schedule.value, after, location.value) case None => Never case Some(x) => At(x))
    case Some(Interval(every)) =>
      if every.None? || every.value <= 0 then Invalid else At(after + every.value)
    case Some(Once(at, location)) =>
      if location.None? || at.None? then Invalid
      else if at.value <= after then Never
      else At(at.value)
    case Some(OnEvent) => Never
    case Some(Unknown) => Invalid
  }

  /** The instants a cron or one-shot trigger names; an interval names none by itself. */
  predicate Names(t: Trigger, x: int) {
    match t
    case CronTrigger(Some(schedule), Some(location)) => FiresAt(schedule, x, location)
    case Once(Some(at), Some(_)) => x == at
    case _ => false
  }

  /** The text of the trigger can be read, and an interval is positive. */
  predicate Readable(t: Trigger) {
    match t
    case CronTrigger(schedule, location) => schedule.Some? && location.Some?
    case Interval(every) => every.Some? && every.value > 0
    case Once(at, location) => at.Some? && location.Some?
    case OnEvent => true
    case Unknown => false
  }

  /** A next run is refused exactly for an unreadable trigger; an interval always has
      one, an event trigger never. */
  lemma InvalidIffUnreadable(t: Trigger, after: int)
    ensures NextRun(Some(t), after) == Invalid <==> !Readable(t)
    ensures NextRun(None, after) == Never
    ensures t.Interval? && Readable(t) ==> NextRun(Some(t), after) == At(after + t.every.value)
    ensures t.OnEvent? ==> NextRun(Some(t), after) == Never
  {
    hide NextFire;
  }

  /** The next run is in the future, and a cron or one-shot trigger names it and
      nothing before it. */
  lemma NextRunIsFirst(t: Trigger, after: int)
    requires NextRun(Some(t), after).At?
    ensures var x := NextRun(Some(t), after).instant;
      after < x && (t.Interval? || (Names(t, x) && forall y | after < y < x :: !Names(t, y)))
  {
    if t.CronTrigger? {
      NextFireBasics(t.schedule.value, after, t.location.value);
      hide NextFire, FiresAt;
    }
  }
}
