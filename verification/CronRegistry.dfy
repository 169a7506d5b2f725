/** The job registry: named jobs, their last fire times, and the sweep that fires the due ones. */
module CronRegistry {
  import opened CronSearch
  import opened CronText
  import opened Text

  datatype Job = Job(expr: CronExpression, lastFired: int)

  /** The registered jobs and whether a fire callback is installed. */
  datatype Registry = Registry(jobs: map<string, Job>, armed: bool)

  datatype Event =
    | Upsert(name: string, text: string, now: int)
    | Remove(name: string)
    | SetCallback(installed: bool)
    | Tick(now: int)

  /** A job is due when its next matching minute, seen from its last fire, has come. */
  ghost predicate Due(job: Job, now: int) {
    var next := NextMinute(job.expr, job.lastFired);
    next.Some? && next.value * MINUTE <= now
  }

  ghost function DueSet(jobs: map<string, Job>, now: int): set<string> {
    set name | name in jobs && Due(jobs[name], now)
  }

  ghost function Swept(job: Job, now: int): Job {
    if Due(job, now) then job.(lastFired := now) else job
  }

  ghost function SweptAll(jobs: map<string, Job>, now: int): map<string, Job> {
    map name | name in jobs :: Swept(jobs[name], now)
  }

  /** A new job looks back one minute; a known job keeps its last fire time. */
  function Upserted(jobs: map<string, Job>, name: string, text: string, now: int): map<string, Job> {
    match ParseText(text)
    case None => jobs
    case Some(expr) =>
      if name in jobs then jobs[name := jobs[name].(expr := expr)]
      else jobs[name := Job(expr, now - MINUTE)]
  }

  ghost function Step(s: Registry, event: Event): Registry {
    match event
    case Upsert(name, text, now) => s.(jobs := Upserted(s.jobs, name, text, now))
    case Remove(name) => s.(jobs := s.jobs - {name})
    case SetCallback(installed) => s.(armed := installed)
    case Tick(now) => if s.armed then s.(jobs := SweptAll(s.jobs, now)) else s
  }

  /** The jobs an event fires. */
  ghost function Fired(s: Registry, event: Event): set<string> {
    if event.Tick? && s.armed then DueSet(s.jobs, event.now) else {}
  }

  /** Each method is one event of the registry; `calls` is what the callback has been called with. */
  class LocalCron {
    var jobs: map<string, Job>
    var armed: bool
    var calls: seq<string>

    ghost function State(): Registry
      reads this
    {
      Registry(jobs, armed)
    }

    constructor ()
      ensures State() == Registry(map[], false) && calls == []
    {
      jobs, armed, calls := map[], false, [];
    }

    method SetFireCallback(installed: bool)
      modifies this
      ensures State() == Step(old(State()), SetCallback(installed)) && calls == old(calls)
    {
      armed := installed;
    }

    method UpsertJob(name: string, text: string, now: int)
      modifies this
      ensures State() == Step(old(State()), Upsert(name, text, now)) && calls == old(calls)
    {
      var parsed := Parse(text);
      if parsed.None? {
        return;
      }
      if name in jobs {
        jobs := jobs[name := jobs[name].(expr := parsed.value)];
        return;
      }
      jobs := jobs[name := Job(parsed.value, now - MINUTE)];
    }

    method RemoveJob(name: string)
      modifies this
      ensures State() == Step(old(State()), Remove(name)) && calls == old(calls)
    {
      jobs := jobs - {name};
    }

    /** The loop body of the sweep. */
    method SweepJob(name: string, now: int)
      requires name in jobs
      modifies this`jobs, this`calls
      ensures jobs == old(jobs)[name := Swept(old(jobs)[name], now)]
      ensures calls == old(calls) + if Due(old(jobs)[name], now) then [name] else []
    {
      hide NextMinute, Due;
      var job := jobs[name];
      var next := NextAfter(job.expr, job.lastFired);
      DueIsAnswered(job, now);
      if next.Some? && next.value <= now {
        jobs := jobs[name := job.(lastFired := now)];
        calls := calls + [name];
      }
    }

    /** One sweep, in whatever order the jobs come: each due job is called once and stamped, the others are untouched. */
    method TickAt(now: int)
      modifies this
      ensures State() == Step(old(State()), Tick(now))
      ensures old(calls) <= calls && NoRepeats(calls[|old(calls)|..])
      ensures (set name | name in calls[|old(calls)|..]) == Fired(old(State()), Tick(now))
    {
      if !armed {
        NothingFired(calls);
        return;
      }
      hide Due, Swept, NoRepeats, SweptAll, DueSet;
      EmptyHasNoRepeats();
      ghost var before := jobs;
      ghost var fired: seq<string> := [];
      var todo := jobs.Keys;
      while todo != {}
        invariant todo <= before.Keys && jobs.Keys == before.Keys && armed
        invariant forall name :: name in todo ==> jobs[name] == before[name]
        invariant forall name :: name in before && name !in todo ==> jobs[name] == Swept(before[name], now)
        invariant calls == old(calls) + fired && NoRepeats(fired)
        invariant forall name :: name in fired <==> name in before && name !in todo && Due(before[name], now)
        decreases todo
      {
        var name :| name in todo;
        SweepJob(name, now);
        StillNoRepeats(fired, name);
        fired := if Due(before[name], now) then fired + [name] else fired;
        todo := todo - {name};
      }
      SweepIsComplete(before, jobs, fired, now);
      assert calls[|old(calls)|..] == fired;
    }
  }

  lemma SweepIsComplete(before: map<string, Job>, after: map<string, Job>, fired: seq<string>, now: int)
    requires after.Keys == before.Keys && forall name :: name in before ==> after[name] == Swept(before[name], now)
    requires forall name :: name in fired <==> name in before && Due(before[name], now)
    ensures after == SweptAll(before, now)
    ensures (set name | name in fired) == DueSet(before, now)
  {
    hide Due, Swept;
  }

  lemma NothingFired(calls: seq<string>)
    ensures calls[|calls|..] == [] && NoRepeats(calls[|calls|..])
  {
  }

  lemma EmptyHasNoRepeats()
    ensures NoRepeats([])
  {
  }

  lemma StillNoRepeats(names: seq<string>, name: string)
    requires NoRepeats(names) && name !in names
    ensures NoRepeats(names + [name])
  {
  }

  /** The comparison in the sweep decides whether a job is due. */
  lemma DueIsAnswered(job: Job, now: int)
    ensures var next := Times(NextMinute(job.expr, job.lastFired));
            Due(job, now) <==> next.Some? && next.value <= now
  {
    hide NextMinute;
  }

  /** After a sweep nothing is due at that instant: a job just fired looks for a later minute. */
  lemma JustFiredIsNotDue(job: Job, now: int)
    ensures !Due(Swept(job, now), now)
  {
    var after := Swept(job, now);
    if after.lastFired == now && NextMinute(after.expr, now).Some? {
      Boundary(now, NextMinute(after.expr, now).value);
    }
  }

  /** Ticking twice at one instant is ticking once: the second sweep fires nothing and changes nothing. */
  lemma SecondTickSettles(s: Registry, now: int)
    ensures Fired(Step(s, Tick(now)), Tick(now)) == {}
    ensures Step(Step(s, Tick(now)), Tick(now)) == Step(s, Tick(now))
  {
    hide Due;
    forall name | name in s.jobs
      ensures !Due(Swept(s.jobs[name], now), now)
    {
      JustFiredIsNotDue(s.jobs[name], now);
    }
    if s.armed {
      var once := Step(s, Tick(now));
      assert Step(once, Tick(now)).jobs == once.jobs;
    }
  }
}
