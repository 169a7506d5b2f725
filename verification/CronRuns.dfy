/** Whole runs of the registry: how often one job fires, and for which minutes. */
module CronRuns {
  import opened CronSearch
  import opened CronHorizon
  import opened CronRegistry
  import opened CronText
  import opened Text

  /** One fire of a job: when, for which matching minute, and under which expression. */
  datatype Fire = Fire(at: int, slot: int, expr: CronExpression)

  /** The fires of job `name` over a run. */
  ghost function FiresOf(name: string, s: Registry, events: seq<Event>): seq<Fire>
    decreases |events|
  {
    if events == [] then []
    else
      var rest := FiresOf(name, Step(s, events[0]), events[1..]);
      if name in Fired(s, events[0]) then
        [Fire(events[0].now, NextMinute(s.jobs[name].expr, s.jobs[name].lastFired).value, s.jobs[name].expr)] + rest
      else rest
  }

  predicate NeverRemoved(name: string, events: seq<Event>) {
    Remove(name) !in events
  }

  // At most once, whatever the clock does.

  ghost predicate Justified(f: Fire) {
    Matches(f.expr, f.slot) && f.slot <= MinuteOf(f.at)
  }

  /** `f` comes after time `last`, in a later minute, and for a minute after it. */
  ghost predicate After(last: int, f: Fire) {
    last < f.at && MinuteOf(last) < MinuteOf(f.at) && MinuteOf(last) < f.slot
  }

  ghost predicate Ordered(fires: seq<Fire>) {
    forall i, j :: 0 <= i < j < |fires| ==> After(fires[i].at, fires[j]) && fires[i].slot < fires[j].slot
  }

  lemma FireIsLater(job: Job, now: int)
    requires Due(job, now)
    ensures var slot := NextMinute(job.expr, job.lastFired).value;
            Justified(Fire(now, slot, job.expr)) && After(job.lastFired, Fire(now, slot, job.expr))
  {
    hide Matches;
    var slot := NextMinute(job.expr, job.lastFired).value;
    Boundary(now, slot);
    Boundary(job.lastFired, slot);
  }

  /** A step that does not remove the job keeps its stamp, unless it fires it; then the stamp rises to the clock. */
  lemma StampRises(name: string, s: Registry, event: Event)
    requires name in s.jobs && event != Remove(name)
    ensures name in Step(s, event).jobs
    ensures name in Fired(s, event) ==>
              s.jobs[name].lastFired < Step(s, event).jobs[name].lastFired == event.now
    ensures name !in Fired(s, event) ==> Step(s, event).jobs[name].lastFired == s.jobs[name].lastFired
  {
    hide NextMinute, ParseText;
    if name in Fired(s, event) {
      FireIsLater(s.jobs[name], event.now);
    }
  }

  lemma {:induction false} FiresAreOrdered(name: string, s: Registry, events: seq<Event>)
    requires NeverRemoved(name, events)
    ensures var fires := FiresOf(name, s, events);
            && Ordered(fires)
            && (forall i :: 0 <= i < |fires| ==> Justified(fires[i]))
            && (name in s.jobs ==> forall i :: 0 <= i < |fires| ==> After(s.jobs[name].lastFired, fires[i]))
    decreases |events|
  {
    hide NextMinute, ParseText, Matches, Due;
    if events != [] {
      var next := Step(s, events[0]);
      FiresAreOrdered(name, next, events[1..]);
      if name in s.jobs {
        StampRises(name, s, events[0]);
        if name in Fired(s, events[0]) {
          FireIsLater(s.jobs[name], events[0].now);
        }
      }
    }
  }

  /** For every run of ticks and re-registrations without removal, forwards or backwards in time: fire times strictly
      rise, each fire has a matching minute of its own that has come, and no calendar minute holds two fires. */
  lemma AtMostOnce(name: string, s: Registry, events: seq<Event>, i: nat, j: nat)
    requires NeverRemoved(name, events)
    requires i < j < |FiresOf(name, s, events)|
    ensures var fires := FiresOf(name, s, events);
            && fires[i].at < fires[j].at
            && fires[i].slot < fires[j].slot
            && MinuteOf(fires[i].at) != MinuteOf(fires[j].at)
            && Justified(fires[i]) && Justified(fires[j])
  {
    FiresAreOrdered(name, s, events);
  }

  /** Removing and re-registering does fire twice in one minute. */
  lemma RemovalFiresTwice(name: string, text: string, s: Registry, e: CronExpression, now: int)
    requires s.armed && name !in s.jobs
    requires ParseText(text) == Some(e) && Matches(e, MinuteOf(now))
    ensures FiresOf(name, s, [Upsert(name, text, now), Tick(now), Remove(name), Upsert(name, text, now), Tick(now)])
            == [Fire(now, MinuteOf(now), e), Fire(now, MinuteOf(now), e)]
  {
    hide Matches, ParseText;
    var events := [Upsert(name, text, now), Tick(now), Remove(name), Upsert(name, text, now), Tick(now)];
    FreshJobIsDue(e, now);
    var s1 := Step(s, events[0]);
    var s2 := Step(s1, events[1]);
    var s3 := Step(s2, events[2]);
    var s4 := Step(s3, events[3]);
    assert events[1..][1..] == events[2..] && events[2..][1..] == events[3..] && events[3..][1..] == events[4..];
    assert events[4..][1..] == [];
    assert FiresOf(name, Step(s4, events[4]), []) == [];
    assert FiresOf(name, s4, events[4..]) == [Fire(now, MinuteOf(now), e)];
    assert FiresOf(name, s3, events[3..]) == [Fire(now, MinuteOf(now), e)];
    assert FiresOf(name, s2, events[2..]) == [Fire(now, MinuteOf(now), e)];
    assert FiresOf(name, s1, events[1..]) == [Fire(now, MinuteOf(now), e)] + FiresOf(name, s2, events[2..]);
  }

  lemma FreshJobIsDue(e: CronExpression, now: int)
    requires Matches(e, MinuteOf(now))
    ensures NextMinute(e, now - MINUTE) == Some(MinuteOf(now))
    ensures Due(Job(e, now - MINUTE), now)
  {
    hide Matches;
    assert MinuteOf(now - MINUTE) == MinuteOf(now) - 1;
    FirstMatchIs(e, MinuteOf(now), MinuteOf(now) + HORIZON, MinuteOf(now));
  }

  // Exactly once, under a clock that does not go backwards.

  /** The callback stays, and no event touches job `name` but the ticks. */
  predicate Undisturbed(name: string, events: seq<Event>) {
    forall i :: 0 <= i < |events| ==>
      match events[i]
      case Upsert(n, _, _) => n != name
      case Remove(n) => n != name
      case SetCallback(installed) => installed
      case Tick(_) => true
  }

  /** Tick times never fall below `from` nor below each other. */
  predicate ClockRises(from: int, events: seq<Event>)
    decreases |events|
  {
    if events == [] then true
    else if events[0].Tick? then from <= events[0].now && ClockRises(events[0].now, events[1..])
    else ClockRises(from, events[1..])
  }

  /** The minute of the last tick, or `q` if there was none. */
  function LastMinute(q: int, events: seq<Event>): int
    decreases |events|
  {
    if events == [] then q
    else LastMinute(if events[0].Tick? then MinuteOf(events[0].now) else q, events[1..])
  }

  /** The matching minutes of [lo, hi], in order. */
  ghost function MatchingMinutes(e: CronExpression, lo: int, hi: int): (ms: seq<int>)
    decreases hi - lo
  {
    if lo > hi then []
    else (if Matches(e, lo) then [lo] else []) + MatchingMinutes(e, lo + 1, hi)
  }

  ghost function Slots(fires: seq<Fire>): (slots: seq<int>)
    ensures |slots| == |fires|
    ensures forall i :: 0 <= i < |fires| ==> slots[i] == fires[i].slot
  {
    seq(|fires|, i requires 0 <= i < |fires| => fires[i].slot)
  }

  /** Every matching minute after `q` is met by a tick that meets no other, before the search from minute `p`, the
      last one fired in, runs out of window. */
  ghost predicate EachMetAlone(e: CronExpression, p: int, q: int, events: seq<Event>)
    decreases |events|
  {
    if events == [] then true
    else if !events[0].Tick? then EachMetAlone(e, p, q, events[1..])
    else
      var m := MinuteOf(events[0].now);
      var met := MatchingMinutes(e, q + 1, m);
      if met == [] then EachMetAlone(e, p, m, events[1..])
      else |met| == 1 && met[0] <= p + HORIZON && EachMetAlone(e, m, m, events[1..])
  }

  lemma {:induction false} MatchingMinutesAre(e: CronExpression, lo: int, hi: int)
    ensures var ms := MatchingMinutes(e, lo, hi);
            && StrictlyAscending(ms)
            && (forall m :: m in ms <==> lo <= m <= hi && Matches(e, m))
            && (ms != [] ==> Silent(e, lo, ms[0]))
            && (ms == [] ==> Silent(e, lo, hi + 1))
    decreases hi - lo
  {
    hide Matches;
    if lo <= hi {
      MatchingMinutesAre(e, lo + 1, hi);
      var rest := MatchingMinutes(e, lo + 1, hi);
      assert forall i :: 0 <= i < |rest| ==> rest[i] in rest;
    }
  }

  lemma {:induction false} MatchingMinutesSplit(e: CronExpression, lo: int, mid: int, hi: int)
    requires lo - 1 <= mid <= hi
    ensures MatchingMinutes(e, lo, hi) == MatchingMinutes(e, lo, mid) + MatchingMinutes(e, mid + 1, hi)
    decreases mid - lo
  {
    hide Matches;
    if lo <= mid {
      MatchingMinutesSplit(e, lo + 1, mid, hi);
    }
  }

  lemma {:induction false} ClockReaches(from: int, q: int, events: seq<Event>)
    requires ClockRises(from, events) && q <= MinuteOf(from)
    ensures q <= LastMinute(q, events)
    decreases |events|
  {
    if events != [] {
      if events[0].Tick? {
        ClockReaches(events[0].now, MinuteOf(events[0].now), events[1..]);
      } else {
        ClockReaches(from, q, events[1..]);
      }
    }
  }

  /** Slots never pass the last tick. */
  lemma {:induction false} SlotsAreReached(name: string, s: Registry, events: seq<Event>, from: int, q: int)
    requires ClockRises(from, events) && q <= MinuteOf(from)
    ensures forall i :: 0 <= i < |FiresOf(name, s, events)| ==> FiresOf(name, s, events)[i].slot <= LastMinute(q, events)
    decreases |events|
  {
    hide NextMinute, ParseText, Matches;
    if events != [] {
      var head := events[0];
      if head.Tick? {
        SlotsAreReached(name, Step(s, head), events[1..], head.now, MinuteOf(head.now));
        ClockReaches(head.now, MinuteOf(head.now), events[1..]);
        if name in Fired(s, head) {
          FireIsLater(s.jobs[name], head.now);
        }
      } else {
        SlotsAreReached(name, Step(s, head), events[1..], from, q);
      }
    }
  }

  lemma {:induction false} AscendingInto(a: seq<int>, b: seq<int>)
    requires StrictlyAscending(a) && StrictlyAscending(b) && forall i :: 0 <= i < |a| ==> a[i] in b
    ensures |a| <= |b|
  {
    if a != [] {
      var k :| 0 <= k < |b| && b[k] == a[0];
      forall i | 0 <= i < |a[1..]|
        ensures a[1..][i] in b[k + 1..]
      {
        var j :| 0 <= j < |b| && b[j] == a[1 + i];
        assert b[j] == b[k + 1..][j - (k + 1)];
      }
      AscendingInto(a[1..], b[k + 1..]);
    }
  }

  /** A run undisturbed for `name`, with the last fire in minute `p`, the last tick in minute `q` and no match since. */
  ghost predicate Watching(name: string, s: Registry, events: seq<Event>, p: int, q: int, from: int) {
    && s.armed && name in s.jobs && Undisturbed(name, events)
    && p == MinuteOf(s.jobs[name].lastFired) <= q <= MinuteOf(from) && ClockRises(from, events)
    && Silent(s.jobs[name].expr, p + 1, q + 1)
  }

  /** Never more fires than matching minutes. */
  lemma NoMoreThanMatches(name: string, s: Registry, events: seq<Event>, p: int, q: int, from: int)
    requires Watching(name, s, events, p, q, from)
    ensures |FiresOf(name, s, events)| <= |MatchingMinutes(s.jobs[name].expr, q + 1, LastMinute(q, events))|
  {
    hide Matches;
    var e := s.jobs[name].expr;
    var fires := FiresOf(name, s, events);
    var ms := MatchingMinutes(e, q + 1, LastMinute(q, events));
    FiresAreOrdered(name, s, events);
    ExpressionStays(name, s, events);
    SlotsAreReached(name, s, events, from, q);
    MatchingMinutesAre(e, q + 1, LastMinute(q, events));
    forall i | 0 <= i < |fires|
      ensures Slots(fires)[i] in ms
    {
      assert After(s.jobs[name].lastFired, fires[i]) && Justified(fires[i]);
    }
    AscendingInto(Slots(fires), ms);
  }

  lemma {:induction false} ExpressionStays(name: string, s: Registry, events: seq<Event>)
    requires name in s.jobs && Undisturbed(name, events)
    ensures NeverRemoved(name, events)
    ensures forall i :: 0 <= i < |FiresOf(name, s, events)| ==> FiresOf(name, s, events)[i].expr == s.jobs[name].expr
    decreases |events|
  {
    hide NextMinute, ParseText, Due;
    if events != [] {
      ExpressionStays(name, Step(s, events[0]), events[1..]);
      assert events == [events[0]] + events[1..];
    }
  }

  // What registering, refusing and silencing mean for the fires that follow.

  /** From a registration on, of a new job or of a known one, every fire is for the expression just registered. */
  lemma RegisteredIsInForce(name: string, text: string, now: int, s: Registry, events: seq<Event>, e: CronExpression)
    requires ParseText(text) == Some(e) && Undisturbed(name, events)
    ensures var fires := FiresOf(name, s, [Upsert(name, text, now)] + events);
            forall i :: 0 <= i < |fires| ==> fires[i].expr == e && Matches(e, fires[i].slot)
  {
    hide NextMinute, ParseText, Due, Matches;
    var all := [Upsert(name, text, now)] + events;
    assert all[1..] == events;
    var next := Step(s, all[0]);
    ExpressionStays(name, next, events);
    FiresAreOrdered(name, next, events);
    assert FiresOf(name, s, all) == FiresOf(name, next, events);
  }

  /** Re-registered between two ticks, a known job fires at the next tick exactly if the first match of the new expression
      after its last fire has come. */
  lemma KnownJobFiresNext(name: string, text: string, now: int, s: Registry, tick: int, e: CronExpression)
    requires s.armed && name in s.jobs && ParseText(text) == Some(e)
    ensures var next := NextMinute(e, s.jobs[name].lastFired);
            FiresOf(name, s, [Upsert(name, text, now), Tick(tick)]) ==
            if next.Some? && next.value * MINUTE <= tick then [Fire(tick, next.value, e)] else []
  {
    hide NextMinute, ParseText;
    var all := [Upsert(name, text, now), Tick(tick)];
    assert all[1..] == [Tick(tick)] && [Tick(tick)][1..] == [];
    var next := Step(s, all[0]);
    assert FiresOf(name, Step(next, Tick(tick)), []) == [];
    assert FiresOf(name, s, all) == FiresOf(name, next, [Tick(tick)]);
  }

  /** The minutes a re-registered job makes up for start at its last fire: its fires are one-to-one with the new
      expression's matching minutes since then if and only if each is met alone. */
  lemma KnownJobExactlyOnce(name: string, text: string, now: int, s: Registry, events: seq<Event>, e: CronExpression)
    requires s.armed && name in s.jobs && ParseText(text) == Some(e)
    requires Undisturbed(name, events) && ClockRises(s.jobs[name].lastFired, events)
    ensures var p := MinuteOf(s.jobs[name].lastFired);
            Slots(FiresOf(name, s, [Upsert(name, text, now)] + events)) == MatchingMinutes(e, p + 1, LastMinute(p, events)) <==>
            EachMetAlone(e, p, p, events)
  {
    hide NextMinute, ParseText, Matches, MatchingMinutes, EachMetAlone, Slots, FiresOf;
    var all := [Upsert(name, text, now)] + events;
    var p, next := MinuteOf(s.jobs[name].lastFired), Step(s, all[0]);
    assert all[1..] == events;
    OnlyTicksFire(name, s, all);
    assert Watching(name, next, events, p, p, s.jobs[name].lastFired);
    ExactlyOnceIff(name, next, events, p, p, s.jobs[name].lastFired);
  }

  lemma OnlyTicksFire(name: string, s: Registry, events: seq<Event>)
    requires events != [] && !events[0].Tick?
    ensures FiresOf(name, s, events) == FiresOf(name, Step(s, events[0]), events[1..])
  {
    hide NextMinute, ParseText, Due;
  }

  /** A text the parser refuses, for whichever job, changes no job's fires. */
  lemma RefusedChangesNothing(name: string, other: string, text: string, now: int, s: Registry, events: seq<Event>)
    requires ParseText(text) == None
    ensures FiresOf(name, s, [Upsert(other, text, now)] + events) == FiresOf(name, s, events)
  {
    hide NextMinute, ParseText, Due;
    var all := [Upsert(other, text, now)] + events;
    assert all[1..] == events;
    OnlyTicksFire(name, s, all);
  }

  predicate NoneInstalled(events: seq<Event>) {
    forall i :: 0 <= i < |events| && events[i].SetCallback? ==> !events[i].installed
  }

  lemma {:induction false} UnarmedIsQuiet(name: string, s: Registry, events: seq<Event>)
    requires !s.armed && NoneInstalled(events)
    ensures FiresOf(name, s, events) == []
    decreases |events|
  {
    hide NextMinute, ParseText, Due;
    if events != [] {
      UnarmedIsQuiet(name, Step(s, events[0]), events[1..]);
    }
  }

  /** Once the callback is taken away nothing fires, whatever happens, until one is installed again. */
  lemma NoCallbackNoFires(name: string, s: Registry, events: seq<Event>)
    requires NoneInstalled(events)
    ensures FiresOf(name, s, [SetCallback(false)] + events) == []
  {
    hide NextMinute, ParseText, Due;
    var all := [SetCallback(false)] + events;
    assert all[1..] == events;
    OnlyTicksFire(name, s, all);
    UnarmedIsQuiet(name, Step(s, all[0]), events);
  }

  predicate OnlyTicks(events: seq<Event>) {
    forall i :: 0 <= i < |events| ==> events[i].Tick?
  }

  lemma {:induction false} UnarmedTicksPass(name: string, s: Registry, ticks: seq<Event>, rest: seq<Event>)
    requires !s.armed && OnlyTicks(ticks)
    ensures FiresOf(name, s, ticks + rest) == FiresOf(name, s, rest)
    decreases |ticks|
  {
    hide NextMinute, ParseText, Due;
    if ticks == [] {
      assert ticks + rest == rest;
    } else {
      var all := ticks + rest;
      assert all[0] == ticks[0] && all[1..] == ticks[1..] + rest;
      UnarmedTicksPass(name, s, ticks[1..], rest);
    }
  }

  /** Ticks without a callback leave no trace: with one installed again the job is where it was when the callback went. */
  lemma SilenceOnlyDelays(name: string, s: Registry, ticks: seq<Event>, events: seq<Event>)
    requires OnlyTicks(ticks)
    ensures FiresOf(name, s, [SetCallback(false)] + (ticks + ([SetCallback(true)] + events))) ==
            FiresOf(name, s.(armed := true), events)
  {
    hide NextMinute, ParseText, Due, FiresOf;
    var again := [SetCallback(true)] + events;
    var all := [SetCallback(false)] + (ticks + again);
    assert all[1..] == ticks + again && again[1..] == events;
    var quiet := Step(s, all[0]);
    OnlyTicksFire(name, s, all);
    UnarmedTicksPass(name, quiet, ticks, again);
    OnlyTicksFire(name, quiet, again);
    assert Step(quiet, again[0]) == s.(armed := true);
  }

  /** A job whose search has run out of window never fires again. */
  lemma {:induction false} StuckForever(name: string, s: Registry, events: seq<Event>)
    requires name in s.jobs && Undisturbed(name, events)
    requires NextMinute(s.jobs[name].expr, s.jobs[name].lastFired).None?
    ensures FiresOf(name, s, events) == []
    decreases |events|
  {
    hide NextMinute, ParseText;
    if events != [] {
      StuckForever(name, Step(s, events[0]), events[1..]);
    }
  }

  /** What one tick does to a watched job, by the matching minutes it meets. */
  lemma TickMeets(job: Job, q: int, now: int)
    requires MinuteOf(job.lastFired) <= q <= MinuteOf(now) && Silent(job.expr, MinuteOf(job.lastFired) + 1, q + 1)
    ensures var met := MatchingMinutes(job.expr, q + 1, MinuteOf(now));
            var p := MinuteOf(job.lastFired);
            && (met == [] ==> !Due(job, now) && Silent(job.expr, p + 1, MinuteOf(now) + 1))
            && (met != [] && met[0] <= p + HORIZON ==>
                  Due(job, now) && NextMinute(job.expr, job.lastFired) == Some(met[0]))
            && (met != [] && met[0] > p + HORIZON ==> NextMinute(job.expr, job.lastFired) == None)
  {
    hide Matches;
    var m := MinuteOf(now);
    var met := MatchingMinutes(job.expr, q + 1, m);
    var p := MinuteOf(job.lastFired);
    MatchingMinutesAre(job.expr, q + 1, m);
    if met == [] {
      if NextMinute(job.expr, job.lastFired).Some? {
        Boundary(now, NextMinute(job.expr, job.lastFired).value);
      }
    } else {
      var first := met[0];
      assert first in met;
      assert Silent(job.expr, p + 1, first);
      Boundary(now, first);
      if first <= p + HORIZON {
        FirstMatchIs(job.expr, p + 1, p + 1 + HORIZON, first);
      }
    }
  }

  /** The job after an undisturbed event other than a fire is the same job, still watched. */
  lemma WatchingGoesOn(name: string, s: Registry, events: seq<Event>, p: int, q: int, from: int)
    requires events != [] && Watching(name, s, events, p, q, from)
    ensures var next := Step(s, events[0]);
            if events[0].Tick? && Due(s.jobs[name], events[0].now) then
              && next.jobs[name] == s.jobs[name].(lastFired := events[0].now)
              && Watching(name, next, events[1..], MinuteOf(events[0].now), MinuteOf(events[0].now), events[0].now)
            else
              && name in next.jobs && next.jobs[name] == s.jobs[name]
              && (!events[0].Tick? ==> Watching(name, next, events[1..], p, q, from))
              && (events[0].Tick? && Silent(s.jobs[name].expr, p + 1, MinuteOf(events[0].now) + 1) ==>
                    Watching(name, next, events[1..], p, MinuteOf(events[0].now), events[0].now))
  {
    hide NextMinute, ParseText, Matches;
    assert Undisturbed(name, events[1..]);
  }

  /** The fires of an undisturbed job are one-to-one with the matching minutes after `q` up to the last tick if, and
      only if, each of those minutes is met alone. */
  lemma {:induction false} ExactlyOnceIff(name: string, s: Registry, events: seq<Event>, p: int, q: int, from: int)
    requires Watching(name, s, events, p, q, from)
    ensures Slots(FiresOf(name, s, events)) == MatchingMinutes(s.jobs[name].expr, q + 1, LastMinute(q, events)) <==>
            EachMetAlone(s.jobs[name].expr, p, q, events)
    decreases |events|
  {
    if events != [] {
      WatchingGoesOn(name, s, events, p, q, from);
      if events[0].Tick? {
        TickCase(name, s, events, p, q, from);
      } else {
        ExactlyOnceIff(name, Step(s, events[0]), events[1..], p, q, from);
      }
    }
  }

  lemma TickCase(name: string, s: Registry, events: seq<Event>, p: int, q: int, from: int)
    requires Watching(name, s, events, p, q, from) && events != [] && events[0].Tick?
    ensures Slots(FiresOf(name, s, events)) == MatchingMinutes(s.jobs[name].expr, q + 1, LastMinute(q, events)) <==>
            EachMetAlone(s.jobs[name].expr, p, q, events)
    decreases |events|, 0
  {
    hide Matches, NextMinute, Silent, ParseText, Watching, Undisturbed, Step, FiresOf, Due, MatchingMinutes, Slots;
    WatchedFacts(name, s, events, p, q, from);
    var job, now := s.jobs[name], events[0].now;
    var m, next, rest := MinuteOf(now), Step(s, events[0]), events[1..];
    var met := MatchingMinutes(job.expr, q + 1, m);
    var last := LastMinute(q, events);
    WatchingGoesOn(name, s, events, p, q, from);
    TickFires(name, s, events);
    TickMeets(job, q, now);
    ClockReaches(now, m, rest);
    MatchingMinutesSplit(job.expr, q + 1, m, last);
    var later := MatchingMinutes(job.expr, m + 1, last);
    if met == [] {
      assert met + later == later;
      ExactlyOnceIff(name, next, rest, p, m, now);
    } else if met[0] > p + HORIZON {
      StuckForever(name, s, events);
      NoSlots(met, later);
    } else {
      ExactlyOnceIff(name, next, rest, m, m, now);
      NoMoreThanMatches(name, next, rest, m, m, now);
      FirstSlot(met, later, FiresOf(name, next, rest), Fire(now, met[0], job.expr));
    }
  }

  lemma TickFires(name: string, s: Registry, events: seq<Event>)
    requires events != [] && events[0].Tick? && s.armed && name in s.jobs
    ensures var rest := FiresOf(name, Step(s, events[0]), events[1..]);
            FiresOf(name, s, events) ==
            if Due(s.jobs[name], events[0].now) then
              [Fire(events[0].now, NextMinute(s.jobs[name].expr, s.jobs[name].lastFired).value, s.jobs[name].expr)] + rest
            else rest
  {
    hide NextMinute;
  }

  lemma WatchedFacts(name: string, s: Registry, events: seq<Event>, p: int, q: int, from: int)
    requires Watching(name, s, events, p, q, from) && events != [] && events[0].Tick?
    ensures s.armed && name in s.jobs && Undisturbed(name, events)
    ensures MinuteOf(s.jobs[name].lastFired) == p <= q <= MinuteOf(events[0].now)
    ensures Silent(s.jobs[name].expr, p + 1, q + 1) && ClockRises(events[0].now, events[1..])
  {
    hide Matches;
  }

  lemma NoSlots(met: seq<int>, later: seq<int>)
    requires met != []
    ensures Slots([]) != met + later
  {
  }

  /** A first slot in front of later ones, against the minutes met in front of later ones. */
  lemma FirstSlot(met: seq<int>, later: seq<int>, fires: seq<Fire>, f: Fire)
    requires met != [] && f.slot == met[0] && |fires| <= |later|
    ensures Slots([f] + fires) == met + later <==> |met| == 1 && Slots(fires) == later
  {
    assert Slots([f] + fires) == [met[0]] + Slots(fires);
    if |met| == 1 {
      assert met + later == [met[0]] + later;
      assert ([met[0]] + Slots(fires))[1..] == Slots(fires) && ([met[0]] + later)[1..] == later;
    }
  }

  // The ordinary case: ticks at most a minute apart.

  /** Ticks come at most one minute after each other, the first in minute `q + 1` at the latest. */
  predicate EveryMinute(q: int, events: seq<Event>)
    decreases |events|
  {
    if events == [] then true
    else if events[0].Tick? then
      MinuteOf(events[0].now) <= q + 1 && EveryMinute(MinuteOf(events[0].now), events[1..])
    else EveryMinute(q, events[1..])
  }

  predicate WithinSixtySeconds(from: int, events: seq<Event>)
    decreases |events|
  {
    if events == [] then true
    else if events[0].Tick? then events[0].now <= from + MINUTE && WithinSixtySeconds(events[0].now, events[1..])
    else WithinSixtySeconds(from, events[1..])
  }

  lemma {:induction false} SixtySecondsIsEveryMinute(from: int, events: seq<Event>)
    requires WithinSixtySeconds(from, events)
    ensures EveryMinute(MinuteOf(from), events)
    decreases |events|
  {
    if events != [] {
      SixtySecondsIsEveryMinute(if events[0].Tick? then events[0].now else from, events[1..]);
    }
  }

  /** Successive matching minutes stay within the search window of each other. */
  predicate GapsWithinHorizon(p: int, minutes: seq<int>) {
    && (minutes != [] ==> minutes[0] <= p + HORIZON)
    && forall i :: 0 < i < |minutes| ==> minutes[i] <= minutes[i - 1] + HORIZON
  }

  lemma {:induction false} MinuteByMinute(e: CronExpression, p: int, q: int, from: int, events: seq<Event>)
    requires EveryMinute(q, events) && ClockRises(from, events) && q <= MinuteOf(from)
    ensures GapsWithinHorizon(p, MatchingMinutes(e, q + 1, LastMinute(q, events))) <==> EachMetAlone(e, p, q, events)
    decreases |events|
  {
    hide Matches;
    if events != [] {
      if !events[0].Tick? {
        MinuteByMinute(e, p, q, from, events[1..]);
      } else {
        var m, last := MinuteOf(events[0].now), LastMinute(q, events);
        var met, later := MatchingMinutes(e, q + 1, m), MatchingMinutes(e, m + 1, last);
        ClockReaches(events[0].now, m, events[1..]);
        MatchingMinutesSplit(e, q + 1, m, last);
        assert MatchingMinutes(e, q + 1, last) == met + later;
        assert MatchingMinutes(e, m + 1, m) == [];
        assert met == [] || (m == q + 1 && met == [m]);
        assert met == [] ==> met + later == later;
        MinuteByMinute(e, if met == [] then p else m, m, events[0].now, events[1..]);
        if met != [] {
          GapsGoOn(p, m, later);
        }
      }
    }
  }

  lemma GapsGoOn(p: int, m: int, later: seq<int>)
    ensures GapsWithinHorizon(p, [m] + later) <==> m <= p + HORIZON && GapsWithinHorizon(m, later)
  {
    var all := [m] + later;
    assert forall i :: 0 <= i < |later| ==> all[i + 1] == later[i];
    if GapsWithinHorizon(p, all) {
      forall i | 0 <= i < |later|
        ensures later[i] <= all[i] + HORIZON
      {
        assert all[i + 1] == later[i];
      }
      assert forall i :: 0 < i < |later| ==> all[i] == later[i - 1];
    }
    if m <= p + HORIZON && GapsWithinHorizon(m, later) {
      forall i | 0 < i < |all|
        ensures all[i] <= all[i - 1] + HORIZON
      {
        assert all[i] == later[i - 1];
      }
    }
  }

  /** A new job under a callback that stays, with a tick in its registration minute and then at least one a minute: its
      fires are exactly the matching minutes from the registration minute to the last tick, each once and in order, if
      and only if no gap between those minutes is longer than the search window. */
  lemma ExactlyOnce(name: string, text: string, now: int, s: Registry, events: seq<Event>, e: CronExpression)
    requires s.armed && name !in s.jobs && ParseText(text) == Some(e)
    requires Undisturbed(name, events) && ClockRises(now, events) && EveryMinute(MinuteOf(now) - 1, events)
    ensures var minutes := MatchingMinutes(e, MinuteOf(now), LastMinute(MinuteOf(now) - 1, events));
            Slots(FiresOf(name, s, [Upsert(name, text, now)] + events)) == minutes <==>
            GapsWithinHorizon(MinuteOf(now) - 1, minutes)
  {
    hide Matches, ParseText, NextMinute;
    var q := MinuteOf(now) - 1;
    var all := [Upsert(name, text, now)] + events;
    assert all[1..] == events;
    var next := Step(s, all[0]);
    assert MinuteOf(now - MINUTE) == q;
    assert Watching(name, next, events, q, q, now);
    ExactlyOnceIff(name, next, events, q, q, now);
    MinuteByMinute(e, q, q, now, events);
  }

  /** The same with the ticks told in seconds: the first tick in the registration minute, every later one at most sixty
      seconds after the one before. */
  lemma ExactlyOnceBySeconds(name: string, text: string, now: int, s: Registry, first: int, rest: seq<Event>,
                             e: CronExpression)
    requires s.armed && name !in s.jobs && ParseText(text) == Some(e) && Undisturbed(name, rest)
    requires now <= first && MinuteOf(first) == MinuteOf(now)
    requires ClockRises(first, rest) && WithinSixtySeconds(first, rest)
    ensures var minutes := MatchingMinutes(e, MinuteOf(now), LastMinute(MinuteOf(now), rest));
            Slots(FiresOf(name, s, [Upsert(name, text, now), Tick(first)] + rest)) == minutes <==>
            GapsWithinHorizon(MinuteOf(now) - 1, minutes)
  {
    hide ParseText, FiresOf, MatchingMinutes, Slots, GapsWithinHorizon;
    var events := [Tick(first)] + rest;
    assert events[1..] == rest;
    assert [Upsert(name, text, now)] + events == [Upsert(name, text, now), Tick(first)] + rest;
    SixtySecondsIsEveryMinute(first, rest);
    UndisturbedTick(name, first, rest);
    ExactlyOnce(name, text, now, s, events, e);
  }

  lemma UndisturbedTick(name: string, first: int, rest: seq<Event>)
    requires Undisturbed(name, rest)
    ensures Undisturbed(name, [Tick(first)] + rest)
  {
  }

  /** An expression that is found from every base leaves no gap. */
  lemma {:induction false} FoundLeavesNoGap(e: CronExpression, p: int, lo: int, hi: int)
    requires WellFormed(e) && Plentiful(e) && p < lo && Silent(e, p + 1, lo)
    ensures GapsWithinHorizon(p, MatchingMinutes(e, lo, hi))
    decreases hi - lo
  {
    hide Matches, Plentiful, WellFormed, NextMinute;
    if lo > hi {
    } else if Matches(e, lo) {
      PlentifulAlwaysFound(e, p * MINUTE);
      Boundary(p * MINUTE, p);
      FoundLeavesNoGap(e, lo, lo + 1, hi);
      GapsGoOn(p, lo, MatchingMinutes(e, lo + 1, hi));
    } else {
      FoundLeavesNoGap(e, p, lo + 1, hi);
      assert [] + MatchingMinutes(e, lo + 1, hi) == MatchingMinutes(e, lo + 1, hi);
    }
  }

  /** So a job whose expression lists a yearly day and four weekdays, or a week of days, ticked every sixty seconds from
      its registration minute on, fires for every matching minute, once each and in order, however long the run. */
  lemma EveryMatchFires(name: string, text: string, now: int, s: Registry, first: int, rest: seq<Event>,
                        e: CronExpression)
    requires s.armed && name !in s.jobs && ParseText(text) == Some(e) && Undisturbed(name, rest)
    requires now <= first && MinuteOf(first) == MinuteOf(now)
    requires ClockRises(first, rest) && WithinSixtySeconds(first, rest)
    requires Plentiful(e)
    ensures Slots(FiresOf(name, s, [Upsert(name, text, now), Tick(first)] + rest)) ==
            MatchingMinutes(e, MinuteOf(now), LastMinute(MinuteOf(now), rest))
  {
    hide ParseText, FiresOf, MatchingMinutes, Slots, GapsWithinHorizon, Plentiful, WellFormed;
    ParsedIsWellFormed(text);
    FoundLeavesNoGap(e, MinuteOf(now) - 1, MinuteOf(now), LastMinute(MinuteOf(now), rest));
    ExactlyOnceBySeconds(name, text, now, s, first, rest, e);
  }

  /** A first tick that comes only in the minute after registration loses a fire when both minutes match. */
  lemma LateFirstTick(name: string, text: string, now: int, s: Registry, tick: int, e: CronExpression)
    requires s.armed && name !in s.jobs && ParseText(text) == Some(e)
    requires MinuteOf(tick) == MinuteOf(now) + 1 && Matches(e, MinuteOf(now)) && Matches(e, MinuteOf(now) + 1)
    ensures Slots(FiresOf(name, s, [Upsert(name, text, now), Tick(tick)])) !=
            MatchingMinutes(e, MinuteOf(now), MinuteOf(tick))
  {
    hide Matches, ParseText, NextMinute;
    var q := MinuteOf(now) - 1;
    var all, events := [Upsert(name, text, now), Tick(tick)], [Tick(tick)];
    assert all[1..] == events && events[1..] == [];
    var next := Step(s, all[0]);
    assert MinuteOf(now - MINUTE) == q;
    assert ClockRises(tick, []) && ClockRises(now, events);
    assert Watching(name, next, events, q, q, now);
    ExactlyOnceIff(name, next, events, q, q, now);
    assert LastMinute(q, events) == LastMinute(MinuteOf(tick), []);
    assert MatchingMinutes(e, q + 2, q + 2) == [q + 2] + MatchingMinutes(e, q + 3, q + 2);
    assert MatchingMinutes(e, q + 1, q + 2) == [q + 1] + [q + 2];
  }
}
