/** The bounded buffer of recent events. */
module EventBuffer {

  datatype Event = Event(name: string, payload: string)

  /** The last `limit` events, or all of them if there are fewer. */
  function Latest(events: seq<Event>, limit: nat): seq<Event> {
    if |events| <= limit then events else events[|events| - limit..]
  }

  class MemoryEvents {
    const maxEvents: nat
    var recent: seq<Event>
    ghost var published: seq<Event>

    ghost predicate Valid()
      reads this
    {
      recent == Latest(published, maxEvents)
    }

    constructor (limit: nat)
      ensures Valid() && maxEvents == limit && published == []
    {
      maxEvents, recent, published := limit, [], [];
    }

    /** After any number of publishes the buffer is the latest of them, in publish order, also for limit zero. */
    method Publish(event: Event)
      requires Valid()
      modifies this
      ensures Valid() && published == old(published) + [event]
      ensures |recent| == (if |published| < maxEvents then |published| else maxEvents)
      ensures recent == published[|published| - |recent|..]
    {
      hide Latest;
      recent := recent + [event];
      published := published + [event];
      ghost var grown := recent;
      LatestAppend(old(published), event, maxEvents);
      while |recent| > maxEvents
        invariant published == old(published) + [event] && |recent| <= |grown|
        invariant |recent| == |grown| || |recent| >= maxEvents
        invariant recent == grown[|grown| - |recent|..]
      {
        recent := recent[1..];
      }
      LatestIs(grown, recent, maxEvents);
      LatestIsSuffix(published, maxEvents);
    }
  }

  lemma LatestIs(events: seq<Event>, kept: seq<Event>, limit: nat)
    requires |kept| <= |events| && kept == events[|events| - |kept|..]
    requires |kept| == (if |events| < limit then |events| else limit)
    ensures kept == Latest(events, limit)
  {
  }

  lemma LatestIsSuffix(events: seq<Event>, limit: nat)
    ensures var kept := Latest(events, limit);
            && |kept| == (if |events| < limit then |events| else limit)
            && kept == events[|events| - |kept|..]
  {
  }

  /** Forgetting early loses nothing that would have been kept. */
  lemma LatestAppend(events: seq<Event>, event: Event, limit: nat)
    ensures Latest(Latest(events, limit) + [event], limit) == Latest(events + [event], limit)
  {
    if |events| > limit {
      var kept := events[|events| - limit..];
      assert (kept + [event])[1..] == (events + [event])[|events| + 1 - limit..];
    }
  }
}
