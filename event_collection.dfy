/** EventCollection of the older ofelib library: the distributed events of one
    spatial unit, in a list that addEvent changes in place. Same algorithm
    as the current engine's EventsCollection, over DistributedEvent references. */
module Ofelib {
  import opened Timeline

  /** A DistributedEvent reference: an identity and a date, as for the
      current engine's events. */
  type DistributedEvent = Event

  class EventCollection {
    /** The list `m_Events` of event references, front first. */
    var events: seq<DistributedEvent>

    /** A new collection holds no event. */
    constructor ()
      ensures events == []
    {
      events := [];
    }

    /** addEvent: the branching insertion, proved to be `Added`. It always
        reports success and adds exactly the one event. */
    method AddEvent(ev: DistributedEvent) returns (ok: bool)
      modifies this
      ensures ok
      ensures events == Added(old(events), ev)
      ensures old(events) == [] ==> events == [ev]
      ensures exists j :: InsertedAt(events, old(events), j, ev)
    {
      if |events| == 0 {
        events := events + [ev];
      } else if events[0].date >= ev.date {
        events := [ev] + events;
      } else if events[|events| - 1].date <= ev.date {
        events := events + [ev];
      } else {
        var i := 0;
        while i < |events|
          invariant 0 <= i <= |events|
          invariant events == old(events)
          invariant forall j :: 0 <= j < i ==> events[j].date < ev.date
        {
          if events[i].date >= ev.date {
            // the iterator steps back one event before the insertion
            events := events[..i - 1] + [ev] + events[i - 1..];
            AddedInserts(old(events), ev);
            return true;
          }
          i := i + 1;
        }
      }
      AddedInserts(old(events), ev);
      return true;
    }

    /** getEventsBetween: every event of this collection whose date passes
        `isBetween(date, beginDate, endDate)` is added to `selected` through
        addEvent, in list order; this collection is left as it was. */
    method GetEventsBetween(beginDate: int, endDate: int,
                            isBetween: (int, int, int) -> bool,
                            selected: EventCollection) returns (ok: bool)
      requires selected != this
      modifies selected
      ensures ok
      ensures events == old(events)
      ensures selected.events
           == Collected(old(selected.events), events, beginDate, endDate, isBetween)
    {
      var i := 0;
      while i < |events|
        invariant 0 <= i <= |events|
        invariant selected.events
               == Collected(old(selected.events), events[..i], beginDate, endDate, isBetween)
      {
        CollectedStep(old(selected.events), events, i, beginDate, endDate, isBetween);
        if isBetween(events[i].date, beginDate, endDate) {
          var added := selected.AddEvent(events[i]);
        }
        i := i + 1;
      }
      assert events[..i] == events;
      return true;
    }
  }
}
