/** Where events come from: the collector stores an event, which gives it its id, and then sends it
    to the projectors. Between the two, other events may be stored and sent. */
module Collector {
  import opened Projection

  class CollectorService {
    var nextId: int
    /** The stored events. */
    var events: map<int, Event>
    /** Those that are stored but not sent yet. */
    var pending: set<int>
    /** The projectors' channel, with all that was ever sent. */
    var sent: seq<Event>

    ghost predicate Valid()
      reads this
    {
      && nextId > 0
      && (forall id | id in events :: 0 < id < nextId && events[id].id == id)
      && pending <= events.Keys
      && (forall e | e in sent :: e.id in events && events[e.id] == e && e.id !in pending)
      && (forall i, j | 0 <= i < j < |sent| :: sent[i].id != sent[j].id)
      && forall id | id in events && id !in pending :: events[id] in sent
    }

    constructor ()
      ensures Valid() && sent == []
    {
      nextId, events, pending, sent := 1, map[], {}, [];
    }

    /** Store the event. The database takes the next id, also if the insert fails then. */
    method Insert(collected: Event) returns (failed: bool, stored: Event)
      requires Valid()
      modifies this
      ensures Valid() && sent == old(sent)
      ensures stored == collected.(id := old(nextId)) && stored.id !in old(events)
      ensures events == if failed then old(events) else old(events)[stored.id := stored]
      ensures pending == if failed then old(pending) else old(pending) + {stored.id}
    {
      stored := collected.(id := nextId);
      nextId := nextId + 1;
      failed := *;
      if !failed {
        events := events[stored.id := stored];
        pending := pending + {stored.id};
      }
    }

    method Send(stored: Event)
      requires Valid() && stored.id in pending && events[stored.id] == stored
      modifies this
      ensures Valid() && events == old(events)
      ensures sent == old(sent) + [stored] && pending == old(pending) - {stored.id}
    {
      sent := sent + [stored];
      pending := pending - {stored.id};
      assert sent[|sent| - 1] == stored;
      assert forall e | e in old(sent) :: e in sent;
    }

    /** An event that cannot be stored is not sent. */
    method StoreEvent(collected: Event) returns (failed: bool)
      requires Valid()
      modifies this
      ensures Valid() && pending == old(pending)
      ensures failed ==> sent == old(sent) && events == old(events)
      ensures !failed ==>
        && sent == old(sent) + [collected.(id := old(nextId))]
        && events == old(events)[old(nextId) := collected.(id := old(nextId))]
    {
      var stored;
      failed, stored := Insert(collected);
      if failed {
        return;
      }
      Send(stored);
      assert pending == old(pending);
    }

    /** Whatever is delivered of what was sent, in whatever order and how often: an id names one
        event, and every id is positive. */
    lemma SentIdsNameEvents(calls: seq<Call>)
      requires Valid() && forall c | c in calls :: c.e in sent
      ensures IdsNameEvents(calls) && forall c | c in calls :: c.e.id > 0
    {
    }
  }
}
