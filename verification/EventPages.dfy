/** The pages that the delivery protocol works with are those that the event store serves
    (`page`, packages/remote-daemon/src/index.ts). */
module EventPages {
  import opened Prelude
  import EventStore
  import EventDelivery

  /** The pages served are those of the event store: for a store that keeps the newest `maxEvents` events of a history
      beginning with number `first`, `page` answers with these numbers, its generation and this demand for a reset,
      whatever generation it is asked for. */
  lemma PageIsStorePage(server: EventDelivery.Server, events: seq<EventStore.Event>, history: seq<EventStore.Event>,
                        sequence: nat, after: nat, known: Option<string>)
    requires EventStore.Consecutive(history) && EventStore.IsWindow(events, history, server.maxEvents)
    requires server.maxEvents > 0
    requires if history == [] then sequence == 0 && server.first == 1
             else history[0].number == server.first && history[|history| - 1].number == sequence
    ensures var page := EventStore.PageOf(events, sequence, server.own, after, EventDelivery.PAGE_LIMIT, known);
            && |page.events| == |server.Page(sequence, after)|
            && (forall i | 0 <= i < |page.events| :: page.events[i].number == server.Page(sequence, after)[i])
            && page.resetRequired == server.ResetRequired(sequence, after, known)
            && page.latest == sequence && page.generation == server.own
  {
    WindowIsConsecutive(events, history, server.maxEvents);
    EventStore.ListIsLogSlice(events, sequence, after, EventDelivery.PAGE_LIMIT);
    assert EventStore.OldestNumber(events, sequence) == server.Oldest(sequence);
  }

  lemma WindowIsConsecutive(events: seq<EventStore.Event>, history: seq<EventStore.Event>, maxEvents: nat)
    requires EventStore.Consecutive(history) && EventStore.IsWindow(events, history, maxEvents) && maxEvents > 0
    ensures EventStore.Consecutive(events)
    ensures if history == [] then events == []
            else events != [] && events[0] == history[|history| - |events|]
                 && events[|events| - 1] == history[|history| - 1]
  {
    var from := |history| - |events|;
    forall i | 0 <= i < |events|
      ensures events[i] == history[from + i] && history[from + i].number == history[0].number + from + i
    {
    }
  }
}
