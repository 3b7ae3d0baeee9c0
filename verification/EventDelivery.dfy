/** Delivery of the event log to one remote client over connections that may drop anywhere: the `sse` handoff
    (packages/remote-daemon/src/index.ts) and the client loop `streamEvents` (packages/remote-client/src/index.ts).

    Within one generation a number identifies an event, so events are their numbers here. The runs of this module are
    those of one server process and a client that knows no other generation than the server's. */
module EventDelivery {
  import opened Prelude

  const PAGE_LIMIT: nat := 500

  /** The numbers from `lo` up to and without `hi`. */
  function Range(lo: nat, hi: nat): (r: seq<nat>)
    ensures |r| == if lo < hi then hi - lo else 0
    ensures forall i | 0 <= i < |r| :: r[i] == lo + i
  {
    if lo < hi then Range(lo, hi - 1) + [hi - 1] else []
  }

  /** `numbers` is `first`, `first + 1` and so on, without a gap. */
  predicate CountsFrom(numbers: seq<nat>, first: nat) {
    forall i | 0 <= i < |numbers| :: numbers[i] == first + i
  }

  // ----- The server: a window of the log, pages of it, and the handoff from a page to live events -----

  /** The generation of a server process, the first event it knows of, how many it keeps, and which events hold the
      text that the client takes for the mark of a reset. */
  datatype Server = Server(own: string, first: nat, maxEvents: nat, marked: set<nat>) {
    predicate Valid(latest: nat) {
      first >= 1 && maxEvents >= 1 && (first == 1 || latest >= first)
    }

    /** The oldest event in the window, one more than the latest when it is empty. */
    function Oldest(latest: nat): nat {
      if latest < first then latest + 1 else Max(first, latest + 1 - Min(maxEvents, latest + 1))
    }

    function PageStart(latest: nat, after: nat): nat {
      Max(after + 1, Oldest(latest))
    }

    function PageEnd(latest: nat, after: nat): nat {
      Min(PageStart(latest, after) + PAGE_LIMIT, latest + 1)
    }

    function Page(latest: nat, after: nat): seq<nat> {
      Range(PageStart(latest, after), PageEnd(latest, after))
    }

    /** Events after the cursor have left the window. */
    predicate Trimmed(latest: nat, after: nat) {
      after > 0 && after + 1 < Oldest(latest)
    }

    /** `known` is the generation the client names, if it names one. */
    predicate ResetRequired(latest: nat, after: nat, known: Option<string>) {
      known !in {None, Some(own)} || Trimmed(latest, after)
    }
  }

  datatype Frame = Reset | Event(number: nat)

  /** The frames of the events from `lo` up to and without `hi`. */
  function Frames(lo: nat, hi: nat): (frames: seq<Frame>)
    ensures |frames| == if lo < hi then hi - lo else 0
    ensures forall i | 0 <= i < |frames| :: frames[i] == Event(lo + i)
  {
    if lo < hi then Frames(lo, hi - 1) + [Event(hi - 1)] else []
  }

  /** The frames a new connection starts with. */
  function FirstFrames(server: Server, latest: nat, after: nat, known: Option<string>): seq<Frame> {
    (if server.ResetRequired(latest, after, known) then [Reset] else [])
    + Frames(server.PageStart(latest, after), server.PageEnd(latest, after))
  }

  /** One response of `sse`. Events appended between its steps reach its subscriber. */
  class EventStream {
    const server: Server
    const after: nat
    const known: Option<string>
    var streaming: bool
    var buffered: seq<nat>
    var written: seq<Frame>
    var pageLatest: Option<nat>
    ghost const subscribedAt: nat
    ghost var latest: nat

    ghost predicate Valid()
      reads this
    {
      && subscribedAt <= latest
      && (!streaming ==> buffered == Range(subscribedAt + 1, latest + 1))
      && (pageLatest.None? ==> !streaming && written == [])
      && (pageLatest.Some? ==>
            && subscribedAt <= pageLatest.value <= latest
            && written == FirstFrames(server, pageLatest.value, after, known)
                          + if streaming then Frames(pageLatest.value + 1, latest + 1) else [])
    }

    constructor Subscribe(server: Server, after: nat, known: Option<string>, ghost latest: nat)
      ensures Valid() && this.latest == latest && pageLatest.None?
      ensures this.server == server && this.after == after && this.known == known
    {
      this.server, this.after, this.known := server, after, known;
      streaming, buffered, written, pageLatest := false, [], [], None;
      subscribedAt, this.latest := latest, latest;
    }

    method OnAppend(number: nat)
      requires Valid() && number == latest + 1
      modifies this
      ensures Valid() && latest == number && pageLatest == old(pageLatest) && streaming == old(streaming)
    {
      if streaming {
        written := written + [Event(number)];
      } else {
        buffered := buffered + [number];
      }
      latest := number;
    }

    /** The page that `page` answers with now, after the demand for a reset if there is one. */
    method WritePage(now: nat)
      requires Valid() && pageLatest.None? && now == latest
      modifies this
      ensures Valid() && latest == old(latest) && pageLatest == Some(now) && !streaming
    {
      var events := EventFrames(server.Page(now, after), server.PageStart(now, after), server.PageEnd(now, after));
      if server.ResetRequired(now, after, known) {
        written := [Reset];
      }
      written := written + events;
      pageLatest := Some(now);
    }

    /** Whatever was appended between the steps, what the client gets is the page and then every later event,
        each once and in order. */
    method GoLive()
      requires Valid() && pageLatest.Some? && !streaming
      modifies this
      ensures Valid() && streaming && latest == old(latest) && pageLatest == old(pageLatest)
      ensures written == FirstFrames(server, pageLatest.value, after, known) + Frames(pageLatest.value + 1, latest + 1)
    {
      var flushed := Flush(buffered, subscribedAt, latest, pageLatest.value);
      streaming, written := true, written + flushed;
    }
  }

  method EventFrames(numbers: seq<nat>, ghost lo: nat, ghost hi: nat) returns (frames: seq<Frame>)
    requires numbers == Range(lo, hi)
    ensures frames == Frames(lo, hi)
  {
    frames := [];
    for i := 0 to |numbers|
      invariant frames == Frames(lo, lo + i)
    {
      frames := frames + [Event(numbers[i])];
    }
  }

  /** The frames of the buffered events that the page does not already hold. */
  method Flush(buffered: seq<nat>, ghost subscribedAt: nat, ghost latest: nat, pageLatest: nat)
    returns (flushed: seq<Frame>)
    requires subscribedAt <= pageLatest <= latest && buffered == Range(subscribedAt + 1, latest + 1)
    ensures flushed == Frames(pageLatest + 1, latest + 1)
  {
    flushed := [];
    for i := 0 to |buffered|
      invariant flushed == Frames(pageLatest + 1, subscribedAt + i + 1)
    {
      if buffered[i] > pageLatest {
        flushed := flushed + [Event(buffered[i])];
      }
    }
  }

  // ----- The protocol -----

  datatype Reply = Reply(generation: string, resetRequired: bool, events: seq<nat>)

  /** What the client loop is doing: between connections, reading frames, or waiting for a page it asked for
      because of `frame`, which the server may have answered already. */
  datatype Phase = Disconnected | Reading | Fetching(frame: Frame, reply: Option<Reply>)

  /** `frames` are those of the connection that the client has not looked at yet, `sender` is the generation of the
      process that sends them, and `known` the one that the client names in its requests. */
  datatype State = State(
    latest: nat, cursor: nat, delivered: seq<nat>, phase: Phase, frames: seq<Frame>, open: bool,
    known: Option<string>, sender: string)

  datatype Action =
    | Append
    | Connect
    | Cut(keep: nat)
    | EndOfStream
    | ReadFrame
    | Serve
    | Receive
    | FetchFails

  predicate Enabled(s: State, a: Action) {
    match a
    case Append => true
    case Connect => s.phase == Disconnected
    case Cut(keep) => s.open && keep <= |s.frames|
    case EndOfStream => s.phase == Reading && s.frames == [] && !s.open
    case ReadFrame => s.phase == Reading && s.frames != []
    case Serve => s.phase.Fetching? && s.phase.reply.None?
    case Receive => s.phase.Fetching? && s.phase.reply.Some?
    case FetchFails => s.phase.Fetching?
  }

  /** Hands an event to `onEvent` unless the cursor is past it already. */
  function Deliver(s: State, number: nat): State {
    if number > s.cursor then s.(delivered := s.delivered + [number], cursor := number) else s
  }

  function DeliverAll(s: State, numbers: seq<nat>): State
    decreases |numbers|
  {
    if numbers == [] then s else DeliverAll(Deliver(s, numbers[0]), numbers[1..])
  }

  /** The state between the recovered events and the frame that asked for them. */
  function Recovered(s: State): State
    requires Enabled(s, Receive)
  {
    var reading, reply := s.(phase := Reading), s.phase.reply.value;
    DeliverAll(if s.phase.frame.Event? && reply.resetRequired
               then reading.(cursor := 0, known := Some(reply.generation)) else reading,
               reply.events)
  }

  function Step(server: Server, s: State, a: Action): State
    requires Enabled(s, a)
  {
    match a
    case Append =>
      s.(latest := s.latest + 1, frames := if s.open then s.frames + [Event(s.latest + 1)] else s.frames)
    case Connect =>
      s.(phase := Reading, frames := FirstFrames(server, s.latest, s.cursor, s.known), open := true,
         sender := server.own)
    case Cut(keep) => s.(frames := s.frames[..keep], open := false)
    case EndOfStream => s.(phase := Disconnected)
    case ReadFrame =>
      var rest := s.(frames := s.frames[1..]);
      (match s.frames[0]
       case Reset => rest.(cursor := 0, known := Some(s.sender), phase := Fetching(Reset, None))
       case Event(n) =>
         if n in server.marked then rest.(cursor := 0, known := Some(s.sender), phase := Fetching(Reset, None))
         else if n > s.cursor + 1 then rest.(phase := Fetching(Event(n), None)) else Deliver(rest, n))
    case Serve =>
      s.(phase := s.phase.(reply :=
          Some(Reply(server.own, server.ResetRequired(s.latest, s.cursor, s.known),
                     server.Page(s.latest, s.cursor)))))
    case Receive =>
      (match s.phase.frame
       case Reset => Recovered(s)
       case Event(n) => Deliver(Recovered(s), n))
    case FetchFails => s.(phase := Disconnected, frames := [], open := false)
  }

  function Initial(latest: nat, start: nat, known: Option<string>): State {
    State(latest, start, [], Disconnected, [], false, known, "")
  }

  /** A run of one server process, and of a client that starts with that process's generation or none. */
  ghost predicate IsRun(server: Server, start: nat, actions: seq<Action>, states: seq<State>) {
    && |states| == |actions| + 1
    && server.Valid(states[0].latest)
    && states[0] == Initial(states[0].latest, start, states[0].known) && states[0].known in {None, Some(server.own)}
    && forall i | 0 <= i < |actions| ::
         Enabled(states[i], actions[i]) && states[i + 1] == Step(server, states[i], actions[i])
  }

  /** Client, connection and replies are all of the server's generation. */
  predicate Attached(server: Server, s: State) {
    && s.known in {None, Some(server.own)}
    && (s.phase != Disconnected ==> s.sender == server.own)
    && (s.phase.Fetching? && s.phase.reply.Some? ==> s.phase.reply.value.generation == server.own)
  }

  lemma {:induction false} DeliverAllKnown(s: State, numbers: seq<nat>)
    ensures var end := DeliverAll(s, numbers);
            end == s.(cursor := end.cursor, delivered := end.delivered)
    decreases |numbers|
  {
    if numbers != [] {
      DeliverAllKnown(Deliver(s, numbers[0]), numbers[1..]);
    }
  }

  lemma AttachedStep(server: Server, s: State, a: Action)
    requires Attached(server, s) && Enabled(s, a)
    ensures Attached(server, Step(server, s, a))
  {
    if a.Receive? {
      var reading, reply := s.(phase := Reading), s.phase.reply.value;
      DeliverAllKnown(reading, reply.events);
      DeliverAllKnown(reading.(cursor := 0, known := Some(reply.generation)), reply.events);
    }
  }

  // ----- Order: resets and trimmed logs included -----

  predicate Increasing(numbers: seq<nat>, above: nat) {
    && (forall i | 0 <= i < |numbers| :: numbers[i] > above)
    && (forall i, j | 0 <= i < j < |numbers| :: numbers[i] < numbers[j])
  }

  /** The last event handed out, or the start cursor. */
  function High(start: nat, s: State): nat {
    if s.delivered == [] then start else s.delivered[|s.delivered| - 1]
  }

  predicate Above(frame: Frame, high: nat) {
    frame.Event? ==> frame.number > high
  }

  /** The cursor was reset, or is about to be: everything the client can still be given is newer than what it has. */
  predicate Resetting(start: nat, s: State) {
    || s.cursor != High(start, s)
    || (|s.frames| > 0 && s.frames[0].Reset?)
    || (s.phase.Fetching? && s.phase.frame.Reset?)
  }

  predicate FramesAbove(s: State, high: nat) {
    && (forall i | 0 <= i < |s.frames| :: Above(s.frames[i], high))
    && (s.phase.Fetching? ==> Above(s.phase.frame, high))
  }

  /** The page under way moves the cursor past everything the client has. */
  predicate Refilling(s: State) {
    s.phase.Fetching? && s.phase.frame.Reset? && s.phase.reply.Some? && s.phase.reply.value.events != []
  }

  /** The client goes on from zero, and the server has not answered yet. */
  predicate StartingOver(server: Server, s: State) {
    && server.first <= s.latest && s.cursor == 0
    && if s.phase.Fetching? then s.phase.frame.Reset? && s.phase.reply.None?
       else s.phase == Disconnected && s.frames == [] && !s.open
  }

  predicate InOrder(server: Server, start: nat, s: State) {
    && server.Valid(s.latest)
    && Increasing(s.delivered, start)
    && (s.cursor == High(start, s) || s.cursor == 0)
    && (forall i | 0 <= i < |s.frames| :: s.frames[i].Event? || (i == 0 && s.phase.Reading?))
    && (forall i | 0 <= i < |s.frames| && s.frames[i].Event? :: 0 < s.frames[i].number <= s.latest)
    && (s.phase == Disconnected ==> s.frames == [] && !s.open)
    && (s.phase.Fetching? && s.phase.frame.Reset? ==> s.cursor == 0)
    && (Resetting(start, s) ==>
          || StartingOver(server, s)
          || (High(start, s) < server.Oldest(s.latest) && (FramesAbove(s, High(start, s)) || Refilling(s))))
    && (s.phase.Fetching? && s.phase.reply.Some? ==>
          && Increasing(s.phase.reply.value.events, High(start, s))
          && (s.phase.reply.value.resetRequired ==> s.phase.reply.value.events != []))
  }

  /** The client reads an event that it takes for a reset. */
  predicate Misreads(server: Server, s: State, a: Action) {
    a.ReadFrame? && s.frames != [] && s.frames[0].Event? && s.frames[0].number in server.marked
  }

  /** A page from the start is sent only when no event that was handed out is kept any more. This can fail only after
      an event was taken for a reset. */
  predicate RestartsHarmlessly(server: Server, start: nat, s: State, a: Action) {
    (a.Serve? || a.Connect?) && s.cursor != High(start, s) ==> High(start, s) < server.Oldest(s.latest)
  }

  lemma {:induction false} DeliverAllInOrder(start: nat, s: State, numbers: seq<nat>)
    requires Increasing(s.delivered, start) && Increasing(numbers, High(start, s)) && s.cursor <= High(start, s)
    ensures DeliverAll(s, numbers).delivered == s.delivered + numbers
    ensures DeliverAll(s, numbers) == s.(delivered := s.delivered + numbers,
                                         cursor := if numbers == [] then s.cursor else numbers[|numbers| - 1])
    ensures Increasing(s.delivered + numbers, start)
    decreases |numbers|
  {
    if numbers == [] {
      assert s.delivered + numbers == s.delivered;
    } else {
      var next := Deliver(s, numbers[0]);
      DeliverAllInOrder(start, next, numbers[1..]);
      assert next.delivered + numbers[1..] == s.delivered + numbers;
    }
  }

  lemma PageIsAbove(server: Server, latest: nat, after: nat)
    requires server.Valid(latest)
    ensures var page := server.Page(latest, after);
            && Increasing(page, after)
            && server.Oldest(latest) > 0 && Increasing(page, server.Oldest(latest) - 1)
            && (forall i | 0 <= i < |page| :: page[i] <= latest)
            && (server.Trimmed(latest, after) ==> page != [])
            && (server.first <= latest ==> server.Page(latest, 0) != [])
  {
  }

  lemma AppendInOrder(server: Server, start: nat, s: State)
    requires InOrder(server, start, s)
    ensures InOrder(server, start, Step(server, s, Append))
  {
  }

  lemma FirstFramesAbove(server: Server, latest: nat, after: nat, known: Option<string>, frames: seq<Frame>)
    requires server.Valid(latest) && frames == FirstFrames(server, latest, after, known)
    ensures forall i | 0 <= i < |frames| :: frames[i].Event? || (i == 0 && server.ResetRequired(latest, after, known))
    ensures forall i | 0 <= i < |frames| && frames[i].Event? ::
              after < frames[i].number <= latest && server.Oldest(latest) <= frames[i].number
  {
  }

  lemma ConnectInOrder(server: Server, start: nat, s: State)
    requires InOrder(server, start, s) && Attached(server, s)
    requires Enabled(s, Connect) && RestartsHarmlessly(server, start, s, Connect)
    ensures InOrder(server, start, Step(server, s, Connect))
  {
    var frames := FirstFrames(server, s.latest, s.cursor, s.known);
    FirstFramesAbove(server, s.latest, s.cursor, s.known, frames);
    ConnectedInOrder(server, start, s, frames);
  }

  lemma ConnectedInOrder(server: Server, start: nat, s: State, frames: seq<Frame>)
    requires InOrder(server, start, s) && s.phase == Disconnected && RestartsHarmlessly(server, start, s, Connect)
    requires forall i | 0 <= i < |frames| :: frames[i].Event? || (i == 0 && server.Trimmed(s.latest, s.cursor))
    requires forall i | 0 <= i < |frames| && frames[i].Event? ::
               s.cursor < frames[i].number <= s.latest && server.Oldest(s.latest) <= frames[i].number
    ensures InOrder(server, start, s.(phase := Reading, frames := frames, open := true, sender := server.own))
  {
  }

  lemma ReadFrameInOrder(server: Server, start: nat, s: State)
    requires InOrder(server, start, s) && Enabled(s, ReadFrame)
    ensures InOrder(server, start, Step(server, s, ReadFrame))
  {
    var frame, rest := s.frames[0], s.frames[1..];
    forall i | 0 <= i < |rest| ensures rest[i] == s.frames[i + 1] && rest[i].Event? && 0 < rest[i].number <= s.latest {
    }
    if frame.Event? && frame.number <= s.cursor + 1 && frame.number !in server.marked {
      ReadNextInOrder(server, start, s, frame.number, rest);
    }
  }

  lemma ReadNextInOrder(server: Server, start: nat, s: State, number: nat, rest: seq<Frame>)
    requires InOrder(server, start, s) && s.phase == Reading && s.frames == [Event(number)] + rest
    requires forall i | 0 <= i < |rest| :: rest[i].Event? && 0 < rest[i].number <= s.latest
    ensures InOrder(server, start, Deliver(s.(frames := rest), number))
  {
    assert Resetting(start, s) ==> Above(s.frames[0], High(start, s));
    DeliverInOrder(start, s.(frames := rest), number);
    assert forall i | 0 <= i < |rest| :: rest[i] == s.frames[i + 1];
  }

  lemma ServeInOrder(server: Server, start: nat, s: State)
    requires InOrder(server, start, s) && Attached(server, s)
    requires Enabled(s, Serve) && RestartsHarmlessly(server, start, s, Serve)
    ensures InOrder(server, start, Step(server, s, Serve))
  {
    PageIsAbove(server, s.latest, s.cursor);
  }

  lemma RecoveredInOrder(server: Server, start: nat, s: State)
    requires InOrder(server, start, s) && Enabled(s, Receive)
    ensures var mid := Recovered(s);
            && mid == s.(phase := Reading, cursor := mid.cursor, delivered := mid.delivered, known := mid.known)
            && Increasing(mid.delivered, start) && High(start, mid) >= High(start, s)
            && (mid.cursor == High(start, mid)
                || (mid.cursor == 0 && mid.delivered == s.delivered && Resetting(start, s)
                                                && s.phase.reply.value.events == []))
  {
    var reply := s.phase.reply.value;
    var from := s.(phase := Reading);
    if s.phase.frame.Event? && reply.resetRequired {
      from := from.(cursor := 0, known := Some(reply.generation));
    }
    RecoveredFrom(start, from, reply.events);
  }

  lemma {:induction false} RecoveredFrom(start: nat, from: State, events: seq<nat>)
    requires Increasing(from.delivered, start) && Increasing(events, High(start, from))
    requires from.cursor <= High(start, from)
    ensures var mid := DeliverAll(from, events);
            && mid == from.(cursor := mid.cursor, delivered := mid.delivered)
            && Increasing(mid.delivered, start) && High(start, mid) >= High(start, from)
            && (if events == [] then mid == from else mid.cursor == High(start, mid))
  {
    DeliverAllInOrder(start, from, events);
    if events == [] {
      assert from.delivered + events == from.delivered;
    }
  }

  lemma DeliverInOrder(start: nat, s: State, number: nat)
    requires Increasing(s.delivered, start)
    requires s.cursor == High(start, s) || number > High(start, s) >= s.cursor
    ensures var next := Deliver(s, number);
            && next == s.(cursor := next.cursor, delivered := next.delivered)
            && Increasing(next.delivered, start) && next.cursor == High(start, next)
  {
  }

  lemma ReceiveInOrder(server: Server, start: nat, s: State)
    requires InOrder(server, start, s) && Enabled(s, Receive)
    ensures InOrder(server, start, Step(server, s, Receive))
  {
    RecoveredInOrder(server, start, s);
    if s.phase.frame.Event? {
      ReceiveEventInOrder(server, start, s, Recovered(s));
    } else {
      ReceiveResetInOrder(server, start, s, Recovered(s));
    }
  }

  lemma ReceiveEventInOrder(server: Server, start: nat, s: State, mid: State)
    requires InOrder(server, start, s) && s.phase.Fetching? && s.phase.frame.Event?
    requires mid == s.(phase := Reading, cursor := mid.cursor, delivered := mid.delivered, known := mid.known)
    requires Increasing(mid.delivered, start) && High(start, mid) >= High(start, s)
    requires mid.cursor == High(start, mid) || (mid.cursor == 0 && mid.delivered == s.delivered && Resetting(start, s))
    ensures InOrder(server, start, Deliver(mid, s.phase.frame.number))
  {
    DeliverInOrder(start, mid, s.phase.frame.number);
  }

  lemma ReceiveResetInOrder(server: Server, start: nat, s: State, mid: State)
    requires InOrder(server, start, s) && Enabled(s, Receive) && s.phase.frame.Reset?
    requires mid == s.(phase := Reading, cursor := mid.cursor, delivered := mid.delivered, known := mid.known)
    requires Increasing(mid.delivered, start) && High(start, mid) >= High(start, s)
    requires mid.cursor == High(start, mid)
          || (mid.cursor == 0 && mid.delivered == s.delivered && Resetting(start, s)
              && s.phase.reply.value.events == [])
    ensures InOrder(server, start, mid)
  {
  }

  lemma InOrderStep(server: Server, start: nat, s: State, a: Action)
    requires InOrder(server, start, s) && Attached(server, s)
    requires Enabled(s, a) && RestartsHarmlessly(server, start, s, a)
    ensures InOrder(server, start, Step(server, s, a)) && Attached(server, Step(server, s, a))
  {
    AttachedStep(server, s, a);
    match a
    case Append => AppendInOrder(server, start, s);
    case Connect => ConnectInOrder(server, start, s);
    case ReadFrame => ReadFrameInOrder(server, start, s);
    case Serve => ServeInOrder(server, start, s);
    case Receive => ReceiveInOrder(server, start, s);
    case _ =>
  }

  /** `onEvent` sees strictly increasing numbers, above the start cursor, in every run of one server process in which
      no page from the start is sent to a client that was handed an event the server still keeps. */
  lemma {:induction false} DeliveryIsStrictlyIncreasing(
    server: Server, start: nat, actions: seq<Action>, states: seq<State>)
    requires IsRun(server, start, actions, states)
    requires forall i | 0 <= i < |actions| :: RestartsHarmlessly(server, start, states[i], actions[i])
    ensures InOrder(server, start, states[|actions|]) && Attached(server, states[|actions|])
    ensures Increasing(states[|actions|].delivered, start)
  {
    if actions != [] {
      var n := |actions| - 1;
      DeliveryIsStrictlyIncreasing(server, start, actions[..n], states[..n + 1]);
      InOrderStep(server, start, states[n], actions[n]);
    }
  }

  /** As long as no event is taken for a reset, the condition holds by itself. */
  predicate Unconfused(server: Server, start: nat, s: State) {
    InOrder(server, start, s) && (s.cursor != High(start, s) ==> High(start, s) < server.Oldest(s.latest))
  }

  lemma {:induction false} WithoutMisreadsInOrder(server: Server, start: nat, actions: seq<Action>, states: seq<State>)
    requires IsRun(server, start, actions, states)
    requires forall i | 0 <= i < |actions| :: !Misreads(server, states[i], actions[i])
    ensures Unconfused(server, start, states[|actions|]) && Attached(server, states[|actions|])
    ensures Increasing(states[|actions|].delivered, start)
  {
    if actions != [] {
      var n := |actions| - 1;
      WithoutMisreadsInOrder(server, start, actions[..n], states[..n + 1]);
      InOrderStep(server, start, states[n], actions[n]);
      StaysUnconfused(server, start, states[n], actions[n]);
    }
  }

  lemma StaysUnconfused(server: Server, start: nat, s: State, a: Action)
    requires Unconfused(server, start, s) && Enabled(s, a) && !Misreads(server, s, a)
    requires InOrder(server, start, Step(server, s, a))
    ensures Unconfused(server, start, Step(server, s, a))
  {
    if a.Receive? {
      ReceiveStaysUnconfused(server, start, s);
    } else if a.ReadFrame? && s.frames[0].Event? && s.frames[0].number <= s.cursor + 1 {
      DeliverInOrder(start, s.(frames := s.frames[1..]), s.frames[0].number);
    }
  }

  lemma ReceiveStaysUnconfused(server: Server, start: nat, s: State)
    requires Unconfused(server, start, s) && Enabled(s, Receive)
    requires InOrder(server, start, Step(server, s, Receive))
    ensures Unconfused(server, start, Step(server, s, Receive))
  {
    var mid := Recovered(s);
    RecoveredInOrder(server, start, s);
    if s.phase.frame.Event? && mid.cursor == High(start, mid) {
      DeliverInOrder(start, mid, s.phase.frame.number);
    }
  }

  /** A client that takes an event for a reset asks for the page from the start, whatever was handed out before. */
  lemma MisreadStartsOver(server: Server, start: nat, s: State)
    requires InOrder(server, start, s) && Enabled(s, ReadFrame) && Misreads(server, s, ReadFrame)
    ensures var next := Step(server, s, ReadFrame);
            InOrder(server, start, next) && StartingOver(server, next) && next.phase.Fetching?
  {
    ReadFrameInOrder(server, start, s);
  }

  /** When the page is served, after any number of appends, the order is kept exactly if no event that was handed out
      is kept any more. */
  lemma MisreadKeepsOrderExactly(server: Server, start: nat, s: State)
    requires InOrder(server, start, s) && StartingOver(server, s) && s.phase.Fetching?
    ensures Enabled(s, Serve) && Enabled(Step(server, s, Serve), Receive)
    ensures Increasing(Step(server, Step(server, s, Serve), Receive).delivered, start)
       <==> High(start, s) < server.Oldest(s.latest)
  {
    var served := Step(server, s, Serve);
    var page := server.Page(s.latest, 0);
    PageIsAbove(server, s.latest, 0);
    DeliverIncreasing(served.(phase := Reading), page);
    var end := Step(server, served, Receive).delivered;
    assert end == s.delivered + page;
    assert end[|s.delivered|] == page[0] == server.Oldest(s.latest);
    assert s.delivered != [] ==> end[|s.delivered| - 1] == High(start, s);
    if High(start, s) < server.Oldest(s.latest) {
      DeliverAllInOrder(start, served.(phase := Reading), page);
    }
  }

  lemma {:induction false} DeliverIncreasing(s: State, numbers: seq<nat>)
    requires Increasing(numbers, s.cursor)
    ensures DeliverAll(s, numbers).delivered == s.delivered + numbers
    decreases |numbers|
  {
    if numbers == [] {
      assert s.delivered + numbers == s.delivered;
    } else {
      var next := Deliver(s, numbers[0]);
      DeliverIncreasing(next, numbers[1..]);
      assert next.delivered + numbers[1..] == s.delivered + numbers;
    }
  }

  // ----- Completeness: nothing is lost unless a connection starts too far behind -----

  /** No event after the cursor has left the server's window. */
  predicate Kept(server: Server, s: State) {
    server.Oldest(s.latest) <= s.cursor + 1
  }

  /** A client that connects is at most two pages behind, no page it asks for starts after a trimmed event, and it takes
      no event for a reset. */
  predicate Mild(server: Server, s: State, a: Action) {
    && !Misreads(server, s, a)
    && (a.Connect? ==> s.latest <= s.cursor + 1_000 && Kept(server, s))
    && (a.Serve? ==> Kept(server, s))
  }

  lemma KeptExactlyWithinWindow(server: Server, s: State)
    requires server.Valid(s.latest) && s.cursor <= s.latest
    ensures Kept(server, s)
          <==> s.latest == s.cursor || (server.first <= s.cursor + 1 && s.latest <= s.cursor + server.maxEvents)
  {
  }

  /** The last event the client will have once it has dealt with the frame it is fetching for. */
  function Ahead(s: State): nat {
    if s.phase.Fetching? && s.phase.frame.Event? then s.phase.frame.number else s.cursor
  }

  /** Every hole between the client's position, the waiting frames and the next event to be appended is one that
      a single page fills. */
  ghost predicate Bridged(s: State) {
    && (forall i | 0 <= i < |s.frames| :: s.frames[i].Event? && s.frames[i].number <= s.latest)
    && (|s.frames| > 0 ==> s.frames[0].number <= Ahead(s) + PAGE_LIMIT + 1)
    && (forall i, j | 0 <= i < j < |s.frames| && j == i + 1 ::
          s.frames[j].number <= s.frames[i].number + PAGE_LIMIT + 1)
    && (s.open ==>
          s.latest <= PAGE_LIMIT + if |s.frames| > 0 then s.frames[|s.frames| - 1].number else Ahead(s))
  }

  /** The client has exactly the log from its start cursor to its cursor, each event once. */
  predicate Complete(start: nat, s: State) {
    start <= s.cursor && |s.delivered| == s.cursor - start && CountsFrom(s.delivered, start + 1)
  }

  ghost predicate GapFree(start: nat, s: State) {
    && Complete(start, s)
    && s.cursor <= Ahead(s) <= s.latest
    && Bridged(s)
    && (s.phase.Fetching? ==> s.phase.frame.Event? && s.cursor < s.phase.frame.number <= s.cursor + PAGE_LIMIT + 1)
    && (s.phase.Fetching? && s.phase.reply.Some? ==>
          var reply := s.phase.reply.value;
          && !reply.resetRequired
          && CountsFrom(reply.events, s.cursor + 1)
          && s.phase.frame.number <= s.cursor + 1 + |reply.events| <= s.latest + 1)
  }

  lemma {:induction false} DeliverRange(start: nat, s: State, numbers: seq<nat>)
    requires Complete(start, s) && CountsFrom(numbers, s.cursor + 1)
    ensures var end := DeliverAll(s, numbers);
            && end == s.(delivered := end.delivered, cursor := s.cursor + |numbers|)
            && Complete(start, end)
    decreases |numbers|
  {
    if numbers != [] {
      DeliverRange(start, Deliver(s, numbers[0]), numbers[1..]);
    }
  }

  /** The end of the page a client gets when nothing after its cursor was trimmed. */
  function KeptPageEnd(s: State): nat {
    Min(s.cursor + 1 + PAGE_LIMIT, s.latest + 1)
  }

  lemma PageWhenKept(server: Server, s: State)
    requires Kept(server, s) && s.cursor <= s.latest && s.known in {None, Some(server.own)}
    ensures server.Page(s.latest, s.cursor) == Range(s.cursor + 1, KeptPageEnd(s))
    ensures FirstFrames(server, s.latest, s.cursor, s.known) == Frames(s.cursor + 1, KeptPageEnd(s))
    ensures !server.ResetRequired(s.latest, s.cursor, s.known)
  {
  }

  /** The state after a connection whose page starts right after the cursor. */
  function Connected(s: State, sender: string): State {
    s.(phase := Reading, frames := Frames(s.cursor + 1, KeptPageEnd(s)), open := true, sender := sender)
  }

  lemma ConnectWhenKept(server: Server, s: State)
    requires Kept(server, s) && s.cursor <= s.latest && s.phase == Disconnected
    requires s.known in {None, Some(server.own)}
    ensures Step(server, s, Connect) == Connected(s, server.own)
  {
    PageWhenKept(server, s);
  }

  lemma PageIsBridged(s: State, sender: string)
    requires s.cursor <= s.latest <= s.cursor + 1_000
    ensures Bridged(Connected(s, sender))
  {
    var next := Connected(s, sender);
    var frames := next.frames;
    assert |frames| == KeptPageEnd(s) - s.cursor - 1;
    assert forall i | 0 <= i < |frames| :: frames[i] == Event(s.cursor + 1 + i);
    assert Ahead(next) == s.cursor;
  }

  lemma GapFreeConnect(server: Server, start: nat, s: State)
    requires GapFree(start, s) && Attached(server, s) && s.phase == Disconnected && Mild(server, s, Connect)
    ensures GapFree(start, Step(server, s, Connect))
  {
    ConnectWhenKept(server, s);
    PageIsBridged(s, server.own);
    ConnectedGapFree(start, s, server.own);
  }

  lemma ConnectedGapFree(start: nat, s: State, sender: string)
    requires Complete(start, s) && s.cursor <= s.latest && Bridged(Connected(s, sender))
    ensures GapFree(start, Connected(s, sender))
  {
  }

  lemma GapFreeReadFrame(server: Server, start: nat, s: State)
    requires GapFree(start, s) && Enabled(s, ReadFrame) && !Misreads(server, s, ReadFrame)
    ensures GapFree(start, Step(server, s, ReadFrame))
  {
  }

  lemma GapFreeReceive(server: Server, start: nat, s: State)
    requires GapFree(start, s) && Enabled(s, Receive)
    ensures GapFree(start, Step(server, s, Receive))
  {
    DeliverRange(start, s.(phase := Reading), s.phase.reply.value.events);
  }

  lemma GapFreeAppend(server: Server, start: nat, s: State)
    requires GapFree(start, s)
    ensures GapFree(start, Step(server, s, Append))
  {
  }

  lemma GapFreeServe(server: Server, start: nat, s: State)
    requires GapFree(start, s) && Attached(server, s) && Enabled(s, Serve) && Mild(server, s, Serve)
    ensures GapFree(start, Step(server, s, Serve))
  {
    PageWhenKept(server, s);
  }

  lemma GapFreeCut(server: Server, start: nat, s: State, keep: nat)
    requires GapFree(start, s) && Enabled(s, Cut(keep))
    ensures GapFree(start, Step(server, s, Cut(keep)))
  {
  }

  lemma GapFreeStep(server: Server, start: nat, s: State, a: Action)
    requires GapFree(start, s) && Attached(server, s) && Enabled(s, a) && Mild(server, s, a)
    ensures GapFree(start, Step(server, s, a)) && Attached(server, Step(server, s, a))
  {
    AttachedStep(server, s, a);
    match a
    case Connect => GapFreeConnect(server, start, s);
    case ReadFrame => GapFreeReadFrame(server, start, s);
    case Receive => GapFreeReceive(server, start, s);
    case Append => GapFreeAppend(server, start, s);
    case Serve => GapFreeServe(server, start, s);
    case Cut(keep) => GapFreeCut(server, start, s, keep);
    case _ =>
  }

  /** A client that is never more than 1000 events behind when it connects gets exactly the log from its start
      cursor on, each event once, over any number of drops and reconnects. */
  lemma {:induction false} DeliveryIsGapFree(server: Server, start: nat, actions: seq<Action>, states: seq<State>)
    requires IsRun(server, start, actions, states)
    requires start <= states[0].latest
    requires forall i | 0 <= i < |actions| :: Mild(server, states[i], actions[i])
    ensures GapFree(start, states[|actions|]) && Attached(server, states[|actions|])
    ensures Complete(start, states[|actions|])
  {
    if actions != [] {
      var n := |actions| - 1;
      DeliveryIsGapFree(server, start, actions[..n], states[..n + 1]);
      GapFreeStep(server, start, states[n], actions[n]);
    }
  }

  // ----- The bound is exact -----

  /** No event after `low` holds the text of a reset. */
  ghost predicate Unmarked(server: Server, low: nat) {
    forall n: nat | n > low :: n !in server.marked
  }

  ghost predicate Steps(server: Server, actions: seq<Action>, states: seq<State>) {
    && |states| == |actions| + 1
    && forall i | 0 <= i < |actions| ::
         Enabled(states[i], actions[i]) && states[i + 1] == Step(server, states[i], actions[i])
  }

  lemma StepOnce(server: Server, actions: seq<Action>, states: seq<State>, a: Action) returns (longer: seq<State>)
    requires Steps(server, actions, states) && Enabled(states[|actions|], a)
    ensures longer == states + [Step(server, states[|actions|], a)]
    ensures Steps(server, actions + [a], longer)
  {
    longer := states + [Step(server, states[|actions|], a)];
  }

  /** Reading a whole page of consecutive frames hands every one of them out. */
  lemma {:induction false} ReadPage(server: Server, start: nat, actions: seq<Action>, states: seq<State>, count: nat)
    returns (more: seq<Action>, longer: seq<State>)
    requires Steps(server, actions, states)
    requires var s := states[|actions|];
             s.phase == Reading && s.frames == Frames(s.cursor + 1, s.cursor + 1 + count)
             && Complete(start, s) && Unmarked(server, s.cursor)
    ensures Steps(server, actions + more, longer) && longer[0] == states[0]
    ensures var s := states[|actions|];
            var end := longer[|actions + more|];
            && end == s.(cursor := s.cursor + count, delivered := end.delivered, frames := [])
            && Complete(start, end)
    decreases count
  {
    var s := states[|actions|];
    if count == 0 {
      more, longer := [], states;
      assert actions + more == actions && s.frames == [];
    } else {
      assert s.frames[1..] == Frames(s.cursor + 2, s.cursor + 1 + count);
      longer := StepOnce(server, actions, states, ReadFrame);
      var rest;
      rest, longer := ReadPage(server, start, actions + [ReadFrame], longer, count - 1);
      more := [ReadFrame] + rest;
      assert actions + more == actions + [ReadFrame] + rest;
    }
  }

  /** Waiting for a page because of a live event, the client takes the page and then moves past the rest. */
  lemma TakePage(server: Server, start: nat, actions: seq<Action>, states: seq<State>) returns (longer: seq<State>)
    requires Steps(server, actions, states)
    requires var s := states[|actions|];
             s.phase == Fetching(Event(s.latest), None) && Kept(server, s) && s.known in {None, Some(server.own)}
             && Complete(start, s) && s.cursor + PAGE_LIMIT + 1 < s.latest
    ensures Steps(server, actions + [Serve] + [Receive], longer) && longer[0] == states[0]
    ensures var s := states[|actions|];
            var end := longer[|actions| + 2].delivered;
            |end| == s.cursor + PAGE_LIMIT + 1 - start && CountsFrom(end[..|end| - 1], start + 1)
            && end[|end| - 1] == s.latest
  {
    var s := states[|actions|];
    PageWhenKept(server, s);
    longer := StepOnce(server, actions, states, Serve);
    DeliverRange(start, s.(phase := Reading), server.Page(s.latest, s.cursor));
    longer := StepOnce(server, actions + [Serve], longer, Receive);
  }

  lemma ReadLive(server: Server, actions: seq<Action>, states: seq<State>) returns (longer: seq<State>)
    requires Steps(server, actions, states)
    requires var s := states[|actions|];
             s.phase == Reading && s.frames == [] && s.open && s.cursor < s.latest && Unmarked(server, s.cursor)
    ensures Steps(server, actions + [Append] + [ReadFrame], longer) && longer[0] == states[0]
    ensures var s := states[|actions|];
            longer[|actions| + 2] == s.(latest := s.latest + 1, phase := Fetching(Event(s.latest + 1), None))
  {
    longer := StepOnce(server, actions, states, Append);
    longer := StepOnce(server, actions + [Append], longer, ReadFrame);
  }

  /** One event further behind and events can be lost although the server still has them all: the stream and
      the one recovered page cover 1000 events. */
  lemma FarBehindLosesEvents(server: Server, latest: nat, start: nat) returns (actions: seq<Action>, states: seq<State>)
    requires server.Valid(latest) && server.first <= start + 1
    requires start + 1_000 < latest < start + server.maxEvents && Unmarked(server, start)
    ensures IsRun(server, start, actions, states) && states[0].latest == latest
    ensures var got := states[|actions|].delivered;
            && |got| == 1_001
            && CountsFrom(got[..1_000], start + 1)
            && got[1_000] == latest + 1 > start + 1_001
    ensures Kept(server, states[0]) && Kept(server, states[0].(latest := latest + 1))
  {
    actions, states := FirstPage(server, latest, start);
    states := ReadLive(server, actions, states);
    states := TakePage(server, start, actions + [Append] + [ReadFrame], states);
    actions := actions + [Append] + [ReadFrame] + [Serve] + [Receive];
  }

  /** A client far behind connects and reads the page it is sent. */
  lemma FirstPage(server: Server, latest: nat, start: nat)
    returns (actions: seq<Action>, states: seq<State>)
    requires server.Valid(latest) && server.first <= start + 1
    requires start + PAGE_LIMIT < latest < start + server.maxEvents && Unmarked(server, start)
    ensures Steps(server, actions, states) && states[0] == Initial(latest, start, Some(server.own))
    ensures var s := states[|actions|];
            && s == State(latest, start + PAGE_LIMIT, s.delivered, Reading, [], true, Some(server.own), server.own)
            && Complete(start, s)
  {
    var s := Initial(latest, start, Some(server.own));
    ConnectWhenKept(server, s);
    states := StepOnce(server, [], [s], Connect);
    var page;
    page, states := ReadPage(server, start, [Connect], states, PAGE_LIMIT);
    actions := [Connect] + page;
  }

  // ----- A client can always catch up -----

  lemma GapFreeOnce(server: Server, start: nat, actions: seq<Action>, states: seq<State>, a: Action)
    returns (longer: seq<State>)
    requires Steps(server, actions, states) && server.marked == {}
    requires var s := states[|actions|];
             && GapFree(start, s) && Attached(server, s)
             && Enabled(s, a) && (a.ReadFrame? || a.FetchFails? || a.EndOfStream?)
    ensures longer == states + [Step(server, states[|actions|], a)] && Steps(server, actions + [a], longer)
    ensures var next := longer[|actions| + 1];
            && GapFree(start, next) && Attached(server, next)
            && next.latest == states[|actions|].latest && next.cursor >= states[|actions|].cursor
  {
    GapFreeStep(server, start, states[|actions|], a);
    longer := StepOnce(server, actions, states, a);
  }

  /** A client whose connection is over comes to an end with it, whatever it was doing. */
  lemma {:induction false} Disconnects(server: Server, start: nat, actions: seq<Action>, states: seq<State>)
    returns (more: seq<Action>, longer: seq<State>)
    requires Steps(server, actions, states) && server.marked == {}
    requires var s := states[|actions|]; GapFree(start, s) && Attached(server, s) && !s.open
    ensures Steps(server, actions + more, longer) && longer[0] == states[0]
    ensures var s, end := states[|actions|], longer[|actions + more|];
            && GapFree(start, end) && Attached(server, end) && end.phase == Disconnected
            && end.latest == s.latest && end.cursor >= s.cursor
    decreases |states[|actions|].frames|
  {
    var s := states[|actions|];
    if s.phase == Disconnected {
      more, longer := [], states;
      assert actions + more == actions;
    } else if s.phase.Fetching? {
      more := [FetchFails];
      longer := GapFreeOnce(server, start, actions, states, FetchFails);
    } else if s.frames == [] {
      more := [EndOfStream];
      longer := GapFreeOnce(server, start, actions, states, EndOfStream);
    } else {
      longer := GapFreeOnce(server, start, actions, states, ReadFrame);
      var rest;
      rest, longer := Disconnects(server, start, actions + [ReadFrame], longer);
      more := [ReadFrame] + rest;
      assert actions + more == actions + [ReadFrame] + rest;
    }
  }

  /** From any state of a client that has lost nothing, is at most a page behind, and loses its connection, the client
      can come to have the whole log, by steps of its own and one page. */
  lemma CanCatchUp(server: Server, start: nat, actions: seq<Action>, states: seq<State>)
    returns (more: seq<Action>, longer: seq<State>)
    requires Steps(server, actions, states) && server.marked == {}
    requires var s := states[|actions|];
             && GapFree(start, s) && Attached(server, s) && !s.open
             && Kept(server, s) && s.latest <= s.cursor + 500
    ensures Steps(server, actions + more, longer) && longer[0] == states[0]
    ensures var end := longer[|actions + more|];
            end.cursor == end.latest == states[|actions|].latest && Complete(start, end)
  {
    more, longer := Disconnects(server, start, actions, states);
    var there := actions + more;
    var s := longer[|there|];
    ConnectWhenKept(server, s);
    longer := StepOnce(server, there, longer, Connect);
    var page;
    page, longer := ReadPage(server, start, there + [Connect], longer, s.latest - s.cursor);
    more := more + [Connect] + page;
    assert actions + more == there + [Connect] + page;
  }
}
