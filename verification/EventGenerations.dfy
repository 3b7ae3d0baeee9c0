/** Delivery of the event log across server processes: a process may be replaced at any time by one of another
    generation, whose log has nothing to do with what the client was handed before (`page` and `sse`,
    packages/remote-daemon/src/index.ts; `streamEvents`, packages/remote-client/src/index.ts). */
module EventGenerations {
  import opened Prelude
  import opened EventDelivery

  datatype Handed = Handed(generation: string, number: nat)

  /** `current` is what `onEvent` was given since the client started over the last time. */
  datatype World = World(server: Server, s: State, current: seq<Handed>)

  datatype Move = Within(a: Action) | NewProcess(server: Server, latest: nat)

  predicate Possible(w: World, m: Move) {
    match m
    case Within(a) => Enabled(w.s, a)
    case NewProcess(server, latest) => server.Valid(latest)
  }

  function Label(numbers: seq<nat>, generation: string): (r: seq<Handed>)
    ensures |r| == |numbers| && forall i | 0 <= i < |r| :: r[i] == Handed(generation, numbers[i])
  {
    seq(|numbers|, i requires 0 <= i < |numbers| => Handed(generation, numbers[i]))
  }

  /** What was handed out on the way from `before` to `after`. */
  function New(before: State, after: State): seq<nat> {
    if |before.delivered| <= |after.delivered| then after.delivered[|before.delivered|..] else []
  }

  /** The events an action hands out: those of a frame are of the generation of the connection, those of a page of the
      generation of the process that served it. */
  function Given(server: Server, s: State, a: Action): seq<Handed>
    requires Enabled(s, a)
  {
    var next := Step(server, s, a);
    if a.Receive? then
      Label(New(s, Recovered(s)), s.phase.reply.value.generation) + Label(New(Recovered(s), next), s.sender)
    else Label(New(s, next), s.sender)
  }

  /** The client goes on from zero. */
  predicate StartsOver(server: Server, s: State, a: Action)
    requires Enabled(s, a)
  {
    || (a.ReadFrame? && (s.frames[0].Reset? || s.frames[0].number in server.marked))
    || (a.Receive? && s.phase.frame.Event? && s.phase.reply.value.resetRequired)
  }

  function Moved(w: World, m: Move): World
    requires Possible(w, m)
  {
    match m
    case Within(a) =>
      World(w.server, Step(w.server, w.s, a),
            (if StartsOver(w.server, w.s, a) then [] else w.current) + Given(w.server, w.s, a))
    case NewProcess(server, latest) =>
      // The connection breaks; what has arrived of it can still be read.
      World(server, w.s.(latest := latest, open := false), w.current)
  }

  ghost predicate IsRun(start: nat, generation: string, moves: seq<Move>, worlds: seq<World>) {
    && |worlds| == |moves| + 1
    && worlds[0].server.Valid(worlds[0].s.latest) && worlds[0].current == []
    && worlds[0].s == Initial(worlds[0].s.latest, start, Some(generation))
    && forall i | 0 <= i < |moves| :: Possible(worlds[i], moves[i]) && worlds[i + 1] == Moved(worlds[i], moves[i])
  }

  /** A stretch of events of one generation, in order, none after the cursor. */
  predicate IsStretch(current: seq<Handed>, generation: string, cursor: nat) {
    && (forall i | 0 <= i < |current| :: current[i].generation == generation && current[i].number <= cursor)
    && (forall i, j | 0 <= i < j < |current| :: current[i].number < current[j].number)
  }

  /** Frames that follow no demand for a reset are of the generation the client knows. */
  predicate FramesAreKnown(s: State) {
    && (forall i | 0 <= i < |s.frames| :: s.frames[i].Event? || (i == 0 && s.phase.Reading?))
    && (s.phase == Disconnected ==> s.frames == [] && !s.open)
    && (s.phase != Disconnected && (s.open || s.frames != []) && (s.frames != [] ==> s.frames[0].Event?) ==>
          s.known == Some(s.sender))
    && (s.phase.Fetching? ==> s.known == Some(s.sender))
    && (s.phase.Fetching? && s.phase.reply.Some? ==> s.known == Some(s.phase.reply.value.generation))
  }

  predicate Inv(w: World) {
    w.s.known.Some? && IsStretch(w.current, w.s.known.value, w.s.cursor) && FramesAreKnown(w.s)
  }

  /** A page is answered by a process of the generation that the client asked for. */
  predicate Answered(w: World, m: Move) {
    m == Within(Serve) ==> w.s.known == Some(w.server.own)
  }

  lemma {:induction false} DeliverAllExtends(s: State, numbers: seq<nat>)
    ensures var end := DeliverAll(s, numbers);
            && end == s.(cursor := end.cursor, delivered := end.delivered)
            && |s.delivered| <= |end.delivered| && s.delivered == end.delivered[..|s.delivered|]
            && s.cursor <= end.cursor
            && Increasing(New(s, end), s.cursor)
            && (forall i | 0 <= i < |New(s, end)| :: New(s, end)[i] <= end.cursor)
    decreases |numbers|
  {
    if numbers != [] {
      var next := Deliver(s, numbers[0]);
      DeliverAllExtends(next, numbers[1..]);
      var end := DeliverAll(s, numbers);
      if next != s {
        assert New(s, end) == [numbers[0]] + New(next, end);
      }
    }
  }

  /** Events above the cursor continue a stretch of their generation. */
  lemma StretchContinues(current: seq<Handed>, numbers: seq<nat>, generation: string, cursor: nat, end: nat)
    requires IsStretch(current, generation, cursor) && cursor <= end
    requires Increasing(numbers, cursor) && forall i | 0 <= i < |numbers| :: numbers[i] <= end
    ensures IsStretch(current + Label(numbers, generation), generation, end)
  {
  }

  lemma NothingNew(current: seq<Handed>, generation: string)
    ensures current + Label([], generation) == current
  {
  }

  lemma ReadFrameKeepsInv(w: World)
    requires Inv(w) && Enabled(w.s, ReadFrame)
    ensures Inv(Moved(w, Within(ReadFrame)))
  {
    var s, next := w.s, Step(w.server, w.s, ReadFrame);
    assert forall i | 0 <= i < |s.frames| - 1 :: s.frames[1..][i] == s.frames[i + 1];
    if s.frames[0].Event? && s.frames[0].number !in w.server.marked && s.frames[0].number == s.cursor + 1 {
      assert New(s, next) == [s.frames[0].number];
      StretchContinues(w.current, New(s, next), s.sender, s.cursor, next.cursor);
    } else {
      assert New(s, next) == [];
      NothingNew(if StartsOver(w.server, s, ReadFrame) then [] else w.current, s.sender);
    }
  }

  lemma ReceiveKeepsInv(w: World)
    requires Inv(w) && Enabled(w.s, Receive)
    ensures Inv(Moved(w, Within(Receive)))
  {
    var s, reply := w.s, w.s.phase.reply.value;
    var over := StartsOver(w.server, s, Receive);
    var from := if over then s.(phase := Reading, cursor := 0, known := Some(reply.generation))
                else s.(phase := Reading);
    var mid, end := Recovered(s), Step(w.server, s, Receive);
    DeliverAllExtends(from, reply.events);
    assert mid == DeliverAll(from, reply.events);
    assert New(s, mid) == New(from, mid);
    PageAndFrame(if over then [] else w.current, from, mid, end, New(s, mid), New(mid, end), s.sender);
  }

  /** The stretch after a page, and after the frame that asked for it. */
  lemma PageAndFrame(kept: seq<Handed>, from: State, mid: State, end: State, page: seq<nat>, last: seq<nat>,
                     generation: string)
    requires IsStretch(kept, generation, from.cursor)
    requires Increasing(page, from.cursor) && forall i | 0 <= i < |page| :: page[i] <= mid.cursor
    requires from.cursor <= mid.cursor && (end == mid || exists n: nat | n > mid.cursor :: end == Deliver(mid, n))
    requires last == New(mid, end)
    ensures IsStretch(kept + (Label(page, generation) + Label(last, generation)), generation, end.cursor)
  {
    var first := kept + Label(page, generation);
    StretchContinues(kept, page, generation, from.cursor, mid.cursor);
    if end != mid {
      var n: nat :| n > mid.cursor && end == Deliver(mid, n);
      assert last == [n];
    }
    StretchContinues(first, last, generation, mid.cursor, end.cursor);
    assert first + Label(last, generation) == kept + (Label(page, generation) + Label(last, generation));
  }

  lemma MoveKeepsInv(w: World, m: Move)
    requires Inv(w) && Possible(w, m) && Answered(w, m)
    ensures Inv(Moved(w, m))
  {
    match m
    case NewProcess(_, _) =>
    case Within(a) =>
      match a {
        case ReadFrame => ReadFrameKeepsInv(w);
        case Receive => ReceiveKeepsInv(w);
        case _ =>
          assert New(w.s, Step(w.server, w.s, a)) == [];
          NothingNew(w.current, w.s.sender);
      }
  }

  /** Over any number of server processes: as long as no page is answered by a process of another generation than the
      client asked for, everything handed out since the client last started over is of one generation, the one it
      names, and in order. A client of an older generation is never handed numbers as a continuation. */
  lemma {:induction false} StretchesAreOfOneGeneration(start: nat, generation: string, moves: seq<Move>,
                                                      worlds: seq<World>)
    requires IsRun(start, generation, moves, worlds)
    requires forall i | 0 <= i < |moves| :: Answered(worlds[i], moves[i])
    ensures Inv(worlds[|moves|])
    ensures var w := worlds[|moves|]; w.s.known.Some? && IsStretch(w.current, w.s.known.value, w.s.cursor)
  {
    if moves != [] {
      var n := |moves| - 1;
      StretchesAreOfOneGeneration(start, generation, moves[..n], worlds[..n + 1]);
      MoveKeepsInv(worlds[n], moves[n]);
    }
  }

  /** A client of another generation, or one that has lost events, is told to start over when it connects, and no other
      client is: it then names the server's generation and asks for the page from the start. */
  lemma ConnectStartsOverExactly(w: World)
    requires Inv(w) && w.s.phase == Disconnected && w.server.Valid(w.s.latest)
    ensures var asked := Moved(w, Within(Connect));
            var told := asked.s.frames != [] && asked.s.frames[0].Reset?;
            && (told <==>
                  || w.s.known != Some(w.server.own)
                  || (w.s.cursor > 0 && w.s.cursor + 1 < w.server.Oldest(w.s.latest)))
            && (told ==>
                  var next := Moved(asked, Within(ReadFrame));
                  && next.current == [] && next.s.known == Some(w.server.own)
                  && next.s.cursor == 0 && next.s.phase == Fetching(Reset, None))
  {
    var asked := Moved(w, Within(Connect));
    if asked.s.frames != [] && asked.s.frames[0].Reset? {
      assert New(asked.s, Step(w.server, asked.s, ReadFrame)) == [];
      NothingNew([], asked.s.sender);
    }
  }

  lemma {:induction false} DeliverAllOf(s: State, numbers: seq<nat>)
    requires Increasing(numbers, s.cursor)
    ensures var end := DeliverAll(s, numbers);
            && New(s, end) == numbers
            && end == s.(cursor := if numbers == [] then s.cursor else numbers[|numbers| - 1],
                         delivered := s.delivered + numbers)
    decreases |numbers|
  {
    if numbers == [] {
      assert s.delivered + numbers == s.delivered;
    } else {
      var next := Deliver(s, numbers[0]);
      DeliverAllOf(next, numbers[1..]);
      assert next.delivered + numbers[1..] == s.delivered + numbers;
    }
  }

  /** That page is handed out from the oldest event kept on, whenever it is served. */
  lemma StartedOverFromOldest(w: World)
    requires w.s.phase == Fetching(Reset, None) && w.s.cursor == 0 && w.current == []
    requires w.server.Valid(w.s.latest) && w.server.first <= w.s.latest
    ensures var end := Moved(Moved(w, Within(Serve)), Within(Receive));
            && end.current == Label(w.server.Page(w.s.latest, 0), w.server.own)
            && end.current[0] == Handed(w.server.own, w.server.Oldest(w.s.latest))
  {
    var served := Moved(w, Within(Serve)).s;
    var page := w.server.Page(w.s.latest, 0);
    PageIsAbove(w.server, w.s.latest, 0);
    DeliverAllOf(served.(phase := Reading), page);
    assert New(served, Recovered(served)) == page;
    NothingNew([] + Label(page, w.server.own), served.sender);
  }

  /** A gap is filled by a process of another generation than that of the connection: the client starts over with the
      page after its old cursor. The oldest event of the new log is handed out exactly if the old cursor was below it,
      and what is handed out is of one generation exactly if the page reaches the number of the frame that asked for
      it; otherwise that frame, of the old log, is handed out on top. */
  lemma ForeignCatchUpExactly(w: World)
    requires Inv(w) && w.s.phase.Fetching? && w.s.phase.frame.Event? && w.s.phase.reply.None?
    requires w.s.known != Some(w.server.own) && w.server.Valid(w.s.latest) && w.server.first <= w.s.latest
    requires w.s.phase.frame.number > 0
    ensures var end := Moved(Moved(w, Within(Serve)), Within(Receive));
            var page := w.server.Page(w.s.latest, w.s.cursor);
            var asked := w.s.phase.frame.number;
            && end.s.known == Some(w.server.own)
            && (Handed(w.server.own, w.server.Oldest(w.s.latest)) in end.current <==>
                  w.s.cursor < w.server.Oldest(w.s.latest))
            && ((forall e | e in end.current :: e.generation == w.server.own) <==>
                  page != [] && asked <= page[|page| - 1])
  {
    var page, oldest := w.server.Page(w.s.latest, w.s.cursor), w.server.Oldest(w.s.latest);
    PageHoldsOldest(w.server, w.s.latest, w.s.cursor, page);
    var last := ForeignCatchUp(w, page);
    HandedAre(page, last, w.server.own, w.s.sender, oldest);
  }

  lemma PageHoldsOldest(server: Server, latest: nat, after: nat, page: seq<nat>)
    requires server.Valid(latest) && server.first <= latest && page == server.Page(latest, after)
    ensures Increasing(page, 0)
    ensures server.Oldest(latest) in page <==> after < server.Oldest(latest)
  {
    if after < server.Oldest(latest) {
      assert page[0] == server.Oldest(latest);
    }
  }

  lemma ForeignCatchUp(w: World, page: seq<nat>) returns (last: seq<nat>)
    requires Inv(w) && w.s.phase.Fetching? && w.s.phase.frame.Event? && w.s.phase.reply.None?
    requires w.s.known != Some(w.server.own) && page == w.server.Page(w.s.latest, w.s.cursor) && Increasing(page, 0)
    ensures var end := Moved(Moved(w, Within(Serve)), Within(Receive));
            && end.s.known == Some(w.server.own)
            && end.current == Label(page, w.server.own) + Label(last, w.s.sender)
    ensures var asked := w.s.phase.frame.number;
            last == if asked > (if page == [] then 0 else page[|page| - 1]) then [asked] else []
  {
    var s, served := w.s, Moved(w, Within(Serve)).s;
    var from := served.(phase := Reading, cursor := 0, known := Some(w.server.own));
    DeliverAllOf(from, page);
    var mid := Recovered(served);
    assert mid == DeliverAll(from, page) && New(served, mid) == page;
    last := New(mid, Deliver(mid, s.phase.frame.number));
    var current := Label(page, w.server.own) + Label(last, s.sender);
    assert [] + current == current;
  }

  lemma HandedAre(page: seq<nat>, last: seq<nat>, own: string, sender: string, n: nat)
    requires own != sender
    ensures var current := Label(page, own) + Label(last, sender);
            && (Handed(own, n) in current <==> n in page)
            && ((forall e | e in current :: e.generation == own) <==> last == [])
  {
    var current := Label(page, own) + Label(last, sender);
    if n in page {
      var i :| 0 <= i < |page| && page[i] == n;
      assert current[i] == Handed(own, n);
    }
    if last != [] {
      assert current[|page|] == Handed(sender, last[0]);
    }
  }

  /** A client that names no generation is not told: it is handed the events of another log as a continuation. */
  lemma UnnamedGenerationContinues(w: World)
    requires w.s.phase == Disconnected && w.s.known == None && w.s.delivered != [] && w.server.Valid(w.s.latest)
    requires w.server.Oldest(w.s.latest) <= w.s.cursor + 1 <= w.s.latest
    requires w.s.cursor + 1 !in w.server.marked
    ensures var end := Moved(Moved(w, Within(Connect)), Within(ReadFrame));
            end.current == w.current + [Handed(w.server.own, w.s.cursor + 1)]
  {
    var asked := Moved(w, Within(Connect));
    NothingNew(w.current, w.s.sender);
    assert New(w.s, asked.s) == [];
    assert asked.s.frames[0] == Event(w.s.cursor + 1);
    assert New(asked.s, Step(w.server, asked.s, ReadFrame)) == [w.s.cursor + 1];
  }
}
