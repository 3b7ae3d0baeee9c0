/** What the client shows of its connection: the projection `reduceSync` (apps/remote-pwa/src/stream-sync.ts). */
module StreamSync {
  import opened Prelude
  import opened EventDelivery

  datatype HttpStatus = HttpUnknown | HttpUp | HttpDown

  datatype SseStatus = Idle | Connecting | Reconnecting | CatchingUp | Live | Gap | SseReset

  datatype Note =
    | GenerationRolled
    | ResetRequested
    | MissedBeforeReconnect(count: nat)
    | ResyncRequired
    | Missed(count: nat)
    | StreamError(message: string)

  datatype SyncCursor = SyncCursor(generation: string, lastSeq: nat)

  datatype SyncState = SyncState(http: HttpStatus, sse: SseStatus, cursor: SyncCursor, note: Option<Note>)

  datatype SyncInput =
    | HttpIsUp
    | HttpIsDown
    | StreamConnecting
    | Snapshot(generation: string, latest: nat, resetRequired: bool)
    | EventInput(generation: string, number: nat)
    | StreamFailed(message: Option<string>)

  function ReduceSync(state: SyncState, input: SyncInput): SyncState {
    match input
    case HttpIsUp => state.(http := HttpUp)
    case HttpIsDown => state.(http := HttpDown)
    case StreamConnecting => state.(sse := if state.sse == Idle then Connecting else Reconnecting)
    case StreamFailed(message) =>
      state.(http := HttpDown, sse := Reconnecting,
             note := if message.Some? then Some(StreamError(message.value)) else None)
    case Snapshot(generation, latest, resetRequired) =>
      var known := state.cursor.generation != "";
      var rolled := known && generation != state.cursor.generation;
      var cursor := SyncCursor(generation, latest);
      if rolled || resetRequired then
        SyncState(HttpUp, SseReset, cursor, Some(if rolled then GenerationRolled else ResetRequested))
      else if known && latest > state.cursor.lastSeq + 1 then
        SyncState(HttpUp, Gap, cursor, Some(MissedBeforeReconnect(latest - state.cursor.lastSeq - 1)))
      else
        SyncState(HttpUp, CatchingUp, cursor, None)
    case EventInput(generation, number) =>
      var cursor := SyncCursor(generation, number);
      if generation != state.cursor.generation then
        state.(sse := SseReset, cursor := cursor, note := Some(ResyncRequired))
      else if number <= state.cursor.lastSeq then
        state
      else if number > state.cursor.lastSeq + 1 then
        state.(sse := Live, cursor := cursor, note := Some(Missed(number - state.cursor.lastSeq - 1)))
      else
        state.(sse := Live, cursor := cursor, note := None)
  }

  /** After each of the events the projection is live and reports nothing missed. */
  predicate NeverMissed(state: SyncState, generation: string, numbers: seq<nat>)
    decreases |numbers|
  {
    numbers != [] ==>
      var next := ReduceSync(state, EventInput(generation, numbers[0]));
      next.sse == Live && next.note == None && NeverMissed(next, generation, numbers[1..])
  }

  /** The projection reports something missed exactly when the events handed to it skip a number. */
  lemma {:induction false} NeverMissedExactlyWithoutGap(state: SyncState, numbers: seq<nat>)
    requires Increasing(numbers, state.cursor.lastSeq)
    ensures NeverMissed(state, state.cursor.generation, numbers)
       <==> CountsFrom(numbers, state.cursor.lastSeq + 1)
    decreases |numbers|
  {
    if numbers != [] {
      NeverMissedExactlyWithoutGap(ReduceSync(state, EventInput(state.cursor.generation, numbers[0])), numbers[1..]);
      assert CountsFrom(numbers, state.cursor.lastSeq + 1) ==> CountsFrom(numbers[1..], numbers[0] + 1);
      assert numbers == [numbers[0]] + numbers[1..];
    }
  }

  /** A client that takes a snapshot, streams from its latest event on and is never more than 1000 events behind
      when it reconnects never reports a missed event. */
  lemma {:induction false} StreamAfterSnapshotNeverMisses(
    server: Server, before: SyncState, generation: string, actions: seq<Action>, states: seq<State>)
    requires |states| > 0 && IsRun(server, states[0].latest, actions, states)
    requires forall i | 0 <= i < |actions| :: Mild(server, states[i], actions[i])
    ensures NeverMissed(ReduceSync(before, Snapshot(generation, states[0].latest, false)),
                        generation, states[|actions|].delivered)
  {
    var start := states[0].latest;
    DeliveryIsGapFree(server, start, actions, states);
    NeverMissedExactlyWithoutGap(ReduceSync(before, Snapshot(generation, start, false)), states[|actions|].delivered);
  }

  function ReduceAll(state: SyncState, inputs: seq<SyncInput>): SyncState {
    if inputs == [] then state
    else ReduceSync(ReduceAll(state, inputs[..|inputs| - 1]), inputs[|inputs| - 1])
  }

  // ----- What each field says of all inputs so far -----

  /** Inputs that tell whether the server answers. */
  predicate TellsHttp(input: SyncInput) {
    input.HttpIsUp? || input.HttpIsDown? || input.Snapshot? || input.StreamFailed?
  }

  /** The server is shown as up or down as the last input that tells of it has it. */
  lemma {:induction false} HttpIsLastWord(state: SyncState, inputs: seq<SyncInput>, last: nat)
    requires last < |inputs| && TellsHttp(inputs[last])
    requires forall i | last < i < |inputs| :: !TellsHttp(inputs[i])
    ensures ReduceAll(state, inputs).http
         == if inputs[last].HttpIsUp? || inputs[last].Snapshot? then HttpUp else HttpDown
  {
    var n := |inputs| - 1;
    if last < n {
      assert !TellsHttp(inputs[n]);
      HttpIsLastWord(state, inputs[..n], last);
    }
  }

  /** Inputs that carry a generation. */
  predicate TellsGeneration(input: SyncInput) {
    input.Snapshot? || input.EventInput?
  }

  /** The generation is that of the last snapshot or event. */
  lemma {:induction false} GenerationIsLastWord(state: SyncState, inputs: seq<SyncInput>, last: nat)
    requires last < |inputs| && TellsGeneration(inputs[last])
    requires forall i | last < i < |inputs| :: !TellsGeneration(inputs[i])
    ensures ReduceAll(state, inputs).cursor.generation == inputs[last].generation
  {
    var n := |inputs| - 1;
    if last < n {
      assert !TellsGeneration(inputs[n]);
      GenerationIsLastWord(state, inputs[..n], last);
    }
  }

  function EventsOf(generation: string, numbers: seq<nat>): seq<SyncInput> {
    seq(|numbers|, i requires 0 <= i < |numbers| => EventInput(generation, numbers[i]))
  }

  /** How many events the note on the last input says were missed. */
  function Reported(note: Option<Note>): nat {
    match note
    case Some(Missed(count)) => count
    case Some(MissedBeforeReconnect(count)) => count
    case _ => 0
  }

  /** Of the events of one generation, in any order and repeated at will: how many were accepted, and how many were
      reported missing when they were. */
  function Accounted(state: SyncState, numbers: seq<nat>): (nat, nat) {
    if numbers == [] then (0, 0)
    else
      var n := |numbers| - 1;
      var before := ReduceAll(state, EventsOf(state.cursor.generation, numbers[..n]));
      var next := ReduceSync(before, EventInput(state.cursor.generation, numbers[n]));
      var (seen, missed) := Accounted(state, numbers[..n]);
      if next.cursor == before.cursor then (seen, missed) else (seen + 1, missed + Reported(next.note))
  }

  lemma AcceptedOrRepeated(before: SyncState, number: nat)
    ensures var next := ReduceSync(before, EventInput(before.cursor.generation, number));
            var last := before.cursor.lastSeq;
            if number <= last then next == before
            else next.cursor == SyncCursor(before.cursor.generation, number) && Reported(next.note) == number - last - 1
  {
  }

  /** No number is lost in the books: the cursor ends at the highest number, and every number it moved past was either
      accepted or reported missing, none twice. */
  lemma {:induction false} EventsAreAccountedFor(state: SyncState, numbers: seq<nat>)
    ensures var end := ReduceAll(state, EventsOf(state.cursor.generation, numbers)).cursor;
            var (seen, missed) := Accounted(state, numbers);
            && end.generation == state.cursor.generation
            && end.lastSeq == state.cursor.lastSeq + seen + missed
            && (forall i | 0 <= i < |numbers| :: numbers[i] <= end.lastSeq)
            && (end.lastSeq == state.cursor.lastSeq || end.lastSeq in numbers)
  {
    if numbers != [] {
      var n := |numbers| - 1;
      EventsAreAccountedFor(state, numbers[..n]);
      var inputs, fewer := EventsOf(state.cursor.generation, numbers), EventsOf(state.cursor.generation, numbers[..n]);
      assert inputs[..n] == fewer && inputs[n] == EventInput(state.cursor.generation, numbers[n]);
      var before := ReduceAll(state, fewer);
      AcceptedOrRepeated(before, numbers[n]);
      assert ReduceAll(state, inputs) == ReduceSync(before, inputs[n]);
      assert forall i | 0 <= i < n :: numbers[..n][i] == numbers[i];
    }
  }

  /** A snapshot of the known generation never reports all that it moves past: it says nothing of one event, and of
      more it reports one less. */
  lemma SnapshotReportsOneLess(state: SyncState, latest: nat)
    requires state.cursor.generation != "" && latest >= state.cursor.lastSeq
    ensures var next := ReduceSync(state, Snapshot(state.cursor.generation, latest, false));
            && next.cursor == SyncCursor(state.cursor.generation, latest)
            && Reported(next.note) == Max(latest - state.cursor.lastSeq - 1, 0)
            && (next.sse == Gap <==> next.note != None) && (next.note != None <==> Reported(next.note) > 0)
  {
  }

  /** The input is of another log than the cursor's, or demands a reset. */
  predicate Rolls(state: SyncState, input: SyncInput) {
    || (input.EventInput? && input.generation != state.cursor.generation)
    || (input.Snapshot? && input.resetRequired)
    || (input.Snapshot? && input.generation != state.cursor.generation && state.cursor.generation != "")
  }

  predicate Repeats(state: SyncState, input: SyncInput) {
    input.EventInput? && !Rolls(state, input) && input.number <= state.cursor.lastSeq
  }

  /** Which inputs lead to which status and note. What tells of the server alone, or repeats an event, changes neither
      them nor the cursor. */
  lemma StatusSaysWhy(state: SyncState, input: SyncInput)
    ensures var next := ReduceSync(state, input);
            if input.HttpIsUp? || input.HttpIsDown? || Repeats(state, input) then
              next == state.(http := next.http) && (input.EventInput? ==> next == state)
            else
              && (next.sse == SseReset <==> Rolls(state, input))
              && (next.sse == Live <==> input.EventInput? && !Rolls(state, input))
              && (next.sse == Connecting <==> input.StreamConnecting? && state.sse == Idle)
              && (next.sse == Reconnecting <==>
                    input.StreamFailed? || (input.StreamConnecting? && state.sse != Idle))
              && (next.sse == Gap <==>
                    && input.Snapshot? && !Rolls(state, input) && state.cursor.generation != ""
                    && input.latest > state.cursor.lastSeq + 1)
              && next.sse != Idle
    ensures var next := ReduceSync(state, input);
            && (next.note == Some(GenerationRolled) && next != state ==>
                  input.StreamConnecting? || input.HttpIsUp? || input.HttpIsDown?
                  || (input.Snapshot? && input.generation != state.cursor.generation))
            && (Rolls(state, input) ==>
                  next.note in {Some(GenerationRolled), Some(ResetRequested), Some(ResyncRequired)})
            && (input.EventInput? && !Rolls(state, input) && !Repeats(state, input) ==>
                  (next.note == None <==> input.number == state.cursor.lastSeq + 1))
            && (input.StreamFailed? ==> (next.note == None <==> input.message == None))
    ensures !TellsGeneration(input) || Repeats(state, input) ==> ReduceSync(state, input).cursor == state.cursor
  {
  }
}
