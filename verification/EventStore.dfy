/** The control plane's durable event log (`DurableEventStore`, packages/remote-daemon/src/index.ts):
    a bounded window of events in memory, and a chain of disk writes that lags behind it.

    Each method below is one step of the process between two awaits, so any order of calls is an
    interleaving of appends with the write chain, and a crash may fall between any two of them. */
module EventStore {
  import opened Prelude

  /** A control event; `line` is its serialised form. */
  datatype Event = Event(number: nat, generation: string, line: string)

  predicate Consecutive(events: seq<Event>) {
    && (|events| > 0 ==> events[0].number > 0)
    && forall i | 0 <= i < |events| :: events[i].number == events[0].number + i
  }

  predicate StrictlyIncreasing(events: seq<Event>) {
    |events| > 0 ==>
      var n := |events| - 1;
      StrictlyIncreasing(events[..n]) && events[n].number > if n == 0 then 0 else events[n - 1].number
  }

  predicate OfGeneration(events: seq<Event>, generation: string) {
    forall i | 0 <= i < |events| :: events[i].generation == generation
  }

  /** `lines` is the block of `history` that ends before position `end`. */
  predicate IsBlock(lines: seq<Event>, history: seq<Event>, end: int) {
    && |lines| <= end <= |history|
    && forall i, j | 0 <= i < |lines| && j == end - |lines| + i :: lines[i] == history[j]
  }

  function Last(events: seq<Event>, count: nat): seq<Event> {
    if |events| <= count then events else events[|events| - count..]
  }

  /** `events` is what a window of `maxEvents` keeps of `history`. */
  predicate IsWindow(events: seq<Event>, history: seq<Event>, maxEvents: nat) {
    IsBlock(events, history, |history|) && |events| == Min(|history|, maxEvents)
  }

  function Filter(events: seq<Event>, keep: Event -> bool): seq<Event> {
    if events == [] then []
    else if keep(events[0]) then [events[0]] + Filter(events[1..], keep)
    else Filter(events[1..], keep)
  }

  function UpTo(events: seq<Event>, n: nat): seq<Event> {
    Filter(events, (e: Event) => e.number <= n)
  }

  function After(events: seq<Event>, n: nat): seq<Event> {
    Filter(events, (e: Event) => e.number > n)
  }

  function FileSize(lines: seq<Event>): nat {
    if lines == [] then 0 else |lines[0].line| + 1 + FileSize(lines[1..])
  }

  /** The file of these lines. */
  function FileText(lines: seq<Event>): string {
    if lines == [] then "" else lines[0].line + "\n" + FileText(lines[1..])
  }

  lemma {:induction false} FileSizeIsTextLength(lines: seq<Event>)
    ensures FileSize(lines) == |FileText(lines)|
  {
    if lines != [] {
      FileSizeIsTextLength(lines[1..]);
    }
  }

  // ----- Reading the window -----

  /** `list`: at most `limit` events after the cursor, `limit` clamped to 1..1000. */
  function List(events: seq<Event>, after: nat, limit: int): seq<Event> {
    var found := After(events, after);
    found[..Min(|found|, Min(Max(limit, 1), 1000))]
  }

  function OldestNumber(events: seq<Event>, sequence: nat): nat {
    if events == [] then sequence + 1 else events[0].number
  }

  datatype Page = Page(generation: string, oldest: nat, latest: nat, resetRequired: bool, events: seq<Event>)

  function PageOf(events: seq<Event>, sequence: nat, own: string, after: nat, limit: int,
                  generation: Option<string>): Page {
    var oldest := OldestNumber(events, sequence);
    Page(own, oldest, sequence,
         (generation.Some? && generation.value != own) || (after > 0 && after < oldest - 1),
         List(events, after, limit))
  }

  lemma {:induction false} FilterAll(events: seq<Event>, keep: Event -> bool)
    requires forall e | e in events :: keep(e)
    ensures Filter(events, keep) == events
  {
    if events != [] {
      FilterAll(events[1..], keep);
    }
  }

  lemma {:induction false} FilterNone(events: seq<Event>, keep: Event -> bool)
    requires forall e | e in events :: !keep(e)
    ensures Filter(events, keep) == []
  {
    if events != [] {
      FilterNone(events[1..], keep);
    }
  }

  lemma {:induction false} FilterConcat(a: seq<Event>, b: seq<Event>, all: seq<Event>, keep: Event -> bool)
    requires all == a + b
    ensures Filter(all, keep) == Filter(a, keep) + Filter(b, keep)
  {
    if a == [] {
      assert all == b;
    } else {
      FilterConcat(a[1..], b, all[1..], keep);
      var kept := if keep(a[0]) then [a[0]] else [];
      assert Filter(all, keep) == kept + Filter(all[1..], keep);
      assert Filter(a, keep) == kept + Filter(a[1..], keep);
    }
  }

  lemma {:induction false} FilterSplit(events: seq<Event>, k: nat, keep: Event -> bool)
    requires k <= |events|
    ensures (forall i | 0 <= i < |events| :: keep(events[i]) <==> i < k) ==> Filter(events, keep) == events[..k]
    ensures (forall i | 0 <= i < |events| :: keep(events[i]) <==> i >= k) ==> Filter(events, keep) == events[k..]
  {
    var front, rest := events[..k], events[k..];
    assert events == front + rest;
    FilterConcat(front, rest, events, keep);
    if forall i | 0 <= i < |events| :: keep(events[i]) <==> i < k {
      FilterAll(front, keep);
      FilterNone(rest, keep);
    }
    if forall i | 0 <= i < |events| :: keep(events[i]) <==> i >= k {
      FilterNone(front, keep);
      FilterAll(rest, keep);
    }
  }

  /** In a run of consecutive numbers the events up to `n` are a prefix and those after `n` the rest. */
  lemma SplitAtNumber(events: seq<Event>, n: nat, k: nat)
    requires Consecutive(events) && k <= |events|
    requires k > 0 ==> events[k - 1].number <= n
    requires k < |events| ==> events[k].number > n
    ensures UpTo(events, n) == events[..k]
    ensures After(events, n) == events[k..]
  {
    FilterSplit(events, k, (e: Event) => e.number <= n);
    FilterSplit(events, k, (e: Event) => e.number > n);
  }

  predicate Holds(events: seq<Event>, n: nat) {
    exists e | e in events :: e.number == n
  }

  /** A page demands no reset exactly when the client names no generation or the store's own, and with a positive
      cursor has lost no event after it. It names the store's generation and the ends of what is kept. */
  lemma PageDemandsResetExactly(events: seq<Event>, sequence: nat, own: string, after: nat, limit: int,
                                generation: Option<string>)
    requires Consecutive(events)
    requires events != [] ==> events[|events| - 1].number == sequence
    ensures var page := PageOf(events, sequence, own, after, limit, generation);
            && (!page.resetRequired <==>
                  && (generation.Some? ==> generation.value == own)
                  && (after > 0 ==> forall n | after < n <= sequence :: Holds(events, n)))
            && page.generation == own && page.latest == sequence
            && page.oldest >= 1 && (forall n | 1 <= n <= sequence :: Holds(events, n) <==> page.oldest <= n)
  {
    var oldest := OldestNumber(events, sequence);
    forall n | 1 <= n <= sequence ensures Holds(events, n) <==> oldest <= n {
      if events != [] && oldest <= n {
        assert events[n - oldest].number == n && events[n - oldest] in events;
      }
    }
    if 0 < after < oldest - 1 {
      assert !Holds(events, after + 1);
    }
  }

  /** A page is a slice of the log: it starts right after the cursor, or at the oldest event kept when the
      cursor is older, and holds as many events as there are, at most the clamped limit, with no gap. */
  lemma ListIsLogSlice(events: seq<Event>, sequence: nat, after: nat, limit: int)
    requires Consecutive(events)
    requires events != [] ==> events[|events| - 1].number == sequence
    ensures var found, first := List(events, after, limit), Max(after + 1, OldestNumber(events, sequence));
            && |found| == Min(Max(sequence + 1 - first, 0), Min(Max(limit, 1), 1000))
            && forall i | 0 <= i < |found| :: found[i].number == first + i && found[i] in events
  {
    if events != [] {
      var k := Min(Max(after + 1 - events[0].number, 0), |events|);
      SplitAtNumber(events, after, k);
      forall i | 0 <= i < |List(events, after, limit)|
        ensures List(events, after, limit)[i] == events[k + i]
      {
      }
    }
  }

  /** A compaction for the event at position `durable` writes a gap-free block of history that ends with that
      event exactly when fewer than `maxEvents` newer events have been appended meanwhile; otherwise the
      window has moved past it and the compacted file is empty. */
  lemma SnapshotKeepsTheEnd(events: seq<Event>, history: seq<Event>, maxEvents: nat, durable: nat)
    requires Consecutive(history) && 0 < durable <= |history|
    requires IsWindow(events, history, maxEvents)
    ensures var snapshot := UpTo(events, history[durable - 1].number);
            && IsBlock(snapshot, history, durable)
            && (snapshot != [] <==> |history| - durable < maxEvents)
            && (snapshot == [] || snapshot[|snapshot| - 1] == history[durable - 1])
  {
    var dropped := |history| - |events|;
    var k := Max(durable - dropped, 0);
    forall i | 0 <= i < |events| ensures events[i] == history[dropped + i] {
    }
    SplitAtNumber(events, history[durable - 1].number, k);
  }

  lemma AppendToHistory(history: seq<Event>, event: Event)
    requires Consecutive(history)
    requires event.number == if history == [] then 1 else history[|history| - 1].number + 1
    ensures Consecutive(history + [event])
    ensures OfGeneration(history, event.generation) ==> OfGeneration(history + [event], event.generation)
  {
  }

  lemma WindowSlides(events: seq<Event>, history: seq<Event>, event: Event, maxEvents: nat)
    requires IsWindow(events, history, maxEvents)
    ensures IsWindow(Last(events + [event], maxEvents), history + [event], maxEvents)
  {
  }

  lemma BlockOfLonger(lines: seq<Event>, history: seq<Event>, end: int, event: Event)
    requires IsBlock(lines, history, end)
    ensures IsBlock(lines, history + [event], end)
    ensures end == |history| ==> IsBlock(lines + [event], history + [event], end + 1)
  {
  }

  lemma {:induction false} ConsecutiveIsIncreasing(lines: seq<Event>)
    requires Consecutive(lines)
    ensures StrictlyIncreasing(lines)
  {
    if |lines| > 0 {
      ConsecutiveIsIncreasing(lines[..|lines| - 1]);
    }
  }

  lemma LinesAreConsecutive(lines: seq<Event>, history: seq<Event>, end: int, generation: string)
    requires IsBlock(lines, history, end) && Consecutive(history) && OfGeneration(history, generation)
    ensures Consecutive(lines) && OfGeneration(lines, generation)
    ensures lines != [] ==> lines[|lines| - 1] == history[end - 1]
  {
    forall i | 0 <= i < |lines| ensures lines[i] == history[end - |lines| + i] {
    }
  }

  lemma LastIsWindow(lines: seq<Event>, count: nat)
    ensures IsWindow(Last(lines, count), lines, count)
  {
  }

  lemma BlockOfBlock(inner: seq<Event>, lines: seq<Event>, history: seq<Event>, end: int)
    requires IsBlock(inner, lines, |lines|) && IsBlock(lines, history, end)
    ensures IsBlock(inner, history, end)
  {
    forall i | 0 <= i < |inner| ensures inner[i] == lines[|lines| - |inner| + i] {
    }
  }

  /** The loop that shifts the oldest events out of the window. */
  method Trim(events: seq<Event>, maxEvents: nat) returns (trimmed: seq<Event>)
    ensures trimmed == Last(events, maxEvents)
  {
    trimmed := events;
    while |trimmed| > maxEvents
      invariant |trimmed| <= |events| && trimmed == events[|events| - |trimmed|..]
      invariant |trimmed| >= Min(maxEvents, |events|)
    {
      trimmed := trimmed[1..];
    }
  }

  // ----- The store -----

  /** Where the job at the head of the write chain has got to. */
  datatype Stage =
    | Waiting
    | LineWritten
    | GenerationTruncated
    | GenerationWritten
    | SnapshotWritten(lines: seq<Event>)

  lemma {:induction false} NotIncreasingBeyond(lines: seq<Event>, k: nat)
    requires k <= |lines| && !StrictlyIncreasing(lines[..k])
    ensures !StrictlyIncreasing(lines)
    decreases |lines|
  {
    if k < |lines| {
      var n := |lines| - 1;
      assert lines[..n][..k] == lines[..k];
      NotIncreasingBeyond(lines[..n], k);
    } else {
      assert lines[..k] == lines;
    }
  }

  /** The acceptance test `load` puts to the lines of the log file. */
  method ReadLines(lines: seq<Event>) returns (accepted: bool, sequence: nat)
    ensures accepted <==> StrictlyIncreasing(lines)
    ensures accepted && lines != [] ==> sequence == lines[|lines| - 1].number
    ensures lines == [] ==> sequence == 0
  {
    sequence := 0;
    for i := 0 to |lines|
      invariant StrictlyIncreasing(lines[..i])
      invariant sequence == if i == 0 then 0 else lines[i - 1].number
    {
      assert lines[..i + 1][..i] == lines[..i];
      if lines[i].number <= sequence {
        NotIncreasingBeyond(lines, i + 1);
        return false, sequence;
      }
      sequence := lines[i].number;
    }
    assert lines[..|lines|] == lines;
    accepted := true;
  }

  /** What `load` makes of the lines of the log file. */
  method ReadBack(lines: seq<Event>, maxEvents: nat) returns (refused: bool, last: nat, window: seq<Event>)
    ensures refused <==> !StrictlyIncreasing(lines)
    ensures !refused ==> last == if lines == [] then 0 else lines[|lines| - 1].number
    ensures window == Last(lines, maxEvents)
  {
    var accepted;
    accepted, last := ReadLines(lines);
    refused := !accepted;
    window := Trim(lines, maxEvents);
  }

  /** The fields of the store, with the ghost ones its invariant needs: every event the process knows of, whether a
      compaction ran after the window had moved past the event it was for, and every event that this process or any
      before it on these files has handed out. */
  datatype State = State(
    generation: string, sequence: nat, events: seq<Event>, chain: seq<Event>, stage: Stage,
    log: Option<seq<Event>>, generationFile: Option<string>, history: seq<Event>, lagged: bool,
    handed: set<Event>)
  {
    /** How much of the history has reached the log file. */
    function Durable(): int {
      |history| - |chain| + if stage.Waiting? then 0 else 1
    }
  }

  /** The lines on disk are a gap-free block of history ending at the last durable event, and whatever
      generation the disk names is the one in use. */
  predicate DiskSound(st: State) {
    && 0 <= st.Durable() <= |st.history|
    && (st.log.None? ==> st.Durable() == 0)
    && (st.log.Some? ==> IsBlock(st.log.value, st.history, st.Durable()))
    && (st.log.Some? && !st.lagged && st.Durable() > 0 ==> |st.log.value| > 0)
    && (st.generationFile.Some? ==> st.generationFile.value == "" || st.generationFile.value == st.generation)
    && (st.stage.SnapshotWritten? ==> IsBlock(st.stage.lines, st.history, st.Durable()))
    && (st.stage.SnapshotWritten? && !st.lagged ==> |st.stage.lines| > 0)
  }

  predicate MemorySound(st: State, maxEvents: nat) {
    && st.generation != "" && OfGeneration(st.history, st.generation)
    && Consecutive(st.history)
    && st.sequence == (if st.history == [] then 0 else st.history[|st.history| - 1].number)
    && IsWindow(st.events, st.history, maxEvents)
    && IsBlock(st.chain, st.history, |st.history|)
    && (!st.stage.Waiting? ==> |st.chain| > 0)
  }

  /** Some process has given this number to an event of this generation. */
  ghost predicate HandedOut(handed: set<Event>, generation: string, number: nat) {
    exists e | e in handed :: e.generation == generation && e.number == number
  }

  /** Whoever handed out a number handed out all lower ones of that generation before, or found them handed out. */
  ghost predicate HandedSound(handed: set<Event>, history: seq<Event>) {
    && (forall e | e in history :: e in handed)
    && (forall e, n: nat | e in handed && 1 <= n <= e.number :: HandedOut(handed, e.generation, n))
  }

  ghost predicate Sound(st: State, maxEvents: nat) {
    MemorySound(st, maxEvents) && DiskSound(st) && HandedSound(st.handed, st.history)
  }

  function Appended(st: State, line: string, maxEvents: nat): State {
    var event := Event(st.sequence + 1, st.generation, line);
    st.(sequence := event.number, events := Last(st.events + [event], maxEvents),
        chain := st.chain + [event], history := st.history + [event],
        handed := st.handed + {event})
  }

  lemma AppendedIsSound(st: State, line: string, maxEvents: nat)
    requires Sound(st, maxEvents)
    ensures Sound(Appended(st, line, maxEvents), maxEvents)
    ensures Appended(st, line, maxEvents).Durable() == st.Durable()
  {
    MemoryStaysSound(st, line, maxEvents);
    DiskStaysSound(st, line, maxEvents);
    HandedStaysSound(st, line, maxEvents);
  }

  lemma HandedStaysSound(st: State, line: string, maxEvents: nat)
    requires MemorySound(st, maxEvents) && HandedSound(st.handed, st.history)
    ensures var next := Appended(st, line, maxEvents); HandedSound(next.handed, next.history)
  {
    var event := Event(st.sequence + 1, st.generation, line);
    var handed := st.handed + {event};
    forall e, n: nat | e in handed && 1 <= n <= e.number ensures HandedOut(handed, e.generation, n) {
      if e == event && n == event.number {
        assert event in handed;
      } else {
        var earlier := if e == event then st.history[|st.history| - 1] else e;
        assert earlier in st.handed && HandedOut(st.handed, earlier.generation, n);
        var f :| f in st.handed && f.generation == earlier.generation && f.number == n;
        assert f in handed;
      }
    }
  }

  lemma MemoryStaysSound(st: State, line: string, maxEvents: nat)
    requires MemorySound(st, maxEvents)
    ensures MemorySound(Appended(st, line, maxEvents), maxEvents)
  {
    var event := Event(st.sequence + 1, st.generation, line);
    var next := Appended(st, line, maxEvents);
    AppendToHistory(st.history, event);
    WindowSlides(st.events, st.history, event, maxEvents);
    BlockOfLonger(st.chain, st.history, |st.history|, event);
    assert next.history == st.history + [event] && next.chain == st.chain + [event];
    assert next.history[|next.history| - 1] == event && |next.history| == |st.history| + 1;
  }

  lemma DiskStaysSound(st: State, line: string, maxEvents: nat)
    requires DiskSound(st)
    ensures DiskSound(Appended(st, line, maxEvents))
  {
    var event := Event(st.sequence + 1, st.generation, line);
    if st.log.Some? {
      BlockOfLonger(st.log.value, st.history, st.Durable(), event);
    }
    if st.stage.SnapshotWritten? {
      BlockOfLonger(st.stage.lines, st.history, st.Durable(), event);
    }
  }

  /** The lines of the log file; an absent file has none. */
  function Lines(st: State): seq<Event> {
    if st.log.Some? then st.log.value else []
  }

  /** The store of a process that has read `lines`, of which `window` stays in memory. */
  function TakenOver(st: State, newGeneration: string, lines: seq<Event>, last: nat, window: seq<Event>): State {
    State(if st.generationFile.Some? && st.generationFile.value != "" then st.generationFile.value
          else if window != [] then window[0].generation else newGeneration,
          last, window, [], Waiting, st.log, st.generationFile, lines, window == [] && lines != [], st.handed)
  }

  /** The store a process has built when it has loaded the files of `st`, compacted or not. */
  function Loaded(st: State, newGeneration: string, maxEvents: nat, compacted: bool): State {
    var lines := Lines(st);
    var window := Last(lines, maxEvents);
    var last := if lines == [] then 0 else lines[|lines| - 1].number;
    TakenOver(st.(log := if compacted then Some(window) else st.log), newGeneration, lines, last, window)
  }

  lemma CompactedIsSound(st: State, window: seq<Event>, maxEvents: nat)
    requires Sound(st, maxEvents) && maxEvents > 0 && st.log.Some? && window == Last(Lines(st), maxEvents)
    ensures Sound(st.(log := Some(window)), maxEvents)
  {
    var lines := Lines(st);
    forall i, j | 0 <= i < |window| && j == st.Durable() - |window| + i ensures window[i] == st.history[j] {
      assert window[i] == lines[|lines| - |window| + i];
    }
  }

  /** Whatever point the crash fell on, the next process accepts the files, resumes right after the last durable
      event in the same generation, and is sound again. */
  lemma LoadedIsSound(st: State, newGeneration: string, maxEvents: nat, compacted: bool)
    requires Sound(st, maxEvents) && newGeneration != "" && maxEvents > 0
    requires compacted ==> st.log.Some?
    ensures var next := Loaded(st, newGeneration, maxEvents, compacted);
            && StrictlyIncreasing(Lines(st))
            && (compacted ==> Sound(st.(log := next.log), maxEvents))
            && Sound(next, maxEvents) && next.Durable() == |next.history|
            && IsBlock(next.history, st.history, st.Durable())
            && IsBlock(next.events, st.history, st.Durable())
            && (!st.lagged ==>
                  && next.sequence == (if st.Durable() == 0 then 0 else st.history[st.Durable() - 1].number)
                  && (st.Durable() > 0 ==> next.generation == st.generation)
                  && !next.lagged)
  {
    var lines := Lines(st);
    var window := Last(lines, maxEvents);
    WindowOfLines(st, lines, window, maxEvents);
    BlockIsHanded(st.handed, st.history, lines, st.Durable());
    var last := if lines == [] then 0 else lines[|lines| - 1].number;
    TakenOverIsSound(st.(log := if compacted then Some(window) else st.log), st.generation, newGeneration, lines, last,
                     window, maxEvents);
    if compacted {
      CompactedIsSound(st, window, maxEvents);
    }
  }

  lemma {:induction false} WindowOfLines(st: State, lines: seq<Event>, window: seq<Event>, maxEvents: nat)
    requires Sound(st, maxEvents) && maxEvents > 0 && lines == Lines(st) && window == Last(lines, maxEvents)
    ensures StrictlyIncreasing(lines) && Consecutive(lines) && OfGeneration(lines, st.generation)
    ensures IsWindow(window, lines, maxEvents) && IsBlock(window, st.history, st.Durable())
    ensures IsBlock(lines, st.history, st.Durable())
    ensures window != [] ==> window[0].generation == st.generation
    ensures lines != [] ==> window != []
  {
    LinesAreConsecutive(lines, st.history, st.Durable(), st.generation);
    ConsecutiveIsIncreasing(lines);
    LastIsWindow(lines, maxEvents);
    BlockOfBlock(window, lines, st.history, st.Durable());
    if window != [] {
      assert window[0] == lines[|lines| - |window|];
    }
  }

  lemma TakenOverIsSound(st: State, generation: string, newGeneration: string, lines: seq<Event>, last: nat,
                         window: seq<Event>, maxEvents: nat)
    requires newGeneration != "" && generation != ""
    requires st.generationFile.Some? ==> st.generationFile.value in ["", generation]
    requires Consecutive(lines) && OfGeneration(lines, generation) && IsWindow(window, lines, maxEvents)
    requires last == if lines == [] then 0 else lines[|lines| - 1].number
    requires window != [] ==> window[0].generation == generation
    requires lines != [] ==> window != []
    requires if st.log.Some? then st.log.value in [lines, window] else lines == []
    requires HandedSound(st.handed, lines)
    ensures var next := TakenOver(st, newGeneration, lines, last, window);
            Sound(next, maxEvents) && next.Durable() == |next.history| && !next.lagged
  {
    var next := TakenOver(st, newGeneration, lines, last, window);
    assert MemorySound(next, maxEvents);
    assert DiskSound(next);
  }

  lemma BlockIsHanded(handed: set<Event>, history: seq<Event>, lines: seq<Event>, end: int)
    requires HandedSound(handed, history) && IsBlock(lines, history, end)
    ensures HandedSound(handed, lines)
  {
    forall e | e in lines ensures e in handed {
      var i :| 0 <= i < |lines| && lines[i] == e;
      assert history[end - |lines| + i] in history;
    }
  }

  /** The next event after a restart gets a number that an event of its generation already had, be it from the process
      that died or from one long before it. A client that saw that event takes the new one for a duplicate. */
  ghost predicate ReusesNumber(st: State, next: State) {
    HandedOut(st.handed, next.generation, next.sequence + 1)
  }

  /** Numbers are used again exactly when some process has handed out, in the generation that goes on, a number after
      the last one on disk. */
  lemma NumbersAreReusedExactly(st: State, newGeneration: string, maxEvents: nat, compacted: bool)
    requires Sound(st, maxEvents) && newGeneration != "" && maxEvents > 0
    requires compacted ==> st.log.Some?
    ensures var next := Loaded(st, newGeneration, maxEvents, compacted);
            && next.sequence == (if Lines(st) == [] then 0 else Lines(st)[|Lines(st)| - 1].number)
            && (ReusesNumber(st, next)
                <==> exists e | e in st.handed :: e.generation == next.generation && e.number > next.sequence)
  {
    var next := Loaded(st, newGeneration, maxEvents, compacted);
    if e :| e in st.handed && e.generation == next.generation && e.number > next.sequence {
      assert HandedOut(st.handed, e.generation, next.sequence + 1);
    }
  }

  /** The loss of an event outlives every restart: as long as the log is not empty, a later process reuses numbers
      exactly when the one before it did, although nothing was lost in between. */
  lemma LossIsInherited(st: State, first: string, second: string, maxEvents: nat, compacted: bool, again: bool)
    requires Sound(st, maxEvents) && first != "" && second != "" && maxEvents > 0
    requires (compacted ==> st.log.Some?) && (again ==> st.log.Some?) && Lines(st) != []
    ensures var next := Loaded(st, first, maxEvents, compacted);
            var later := Loaded(next, second, maxEvents, again);
            && Sound(next, maxEvents) && next.Durable() == |next.history|
            && (ReusesNumber(next, later) <==> ReusesNumber(st, next))
  {
    var next := Loaded(st, first, maxEvents, compacted);
    LoadedIsSound(st, first, maxEvents, compacted);
    LoadedGeneration(next, second, maxEvents, again);
    var lines, window := Lines(st), Last(Lines(st), maxEvents);
    assert window[|window| - 1] == lines[|lines| - 1];
  }

  lemma LoadedGeneration(st: State, newGeneration: string, maxEvents: nat, compacted: bool)
    requires Sound(st, maxEvents) && newGeneration != "" && maxEvents > 0
    ensures Loaded(st, newGeneration, maxEvents, compacted).generation == st.generation
       <==> Lines(st) != [] || st.generationFile == Some(st.generation) || newGeneration == st.generation
  {
    var lines := Lines(st);
    var window := Last(lines, maxEvents);
    LinesAreConsecutive(lines, st.history, st.Durable(), st.generation);
    if lines != [] {
      assert window[0] == lines[|lines| - |window|];
    }
  }

  /** While no compaction has lagged by a window, and something is durable, that is exactly when the crash lost an
      event, or an earlier one did and this process has not come to the numbers that were lost then. */
  lemma NumbersAreReusedExactlyAfterLoss(st: State, newGeneration: string, maxEvents: nat, compacted: bool)
    requires Sound(st, maxEvents) && newGeneration != "" && maxEvents > 0
    requires compacted ==> st.log.Some?
    requires !st.lagged && st.Durable() > 0
    ensures ReusesNumber(st, Loaded(st, newGeneration, maxEvents, compacted))
       <==> || st.Durable() < |st.history|
            || exists e | e in st.handed :: e.generation == st.generation && e.number > st.sequence
  {
    NumbersAreReusedExactly(st, newGeneration, maxEvents, compacted);
    LoadedIsSound(st, newGeneration, maxEvents, compacted);
    if st.Durable() < |st.history| {
      assert st.history[st.Durable()] in st.history;
    }
  }

  /** A log that a lagging compaction has emptied: everything counts as durable, and number 1 is given again. */
  lemma EmptiedLogReusesNumbers(st: State, newGeneration: string, maxEvents: nat)
    requires Sound(st, maxEvents) && newGeneration != "" && maxEvents > 0 && st.history != []
    requires st.log == Some([]) && st.generationFile == Some(st.generation)
    ensures var next := Loaded(st, newGeneration, maxEvents, false);
            next.sequence == 0 && next.generation == st.generation && ReusesNumber(st, next)
  {
    assert st.history[0] in st.history;
    assert HandedOut(st.handed, st.generation, 1);
  }

  class DurableEventStore {
    const maxEvents: nat
    const maxFileBytes: nat
    // In memory.
    var generation: string
    var sequence: nat
    var events: seq<Event>
    /** The write chain: events whose disk job has not finished, the running one first. */
    var chain: seq<Event>
    var stage: Stage
    /** A job threw: the rejected chain runs no further job. */
    var broken: bool
    // On disk.
    var log: Option<seq<Event>>
    var generationFile: Option<string>
    ghost var history: seq<Event>
    ghost var lagged: bool
    ghost var handed: set<Event>

    ghost function Now(): State
      reads this
    {
      State(generation, sequence, events, chain, stage, log, generationFile, history, lagged, handed)
    }

    /** How much of the history has reached the log file. */
    ghost function Durable(): int
      reads this
    {
      Now().Durable()
    }

    ghost predicate Valid()
      reads this
    {
      Sound(Now(), maxEvents) && maxEvents > 0
    }

    constructor (maxEvents: nat, maxFileBytes: nat, generation: string)
      requires generation != "" && maxEvents > 0
      ensures Valid() && Now() == State(generation, 0, [], [], Waiting, None, None, [], false, {})
      ensures !broken && this.maxEvents == maxEvents && this.maxFileBytes == maxFileBytes
    {
      this.maxEvents, this.maxFileBytes, this.generation := maxEvents, maxFileBytes, generation;
      sequence, events, chain, stage, broken := 0, [], [], Waiting, false;
      log, generationFile, history, lagged, handed := None, None, [], false, {};
    }

    method Push(line: string) returns (event: Event)
      modifies this`sequence, this`events, this`chain, this`history, this`handed
      ensures event == Event(old(sequence) + 1, generation, line)
      ensures Now() == Appended(old(Now()), line, maxEvents)
    {
      event := Event(sequence + 1, generation, line);
      var window := Trim(events + [event], maxEvents);
      sequence, events, chain := event.number, window, chain + [event];
      history, handed := history + [event], handed + {event};
    }

    method Append(line: string) returns (event: Event)
      requires Valid()
      modifies this`sequence, this`events, this`chain, this`history, this`handed
      ensures Valid()
      ensures event == Event(old(sequence) + 1, generation, line)
      ensures Now() == Appended(old(Now()), line, maxEvents) && Durable() == old(Durable())
    {
      AppendedIsSound(Now(), line, maxEvents);
      event := Push(line);
    }

    method WriteLine()
      requires Valid() && !broken && chain != [] && stage.Waiting?
      modifies this`stage, this`log
      ensures Valid() && stage == LineWritten
      ensures log == Some((if old(log).Some? then old(log).value else []) + [chain[0]])
      ensures Durable() == old(Durable()) + 1
    {
      assert history[Durable()] == chain[0];
      log := Some((if log.Some? then log.value else []) + [chain[0]]);
      stage := LineWritten;
    }

    /** `writeFile` empties the generation file before it writes it. */
    method TruncateGeneration()
      requires Valid() && !broken && stage == LineWritten
      modifies this`stage, this`generationFile
      ensures Valid() && stage == GenerationTruncated && generationFile == Some("")
    {
      generationFile := Some("");
      stage := GenerationTruncated;
    }

    method WriteGeneration()
      requires Valid() && !broken && stage == GenerationTruncated
      modifies this`stage, this`generationFile
      ensures Valid() && stage == GenerationWritten && generationFile == Some(generation)
    {
      generationFile := Some(generation);
      stage := GenerationWritten;
    }

    /** `compactIfNeeded`: either the file is small enough and the job is done, or a snapshot of the window is
        written beside it. The window may have moved on since the job was queued. */
    method CompactIfNeeded()
      requires Valid() && !broken && stage == GenerationWritten
      modifies this`stage, this`chain, this`lagged
      ensures Valid() && Durable() == old(Durable())
      ensures FileSize(log.value) <= maxFileBytes ==>
                stage == Waiting && chain == old(chain)[1..] && lagged == old(lagged)
      ensures FileSize(log.value) > maxFileBytes ==>
                stage == SnapshotWritten(UpTo(events, old(chain)[0].number)) && chain == old(chain)
      ensures FileSize(log.value) > maxFileBytes ==> lagged == (old(lagged) || |chain| > maxEvents)
    {
      if FileSize(log.value) <= maxFileBytes {
        chain, stage := chain[1..], Waiting;
      } else {
        assert chain[0] == history[Durable() - 1];
        SnapshotKeepsTheEnd(events, history, maxEvents, Durable());
        stage := SnapshotWritten(UpTo(events, chain[0].number));
        lagged := lagged || |chain| > maxEvents;
      }
    }

    method RenameSnapshot()
      requires Valid() && !broken && stage.SnapshotWritten?
      modifies this`stage, this`chain, this`log
      ensures Valid() && stage == Waiting && chain == old(chain)[1..] && Durable() == old(Durable())
      ensures log == Some(old(stage).lines)
    {
      log := Some(stage.lines);
      chain, stage := chain[1..], Waiting;
    }

    /** A step of the running job throws: the chain is rejected and every later job is skipped. */
    method JobThrows()
      requires Valid()
      modifies this`broken
      ensures Valid() && broken
    {
      broken := true;
    }

    /** The memory of a process that has read `lines` and keeps `window` of them. */
    method Adopt(newGeneration: string, lines: seq<Event>, last: nat, window: seq<Event>)
      modifies this
      ensures !broken
      ensures Now() == TakenOver(old(Now()), newGeneration, lines, last, window)
    {
      if generationFile.Some? && generationFile.value != "" {
        generation := generationFile.value;
      } else {
        generation := if window != [] then window[0].generation else newGeneration;
      }
      sequence, events, chain, stage, broken := last, window, [], Waiting, false;
      history, lagged := lines, window == [] && lines != [];
    }

    /** Reads the files and, when the log is too long, replaces it by what the window keeps of it. */
    method ReadAndCompact(env: Environment, lines: seq<Event>, window: seq<Event>, compacting: bool)
      returns (s: Status)
      requires compacting ==> log.Some?
      modifies this`log, env
      ensures s.Returned? ==> log == if compacting then Some(window) else old(log)
      ensures s.Threw? ==> log == old(log)
      ensures s.Crashed? ==> log == old(log) || (compacting && log == Some(window))
      ensures old(env.clock) < env.clock
      ensures s.Returned? <==> env.Smooth(old(env.clock), env.clock)
    {
      s := Returned;
      :- env.Attempt();                                    // the generation file
      :- env.Attempt();                                    // the log
      if compacting {
        :- env.Attempt();                                  // writeFile of the temporary
        var e := env.Next();                               // rename
        if e.TakesEffect() {
          log := Some(window);
        }
        s := e.AsStatus();
      }
    }

    /** `load`: a log that is not strictly increasing is refused, any other is taken over. */
    method Load(env: Environment, newGeneration: string) returns (s: Status, refused: bool)
      modifies this, env
      ensures refused <==> !StrictlyIncreasing(Lines(old(Now())))
      ensures refused ==> s.Threw?
      ensures s.Returned? ==> !broken
      ensures s.Returned? ==>
                Now() == Loaded(old(Now()), newGeneration, maxEvents,
                                old(log).Some? && FileSize(old(log).value) > maxFileBytes)
      ensures !s.Returned? ==> Now() == old(Now()).(log := log)
      ensures s.Threw? ==> log == old(log)
      ensures s.Crashed? ==> log == old(log) || (old(log).Some? && log == Some(Last(old(log).value, maxEvents)))
      ensures old(env.clock) <= env.clock
      ensures s.Returned? <==> !refused && env.Smooth(old(env.clock), env.clock)
    {
      var lines := if log.Some? then log.value else [];
      var last, window;
      refused, last, window := ReadBack(lines, maxEvents);
      if refused {
        return Threw, refused;
      }
      ghost var was := Now();
      s := ReadAndCompact(env, lines, window, log.Some? && FileSize(lines) > maxFileBytes);
      assert Now() == was.(log := log);
      if s.Returned? {
        Adopt(newGeneration, lines, last, window);
      }
    }

    /** A new process, constructed with `newGeneration`, opens the files that a crash at any point left, and succeeds
        whenever no operation fails. A load that dies leaves files the next process can load just as well. */
    method Restart(env: Environment, newGeneration: string) returns (s: Status)
      requires Valid() && newGeneration != ""
      modifies this, env
      ensures Valid()
      ensures s.Returned? ==> !broken
      ensures s.Returned? ==>
                Now() == Loaded(old(Now()), newGeneration, maxEvents,
                                old(log).Some? && FileSize(old(log).value) > maxFileBytes)
      ensures !s.Returned? ==> Now() == old(Now()).(log := log)
      ensures old(env.clock) <= env.clock
      ensures s.Returned? <==> env.Smooth(old(env.clock), env.clock)
    {
      ghost var was := Now();
      LoadedIsSound(was, newGeneration, maxEvents, log.Some?);
      LoadedIsSound(was, newGeneration, maxEvents, false);
      var refused;
      s, refused := Load(env, newGeneration);
      assert !refused;
    }
  }

  /** Two events are appended before the first one's job has begun; the window holds one. */
  method TwoWaiting(generation: string, first: string, second: string)
    returns (store: DurableEventStore, e: Event, f: Event)
    requires generation != ""
    ensures fresh(store) && store.Valid() && !store.broken && store.maxFileBytes == 0 && store.generation == generation
    ensures e == Event(1, generation, first) && f == Event(2, generation, second)
    ensures store.history == [e, f] == store.chain && store.events == [f] && store.stage == Waiting && store.log == None
  {
    store := new DurableEventStore(1, 0, generation);
    e := store.Append(first);
    assert [] + [e] == [e];
    f := store.Append(second);
    assert [e] + [f] == [e, f] && Last([e, f], 1) == [f];
  }

  /** Then the job compacts, and the log is empty on disk while its generation is named there. */
  method LaggingCompactionEmptiesLog(generation: string, first: string, second: string)
    returns (store: DurableEventStore)
    requires generation != ""
    ensures fresh(store) && store.Valid() && store.log == Some([]) && store.generationFile == Some(store.generation)
    ensures |store.history| == 2 && store.history[0].number == 1
  {
    var e, f;
    store, e, f := TwoWaiting(generation, first, second);
    store.WriteLine();
    store.TruncateGeneration();
    store.WriteGeneration();
    CompactedAway(e, f);
    CompactEmpty(store, e, f);
  }

  method CompactEmpty(store: DurableEventStore, e: Event, f: Event)
    requires store.Valid() && !store.broken && store.stage == GenerationWritten && store.log == Some([e])
    requires store.chain == [e, f] && store.events == [f] && store.maxFileBytes == 0
    requires FileSize([e]) > 0 && UpTo([f], e.number) == []
    modifies store
    ensures store.Valid() && store.log == Some([])
    ensures store.generationFile == old(store.generationFile) && store.generation == old(store.generation)
    ensures store.history == old(store.history)
  {
    store.CompactIfNeeded();
    store.RenameSnapshot();
  }

  lemma CompactedAway(e: Event, f: Event)
    requires e.number == 1 && f.number == 2
    ensures [] + [e] == [e] && FileSize([e]) > 0 && UpTo([f], 1) == []
  {
    SplitAtNumber([f], 1, 0);
  }
}
