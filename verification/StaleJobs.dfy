/** Jobs that were running when the daemon stopped are declared interrupted at its next start: `hydrateStaleJobs`
    over the event log (packages/remote-daemon/src/index.ts). */
module StaleJobs {
  import opened Prelude

  datatype Job = Job(id: string, kind: string, status: string, startedAt: Option<int>, finishedAt: Option<int>)

  datatype Event =
    | TaskUpdated(sessionId: string, jobs: seq<Job>)
    | JobInterrupted(sessionId: string, jobId: string, kind: string)
    | OtherEvent

  /** A job with the session that reported it last. */
  datatype Tracked = Tracked(sessionId: string, job: Job)

  predicate Stale(job: Job) {
    job.status == "running" || job.status == "stopping"
  }

  // ----- The jobs in a log -----

  /** `Map.set`: the place of a known job stays. */
  function Put(ts: seq<Tracked>, t: Tracked): seq<Tracked> {
    if ts == [] then [t]
    else if ts[0].job.id == t.job.id then [t] + ts[1..]
    else [ts[0]] + Put(ts[1..], t)
  }

  function PutAll(ts: seq<Tracked>, sessionId: string, jobs: seq<Job>): seq<Tracked>
    decreases |jobs|
  {
    if jobs == [] then ts else PutAll(Put(ts, Tracked(sessionId, jobs[0])), sessionId, jobs[1..])
  }

  /** The latest state of every job, after the jobs `ts`. */
  function FoldFrom(ts: seq<Tracked>, events: seq<Event>): seq<Tracked>
    decreases |events|
  {
    if events == [] then ts
    else
      var now := if events[0].TaskUpdated? then PutAll(ts, events[0].sessionId, events[0].jobs) else ts;
      FoldFrom(now, events[1..])
  }

  function Fold(events: seq<Event>): seq<Tracked> {
    FoldFrom([], events)
  }

  function Lookup(ts: seq<Tracked>, id: string): (t: Option<Tracked>)
    ensures t.Some? ==> t.value in ts && t.value.job.id == id
  {
    if ts == [] then None else if ts[0].job.id == id then Some(ts[0]) else Lookup(ts[1..], id)
  }

  predicate DistinctJobs(ts: seq<Tracked>) {
    ts != [] ==> Lookup(ts[1..], ts[0].job.id) == None && DistinctJobs(ts[1..])
  }

  // ----- What is appended -----

  datatype Group = Group(sessionId: string, jobs: seq<Job>)

  /** `Map.set` of a list with one more job; a new session goes to the end. */
  function AddTo(groups: seq<Group>, sessionId: string, job: Job): seq<Group> {
    if groups == [] then [Group(sessionId, [job])]
    else if groups[0].sessionId == sessionId then [groups[0].(jobs := groups[0].jobs + [job])] + groups[1..]
    else [groups[0]] + AddTo(groups[1..], sessionId, job)
  }

  /** The job as it is declared; `clock` is the time read for it. */
  function Interrupted(job: Job, clock: string -> int): Job {
    job.(status := "interrupted", finishedAt := Some(clock(job.id)))
  }

  function GroupFrom(groups: seq<Group>, ts: seq<Tracked>, clock: string -> int): seq<Group>
    decreases |ts|
  {
    if ts == [] then groups
    else
      var now := if Stale(ts[0].job) then AddTo(groups, ts[0].sessionId, Interrupted(ts[0].job, clock)) else groups;
      GroupFrom(now, ts[1..], clock)
  }

  function Interrupts(sessionId: string, jobs: seq<Job>): seq<Event> {
    if jobs == [] then [] else [JobInterrupted(sessionId, jobs[0].id, jobs[0].kind)] + Interrupts(sessionId, jobs[1..])
  }

  function EmittedBy(g: Group): seq<Event> {
    [TaskUpdated(g.sessionId, g.jobs)] + Interrupts(g.sessionId, g.jobs)
  }

  function Emitted(groups: seq<Group>): seq<Event> {
    if groups == [] then [] else EmittedBy(groups[0]) + Emitted(groups[1..])
  }

  /** The events that a start appends. */
  function Hydration(log: seq<Event>, clock: string -> int): seq<Event> {
    Emitted(GroupFrom([], Fold(Oldest(log)), clock))
  }

  // ----- The running program -----

  /** The window of the event log that is kept in memory. */
  function Window(events: seq<Event>, maxEvents: nat): seq<Event> {
    if |events| <= maxEvents then events else events[|events| - maxEvents..]
  }

  class ControlPlane {
    var log: seq<Event>
    const maxEvents: nat

    constructor (maxEvents: nat)
      ensures log == [] && this.maxEvents == maxEvents
    {
      log := [];
      this.maxEvents := maxEvents;
    }

    method Append(e: Event)
      modifies this
      ensures log == Window(old(log) + [e], maxEvents)
    {
      log := log + [e];
      if |log| > maxEvents {
        log := log[|log| - maxEvents..];
      }
    }

    method HydrateStaleJobs(clock: string -> int)
      requires |log| <= maxEvents
      modifies this
      ensures log == Window(old(log) + Hydration(old(log), clock), maxEvents)
    {
      var latestByJob := Collect(Oldest(log));
      var bySession := GroupStale(latestByJob, clock);
      AppendGroups(bySession);
    }

    method AppendGroups(groups: seq<Group>)
      requires |log| <= maxEvents
      modifies this
      ensures log == Window(old(log) + Emitted(groups), maxEvents)
    {
      ghost var was, done: seq<Event> := log, [];
      ghost var rest, whole := groups, Emitted(groups);
      for i := 0 to |groups|
        invariant rest == groups[i..] && done + Emitted(rest) == whole
        invariant log == Window(was + done, maxEvents)
      {
        EmittedStep(groups, i, rest, done);
        done := AppendGroup(groups[i], was, done);
        rest := groups[i + 1..];
      }
      assert rest == [] && Emitted(rest) == [];
      assert done + [] == done;
      assert done == whole;
    }

    method AppendGroup(g: Group, ghost was: seq<Event>, ghost done: seq<Event>) returns (ghost now: seq<Event>)
      requires log == Window(was + done, maxEvents)
      modifies this
      ensures log == Window(was + now, maxEvents) && now == done + EmittedBy(g)
    {
      ghost var first := [TaskUpdated(g.sessionId, g.jobs)];
      WindowStep(was, done, first, maxEvents);
      Append(TaskUpdated(g.sessionId, g.jobs));
      now := AppendInterrupts(g.sessionId, g.jobs, was, done + first);
      assert done + first + Interrupts(g.sessionId, g.jobs) == done + EmittedBy(g);
    }

    method AppendInterrupts(sessionId: string, jobs: seq<Job>, ghost was: seq<Event>, ghost done: seq<Event>)
      returns (ghost now: seq<Event>)
      requires log == Window(was + done, maxEvents)
      modifies this
      ensures log == Window(was + now, maxEvents) && now == done + Interrupts(sessionId, jobs)
    {
      now := done;
      for i := 0 to |jobs|
        invariant now + Interrupts(sessionId, jobs[i..]) == done + Interrupts(sessionId, jobs)
        invariant log == Window(was + now, maxEvents)
      {
        InterruptsStep(sessionId, jobs, i, now);
        var e := JobInterrupted(sessionId, jobs[i].id, jobs[i].kind);
        WindowStep(was, now, [e], maxEvents);
        Append(e);
        now := now + [e];
      }
    }
  }

  lemma {:induction false} EmittedStep(groups: seq<Group>, i: nat, rest: seq<Group>, done: seq<Event>)
    requires i < |groups| && rest == groups[i..]
    ensures done + Emitted(rest) == done + EmittedBy(groups[i]) + Emitted(groups[i + 1..])
  {
    assert rest[1..] == groups[i + 1..];
  }

  lemma {:induction false} InterruptsStep(sessionId: string, jobs: seq<Job>, i: nat, done: seq<Event>)
    requires i < |jobs|
    ensures done + Interrupts(sessionId, jobs[i..])
         == done + [JobInterrupted(sessionId, jobs[i].id, jobs[i].kind)] + Interrupts(sessionId, jobs[i + 1..])
  {
    assert jobs[i..][1..] == jobs[i + 1..];
  }

  lemma WindowStep(was: seq<Event>, done: seq<Event>, more: seq<Event>, maxEvents: nat)
    ensures Window(Window(was + done, maxEvents) + more, maxEvents) == Window(was + (done + more), maxEvents)
  {
    Regroup(was, done, more);
    WindowTwice(was + done, more, maxEvents);
  }

  lemma WindowTwice(a: seq<Event>, b: seq<Event>, maxEvents: nat)
    ensures Window(Window(a, maxEvents) + b, maxEvents) == Window(a + b, maxEvents)
  {
  }

  method Collect(events: seq<Event>) returns (latestByJob: seq<Tracked>)
    ensures latestByJob == Fold(events)
  {
    latestByJob := [];
    for i := 0 to |events|
      invariant FoldFrom(latestByJob, events[i..]) == Fold(events)
    {
      assert events[i..][0] == events[i] && events[i..][1..] == events[i + 1..];
      if events[i].TaskUpdated? {
        latestByJob := SetAll(latestByJob, events[i].sessionId, events[i].jobs);
      }
    }
  }

  method SetAll(ts: seq<Tracked>, sessionId: string, jobs: seq<Job>) returns (now: seq<Tracked>)
    ensures now == PutAll(ts, sessionId, jobs)
  {
    now := ts;
    for i := 0 to |jobs|
      invariant PutAll(now, sessionId, jobs[i..]) == PutAll(ts, sessionId, jobs)
    {
      assert jobs[i..][0] == jobs[i] && jobs[i..][1..] == jobs[i + 1..];
      now := Put(now, Tracked(sessionId, jobs[i]));
    }
  }

  method GroupStale(ts: seq<Tracked>, clock: string -> int) returns (bySession: seq<Group>)
    ensures bySession == GroupFrom([], ts, clock)
  {
    bySession := [];
    for i := 0 to |ts|
      invariant GroupFrom(bySession, ts[i..], clock) == GroupFrom([], ts, clock)
    {
      assert ts[i..][0] == ts[i] && ts[i..][1..] == ts[i + 1..];
      var job := ts[i].job;
      if job.status == "running" || job.status == "stopping" {
        var now := clock(job.id);
        bySession :=
          AddTo(bySession, ts[i].sessionId, Job(job.id, job.kind, "interrupted", job.startedAt, Some(now)));
      }
    }
  }

  // ----- Looking up jobs -----

  lemma {:induction false} PutLookup(ts: seq<Tracked>, t: Tracked, id: string)
    requires DistinctJobs(ts)
    ensures Lookup(Put(ts, t), id) == if id == t.job.id then Some(t) else Lookup(ts, id)
    ensures DistinctJobs(Put(ts, t))
  {
    if ts != [] {
      PutLookup(ts[1..], t, id);
      PutLookup(ts[1..], t, ts[0].job.id);
      assert ([t] + ts[1..])[1..] == ts[1..];
      assert ([ts[0]] + Put(ts[1..], t))[1..] == Put(ts[1..], t);
    }
  }

  /** The last report of a job in a list. */
  function LastReport(sessionId: string, jobs: seq<Job>, id: string, otherwise: Option<Tracked>): Option<Tracked> {
    if jobs == [] then otherwise
    else LastReport(sessionId, jobs[1..], id, if jobs[0].id == id then Some(Tracked(sessionId, jobs[0])) else otherwise)
  }

  lemma {:induction false} PutAllLookup(ts: seq<Tracked>, sessionId: string, jobs: seq<Job>, id: string)
    requires DistinctJobs(ts)
    ensures Lookup(PutAll(ts, sessionId, jobs), id) == LastReport(sessionId, jobs, id, Lookup(ts, id))
    ensures DistinctJobs(PutAll(ts, sessionId, jobs))
    decreases |jobs|
  {
    if jobs != [] {
      PutLookup(ts, Tracked(sessionId, jobs[0]), id);
      PutAllLookup(Put(ts, Tracked(sessionId, jobs[0])), sessionId, jobs[1..], id);
    }
  }

  /** What a log says of a job, when `before` was said before. */
  function Said(events: seq<Event>, id: string, before: Option<Tracked>): Option<Tracked> {
    if events == [] then before
    else
      Said(events[1..], id,
           if events[0].TaskUpdated? then LastReport(events[0].sessionId, events[0].jobs, id, before) else before)
  }

  lemma {:induction false} FoldLookup(ts: seq<Tracked>, events: seq<Event>, id: string)
    requires DistinctJobs(ts)
    ensures Lookup(FoldFrom(ts, events), id) == Said(events, id, Lookup(ts, id))
    ensures DistinctJobs(FoldFrom(ts, events))
    decreases |events|
  {
    if events != [] {
      if events[0].TaskUpdated? {
        PutAllLookup(ts, events[0].sessionId, events[0].jobs, id);
        FoldLookup(PutAll(ts, events[0].sessionId, events[0].jobs), events[1..], id);
      } else {
        FoldLookup(ts, events[1..], id);
      }
    }
  }

  lemma {:induction false} SaidConcat(a: seq<Event>, b: seq<Event>, id: string, before: Option<Tracked>)
    ensures Said(a + b, id, before) == Said(b, id, Said(a, id, before))
    decreases |a|
  {
    if a == [] {
      assert a + b == b;
    } else {
      assert (a + b)[1..] == a[1..] + b;
      var now := if a[0].TaskUpdated? then LastReport(a[0].sessionId, a[0].jobs, id, before) else before;
      SaidConcat(a[1..], b, id, now);
    }
  }

  // ----- Looking up what is appended -----

  function Reports(jobs: seq<Job>, id: string): nat {
    if jobs == [] then 0 else (if jobs[0].id == id then 1 else 0) + Reports(jobs[1..], id)
  }

  /** How often a job is reported in a log. */
  function Updates(events: seq<Event>, id: string): nat {
    if events == [] then 0
    else (if events[0].TaskUpdated? then Reports(events[0].jobs, id) else 0) + Updates(events[1..], id)
  }

  /** How often a job is declared interrupted. */
  function Interruptions(events: seq<Event>, id: string): nat {
    if events == [] then 0
    else (if events[0].JobInterrupted? && events[0].jobId == id then 1 else 0) + Interruptions(events[1..], id)
  }

  function InGroups(groups: seq<Group>, id: string): nat {
    if groups == [] then 0 else Reports(groups[0].jobs, id) + InGroups(groups[1..], id)
  }

  function GroupsSay(groups: seq<Group>, id: string, before: Option<Tracked>): Option<Tracked>
    decreases |groups|
  {
    if groups == [] then before
    else GroupsSay(groups[1..], id, LastReport(groups[0].sessionId, groups[0].jobs, id, before))
  }

  lemma {:induction false} Unreported(sessionId: string, jobs: seq<Job>, id: string, before: Option<Tracked>)
    requires Reports(jobs, id) == 0
    ensures LastReport(sessionId, jobs, id, before) == before
  {
    if jobs != [] {
      Unreported(sessionId, jobs[1..], id, before);
    }
  }

  lemma {:induction false} Unsaid(events: seq<Event>, id: string, before: Option<Tracked>)
    requires Updates(events, id) == 0
    ensures Said(events, id, before) == before
  {
    if events != [] {
      if events[0].TaskUpdated? {
        Unreported(events[0].sessionId, events[0].jobs, id, before);
      }
      Unsaid(events[1..], id, before);
    }
  }

  lemma {:induction false} NotInGroups(groups: seq<Group>, id: string, before: Option<Tracked>)
    requires InGroups(groups, id) == 0
    ensures GroupsSay(groups, id, before) == before
  {
    if groups != [] {
      Unreported(groups[0].sessionId, groups[0].jobs, id, before);
      NotInGroups(groups[1..], id, before);
    }
  }

  lemma {:induction false} OneMoreReport(sessionId: string, jobs: seq<Job>, job: Job, id: string,
                                         before: Option<Tracked>)
    ensures Reports(jobs + [job], id) == Reports(jobs, id) + (if id == job.id then 1 else 0)
    ensures LastReport(sessionId, jobs + [job], id, before)
         == if id == job.id then Some(Tracked(sessionId, job)) else LastReport(sessionId, jobs, id, before)
    decreases |jobs|
  {
    if jobs == [] {
      assert jobs + [job] == [job] && [job][1..] == [];
    } else {
      assert (jobs + [job])[1..] == jobs[1..] + [job];
      OneMoreReport(sessionId, jobs[1..], job, id,
                    if jobs[0].id == id then Some(Tracked(sessionId, jobs[0])) else before);
    }
  }

  lemma {:induction false} AddToSays(groups: seq<Group>, sessionId: string, job: Job, id: string,
                                     before: Option<Tracked>)
    requires InGroups(groups, job.id) == 0
    ensures InGroups(AddTo(groups, sessionId, job), id) == InGroups(groups, id) + (if id == job.id then 1 else 0)
    ensures GroupsSay(AddTo(groups, sessionId, job), id, before)
         == if id == job.id then Some(Tracked(sessionId, job)) else GroupsSay(groups, id, before)
    decreases |groups|
  {
    if groups == [] {
      OneMoreReport(sessionId, [], job, id, before);
      assert [] + [job] == [job];
      assert [Group(sessionId, [job])][1..] == [];
    } else if groups[0].sessionId == sessionId {
      var g := groups[0].(jobs := groups[0].jobs + [job]);
      OneMoreReport(sessionId, groups[0].jobs, job, id, before);
      assert ([g] + groups[1..])[1..] == groups[1..];
      if id == job.id {
        NotInGroups(groups[1..], id, Some(Tracked(sessionId, job)));
      }
    } else {
      var rest := AddTo(groups[1..], sessionId, job);
      assert ([groups[0]] + rest)[1..] == rest;
      AddToSays(groups[1..], sessionId, job, id, LastReport(groups[0].sessionId, groups[0].jobs, id, before));
    }
  }

  /** What a start says of a job of which `t` is known. */
  function Declared(t: Option<Tracked>, clock: string -> int): Option<Tracked> {
    if t.Some? && Stale(t.value.job) then Some(Tracked(t.value.sessionId, Interrupted(t.value.job, clock))) else t
  }

  predicate IsStale(t: Option<Tracked>) {
    t.Some? && Stale(t.value.job)
  }

  lemma {:induction false} GroupFromSays(groups: seq<Group>, ts: seq<Tracked>, clock: string -> int, id: string,
                                         before: Option<Tracked>)
    requires DistinctJobs(ts) && forall t | t in ts :: InGroups(groups, t.job.id) == 0
    ensures var now, t := GroupFrom(groups, ts, clock), Lookup(ts, id);
            && InGroups(now, id) == InGroups(groups, id) + (if IsStale(t) then 1 else 0)
            && GroupsSay(now, id, before) == if IsStale(t) then Declared(t, clock) else GroupsSay(groups, id, before)
    decreases |ts|
  {
    if ts != [] {
      var t := ts[0];
      assert t in ts;
      if Stale(t.job) {
        var job := Interrupted(t.job, clock);
        var now := AddTo(groups, t.sessionId, job);
        forall u | u in ts[1..] ensures InGroups(now, u.job.id) == 0 {
          AddToSays(groups, t.sessionId, job, u.job.id, before);
          LookupFinds(ts[1..], u);
        }
        AddToSays(groups, t.sessionId, job, id, before);
        GroupFromSays(now, ts[1..], clock, id, before);
      } else {
        GroupFromSays(groups, ts[1..], clock, id, before);
      }
    }
  }

  lemma {:induction false} LookupFinds(ts: seq<Tracked>, t: Tracked)
    requires t in ts
    ensures Lookup(ts, t.job.id).Some? && (DistinctJobs(ts) ==> Lookup(ts, t.job.id) == Some(t))
  {
    if t != ts[0] {
      LookupFinds(ts[1..], t);
    }
  }

  lemma {:induction false} InterruptsSay(sessionId: string, jobs: seq<Job>, id: string)
    ensures Updates(Interrupts(sessionId, jobs), id) == 0
    ensures Interruptions(Interrupts(sessionId, jobs), id) == Reports(jobs, id)
  {
    if jobs != [] {
      InterruptsSay(sessionId, jobs[1..], id);
    }
  }

  lemma {:induction false} CountConcat(a: seq<Event>, b: seq<Event>, id: string)
    ensures Updates(a + b, id) == Updates(a, id) + Updates(b, id)
    ensures Interruptions(a + b, id) == Interruptions(a, id) + Interruptions(b, id)
    decreases |a|
  {
    if a == [] {
      assert a + b == b;
    } else {
      assert (a + b)[1..] == a[1..] + b;
      CountConcat(a[1..], b, id);
    }
  }

  lemma {:induction false} EmittedSays(groups: seq<Group>, id: string, before: Option<Tracked>)
    ensures Updates(Emitted(groups), id) == Interruptions(Emitted(groups), id) == InGroups(groups, id)
    ensures Said(Emitted(groups), id, before) == GroupsSay(groups, id, before)
    decreases |groups|
  {
    if groups != [] {
      var g, rest := groups[0], Emitted(groups[1..]);
      var first, interrupts := [TaskUpdated(g.sessionId, g.jobs)], Interrupts(g.sessionId, g.jobs);
      var now := LastReport(g.sessionId, g.jobs, id, before);
      assert first[1..] == [];
      InterruptsSay(g.sessionId, g.jobs, id);
      Unsaid(interrupts, id, now);
      CountConcat(first, interrupts, id);
      CountConcat(first + interrupts, rest, id);
      SaidConcat(first, interrupts, id, before);
      SaidConcat(first + interrupts, rest, id, before);
      EmittedSays(groups[1..], id, now);
    }
  }

  /** The events appended at a start, as seen from one job. */
  lemma {:induction false} HydrationSays(log: seq<Event>, clock: string -> int, id: string, before: Option<Tracked>)
    ensures var t, h := Lookup(Fold(Oldest(log)), id), Hydration(log, clock);
            && Updates(h, id) == Interruptions(h, id) == (if IsStale(t) then 1 else 0)
            && Said(h, id, before) == if IsStale(t) then Declared(t, clock) else before
  {
    FoldLookup([], Oldest(log), id);
    var ts := Fold(Oldest(log));
    GroupFromSays([], ts, clock, id, before);
    EmittedSays(GroupFrom([], ts, clock), id, before);
  }

  // ----- The results -----

  ghost predicate NoneStale(log: seq<Event>) {
    forall id :: !IsStale(Lookup(Fold(Oldest(log)), id))
  }

  lemma {:induction false} NoStaleNoGroups(groups: seq<Group>, ts: seq<Tracked>, clock: string -> int)
    requires forall t | t in ts :: !Stale(t.job)
    ensures GroupFrom(groups, ts, clock) == groups
  {
    if ts != [] {
      assert ts[0] in ts;
      NoStaleNoGroups(groups, ts[1..], clock);
    }
  }

  /** A start appends nothing exactly when no job among the events it reads is stale. */
  lemma IdleExactly(log: seq<Event>, clock: string -> int)
    ensures Hydration(log, clock) == [] <==> NoneStale(log)
  {
    var ts := Fold(Oldest(log));
    if NoneStale(log) {
      forall t | t in ts ensures !Stale(t.job) {
        FoldLookup([], Oldest(log), t.job.id);
        LookupFinds(ts, t);
        assert !IsStale(Lookup(ts, t.job.id));
      }
      NoStaleNoGroups([], ts, clock);
    }
    forall id | IsStale(Lookup(ts, id)) ensures Hydration(log, clock) != [] {
      HydrationSays(log, clock, id, None);
    }
  }

  /** A log that begins with the events before a start and its updates says of every job what was declared. */
  lemma {:induction false} SaidAfter(log: seq<Event>, seen: seq<Event>, unseen: seq<Event>, clock: string -> int,
                                     id: string)
    requires |log| <= LIST_LIMIT && seen + unseen == Hydration(log, clock) && Updates(unseen, id) == 0
    ensures Lookup(Fold(log + seen), id) == Declared(Lookup(Fold(log), id), clock)
    ensures !IsStale(Lookup(Fold(log + seen), id))
  {
    FoldLookup([], log, id);
    FoldLookup([], log + seen, id);
    var before := Said(log, id, None);
    SaidConcat(log, seen, id, None);
    SaidConcat(seen, unseen, id, before);
    Unsaid(unseen, id, Said(seen, id, before));
    HydrationSays(log, clock, id, before);
  }

  /** When everything fits into the events that a start reads: no job is running or stopping any more, stale ones are
      declared interrupted and all others are unchanged, and the next start appends nothing. */
  lemma StartSettlesJobs(log: seq<Event>, clock: string -> int, later: string -> int)
    requires |log + Hydration(log, clock)| <= 500
    ensures var after := log + Hydration(log, clock);
            && (forall id :: Lookup(Fold(after), id) == Declared(Lookup(Fold(log), id), clock))
            && (forall id :: !IsStale(Lookup(Fold(after), id)))
            && Hydration(after, later) == []
  {
    var h := Hydration(log, clock);
    var after := log + h;
    assert h + [] == h;
    forall id
      ensures Lookup(Fold(after), id) == Declared(Lookup(Fold(log), id), clock) && !IsStale(Lookup(Fold(after), id))
    {
      SaidAfter(log, h, [], clock, id);
    }
    IdleExactly(after, later);
  }

  /** Every stale job is declared interrupted once, with its session and kind, and no other job is. */
  lemma OneInterruptionEach(log: seq<Event>, clock: string -> int)
    ensures var ts, h := Fold(Oldest(log)), Hydration(log, clock);
            && (forall id :: Interruptions(h, id) == if IsStale(Lookup(ts, id)) then 1 else 0)
            && forall e | e in h && e.JobInterrupted? ::
                 var t := Lookup(ts, e.jobId);
                 IsStale(t) && e == JobInterrupted(t.value.sessionId, t.value.job.id, t.value.job.kind)
  {
    var ts, h := Fold(Oldest(log)), Hydration(log, clock);
    forall id ensures Interruptions(h, id) == if IsStale(Lookup(ts, id)) then 1 else 0 {
      HydrationSays(log, clock, id, None);
    }
    FoldLookup([], Oldest(log), "");
    GroupFromOf([], ts, ts, clock);
    var groups := GroupFrom([], ts, clock);
    forall e | e in h && e.JobInterrupted?
      ensures var t := Lookup(ts, e.jobId);
              IsStale(t) && e == JobInterrupted(t.value.sessionId, t.value.job.id, t.value.job.kind)
    {
      EmittedOf(groups, ts, e, clock);
    }
  }

  /** The groups hold interrupted versions of stale jobs from `ts`, under their sessions, and none is empty. */
  ghost predicate GroupsOf(groups: seq<Group>, ts: seq<Tracked>, clock: string -> int) {
    forall g | g in groups :: g.jobs != [] && forall job | job in g.jobs :: GroupedFrom(g.sessionId, job, ts, clock)
  }

  ghost predicate GroupedFrom(sessionId: string, job: Job, ts: seq<Tracked>, clock: string -> int) {
    var t := Lookup(ts, job.id);
    IsStale(t) && t.value.sessionId == sessionId && job == Interrupted(t.value.job, clock)
  }

  lemma {:induction false} AddToOf(groups: seq<Group>, ts: seq<Tracked>, sessionId: string, job: Job,
                                   clock: string -> int)
    requires GroupsOf(groups, ts, clock) && GroupedFrom(sessionId, job, ts, clock)
    ensures GroupsOf(AddTo(groups, sessionId, job), ts, clock)
  {
    if groups != [] {
      assert groups[0] in groups;
      AddToOf(groups[1..], ts, sessionId, job, clock);
    }
  }

  lemma {:induction false} GroupFromOf(groups: seq<Group>, rest: seq<Tracked>, ts: seq<Tracked>, clock: string -> int)
    requires GroupsOf(groups, ts, clock) && DistinctJobs(ts) && forall t | t in rest :: t in ts
    ensures GroupsOf(GroupFrom(groups, rest, clock), ts, clock)
    decreases |rest|
  {
    if rest != [] {
      var t := rest[0];
      assert t in rest;
      if Stale(t.job) {
        LookupFinds(ts, t);
        AddToOf(groups, ts, t.sessionId, Interrupted(t.job, clock), clock);
        GroupFromOf(AddTo(groups, t.sessionId, Interrupted(t.job, clock)), rest[1..], ts, clock);
      } else {
        GroupFromOf(groups, rest[1..], ts, clock);
      }
    }
  }

  lemma {:induction false} InterruptOf(sessionId: string, jobs: seq<Job>, e: Event)
    requires e in Interrupts(sessionId, jobs)
    ensures exists job | job in jobs :: e == JobInterrupted(sessionId, job.id, job.kind)
  {
    if e == JobInterrupted(sessionId, jobs[0].id, jobs[0].kind) {
      assert jobs[0] in jobs;
    } else {
      InterruptOf(sessionId, jobs[1..], e);
      var job :| job in jobs[1..] && e == JobInterrupted(sessionId, job.id, job.kind);
      assert job in jobs;
    }
  }

  lemma {:induction false} EmittedOf(groups: seq<Group>, ts: seq<Tracked>, e: Event, clock: string -> int)
    requires GroupsOf(groups, ts, clock) && e in Emitted(groups)
    ensures e.JobInterrupted? ==>
              var t := Lookup(ts, e.jobId);
              IsStale(t) && e == JobInterrupted(t.value.sessionId, t.value.job.id, t.value.job.kind)
    ensures e.TaskUpdated? ==> e.jobs != []
    ensures !e.OtherEvent?
    decreases |groups|
  {
    var g := groups[0];
    assert g in groups;
    if e in Interrupts(g.sessionId, g.jobs) {
      InterruptOf(g.sessionId, g.jobs, e);
      var job :| job in g.jobs && e == JobInterrupted(g.sessionId, job.id, job.kind);
      assert GroupedFrom(g.sessionId, job, ts, clock);
    } else if e != TaskUpdated(g.sessionId, g.jobs) {
      EmittedOf(groups[1..], ts, e, clock);
    }
  }

  // ----- Beyond the events that a start reads -----

  /** All updates that a start appends are among the first 500 events. */
  ghost predicate UpdatesFit(log: seq<Event>, appended: seq<Event>) {
    forall i | 0 <= i < |appended| && appended[i].TaskUpdated? :: |log| + i < LIST_LIMIT
  }

  lemma {:induction false} NoUpdates(events: seq<Event>, id: string)
    requires forall e | e in events :: !e.TaskUpdated?
    ensures Updates(events, id) == 0
  {
    if events != [] {
      assert events[0] in events;
      NoUpdates(events[1..], id);
    }
  }

  lemma HydrationEvents(log: seq<Event>, clock: string -> int)
    ensures forall e | e in Hydration(log, clock) && e.TaskUpdated? :: e.jobs != []
  {
    var ts := Fold(Oldest(log));
    FoldLookup([], Oldest(log), "");
    GroupFromOf([], ts, ts, clock);
    forall e | e in Hydration(log, clock) && e.TaskUpdated? ensures e.jobs != [] {
      EmittedOf(GroupFrom([], ts, clock), ts, e, clock);
    }
  }

  lemma FittingSettles(log: seq<Event>, clock: string -> int, later: string -> int)
    requires Hydration(log, clock) != [] && UpdatesFit(log, Hydration(log, clock))
    ensures Hydration(log + Hydration(log, clock), later) == []
  {
    var h := Hydration(log, clock);
    var after := log + h;
    assert h[0].TaskUpdated?;
    var k := if |after| <= LIST_LIMIT then |h| else LIST_LIMIT - |log|;
    assert Oldest(after) == log + h[..k];
    assert h[..k] + h[k..] == h;
    forall id ensures !IsStale(Lookup(Fold(Oldest(after)), id)) {
      NoUpdates(h[k..], id);
      SaidAfter(log, h[..k], h[k..], clock, id);
    }
    IdleExactly(after, later);
  }

  lemma CutOffStaysStale(log: seq<Event>, clock: string -> int, later: string -> int, i: nat)
    requires i < |Hydration(log, clock)| && Hydration(log, clock)[i].TaskUpdated? && |log| + i >= LIST_LIMIT
    ensures Hydration(log + Hydration(log, clock), later) != []
  {
    var h := Hydration(log, clock);
    var after := log + h;
    HydrationEvents(log, clock);
    var e := h[i];
    assert e in h && e.jobs != [];
    var id := e.jobs[0].id;
    var k := if |log| >= LIST_LIMIT then 0 else LIST_LIMIT - |log|;
    HydrationSays(log, clock, id, None);
    UpdatesBefore(h, i, k, id);
    assert Oldest(after) == Oldest(log) + h[..k];
    FoldLookup([], Oldest(log), id);
    FoldLookup([], Oldest(after), id);
    SaidConcat(Oldest(log), h[..k], id, None);
    Unsaid(h[..k], id, Said(Oldest(log), id, None));
    IdleExactly(after, later);
  }

  lemma {:induction false} UpdatesBefore(h: seq<Event>, i: nat, k: nat, id: string)
    requires k <= i < |h| && h[i].TaskUpdated? && h[i].jobs != [] && h[i].jobs[0].id == id && Updates(h, id) <= 1
    ensures Updates(h[..k], id) == 0 && Updates(h, id) == 1
  {
    var rest := h[i..];
    assert h == h[..k] + h[k..i] + rest;
    CountConcat(h[..k], h[k..i], id);
    CountConcat(h[..k] + h[k..i], rest, id);
    assert rest[0] == h[i];
  }

  function EventCount(groups: seq<Group>): nat {
    if groups == [] then 0 else 1 + |groups[0].jobs| + EventCount(groups[1..])
  }

  /** Counting one event for every session with stale jobs and one for every stale job, all but those of the last
      session, the log stays below the number of events that a start reads. */
  predicate Fits(log: seq<Event>, groups: seq<Group>) {
    groups == [] || |log| + EventCount(groups[..|groups| - 1]) < 500
  }

  lemma {:induction false} InterruptsAre(sessionId: string, jobs: seq<Job>)
    ensures |Interrupts(sessionId, jobs)| == |jobs|
    ensures forall e | e in Interrupts(sessionId, jobs) :: e.JobInterrupted?
  {
    if jobs != [] {
      InterruptsAre(sessionId, jobs[1..]);
    }
  }

  lemma {:induction false} EmittedCount(groups: seq<Group>)
    ensures |Emitted(groups)| == EventCount(groups)
  {
    if groups != [] {
      InterruptsAre(groups[0].sessionId, groups[0].jobs);
      EmittedCount(groups[1..]);
    }
  }

  lemma {:induction false} EmittedLast(groups: seq<Group>)
    requires groups != []
    ensures Emitted(groups) == Emitted(groups[..|groups| - 1]) + EmittedBy(groups[|groups| - 1])
    decreases |groups|
  {
    var n := |groups| - 1;
    if n > 0 {
      EmittedLast(groups[1..]);
      assert groups[1..][..n - 1] == groups[..n][1..];
      Regroup(EmittedBy(groups[0]), Emitted(groups[..n][1..]), EmittedBy(groups[n]));
    } else {
      assert groups[1..] == [];
    }
  }

  lemma {:induction false} FitsExactly(log: seq<Event>, groups: seq<Group>)
    ensures UpdatesFit(log, Emitted(groups)) <==> Fits(log, groups)
  {
    if groups != [] {
      var n := |groups| - 1;
      var init, last := Emitted(groups[..n]), groups[n];
      EmittedLast(groups);
      EmittedCount(groups[..n]);
      InterruptsAre(last.sessionId, last.jobs);
      LastUpdate(init, last, Emitted(groups));
    }
  }

  /** The update of a group comes first, then only interruptions. */
  lemma LastUpdate(init: seq<Event>, last: Group, all: seq<Event>)
    requires all == init + EmittedBy(last)
    requires forall e | e in Interrupts(last.sessionId, last.jobs) :: e.JobInterrupted?
    ensures |init| < |all| && all[|init|].TaskUpdated?
    ensures forall i | |init| < i < |all| :: !all[i].TaskUpdated?
  {
    var interrupts := Interrupts(last.sessionId, last.jobs);
    forall i | |init| < i < |all| ensures !all[i].TaskUpdated? {
      var e := interrupts[i - |init| - 1];
      assert all[i] == e && e in interrupts;
    }
  }

  /** On a log of any length the next start appends nothing exactly when all updates of this one are among the first
      500 events; otherwise it declares jobs interrupted again. */
  lemma StartIsRepeatedExactly(log: seq<Event>, clock: string -> int, later: string -> int)
    ensures Hydration(log + Hydration(log, clock), later) == []
       <==> Fits(log, GroupFrom([], Fold(Oldest(log)), clock))
  {
    var h := Hydration(log, clock);
    FitsExactly(log, GroupFrom([], Fold(Oldest(log)), clock));
    if h == [] {
      assert log + h == log;
      IdleExactly(log, clock);
      IdleExactly(log, later);
    } else if UpdatesFit(log, h) {
      FittingSettles(log, clock, later);
    } else {
      var i :| 0 <= i < |h| && h[i].TaskUpdated? && |log| + i >= LIST_LIMIT;
      CutOffStaysStale(log, clock, later, i);
    }
  }

  // ----- What a start makes of a long log -----

  /** The latest state of a job in a whole log, and in what a start reads of it. */
  function Known(log: seq<Event>, id: string): Option<Tracked> {
    Lookup(Fold(log), id)
  }

  function Seen(log: seq<Event>, id: string): Option<Tracked> {
    Lookup(Fold(Oldest(log)), id)
  }

  /** No job of this id from position `from` on. */
  predicate NotIn(jobs: seq<Job>, id: string, from: nat) {
    forall j | from <= j < |jobs| :: jobs[j].id != id
  }

  predicate NotReported(events: seq<Event>, id: string, from: nat) {
    forall i | from <= i < |events| && events[i].TaskUpdated? :: NotIn(events[i].jobs, id, 0)
  }

  lemma {:induction false} LastReportIsLast(sessionId: string, jobs: seq<Job>, id: string, before: Option<Tracked>,
                                            j: nat)
    requires j < |jobs| ==> jobs[j].id == id
    requires NotIn(jobs, id, if j < |jobs| then j + 1 else 0)
    ensures LastReport(sessionId, jobs, id, before) == if j < |jobs| then Some(Tracked(sessionId, jobs[j])) else before
    decreases |jobs|
  {
    if jobs != [] {
      var now := if jobs[0].id == id then Some(Tracked(sessionId, jobs[0])) else before;
      LastReportIsLast(sessionId, jobs[1..], id, now, if j > 0 then j - 1 else |jobs|);
    }
  }

  lemma {:induction false} SaidNothing(events: seq<Event>, id: string, before: Option<Tracked>)
    requires NotReported(events, id, 0)
    ensures Said(events, id, before) == before
  {
    if events != [] {
      if events[0].TaskUpdated? {
        LastReportIsLast(events[0].sessionId, events[0].jobs, id, before, |events[0].jobs|);
      }
      SaidNothing(events[1..], id, before);
    }
  }

  /** What is known of a job is its last report: the last entry of its id in the last list that has one. */
  lemma KnownIsLastReport(log: seq<Event>, id: string, i: nat, j: nat)
    requires i < |log| && log[i].TaskUpdated? && j < |log[i].jobs| && log[i].jobs[j].id == id
    requires NotIn(log[i].jobs, id, j + 1) && NotReported(log, id, i + 1)
    ensures Known(log, id) == Some(Tracked(log[i].sessionId, log[i].jobs[j]))
  {
    var earlier, rest := log[..i], log[i..];
    assert log == earlier + rest && rest[1..] == log[i + 1..];
    FoldLookup([], log, id);
    SaidConcat(earlier, rest, id, None);
    LastReportIsLast(log[i].sessionId, log[i].jobs, id, Said(earlier, id, None), j);
    SaidNothing(rest[1..], id, Some(Tracked(log[i].sessionId, log[i].jobs[j])));
  }

  lemma UnreportedIsUnknown(log: seq<Event>, id: string)
    requires NotReported(log, id, 0)
    ensures Known(log, id) == None
  {
    FoldLookup([], log, id);
    SaidNothing(log, id, None);
  }

  /** On a log of any length: a job that is stale among the events read is declared interrupted as it was then, whatever
      was reported since, and any other job stays as it is. */
  lemma StartSaysExactly(log: seq<Event>, clock: string -> int, id: string)
    ensures Known(log + Hydration(log, clock), id)
         == if IsStale(Seen(log, id)) then Declared(Seen(log, id), clock) else Known(log, id)
    ensures Known(log + Hydration(log, clock), id)
         == match Seen(log, id)
            case None => Known(log, id)
            case Some(Tracked(session, job)) =>
              if job.status in {"running", "stopping"}
              then Some(Tracked(session, Job(id, job.kind, "interrupted", job.startedAt, Some(clock(id)))))
              else Known(log, id)
  {
    var h := Hydration(log, clock);
    FoldLookup([], log, id);
    FoldLookup([], log + h, id);
    SaidConcat(log, h, id, None);
    HydrationSays(log, clock, id, Said(log, id, None));
  }

  /** After a start no job is running or stopping exactly when every stale job is stale among the events read. */
  lemma StartLeavesNoneStaleExactly(log: seq<Event>, clock: string -> int)
    ensures (forall id :: !IsStale(Known(log + Hydration(log, clock), id)))
       <==> (forall id :: IsStale(Known(log, id)) ==> IsStale(Seen(log, id)))
  {
    forall id
      ensures !IsStale(Known(log + Hydration(log, clock), id))
        <==> (IsStale(Known(log, id)) ==> IsStale(Seen(log, id)))
    {
      StartSaysExactly(log, clock, id);
    }
  }

  /** A job that is not stale stays as it is exactly when it is not stale among the events read either, or was last
      reported just as the start declares it. */
  lemma StartKeepsOthersExactly(log: seq<Event>, clock: string -> int)
    ensures (forall id | !IsStale(Known(log, id)) :: Known(log + Hydration(log, clock), id) == Known(log, id))
       <==> (forall id | !IsStale(Known(log, id)) && IsStale(Seen(log, id)) ::
               Known(log, id) == Declared(Seen(log, id), clock))
  {
    forall id
      ensures Known(log + Hydration(log, clock), id)
           == if IsStale(Seen(log, id)) then Declared(Seen(log, id), clock) else Known(log, id)
    {
      StartSaysExactly(log, clock, id);
    }
  }

  /** A job reported running among the first 500 events and finished later: the start overwrites its result. */
  lemma FinishedJobIsOverwritten(sessionId: string, job: Job, done: Job, between: seq<Event>, log: seq<Event>,
                                 clock: string -> int)
    requires Stale(job) && !Stale(done) && done.id == job.id && |between| >= 500
    requires forall e | e in between :: e.OtherEvent?
    requires log == [TaskUpdated(sessionId, [job])] + between + [TaskUpdated(sessionId, [done])]
    ensures Known(log, job.id) == Some(Tracked(sessionId, done))
    ensures Known(log + Hydration(log, clock), job.id) == Some(Tracked(sessionId, Interrupted(job, clock)))
  {
    var first, last := [TaskUpdated(sessionId, [job])], [TaskUpdated(sessionId, [done])];
    var head, id, now := between[..LIST_LIMIT - 1], job.id, Some(Tracked(sessionId, job));
    assert Oldest(log) == first + head;
    OneReport(sessionId, job, None);
    OneReport(sessionId, done, now);
    NoUpdates(between, id);
    NoUpdates(head, id);
    Unsaid(between, id, now);
    Unsaid(head, id, now);
    SaidConcat(first, head, id, None);
    SaidConcat(first, between, id, None);
    SaidConcat(first + between, last, id, None);
    FoldLookup([], Oldest(log), id);
    FoldLookup([], log, id);
    StartSaysExactly(log, clock, id);
  }

  lemma {:induction false} OneReport(sessionId: string, job: Job, before: Option<Tracked>)
    ensures Said([TaskUpdated(sessionId, [job])], job.id, before) == Some(Tracked(sessionId, job))
  {
    var update := [TaskUpdated(sessionId, [job])];
    assert update[1..] == [] && [job][1..] == [];
    assert LastReport(sessionId, [job], job.id, before) == Some(Tracked(sessionId, job));
  }
}
