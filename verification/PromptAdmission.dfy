/** Admission of prompts by request id: the `prompt_admission` branch of `control` with its maps
    `admittedRequests` and `inflightAdmissions`, and the rebuilding of the first from the event log in `start`
    (packages/remote-daemon/src/index.ts).

    Callers interleave at each `await`. One action is what runs between two of them. */
module PromptAdmission {
  import opened Prelude

  type RequestId = string

  type TaskId = string

  datatype LogEntry = Accepted(id: RequestId, task: TaskId) | OtherEvent

  /** An adapter call: outstanding, settled, or cut off by the end of its process. */
  datatype Verdict = Pending | Resolved(task: TaskId) | Rejected | Abandoned

  datatype Admission = Admission(id: RequestId, verdict: Verdict)

  datatype Reply = Admitted(task: TaskId, deduplicated: bool) | Failed | NotConfigured

  /** A caller waits for the admission it started or joined, has its reply, or lost its process. */
  datatype Caller =
    | Owner(id: RequestId, admission: nat)
    | Waiter(id: RequestId, admission: nat)
    | Replied(id: RequestId, reply: Reply)
    | Gone

  datatype State = State(
    configured: bool,
    admitted: map<RequestId, TaskId>,
    inflight: map<RequestId, nat>,
    admissions: seq<Admission>,
    callers: seq<Caller>,
    log: seq<LogEntry>)

  datatype Action =
    | Arrive(id: RequestId)
    | ArriveThrows(id: RequestId)
    | Resolve(admission: nat, task: TaskId)
    | Reject(admission: nat)
    | Resume(caller: nat)
    | LogOther
    | Restart

  /** What `start` reads back from the log. */
  function Rebuild(log: seq<LogEntry>): map<RequestId, TaskId> {
    if log == [] then map[]
    else
      var before := Rebuild(log[..|log| - 1]);
      var last := log[|log| - 1];
      if last.Accepted? then before[last.id := last.task] else before
  }

  predicate IsNew(s: State, id: RequestId) {
    id !in s.admitted && id !in s.inflight && s.configured
  }

  predicate Enabled(s: State, a: Action) {
    match a
    case Arrive(id) => true
    case ArriveThrows(id) => IsNew(s, id)
    case Resolve(p, task) => p < |s.admissions| && s.admissions[p].verdict == Pending
    case Reject(p) => p < |s.admissions| && s.admissions[p].verdict == Pending
    case Resume(c) =>
      && c < |s.callers|
      && (s.callers[c].Owner? || s.callers[c].Waiter?)
      && s.callers[c].admission < |s.admissions|
      && (s.admissions[s.callers[c].admission].verdict.Resolved?
          || s.admissions[s.callers[c].admission].verdict.Rejected?)
    case LogOther => true
    case Restart => true
  }

  /** A caller runs until it replies or waits; a new id starts an adapter call. */
  function Arriving(s: State, id: RequestId): State {
    if id in s.admitted then
      s.(callers := s.callers + [Replied(id, Admitted(s.admitted[id], true))])
    else if id in s.inflight then
      s.(callers := s.callers + [Waiter(id, s.inflight[id])])
    else if !s.configured then
      s.(callers := s.callers + [Replied(id, NotConfigured)])
    else
      s.(inflight := s.inflight[id := |s.admissions|],
         admissions := s.admissions + [Admission(id, Pending)],
         callers := s.callers + [Owner(id, |s.admissions|)])
  }

  function Resuming(s: State, c: nat): State
    requires Enabled(s, Resume(c))
  {
    var caller := s.callers[c];
    var verdict := s.admissions[caller.admission].verdict;
    var reply := if verdict.Resolved? then Admitted(verdict.task, caller.Waiter?) else Failed;
    s.(callers := s.callers[c := Replied(caller.id, reply)],
       inflight := if caller.Owner? && caller.id in s.inflight && s.inflight[caller.id] == caller.admission
                   then s.inflight - {caller.id} else s.inflight)
  }

  function Abandon(admissions: seq<Admission>): (r: seq<Admission>)
    ensures |r| == |admissions|
    ensures forall p | 0 <= p < |r| ::
              r[p] == if admissions[p].verdict.Pending? then admissions[p].(verdict := Abandoned) else admissions[p]
  {
    if admissions == [] then []
    else
      var last := admissions[|admissions| - 1];
      Abandon(admissions[..|admissions| - 1]) + [if last.verdict.Pending? then last.(verdict := Abandoned) else last]
  }

  function Hangup(callers: seq<Caller>): (r: seq<Caller>)
    ensures |r| == |callers|
    ensures forall c | 0 <= c < |r| :: r[c] == if callers[c].Replied? then callers[c] else Gone
  {
    if callers == [] then []
    else
      var last := callers[|callers| - 1];
      Hangup(callers[..|callers| - 1]) + [if last.Replied? then last else Gone]
  }

  function Step(s: State, a: Action): State
    requires Enabled(s, a)
  {
    match a
    case Arrive(id) => Arriving(s, id)
    case ArriveThrows(id) => s.(callers := s.callers + [Replied(id, Failed)])
    case Resolve(p, task) =>
      var id := s.admissions[p].id;
      s.(admitted := s.admitted[id := task],
         log := s.log + [Accepted(id, task)],
         admissions := s.admissions[p := Admission(id, Resolved(task))])
    case Reject(p) => s.(admissions := s.admissions[p := s.admissions[p].(verdict := Rejected)])
    case Resume(c) => Resuming(s, c)
    case LogOther => s.(log := s.log + [OtherEvent])
    case Restart =>
      s.(admitted := Rebuild(Oldest(s.log)), inflight := map[],
         admissions := Abandon(s.admissions), callers := Hangup(s.callers))
  }

  function Initial(configured: bool): State {
    State(configured, map[], map[], [], [], [])
  }

  ghost predicate IsRun(configured: bool, actions: seq<Action>, states: seq<State>) {
    && |states| == |actions| + 1
    && states[0] == Initial(configured)
    && forall i | 0 <= i < |actions| :: Enabled(states[i], actions[i]) && states[i + 1] == Step(states[i], actions[i])
  }

  // ----- The invariant, for one id -----

  predicate IsRecord(log: seq<LogEntry>, i: int, id: RequestId) {
    0 <= i < |log| && log[i].Accepted? && log[i].id == id
  }

  /** The id is recorded at most once, and is admitted exactly if it is recorded, with the recorded task. */
  ghost predicate RecordsSound(s: State, id: RequestId) {
    && (forall i, j | IsRecord(s.log, i, id) && IsRecord(s.log, j, id) :: i == j)
    && (forall i | IsRecord(s.log, i, id) :: id in s.admitted && s.admitted[id] == s.log[i].task)
    && (id in s.admitted ==> exists i :: IsRecord(s.log, i, id))
  }

  /** An outstanding adapter call is the one in flight for its id, and its id is not admitted yet; a call that
      succeeded is the one the id was admitted by. */
  predicate AdmissionSound(s: State, p: nat)
    requires p < |s.admissions|
  {
    var id := s.admissions[p].id;
    match s.admissions[p].verdict
    case Pending => id !in s.admitted && id in s.inflight && s.inflight[id] == p
    case Resolved(task) => id in s.admitted && s.admitted[id] == task
    case _ => true
  }

  predicate AdmissionsSound(s: State, id: RequestId) {
    && (forall p | 0 <= p < |s.admissions| && s.admissions[p].id == id :: AdmissionSound(s, p))
    && (forall p, q | 0 <= p < q < |s.admissions| && s.admissions[p].id == id == s.admissions[q].id ::
          !(s.admissions[p].verdict.Resolved? && s.admissions[q].verdict.Resolved?))
  }

  predicate CallerSound(s: State, caller: Caller, id: RequestId) {
    match caller
    case Owner(own, p) => own == id ==> p < |s.admissions| && s.admissions[p].id == id
    case Waiter(own, p) => own == id ==> p < |s.admissions| && s.admissions[p].id == id
    case Replied(own, reply) => own == id && reply.Admitted? ==> id in s.admitted && s.admitted[id] == reply.task
    case Gone => true
  }

  predicate CallersSound(s: State, id: RequestId) {
    forall c | 0 <= c < |s.callers| :: CallerSound(s, s.callers[c], id)
  }

  /** What is in flight for an id has a caller that will take it out again. */
  predicate InflightSound(s: State, id: RequestId) {
    id in s.inflight ==> s.inflight[id] < |s.admissions| && Owner(id, s.inflight[id]) in s.callers
  }

  ghost predicate Inv(s: State, id: RequestId) {
    RecordsSound(s, id) && AdmissionsSound(s, id) && CallersSound(s, id) && InflightSound(s, id)
  }

  /** A restart finds every record of the id. */
  predicate RecordsAmongOldest(log: seq<LogEntry>, id: RequestId) {
    forall i | 500 <= i < |log| :: !IsRecord(log, i, id)
  }

  lemma {:induction false} RebuildHolds(log: seq<LogEntry>, id: RequestId)
    ensures id in Rebuild(log) <==> exists i :: IsRecord(log, i, id)
    ensures (forall i, j | IsRecord(log, i, id) && IsRecord(log, j, id) :: i == j) ==>
              forall i | IsRecord(log, i, id) :: Rebuild(log)[id] == log[i].task
  {
    if log != [] {
      var n := |log| - 1;
      RebuildHolds(log[..n], id);
      forall i | 0 <= i < n ensures IsRecord(log[..n], i, id) <==> IsRecord(log, i, id) {
      }
      if id in Rebuild(log[..n]) {
        var i :| IsRecord(log[..n], i, id);
        assert IsRecord(log, i, id);
      }
      assert log[n].Accepted? && log[n].id == id ==> IsRecord(log, n, id);
    }
  }

  // ----- Every step keeps it -----

  lemma ArriveInv(s: State, other: RequestId, id: RequestId)
    requires Inv(s, id)
    ensures Inv(Arriving(s, other), id)
  {
    var next := Arriving(s, other);
    var n := |s.callers|;
    assert next.callers[..n] == s.callers;
    forall p | 0 <= p < |s.admissions| ensures next.admissions[p] == s.admissions[p] {
    }
    ArriveCallers(s, other, id);
    if id in next.inflight {
      if IsNew(s, other) && other == id {
        assert next.callers[n] == Owner(id, |s.admissions|);
      } else {
        var c :| 0 <= c < n && s.callers[c] == Owner(id, s.inflight[id]);
        assert next.callers[c] == s.callers[c];
      }
    }
    assert AdmissionsSound(next, id) by {
      forall p | 0 <= p < |next.admissions| && next.admissions[p].id == id ensures AdmissionSound(next, p) {
        assert p < |s.admissions| ==> AdmissionSound(s, p);
      }
    }
  }

  lemma ArriveCallers(s: State, other: RequestId, id: RequestId)
    requires CallersSound(s, id) && InflightSound(s, id)
    ensures CallersSound(Arriving(s, other), id)
  {
    var next := Arriving(s, other);
    var n := |s.callers|;
    forall c | 0 <= c < n ensures CallerSound(next, next.callers[c], id) {
      assert CallerSound(s, s.callers[c], id) && next.callers[c] == s.callers[c];
    }
    if other == id && id !in s.admitted && id in s.inflight {
      var c :| 0 <= c < n && s.callers[c] == Owner(id, s.inflight[id]);
      assert CallerSound(s, s.callers[c], id);
    }
  }

  lemma ResolveInv(s: State, p: nat, task: TaskId, id: RequestId)
    requires Inv(s, id) && Enabled(s, Resolve(p, task))
    ensures Inv(Step(s, Resolve(p, task)), id)
  {
    var next := Step(s, Resolve(p, task));
    assert AdmissionSound(s, p) || s.admissions[p].id != id;
    LogGrows(s.log, Accepted(s.admissions[p].id, task), id);
    ResolveAdmissions(s, p, task, id);
    ResolveCallers(s, p, task, id);
  }

  lemma LogGrows(log: seq<LogEntry>, e: LogEntry, id: RequestId)
    ensures forall i | i != |log| :: IsRecord(log + [e], i, id) <==> IsRecord(log, i, id)
    ensures IsRecord(log + [e], |log|, id) <==> e.Accepted? && e.id == id
    ensures forall i | IsRecord(log, i, id) :: (log + [e])[i] == log[i]
  {
  }

  lemma ResolveAdmissions(s: State, p: nat, task: TaskId, id: RequestId)
    requires AdmissionsSound(s, id) && Enabled(s, Resolve(p, task))
    ensures AdmissionsSound(Step(s, Resolve(p, task)), id)
  {
    var next := Step(s, Resolve(p, task));
    forall q | 0 <= q < |next.admissions| && next.admissions[q].id == id ensures AdmissionSound(next, q) {
      assert AdmissionSound(s, q);
      assert s.admissions[p].id == id ==> AdmissionSound(s, p);
    }
    forall q | 0 <= q < |s.admissions| && q != p && s.admissions[q].id == id == s.admissions[p].id
      ensures !s.admissions[q].verdict.Resolved?
    {
      assert AdmissionSound(s, q) && AdmissionSound(s, p);
    }
  }

  lemma ResolveCallers(s: State, p: nat, task: TaskId, id: RequestId)
    requires CallersSound(s, id) && AdmissionsSound(s, id) && Enabled(s, Resolve(p, task))
    ensures CallersSound(Step(s, Resolve(p, task)), id)
  {
    var next := Step(s, Resolve(p, task));
    forall c | 0 <= c < |next.callers| ensures CallerSound(next, next.callers[c], id) {
      assert CallerSound(s, s.callers[c], id);
      assert s.admissions[p].id == id ==> AdmissionSound(s, p);
    }
  }

  lemma RejectInv(s: State, p: nat, id: RequestId)
    requires Inv(s, id) && Enabled(s, Reject(p))
    ensures Inv(Step(s, Reject(p)), id)
  {
    var next := Step(s, Reject(p));
    forall q | 0 <= q < |next.admissions| && next.admissions[q].id == id ensures AdmissionSound(next, q) {
      assert AdmissionSound(s, q);
    }
    forall c | 0 <= c < |next.callers| ensures CallerSound(next, next.callers[c], id) {
      assert CallerSound(s, s.callers[c], id);
    }
  }

  lemma ResumeInv(s: State, c: nat, id: RequestId)
    requires Inv(s, id) && Enabled(s, Resume(c))
    ensures Inv(Step(s, Resume(c)), id)
  {
    var next, caller := Step(s, Resume(c)), s.callers[c];
    assert CallerSound(s, caller, id);
    forall p | 0 <= p < |next.admissions| && next.admissions[p].id == id ensures AdmissionSound(next, p) {
      assert AdmissionSound(s, p);
    }
    if caller.id == id {
      assert AdmissionSound(s, caller.admission);
    }
    forall d | 0 <= d < |next.callers| ensures CallerSound(next, next.callers[d], id) {
      assert d != c ==> CallerSound(s, s.callers[d], id);
    }
    if id in next.inflight {
      var other :| 0 <= other < |s.callers| && s.callers[other] == Owner(id, s.inflight[id]);
      assert next.callers[other] == s.callers[other];
    }
  }

  lemma LogOtherInv(s: State, id: RequestId)
    requires Inv(s, id)
    ensures Inv(Step(s, LogOther), id)
  {
    var next := Step(s, LogOther);
    LogGrows(s.log, OtherEvent, id);
    forall p | 0 <= p < |s.admissions| && s.admissions[p].id == id ensures AdmissionSound(next, p) {
      assert AdmissionSound(s, p);
    }
    forall c | 0 <= c < |s.callers| ensures CallerSound(next, s.callers[c], id) {
      assert CallerSound(s, s.callers[c], id);
    }
  }

  lemma ArriveThrowsInv(s: State, other: RequestId, id: RequestId)
    requires Inv(s, id) && Enabled(s, ArriveThrows(other))
    ensures Inv(Step(s, ArriveThrows(other)), id)
  {
    var next := Step(s, ArriveThrows(other));
    forall p | 0 <= p < |s.admissions| && s.admissions[p].id == id ensures AdmissionSound(next, p) {
      assert AdmissionSound(s, p);
    }
    forall c | 0 <= c < |next.callers| ensures CallerSound(next, next.callers[c], id) {
      assert c < |s.callers| ==> CallerSound(s, s.callers[c], id) && next.callers[c] == s.callers[c];
    }
    if id in next.inflight {
      var c :| 0 <= c < |s.callers| && s.callers[c] == Owner(id, s.inflight[id]);
      assert next.callers[c] == s.callers[c];
    }
  }

  /** What the oldest events say of an id. */
  lemma OldestHold(log: seq<LogEntry>, id: RequestId)
    ensures id in Rebuild(Oldest(log)) <==> exists i :: i < 500 && IsRecord(log, i, id)
    ensures (forall i, j | IsRecord(log, i, id) && IsRecord(log, j, id) :: i == j) ==>
              forall i | i < 500 && IsRecord(log, i, id) ::
                id in Rebuild(Oldest(log)) && Rebuild(Oldest(log))[id] == log[i].task
  {
    var kept := Oldest(log);
    RebuildHolds(kept, id);
    forall i ensures IsRecord(kept, i, id) <==> i < 500 && IsRecord(log, i, id) {
    }
    if id in Rebuild(kept) {
      var i :| IsRecord(kept, i, id);
      assert i < 500 && IsRecord(log, i, id);
    }
  }

  lemma RestartInv(s: State, id: RequestId)
    requires Inv(s, id) && RecordsAmongOldest(s.log, id)
    ensures Inv(Step(s, Restart), id)
  {
    var next := Step(s, Restart);
    OldestHold(s.log, id);
    assert id in next.admitted <==> id in s.admitted;
    assert id in s.admitted ==> next.admitted[id] == s.admitted[id];
    forall p | 0 <= p < |s.admissions| && s.admissions[p].id == id ensures AdmissionSound(next, p) {
      assert AdmissionSound(s, p);
    }
    forall c | 0 <= c < |s.callers| ensures CallerSound(next, next.callers[c], id) {
      assert CallerSound(s, s.callers[c], id);
    }
  }

  lemma InvStep(s: State, a: Action, id: RequestId)
    requires Inv(s, id) && Enabled(s, a)
    requires a.Restart? ==> RecordsAmongOldest(s.log, id)
    ensures Inv(Step(s, a), id)
  {
    match a
    case Arrive(other) => ArriveInv(s, other, id);
    case ArriveThrows(other) => ArriveThrowsInv(s, other, id);
    case Resolve(p, task) => ResolveInv(s, p, task, id);
    case Reject(p) => RejectInv(s, p, id);
    case Resume(c) => ResumeInv(s, c, id);
    case LogOther => LogOtherInv(s, id);
    case Restart => RestartInv(s, id);
  }

  lemma {:induction false} RunKeepsInv(configured: bool, actions: seq<Action>, states: seq<State>, id: RequestId)
    requires IsRun(configured, actions, states)
    requires forall i | 0 <= i < |actions| && actions[i].Restart? :: RecordsAmongOldest(states[i].log, id)
    ensures Inv(states[|actions|], id)
  {
    if actions != [] {
      var n := |actions| - 1;
      RunKeepsInv(configured, actions[..n], states[..n + 1], id);
      InvStep(states[n], actions[n], id);
    }
  }

  // ----- The results -----

  /** In every run in which each restart finds the id's records among the oldest 500 events: at most one adapter call
      for the id is outstanding, at most one ever succeeds, at most one `prompt.accepted` is logged, and every success
      reply carries the same task. */
  lemma AdmittedAtMostOnce(configured: bool, actions: seq<Action>, states: seq<State>, id: RequestId)
    requires IsRun(configured, actions, states)
    requires forall i | 0 <= i < |actions| && actions[i].Restart? :: RecordsAmongOldest(states[i].log, id)
    ensures var s := states[|actions|];
            && (forall p, q | 0 <= p < q < |s.admissions| && s.admissions[p].id == id == s.admissions[q].id ::
                  && !(s.admissions[p].verdict.Pending? && s.admissions[q].verdict.Pending?)
                  && !(s.admissions[p].verdict.Resolved? && s.admissions[q].verdict.Resolved?))
            && (forall i, j | IsRecord(s.log, i, id) && IsRecord(s.log, j, id) :: i == j)
            && (forall c, d | Success(s, c, id) && Success(s, d, id) ::
                  s.callers[c].reply.task == s.callers[d].reply.task)
  {
    RunKeepsInv(configured, actions, states, id);
    var s := states[|actions|];
    forall p | 0 <= p < |s.admissions| && s.admissions[p].id == id ensures AdmissionSound(s, p) {
    }
    forall c | Success(s, c, id) ensures id in s.admitted && s.callers[c].reply.task == s.admitted[id] {
      assert CallerSound(s, s.callers[c], id);
    }
  }

  /** The caller has been told that the id is admitted. */
  predicate Success(s: State, c: int, id: RequestId) {
    0 <= c < |s.callers| && s.callers[c].Replied? && s.callers[c].id == id && s.callers[c].reply.Admitted?
  }

  /** A failed adapter call leaves its id retryable: the call has an owner, who is told of the failure, and from then
      on the next caller with the id starts a new call. */
  lemma FailedCallIsRetryable(s: State, p: nat) returns (owner: nat)
    requires s.configured && Enabled(s, Reject(p)) && Inv(s, s.admissions[p].id)
    ensures owner < |s.callers| && s.callers[owner] == Owner(s.admissions[p].id, p)
    ensures var id, failed := s.admissions[p].id, Step(s, Reject(p));
            && Enabled(failed, Resume(owner))
            && var told := Step(failed, Resume(owner));
               && told.callers[owner] == Replied(id, Failed)
               && Step(told, Arrive(id)).admissions == failed.admissions + [Admission(id, Pending)]
  {
    var id := s.admissions[p].id;
    assert AdmissionSound(s, p);
    assert Owner(id, s.inflight[id]) in s.callers;
    owner :| 0 <= owner < |s.callers| && s.callers[owner] == Owner(id, p);
  }

  // ----- What every caller is told -----

  /** A reply gives what became of an adapter call for the id. */
  predicate TellsVerdict(end: State, p: nat, id: RequestId, reply: Reply, deduplicated: bool) {
    && p < |end.admissions| && end.admissions[p].id == id
    && match end.admissions[p].verdict
       case Resolved(task) => reply == Admitted(task, deduplicated)
       case Rejected => reply == Failed
       case _ => false
  }

  /** What a caller that arrived in `before` may have been told by the time of `end`. */
  predicate MayBeTold(before: State, a: Action, end: State, id: RequestId, reply: Reply) {
    if a == ArriveThrows(id) then reply == Failed
    else
      && a == Arrive(id)
      && if id in before.admitted then reply == Admitted(before.admitted[id], true)
         else if id in before.inflight then TellsVerdict(end, before.inflight[id], id, reply, true)
         else if before.configured then TellsVerdict(end, |before.admissions|, id, reply, false)
         else reply == NotConfigured
  }

  /** Why a caller is where it is: it has its reply, it waits for the call in flight when it arrived, or for its own. */
  predicate Explained(before: State, a: Action, end: State, c: nat)
    requires c < |end.callers|
  {
    match end.callers[c]
    case Replied(id, reply) => MayBeTold(before, a, end, id, reply)
    case Waiter(id, p) =>
      && a == Arrive(id) && id !in before.admitted && id in before.inflight && p == before.inflight[id]
      && p < |end.admissions| && end.admissions[p].id == id
      && (end.admissions[p].verdict.Resolved? || end.admissions[p].verdict.Rejected? ==> Enabled(end, Resume(c)))
    case Owner(id, p) =>
      && a == Arrive(id) && IsNew(before, id) && p == |before.admissions|
      && p < |end.admissions| && end.admissions[p].id == id
      && (end.admissions[p].verdict.Resolved? || end.admissions[p].verdict.Rejected? ==> Enabled(end, Resume(c)))
    case Gone => a.Arrive? || a.ArriveThrows?
  }

  predicate InflightIsCalled(s: State) {
    forall id | id in s.inflight :: s.inflight[id] < |s.admissions| && s.admissions[s.inflight[id]].id == id
  }

  /** Calls stay, and what has become of them does. */
  predicate CallsPersist(s: State, next: State) {
    && |s.admissions| <= |next.admissions|
    && forall p | 0 <= p < |s.admissions| ::
         && next.admissions[p].id == s.admissions[p].id
         && (!s.admissions[p].verdict.Pending? ==> next.admissions[p] == s.admissions[p])
  }

  lemma StepPersists(s: State, a: Action)
    requires Enabled(s, a) && InflightIsCalled(s)
    ensures CallsPersist(s, Step(s, a)) && InflightIsCalled(Step(s, a))
  {
  }

  lemma StaysExplained(before: State, arrival: Action, s: State, a: Action, c: nat)
    requires Enabled(s, a) && InflightIsCalled(s) && c < |s.callers| && Explained(before, arrival, s, c)
    ensures c < |Step(s, a).callers| && Explained(before, arrival, Step(s, a), c)
    ensures Step(s, a).callers[c].Gone? ==> s.callers[c].Gone? || a.Restart?
  {
    StepPersists(s, a);
    var next := Step(s, a);
    if a == Resume(c) {
      ResumedIsExplained(before, arrival, s, c);
    } else if a.Restart? && !s.callers[c].Replied? {
      assert next.callers[c] == Gone;
    } else {
      assert next.callers[c] == s.callers[c];
      SameIsExplained(before, arrival, s, next, c);
    }
  }

  lemma SameIsExplained(before: State, arrival: Action, s: State, next: State, c: nat)
    requires c < |s.callers| && c < |next.callers| && next.callers[c] == s.callers[c]
    requires CallsPersist(s, next) && Explained(before, arrival, s, c)
    ensures Explained(before, arrival, next, c)
  {
  }

  lemma ResumedIsExplained(before: State, arrival: Action, s: State, c: nat)
    requires Enabled(s, Resume(c)) && Explained(before, arrival, s, c)
    ensures Explained(before, arrival, Step(s, Resume(c)), c)
    ensures Step(s, Resume(c)).callers[c].Replied?
  {
  }

  lemma ArrivalIsExplained(s: State, a: Action)
    requires Enabled(s, a) && InflightIsCalled(s) && |Step(s, a).callers| > |s.callers|
    ensures Explained(s, a, Step(s, a), |s.callers|) && |Step(s, a).callers| == |s.callers| + 1
    ensures !Step(s, a).callers[|s.callers|].Gone?
  {
  }

  /** Every caller of every run, restarts included: one that joined a call in flight is told what became of that call,
      marked as deduplicated; one that started a call is told what became of it, unmarked; an admitted id is answered
      with its task; a failure is told only of a call that failed or an adapter that threw; and `NOT_CONFIGURED` is
      said exactly when there is no adapter and the id is neither admitted nor in flight. Only a restart cuts a caller
      off. */
  lemma {:induction false} EveryCallerIsExplained(
    configured: bool, actions: seq<Action>, states: seq<State>, c: nat) returns (i: nat)
    requires IsRun(configured, actions, states) && c < |states[|actions|].callers|
    ensures i < |actions| && |states[i].callers| == c && Explained(states[i], actions[i], states[|actions|], c)
    ensures states[|actions|].callers[c].Gone? ==> exists k | i < k < |actions| :: actions[k].Restart?
    ensures InflightIsCalled(states[|actions|])
  {
    var n := |actions| - 1;
    RunIsCalled(configured, actions, states);
    RunIsCalled(configured, actions[..n], states[..n + 1]);
    if c < |states[n].callers| {
      i := EveryCallerIsExplained(configured, actions[..n], states[..n + 1], c);
      StaysExplained(states[i], actions[i], states[n], actions[n], c);
    } else {
      i := n;
      ArrivalIsExplained(states[n], actions[n]);
    }
  }

  lemma {:induction false} RunIsCalled(configured: bool, actions: seq<Action>, states: seq<State>)
    requires IsRun(configured, actions, states)
    ensures InflightIsCalled(states[|actions|])
  {
    if actions != [] {
      var n := |actions| - 1;
      RunIsCalled(configured, actions[..n], states[..n + 1]);
      StepPersists(states[n], actions[n]);
    }
  }

  /** After any restart, the first one or a later one: a caller is answered from the log exactly when a record of its
      id is among the 500 oldest events, and with the recorded task if the log is in order; otherwise its prompt is
      handed to the adapter. */
  lemma RestartRemembersExactlyTheOldest(s: State, id: RequestId)
    requires s.configured
    ensures var next := Step(Step(s, Restart), Arrive(id));
            var reply := next.callers[|s.callers|];
            && (reply.Replied? <==> exists i :: i < 500 && IsRecord(s.log, i, id))
            && (reply.Replied? ==> exists task :: reply == Replied(id, Admitted(task, true)))
            && (!reply.Replied? ==> next.admissions[|s.admissions|] == Admission(id, Pending))
            && (RecordsSound(s, id) && reply.Replied? ==> reply == Replied(id, Admitted(s.admitted[id], true)))
  {
    OldestHold(s.log, id);
    var next := Step(Step(s, Restart), Arrive(id));
    var reply := next.callers[|s.callers|];
    if reply.Replied? {
      assert reply == Replied(id, Admitted(Rebuild(Oldest(s.log))[id], true));
    }
  }
}
