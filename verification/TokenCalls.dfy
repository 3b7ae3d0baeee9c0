/** How the calls of a client end (`request` with its one retry, packages/remote-client/src/index.ts), in the runs of
    `TokenRefresh`. */
module TokenCalls {
  import opened Prelude
  import opened DeviceTokens
  import opened TokenRefresh

  // ----- Where a call, a refresh and the credentials come from -----

  /** One step changes a call only as an action on that call, and a refresh only as an action on that refresh. */
  lemma StepChanges(me: DeviceId, s: State, a: Action)
    requires Enabled(me, s, a)
    ensures var next := Step(me, s, a);
            && |s.calls| <= |next.calls| && |s.flights| <= |next.flights|
            && (forall c | 0 <= c < |s.calls| && next.calls[c] != s.calls[c] ::
                  (a.Answer? || a.DropCall? || a.On401? || a.Wake?) && a.call == c)
            && (forall f | 0 <= f < |s.flights| && next.flights[f] != s.flights[f] ::
                  (a.Grant? || a.Deliver? || a.Lose?) && a.flight == f)
            && (forall c | |s.calls| <= c < |next.calls| :: next.calls[c] == Sent(AccessOf(s.credentials), true))
            && (forall f | |s.flights| <= f < |next.flights| :: next.flights[f].AtServer?)
  {
  }

  /** The refresh was refused, at a time when its token did not allow it. */
  predicate Refused(me: DeviceId, s: State, a: Action) {
    && a.Grant? && a.flight < |s.flights| && s.flights[a.flight].AtServer?
    && !Allowed(s.registry, Refresh(me, s.flights[a.flight].token), a.now)
  }

  /** What can make the call `c` fail: its own message is lost, a refresh is lost or refused, or its second sending is
      answered with 401. */
  predicate Fault(me: DeviceId, s: State, a: Action, c: nat) {
    || a == DropCall(c)
    || a.Lose?
    || Refused(me, s, a)
    || (a == On401(c) && c < |s.calls| && s.calls[c] == Unauthorized(false))
  }

  ghost predicate Faulted(me: DeviceId, actions: seq<Action>, states: seq<State>, c: nat)
    requires |states| == |actions| + 1
  {
    exists k | 0 <= k < |actions| :: Fault(me, states[k], actions[k], c)
  }

  lemma FaultStays(me: DeviceId, actions: seq<Action>, states: seq<State>, c: nat)
    requires |states| == |actions| + 1 && actions != []
    requires Faulted(me, actions[..|actions| - 1], states[..|actions|], c)
    ensures Faulted(me, actions, states, c)
  {
    var k :| 0 <= k < |actions| - 1
             && Fault(me, states[..|actions|][k], actions[..|actions| - 1][k], c);
    assert Fault(me, states[k], actions[k], c);
  }

  /** What has failed so far has a cause: a failed call, a failed refresh, or the loss of the credentials. */
  predicate HasFailed(s: State, c: nat) {
    || (c < |s.calls| && s.calls[c] == Finished(false))
    || s.credentials.None?
    || exists f | 0 <= f < |s.flights| :: s.flights[f] in {Settled(false), Answered(None)}
  }

  /** In every run a call ends with failure only after a lost message, a refused or lost refresh, or a 401 to its second
      sending; missing credentials have such a cause themselves. */
  lemma {:induction false} CallFailsOnlyForCause(me: DeviceId, actions: seq<Action>, states: seq<State>, c: nat)
    requires IsRun(me, actions, states)
    ensures HasFailed(states[|actions|], c) ==> Faulted(me, actions, states, c)
  {
    if actions != [] && HasFailed(states[|actions|], c) {
      var n := |actions| - 1;
      CallFailsOnlyForCause(me, actions[..n], states[..n + 1], c);
      if HasFailed(states[n], c) {
        FaultStays(me, actions, states, c);
      } else {
        StepFaults(me, states[n], actions[n], c);
        assert Fault(me, states[n], actions[n], c);
      }
    }
  }

  lemma StepFaults(me: DeviceId, s: State, a: Action, c: nat)
    requires Enabled(me, s, a) && !HasFailed(s, c) && HasFailed(Step(me, s, a), c)
    ensures Fault(me, s, a, c)
  {
    StepChanges(me, s, a);
  }

  // ----- A call is sent at most twice -----

  /** How far a call has come. */
  function Rank(call: Call): nat {
    match call
    case Sent(_, true) => 0
    case Unauthorized(true) => 1
    case Awaiting(_, _) => 2
    case Sent(_, false) => 3
    case Unauthorized(false) => 4
    case Finished(_) => 5
  }

  lemma StepAdvances(me: DeviceId, s: State, a: Action, c: nat)
    requires Enabled(me, s, a) && c < |s.calls|
    ensures c < |Step(me, s, a).calls|
    ensures Step(me, s, a).calls[c] == s.calls[c] || Rank(s.calls[c]) < Rank(Step(me, s, a).calls[c])
  {
    StepChanges(me, s, a);
  }

  /** A call never goes back: it is sent once with the chance of a refresh and at most once more without, and its end
      is final. */
  lemma {:induction false} CallOnlyAdvances(me: DeviceId, actions: seq<Action>, states: seq<State>, i: nat, j: nat,
                                            c: nat)
    requires IsRun(me, actions, states) && i <= j <= |actions| && c < |states[i].calls|
    ensures c < |states[j].calls|
    ensures states[j].calls[c] == states[i].calls[c] || Rank(states[i].calls[c]) < Rank(states[j].calls[c])
    decreases j
  {
    if i < j {
      var m := j - 1;
      CallOnlyAdvances(me, actions, states, i, m, c);
      assert Enabled(me, states[m], actions[m]) && states[m + 1] == Step(me, states[m], actions[m]);
      StepAdvances(me, states[m], actions[m], c);
    }
  }

  /** Whenever a call is out for the second time, it was woken by a refresh that succeeded, and carries the access token
      that the client held then. */
  lemma {:induction false} SecondSendingFollowsRefresh(me: DeviceId, actions: seq<Action>, states: seq<State>, k: nat,
                                                       c: nat)
    returns (i: nat)
    requires IsRun(me, actions, states) && k <= |actions| && c < |states[k].calls|
    requires states[k].calls[c].Sent? && !states[k].calls[c].canRefresh
    ensures i < k && actions[i] == Wake(c) && states[i].calls[c].Awaiting?
    ensures states[i].flights[states[i].calls[c].flight] == Settled(true)
    ensures states[k].calls[c].access == AccessOf(states[i].credentials)
    decreases k
  {
    StepChanges(me, states[k - 1], actions[k - 1]);
    if c < |states[k - 1].calls| && states[k - 1].calls[c] == states[k].calls[c] {
      i := SecondSendingFollowsRefresh(me, actions, states, k - 1, c);
    } else {
      i := k - 1;
    }
  }

  /** A refresh that succeeded wakes every call that waited for it, and sends it again with the client's new token. */
  lemma WokenCallIsSentAgain(me: DeviceId, s: State, c: nat)
    requires Inv(me, s) && c < |s.calls| && s.calls[c].Awaiting? && s.flights[s.calls[c].flight] == Settled(true)
    ensures Enabled(me, s, Wake(c))
    ensures Step(me, s, Wake(c)).calls == s.calls[c := Sent(AccessOf(s.credentials), false)]
  {
  }

  // ----- How a sending is answered -----

  /** No other device has this access token, nor ever will. */
  predicate IsOwn(r: Registry, me: DeviceId, access: Token) {
    access < r.next && forall i | 0 <= i < |r.devices| && r.devices[i].tokens.access == access :: r.devices[i].id == me
  }

  predicate TokensAreOwn(me: DeviceId, s: State) {
    && (s.credentials.Some? ==> IsOwn(s.registry, me, s.credentials.value.access))
    && (forall f | 0 <= f < |s.flights| && s.flights[f].Answered? && s.flights[f].reply.Some? ::
          IsOwn(s.registry, me, s.flights[f].reply.value.access))
    && (forall c | 0 <= c < |s.calls| && s.calls[c].Sent? && s.calls[c].access.Some? ::
          IsOwn(s.registry, me, s.calls[c].access.value))
  }

  lemma OwnStays(r: Registry, me: DeviceId, change: Change, now: int)
    requires SoundRegistry(r) && Allowed(r, change, now)
    ensures forall t: Token | IsOwn(r, me, t) :: IsOwn(Apply(r, change, now), me, t)
  {
    var after := Apply(r, change, now);
    forall t: Token, i | IsOwn(r, me, t) && 0 <= i < |after.devices| && after.devices[i].tokens.access == t
      ensures after.devices[i].id == me
    {
      assert i < |r.devices| && after.devices[i].id == r.devices[i].id;
      assert r.devices[i].tokens.access == t;
    }
  }

  lemma StoredIsOwn(r: Registry, me: DeviceId)
    requires SoundRegistry(r) && Stored(r, me).Some?
    ensures IsOwn(r, me, Stored(r, me).value.access)
  {
  }

  /** What an action carries out in the registry. */
  function Carried(me: DeviceId, s: State, a: Action): Option<Request>
    requires Enabled(me, s, a)
  {
    match a
    case Grant(f, now) =>
      var change := Refresh(me, s.flights[f].token);
      if Allowed(s.registry, change, now) then Some(Request(change, now)) else None
    case GrantStray(k, now) => Some(Request(Refresh(me, s.strays[k]), now))
    case RevokeMe => Some(Request(Revoke(me), 0))
    case RotateMe(now) => Some(Request(Rotate(me), now))
    case Others(change, now) => Some(Request(change, now))
    case _ => None
  }

  lemma StepCarries(me: DeviceId, s: State, a: Action)
    requires Enabled(me, s, a)
    ensures var carried := Carried(me, s, a);
            if carried.None? then Step(me, s, a).registry == s.registry
            else
              && Allowed(s.registry, carried.value.change, carried.value.now)
              && Step(me, s, a).registry == Apply(s.registry, carried.value.change, carried.value.now)
  {
  }

  lemma RegistryKeepsOwn(me: DeviceId, s: State, a: Action)
    requires Inv(me, s) && Enabled(me, s, a)
    ensures forall t: Token | IsOwn(s.registry, me, t) :: IsOwn(Step(me, s, a).registry, me, t)
  {
    StepCarries(me, s, a);
    var carried := Carried(me, s, a);
    if carried.Some? {
      OwnStays(s.registry, me, carried.value.change, carried.value.now);
    }
  }

  lemma OwnStep(me: DeviceId, s: State, a: Action)
    requires Inv(me, s) && Enabled(me, s, a) && TokensAreOwn(me, s)
    ensures TokensAreOwn(me, Step(me, s, a))
  {
    RegistryKeepsOwn(me, s, a);
    if a.Grant? {
      GrantOwn(me, s, a.flight, a.now);
    } else {
      StepChanges(me, s, a);
    }
  }

  lemma GrantOwn(me: DeviceId, s: State, f: nat, now: int)
    requires Inv(me, s) && Enabled(me, s, Grant(f, now)) && TokensAreOwn(me, s)
    requires forall t: Token | IsOwn(s.registry, me, t) :: IsOwn(Step(me, s, Grant(f, now)).registry, me, t)
    ensures TokensAreOwn(me, Step(me, s, Grant(f, now)))
  {
    if Allowed(s.registry, Refresh(me, s.flights[f].token), now) {
      RefreshStores(s.registry, me, s.flights[f].token, now);
      StoredIsOwn(Step(me, s, Grant(f, now)).registry, me);
    }
  }

  lemma {:induction false} RunKeepsOwn(me: DeviceId, actions: seq<Action>, states: seq<State>)
    requires IsRun(me, actions, states)
    ensures TokensAreOwn(me, states[|actions|]) && Inv(me, states[|actions|])
  {
    RefreshIsSingleFlight(me, actions, states);
    if actions == [] {
      StoredIsOwn(states[0].registry, me);
    } else {
      var n := |actions| - 1;
      RunKeepsOwn(me, actions[..n], states[..n + 1]);
      OwnStep(me, states[n], actions[n]);
    }
  }

  /** The registry has the token as the current one of the device, and neither expired nor revoked. */
  predicate Accepts(r: Registry, me: DeviceId, access: Option<Token>, now: int) {
    var i := IndexOf(r.devices, me);
    && i < |r.devices| && access == Some(r.devices[i].tokens.access)
    && now < r.devices[i].accessExpires && !r.devices[i].revoked
  }

  /** A sending succeeds exactly if its token is the one the registry stores for the device, and neither expired nor
      revoked; otherwise it is answered with 401. */
  lemma AnswerExactly(me: DeviceId, actions: seq<Action>, states: seq<State>, k: nat)
    requires IsRun(me, actions, states) && k < |actions| && actions[k].Answer?
    ensures var c := actions[k].call;
            states[k + 1].calls[c]
            == if Accepts(states[k].registry, me, states[k].calls[c].access, actions[k].now) then Finished(true)
               else Unauthorized(states[k].calls[c].canRefresh)
  {
    RunKeepsOwn(me, actions[..k], states[..k + 1]);
    var s, call := states[k], states[k].calls[actions[k].call];
    if call.access.Some? {
      var i := FindByAccess(s.registry.devices, call.access.value, actions[k].now);
      assert Accepts(s.registry, me, call.access, actions[k].now) ==>
          Authorizes(s.registry.devices[IndexOf(s.registry.devices, me)], call.access.value, actions[k].now);
    }
  }

  // ----- When a call fails although nothing was lost or refused -----

  /** The action gives the device a new pair of tokens. */
  predicate Renews(me: DeviceId, s: State, a: Action)
    requires Enabled(me, s, a)
  {
    Carried(me, s, a).Some? && Replaces(me, Carried(me, s, a).value.change)
  }

  lemma RenewalStores(r: Registry, me: DeviceId, change: Change, now: int)
    requires SoundRegistry(r) && Allowed(r, change, now) && Replaces(me, change)
    ensures Stored(Apply(r, change, now), me) == Some(Credentials(r.next, r.next + 1))
  {
    var after := Apply(r, change, now);
    assert after.devices[IndexOf(r.devices, me)].id == me;
    assert IndexOf(after.devices, me) == IndexOf(r.devices, me);
  }

  /** The pair the registry stores for the device changes by renewals, and only by them. */
  lemma StepRenews(me: DeviceId, s: State, a: Action)
    requires Inv(me, s) && Enabled(me, s, a)
    ensures var next := Step(me, s, a);
            && s.registry.next <= next.registry.next
            && Stored(next.registry, me) == if Renews(me, s, a)
                                            then Some(Credentials(s.registry.next, s.registry.next + 1))
                                            else Stored(s.registry, me)
  {
    StepCarries(me, s, a);
    var carried := Carried(me, s, a);
    if carried.Some? {
      var change, now := carried.value.change, carried.value.now;
      ApplyRetires(s.registry, change, now);
      if Replaces(me, change) {
        RenewalStores(s.registry, me, change, now);
      } else {
        OthersKeepPair(s.registry, me, change, now);
      }
    }
  }

  ghost predicate RenewedSince(me: DeviceId, actions: seq<Action>, states: seq<State>, i: nat, k: nat)
    requires |states| == |actions| + 1 && k <= |actions|
  {
    exists j | i <= j < k :: Enabled(me, states[j], actions[j]) && Renews(me, states[j], actions[j])
  }

  /** A pair stays the stored one exactly until the next renewal. */
  lemma {:induction false} StoredUntilRenewed(me: DeviceId, actions: seq<Action>, states: seq<State>, i: nat, k: nat)
    requires IsRun(me, actions, states) && i <= k <= |actions| && Stored(states[i].registry, me).Some?
    ensures Stored(states[k].registry, me).Some?
    ensures var was, now := Stored(states[i].registry, me).value, Stored(states[k].registry, me).value;
            if RenewedSince(me, actions, states, i, k) then now.access >= states[i].registry.next > was.access
            else now == was
    ensures states[i].registry.next <= states[k].registry.next
    decreases k
  {
    RefreshIsSingleFlight(me, actions[..i], states[..i + 1]);
    if i < k {
      var m := k - 1;
      StoredUntilRenewed(me, actions, states, i, m);
      RefreshIsSingleFlight(me, actions[..m], states[..m + 1]);
      assert Enabled(me, states[m], actions[m]) && states[k] == Step(me, states[m], actions[m]);
      StepRenews(me, states[m], actions[m]);
      RenewedByStep(me, actions, states, i, m);
    }
  }

  lemma RenewedByStep(me: DeviceId, actions: seq<Action>, states: seq<State>, i: nat, m: nat)
    requires |states| == |actions| + 1 && i <= m < |actions| && Enabled(me, states[m], actions[m])
    ensures RenewedSince(me, actions, states, i, m + 1)
       <==> RenewedSince(me, actions, states, i, m) || Renews(me, states[m], actions[m])
  {
  }

  /** The second sending of a call that was woken while its client held the stored pair succeeds exactly if it is
      answered before the token expires and before the device's tokens are renewed again or revoked. */
  lemma {:induction false} SecondAnswerExactly(me: DeviceId, actions: seq<Action>, states: seq<State>, i: nat, k: nat,
                                               c: nat)
    requires IsRun(me, actions, states) && i < k < |actions|
    requires actions[i] == Wake(c) && states[i].flights[states[i].calls[c].flight] == Settled(true)
    requires states[i].credentials.Some? && Stored(states[i].registry, me) == states[i].credentials
    requires actions[k].Answer? && actions[k].call == c
    ensures var entry := IndexOf(states[k].registry.devices, me);
            && entry < |states[k].registry.devices|
            && var d := states[k].registry.devices[entry];
               states[k + 1].calls[c]
               == if !RenewedSince(me, actions, states, i, k) && actions[k].now < d.accessExpires && !d.revoked
                  then Finished(true) else Unauthorized(false)
  {
    var a := states[i].credentials.value.access;
    CallOnlyAdvances(me, actions, states, i + 1, k, c);
    assert states[i + 1].calls[c] == Sent(Some(a), false) == states[k].calls[c];
    StoredUntilRenewed(me, actions, states, i, k);
    AnswerExactly(me, actions, states, k);
  }

  /** No message is lost, no refresh is refused, and the device's tokens change only by refreshes of this client. */
  predicate Undisturbed(me: DeviceId, s: State, a: Action) {
    !a.DropCall? && !a.Lose? && !Refused(me, s, a) && !a.RevokeMe? && !a.RotateMe? && !a.GrantStray?
  }

  /** The second sending of a call is answered. */
  predicate AnswersAgain(s: State, a: Action) {
    a.Answer? && a.call < |s.calls| && s.calls[a.call].Sent? && !s.calls[a.call].canRefresh
  }

  /** Besides, every second sending is answered while its token is accepted. */
  ghost predicate Faultless(me: DeviceId, actions: seq<Action>, states: seq<State>)
    requires |states| == |actions| + 1
  {
    forall k | 0 <= k < |actions| ::
      && Undisturbed(me, states[k], actions[k])
      && (AnswersAgain(states[k], actions[k]) ==>
            Accepts(states[k].registry, me, states[k].calls[actions[k].call].access, actions[k].now))
  }

  lemma {:induction false} NoSecondUnauthorized(me: DeviceId, actions: seq<Action>, states: seq<State>, c: nat)
    requires IsRun(me, actions, states) && Faultless(me, actions, states)
    ensures c < |states[|actions|].calls| ==> states[|actions|].calls[c] != Unauthorized(false)
  {
    if actions != [] {
      var n := |actions| - 1;
      NoSecondUnauthorized(me, actions[..n], states[..n + 1], c);
      StepChanges(me, states[n], actions[n]);
      if actions[n].Answer? {
        AnswerExactly(me, actions, states, n);
      }
    }
  }

  /** In a run without faults every call that ends succeeds, whatever tokens expire. */
  lemma FaultlessCallsSucceed(me: DeviceId, actions: seq<Action>, states: seq<State>, c: nat)
    requires IsRun(me, actions, states) && Faultless(me, actions, states)
    requires c < |states[|actions|].calls| && states[|actions|].calls[c].Finished?
    ensures states[|actions|].calls[c] == Finished(true)
  {
    CallFailsOnlyForCause(me, actions, states, c);
    if k :| 0 <= k < |actions| && Fault(me, states[k], actions[k], c) {
      NoSecondUnauthorized(me, actions[..k], states[..k + 1], c);
    }
  }

  /** A registry of one device with the tokens `next` and `next + 1`. */
  function Entry(me: DeviceId, next: Token, expires: int, refreshExpires: int): Registry {
    Registry([Device(me, Credentials(next, next + 1), expires, refreshExpires, false, {})], next + 2)
  }

  lemma {:induction false} EntryRenews(me: DeviceId, next: Token, expires: int, refreshExpires: int)
    requires refreshExpires > 1
    ensures var r, change := Entry(me, next, expires, refreshExpires), Refresh(me, next + 1);
            && IndexOf(r.devices, me) == 0 && SoundRegistry(r)
            && Stored(r, me) == Some(Credentials(next, next + 1))
            && Allowed(r, change, 1)
            && Apply(r, change, 1) == Entry(me, next + 2, 1 + ACCESS_TTL_MS, 1 + REFRESH_TTL_MS)
    ensures forall t: Token :: (FindByAccess(Entry(me, next, expires, refreshExpires).devices, t, 1) == 0) <==>
                               (t == next && expires > 1)
  {
  }

  /** The registry, what the client holds, its refreshes and its calls. */
  function Scene(r: Registry, held: Credentials, current: Option<nat>, flights: seq<Flight>, calls: seq<Call>,
                 granted: seq<Token>): State {
    State(r, Some(held), current, flights, calls, granted, false, false, [])
  }

  ghost predicate UndisturbedRun(me: DeviceId, actions: seq<Action>, states: seq<State>) {
    IsRun(me, actions, states) && forall k | 0 <= k < |actions| :: Undisturbed(me, states[k], actions[k])
  }

  lemma Continue(me: DeviceId, actions: seq<Action>, states: seq<State>, a: Action) returns (longer: seq<State>)
    requires UndisturbedRun(me, actions, states)
    requires Enabled(me, states[|actions|], a) && Undisturbed(me, states[|actions|], a)
    ensures longer == states + [Step(me, states[|actions|], a)] && UndisturbedRun(me, actions + [a], longer)
  {
    longer := states + [Step(me, states[|actions|], a)];
  }

  /** Two calls are sent with a token that has expired, and both are answered with 401. */
  lemma BothExpire(me: DeviceId, r: Registry) returns (actions: seq<Action>, states: seq<State>)
    requires r == Entry(me, 0, 0, REFRESH_TTL_MS)
    ensures actions == [Begin, Begin, Answer(0, 1), Answer(1, 1)] && UndisturbedRun(me, actions, states)
    ensures states[4] == Scene(r, Credentials(0, 1), None, [], [Unauthorized(true), Unauthorized(true)], [])
  {
    EntryRenews(me, 0, 0, REFRESH_TTL_MS);
    actions, states := [], [Scene(r, Credentials(0, 1), None, [], [], [])];
    states := Continue(me, actions, states, Begin);
    actions := actions + [Begin];
    states := Continue(me, actions, states, Begin);
    actions := actions + [Begin];
    states := Continue(me, actions, states, Answer(0, 1));
    actions := actions + [Answer(0, 1)];
    states := Continue(me, actions, states, Answer(1, 1));
    actions := actions + [Answer(1, 1)];
    assert states[4].calls == [Unauthorized(true), Unauthorized(true)];
  }

  /** A call with a 401 starts a refresh, and the server grants it. */
  lemma StartAndGrant(me: DeviceId, actions: seq<Action>, states: seq<State>, c: nat, n: Token, expires: int,
                      until: int)
    returns (longer: seq<State>)
    requires UndisturbedRun(me, actions, states) && until > 1
    requires var s := states[|actions|];
             && s.registry == Entry(me, n, expires, until) && s.credentials == Some(Credentials(n, n + 1))
             && s.current == None && c < |s.calls| && s.calls[c] == Unauthorized(true)
    ensures var s := states[|actions|];
            var f := |s.flights|;
            && UndisturbedRun(me, actions + [On401(c)] + [Grant(f, 1)], longer) && longer[..|states|] == states
            && longer[|actions| + 2]
               == s.(registry := Entry(me, n + 2, 1 + ACCESS_TTL_MS, 1 + REFRESH_TTL_MS), current := Some(f),
                     flights := s.flights + [Answered(Some(Credentials(n + 2, n + 3)))],
                     calls := s.calls[c := Awaiting(f, true)], granted := s.granted + [n + 1])
  {
    var s := states[|actions|];
    var f := |s.flights|;
    EntryRenews(me, n, expires, until);
    var asked := Continue(me, actions, states, On401(c));
    assert asked[|actions| + 1].flights[f] == AtServer(n + 1);
    longer := Continue(me, actions + [On401(c)], asked, Grant(f, 1));
    assert longer[|actions| + 2].flights == s.flights + [Answered(Some(Credentials(n + 2, n + 3)))];
  }

  /** The refresh reaches the client, and the call is sent again. */
  lemma DeliverAndWake(me: DeviceId, actions: seq<Action>, states: seq<State>, pair: Credentials)
    returns (longer: seq<State>)
    requires UndisturbedRun(me, actions, states)
    requires var s := states[|actions|];
             s.flights == [Answered(Some(pair))] && |s.calls| == 2 && s.calls[0] == Awaiting(0, true)
    ensures var s := states[|actions|];
            && UndisturbedRun(me, actions + [Deliver(0)] + [Wake(0)], longer) && longer[..|states|] == states
            && longer[|actions| + 2]
               == s.(credentials := Some(pair), flights := [Settled(true)], current := None,
                     calls := s.calls[0 := Sent(Some(pair.access), false)])
  {
    var s := states[|actions|];
    longer := Continue(me, actions, states, Deliver(0));
    assert longer[|actions| + 1].flights == [Settled(true)];
    longer := Continue(me, actions + [Deliver(0)], longer, Wake(0));
  }

  /** The second sending is answered with 401, and the call fails. */
  lemma FailsAgain(me: DeviceId, actions: seq<Action>, states: seq<State>) returns (longer: seq<State>)
    requires UndisturbedRun(me, actions, states)
    requires var s := states[|actions|];
             && |s.calls| == 2 && s.calls[0] == Sent(Some(2), false)
             && s.registry == Entry(me, 4, 1 + ACCESS_TTL_MS, 1 + REFRESH_TTL_MS)
    ensures UndisturbedRun(me, actions + [Answer(0, 1)] + [On401(0)], longer) && longer[..|states|] == states
    ensures |longer[|actions| + 2].calls| == 2 && longer[|actions| + 2].calls[0] == Finished(false)
  {
    EntryRenews(me, 4, 1 + ACCESS_TTL_MS, 1 + REFRESH_TTL_MS);
    longer := Continue(me, actions, states, Answer(0, 1));
    longer := Continue(me, actions + [Answer(0, 1)], longer, On401(0));
  }

  /** Two calls of one client whose token has expired: when the 401 of the second is handled after the refresh for the
      first is over, it starts another refresh, which retires the token that the first call is sent again with. The
      first call fails, although no message was lost, nothing was refused or revoked, and its token was new. */
  lemma LateUnauthorizedFailsAnother(me: DeviceId) returns (actions: seq<Action>, states: seq<State>)
    ensures UndisturbedRun(me, actions, states) && |states| == |actions| + 1
    ensures |states[|actions|].calls| == 2 && states[|actions|].calls[0] == Finished(false)
    ensures actions == [Begin, Begin, Answer(0, 1), Answer(1, 1), On401(0), Grant(0, 1), Deliver(0), Wake(0),
                        On401(1), Grant(1, 1), Answer(0, 1), On401(0)]
  {
    actions, states := BothExpire(me, Entry(me, 0, 0, REFRESH_TTL_MS));
    states := StartAndGrant(me, actions, states, 0, 0, 0, REFRESH_TTL_MS);
    actions := actions + [On401(0)] + [Grant(0, 1)];
    states := DeliverAndWake(me, actions, states, Credentials(2, 3));
    actions := actions + [Deliver(0)] + [Wake(0)];
    states := StartAndGrant(me, actions, states, 1, 2, 1 + ACCESS_TTL_MS, 1 + REFRESH_TTL_MS);
    actions := actions + [On401(1)] + [Grant(1, 1)];
    states := FailsAgain(me, actions, states);
    actions := actions + [Answer(0, 1)] + [On401(0)];
  }
}
