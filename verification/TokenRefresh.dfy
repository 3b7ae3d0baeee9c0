/** The client's single-flight token refresh (`request`, `refresh`, `setCredentials`,
    packages/remote-client/src/index.ts) against the registry of rotating tokens.

    Any number of calls of one client run at once and interleave at each `await`; requests and replies may be lost, and
    a refresh request whose connection broke may reach the server later. */
module TokenRefresh {
  import opened Prelude
  import opened DeviceTokens

  /** A refresh request on its way, answered, or over; the refresh promise settles with it. */
  datatype Flight = AtServer(token: Token) | Answered(reply: Option<Credentials>) | Settled(ok: bool)

  datatype Call =
    | Sent(access: Option<Token>, canRefresh: bool)
    | Unauthorized(canRefresh: bool)
    | Awaiting(flight: nat, starter: bool)
    | Finished(ok: bool)

  /** `current` is `refreshInFlight`; `granted` are the refresh tokens the server accepted from this client, `lost`
      tells whether the reply to such a grant never reached it, and `superseded` whether somebody else had the device's
      tokens rotated, and with them the pair the client holds or is about to get. `strays` are the tokens of requests
      that the client has given up and the server may still see. */
  datatype State = State(
    registry: Registry,
    credentials: Option<Credentials>,
    current: Option<nat>,
    flights: seq<Flight>,
    calls: seq<Call>,
    granted: seq<Token>,
    lost: bool,
    superseded: bool,
    strays: seq<Token>)

  datatype Action =
    | Begin
    | Answer(call: nat, now: int)
    | DropCall(call: nat)
    | On401(call: nat)
    | Grant(flight: nat, now: int)
    | Deliver(flight: nat)
    | Lose(flight: nat)
    | GrantStray(stray: nat, now: int)
    | Wake(call: nat)
    | RevokeMe
    | RotateMe(now: int)
    | Others(change: Change, now: int)

  predicate Outstanding(f: Flight) {
    f.AtServer? || f.Answered?
  }

  predicate Enabled(me: DeviceId, s: State, a: Action) {
    match a
    case Begin => true
    case Answer(c, now) => c < |s.calls| && s.calls[c].Sent?
    case DropCall(c) => c < |s.calls| && s.calls[c].Sent?
    case On401(c) => c < |s.calls| && s.calls[c].Unauthorized?
    case Grant(f, now) => f < |s.flights| && s.flights[f].AtServer?
    case Deliver(f) => f < |s.flights| && s.flights[f].Answered?
    case Lose(f) => f < |s.flights| && Outstanding(s.flights[f])
    case GrantStray(k, now) => k < |s.strays| && Allowed(s.registry, Refresh(me, s.strays[k]), now)
    case Wake(c) =>
      c < |s.calls| && s.calls[c].Awaiting? && s.calls[c].flight < |s.flights| && s.flights[s.calls[c].flight].Settled?
    case RevokeMe => Allowed(s.registry, Revoke(me), 0)
    case RotateMe(now) => Allowed(s.registry, Rotate(me), now)
    case Others(change, now) => change.id != me && Allowed(s.registry, change, now)
  }

  function AccessOf(credentials: Option<Credentials>): Option<Token> {
    if credentials.Some? then Some(credentials.value.access) else None
  }

  function Step(me: DeviceId, s: State, a: Action): State
    requires Enabled(me, s, a)
  {
    match a
    case Begin => s.(calls := s.calls + [Sent(AccessOf(s.credentials), true)])
    case Answer(c, now) =>
      var call := s.calls[c];
      var ok := call.access.Some? && FindByAccess(s.registry.devices, call.access.value, now) < |s.registry.devices|;
      s.(calls := s.calls[c := if ok then Finished(true) else Unauthorized(call.canRefresh)])
    case DropCall(c) => s.(calls := s.calls[c := Finished(false)])
    case On401(c) =>
      if !s.calls[c].canRefresh || s.credentials.None? then s.(calls := s.calls[c := Finished(false)])
      else if s.current.Some? then s.(calls := s.calls[c := Awaiting(s.current.value, false)])
      else
        s.(calls := s.calls[c := Awaiting(|s.flights|, true)],
           current := Some(|s.flights|),
           flights := s.flights + [AtServer(s.credentials.value.refresh)])
    case Grant(f, now) =>
      var token := s.flights[f].token;
      var change := Refresh(me, token);
      if Allowed(s.registry, change, now) then
        var after := Apply(s.registry, change, now);
        s.(registry := after, granted := s.granted + [token],
           flights := s.flights[f := Answered(Some(after.devices[IndexOf(s.registry.devices, me)].tokens))])
      else
        s.(flights := s.flights[f := Answered(None)])
    case Deliver(f) =>
      s.(credentials := s.flights[f].reply, flights := s.flights[f := Settled(s.flights[f].reply.Some?)])
    case Lose(f) =>
      s.(flights := s.flights[f := Settled(false)],
         lost := s.lost || (s.flights[f].Answered? && s.flights[f].reply.Some?),
         strays := if s.flights[f].AtServer? then s.strays + [s.flights[f].token] else s.strays)
    case GrantStray(k, now) =>
      // Nobody waits for the reply. A second delivery of the same request would be refused.
      var change := Refresh(me, s.strays[k]);
      s.(registry := Apply(s.registry, change, now), granted := s.granted + [s.strays[k]], lost := true)
    case Wake(c) =>
      var call := s.calls[c];
      var next := if s.flights[call.flight].ok then Sent(AccessOf(s.credentials), false) else Finished(false);
      s.(calls := s.calls[c := next], current := if call.starter then None else s.current)
    case RevokeMe => s.(registry := Apply(s.registry, Revoke(me), 0))
    case RotateMe(now) => s.(registry := Apply(s.registry, Rotate(me), now), superseded := true)
    case Others(change, now) => s.(registry := Apply(s.registry, change, now))
  }

  /** The token pair the registry stores for a device. */
  function Stored(r: Registry, me: DeviceId): Option<Credentials> {
    var i := IndexOf(r.devices, me);
    if i < |r.devices| then Some(r.devices[i].tokens) else None
  }

  /** A freshly paired client: it holds the pair the registry stores for it. */
  predicate Initial(me: DeviceId, s: State) {
    && SoundRegistry(s.registry)
    && s.credentials.Some? && Stored(s.registry, me) == s.credentials
    && s.current.None? && s.flights == [] && s.calls == [] && s.granted == []
    && !s.lost && !s.superseded && s.strays == []
  }

  ghost predicate IsRun(me: DeviceId, actions: seq<Action>, states: seq<State>) {
    && |states| == |actions| + 1
    && Initial(me, states[0])
    && forall i | 0 <= i < |actions| ::
         Enabled(me, states[i], actions[i]) && states[i + 1] == Step(me, states[i], actions[i])
  }

  // ----- The invariant -----

  /** Only the current flight can be outstanding, and exactly one call waits to clear it. */
  predicate SingleFlight(s: State) {
    && (forall f | 0 <= f < |s.flights| && Outstanding(s.flights[f]) :: s.current == Some(f))
    && (s.current.Some? ==> s.current.value < |s.flights|)
    && (forall c | 0 <= c < |s.calls| && s.calls[c].Awaiting? :: s.calls[c].flight < |s.flights|)
    && (forall c | 0 <= c < |s.calls| && s.calls[c].Awaiting? && s.calls[c].starter ::
          s.current == Some(s.calls[c].flight))
    && (forall c, d | 0 <= c < d < |s.calls| && s.calls[c].Awaiting? && s.calls[d].Awaiting? ::
          !(s.calls[c].starter && s.calls[d].starter))
    && (s.current.Some? ==> Awaiting(s.current.value, true) in s.calls)
  }

  predicate Idle(s: State) {
    forall f | 0 <= f < |s.flights| :: !Outstanding(s.flights[f])
  }

  /** The client's pair, or the one on its way to it, is the registry's unless a grant was lost or the pair superseded;
      after that neither of its tokens is live. */
  predicate InStep(me: DeviceId, s: State, held: Credentials) {
    if s.lost || s.superseded then
      && !LiveAccess(s.registry, held.access) && !LiveRefresh(s.registry, held.refresh)
      && Stored(s.registry, me) != Some(held)
    else Stored(s.registry, me) == Some(held)
  }

  predicate PairsAgree(me: DeviceId, s: State) {
    && (s.credentials.Some? ==>
          s.credentials.value.access < s.registry.next && s.credentials.value.refresh < s.registry.next)
    && (Idle(s) && s.credentials.Some? ==> InStep(me, s, s.credentials.value))
    && (forall f | 0 <= f < |s.flights| ::
          match s.flights[f]
          case AtServer(token) =>
            s.credentials.Some? && s.credentials.value.refresh == token && InStep(me, s, s.credentials.value)
          case Answered(Some(pair)) =>
            && InStep(me, s, pair) && s.credentials.Some?
            && pair.access < s.registry.next && pair.refresh < s.registry.next
            && Stored(s.registry, me) != s.credentials
            && !LiveAccess(s.registry, s.credentials.value.access)
            && !LiveRefresh(s.registry, s.credentials.value.refresh)
          case Answered(None) => s.credentials.Some? && InStep(me, s, s.credentials.value)
          case Settled(_) => true)
  }

  /** Every refresh token that was accepted is dead, and was accepted once. */
  predicate GrantsSound(s: State) {
    && (forall i | 0 <= i < |s.granted| :: s.granted[i] < s.registry.next && !LiveRefresh(s.registry, s.granted[i]))
    && (forall i, j | 0 <= i < j < |s.granted| :: s.granted[i] != s.granted[j])
  }

  predicate Inv(me: DeviceId, s: State) {
    SoundRegistry(s.registry) && SingleFlight(s) && PairsAgree(me, s) && GrantsSound(s)
  }

  lemma StoredIsLive(r: Registry, me: DeviceId, now: int, token: Token)
    requires Allowed(r, Refresh(me, token), now)
    ensures Stored(r, me).Some? && Stored(r, me).value.refresh == token && LiveRefresh(r, token)
  {
  }

  /** A change to another device, and a revocation, leave this one's pair alone. */
  lemma OthersKeepPair(r: Registry, me: DeviceId, change: Change, now: int)
    requires SoundRegistry(r) && Allowed(r, change, now) && (change.id != me || change.Revoke?)
    ensures Stored(Apply(r, change, now), me) == Stored(r, me)
  {
    var after := Apply(r, change, now);
    var i := IndexOf(r.devices, me);
    if i < |r.devices| {
      assert after.devices[i].id == me;
      assert IndexOf(after.devices, me) == i;
    } else {
      forall k | 0 <= k < |after.devices| ensures after.devices[k].id != me {
        assert k < |r.devices| ==> after.devices[k].id == r.devices[k].id;
      }
    }
  }

  lemma RegistryStepInv(me: DeviceId, s: State, change: Change, now: int)
    requires Inv(me, s) && Allowed(s.registry, change, now) && (change.id != me || change.Revoke?)
    ensures Inv(me, s.(registry := Apply(s.registry, change, now)))
  {
    var next := s.(registry := Apply(s.registry, change, now));
    ApplyRetires(s.registry, change, now);
    OthersKeepPair(s.registry, me, change, now);
    SameStored(me, s, next);
  }

  /** Where the device's pair stays and no old token comes to life, the pairs agree as before. */
  lemma SameStored(me: DeviceId, s: State, next: State)
    requires PairsAgree(me, s) && next == s.(registry := next.registry) && next.registry.next >= s.registry.next
    requires Stored(next.registry, me) == Stored(s.registry, me)
    requires forall t: Token | t < s.registry.next && LiveAccess(next.registry, t) :: LiveAccess(s.registry, t)
    requires forall t: Token | t < s.registry.next && LiveRefresh(next.registry, t) :: LiveRefresh(s.registry, t)
    ensures PairsAgree(me, next)
  {
  }

  /** The change gives the device a new pair. */
  predicate Replaces(me: DeviceId, change: Change) {
    change.id == me && (change.Rotate? || change.Refresh?)
  }

  lemma PairReplaced(r: Registry, me: DeviceId, change: Change, now: int, held: Credentials)
    requires SoundRegistry(r) && Replaces(me, change) && Allowed(r, change, now)
    requires held.access < r.next && held.refresh < r.next
    requires Stored(r, me) == Some(held) || (!LiveAccess(r, held.access) && !LiveRefresh(r, held.refresh))
    ensures var after := Apply(r, change, now);
            !LiveAccess(after, held.access) && !LiveRefresh(after, held.refresh) && Stored(after, me) != Some(held)
  {
    var after := Apply(r, change, now);
    ApplyRetires(r, change, now);
    assert after.devices[IndexOf(r.devices, me)].id == me;
    assert IndexOf(after.devices, me) == IndexOf(r.devices, me);
  }

  /** A new pair of which the client does not hear leaves it with dead tokens. */
  lemma ReplacedBehindItsBack(me: DeviceId, s: State, change: Change, now: int, next: State)
    requires Inv(me, s) && Replaces(me, change) && Allowed(s.registry, change, now)
    requires next.registry == Apply(s.registry, change, now) && (next.lost || next.superseded)
    requires next.credentials == s.credentials && next.flights == s.flights
    ensures SoundRegistry(next.registry) && PairsAgree(me, next)
  {
    ApplyRetires(s.registry, change, now);
    if s.credentials.Some? && (Idle(s) || exists f :: 0 <= f < |s.flights| && Outstanding(s.flights[f])) {
      PairReplaced(s.registry, me, change, now, s.credentials.value);
    }
    forall f | 0 <= f < |s.flights| && s.flights[f].Answered? && s.flights[f].reply.Some?
      ensures InStep(me, next, s.flights[f].reply.value)
    {
      PairReplaced(s.registry, me, change, now, s.flights[f].reply.value);
    }
  }

  lemma RotateMeInv(me: DeviceId, s: State, now: int)
    requires Inv(me, s) && Enabled(me, s, RotateMe(now))
    ensures Inv(me, Step(me, s, RotateMe(now)))
  {
    ApplyRetires(s.registry, Rotate(me), now);
    ReplacedBehindItsBack(me, s, Rotate(me), now, Step(me, s, RotateMe(now)));
  }

  lemma GrantStrayInv(me: DeviceId, s: State, k: nat, now: int)
    requires Inv(me, s) && Enabled(me, s, GrantStray(k, now))
    ensures Inv(me, Step(me, s, GrantStray(k, now)))
  {
    var change := Refresh(me, s.strays[k]);
    ApplyRetires(s.registry, change, now);
    StoredIsLive(s.registry, me, now, s.strays[k]);
    ReplacedBehindItsBack(me, s, change, now, Step(me, s, GrantStray(k, now)));
  }

  lemma {:induction false} RefreshStores(r: Registry, me: DeviceId, token: Token, now: int)
    requires SoundRegistry(r) && Allowed(r, Refresh(me, token), now)
    ensures var after := Apply(r, Refresh(me, token), now);
            && SoundRegistry(after) && after.next == r.next + 2
            && Stored(after, me) == Some(Credentials(r.next, r.next + 1))
            && after.devices[IndexOf(r.devices, me)].tokens == Credentials(r.next, r.next + 1)
  {
    var after := Apply(r, Refresh(me, token), now);
    assert after.devices[IndexOf(r.devices, me)].id == me;
    assert IndexOf(after.devices, me) == IndexOf(r.devices, me);
  }

  lemma GrantKeepsGrants(me: DeviceId, s: State, f: nat, now: int)
    requires Inv(me, s) && Enabled(me, s, Grant(f, now))
    ensures GrantsSound(Step(me, s, Grant(f, now)))
  {
    var change := Refresh(me, s.flights[f].token);
    if Allowed(s.registry, change, now) {
      StoredIsLive(s.registry, me, now, change.token);
      ApplyRetires(s.registry, change, now);
    }
  }

  lemma GrantKeepsPairs(me: DeviceId, s: State, f: nat, now: int)
    requires Inv(me, s) && Enabled(me, s, Grant(f, now))
    ensures PairsAgree(me, Step(me, s, Grant(f, now)))
  {
    var change, next := Refresh(me, s.flights[f].token), Step(me, s, Grant(f, now));
    if Allowed(s.registry, change, now) {
      StoredIsLive(s.registry, me, now, change.token);
      ApplyRetires(s.registry, change, now);
      RefreshStores(s.registry, me, change.token, now);
    }
    assert Outstanding(next.flights[f]);
    assert forall g | 0 <= g < |s.flights| && g != f :: next.flights[g] == s.flights[g] && !Outstanding(s.flights[g]);
  }

  lemma GrantInv(me: DeviceId, s: State, f: nat, now: int)
    requires Inv(me, s) && Enabled(me, s, Grant(f, now))
    ensures Inv(me, Step(me, s, Grant(f, now)))
  {
    GrantKeepsGrants(me, s, f, now);
    GrantKeepsPairs(me, s, f, now);
    var change := Refresh(me, s.flights[f].token);
    if Allowed(s.registry, change, now) {
      ApplyRetires(s.registry, change, now);
    }
  }

  lemma StarterStays(calls: seq<Call>, c: nat, call: Call, f: nat)
    requires c < |calls| && Awaiting(f, true) in calls && calls[c] != Awaiting(f, true)
    ensures Awaiting(f, true) in calls[c := call]
  {
    var d :| 0 <= d < |calls| && calls[d] == Awaiting(f, true);
    assert calls[c := call][d] == Awaiting(f, true);
  }

  /** Only `calls` changes, at a call that neither was nor becomes a starter. */
  lemma CallStepInv(me: DeviceId, s: State, c: nat, call: Call)
    requires Inv(me, s) && c < |s.calls| && !(s.calls[c].Awaiting? && s.calls[c].starter)
    requires call.Awaiting? ==> !call.starter && call.flight < |s.flights|
    ensures Inv(me, s.(calls := s.calls[c := call]))
  {
    if s.current.Some? {
      StarterStays(s.calls, c, call, s.current.value);
    }
    assert SingleFlight(s.(calls := s.calls[c := call]));
  }

  lemma StartFlightInv(me: DeviceId, s: State, c: nat)
    requires Inv(me, s) && c < |s.calls| && s.calls[c].Unauthorized? && s.current.None? && s.credentials.Some?
    ensures Inv(me, s.(calls := s.calls[c := Awaiting(|s.flights|, true)],
                       current := Some(|s.flights|),
                       flights := s.flights + [AtServer(s.credentials.value.refresh)]))
  {
    assert Idle(s);
    var calls := s.calls[c := Awaiting(|s.flights|, true)];
    var next := s.(calls := calls, current := Some(|s.flights|),
                   flights := s.flights + [AtServer(s.credentials.value.refresh)]);
    assert calls[c] == Awaiting(|s.flights|, true);
    assert SingleFlight(next);
    assert PairsAgree(me, next) by {
      assert Outstanding(next.flights[|s.flights|]);
    }
  }

  lemma On401Inv(me: DeviceId, s: State, c: nat)
    requires Inv(me, s) && Enabled(me, s, On401(c))
    ensures Inv(me, Step(me, s, On401(c)))
  {
    if !s.calls[c].canRefresh || s.credentials.None? {
      CallStepInv(me, s, c, Finished(false));
    } else if s.current.Some? {
      CallStepInv(me, s, c, Awaiting(s.current.value, false));
    } else {
      StartFlightInv(me, s, c);
    }
  }

  lemma DeliverInv(me: DeviceId, s: State, f: nat)
    requires Inv(me, s) && Enabled(me, s, Deliver(f))
    ensures Inv(me, Step(me, s, Deliver(f)))
  {
  }

  lemma LoseInv(me: DeviceId, s: State, f: nat)
    requires Inv(me, s) && Enabled(me, s, Lose(f))
    ensures Inv(me, Step(me, s, Lose(f)))
  {
  }

  lemma WakeInv(me: DeviceId, s: State, c: nat)
    requires Inv(me, s) && Enabled(me, s, Wake(c))
    ensures Inv(me, Step(me, s, Wake(c)))
  {
    if !s.calls[c].starter {
      CallStepInv(me, s, c, Step(me, s, Wake(c)).calls[c]);
    }
  }

  lemma BeginInv(me: DeviceId, s: State)
    requires Inv(me, s)
    ensures Inv(me, Step(me, s, Begin))
  {
    assert SingleFlight(Step(me, s, Begin));
  }

  lemma InvStep(me: DeviceId, s: State, a: Action)
    requires Inv(me, s) && Enabled(me, s, a)
    ensures Inv(me, Step(me, s, a))
  {
    match a
    case Begin => BeginInv(me, s);
    case Answer(c, now) => CallStepInv(me, s, c, Step(me, s, a).calls[c]);
    case DropCall(c) => CallStepInv(me, s, c, Finished(false));
    case On401(c) => On401Inv(me, s, c);
    case Grant(f, now) => GrantInv(me, s, f, now);
    case Deliver(f) => DeliverInv(me, s, f);
    case Lose(f) => LoseInv(me, s, f);
    case Wake(c) => WakeInv(me, s, c);
    case RevokeMe => RegistryStepInv(me, s, Revoke(me), 0);
    case RotateMe(now) => RotateMeInv(me, s, now);
    case GrantStray(k, now) => GrantStrayInv(me, s, k, now);
    case Others(change, now) => RegistryStepInv(me, s, change, now);
  }

  /** In every run at most one refresh is outstanding and no refresh token is accepted twice. */
  lemma {:induction false} RefreshIsSingleFlight(me: DeviceId, actions: seq<Action>, states: seq<State>)
    requires IsRun(me, actions, states)
    ensures var s := states[|actions|];
            && Inv(me, s)
            && (forall f, g | 0 <= f < |s.flights| && 0 <= g < |s.flights|
                             && Outstanding(s.flights[f]) && Outstanding(s.flights[g]) :: f == g)
            && (forall i, j | 0 <= i < j < |s.granted| :: s.granted[i] != s.granted[j])
  {
    if actions == [] {
    } else {
      var n := |actions| - 1;
      RefreshIsSingleFlight(me, actions[..n], states[..n + 1]);
      InvStep(me, states[n], actions[n]);
    }
  }

  /** Whenever no refresh is outstanding, a client that holds tokens holds the pair the registry stores exactly when no
      grant went unheard and nobody else had the pair rotated; otherwise neither of its tokens is live. */
  lemma PairIsStoredExactly(me: DeviceId, actions: seq<Action>, states: seq<State>)
    requires IsRun(me, actions, states)
    requires var s := states[|actions|]; Idle(s) && s.credentials.Some?
    ensures var s := states[|actions|];
            && (Stored(s.registry, me) == s.credentials <==> !s.lost && !s.superseded)
            && (s.lost || s.superseded ==>
                  && !LiveAccess(s.registry, s.credentials.value.access)
                  && !LiveRefresh(s.registry, s.credentials.value.refresh))
  {
    RefreshIsSingleFlight(me, actions, states);
  }

  /** After a loss or a rotation by somebody else the client's tokens are dead for good: whatever happens to the
      registry from then on, its access token never authorizes and its refresh token is never accepted. */
  lemma LostPairIsDeadForGood(me: DeviceId, actions: seq<Action>, states: seq<State>, requests: seq<Request>,
                              registries: seq<Registry>)
    requires IsRun(me, actions, states)
    requires var s := states[|actions|]; Idle(s) && s.credentials.Some? && (s.lost || s.superseded)
    requires IsHistory(requests, registries) && registries[0] == states[|actions|].registry
    ensures var held, end := states[|actions|].credentials.value, registries[|requests|];
            && (forall now :: FindByAccess(end.devices, held.access, now) == |end.devices|)
            && (forall id, now :: !Allowed(end, Refresh(id, held.refresh), now))
  {
    RefreshIsSingleFlight(me, actions, states);
    RetiredForGood(requests, registries, states[|actions|].credentials.value.access);
    RetiredForGood(requests, registries, states[|actions|].credentials.value.refresh);
  }

  /** A rotation on somebody's request is enough, with no reply lost at all. */
  lemma RotationSupersedesThePair(me: DeviceId, s: State, now: int)
    requires Initial(me, s) && Allowed(s.registry, Rotate(me), now)
    ensures var next := Step(me, s, RotateMe(now));
            IsRun(me, [RotateMe(now)], [s, next]) && !next.lost && Idle(next)
            && Stored(next.registry, me) != next.credentials
  {
    var next := Step(me, s, RotateMe(now));
    assert next.registry.devices[IndexOf(s.registry.devices, me)].id == me;
    assert IndexOf(next.registry.devices, me) == IndexOf(s.registry.devices, me);
  }
}
