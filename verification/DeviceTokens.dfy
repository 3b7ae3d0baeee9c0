/** Paired devices and their rotating tokens: `DeviceRegistry` (packages/remote-daemon/src/index.ts).

    Tokens are random and stored hashed: here a token is a number that was never issued before, and equality
    of hashes is equality of tokens. */
module DeviceTokens {
  import opened Prelude

  type Token = nat

  type DeviceId = string

  datatype Scope = ReadScope | ControlScope | AdminScope

  datatype Credentials = Credentials(access: Token, refresh: Token)

  datatype Device = Device(
    id: DeviceId, tokens: Credentials, accessExpires: int, refreshExpires: int, revoked: bool, scopes: set<Scope>)

  const ACCESS_TTL_MS := 15 * 60_000
  const REFRESH_TTL_MS := 30 * 24 * 60 * 60_000

  // ----- The registry -----

  /** The paired devices and the next token never issued. */
  datatype Registry = Registry(devices: seq<Device>, next: Token)

  function IndexOf(devices: seq<Device>, id: DeviceId): (i: nat)
    ensures i <= |devices|
    ensures i < |devices| ==> devices[i].id == id
    ensures forall j | 0 <= j < i :: devices[j].id != id
  {
    if devices == [] || devices[0].id == id then 0 else 1 + IndexOf(devices[1..], id)
  }

  predicate Authorizes(d: Device, token: Token, now: int) {
    !d.revoked && d.accessExpires > now && d.tokens.access == token
  }

  /** The first device whose current, unexpired access token this is. */
  function FindByAccess(devices: seq<Device>, token: Token, now: int): (i: nat)
    ensures i <= |devices|
    ensures i < |devices| ==> Authorizes(devices[i], token, now)
    ensures i == |devices| ==> forall j | 0 <= j < |devices| :: !Authorizes(devices[j], token, now)
  {
    if devices == [] || Authorizes(devices[0], token, now) then 0 else 1 + FindByAccess(devices[1..], token, now)
  }

  function Rotated(d: Device, next: Token, now: int): Device {
    d.(tokens := Credentials(next, next + 1), accessExpires := now + ACCESS_TTL_MS,
       refreshExpires := now + REFRESH_TTL_MS)
  }

  datatype Change =
    | Pair(id: DeviceId, scopes: set<Scope>)
    | Rotate(id: DeviceId)
    | Refresh(id: DeviceId, token: Token)
    | Revoke(id: DeviceId)

  /** A change the registry carries out; any other request for it throws and changes nothing. */
  predicate Allowed(r: Registry, c: Change, now: int) {
    match c
    case Pair(id, scopes) => IndexOf(r.devices, id) == |r.devices|
    case Rotate(id) => var i := IndexOf(r.devices, id); i < |r.devices| && !r.devices[i].revoked
    case Refresh(id, token) =>
      var i := IndexOf(r.devices, id);
      && i < |r.devices| && !r.devices[i].revoked
      && r.devices[i].refreshExpires > now && r.devices[i].tokens.refresh == token
    case Revoke(id) => IndexOf(r.devices, id) < |r.devices|
  }

  function Apply(r: Registry, c: Change, now: int): Registry
    requires Allowed(r, c, now)
  {
    var i := IndexOf(r.devices, c.id);
    match c
    case Pair(id, scopes) =>
      var d := Device(id, Credentials(r.next, r.next + 1), now + ACCESS_TTL_MS, now + REFRESH_TTL_MS, false, scopes);
      Registry(r.devices + [d], r.next + 2)
    case Rotate(_) => Registry(r.devices[i := Rotated(r.devices[i], r.next, now)], r.next + 2)
    case Refresh(_, _) => Registry(r.devices[i := Rotated(r.devices[i], r.next, now)], r.next + 2)
    case Revoke(_) => Registry(r.devices[i := r.devices[i].(revoked := true)], r.next)
  }

  /** Device ids are distinct, and every token was issued once, to one device. */
  predicate SoundRegistry(r: Registry) {
    && (forall i | 0 <= i < |r.devices| :: r.devices[i].tokens.access < r.next && r.devices[i].tokens.refresh < r.next)
    && (forall i, j | 0 <= i < j < |r.devices| ::
          && r.devices[i].id != r.devices[j].id
          && r.devices[i].tokens.access != r.devices[j].tokens.access
          && r.devices[i].tokens.refresh != r.devices[j].tokens.refresh)
  }

  /** The token is the access token of a device that has not been revoked, expired or not. */
  predicate LiveAccess(r: Registry, token: Token) {
    exists i | 0 <= i < |r.devices| :: !r.devices[i].revoked && r.devices[i].tokens.access == token
  }

  predicate LiveRefresh(r: Registry, token: Token) {
    exists i | 0 <= i < |r.devices| :: !r.devices[i].revoked && r.devices[i].tokens.refresh == token
  }

  class DeviceRegistry {
    var devices: seq<Device>
    /** The source of random tokens, which never yields one twice. */
    var next: Token

    ghost function Now(): Registry
      reads this
    {
      Registry(devices, next)
    }

    constructor ()
      ensures Now() == Registry([], 0) && SoundRegistry(Now())
    {
      devices, next := [], 0;
    }

    /** Two random tokens. */
    method Draw() returns (tokens: Credentials)
      modifies this`next
      ensures tokens == Credentials(old(next), old(next) + 1) && next == old(next) + 2
    {
      tokens := Credentials(next, next + 1);
      next := next + 2;
    }

    method AddPaired(id: DeviceId, scopes: set<Scope>, now: int) returns (tokens: Credentials)
      requires IndexOf(devices, id) == |devices|
      modifies this
      ensures Now() == Apply(old(Now()), Pair(id, scopes), now)
      ensures devices[|devices| - 1].tokens == tokens
    {
      tokens := Draw();
      devices := devices + [Device(id, tokens, now + ACCESS_TTL_MS, now + REFRESH_TTL_MS, false, scopes)];
    }

    /** The device an access token belongs to, if the token is current and its device has the scope. */
    method Authorize(token: Token, scope: Scope, now: int) returns (device: Option<Device>)
      ensures device.Some? ==> device.value in devices && Authorizes(device.value, token, now)
      ensures device.Some? ==> scope in device.value.scopes || AdminScope in device.value.scopes
      ensures device.None? && SoundRegistry(Now()) ==>
                forall d | d in devices && Authorizes(d, token, now) :: scope !in d.scopes && AdminScope !in d.scopes
    {
      var i := FindByAccess(devices, token, now);
      if i == |devices| || (scope !in devices[i].scopes && AdminScope !in devices[i].scopes) {
        return None;
      }
      device := Some(devices[i]);
    }

    method RevokeDevice(id: DeviceId) returns (ok: bool)
      modifies this`devices
      ensures ok <==> Allowed(old(Now()), Revoke(id), 0)
      ensures Now() == if ok then Apply(old(Now()), Revoke(id), 0) else old(Now())
    {
      var i := IndexOf(devices, id);
      ok := i < |devices|;
      if ok {
        devices := devices[i := devices[i].(revoked := true)];
      }
    }

    method RotateDevice(id: DeviceId, now: int) returns (tokens: Option<Credentials>)
      modifies this
      ensures tokens.Some? <==> Allowed(old(Now()), Rotate(id), now)
      ensures Now() == if tokens.Some? then Apply(old(Now()), Rotate(id), now) else old(Now())
      ensures tokens.Some? ==> devices[IndexOf(old(devices), id)].tokens == tokens.value
    {
      var i := IndexOf(devices, id);
      if i == |devices| || devices[i].revoked {
        return None;
      }
      var drawn := Draw();
      devices :=
        devices[i := devices[i].(tokens := drawn, accessExpires := now + ACCESS_TTL_MS,
                                 refreshExpires := now + REFRESH_TTL_MS)];
      tokens := Some(drawn);
    }

    method RefreshDevice(id: DeviceId, supplied: Token, now: int) returns (tokens: Option<Credentials>)
      modifies this
      ensures tokens.Some? <==> Allowed(old(Now()), Refresh(id, supplied), now)
      ensures Now() == if tokens.Some? then Apply(old(Now()), Refresh(id, supplied), now) else old(Now())
      ensures tokens.Some? ==> devices[IndexOf(old(devices), id)].tokens == tokens.value
    {
      var i := IndexOf(devices, id);
      if i == |devices| || devices[i].revoked || devices[i].refreshExpires <= now
         || devices[i].tokens.refresh != supplied
      {
        return None;
      }
      tokens := RotateDevice(id, now);
    }
  }

  /** A change issues fresh tokens or none, and retires those it replaces or revokes. */
  lemma ApplyRetires(r: Registry, c: Change, now: int)
    requires SoundRegistry(r) && Allowed(r, c, now)
    ensures var after := Apply(r, c, now);
            && SoundRegistry(after) && after.next >= r.next
            && (forall t: Token | LiveAccess(after, t) :: LiveAccess(r, t) || t >= r.next)
            && (forall t: Token | LiveRefresh(after, t) :: LiveRefresh(r, t) || t >= r.next)
            && (!c.Pair? ==>
                  var was := r.devices[IndexOf(r.devices, c.id)].tokens;
                  !LiveAccess(after, was.access) && !LiveRefresh(after, was.refresh))
  {
  }

  datatype Request = Request(change: Change, now: int)

  /** A history of the registry: each request is carried out or refused. */
  ghost predicate IsHistory(requests: seq<Request>, registries: seq<Registry>) {
    && |registries| == |requests| + 1
    && SoundRegistry(registries[0])
    && forall i | 0 <= i < |requests| ::
         registries[i + 1] == if Allowed(registries[i], requests[i].change, requests[i].now)
                              then Apply(registries[i], requests[i].change, requests[i].now) else registries[i]
  }

  /** A token that was issued and is no longer live is dead for good: whatever happens to the registry, a
      rotated or revoked access token never authorizes again and no refresh is ever granted for a used one. */
  lemma {:induction false} RetiredForGood(requests: seq<Request>, registries: seq<Registry>, token: Token)
    requires IsHistory(requests, registries) && token < registries[0].next
    ensures var end := registries[|requests|];
            && SoundRegistry(end) && token < end.next
            && (!LiveAccess(registries[0], token) ==>
                  && !LiveAccess(end, token)
                  && forall now :: FindByAccess(end.devices, token, now) == |end.devices|)
            && (!LiveRefresh(registries[0], token) ==>
                  && !LiveRefresh(end, token)
                  && forall id, now :: !Allowed(end, Refresh(id, token), now))
  {
    if requests != [] {
      var n := |requests| - 1;
      RetiredForGood(requests[..n], registries[..n + 1], token);
      if Allowed(registries[n], requests[n].change, requests[n].now) {
        ApplyRetires(registries[n], requests[n].change, requests[n].now);
      }
    }
  }

  // ----- What a token is good for, told by the history -----

  predicate CarriedOut(requests: seq<Request>, registries: seq<Registry>, k: int)
    requires |registries| == |requests| + 1 && 0 <= k < |requests|
  {
    Allowed(registries[k], requests[k].change, requests[k].now)
  }

  /** Request `k` issued a pair of tokens, and nothing was carried out for its device since. */
  ghost predicate IsCurrent(requests: seq<Request>, registries: seq<Registry>, k: int)
    requires |registries| == |requests| + 1
  {
    && 0 <= k < |requests| && CarriedOut(requests, registries, k) && !requests[k].change.Revoke?
    && forall j | k < j < |requests| && CarriedOut(requests, registries, j) ::
         requests[j].change.id != requests[k].change.id
  }

  /** The device holds the tokens issued by a request when `next` was the next token, for 15 minutes and 30 days. */
  predicate Holds(d: Device, r: Request, next: Token) {
    && d.id == r.change.id && !d.revoked && d.tokens == Credentials(next, next + 1)
    && d.accessExpires == r.now + 900_000 && d.refreshExpires == r.now + 2_592_000_000
  }

  lemma {:induction false} HistoryIsSound(requests: seq<Request>, registries: seq<Registry>)
    requires IsHistory(requests, registries)
    ensures SoundRegistry(registries[|requests|])
    ensures registries[0].next <= registries[|requests|].next
  {
    if requests != [] {
      var n := |requests| - 1;
      HistoryIsSound(requests[..n], registries[..n + 1]);
      if CarriedOut(requests, registries, n) {
        ApplyRetires(registries[n], requests[n].change, requests[n].now);
      }
    }
  }

  /** How one change treats a device. */
  lemma ApplyAt(r: Registry, c: Change, now: int, i: nat)
    requires SoundRegistry(r) && Allowed(r, c, now) && i < |Apply(r, c, now).devices|
    ensures var d := Apply(r, c, now).devices[i];
            if d.id == c.id then d.revoked || Holds(d, Request(c, now), r.next)
            else i < |r.devices| && d == r.devices[i]
    ensures i < |r.devices| ==> Apply(r, c, now).devices[i].id == r.devices[i].id
    ensures !c.Revoke? && Apply(r, c, now).devices[i].id == c.id ==> !Apply(r, c, now).devices[i].revoked
  {
  }

  /** Every device that is not revoked holds the tokens of a request that is current. */
  lemma {:induction false} IssueOf(requests: seq<Request>, registries: seq<Registry>, i: nat) returns (k: nat)
    requires IsHistory(requests, registries) && registries[0].devices == []
    requires i < |registries[|requests|].devices| && !registries[|requests|].devices[i].revoked
    ensures IsCurrent(requests, registries, k)
    ensures Holds(registries[|requests|].devices[i], requests[k], registries[k].next)
  {
    var n := |requests| - 1;
    var r, c := registries[n], requests[n].change;
    HistoryIsSound(requests[..n], registries[..n + 1]);
    if CarriedOut(requests, registries, n) {
      ApplyAt(r, c, requests[n].now, i);
    }
    if CarriedOut(requests, registries, n) && registries[n + 1].devices[i].id == c.id {
      k := n;
      assert c.Revoke? ==> i == IndexOf(r.devices, c.id);
    } else {
      k := IssueOf(requests[..n], registries[..n + 1], i);
      StaysCurrent(requests, registries, k);
    }
  }

  lemma StaysCurrent(requests: seq<Request>, registries: seq<Registry>, k: nat)
    requires |registries| == |requests| + 1 && requests != []
    requires var n := |requests| - 1;
             && IsCurrent(requests[..n], registries[..n + 1], k)
             && (CarriedOut(requests, registries, n) ==> requests[n].change.id != requests[k].change.id)
    ensures IsCurrent(requests, registries, k)
  {
    var n := |requests| - 1;
    forall j | 0 <= j < n
      ensures CarriedOut(requests, registries, j) <==> CarriedOut(requests[..n], registries[..n + 1], j)
      ensures requests[..n][j] == requests[j]
    {
    }
  }

  /** And every current request has its device. */
  lemma {:induction false} DeviceOf(requests: seq<Request>, registries: seq<Registry>, k: nat) returns (i: nat)
    requires IsHistory(requests, registries) && IsCurrent(requests, registries, k)
    ensures i < |registries[|requests|].devices|
    ensures Holds(registries[|requests|].devices[i], requests[k], registries[k].next)
  {
    var n := |requests| - 1;
    var r, c := registries[n], requests[n].change;
    HistoryIsSound(requests[..n], registries[..n + 1]);
    if k == n {
      i := IndexOf(r.devices, c.id);
      ApplyAt(r, c, requests[n].now, i);
    } else {
      assert IsCurrent(requests[..n], registries[..n + 1], k) by {
        forall j | k < j < n && CarriedOut(requests[..n], registries[..n + 1], j)
          ensures requests[..n][j].change.id != requests[k].change.id
        {
          assert CarriedOut(requests, registries, j);
        }
      }
      i := DeviceOf(requests[..n], registries[..n + 1], k);
      if CarriedOut(requests, registries, n) {
        ApplyAt(r, c, requests[n].now, i);
      }
    }
  }

  /** In every history: a token authorizes at a time exactly if it is the access token last issued for its device, less
      than 15 minutes before, and nothing was carried out for the device since, a revocation included. */
  lemma {:induction false} AuthorizesExactly(requests: seq<Request>, registries: seq<Registry>, token: Token, now: int)
    requires IsHistory(requests, registries) && registries[0].devices == []
    ensures FindByAccess(registries[|requests|].devices, token, now) < |registries[|requests|].devices|
       <==> exists k | 0 <= k < |requests| && IsCurrent(requests, registries, k) ::
              token == registries[k].next && now < requests[k].now + 900_000
  {
    var devices := registries[|requests|].devices;
    var i := FindByAccess(devices, token, now);
    if i < |devices| {
      var k := IssueOf(requests, registries, i);
    }
    if k :| 0 <= k < |requests| && IsCurrent(requests, registries, k)
            && token == registries[k].next && now < requests[k].now + 900_000
    {
      var j := DeviceOf(requests, registries, k);
      assert Authorizes(devices[j], token, now);
    }
  }

  /** And a refresh is granted exactly for the refresh token issued beside it, within 30 days. */
  lemma RefreshesExactly(requests: seq<Request>, registries: seq<Registry>, id: DeviceId, token: Token, now: int)
    requires IsHistory(requests, registries) && registries[0].devices == []
    ensures Allowed(registries[|requests|], Refresh(id, token), now)
       <==> exists k | 0 <= k < |requests| && IsCurrent(requests, registries, k) ::
              && requests[k].change.id == id && token == registries[k].next + 1
              && now < requests[k].now + 2_592_000_000
  {
    var end := registries[|requests|];
    HistoryIsSound(requests, registries);
    if Allowed(end, Refresh(id, token), now) {
      var k := IssueOf(requests, registries, IndexOf(end.devices, id));
    }
    if k :| 0 <= k < |requests| && IsCurrent(requests, registries, k)
            && requests[k].change.id == id && token == registries[k].next + 1 && now < requests[k].now + 2_592_000_000
    {
      var j := DeviceOf(requests, registries, k);
      assert IndexOf(end.devices, id) == j;
    }
  }
}
