/** The replay window of the desktop's relay tunnel (`RestrictedRelayTunnel.handle`,
    packages/remote-daemon/src/relay-tunnel.ts).

    `handle` reads the clock twice, once for the freshness check and once for the window. Times are in
    milliseconds and never go back. */
module RelayTunnel {
  const WINDOW_MS: int := 60_000
  const MAX_SEEN: nat := 10_000

  /** A decrypted request; `wellFormed` stands for the checks of its kind, id, method and path. */
  datatype Request = Request(id: string, createdAt: int, wellFormed: bool)

  datatype Verdict = Forwarded | Invalid | ReplayDetected | WindowFull

  type Seen = map<string, int>

  predicate Fresh(r: Request, now: int) {
    -WINDOW_MS <= now - r.createdAt <= WINDOW_MS
  }

  function Prune(seen: Seen, now: int): Seen {
    map id | id in seen && now - seen[id] <= WINDOW_MS :: seen[id]
  }

  datatype Handled = Handled(seen: Seen, verdict: Verdict)

  /** What `handle` makes of a request when its clock readings are `checked` and then `now`. */
  function Handle(seen: Seen, r: Request, checked: int, now: int): Handled {
    if !r.wellFormed || !Fresh(r, checked) then Handled(seen, Invalid)
    else
      var pruned := Prune(seen, now);
      if r.id in pruned then Handled(pruned, ReplayDetected)
      else if |pruned| >= MAX_SEEN then Handled(pruned, WindowFull)
      else Handled(pruned[r.id := now], Forwarded)
  }

  class RestrictedRelayTunnel {
    var seenRequests: Seen

    constructor ()
      ensures seenRequests == map[]
    {
      seenRequests := map[];
    }

    /** Decides about a request up to the point where it would be fetched from the local server. */
    method HandleRequest(r: Request, checked: int, now: int) returns (verdict: Verdict)
      modifies this
      ensures Handled(seenRequests, verdict) == Handle(old(seenRequests), r, checked, now)
    {
      if !r.wellFormed || !Fresh(r, checked) {
        return Invalid;
      }
      DropExpired(now);
      if r.id in seenRequests {
        return ReplayDetected;
      }
      if |seenRequests| >= MAX_SEEN {
        return WindowFull;
      }
      seenRequests := seenRequests[r.id := now];
      verdict := Forwarded;
    }

    method DropExpired(now: int)
      modifies this
      ensures seenRequests == Prune(old(seenRequests), now)
    {
      ghost var before := seenRequests;
      var left := seenRequests.Keys;
      while left != {}
        invariant left <= seenRequests.Keys <= before.Keys
        invariant forall id | id in seenRequests :: seenRequests[id] == before[id]
        invariant forall id | id in before && id !in left :: id in seenRequests <==> now - before[id] <= WINDOW_MS
        decreases left
      {
        var id :| id in left;
        left := left - {id};
        if now - seenRequests[id] > WINDOW_MS {
          seenRequests := seenRequests - {id};
        }
      }
    }
  }

  /** One delivery of a request to the tunnel. */
  datatype Attempt = Attempt(request: Request, checked: int, now: int)

  /** A run of deliveries from an empty window, with a clock that never goes back. */
  ghost predicate IsRun(attempts: seq<Attempt>, windows: seq<Seen>) {
    && |windows| == |attempts| + 1 && windows[0] == map[]
    && (forall i | 0 <= i < |attempts| :: attempts[i].checked <= attempts[i].now)
    && (forall i, j | 0 <= i < j < |attempts| :: attempts[i].now <= attempts[j].checked)
    && (forall i | 0 <= i < |attempts| ::
          windows[i + 1] == Handle(windows[i], attempts[i].request, attempts[i].checked, attempts[i].now).seen)
  }

  predicate ForwardedAt(attempts: seq<Attempt>, windows: seq<Seen>, i: nat)
    requires i < |attempts| && i < |windows|
  {
    Handle(windows[i], attempts[i].request, attempts[i].checked, attempts[i].now).verdict == Forwarded
  }

  /** The entry of a forwarded request stays until more than 60 seconds have passed. */
  lemma {:induction false} EntryStays(attempts: seq<Attempt>, windows: seq<Seen>, i: nat, k: nat)
    requires IsRun(attempts, windows) && i < k <= |attempts| && ForwardedAt(attempts, windows, i)
    ensures var id := attempts[i].request.id;
            || (id in windows[k] && windows[k][id] >= attempts[i].now)
            || attempts[k - 1].now - attempts[i].now > WINDOW_MS
    decreases k
  {
    if k > i + 1 {
      EntryStays(attempts, windows, i, k - 1);
      assert attempts[k - 2].now <= attempts[k - 1].checked;
    }
  }

  /** Two requests with one id are forwarded only more than 60 seconds apart. */
  lemma ForwardedFarApart(attempts: seq<Attempt>, windows: seq<Seen>, i: nat, j: nat)
    requires IsRun(attempts, windows) && i < j < |attempts|
    requires attempts[i].request.id == attempts[j].request.id
    requires ForwardedAt(attempts, windows, i) && ForwardedAt(attempts, windows, j)
    ensures attempts[j].now - attempts[i].now > WINDOW_MS
  {
    EntryStays(attempts, windows, i, j);
    assert attempts[j - 1].now <= attempts[j].checked;
  }

  /** A request is forwarded at most once in any run, as long as the two clock readings of the later delivery lie no
      further apart than the request's age at its first acceptance. */
  lemma ForwardedAtMostOnce(attempts: seq<Attempt>, windows: seq<Seen>, i: nat, j: nat)
    requires IsRun(attempts, windows) && i < j < |attempts|
    requires attempts[i].request == attempts[j].request
    requires attempts[i].request.createdAt + (attempts[j].now - attempts[j].checked) <= attempts[i].now
    ensures !(ForwardedAt(attempts, windows, i) && ForwardedAt(attempts, windows, j))
  {
    if ForwardedAt(attempts, windows, i) && ForwardedAt(attempts, windows, j) {
      ForwardedFarApart(attempts, windows, i, j);
    }
  }

  // ----- The verdict, told by the history -----

  /** The ids of the requests that were forwarded within the 60 seconds before delivery `i`. */
  ghost function Recent(attempts: seq<Attempt>, windows: seq<Seen>, i: nat): set<string>
    requires |windows| == |attempts| + 1 && i < |attempts|
  {
    set j | 0 <= j < i && ForwardedAt(attempts, windows, j) && attempts[i].now - attempts[j].now <= 60_000 ::
      attempts[j].request.id
  }

  /** What the window holds was forwarded at the time it says. */
  lemma {:induction false} EntryWasForwarded(attempts: seq<Attempt>, windows: seq<Seen>, k: nat, id: string)
    returns (j: nat)
    requires IsRun(attempts, windows) && k <= |attempts| && id in windows[k]
    ensures j < k && ForwardedAt(attempts, windows, j)
    ensures attempts[j].request.id == id && attempts[j].now == windows[k][id]
    decreases k
  {
    var last := attempts[k - 1];
    if ForwardedAt(attempts, windows, k - 1) && last.request.id == id {
      j := k - 1;
    } else {
      j := EntryWasForwarded(attempts, windows, k - 1, id);
    }
  }

  lemma WindowIsRecent(attempts: seq<Attempt>, windows: seq<Seen>, i: nat)
    requires IsRun(attempts, windows) && i < |attempts|
    ensures Prune(windows[i], attempts[i].now).Keys == Recent(attempts, windows, i)
  {
    var pruned := Prune(windows[i], attempts[i].now);
    forall id | id in pruned ensures id in Recent(attempts, windows, i) {
      var j := EntryWasForwarded(attempts, windows, i, id);
    }
    forall j | 0 <= j < i && ForwardedAt(attempts, windows, j) && attempts[i].now - attempts[j].now <= 60_000
      ensures attempts[j].request.id in pruned
    {
      EntryStays(attempts, windows, j, i);
      assert attempts[i - 1].now <= attempts[i].checked;
    }
  }

  /** In any run: a request is invalid exactly if it is malformed or dated more than 60 seconds before or after the
      first clock reading; else a replay exactly if its id was forwarded within the last 60 seconds; else refused
      exactly if 10000 ids were; and forwarded otherwise. */
  lemma VerdictExactly(attempts: seq<Attempt>, windows: seq<Seen>, i: nat)
    requires IsRun(attempts, windows) && i < |attempts|
    ensures var a, recent := attempts[i], Recent(attempts, windows, i);
            var ahead := a.request.createdAt - a.checked;
            Handle(windows[i], a.request, a.checked, a.now).verdict
            == if !a.request.wellFormed || ahead > 60_000 || ahead < -60_000 then Invalid
               else if a.request.id in recent then ReplayDetected
               else if |recent| >= 10_000 then WindowFull
               else Forwarded
  {
    WindowIsRecent(attempts, windows, i);
    var pruned := Prune(windows[i], attempts[i].now);
    assert |pruned| == |pruned.Keys|;
  }

  // ----- Replays -----

  /** A run that goes on from `attempts`, whose last delivery was forwarded, and forwards the same request again in a
      delivery whose clock readings lie at most `gap` apart. */
  ghost predicate Replays(attempts: seq<Attempt>, longer: seq<Attempt>, windows: seq<Seen>, gap: nat) {
    && attempts != [] && attempts <= longer && IsRun(longer, windows)
    && exists j ::
         && |attempts| <= j < |longer| && longer[j].request == attempts[|attempts| - 1].request
         && longer[j].now - longer[j].checked <= gap && ForwardedAt(longer, windows, j)
  }

  lemma {:induction false} EntriesAreOld(attempts: seq<Attempt>, windows: seq<Seen>, k: nat)
    requires IsRun(attempts, windows) && 0 < k <= |attempts|
    ensures forall id | id in windows[k] :: windows[k][id] <= attempts[k - 1].now
  {
    if k > 1 {
      EntriesAreOld(attempts, windows, k - 1);
      assert attempts[k - 2].now <= attempts[k - 1].checked;
    }
  }

  /** The delivery that replays a request: checked in the last millisecond of its freshness, and looked up after every
      entry has expired. */
  lemma ReplayFits(attempts: seq<Attempt>, windows: seq<Seen>, gap: nat) returns (longer: seq<Attempt>, ws: seq<Seen>)
    requires IsRun(attempts, windows) && attempts != [] && ForwardedAt(attempts, windows, |attempts| - 1)
    requires var first := attempts[|attempts| - 1];
             first.now < first.request.createdAt + gap && first.now <= first.request.createdAt + WINDOW_MS
    ensures Replays(attempts, longer, ws, gap)
  {
    var n := |attempts|;
    var first := attempts[n - 1];
    var checked := first.request.createdAt + WINDOW_MS;
    var now := if checked > first.now + WINDOW_MS then checked else first.now + WINDOW_MS + 1;
    var again := Attempt(first.request, checked, now);
    EntriesAreOld(attempts, windows, n);
    assert Prune(windows[n], now) == map[];
    longer, ws := attempts + [again], windows + [Handle(windows[n], again.request, checked, now).seen];
    assert longer[n] == again && ForwardedAt(longer, ws, n);
  }

  /** From any state of the tunnel, with any other deliveries in between: a request forwarded at `t` can be forwarded
      again by a delivery whose readings lie at most `gap` apart exactly when the gap is longer than the request's age
      at `t`, and the request was still fresh at `t`. */
  lemma ReplayableExactly(attempts: seq<Attempt>, windows: seq<Seen>, gap: nat)
    requires IsRun(attempts, windows) && attempts != [] && ForwardedAt(attempts, windows, |attempts| - 1)
    ensures var first := attempts[|attempts| - 1];
            (exists longer, ws :: Replays(attempts, longer, ws, gap))
            <==> first.now < first.request.createdAt + gap && first.now <= first.request.createdAt + WINDOW_MS
  {
    var i := |attempts| - 1;
    var first := attempts[i];
    if first.now < first.request.createdAt + gap && first.now <= first.request.createdAt + WINDOW_MS {
      var longer, ws := ReplayFits(attempts, windows, gap);
    }
    forall longer: seq<Attempt>, ws: seq<Seen> | Replays(attempts, longer, ws, gap)
      ensures first.now < first.request.createdAt + gap && first.now <= first.request.createdAt + WINDOW_MS
    {
      var j :| && |attempts| <= j < |longer| && longer[j].request == first.request
               && longer[j].now - longer[j].checked <= gap && ForwardedAt(longer, ws, j);
      SameWindows(attempts, windows, longer, ws, i);
      ForwardedFarApart(longer, ws, i, j);
    }
  }

  lemma {:induction false} SameWindows(attempts: seq<Attempt>, windows: seq<Seen>, longer: seq<Attempt>, ws: seq<Seen>,
                                       k: nat)
    requires IsRun(attempts, windows) && IsRun(longer, ws) && attempts <= longer && k <= |attempts|
    ensures windows[k] == ws[k]
  {
    if k > 0 {
      SameWindows(attempts, windows, longer, ws, k - 1);
      assert attempts[k - 1] == longer[k - 1];
    }
  }

  /** If a delivery reads one time, a request can be forwarded again exactly when it is dated ahead of the receiver. */
  lemma ReplayableExactlyWhenAhead(attempts: seq<Attempt>, windows: seq<Seen>)
    requires IsRun(attempts, windows) && attempts != [] && ForwardedAt(attempts, windows, |attempts| - 1)
    ensures var first := attempts[|attempts| - 1];
            (exists longer, ws :: Replays(attempts, longer, ws, 0)) <==> first.now < first.request.createdAt
  {
    ReplayableExactly(attempts, windows, 0);
  }

  /** Readings one millisecond apart are enough for a request created in the millisecond of its first acceptance. */
  lemma ClockReadingsApartAdmitReplay(r: Request)
    requires r.wellFormed
    ensures var first := [Attempt(r, r.createdAt, r.createdAt)];
            exists longer, ws :: Replays(first, longer, ws, 1)
  {
    var first := [Attempt(r, r.createdAt, r.createdAt)];
    var windows: seq<Seen> := [map[], Handle(map[], r, r.createdAt, r.createdAt).seen];
    assert ForwardedAt(first, windows, 0);
    ReplayableExactly(first, windows, 1);
  }

  /** A restarted tunnel has an empty window: it forwards a request again exactly while the request is fresh. */
  lemma RestartForwardsFreshAgain(r: Request, checked: int, now: int)
    requires r.wellFormed
    ensures Handle(map[], r, checked, now).verdict == Forwarded <==> Fresh(r, checked)
  {
    assert Prune(map[], now) == map[];
  }
}
