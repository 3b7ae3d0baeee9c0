/** The fixed-window rate limits: frames per relay connection (`accept`, packages/remote-relay/src/index.ts)
    and requests per address (`enforceRateLimit`, packages/remote-daemon/src/index.ts). Clocks never go back. */
module RateWindows {
  import opened Prelude

  datatype Window = Window(start: int, count: nat)

  // ----- Frames of one relay connection -----

  const FRAME_WINDOW_MS: int := 1_000
  const FRAME_LIMIT: int := 120

  /** A frame, with the one or two clock readings made for it: the second is the start of a new window. */
  datatype Frame = Frame(now: int, again: int)

  function Roll(w: Window, f: Frame): Window {
    if f.now - w.start >= FRAME_WINDOW_MS then Window(f.again, 1) else w.(count := w.count + 1)
  }

  predicate Passes(w: Window, f: Frame) {
    Roll(w, f).count <= FRAME_LIMIT
  }

  class RelayConnection {
    var rateWindow: int
    var rateCount: nat

    constructor (now: int)
      ensures rateWindow == now && rateCount == 0
    {
      rateWindow, rateCount := now, 0;
    }

    method OnMessage(f: Frame) returns (passed: bool)
      modifies this
      ensures Window(rateWindow, rateCount) == Roll(old(Window(rateWindow, rateCount)), f)
      ensures passed <==> Passes(old(Window(rateWindow, rateCount)), f)
    {
      if f.now - rateWindow >= FRAME_WINDOW_MS {
        rateWindow := f.again;
        rateCount := 0;
      }
      rateCount := rateCount + 1;
      passed := rateCount <= FRAME_LIMIT;
    }
  }

  predicate ClockForward(frames: seq<Frame>) {
    && (forall i | 0 <= i < |frames| :: frames[i].now <= frames[i].again)
    && (forall i, j | 0 <= i < j < |frames| :: frames[i].again <= frames[j].now)
  }

  function After(w: Window, frames: seq<Frame>): Window
    decreases |frames|
  {
    if frames == [] then w else After(Roll(w, frames[0]), frames[1..])
  }

  /** How many of the frames get past the limit. */
  function Passed(w: Window, frames: seq<Frame>): nat
    decreases |frames|
  {
    if frames == [] then 0
    else (if Passes(w, frames[0]) then 1 else 0) + Passed(Roll(w, frames[0]), frames[1..])
  }

  /** While the window does not roll over, only what is left of it passes. */
  lemma {:induction false} PassedInOneWindow(w: Window, frames: seq<Frame>)
    requires forall i | 0 <= i < |frames| :: frames[i].now < w.start + FRAME_WINDOW_MS
    ensures Passed(w, frames) <= Max(FRAME_LIMIT - w.count, 0)
    decreases |frames|
  {
    if frames != [] {
      PassedInOneWindow(Roll(w, frames[0]), frames[1..]);
    }
  }

  lemma {:induction false} PassedInSpan(w: Window, frames: seq<Frame>, from: int)
    requires ClockForward(frames)
    requires forall i | 0 <= i < |frames| :: from <= frames[i].now < from + FRAME_WINDOW_MS
    ensures Passed(w, frames) <= Max(FRAME_LIMIT - w.count, 0) + FRAME_LIMIT
    decreases |frames|
  {
    if frames != [] {
      if frames[0].now - w.start >= FRAME_WINDOW_MS {
        PassedInOneWindow(Roll(w, frames[0]), frames[1..]);
      } else {
        PassedInSpan(Roll(w, frames[0]), frames[1..], from);
      }
    }
  }

  /** Of the frames of a connection that fall into any 1000 milliseconds at most 240 pass. */
  lemma FramesPerSecond(start: int, frames: seq<Frame>, i: nat, j: nat)
    requires ClockForward(frames) && i < j <= |frames|
    requires frames[j - 1].now < frames[i].now + FRAME_WINDOW_MS
    ensures Passed(After(Window(start, 0), frames[..i]), frames[i..j]) <= 2 * FRAME_LIMIT
  {
    var span := frames[i..j];
    assert forall k | 0 <= k < |span| :: span[k] == frames[i + k];
    PassedInSpan(After(Window(start, 0), frames[..i]), span, frames[i].now);
  }

  /** `n` frames read at one instant. */
  function Burst(at: int, n: nat): seq<Frame> {
    if n == 0 then [] else [Frame(at, at)] + Burst(at, n - 1)
  }

  lemma {:induction false} BurstPasses(w: Window, at: int, n: nat, rest: seq<Frame>)
    requires at < w.start + FRAME_WINDOW_MS && w.count + n <= FRAME_LIMIT
    ensures Passed(w, Burst(at, n) + rest) == n + Passed(w.(count := w.count + n), rest)
    decreases n
  {
    if n == 0 {
      assert Burst(at, n) + rest == rest;
    } else {
      assert (Burst(at, n) + rest)[1..] == Burst(at, n - 1) + rest;
      BurstPasses(Roll(w, Frame(at, at)), at, n - 1, rest);
    }
  }

  /** The bound is reached: 120 frames at the end of a window and 120 at the start of the next, one millisecond on. */
  lemma FramesPerSecondIsReached(start: int)
    ensures var end := start + FRAME_WINDOW_MS;
            Passed(Window(start, 0), Burst(end - 1, 120) + Burst(end, 120)) == 2 * FRAME_LIMIT
  {
    var end := start + FRAME_WINDOW_MS;
    BurstPasses(Window(start, 0), end - 1, 120, Burst(end, 120));
    assert Burst(end, 120) == [Frame(end, end)] + Burst(end, 119);
    BurstPasses(Window(end, 1), end, 119, []);
    assert Burst(end, 119) + [] == Burst(end, 119);
  }

  lemma {:induction false} AfterOneMore(w: Window, frames: seq<Frame>, f: Frame)
    ensures After(w, frames + [f]) == Roll(After(w, frames), f)
    decreases |frames|
  {
    if frames == [] {
      assert [f][1..] == [];
    } else {
      assert (frames + [f])[1..] == frames[1..] + [f];
      AfterOneMore(Roll(w, frames[0]), frames[1..], f);
    }
  }

  /** The frame that opened the window in use after `frames`: a frame opens one if it comes a second or more after the
      last was opened, the first one by the connection itself. */
  function OpenedBy(start: int, frames: seq<Frame>): (k: Option<nat>)
    ensures k.Some? ==> k.value < |frames|
  {
    if frames == [] then None
    else
      var n := |frames| - 1;
      var before := OpenedBy(start, frames[..n]);
      var since := if before.Some? then frames[before.value].again else start;
      if frames[n].now >= since + 1_000 then Some(n) else before
  }

  lemma {:induction false} WindowIsOpened(start: int, frames: seq<Frame>)
    ensures After(Window(start, 0), frames)
         == match OpenedBy(start, frames)
            case Some(k) => Window(frames[k].again, |frames| - k)
            case None => Window(start, |frames|)
  {
    if frames != [] {
      var n := |frames| - 1;
      WindowIsOpened(start, frames[..n]);
      AfterOneMore(Window(start, 0), frames[..n], frames[n]);
      assert frames[..n] + [frames[n]] == frames;
    }
  }

  /** Every frame of every connection passes exactly if it opens a window or is among the first 120 frames since the
      window in use was opened, those that did not pass included. */
  lemma {:induction false} PassesExactly(start: int, frames: seq<Frame>, f: Frame)
    ensures Passes(After(Window(start, 0), frames), f)
       <==> match OpenedBy(start, frames + [f])
            case Some(k) => |frames| - k < 120
            case None => |frames| < 120
  {
    AfterOneMore(Window(start, 0), frames, f);
    WindowIsOpened(start, frames + [f]);
  }

  /** After a second of silence frames pass again, whatever was refused before. */
  lemma {:induction false} SilenceReadmits(start: int, frames: seq<Frame>, f: Frame)
    requires ClockForward(frames + [f]) && frames != [] && start <= frames[0].now
    requires f.now >= frames[|frames| - 1].again + 1_000
    ensures Passes(After(Window(start, 0), frames), f)
  {
    var n := |frames|;
    assert (frames + [f])[n] == f && (frames + [f])[..n] == frames;
    assert forall i | 0 <= i < n :: (frames + [f])[i] == frames[i];
    PassesExactly(start, frames, f);
  }

  // ----- Requests of one address -----

  const REQUEST_WINDOW_MS: int := 60_000
  const REQUEST_LIMIT: int := 600
  const MAX_ADDRESSES: nat := 1_000

  type Windows = map<string, Window>

  function Current(windows: Windows, address: string, now: int): Window {
    if address in windows && now - windows[address].start <= REQUEST_WINDOW_MS then windows[address] else Window(now, 0)
  }

  function Counted(windows: Windows, address: string, now: int): Windows {
    var w := Current(windows, address, now);
    windows[address := w.(count := w.count + 1)]
  }

  predicate Admits(windows: Windows, address: string, now: int) {
    Counted(windows, address, now)[address].count <= REQUEST_LIMIT
  }

  /** An admitted request also forgets expired windows when there are many. */
  function Enforce(windows: Windows, address: string, now: int): Windows {
    var counted := Counted(windows, address, now);
    if Admits(windows, address, now) && |counted| > MAX_ADDRESSES then
      map a | a in counted && now - counted[a].start <= REQUEST_WINDOW_MS :: counted[a]
    else
      counted
  }

  class RequestLimiter {
    var requestWindows: Windows

    constructor ()
      ensures requestWindows == map[]
    {
      requestWindows := map[];
    }

    method EnforceRateLimit(address: string, now: int) returns (admitted: bool)
      modifies this
      ensures requestWindows == Enforce(old(requestWindows), address, now)
      ensures admitted <==> Admits(old(requestWindows), address, now)
    {
      var window := Window(now, 0);
      if address in requestWindows && now - requestWindows[address].start <= REQUEST_WINDOW_MS {
        window := requestWindows[address];
      }
      window := window.(count := window.count + 1);
      requestWindows := requestWindows[address := window];
      if window.count > REQUEST_LIMIT {
        return false;
      }
      if |requestWindows| > MAX_ADDRESSES {
        DropExpired(now);
      }
      admitted := true;
    }

    method DropExpired(now: int)
      modifies this
      ensures requestWindows ==
              map a | a in old(requestWindows) && now - old(requestWindows)[a].start <= REQUEST_WINDOW_MS ::
                old(requestWindows)[a]
    {
      ghost var before := requestWindows;
      var left := requestWindows.Keys;
      while left != {}
        invariant left <= requestWindows.Keys <= before.Keys
        invariant forall a | a in requestWindows :: requestWindows[a] == before[a]
        invariant forall a | a in before && a !in left ::
                    a in requestWindows <==> now - before[a].start <= REQUEST_WINDOW_MS
        decreases left
      {
        var a :| a in left;
        left := left - {a};
        if now - requestWindows[a].start > REQUEST_WINDOW_MS {
          requestWindows := requestWindows - {a};
        }
      }
    }
  }

  datatype Request = Request(address: string, now: int)

  function AfterRequests(windows: Windows, requests: seq<Request>): Windows
    decreases |requests|
  {
    if requests == [] then windows
    else AfterRequests(Enforce(windows, requests[0].address, requests[0].now), requests[1..])
  }

  /** How many requests of one address are admitted, in a run of requests of any addresses. */
  function Admitted(windows: Windows, requests: seq<Request>, address: string): nat
    decreases |requests|
  {
    if requests == [] then 0
    else
      var r := requests[0];
      (if r.address == address && Admits(windows, r.address, r.now) then 1 else 0)
      + Admitted(Enforce(windows, r.address, r.now), requests[1..], address)
  }

  function Room(windows: Windows, address: string): int {
    if address in windows then Max(REQUEST_LIMIT - windows[address].count, 0) else 0
  }

  lemma {:induction false} AdmittedInOneWindow(windows: Windows, requests: seq<Request>, address: string)
    requires address in windows
    requires forall i | 0 <= i < |requests| :: requests[i].now <= windows[address].start + REQUEST_WINDOW_MS
    ensures Admitted(windows, requests, address) <= Room(windows, address)
    decreases |requests|
  {
    if requests != [] {
      AdmittedInOneWindow(Enforce(windows, requests[0].address, requests[0].now), requests[1..], address);
    }
  }

  lemma {:induction false} AdmittedInSpan(windows: Windows, requests: seq<Request>, address: string, from: int)
    requires forall i | 0 <= i < |requests| :: from <= requests[i].now <= from + REQUEST_WINDOW_MS
    ensures Admitted(windows, requests, address) <= Room(windows, address) + REQUEST_LIMIT
    decreases |requests|
  {
    if requests != [] {
      var r := requests[0];
      var next := Enforce(windows, r.address, r.now);
      if r.address == address && !(address in windows && r.now - windows[address].start <= REQUEST_WINDOW_MS) {
        AdmittedInOneWindow(next, requests[1..], address);
      } else {
        AdmittedInSpan(next, requests[1..], address, from);
      }
    }
  }

  /** A window is opened by a request, which it counts. */
  predicate Opened(windows: Windows) {
    forall a | a in windows :: windows[a].count >= 1
  }

  lemma {:induction false} RequestsOpenWindows(windows: Windows, requests: seq<Request>)
    requires Opened(windows)
    ensures Opened(AfterRequests(windows, requests))
    decreases |requests|
  {
    if requests != [] {
      RequestsOpenWindows(Enforce(windows, requests[0].address, requests[0].now), requests[1..]);
    }
  }

  /** Whatever other addresses do, at most 1199 requests of one address are admitted within any 60 seconds. */
  lemma {:induction false} RequestsPerMinute(requests: seq<Request>, i: nat, j: nat, address: string)
    requires i < j <= |requests|
    requires forall a, b | 0 <= a < b < |requests| :: requests[a].now <= requests[b].now
    requires requests[j - 1].now <= requests[i].now + REQUEST_WINDOW_MS
    ensures Admitted(AfterRequests(map[], requests[..i]), requests[i..j], address) <= 2 * REQUEST_LIMIT - 1
  {
    var span, before := requests[i..j], AfterRequests(map[], requests[..i]);
    assert forall k | 0 <= k < |span| :: span[k] == requests[i + k];
    RequestsOpenWindows(map[], requests[..i]);
    AdmittedInSpan(before, span, address, requests[i].now);
  }

  function RequestBurst(address: string, at: int, n: nat): seq<Request> {
    if n == 0 then [] else [Request(address, at)] + RequestBurst(address, at, n - 1)
  }

  lemma {:induction false} AdmittedFirst(windows: Windows, all: seq<Request>, r: Request, rest: seq<Request>,
                                         address: string)
    requires all == [r] + rest
    ensures Admitted(windows, all, address)
         == (if r.address == address && Admits(windows, r.address, r.now) then 1 else 0)
            + Admitted(Enforce(windows, r.address, r.now), rest, address)
  {
    assert all[0] == r && all[1..] == rest;
  }

  lemma {:induction false} RequestBurstPasses(address: string, w: Window, at: int, n: nat, rest: seq<Request>)
    requires at - w.start <= REQUEST_WINDOW_MS && w.count + n <= REQUEST_LIMIT
    ensures Admitted(map[address := w], RequestBurst(address, at, n) + rest, address)
         == n + Admitted(map[address := w.(count := w.count + n)], rest, address)
    decreases n
  {
    if n == 0 {
      assert RequestBurst(address, at, 0) + rest == rest;
    } else {
      var more := RequestBurst(address, at, n - 1) + rest;
      assert RequestBurst(address, at, n) + rest == [Request(address, at)] + more;
      AdmittedFirst(map[address := w], RequestBurst(address, at, n) + rest, Request(address, at), more, address);
      CountedAlone(address, w, at);
      RequestBurstPasses(address, w.(count := w.count + 1), at, n - 1, rest);
    }
  }

  lemma CountedAlone(address: string, w: Window, at: int)
    ensures var next := if at - w.start <= REQUEST_WINDOW_MS then w.(count := w.count + 1) else Window(at, 1);
            && Counted(map[address := w], address, at) == map[address := next]
            && Enforce(map[address := w], address, at) == map[address := next]
  {
    var next := if at - w.start <= REQUEST_WINDOW_MS then w.(count := w.count + 1) else Window(at, 1);
    assert map[address := w][address := next] == map[address := next];
    assert |map[address := next]| == 1;
  }

  /** The bound is reached: after one request 599 more in the last millisecond of its window, and 600 in the next
      one. */
  lemma {:induction false} RequestsPerMinuteIsReached(address: string, at: int)
    ensures var late := at + REQUEST_WINDOW_MS;
            var before := AfterRequests(map[], [Request(address, at)]);
            Admitted(before, RequestBurst(address, late, 599) + RequestBurst(address, late + 1, 600), address)
            == 2 * REQUEST_LIMIT - 1
  {
    var late, first := at + REQUEST_WINDOW_MS, [Request(address, at)];
    assert first[1..] == [];
    assert Counted(map[], address, at) == map[address := Window(at, 1)];
    assert AfterRequests(map[], first) == map[address := Window(at, 1)];
    var burst := RequestBurst(address, late + 1, 600);
    RequestBurstPasses(address, Window(at, 1), late, 599, burst);
    var rest := RequestBurst(address, late + 1, 599);
    AdmittedFirst(map[address := Window(at, 600)], burst, Request(address, late + 1), rest, address);
    CountedAlone(address, Window(at, 600), late + 1);
    RequestBurstPasses(address, Window(late + 1, 1), late + 1, 599, []);
    assert rest + [] == rest;
  }

  // ----- What is admitted, told by the history -----

  lemma {:induction false} EnforceOneMore(windows: Windows, requests: seq<Request>, r: Request)
    ensures AfterRequests(windows, requests + [r]) == Enforce(AfterRequests(windows, requests), r.address, r.now)
    decreases |requests|
  {
    if requests == [] {
      assert [r][1..] == [];
    } else {
      assert (requests + [r])[1..] == requests[1..] + [r];
      EnforceOneMore(Enforce(windows, requests[0].address, requests[0].now), requests[1..], r);
    }
  }

  /** The request that opened the last window of an address: the first one of the address, and then the first one that
      comes more than 60 seconds after the last window was opened. */
  function RequestOpening(requests: seq<Request>, address: string): (k: Option<nat>)
    ensures k.Some? ==> k.value < |requests| && requests[k.value].address == address
  {
    if requests == [] then None
    else
      var n := |requests| - 1;
      var before := RequestOpening(requests[..n], address);
      if requests[n].address != address then before
      else if before.Some? && requests[n].now <= requests[before.value].now + 60_000 then before
      else Some(n)
  }

  /** How many requests of an address there are from `k` on. */
  function RequestsSince(requests: seq<Request>, address: string, k: nat): nat {
    if |requests| <= k then 0
    else
      var n := |requests| - 1;
      RequestsSince(requests[..n], address, k) + if requests[n].address == address then 1 else 0
  }

  predicate InTurn(requests: seq<Request>) {
    forall i, j | 0 <= i < j < |requests| :: requests[i].now <= requests[j].now
  }

  /** The window of an address is the one last opened, with all its requests counted, or has been over for so long that
      it may have been forgotten. */
  predicate Remembered(windows: Windows, requests: seq<Request>, address: string) {
    match RequestOpening(requests, address)
    case None => address !in windows
    case Some(k) =>
      if address in windows then windows[address] == Window(requests[k].now, RequestsSince(requests, address, k))
      else requests[|requests| - 1].now > requests[k].now + 60_000
  }

  lemma {:induction false} WindowsAreRemembered(requests: seq<Request>, address: string)
    requires InTurn(requests)
    ensures Remembered(AfterRequests(map[], requests), requests, address)
  {
    if requests != [] {
      var n := |requests| - 1;
      var before, r := AfterRequests(map[], requests[..n]), requests[n];
      WindowsAreRemembered(requests[..n], address);
      EnforceOneMore(map[], requests[..n], r);
      assert requests[..n] + [r] == requests;
      RememberedStep(before, requests[..n], requests, r, address);
    }
  }

  lemma EnforceAt(windows: Windows, address: string, now: int, a: string)
    ensures var after := Enforce(windows, address, now);
            if a == address then
              var w := Current(windows, address, now);
              a in after && after[a] == w.(count := w.count + 1)
            else if a in after then a in windows && after[a] == windows[a]
            else a !in windows || now - windows[a].start > REQUEST_WINDOW_MS
  {
  }

  lemma {:induction false} RememberedStep(before: Windows, fewer: seq<Request>, requests: seq<Request>, r: Request,
                                          address: string)
    requires InTurn(requests) && requests == fewer + [r] && Remembered(before, fewer, address)
    ensures Remembered(Enforce(before, r.address, r.now), requests, address)
  {
    var after := Enforce(before, r.address, r.now);
    EnforceAt(before, r.address, r.now, address);
    assert requests[..|fewer|] == fewer && requests[|fewer|] == r;
    assert forall i | 0 <= i < |fewer| :: fewer[i] == requests[i] && fewer[i].now <= r.now;
    var opening := RequestOpening(fewer, address);
    if r.address != address {
      assert RequestOpening(requests, address) == opening;
    } else if opening.Some? && r.now <= fewer[opening.value].now + 60_000 {
      assert RequestOpening(requests, address) == opening;
      assert address in before;
    } else {
      assert RequestOpening(requests, address) == Some(|fewer|);
      assert RequestsSince(fewer, address, |fewer|) == 0;
    }
  }

  /** Every request is admitted exactly if it is among the first 600 of its address since that address's window was
      opened, refused ones included. Forgetting windows changes nothing. */
  lemma {:induction false} AdmitsExactly(requests: seq<Request>, r: Request)
    requires InTurn(requests + [r])
    ensures var all := requests + [r];
            && RequestOpening(all, r.address).Some?
            && (Admits(AfterRequests(map[], requests), r.address, r.now) <==>
                  RequestsSince(all, r.address, RequestOpening(all, r.address).value) <= 600)
  {
    var all, n := requests + [r], |requests|;
    assert all[..n] == requests && all[n] == r;
    assert forall i | 0 <= i < n :: all[i] == requests[i];
    WindowsAreRemembered(requests, r.address);
  }
}
