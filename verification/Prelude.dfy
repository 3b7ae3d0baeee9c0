/** What the modules of this project share. */
module Prelude {

  datatype Option<+T> = None | Some(value: T)

  datatype Result<+T, +E> = Ok(value: T) | Err(error: E)

  /** How one awaited operation of the host process ends: it returns, it throws, or the process dies in it. */
  datatype Status = Returned | Threw | Crashed {
    predicate IsFailure() { !Returned? }

    function PropagateFailure(): Status
      requires IsFailure()
    {
      this
    }
  }

  /** The code an error carries, as far as the callers look at it. */
  datatype Code = NoEntry | Refused | OtherCode

  /** What the environment makes of one awaited operation: it succeeds, it throws without effect, or the process dies
      before or after its effect. */
  datatype Ending = Succeeds | Fails(code: Code) | DiesBefore | DiesAfter {
    predicate TakesEffect() { Succeeds? || DiesAfter? }

    function AsStatus(): Status {
      match this
      case Succeeds => Returned
      case Fails(_) => Threw
      case _ => Crashed
    }
  }

  /** The environment of a process: the endings of all its operations, in the order in which they are awaited. */
  class Environment {
    const schedule: nat -> Ending
    var clock: nat

    constructor (schedule: nat -> Ending)
      ensures this.schedule == schedule && clock == 0
    {
      this.schedule := schedule;
      clock := 0;
    }

    /** Of the operations from `start` to before `end` none fails. */
    predicate Smooth(start: nat, end: nat) {
      forall i | start <= i < end :: schedule(i).Succeeds?
    }

    method Next() returns (e: Ending)
      modifies this
      ensures clock == old(clock) + 1 && e == schedule(old(clock))
    {
      e := schedule(clock);
      clock := clock + 1;
    }

    /** An operation without an effect the model knows of. */
    method Attempt() returns (s: Status)
      modifies this
      ensures clock == old(clock) + 1 && s == schedule(old(clock)).AsStatus()
    {
      var e := Next();
      s := e.AsStatus();
    }
  }

  function Flatten<T>(parts: seq<seq<T>>): seq<T> {
    if parts == [] then [] else parts[0] + Flatten(parts[1..])
  }

  lemma {:induction false} FlattenAppend<T>(parts: seq<seq<T>>, last: seq<T>)
    ensures Flatten(parts + [last]) == Flatten(parts) + last
  {
    if parts == [] {
      assert parts + [last] == [last];
      assert Flatten([last]) == last + Flatten([]);
    } else {
      FlattenAppend(parts[1..], last);
      assert (parts + [last])[1..] == parts[1..] + [last];
    }
  }

  type Byte = b: int | 0 <= b < 256

  function Min(a: int, b: int): int { if a < b then a else b }

  function Max(a: int, b: int): int { if a < b then b else a }

  /** `list()` of the control plane returns the oldest 500 events by default. */
  const LIST_LIMIT: nat := 500

  function Oldest<T>(log: seq<T>): seq<T> {
    if |log| <= LIST_LIMIT then log else log[..LIST_LIMIT]
  }

  lemma Regroup<T>(a: seq<T>, b: seq<T>, c: seq<T>)
    ensures a + (b + c) == a + b + c
  {
  }
}
