/** The pair of runtime pointers `current.json` and `previous.json`, journalled through
    `pointers.transaction.json` (packages/desktop-host/src/index.ts).

    One file operation is one step. Its ending is given by the environment: it may succeed, it may throw without taking
    effect, and before or after it the process may die. On Windows a replacement may be two steps, a removal and then a
    rename. */
module RuntimePointerStore {
  import opened Prelude

  /** `signature` is the artifact's, `manifestSignature` the one over the manifest itself. */
  datatype Manifest = Manifest(
    runtimeVersion: string, size: nat, sha256: string, signature: string, manifestSignature: Option<string>)

  predicate AlphaNumeric(c: char) {
    'A' <= c <= 'Z' || 'a' <= c <= 'z' || '0' <= c <= '9'
  }

  /** The one manifest check the pointers depend on: `runtimeVersion` is a safe directory name. */
  predicate Validated(m: Manifest) {
    var v := m.runtimeVersion;
    && 1 <= |v| <= 160
    && AlphaNumeric(v[0])
    && forall i | 0 <= i < |v| :: AlphaNumeric(v[i]) || v[i] in "._-"
  }

  /** By code points: digits, letters, and after the first character also hyphen, full stop and underscore. */
  lemma ValidVersionsExactly(m: Manifest)
    ensures var v := m.runtimeVersion;
            Validated(m) <==>
              && 0 < |v| < 161 && v[0] as int !in {45, 46, 95}
              && forall i | 0 <= i < |v| ::
                   var c := v[i] as int;
                   48 <= c <= 57 || 65 <= c <= 90 || 97 <= c <= 122 || c in {45, 46, 95}
  {
  }

  /** A valid version names a directory directly inside the one of all versions. */
  lemma ValidVersionIsFileName(m: Manifest)
    requires Validated(m)
    ensures m.runtimeVersion !in ["", ".", ".."]
    ensures forall c | c in m.runtimeVersion :: c !in "/\\:" && ' ' < c <= 'z'
  {
    assert m.runtimeVersion[0] != '.';
  }

  datatype Pair = Pair(current: Option<Manifest>, previous: Option<Manifest>)

  datatype Path = CurrentFile | PreviousFile | TransactionFile

  datatype Contents = Pointer(manifest: Manifest) | Transaction(pair: Pair)

  type Files = map<Path, Contents>

  predicate ValidPointer(m: Option<Manifest>) {
    m.Some? ==> Validated(m.value)
  }

  predicate ValidPair(p: Pair) {
    ValidPointer(p.current) && ValidPointer(p.previous)
  }

  predicate WellFormed(files: Files) {
    forall path | path in files ::
      if path.TransactionFile? then files[path].Transaction? && ValidPair(files[path].pair)
      else files[path].Pointer? && Validated(files[path].manifest)
  }

  function Read(files: Files, path: Path): Option<Manifest>
    requires WellFormed(files)
    requires path != TransactionFile
  {
    if path in files then Some(files[path].manifest) else None
  }

  /** What the two pointer files say. */
  function Physical(files: Files): Pair
    requires WellFormed(files)
  {
    Pair(Read(files, CurrentFile), Read(files, PreviousFile))
  }

  /** What the next reader will see: a transaction file outranks the pointer files. */
  function Logical(files: Files): Pair
    requires WellFormed(files)
  {
    if TransactionFile in files then files[TransactionFile].pair else Physical(files)
  }

  datatype Call = Promote(manifest: Manifest) | Rollback | ReadPointers

  /** The pair a call leaves when it takes effect. */
  function Commit(call: Call, p: Pair): Pair {
    match call
    case Promote(m) => Pair(Some(m), p.current)
    case Rollback => if p.previous.Some? then Pair(p.previous, p.current) else p
    case ReadPointers => p
  }

  /** A call may take effect only when its manifest is valid, respectively when there is a previous runtime. */
  predicate Admissible(call: Call, p: Pair) {
    match call
    case Promote(m) => Validated(m)
    case Rollback => p.previous.Some?
    case ReadPointers => true
  }

  /** All or nothing: a call that returns took effect, one that throws did not, one that dies did either. */
  predicate Effect(call: Call, before: Pair, s: Status, after: Pair) {
    match s
    case Returned => Admissible(call, before) && after == Commit(call, before)
    case Threw => after == before
    case Crashed => after == before || (Admissible(call, before) && after == Commit(call, before))
  }

  class RuntimePointers {
    const win32: bool
    const env: Environment
    var files: Files

    ghost predicate Valid()
      reads this
    {
      WellFormed(files)
    }

    constructor (win32: bool, env: Environment)
      ensures Valid() && files == map[] && this.win32 == win32 && this.env == env
    {
      this.win32, this.env := win32, env;
      files := map[];
    }

    /** `refused`: the rename failed with EEXIST, EPERM or EACCES. */
    method Rename(path: Path, contents: Contents) returns (s: Status, refused: bool)
      modifies this, env
      ensures env.clock == old(env.clock) + 1 && s == env.schedule(old(env.clock)).AsStatus()
      ensures refused <==> env.schedule(old(env.clock)) == Fails(Refused)
      ensures s.Returned? ==> files == old(files)[path := contents]
      ensures s.Threw? ==> files == old(files)
      ensures s.Crashed? ==> files == old(files) || files == old(files)[path := contents]
    {
      var e := env.Next();
      if e.TakesEffect() {
        files := files[path := contents];
      }
      s, refused := e.AsStatus(), e == Fails(Refused);
    }

    method Remove(path: Path) returns (s: Status)
      modifies this, env
      ensures env.clock == old(env.clock) + 1 && s == env.schedule(old(env.clock)).AsStatus()
      ensures s.Returned? ==> files == old(files) - {path}
      ensures s.Threw? ==> files == old(files)
      ensures s.Crashed? ==> files == old(files) || files == old(files) - {path}
    {
      var e := env.Next();
      if e.TakesEffect() {
        files := files - {path};
      }
      s := e.AsStatus();
    }

    method AtomicWrite(path: Path, contents: Contents) returns (s: Status)
      modifies this, env
      ensures s.Returned? ==> files == old(files)[path := contents]
      ensures s.Threw? ==> files == old(files) || (win32 && files == old(files) - {path})
      ensures s.Crashed? ==>
                || files == old(files)
                || files == old(files)[path := contents]
                || (win32 && files == old(files) - {path})
      ensures old(env.clock) < env.clock
      ensures var at := old(env.clock);
              s.Returned? <==>
              || env.Smooth(at, at + 3)
              || (win32 && env.Smooth(at, at + 2) && env.schedule(at + 2) == Fails(Refused)
                  && env.Smooth(at + 3, at + 5))
      ensures env.Smooth(old(env.clock), env.clock) ==> s.Returned?
      ensures s.Returned? && !win32 ==> env.Smooth(old(env.clock), env.clock)
    {
      s := Returned;
      :- env.Attempt();                                    // mkdir
      :- env.Attempt();                                    // writeFile of the temporary
      var refused;
      s, refused := Rename(path, contents);
      if win32 && refused {
        :- Remove(path);
        s, refused := Rename(path, contents);
        assert old(files)[path := contents] == (old(files) - {path})[path := contents];
      }
    }

    /** A pointer file is written, or removed when there is nothing to point to. */
    method WriteOrRemove(path: Path, m: Option<Manifest>) returns (s: Status)
      requires Valid() && path != TransactionFile && ValidPointer(m)
      modifies this, env
      ensures Valid() && forall other | other != path :: other in files <==> other in old(files)
      ensures forall other | other != path && other in files :: files[other] == old(files)[other]
      ensures s.Returned? ==> Read(files, path) == m
      ensures old(env.clock) < env.clock
      ensures env.Smooth(old(env.clock), env.clock) ==> s.Returned?
      ensures s.Returned? && !win32 ==> env.Smooth(old(env.clock), env.clock)
    {
      if m.Some? {
        s := AtomicWrite(path, Pointer(m.value));
      } else {
        s := Remove(path);
      }
    }

    method ReadOptional(path: Path) returns (s: Status, m: Option<Manifest>)
      requires Valid() && path != TransactionFile
      modifies env
      ensures s.Returned? ==> m == Read(files, path)
      ensures env.clock == old(env.clock) + 1 && s == env.schedule(old(env.clock)).AsStatus()
    {
      m := None;
      s := env.Attempt();
      if s.Returned? {
        m := if path in files then Some(files[path].manifest) else None;
      }
    }

    /** Restores the pair recorded in the transaction file, if there is one. */
    method RecoverInterruptedTransaction() returns (s: Status)
      requires Valid()
      modifies this, env
      ensures Valid() && Logical(files) == Logical(old(files))
      ensures s.Returned? ==> TransactionFile !in files
      ensures old(env.clock) < env.clock
      ensures env.Smooth(old(env.clock), env.clock) ==> s.Returned?
      ensures s.Returned? && !win32 ==> env.Smooth(old(env.clock), env.clock)
    {
      s := Returned;
      :- env.Attempt();
      if TransactionFile !in files {
        return Returned;
      }
      var value := files[TransactionFile].pair;
      :- WriteOrRemove(CurrentFile, value.current);
      :- WriteOrRemove(PreviousFile, value.previous);
      assert Physical(files) == value;
      s := Remove(TransactionFile);
    }

    /** The body of the `try` that `promote` and `rollback` share. */
    method ReplacePointers(current: Option<Manifest>, next: Manifest) returns (s: Status)
      requires Valid() && Validated(next)
      requires TransactionFile in files && files[TransactionFile].pair.current == current
      modifies this, env
      ensures Valid()
      ensures s.Returned? ==> TransactionFile !in files && Logical(files) == Pair(Some(next), current)
      ensures s.Threw? ==> Logical(files) == Logical(old(files))
      ensures s.Crashed? ==> Logical(files) == Logical(old(files)) || Logical(files) == Pair(Some(next), current)
      ensures old(env.clock) < env.clock
      ensures env.Smooth(old(env.clock), env.clock) ==> s.Returned?
      ensures s.Returned? && !win32 ==> env.Smooth(old(env.clock), env.clock)
    {
      s := Returned;
      :- WriteOrRemove(PreviousFile, current);
      :- AtomicWrite(CurrentFile, Pointer(next));
      assert Physical(files) == Pair(Some(next), current);
      s := Remove(TransactionFile);
    }

    /** Journals `from`, replaces the pointers, and on a throw restores them before rethrowing. */
    method Transact(from: Pair, next: Manifest) returns (s: Status)
      requires Valid() && Validated(next)
      requires TransactionFile !in files && Physical(files) == from
      modifies this, env
      ensures Valid()
      ensures s.Returned? ==> TransactionFile !in files && Logical(files) == Pair(Some(next), from.current)
      ensures s.Threw? ==> Logical(files) == from
      ensures s.Crashed? ==> Logical(files) == from || Logical(files) == Pair(Some(next), from.current)
      ensures old(env.clock) < env.clock
      ensures env.Smooth(old(env.clock), env.clock) ==> s.Returned?
      ensures s.Returned? && !win32 ==> env.Smooth(old(env.clock), env.clock)
    {
      assert files - {TransactionFile} == files;
      :- AtomicWrite(TransactionFile, Transaction(from));
      s := ReplacePointers(from.current, next);
      if s.Threw? {
        var recovery := RecoverInterruptedTransaction();
        s := if recovery.Crashed? then Crashed else Threw;
      }
    }

    /** A promotion returns, with the new pair, whenever the manifest is valid and no operation fails; off Windows
        it returns only then. */
    method Promote(manifest: Manifest) returns (s: Status)
      requires Valid()
      modifies this, env
      ensures Valid()
      ensures Effect(Call.Promote(manifest), Logical(old(files)), s, Logical(files))
      ensures s.Returned? ==> TransactionFile !in files
      ensures old(env.clock) <= env.clock
      ensures env.Smooth(old(env.clock), env.clock) ==> (s.Returned? <==> Validated(manifest))
      ensures s.Returned? && !win32 ==> env.Smooth(old(env.clock), env.clock)
      ensures !Validated(manifest) ==> s.Threw? && files == old(files)
    {
      if !Validated(manifest) {
        return Threw;
      }
      :- RecoverInterruptedTransaction();
      var current :- ReadOptional(CurrentFile);
      var previous :- ReadOptional(PreviousFile);
      s := Transact(Pair(current, previous), manifest);
    }

    /** A rollback returns whenever there is a previous runtime and no operation fails; off Windows only then. */
    method Rollback() returns (s: Status, manifest: Option<Manifest>)
      requires Valid()
      modifies this, env
      ensures Valid()
      ensures Effect(Call.Rollback, Logical(old(files)), s, Logical(files))
      ensures s.Returned? ==> TransactionFile !in files && manifest == Logical(old(files)).previous
      ensures Logical(old(files)).previous.None? ==> !s.Returned?
      ensures old(env.clock) < env.clock
      ensures env.Smooth(old(env.clock), env.clock) ==> (s.Returned? <==> Logical(old(files)).previous.Some?)
      ensures s.Returned? && !win32 ==> env.Smooth(old(env.clock), env.clock)
    {
      manifest := None;
      :- RecoverInterruptedTransaction();
      var previous :- ReadOptional(PreviousFile);
      if previous.None? {
        return Threw, None;
      }
      var current :- ReadOptional(CurrentFile);
      s := Transact(Pair(current, previous), previous.value);
      manifest := previous;
    }

    method Previous() returns (s: Status, manifest: Option<Manifest>)
      requires Valid()
      modifies this, env
      ensures Valid()
      ensures Effect(ReadPointers, Logical(old(files)), s, Logical(files))
      ensures s.Returned? ==> manifest == Logical(files).previous
      ensures old(env.clock) < env.clock
      ensures env.Smooth(old(env.clock), env.clock) ==> s.Returned?
      ensures s.Returned? && !win32 ==> env.Smooth(old(env.clock), env.clock)
    {
      manifest := None;
      :- RecoverInterruptedTransaction();
      manifest :- ReadOptional(PreviousFile);
      s := Returned;
    }

    method Current() returns (s: Status, manifest: Option<Manifest>)
      requires Valid()
      modifies this, env
      ensures Valid()
      ensures Effect(ReadPointers, Logical(old(files)), s, Logical(files))
      ensures s.Returned? ==> manifest == Logical(files).current
      ensures old(env.clock) < env.clock
      ensures env.Smooth(old(env.clock), env.clock) ==> s.Returned?
      ensures s.Returned? && !win32 ==> env.Smooth(old(env.clock), env.clock)
    {
      manifest := None;
      :- RecoverInterruptedTransaction();
      manifest :- ReadOptional(CurrentFile);
      s := Returned;
    }
  }

  // ----- Whole runs -----

  datatype Event = Event(call: Call, status: Status)

  /** `states` is a run of calls, however each of them ended: the next call is made on what the last one left. */
  ghost predicate IsRun(events: seq<Event>, states: seq<Pair>) {
    && |states| == |events| + 1
    && forall i | 0 <= i < |events| :: Effect(events[i].call, states[i], events[i].status, states[i + 1])
  }

  /** The serial execution of the calls marked in `committed`, skipping the others. */
  function Replay(events: seq<Event>, committed: seq<bool>, start: Pair): Pair
    requires |events| == |committed|
  {
    if events == [] then start
    else
      var n := |events| - 1;
      var before := Replay(events[..n], committed[..n], start);
      if committed[n] then Commit(events[n].call, before) else before
  }

  /** Every run is a serial one: some set of calls holding every call that returned and none that threw
      took effect, in order and completely; the rest had no effect at all. */
  lemma {:induction false} RunIsSerial(events: seq<Event>, states: seq<Pair>) returns (committed: seq<bool>)
    requires IsRun(events, states)
    ensures |committed| == |events|
    ensures states[|events|] == Replay(events, committed, states[0])
    ensures forall i | 0 <= i < |events| :: events[i].status.Returned? ==> committed[i]
    ensures forall i | 0 <= i < |events| :: events[i].status.Threw? ==> !committed[i]
  {
    if events == [] {
      committed := [];
    } else {
      var n := |events| - 1;
      var shorter := RunIsSerial(events[..n], states[..n + 1]);
      assert Effect(events[n].call, states[n], events[n].status, states[n + 1]);
      committed := shorter + [states[n + 1] == Commit(events[n].call, states[n]) && !events[n].status.Threw?];
      assert committed[..n] == shorter;
    }
  }

  /** A pointer names only manifests that an earlier call promoted, and there is a previous runtime only
      beside a current one. */
  lemma {:induction false} RunPointsAtPromoted(events: seq<Event>, states: seq<Pair>)
    requires IsRun(events, states)
    requires states[0] == Pair(None, None)
    ensures var p := states[|events|];
            && (p.previous.Some? ==> p.current.Some?)
            && forall m | p.current == Some(m) || p.previous == Some(m) ::
                 Validated(m) && exists i | 0 <= i < |events| :: events[i].call == Call.Promote(m)
  {
    if events != [] {
      var n := |events| - 1;
      RunPointsAtPromoted(events[..n], states[..n + 1]);
      assert Effect(events[n].call, states[n], events[n].status, states[n + 1]);
      assert forall m | states[n].current == Some(m) || states[n].previous == Some(m) ::
          exists i | 0 <= i < n :: events[..n][i].call == Call.Promote(m) && events[i].call == Call.Promote(m);
    }
  }

  /** Two rollbacks undo each other exactly when there was a current runtime: without one the second
      rollback has nothing to go back to. */
  lemma RollbackUndoes(p: Pair)
    requires Admissible(Call.Rollback, p)
    ensures var q := Commit(Call.Rollback, p);
            (Admissible(Call.Rollback, q) && Commit(Call.Rollback, q) == p) <==> p.current.Some?
  {
  }
}
