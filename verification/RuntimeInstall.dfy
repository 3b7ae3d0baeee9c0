/** Installing a runtime archive (`downloadAndInstallRuntime`, packages/desktop-host/src/index.ts) and the
    command line's rollback (packages/desktop-host/src/runtime-cli.ts), on top of the crash-safe pointers. */
module RuntimeInstall {
  import opened Prelude
  import opened RuntimePointerStore

  type Bytes = seq<bv8>

  /** What a version directory holds, by path. */
  datatype Tree = Tree(files: map<string, Bytes>)

  function LowerChar(c: char): char {
    if 'A' <= c <= 'Z' then c + ' ' else c
  }

  function Lower(s: string): string {
    seq(|s|, i requires 0 <= i < |s| => LowerChar(s[i]))
  }

  predicate SameLetter(a: char, b: char) {
    || a == b
    || ('A' <= a <= 'Z' && b as int == a as int + 32)
    || ('A' <= b <= 'Z' && a as int == b as int + 32)
  }

  /** Hashes are compared by their letters alone, large or small. */
  lemma HashesIgnoreCaseOnly(a: string, b: string)
    ensures Lower(a) == Lower(b) <==> |a| == |b| && forall i | 0 <= i < |a| :: SameLetter(a[i], b[i])
  {
    assert |Lower(a)| == |a| && |Lower(b)| == |b|;
    if Lower(a) == Lower(b) {
      forall i | 0 <= i < |a| ensures SameLetter(a[i], b[i]) {
        assert Lower(a)[i] == Lower(b)[i];
      }
    }
  }

  lemma {:induction false} FlattenSplit<T>(parts: seq<seq<T>>, i: nat)
    requires i <= |parts|
    ensures Flatten(parts) == Flatten(parts[..i]) + Flatten(parts[i..])
    decreases |parts| - i
  {
    if i == |parts| {
      assert parts[..i] == parts && Flatten<T>([]) == [];
    } else {
      FlattenSplit(parts, i + 1);
      FlattenAppend(parts[..i], parts[i]);
      assert parts[..i] + [parts[i]] == parts[..i + 1];
    }
  }

  /** Reads the response body chunk by chunk, giving up as soon as it is longer than allowed. */
  method Download(env: Environment, chunks: seq<Bytes>, size: nat, maximum: nat) returns (s: Status, archive: Bytes)
    modifies env
    ensures s.Returned? ==> archive == Flatten(chunks) && |archive| == size <= maximum
    ensures |archive| <= size && |archive| <= maximum
    ensures old(env.clock) < env.clock
    ensures s.Returned? ==> env.Smooth(old(env.clock), env.clock)
    ensures env.Smooth(old(env.clock), env.clock) ==>
              !s.Crashed? && (s.Returned? <==> |Flatten(chunks)| == size <= maximum)
  {
    archive, s := [], Returned;
    :- env.Attempt();                                      // open
    for i := 0 to |chunks|
      invariant archive == Flatten(chunks[..i])
      invariant |archive| <= size && |archive| <= maximum
      invariant old(env.clock) < env.clock && env.Smooth(old(env.clock), env.clock)
    {
      s := Returned;
      :- env.Attempt();                                    // read
      FlattenAppend(chunks[..i], chunks[i]);
      assert chunks[..i + 1] == chunks[..i] + [chunks[i]];
      FlattenSplit(chunks, i + 1);
      if |archive| + |chunks[i]| > size || |archive| + |chunks[i]| > maximum {
        return Threw, archive;
      }
      :- env.Attempt();                                    // write
      archive := archive + chunks[i];
    }
    assert chunks[..|chunks|] == chunks;
    :- env.Attempt();                                      // the end of the body, and close
    s := if |archive| != size then Threw else Returned;
  }

  /** How the command line's rollback ends. */
  datatype RollbackOutcome = RolledBackTo(manifest: Manifest) | Failed | Undone | UndoFailed | Died

  datatype Command = Install(manifest: Manifest, chunks: seq<Bytes>, maximum: nat) | RollBack | Look

  /** The libraries and options of an install: hash, signature checks against the public key, extraction. */
  datatype Trust = Trust(
    sha256: Bytes -> string, signed: (Bytes, string) -> bool, manifestSigned: Manifest -> bool,
    extract: Bytes -> Option<Tree>, allowUnsignedLocal: bool, requireManifestSignature: bool)
  {
    /** What the archive must be: whole, with the manifest's hash, and signed unless unsigned ones are allowed. */
    predicate Verified(m: Manifest, archive: Bytes) {
      && |archive| == m.size
      && Lower(sha256(archive)) == Lower(m.sha256)
      && (signed(archive, m.signature) || m.signature == "UNSIGNED-LOCAL")
      && (m.signature == "UNSIGNED-LOCAL" ==> allowUnsignedLocal)
      && (requireManifestSignature ==>
            if m.manifestSignature.Some? then manifestSigned(m) else allowUnsignedLocal)
    }

    /** A body that an install makes the current runtime when nothing fails on the way. */
    predicate Installs(m: Manifest, chunks: seq<Bytes>, maximum: nat) {
      && Validated(m) && m.size <= maximum
      && Verified(m, Flatten(chunks)) && extract(Flatten(chunks)).Some?
    }

    /** What a command does to the pointers when nothing fails on the way. */
    function Outcome(command: Command, p: Pair): Pair {
      match command
      case Install(m, chunks, maximum) => if Installs(m, chunks, maximum) then Pair(Some(m), p.current) else p
      case RollBack => if p.previous.Some? then Pair(p.previous, p.current) else p
      case Look => p
    }

    function Outcomes(commands: seq<Command>, p: Pair): Pair {
      if commands == [] then p
      else Outcome(commands[|commands| - 1], Outcomes(commands[..|commands| - 1], p))
    }
  }

  class RuntimeStore {
    const pointers: RuntimePointers
    const env: Environment
    const trust: Trust
    var versions: map<string, Tree>
    var staging: Option<Tree>
    /** Directory contents that passed a smoke test at least once. */
    ghost var smoked: set<Tree>
    /** The archive each version directory was extracted from. */
    ghost var origin: map<string, Bytes>

    ghost predicate Valid()
      reads this, pointers
    {
      pointers.Valid() && pointers.env == env && origin.Keys == versions.Keys
    }

    /** A pointer names a version directory whose contents passed a smoke test. */
    ghost predicate Bootable(m: Option<Manifest>)
      reads this
    {
      m.Some? ==> m.value.runtimeVersion in versions && versions[m.value.runtimeVersion] in smoked
    }

    ghost predicate Sound()
      requires Valid()
      reads this, pointers
    {
      var p := Logical(pointers.files);
      Bootable(p.current) && Bootable(p.previous) && (p.previous.Some? ==> p.current.Some?)
    }

    /** The directory a manifest names was extracted from an archive with the manifest's own hash. */
    ghost predicate Faithful(m: Manifest)
      reads this
    {
      m.runtimeVersion in origin && Lower(trust.sha256(origin[m.runtimeVersion])) == Lower(m.sha256)
    }

    constructor (win32: bool, env: Environment, trust: Trust)
      ensures Valid() && Sound() && fresh(pointers) && versions == map[] && smoked == {}
      ensures this.env == env && this.trust == trust && pointers.win32 == win32
    {
      pointers := new RuntimePointers(win32, env);
      this.env, this.trust := env, trust;
      versions, staging, smoked, origin := map[], None, {}, map[];
    }

    /** A smoke test of a directory: its verdict is the environment's, what passed is recorded. `noEntry`: it failed
        with ENOENT, for instance from spawning the child. */
    method SmokeTest(tree: Tree) returns (s: Status, noEntry: bool)
      modifies this`smoked, env
      ensures env.clock == old(env.clock) + 1 && s == env.schedule(old(env.clock)).AsStatus()
      ensures noEntry <==> env.schedule(old(env.clock)) == Fails(NoEntry)
      ensures smoked == if s.Returned? then old(smoked) + {tree} else old(smoked)
    {
      var e := env.Next();
      s, noEntry := e.AsStatus(), e == Fails(NoEntry);
      smoked := if s.Returned? then smoked + {tree} else smoked;
    }

    /** `verifyRuntimeManifestSignature`. */
    predicate ManifestIsAccepted(manifest: Manifest) {
      if manifest.manifestSignature.None? then trust.allowUnsignedLocal else trust.manifestSigned(manifest)
    }

    /** `verifyRuntimeArtifact`. */
    method VerifyArtifact(manifest: Manifest, archive: Bytes) returns (s: Status)
      modifies env
      ensures old(env.clock) <= env.clock
      ensures s.Returned? ==> trust.Verified(manifest, archive) && env.Smooth(old(env.clock), env.clock)
      ensures env.Smooth(old(env.clock), env.clock) ==>
                !s.Crashed? && (s.Returned? <==> trust.Verified(manifest, archive))
    {
      if trust.requireManifestSignature && !ManifestIsAccepted(manifest) {
        return Threw;
      }
      s := Returned;
      :- env.Attempt();                                    // stat
      if |archive| != manifest.size {
        return Threw;
      }
      :- env.Attempt();                                    // sha256File
      if Lower(trust.sha256(archive)) != Lower(manifest.sha256) {
        return Threw;
      }
      if manifest.signature == "UNSIGNED-LOCAL" {
        return if trust.allowUnsignedLocal then Returned else Threw;
      }
      :- env.Attempt();                                    // readFile
      s := if trust.signed(archive, manifest.signature) then Returned else Threw;
    }

    /** Extracts a verified archive into an empty staging directory and smoke-tests it there. */
    method Stage(manifest: Manifest, archive: Bytes) returns (s: Status)
      modifies this`staging, this`smoked, env
      ensures old(smoked) <= smoked
      ensures s.Returned? ==> trust.Verified(manifest, archive)
      ensures s.Returned? ==> trust.extract(archive).Some? && staging == trust.extract(archive)
      ensures s.Returned? ==> staging.value in smoked
      ensures old(env.clock) <= env.clock
      ensures s.Returned? ==> env.Smooth(old(env.clock), env.clock)
      ensures env.Smooth(old(env.clock), env.clock) ==>
                !s.Crashed? && (s.Returned? <==> trust.Verified(manifest, archive) && trust.extract(archive).Some?)
    {
      s := Returned;
      :- VerifyArtifact(manifest, archive);
      :- env.Attempt();                                    // journal 'verified'
      :- env.Attempt();                                    // remove what an earlier attempt left, make it anew
      staging := None;
      :- env.Attempt();
      staging := trust.extract(archive);
      if staging.None? {
        return Threw;
      }
      var noEntry;
      s, noEntry := SmokeTest(staging.value);
    }

    /** Moves the staged directory into place, or reuses the one already there if it passes a smoke test. */
    method Place(version: string, ghost archive: Bytes) returns (s: Status)
      requires Valid() && staging.Some? && staging.value in smoked
      modifies this`staging, this`smoked, this`versions, this`origin, env
      ensures Valid() && old(smoked) <= smoked
      ensures version in old(versions) ==> versions == old(versions) && origin == old(origin)
      ensures version !in old(versions) ==>
                || (versions == old(versions) && origin == old(origin))
                || (versions == old(versions)[version := old(staging).value]
                    && origin == old(origin)[version := archive])
      ensures s.Returned? ==> version in versions && versions[version] in smoked
      ensures old(env.clock) < env.clock
      ensures s.Returned? <==> env.Smooth(old(env.clock), env.clock)
    {
      var missing := version !in versions;
      s := Returned;
      :- env.Attempt();                                    // stat
      if !missing {
        var noEntry;
        s, noEntry := SmokeTest(versions[version]);
        if s.Returned? {
          :- env.Attempt();
          staging := None;
          return Returned;
        }
        if !noEntry {
          return s;
        }
      }
      // No such directory, or a smoke failure that carries the same code. A rename onto a directory that
      // holds anything fails, and the directory of an installed version holds at least its node binary.
      var e := env.Next();
      if !missing {
        return if e.AsStatus().Crashed? then Crashed else Threw;
      }
      if e.TakesEffect() {
        versions, origin := versions[version := staging.value], origin[version := archive];
        staging := None;
      }
      s := e.AsStatus();
    }

    /** The body of the `try` of `downloadAndInstallRuntime`. */
    method InstallSteps(manifest: Manifest, chunks: seq<Bytes>, maximum: nat)
      returns (s: Status, promoted: bool, ghost archive: Bytes)
      requires Valid() && Sound() && Validated(manifest)
      modifies this`staging, this`smoked, this`versions, this`origin, pointers, env
      ensures Valid() && Sound()
      ensures forall v | v in old(versions) ::
                  v in versions && versions[v] == old(versions)[v] && origin[v] == old(origin)[v]
      ensures s.Returned? ==> promoted
      ensures promoted ==> Logical(pointers.files) == Commit(Promote(manifest), Logical(old(pointers.files)))
      ensures !promoted && !s.Crashed? ==> Logical(pointers.files) == Logical(old(pointers.files))
      ensures s.Crashed? ==> Effect(Promote(manifest), Logical(old(pointers.files)), Crashed, Logical(pointers.files))
      ensures promoted ==> trust.Installs(manifest, chunks, maximum) && archive == Flatten(chunks)
      ensures promoted ==> manifest.runtimeVersion in versions
      ensures promoted && manifest.runtimeVersion !in old(versions) ==> origin[manifest.runtimeVersion] == archive
      ensures old(env.clock) < env.clock
      ensures env.Smooth(old(env.clock), env.clock) ==>
                !s.Crashed? && (s.Returned? <==> trust.Installs(manifest, chunks, maximum))
    {
      promoted, archive := false, [];
      var bytes: Bytes;
      s, bytes := Download(env, chunks, manifest.size, maximum);
      if !s.Returned? {
        return;
      }
      archive := bytes;
      :- Stage(manifest, bytes);
      :- Place(manifest.runtimeVersion, archive);
      :- env.Attempt();                                    // journal 'installed'
      s, promoted := PromoteInstalled(manifest);
    }

    /** Promotes a manifest whose version directory is there and passed a smoke test. */
    method PromoteInstalled(manifest: Manifest) returns (s: Status, promoted: bool)
      requires Valid() && Sound() && Validated(manifest) && Bootable(Some(manifest))
      modifies pointers, env
      ensures Valid() && Sound()
      ensures s.Returned? ==> promoted
      ensures promoted ==> Logical(pointers.files) == Commit(Promote(manifest), Logical(old(pointers.files)))
      ensures !promoted && !s.Crashed? ==> Logical(pointers.files) == Logical(old(pointers.files))
      ensures s.Crashed? ==> Effect(Promote(manifest), Logical(old(pointers.files)), Crashed, Logical(pointers.files))
      ensures old(env.clock) <= env.clock
      ensures env.Smooth(old(env.clock), env.clock) ==> s.Returned?
    {
      promoted := false;
      s := pointers.Promote(manifest);
      if !s.Returned? {
        return;
      }
      promoted := true;
      s := env.Attempt();                                  // journal 'promoted'
    }

    /** The `catch` and the `finally` of `downloadAndInstallRuntime`. */
    method Finish(steps: Status) returns (s: Status)
      requires !steps.Crashed?
      modifies this`staging, env
      ensures s.Returned? ==> steps.Returned?
      ensures old(env.clock) <= env.clock
      ensures env.Smooth(old(env.clock), env.clock) ==> s == steps
    {
      s := steps;
      if steps.Threw? {
        var journalled := env.Attempt();                   // journal 'failed'
        if journalled.Crashed? {
          return Crashed;
        }
      }
      var cleaned := env.Attempt();                        // remove the archive and the staging directory
      if cleaned.Returned? {
        staging := None;
      } else {
        s := cleaned;
      }
    }

    /** `downloadAndInstallRuntime`: `promoted` tells whether `promote` returned. When no operation fails, the install
        returns exactly for a valid manifest and a body that is all it announces and extracts. */
    method DownloadAndInstall(manifest: Manifest, chunks: seq<Bytes>, maximum: nat)
      returns (s: Status, promoted: bool)
      requires Valid() && Sound()
      modifies this`staging, this`smoked, this`versions, this`origin, pointers, env
      ensures Valid() && Sound()
      ensures forall v | v in old(versions) ::
                  v in versions && versions[v] == old(versions)[v] && origin[v] == old(origin)[v]
      ensures s.Returned? ==> promoted
      ensures promoted ==> Logical(pointers.files) == Commit(Promote(manifest), Logical(old(pointers.files)))
      ensures promoted ==> trust.Installs(manifest, chunks, maximum)
      ensures promoted && !trust.allowUnsignedLocal ==>
                && trust.signed(Flatten(chunks), manifest.signature)
                && (trust.requireManifestSignature ==> trust.manifestSigned(manifest))
      ensures !promoted && !s.Crashed? ==> Logical(pointers.files) == Logical(old(pointers.files))
      ensures s.Crashed? ==> Effect(Promote(manifest), Logical(old(pointers.files)), Crashed, Logical(pointers.files))
      // A promoted manifest describes the directory it names unless a directory extracted from another
      // archive was already there under the same version.
      ensures promoted ==>
              (Faithful(manifest) <==> manifest.runtimeVersion !in old(versions) || old(Faithful(manifest)))
      ensures old(env.clock) <= env.clock
      ensures env.Smooth(old(env.clock), env.clock) ==>
                !s.Crashed? && (promoted <==> s.Returned?) && (promoted <==> trust.Installs(manifest, chunks, maximum))
    {
      promoted := false;
      if !Validated(manifest) {
        return Threw, false;
      }
      s := Returned;
      :- env.Attempt();                                    // fetch
      :- env.Attempt();                                    // journal 'downloading'
      ghost var archive: Bytes;
      s, promoted, archive := InstallSteps(manifest, chunks, maximum);
      if !s.Crashed? {
        s := Finish(s);
      }
    }

    /** Another archive under the name of an installed version: whenever it is promoted, the current pointer describes
        a directory that was extracted from something else. */
    method InstallUnderUsedVersion(manifest: Manifest, chunks: seq<Bytes>, maximum: nat)
      returns (s: Status, promoted: bool)
      requires Valid() && Sound() && manifest.runtimeVersion in versions && !Faithful(manifest)
      modifies this`staging, this`smoked, this`versions, this`origin, pointers, env
      ensures Valid() && Sound()
      ensures promoted ==> Logical(pointers.files).current == Some(manifest) && !Faithful(manifest)
      ensures old(env.clock) <= env.clock
      ensures env.Smooth(old(env.clock), env.clock) && trust.Installs(manifest, chunks, maximum) ==> promoted
    {
      s, promoted := DownloadAndInstall(manifest, chunks, maximum);
    }

    /** The directory that a pointer names, smoke-tested; a directory that is not there fails the test. */
    method SmokeVersion(version: string) returns (s: Status)
      requires Valid()
      modifies this`smoked, env
      ensures old(smoked) <= smoked
      ensures old(env.clock) <= env.clock <= old(env.clock) + 1
      ensures version in versions ==>
                env.clock == old(env.clock) + 1 && s == env.schedule(old(env.clock)).AsStatus()
    {
      if version !in versions {
        return Threw;
      }
      var noEntry;
      s, noEntry := SmokeTest(versions[version]);
    }

    /** The `--rollback` branch of the command line: smoke, rollback, smoke, and undo when that fails. */
    method CliRollback() returns (outcome: RollbackOutcome)
      requires Valid() && Sound()
      modifies this`smoked, pointers, env
      ensures Valid() && Sound() && old(smoked) <= smoked
      ensures var before, after := Logical(old(pointers.files)), Logical(pointers.files);
              match outcome
              case RolledBackTo(m) =>
                before.previous == Some(m) && after == Commit(Rollback, before)
                && versions[m.runtimeVersion] in smoked
              case Failed => after == before
              case Undone => after == before && before.current.Some?
              // The undo was possible: only a failing file operation can have stopped it.
              case UndoFailed =>
                before.previous.Some? && after == Commit(Rollback, before) && Admissible(Rollback, after)
              case Died => after == before || (before.previous.Some? && after == Commit(Rollback, before))
      ensures old(env.clock) <= env.clock
      ensures env.Smooth(old(env.clock), env.clock) ==>
                outcome == if Logical(old(pointers.files)).previous.Some?
                           then RolledBackTo(Logical(old(pointers.files)).previous.value) else Failed
      ensures outcome.UndoFailed? ==>
                exists i, j | old(env.clock) <= i < j < env.clock ::
                  env.schedule(i).Fails? && !env.schedule(j).Succeeds?
    {
      var s, previous := pointers.Previous();
      if !s.Returned? || previous.None? {
        return if s.Crashed? then Died else Failed;
      }
      assert Bootable(previous);
      s := SmokeVersion(previous.value.runtimeVersion);
      if !s.Returned? {
        return if s.Crashed? then Died else Failed;
      }
      var manifest;
      s, manifest := pointers.Rollback();
      if !s.Returned? {
        return if s.Crashed? then Died else Failed;
      }
      ghost var second := env.clock;
      s := SmokeVersion(manifest.value.runtimeVersion);
      if s.Returned? {
        return RolledBackTo(manifest.value);
      }
      if s.Crashed? {
        return Died;
      }
      RollbackUndoes(Logical(old(pointers.files)));
      ghost var third := env.clock;
      var undo, _ := pointers.Rollback();
      outcome := if undo.Returned? then Undone else if undo.Crashed? then Died else UndoFailed;
      if outcome.UndoFailed? {
        assert env.schedule(second).Fails?;
        assert !env.Smooth(third, env.clock);
      }
    }

    /** Any sequence of commands, each ended in any way, a crash included: whatever the pointers name at the
        end was installed and smoke-tested, and no version directory was ever overwritten. When nothing fails, the
        pointers are what the commands say. */
    method Run(commands: seq<Command>)
      requires Valid() && Sound()
      modifies this`staging, this`smoked, this`versions, this`origin, pointers, env
      ensures Valid() && Sound()
      ensures forall v | v in old(versions) ::
                  v in versions && versions[v] == old(versions)[v] && origin[v] == old(origin)[v]
      ensures env.Smooth(old(env.clock), env.clock) ==>
                Logical(pointers.files) == trust.Outcomes(commands, Logical(old(pointers.files)))
    {
      for i := 0 to |commands|
        invariant Valid() && Sound()
        invariant forall v | v in old(versions) ::
                    v in versions && versions[v] == old(versions)[v] && origin[v] == old(origin)[v]
        invariant old(env.clock) <= env.clock
        invariant env.Smooth(old(env.clock), env.clock) ==>
                    Logical(pointers.files) == trust.Outcomes(commands[..i], Logical(old(pointers.files)))
      {
        assert commands[..i + 1][..i] == commands[..i];
        match commands[i] {
          case Install(manifest, chunks, maximum) =>
            var _, _ := DownloadAndInstall(manifest, chunks, maximum);
          case RollBack =>
            var _ := CliRollback();
          case Look =>
            var _, _ := pointers.Current();
        }
      }
      assert commands[..|commands|] == commands;
    }
  }
}
