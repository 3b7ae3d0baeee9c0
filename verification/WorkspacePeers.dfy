/** Which workspace packages the bundled runtime needs: the worklist of `materializeWorkspacePeers`
    (scripts/runtime/index.ts). */
module WorkspacePeers {
  import opened Prelude

  /** A package manifest, with the keys of its dependency tables in order. */
  datatype Manifest = Manifest(
    name: string,
    dependencies: seq<string>,
    devDependencies: seq<string>,
    optionalDependencies: seq<string>,
    peerDependencies: seq<string>,
    optionalPeers: set<string>)

  type Workspace = map<string, Manifest>

  const CLI := "@deepseek-ai/dsh"

  datatype Error = CliNotFound

  /** The named packages; of two with one name the later counts. */
  function Named(manifests: seq<Manifest>): (w: Workspace)
    ensures "" !in w
  {
    if manifests == [] then map[]
    else
      var m := manifests[|manifests| - 1];
      var earlier := Named(manifests[..|manifests| - 1]);
      if m.name == "" then earlier else earlier[m.name := m]
  }

  function Roots(cli: Manifest): seq<string> {
    cli.dependencies + cli.devDependencies + cli.optionalDependencies
  }

  /** One package needs another: by a dependency, an optional one, or a peer that is not optional. */
  predicate Needs(w: Workspace, m: Manifest, name: string) {
    || name in m.dependencies || name in m.optionalDependencies
    || (name in m.peerDependencies && name !in m.optionalPeers && name in w)
  }

  /** A chain of workspace packages, from a root on, each needed by the one before it. */
  ghost predicate Chain(w: Workspace, roots: seq<string>, chain: seq<string>) {
    && chain != [] && chain[0] in roots
    && (forall i | 0 <= i < |chain| :: chain[i] in w)
    && forall i | 0 < i < |chain| :: Needs(w, w[chain[i - 1]], chain[i])
  }

  ghost predicate Reachable(w: Workspace, roots: seq<string>, name: string) {
    exists chain :: Chain(w, roots, chain) && chain[|chain| - 1] == name
  }

  lemma RootIsReachable(w: Workspace, roots: seq<string>, name: string)
    requires name in roots && name in w
    ensures Reachable(w, roots, name)
  {
    assert Chain(w, roots, [name]);
  }

  lemma NeededIsReachable(w: Workspace, roots: seq<string>, from: string, name: string)
    requires from in w && name in w && Reachable(w, roots, from) && Needs(w, w[from], name)
    ensures Reachable(w, roots, name)
  {
    var chain :| Chain(w, roots, chain) && chain[|chain| - 1] == from;
    assert Chain(w, roots, chain + [name]);
  }

  /** A set that holds the roots and all that its members need holds everything reachable. */
  lemma {:induction false} ClosedHoldsChain(w: Workspace, roots: seq<string>, closed: set<string>, chain: seq<string>)
    requires Chain(w, roots, chain)
    requires forall name | name in roots && name in w :: name in closed
    requires forall from, name | from in closed && from in w && name in w && Needs(w, w[from], name) :: name in closed
    ensures chain[|chain| - 1] in closed
    decreases |chain|
  {
    if |chain| > 1 {
      ClosedHoldsChain(w, roots, closed, chain[..|chain| - 1]);
    }
  }

  method RequiredWorkspacePackages(manifests: seq<Manifest>) returns (required: Result<set<string>, Error>)
    ensures required.Err? <==> "@deepseek-ai/dsh" !in Named(manifests)
    ensures required.Ok? ==>
              forall name :: name in required.value <==>
                             && name in Named(manifests)
                             && Reachable(Named(manifests), Roots(Named(manifests)["@deepseek-ai/dsh"]), name)
  {
    var workspace: Workspace := map[];
    for i := 0 to |manifests|
      invariant workspace == Named(manifests[..i])
    {
      assert manifests[..i + 1][..i] == manifests[..i];
      if manifests[i].name != "" {
        workspace := workspace[manifests[i].name := manifests[i]];
      }
    }
    assert manifests[..|manifests|] == manifests;
    if CLI !in workspace {
      return Err(CliNotFound);
    }
    var cli := workspace[CLI];
    var packages := Collect(workspace, cli.dependencies + cli.devDependencies + cli.optionalDependencies);
    required := Ok(packages);
  }

  ghost predicate Closed(w: Workspace, required: set<string>, queue: seq<string>) {
    forall from, name | from in required && from in w && name in w && Needs(w, w[from], name) :: name in queue
  }

  ghost predicate AllReachable(w: Workspace, roots: seq<string>, queue: seq<string>) {
    forall name | name in queue && name in w :: Reachable(w, roots, name)
  }

  /** The variables of the worklist. */
  datatype Work = Work(queue: seq<string>, index: nat, seen: set<string>, required: set<string>)

  /** Everything before `index` is dealt with, and what the required packages need is in the queue. */
  ghost predicate Working(w: Workspace, roots: seq<string>, s: Work) {
    && s.index <= |s.queue|
    && (forall i | 0 <= i < s.index :: s.queue[i] == "" || s.queue[i] in s.seen)
    && (forall name | name in s.seen :: name in s.queue && (name in w <==> name in s.required))
    && s.required <= s.seen
    && (forall name | name in roots :: name in s.queue)
    && Closed(w, s.required, s.queue) && AllReachable(w, roots, s.queue)
  }

  lemma WorkBegins(w: Workspace, roots: seq<string>)
    ensures Working(w, roots, Work(roots, 0, {}, {}))
  {
    forall name | name in roots && name in w ensures Reachable(w, roots, name) {
      RootIsReachable(w, roots, name);
    }
  }

  lemma WorkEnds(w: Workspace, roots: seq<string>, s: Work)
    requires "" !in w && Working(w, roots, s) && s.index == |s.queue|
    ensures forall name :: name in s.required <==> name in w && Reachable(w, roots, name)
  {
    assert forall name | name in s.queue && name in w :: name in s.required;
    forall name | name in w && Reachable(w, roots, name) ensures name in s.required {
      var chain :| Chain(w, roots, chain) && chain[|chain| - 1] == name;
      ClosedHoldsChain(w, roots, s.required, chain);
    }
  }

  lemma WorkSkips(w: Workspace, roots: seq<string>, s: Work)
    requires Working(w, roots, s) && s.index < |s.queue|
    requires s.queue[s.index] == "" || s.queue[s.index] in s.seen
    ensures Working(w, roots, s.(index := s.index + 1))
  {
  }

  lemma WorkPasses(w: Workspace, roots: seq<string>, s: Work)
    requires Working(w, roots, s) && s.index < |s.queue| && s.queue[s.index] !in w
    ensures Working(w, roots, s.(seen := s.seen + {s.queue[s.index]}, index := s.index + 1))
  {
  }

  lemma ClosedAfter(w: Workspace, required: set<string>, queue: seq<string>, name: string, more: seq<string>)
    requires Closed(w, required, queue) && name in w
    requires forall x :: x in more <==> Needs(w, w[name], x)
    ensures Closed(w, required + {name}, queue + more)
  {
    var after := queue + more;
    forall from, x | from in required + {name} && from in w && x in w && Needs(w, w[from], x) ensures x in after {
      if from != name {
        assert x in queue;
      }
    }
  }

  lemma SeenAfter(w: Workspace, s: Work, queue: seq<string>, seen: set<string>, required: set<string>)
    requires s.index < |s.queue| && |queue| >= |s.queue| && queue[..|s.queue|] == s.queue
    requires forall i | 0 <= i < s.index :: s.queue[i] == "" || s.queue[i] in s.seen
    requires forall name | name in s.seen :: name in s.queue && (name in w <==> name in s.required)
    requires s.queue[s.index] in w && s.required <= s.seen
    requires seen == s.seen + {s.queue[s.index]} && required == s.required + {s.queue[s.index]}
    ensures forall i | 0 <= i < s.index + 1 :: queue[i] == "" || queue[i] in seen
    ensures forall name | name in seen :: name in queue && (name in w <==> name in required)
    ensures required <= seen
  {
    assert forall i | 0 <= i < |s.queue| :: queue[i] == s.queue[i];
  }

  lemma WorkGoesOn(w: Workspace, roots: seq<string>, s: Work, more: seq<string>)
    requires Working(w, roots, s) && s.index < |s.queue|
    requires s.queue[s.index] in w && s.queue[s.index] !in s.seen
    requires forall name :: name in more <==> Needs(w, w[s.queue[s.index]], name)
    ensures var name := s.queue[s.index];
            Working(w, roots, Work(s.queue + more, s.index + 1, s.seen + {name}, s.required + {name}))
  {
    var name, after := s.queue[s.index], s.queue + more;
    assert forall x | x in s.queue :: x in after;
    MoreIsReachable(w, roots, s.queue, name, more);
    ClosedAfter(w, s.required, s.queue, name, more);
    SeenAfter(w, s, after, s.seen + {name}, s.required + {name});
  }

  /** The worklist. The queue grows while it is read, but only when a package is seen for the first time. */
  method Collect(w: Workspace, roots: seq<string>) returns (required: set<string>)
    requires "" !in w
    ensures forall name :: name in required <==> name in w && Reachable(w, roots, name)
  {
    var work := Work(roots, 0, {}, {});
    WorkBegins(w, roots);
    while work.index < |work.queue|
      invariant Working(w, roots, work)
      decreases |w.Keys - work.required|, |work.queue| - work.index
    {
      work := Advance(w, roots, work);
    }
    WorkEnds(w, roots, work);
    required := work.required;
  }

  /** The body of the loop. */
  method Advance(w: Workspace, ghost roots: seq<string>, s: Work) returns (t: Work)
    requires Working(w, roots, s) && s.index < |s.queue|
    ensures Working(w, roots, t)
    ensures |w.Keys - t.required| < |w.Keys - s.required|
         || (t.required == s.required && t.queue == s.queue && t.index == s.index + 1)
  {
    var name := s.queue[s.index];
    if name == "" || name in s.seen {
      t := s.(index := s.index + 1);
      WorkSkips(w, roots, s);
    } else if name !in w {
      t := s.(seen := s.seen + {name}, index := s.index + 1);
      WorkPasses(w, roots, s);
    } else {
      var more := NeededBy(w, w[name]);
      t := Work(s.queue + more, s.index + 1, s.seen + {name}, s.required + {name});
      WorkGoesOn(w, roots, s, more);
      SmallerSet(w.Keys - t.required, w.Keys - s.required);
    }
  }

  lemma SmallerSet(a: set<string>, b: set<string>)
    requires a < b
    ensures |a| < |b|
  {
    var d := b - a;
    assert b == a + d;
    var x :| x in b && x !in a;
    assert x in d;
  }

  lemma MoreIsReachable(w: Workspace, roots: seq<string>, queue: seq<string>, from: string, more: seq<string>)
    requires AllReachable(w, roots, queue) && from in queue && from in w
    requires forall name | name in more :: Needs(w, w[from], name)
    ensures AllReachable(w, roots, queue + more)
  {
    forall name | name in queue + more && name in w ensures Reachable(w, roots, name) {
      if name !in queue {
        NeededIsReachable(w, roots, from, name);
      }
    }
  }

  /** What a package adds to the queue. */
  method NeededBy(w: Workspace, m: Manifest) returns (more: seq<string>)
    ensures forall name :: name in more <==> Needs(w, m, name)
  {
    more := [];
    for i := 0 to |m.peerDependencies|
      invariant forall name ::
                name in more <==> name in m.peerDependencies[..i] && name !in m.optionalPeers && name in w
    {
      var peer := m.peerDependencies[i];
      if peer !in m.optionalPeers && peer in w {
        more := more + [peer];
      }
    }
    more := more + m.dependencies + m.optionalDependencies;
  }
}
