/** How many runs `reconcileMcpLoader` takes to come to rest when several records share a server name
    (packages/dsh-plugin-desktop/src/index.ts). */
module McpRepeats {
  import opened Prelude
  import opened McpReconcile

  // ----- Names that a pass meets -----

  lemma {:induction false} MeetsFirst(env: Env, records: seq<Record>, entries: seq<Entry>, seen: set<string>,
                                      name: string)
    requires Desired(records, name).Some?
    ensures name in MeetAll(env, records, entries, seen) <==> name in seen || First(env, entries, name).Some?
    decreases |entries|
  {
    if entries != [] {
      MeetsFirst(env, records, entries[1..], Meet(env, records, entries[0], seen), name);
    }
  }

  /** A pass that does not fail has met the names of the entries it was given. */
  lemma {:induction false} SweepMeets(env: Env, records: seq<Record>, entries: seq<Entry>, managed: set<nat>,
                                      seen: set<string>)
    requires !Sweep(env, records, entries, managed, seen).failed
    ensures Sweep(env, records, entries, managed, seen).seen == MeetAll(env, records, entries, seen)
    decreases |entries|
  {
    if entries != [] {
      var left, managedNow, touched, more := SweepParts(env, records, entries, managed, seen);
      SweepMeets(env, records, entries[1..], managedNow, Meet(env, records, entries[0], seen));
    }
  }

  // ----- What cannot fail again -----

  /** The entries that a pass will configure belong to records whose configuration can be made. */
  ghost predicate Resolvable(env: Env, records: seq<Record>, entries: seq<Entry>, seen: set<string>) {
    forall e | e in entries && e.plugin == CLIENT ::
      var record := RecordOf(env, records, e);
      record.Some? && record.value.serverName !in seen ==> env.resolve(record.value).Some?
  }

  lemma {:induction false} ResolvableNeverFails(env: Env, records: seq<Record>, entries: seq<Entry>, managed: set<nat>,
                                                seen: set<string>)
    requires Resolvable(env, records, entries, seen)
    ensures !Sweep(env, records, entries, managed, seen).failed
    decreases |entries|
  {
    if entries != [] {
      assert entries[0] in entries;
      var left, managedNow, touched, more := SweepParts(env, records, entries, managed, seen);
      ResolvableNeverFails(env, records, entries[1..], managedNow, Meet(env, records, entries[0], seen));
    }
  }

  lemma {:induction false} SweptIsResolvable(env: Env, records: seq<Record>, entries: seq<Entry>, managed: set<nat>,
                                             seen: set<string>)
    requires NamesServers(env, records) && !Sweep(env, records, entries, managed, seen).failed
    ensures Resolvable(env, records, Sweep(env, records, entries, managed, seen).entries, seen)
    decreases |entries|
  {
    if entries != [] {
      var e := entries[0];
      var left, managedNow, touched, more := SweepParts(env, records, entries, managed, seen);
      var seenNow := Meet(env, records, e, seen);
      SweptIsResolvable(env, records, entries[1..], managedNow, seenNow);
      forall x | x in left + more.entries && x.plugin == CLIENT
        ensures var record := RecordOf(env, records, x);
                record.Some? && record.value.serverName !in seen ==> env.resolve(record.value).Some?
      {
        LeftIsSettled(env, records, e, managed, seen, left, managedNow, managedNow);
        assert x in left ==> x == left[0];
      }
    }
  }

  lemma {:induction false} FilledIsResolvable(env: Env, records: seq<Record>, seen: set<string>, nextId: nat,
                                              record: Record)
    requires !Fill(env, records, seen, nextId).failed && record in records && record.serverName !in seen
    ensures env.resolve(record).Some?
    decreases |records|
  {
    if records[0].serverName in seen {
      FilledIsResolvable(env, records[1..], seen, nextId, record);
    } else if record != records[0] {
      FilledIsResolvable(env, records[1..], seen, nextId + 1, record);
    }
  }

  // ----- What the second loop makes -----

  /** How many of the records from `k` up to `i` have no entry. */
  function Missing(records: seq<Record>, seen: set<string>, k: nat, i: nat): nat
    requires k <= i <= |records|
    decreases i - k
  {
    if k == i then 0 else (if records[k].serverName in seen then 0 else 1) + Missing(records, seen, k + 1, i)
  }

  lemma {:induction false} MissingGrows(records: seq<Record>, seen: set<string>, k: nat, i: nat, j: nat)
    requires k <= i < j <= |records| && records[i].serverName !in seen
    ensures Missing(records, seen, k, i) < Missing(records, seen, k, j)
    decreases i - k
  {
    if k < i {
      MissingGrows(records, seen, k + 1, i, j);
    }
  }

  lemma {:induction false} MadeAt(env: Env, records: seq<Record>, seen: set<string>, nextId: nat, k: nat, i: nat)
    returns (p: nat)
    requires k <= i < |records| && !Fill(env, records[k..], seen, nextId).failed && records[i].serverName !in seen
    ensures p == Missing(records, seen, k, i) && p < |Fill(env, records[k..], seen, nextId).entries|
    ensures env.resolve(records[i]).Some?
    ensures Fill(env, records[k..], seen, nextId).entries[p]
         == Entry(nextId + p, CLIENT, env.resolve(records[i]).value, Some(!records[i].enabled))
    decreases i - k
  {
    assert records[k..][0] == records[k] && records[k..][1..] == records[k + 1..];
    if k == i {
      p := 0;
    } else if records[k].serverName in seen {
      p := MadeAt(env, records, seen, nextId, k + 1, i);
    } else {
      var q := MadeAt(env, records, seen, nextId + 1, k + 1, i);
      p := q + 1;
    }
  }

  lemma {:induction false} FirstAppend(env: Env, a: seq<Entry>, b: seq<Entry>, name: string)
    ensures First(env, a + b, name) == if First(env, a, name).Some? then First(env, a, name) else First(env, b, name)
    decreases |a|
  {
    if a == [] {
      assert a + b == b;
    } else {
      assert (a + b)[1..] == a[1..] + b;
      FirstAppend(env, a[1..], b, name);
    }
  }

  lemma {:induction false} FirstOf(env: Env, entries: seq<Entry>, e: Entry, name: string)
    requires e in entries && ServerOf(env, e) == Some(name)
    ensures First(env, entries, name).Some?
  {
    if e != entries[0] {
      FirstOf(env, entries[1..], e, name);
    }
  }

  /** A record that the first loop found no entry for has one now. */
  lemma MadeForMissing(env: Env, records: seq<Record>, seen: set<string>, nextId: nat, i: nat) returns (e: Entry)
    requires NamesServers(env, records) && i < |records|
    requires !Fill(env, records, seen, nextId).failed && records[i].serverName !in seen
    ensures e in Fill(env, records, seen, nextId).entries && e.id == nextId + Missing(records, seen, 0, i)
    ensures e.plugin == CLIENT && ServerOf(env, e) == Some(records[i].serverName)
  {
    assert records[0..] == records;
    var p := MadeAt(env, records, seen, nextId, 0, i);
    e := Fill(env, records, seen, nextId).entries[p];
    assert records[i] in records;
  }

  // ----- After the first run -----

  /** After a run that does not fail, every record's name has an entry. */
  lemma {:induction false} AllNamesHaveEntries(env: Env, records: seq<Record>, st: State, i: nat)
    requires Sound(st) && NamesServers(env, records) && !Reconciled(env, records, st).failed && i < |records|
    ensures First(env, Reconciled(env, records, st).state.entries, records[i].serverName).Some?
  {
    var swept := Sweep(env, records, st.entries, st.managed, {});
    var made := Fill(env, records, swept.seen, st.nextId).entries;
    var name := records[i].serverName;
    DesiredExists(records, i);
    FirstAppend(env, swept.entries, made, name);
    if name in swept.seen {
      SweepSettles(env, records, st.entries, st.managed, {});
      MeetsFirst(env, records, swept.entries, {}, name);
    } else {
      var e := MadeForMissing(env, records, swept.seen, st.nextId, i);
      FirstOf(env, made, e, name);
    }
  }

  lemma {:induction false} SecondSweepNeverFails(env: Env, records: seq<Record>, st: State)
    requires Sound(st) && NamesServers(env, records) && !Reconciled(env, records, st).failed
    ensures var now := Reconciled(env, records, st).state;
            !Sweep(env, records, now.entries, now.managed, {}).failed
  {
    var now := Reconciled(env, records, st).state;
    var swept := Sweep(env, records, st.entries, st.managed, {});
    var made := Fill(env, records, swept.seen, st.nextId).entries;
    SweptIsResolvable(env, records, st.entries, st.managed, {});
    forall e | e in now.entries && e.plugin == CLIENT && RecordOf(env, records, e).Some?
      ensures env.resolve(RecordOf(env, records, e).value).Some?
    {
      var record := RecordOf(env, records, e).value;
      if e !in swept.entries {
        assert e in made;
        if record.serverName in swept.seen {
          var i :| 0 <= i < |records| && records[i] == record;
          DesiredExists(records, i);
          SweepSettles(env, records, st.entries, st.managed, {});
          MeetsFirst(env, records, swept.entries, {}, record.serverName);
          FirstIsIn(env, swept.entries, record.serverName);
        } else {
          FilledIsResolvable(env, records, swept.seen, st.nextId, record);
        }
      }
    }
    ResolvableNeverFails(env, records, now.entries, now.managed, {});
  }

  lemma {:induction false} FirstIsIn(env: Env, entries: seq<Entry>, name: string)
    requires First(env, entries, name).Some?
    ensures First(env, entries, name).value in entries && ServerOf(env, First(env, entries, name).value) == Some(name)
  {
    if ServerOf(env, entries[0]) != Some(name) {
      FirstIsIn(env, entries[1..], name);
    }
  }

  /** The second run is its first loop only. */
  lemma {:induction false} SecondRunIsSweep(env: Env, records: seq<Record>, st: State)
    requires Sound(st) && NamesServers(env, records) && !Reconciled(env, records, st).failed
    ensures var now := Reconciled(env, records, st).state;
            var swept := Sweep(env, records, now.entries, now.managed, {});
            && !swept.failed && (forall r | r in records :: r.serverName in swept.seen)
            && Reconciled(env, records, now)
                 == Run(State(swept.entries, swept.managed, now.nextId), swept.changed, false)
  {
    var now := Reconciled(env, records, st).state;
    var swept := Sweep(env, records, now.entries, now.managed, {});
    SecondSweepNeverFails(env, records, st);
    SweepMeets(env, records, now.entries, now.managed, {});
    forall r | r in records ensures r.serverName in swept.seen {
      var i :| 0 <= i < |records| && records[i] == r;
      DesiredExists(records, i);
      AllNamesHaveEntries(env, records, st, i);
      MeetsFirst(env, records, now.entries, {}, r.serverName);
    }
    NothingToFill(env, records, swept.seen, now.nextId);
    assert swept.entries + [] == swept.entries && swept.managed + Ids([]) == swept.managed;
  }

  /** The third run is idle, whatever names are repeated. */
  lemma ThirdRunIsIdle(env: Env, records: seq<Record>, st: State)
    requires Sound(st) && NamesServers(env, records) && !Reconciled(env, records, st).failed
    ensures var second := Reconciled(env, records, Reconciled(env, records, st).state);
            !second.failed && Reconciled(env, records, second.state) == Run(second.state, false, false)
  {
    var now := Reconciled(env, records, st).state;
    var swept := Sweep(env, records, now.entries, now.managed, {});
    SecondRunIsSweep(env, records, st);
    ReconciledIsSound(env, records, st);
    SweepSettles(env, records, now.entries, now.managed, {});
    SweepOfSettled(env, records, swept.entries, swept.managed, {});
    NothingToFill(env, records, swept.seen, now.nextId);
    assert swept.entries + [] == swept.entries && swept.managed + Ids([]) == swept.managed;
  }

  // ----- When the second run is idle -----

  lemma {:induction false} UnchangedSweep(env: Env, records: seq<Record>, entries: seq<Entry>, managed: set<nat>,
                                          seen: set<string>)
    requires var o := Sweep(env, records, entries, managed, seen); !o.failed && !o.changed
    ensures var o := Sweep(env, records, entries, managed, seen); o.entries == entries && managed <= o.managed
    decreases |entries|
  {
    if entries != [] {
      var left, managedNow, touched, more := SweepParts(env, records, entries, managed, seen);
      UnchangedSweep(env, records, entries[1..], managedNow, Meet(env, records, entries[0], seen));
      assert [entries[0]] + entries[1..] == entries;
    }
  }

  /** Two managed entries for one configured server are not left alone. */
  lemma {:induction false} TwoAreNotLeft(env: Env, records: seq<Record>, entries: seq<Entry>, managed: set<nat>,
                                         e: Entry, f: Entry, name: string)
    requires NamesServers(env, records) && DistinctIds(entries) && Desired(records, name).Some?
    requires e in entries && f in entries && e.id != f.id && e.id in managed && f.id in managed
    requires e.plugin == CLIENT == f.plugin && ServerOf(env, e) == Some(name) == ServerOf(env, f)
    requires !Sweep(env, records, entries, managed, {}).failed
    ensures Sweep(env, records, entries, managed, {}).changed
  {
    var o := Sweep(env, records, entries, managed, {});
    if !o.changed {
      UnchangedSweep(env, records, entries, managed, {});
      SweepSettles(env, records, entries, managed, {});
      ManagedOfSettled(env, records, entries, o.managed, {}, e);
      ManagedOfSettled(env, records, entries, o.managed, {}, f);
    }
  }

  /** Every name that two records share has a client entry already. */
  ghost predicate RepeatedHaveEntries(env: Env, records: seq<Record>, entries: seq<Entry>) {
    forall i, j | 0 <= i < j < |records| && records[i].serverName == records[j].serverName ::
      First(env, entries, records[i].serverName).Some?
  }

  lemma {:induction false} SeenExactly(env: Env, records: seq<Record>, st: State, i: nat)
    requires i < |records| && !Sweep(env, records, st.entries, st.managed, {}).failed
    ensures records[i].serverName in Sweep(env, records, st.entries, st.managed, {}).seen
       <==> First(env, st.entries, records[i].serverName).Some?
  {
    DesiredExists(records, i);
    SweepMeets(env, records, st.entries, st.managed, {});
    MeetsFirst(env, records, st.entries, {}, records[i].serverName);
  }

  lemma {:induction false} RepeatedIsChurned(env: Env, records: seq<Record>, st: State, i: nat, j: nat)
    requires Sound(st) && NamesServers(env, records) && !Reconciled(env, records, st).failed
    requires i < j < |records| && records[i].serverName == records[j].serverName
    requires First(env, st.entries, records[i].serverName).None?
    ensures Reconciled(env, records, Reconciled(env, records, st).state).changed
  {
    var now := Reconciled(env, records, st).state;
    var swept := Sweep(env, records, st.entries, st.managed, {});
    SeenExactly(env, records, st, i);
    var e := MadeForMissing(env, records, swept.seen, st.nextId, i);
    var f := MadeForMissing(env, records, swept.seen, st.nextId, j);
    MissingGrows(records, swept.seen, 0, i, j);
    assert e in now.entries && f in now.entries;
    assert e.id in now.managed && f.id in now.managed;
    DesiredExists(records, i);
    ReconciledIsSound(env, records, st);
    SecondRunIsSweep(env, records, st);
    TwoAreNotLeft(env, records, now.entries, now.managed, e, f, records[i].serverName);
  }

  /** The second run is idle exactly when every name that two records share had a client entry before the first. */
  lemma SecondRunIsIdleExactly(env: Env, records: seq<Record>, st: State)
    requires Sound(st) && NamesServers(env, records) && !Reconciled(env, records, st).failed
    ensures var now := Reconciled(env, records, st).state;
            Reconciled(env, records, now) == Run(now, false, false) <==> RepeatedHaveEntries(env, records, st.entries)
  {
    var now := Reconciled(env, records, st).state;
    var swept := Sweep(env, records, st.entries, st.managed, {});
    if RepeatedHaveEntries(env, records, st.entries) {
      forall i, j | 0 <= i < j < |records| && records[i].serverName == records[j].serverName
        ensures records[i].serverName in swept.seen
      {
        SeenExactly(env, records, st, i);
      }
      ReconciledIsSettled(env, records, st);
      SweepOfSettled(env, records, now.entries, now.managed, {});
      NothingToFill(env, records, MeetAll(env, records, now.entries, {}), now.nextId);
      assert now.entries + [] == now.entries && now.managed + Ids([]) == now.managed;
    } else {
      var i, j :| 0 <= i < j < |records| && records[i].serverName == records[j].serverName
                  && First(env, st.entries, records[i].serverName).None?;
      RepeatedIsChurned(env, records, st, i, j);
    }
  }

  /** Two records with one name and an empty loader: the second run still changes something, the third does not. */
  lemma RepeatedNamesTakeTwoRuns(env: Env, r: Record, s: Record)
    requires r.serverName == s.serverName && env.resolve(r).Some? && env.resolve(s).Some?
    requires env.serverNameOf(env.resolve(r).value) == env.serverNameOf(env.resolve(s).value) == Some(s.serverName)
    ensures var first := Reconciled(env, [r, s], State([], {}, 0));
            var second := Reconciled(env, [r, s], first.state);
            && !first.failed && second.changed && !second.failed
            && Reconciled(env, [r, s], second.state) == Run(second.state, false, false)
  {
    var records, st := [r, s], State([], {}, 0);
    assert records[1..] == [s] && [s][1..] == [];
    assert !Fill(env, [s], {}, 1).failed;
    assert !Reconciled(env, records, st).failed;
    assert records[0].serverName == records[1].serverName;
    RepeatedIsChurned(env, records, st, 0, 1);
    ThirdRunIsIdle(env, records, st);
  }
}
