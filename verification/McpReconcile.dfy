/** Bringing the entries of the plugin loader in line with the configured MCP servers: `reconcileMcpLoader` and the
    set `managedMcpEntryIds` (packages/dsh-plugin-desktop/src/index.ts). */
module McpReconcile {
  import opened Prelude

  const CLIENT := "@deepseek-ai/dsh-mcp-client"

  /** A configured server; `details` stands for all that its plugin configuration is made from. */
  datatype Record = Record(serverName: string, enabled: bool, details: string)

  /** A loader entry; configurations are known by their JSON text. */
  datatype Entry = Entry(id: nat, plugin: string, config: string, disabled: Option<bool>)

  /** The server name in a configuration, if any, and the configuration of a record, unless making it throws. */
  datatype Env = Env(serverNameOf: string -> Option<string>, resolve: Record -> Option<string>)

  /** The record for a server name; of two with one name the later counts. */
  function Desired(records: seq<Record>, name: string): (r: Option<Record>)
    ensures r.Some? ==> r.value in records && r.value.serverName == name
  {
    if records == [] then None
    else if records[|records| - 1].serverName == name then Some(records[|records| - 1])
    else Desired(records[..|records| - 1], name)
  }

  /** `new Map(records)`: the last record of a name counts. */
  lemma {:induction false} DesiredIsLast(records: seq<Record>, i: nat)
    requires i < |records| && forall j | i < j < |records| :: records[j].serverName != records[i].serverName
    ensures Desired(records, records[i].serverName) == Some(records[i])
  {
    if i < |records| - 1 {
      DesiredIsLast(records[..|records| - 1], i);
    }
  }

  function RecordOf(env: Env, records: seq<Record>, e: Entry): (r: Option<Record>) {
    match env.serverNameOf(e.config)
    case None => None
    case Some(name) => Desired(records, name)
  }

  function Wanted(e: Entry, record: Record, config: string): Entry {
    e.(config := config, disabled := Some(!record.enabled))
  }

  /** What a pass over loader entries leaves. */
  datatype Outcome = Outcome(entries: seq<Entry>, managed: set<nat>, seen: set<string>, changed: bool, failed: bool)

  function Before(kept: seq<Entry>, changed: bool, o: Outcome): Outcome {
    o.(entries := kept + o.entries, changed := changed || o.changed)
  }

  /** The first loop: entries without a record go if they are managed, so do repeated ones, and the first of each
      name is brought to the desired state. */
  function Sweep(env: Env, records: seq<Record>, entries: seq<Entry>, managed: set<nat>, seen: set<string>): Outcome
    decreases |entries|, 0
  {
    if entries == [] then Outcome([], managed, seen, false, false)
    else
      var e, rest := entries[0], entries[1..];
      if e.plugin != CLIENT then Before([e], false, Sweep(env, records, rest, managed, seen))
      else
        match RecordOf(env, records, e)
        case None => Discard(env, records, e, rest, managed, seen)
        case Some(record) =>
          if record.serverName in seen then Discard(env, records, e, rest, managed, seen)
          else
            match env.resolve(record)
            case None => Outcome(entries, managed + {e.id}, seen + {record.serverName}, false, true)
            case Some(config) =>
              var wanted := Wanted(e, record, config);
              Before([wanted], e != wanted, Sweep(env, records, rest, managed + {e.id}, seen + {record.serverName}))
  }

  function Discard(env: Env, records: seq<Record>, e: Entry, rest: seq<Entry>, managed: set<nat>,
                   seen: set<string>): Outcome
    decreases |rest|, 1
  {
    if e.id in managed then Before([], true, Sweep(env, records, rest, managed - {e.id}, seen))
    else Before([e], false, Sweep(env, records, rest, managed, seen))
  }

  /** The entries made by the second loop, which stops where a configuration cannot be made. */
  datatype Filled = Filled(entries: seq<Entry>, failed: bool)

  /** The second loop: an entry is created for every record that has none. */
  function Fill(env: Env, records: seq<Record>, seen: set<string>, nextId: nat): Filled
    decreases |records|
  {
    if records == [] then Filled([], false)
    else if records[0].serverName in seen then Fill(env, records[1..], seen, nextId)
    else
      match env.resolve(records[0])
      case None => Filled([], true)
      case Some(config) =>
        var more := Fill(env, records[1..], seen, nextId + 1);
        Filled([Entry(nextId, CLIENT, config, Some(!records[0].enabled))] + more.entries, more.failed)
  }

  function After(made: seq<Entry>, f: Filled): Filled {
    f.(entries := made + f.entries)
  }

  function Ids(entries: seq<Entry>): set<nat> {
    set e | e in entries :: e.id
  }

  /** The loader and the managed set; identifiers from `nextId` on are unused. */
  datatype State = State(entries: seq<Entry>, managed: set<nat>, nextId: nat)

  datatype Run = Run(state: State, changed: bool, failed: bool)

  /** A whole reconciliation. */
  function Reconciled(env: Env, records: seq<Record>, st: State): Run {
    var swept := Sweep(env, records, st.entries, st.managed, {});
    if swept.failed then Run(State(swept.entries, swept.managed, st.nextId), swept.changed, true)
    else
      var filled := Fill(env, records, swept.seen, st.nextId);
      Run(State(swept.entries + filled.entries, swept.managed + Ids(filled.entries), st.nextId + |filled.entries|),
          swept.changed || filled.entries != [], filled.failed)
  }

  ghost predicate DistinctIds(entries: seq<Entry>) {
    forall i, j | 0 <= i < j < |entries| :: entries[i].id != entries[j].id
  }

  ghost predicate Sound(st: State) {
    && DistinctIds(st.entries)
    && (forall e | e in st.entries :: e.id < st.nextId)
    && (forall id | id in st.managed :: id < st.nextId)
  }

  // ----- The running program -----

  /** The loader's own list of entries. */
  class Loader {
    var entries: seq<Entry>
    var nextId: nat
    ghost var calls: nat

    constructor (entries: seq<Entry>, nextId: nat)
      ensures this.entries == entries && this.nextId == nextId && calls == 0
    {
      this.entries, this.nextId, calls := entries, nextId, 0;
    }

    method Remove(id: nat)
      modifies this
      ensures entries == Without(old(entries), id) && nextId == old(nextId) && calls == old(calls) + 1
    {
      entries := Without(entries, id);
      calls := calls + 1;
    }

    method Update(id: nat, config: string, disabled: bool)
      modifies this
      ensures entries == WithUpdate(old(entries), id, config, disabled)
              && nextId == old(nextId) && calls == old(calls) + 1
    {
      entries := WithUpdate(entries, id, config, disabled);
      calls := calls + 1;
    }

    method Create(config: string, disabled: bool) returns (id: nat)
      modifies this
      ensures id == old(nextId) && nextId == id + 1 && calls == old(calls) + 1
      ensures entries == old(entries) + [Entry(id, CLIENT, config, Some(disabled))]
    {
      id := nextId;
      entries := entries + [Entry(id, CLIENT, config, Some(disabled))];
      nextId, calls := id + 1, calls + 1;
    }
  }

  function Without(entries: seq<Entry>, id: nat): seq<Entry> {
    if entries == [] then []
    else if entries[0].id == id then Without(entries[1..], id)
    else [entries[0]] + Without(entries[1..], id)
  }

  function WithUpdate(entries: seq<Entry>, id: nat, config: string, disabled: bool): seq<Entry> {
    if entries == [] then []
    else
      [if entries[0].id == id then entries[0].(config := config, disabled := Some(disabled)) else entries[0]]
      + WithUpdate(entries[1..], id, config, disabled)
  }

  ghost predicate Absent(entries: seq<Entry>, id: nat) {
    forall e | e in entries :: e.id != id
  }

  lemma {:induction false} WithoutAbsent(entries: seq<Entry>, id: nat)
    requires Absent(entries, id)
    ensures Without(entries, id) == entries
  {
    if entries != [] {
      assert entries[0] in entries;
      WithoutAbsent(entries[1..], id);
    }
  }

  lemma {:induction false} WithUpdateAbsent(entries: seq<Entry>, id: nat, config: string, disabled: bool)
    requires Absent(entries, id)
    ensures WithUpdate(entries, id, config, disabled) == entries
  {
    if entries != [] {
      assert entries[0] in entries;
      WithUpdateAbsent(entries[1..], id, config, disabled);
    }
  }

  /** Removing and updating touch the one entry with the identifier. */
  lemma {:induction false} OneEntry(done: seq<Entry>, e: Entry, rest: seq<Entry>, config: string, disabled: bool)
    requires Absent(done, e.id) && Absent(rest, e.id)
    ensures Without(done + ([e] + rest), e.id) == done + rest
    ensures WithUpdate(done + ([e] + rest), e.id, config, disabled)
         == done + ([e.(config := config, disabled := Some(disabled))] + rest)
    decreases |done|
  {
    var all := done + ([e] + rest);
    if done == [] {
      assert all == [e] + rest && all[1..] == rest;
      WithoutAbsent(rest, e.id);
      WithUpdateAbsent(rest, e.id, config, disabled);
    } else {
      assert done[0] in done;
      assert all[1..] == done[1..] + ([e] + rest);
      OneEntry(done[1..], e, rest, config, disabled);
    }
  }

  /** The entries dealt with have other identifiers than those from `i` on. */
  ghost predicate NoneOf(done: seq<Entry>, entries: seq<Entry>, i: nat) {
    forall e, j | e in done && i <= j < |entries| :: e.id != entries[j].id
  }

  lemma OthersAbsent(entries: seq<Entry>, i: nat, done: seq<Entry>)
    requires DistinctIds(entries) && i < |entries| && NoneOf(done, entries, i)
    ensures Absent(done, entries[i].id) && Absent(entries[i + 1..], entries[i].id)
    ensures entries[i..] == [entries[i]] + entries[i + 1..]
  {
  }

  lemma NoneOfNext(done: seq<Entry>, entries: seq<Entry>, i: nat, left: seq<Entry>)
    requires DistinctIds(entries) && i < |entries| && NoneOf(done, entries, i)
    requires forall x | x in left :: x.id == entries[i].id
    ensures NoneOf(done + left, entries, i + 1)
  {
  }

  lemma {:induction false} SweepStep(env: Env, records: seq<Record>, e: Entry, rest: seq<Entry>, managed: set<nat>,
                                     seen: set<string>, left: seq<Entry>, managedNow: set<nat>, seenNow: set<string>,
                                     touched: bool, failed: bool, done: seq<Entry>, doneNow: seq<Entry>, changed: bool,
                                     whole: Outcome)
    requires whole == Before(done, changed, Sweep(env, records, [e] + rest, managed, seen))
    requires Turn(env, records, e, rest, managed, seen, left, managedNow, seenNow, touched, failed)
    requires doneNow == done + left && (failed ==> left == [e])
    ensures whole == if failed then Outcome(doneNow + rest, managedNow, seenNow, changed, true)
                     else Before(doneNow, changed || touched, Sweep(env, records, rest, managedNow, seenNow))
  {
    if failed {
      Regroup(done, [e], rest);
    } else {
      Regroup(done, left, Sweep(env, records, rest, managedNow, seenNow).entries);
    }
  }

  lemma IdsOfAppend(entries: seq<Entry>, e: Entry)
    ensures Ids(entries + [e]) == Ids(entries) + {e.id}
  {
    assert e in entries + [e];
    assert forall x | x in entries :: x in entries + [e];
  }

  /** `Fill` after the entries `made`, when `record` is next. */
  function FillFrom(env: Env, record: Record, rest: seq<Record>, seen: set<string>, nextId: nat,
                    made: seq<Entry>): Filled {
    if record.serverName in seen then After(made, Fill(env, rest, seen, nextId))
    else
      match env.resolve(record)
      case None => Filled(made, true)
      case Some(config) =>
        After(made + [Entry(nextId, CLIENT, config, Some(!record.enabled))], Fill(env, rest, seen, nextId + 1))
  }

  lemma {:induction false} FillStep(env: Env, records: seq<Record>, i: nat, seen: set<string>, nextId: nat,
                                    made: seq<Entry>)
    requires i < |records|
    ensures After(made, Fill(env, records[i..], seen, nextId))
          == FillFrom(env, records[i], records[i + 1..], seen, nextId, made)
  {
    var record, rest := records[i], records[i + 1..];
    assert records[i..][0] == record && records[i..][1..] == rest;
    if record.serverName !in seen && env.resolve(record).Some? {
      var e := Entry(nextId, CLIENT, env.resolve(record).value, Some(!record.enabled));
      var more := Fill(env, rest, seen, nextId + 1).entries;
      assert made + ([e] + more) == made + [e] + more;
    }
  }

  datatype Reply = Reply(reloaded: bool, managedEntries: nat)

  datatype Error = CannotResolve

  class McpManager {
    var managed: set<nat>

    constructor ()
      ensures managed == {}
    {
      managed := {};
    }

    /** One turn of the first loop, for the entry at the front of `entries`. */
    method Visit(env: Env, loader: Loader, records: seq<Record>, e: Entry, seen: set<string>, ghost done: seq<Entry>,
                 ghost todo: seq<Entry>, ghost rest: seq<Entry>)
      returns (seenNow: set<string>, touched: bool, failed: bool, ghost left: seq<Entry>)
      requires loader.entries == done + todo && todo == [e] + rest && Absent(done, e.id) && Absent(rest, e.id)
      modifies this, loader
      ensures loader.nextId == old(loader.nextId) && loader.calls == old(loader.calls) + (if touched then 1 else 0)
      ensures failed ==> !touched && left == [e]
      ensures loader.entries == done + left + rest && forall x | x in left :: x.id == e.id
      ensures Turn(env, records, e, rest, old(managed), seen, left, managed, seenNow, touched, failed)
    {
      seenNow, touched, failed, left := seen, false, false, [e];
      var record := RecordOf(env, records, e);
      OneEntry(done, e, rest, "", true);
      assert done + [e] + rest == done + todo;
      if e.plugin != CLIENT {
        return;
      }
      if record == None || record.value.serverName in seen {
        if e.id in managed {
          loader.Remove(e.id);
          managed, touched, left := managed - {e.id}, true, [];
        }
        return;
      }
      seenNow, managed := seen + {record.value.serverName}, managed + {e.id};
      var config := env.resolve(record.value);
      if config == None {
        failed := true;
        return;
      }
      var wanted := Wanted(e, record.value, config.value);
      if e.config != config.value || e.disabled != Some(!record.value.enabled) {
        OneEntry(done, e, rest, config.value, !record.value.enabled);
        loader.Update(e.id, config.value, !record.value.enabled);
        touched := true;
      }
      left := [wanted];
      assert done + [wanted] + rest == done + ([wanted] + rest);
    }

    /** One turn of the first loop, at index `i` of the entries as they were at its start; `done` is what is left of
        the entries before it. */
    method VisitAt(env: Env, loader: Loader, records: seq<Record>, entries: seq<Entry>, i: nat, seen: set<string>,
                   changed: bool, ghost done: seq<Entry>, ghost whole: Outcome)
      returns (seenNow: set<string>, changedNow: bool, failed: bool, ghost doneNow: seq<Entry>)
      requires i < |entries| && DistinctIds(entries) && NoneOf(done, entries, i)
      requires loader.entries == done + entries[i..]
      requires whole == Before(done, changed, Sweep(env, records, entries[i..], managed, seen))
      modifies this, loader
      ensures loader.nextId == old(loader.nextId) && (changed ==> changedNow)
      ensures loader.calls >= old(loader.calls) && (!changed && changedNow ==> loader.calls > old(loader.calls))
      ensures !changedNow ==> loader.calls == old(loader.calls)
      ensures loader.entries == doneNow + entries[i + 1..] && NoneOf(doneNow, entries, i + 1)
      ensures whole == if failed then Outcome(loader.entries, managed, seenNow, changedNow, true)
                       else Before(doneNow, changedNow, Sweep(env, records, entries[i + 1..], managed, seenNow))
    {
      var e := entries[i];
      ghost var rest := entries[i + 1..];
      ghost var managedThen := managed;
      OthersAbsent(entries, i, done);
      var touched;
      ghost var left;
      seenNow, touched, failed, left := Visit(env, loader, records, e, seen, done, entries[i..], rest);
      changedNow, doneNow := changed || touched, done + left;
      SweepStep(env, records, e, rest, managedThen, seen, left, managed, seenNow, touched, failed,
                done, doneNow, changed, whole);
      NoneOfNext(done, entries, i, left);
    }

    /** The first loop, over the entries as they are at its start. */
    method SweepLoader(env: Env, loader: Loader, records: seq<Record>)
      returns (seen: set<string>, changed: bool, failed: bool)
      requires DistinctIds(loader.entries)
      modifies this, loader
      ensures loader.nextId == old(loader.nextId)
      ensures if changed then loader.calls > old(loader.calls) else loader.calls == old(loader.calls)
      ensures Sweep(env, records, old(loader.entries), old(managed), {})
           == Outcome(loader.entries, managed, seen, changed, failed)
    {
      var snapshot := loader.entries;
      ghost var done: seq<Entry> := [];
      ghost var whole := Sweep(env, records, snapshot, managed, {});
      seen, changed, failed := {}, false, false;
      assert snapshot[0..] == snapshot;
      for i := 0 to |snapshot|
        invariant loader.nextId == old(loader.nextId)
        invariant if changed then loader.calls > old(loader.calls) else loader.calls == old(loader.calls)
        invariant loader.entries == done + snapshot[i..] && NoneOf(done, snapshot, i)
        invariant whole == Before(done, changed, Sweep(env, records, snapshot[i..], managed, seen))
      {
        seen, changed, failed, done := VisitAt(env, loader, records, snapshot, i, seen, changed, done, whole);
        if failed {
          return;
        }
      }
    }

    /** The second loop. */
    method FillLoader(env: Env, loader: Loader, records: seq<Record>, seen: set<string>)
      returns (changed: bool, failed: bool, ghost made: seq<Entry>)
      modifies this, loader
      ensures Fill(env, records, seen, old(loader.nextId)) == Filled(made, failed) && changed == (made != [])
      ensures loader.entries == old(loader.entries) + made && managed == old(managed) + Ids(made)
      ensures loader.nextId == old(loader.nextId) + |made| && loader.calls == old(loader.calls) + |made|
    {
      made, changed, failed := [], false, false;
      for i := 0 to |records|
        invariant changed == (made != [])
        invariant loader.entries == old(loader.entries) + made && managed == old(managed) + Ids(made)
        invariant loader.nextId == old(loader.nextId) + |made| && loader.calls == old(loader.calls) + |made|
        invariant Fill(env, records, seen, old(loader.nextId))
                == After(made, Fill(env, records[i..], seen, loader.nextId))
      {
        FillStep(env, records, i, seen, loader.nextId, made);
        if records[i].serverName !in seen {
          var config := env.resolve(records[i]);
          if config == None {
            failed := true;
            return;
          }
          var id := loader.Create(config.value, !records[i].enabled);
          managed, changed := managed + {id}, true;
          ghost var e := Entry(id, CLIENT, config.value, Some(!records[i].enabled));
          IdsOfAppend(made, e);
          made := made + [e];
        }
      }
    }

    function Now(loader: Loader): State
      reads this, loader
    {
      State(loader.entries, managed, loader.nextId)
    }

    /** Without a loader nothing happens. Otherwise the loader and the managed set become what `Reconciled` says, and
        the reply tells whether the loader was called at all. */
    method ReconcileMcpLoader(env: Env, loader: Option<Loader>, records: seq<Record>)
      returns (reply: Result<Reply, Error>)
      requires loader.Some? ==> Sound(Now(loader.value))
      modifies this, if loader.Some? then {loader.value} else {}
      ensures loader == None ==> reply == Ok(Reply(false, 0)) && managed == old(managed)
      ensures loader.Some? ==>
                var run := Reconciled(env, records, old(Now(loader.value)));
                && Now(loader.value) == run.state
                && reply == (if run.failed then Err(CannotResolve) else Ok(Reply(run.changed, |records|)))
                && (loader.value.calls == old(loader.value.calls) <==> !run.changed)
    {
      if loader == None {
        return Ok(Reply(false, 0));
      }
      var seen, swept, failed := SweepLoader(env, loader.value, records);
      if failed {
        return Err(CannotResolve);
      }
      var filled;
      ghost var made;
      filled, failed, made := FillLoader(env, loader.value, records, seen);
      reply := if failed then Err(CannotResolve) else Ok(Reply(swept || filled, |records|));
    }
  }

  /** One turn of the first loop does what `Sweep` says of its first entry. */
  ghost predicate Turn(env: Env, records: seq<Record>, e: Entry, rest: seq<Entry>, managed: set<nat>, seen: set<string>,
                       left: seq<Entry>, managedNow: set<nat>, seenNow: set<string>, touched: bool, failed: bool) {
    Sweep(env, records, [e] + rest, managed, seen)
    == if failed then Outcome([e] + rest, managedNow, seenNow, false, true)
       else Before(left, touched, Sweep(env, records, rest, managedNow, seenNow))
  }

  // ----- What a reconciliation achieves -----

  /** The server that a client entry is for. */
  function ServerOf(env: Env, e: Entry): Option<string> {
    if e.plugin == CLIENT then env.serverNameOf(e.config) else None
  }

  /** The first client entry for a server. */
  function First(env: Env, entries: seq<Entry>, name: string): Option<Entry> {
    if entries == [] then None
    else if ServerOf(env, entries[0]) == Some(name) then Some(entries[0])
    else First(env, entries[1..], name)
  }

  /** A configuration that is made for a record names its server. */
  ghost predicate NamesServers(env: Env, records: seq<Record>) {
    forall r | r in records && env.resolve(r).Some? :: env.serverNameOf(env.resolve(r).value) == Some(r.serverName)
  }

  /** Two records have one name only if it is among these. */
  ghost predicate RepeatedOnlyIn(records: seq<Record>, names: set<string>) {
    forall i, j | 0 <= i < j < |records| && records[i].serverName == records[j].serverName ::
      records[i].serverName in names
  }

  ghost predicate Configured(env: Env, records: seq<Record>) {
    RepeatedOnlyIn(records, {}) && NamesServers(env, records)
  }

  ghost predicate AsDesired(env: Env, e: Entry, record: Record) {
    env.resolve(record).Some? && e == Wanted(e, record, env.resolve(record).value)
  }

  /** The entry is one that a pass which has met the names `seen` lets stand. */
  ghost predicate Quiet(env: Env, records: seq<Record>, e: Entry, managed: set<nat>, seen: set<string>) {
    e.plugin == CLIENT ==>
      match RecordOf(env, records, e)
      case None => e.id !in managed
      case Some(record) =>
        if record.serverName in seen then e.id !in managed else e.id in managed && AsDesired(env, e, record)
  }

  function Meet(env: Env, records: seq<Record>, e: Entry, seen: set<string>): set<string> {
    if e.plugin == CLIENT && RecordOf(env, records, e).Some?
    then seen + {RecordOf(env, records, e).value.serverName}
    else seen
  }

  function MeetAll(env: Env, records: seq<Record>, entries: seq<Entry>, seen: set<string>): set<string>
    decreases |entries|
  {
    if entries == [] then seen else MeetAll(env, records, entries[1..], Meet(env, records, entries[0], seen))
  }

  ghost predicate Settled(env: Env, records: seq<Record>, entries: seq<Entry>, managed: set<nat>, seen: set<string>)
    decreases |entries|
  {
    entries != [] ==>
      && Quiet(env, records, entries[0], managed, seen)
      && Settled(env, records, entries[1..], managed, Meet(env, records, entries[0], seen))
  }

  lemma {:induction false} DesiredIsUnique(records: seq<Record>, i: nat)
    requires i < |records| && forall j | 0 <= j < |records| && j != i :: records[j].serverName != records[i].serverName
    ensures Desired(records, records[i].serverName) == Some(records[i])
    decreases |records|
  {
    if i < |records| - 1 {
      DesiredIsUnique(records[..|records| - 1], i);
    }
  }

  lemma {:induction false} DesiredExists(records: seq<Record>, i: nat)
    requires i < |records|
    ensures Desired(records, records[i].serverName).Some?
    decreases |records|
  {
    if i < |records| - 1 {
      DesiredExists(records[..|records| - 1], i);
    }
  }

  // ----- After the first loop -----

  lemma {:induction false} SweepLeavesOthers(env: Env, records: seq<Record>, entries: seq<Entry>, managed: set<nat>,
                                             seen: set<string>, id: nat)
    requires Absent(entries, id)
    ensures id in Sweep(env, records, entries, managed, seen).managed <==> id in managed
    decreases |entries|
  {
    if entries != [] {
      var e, rest := entries[0], entries[1..];
      assert e in entries;
      SweepLeavesOthers(env, records, rest, managed, seen, id);
      SweepLeavesOthers(env, records, rest, managed - {e.id}, seen, id);
      SweepLeavesOthers(env, records, rest, managed + {e.id}, Meet(env, records, e, seen), id);
    }
  }

  /** What a turn that does not fail leaves of an entry. */
  ghost predicate Left(env: Env, records: seq<Record>, e: Entry, managed: set<nat>, seen: set<string>, left: seq<Entry>,
                       managedNow: set<nat>) {
    if e.plugin != CLIENT then left == [e] && managedNow == managed
    else
      match RecordOf(env, records, e)
      case None => DroppedIfManaged(e, managed, left, managedNow)
      case Some(record) =>
        if record.serverName in seen then DroppedIfManaged(e, managed, left, managedNow)
        else
          && env.resolve(record).Some? && left == [Wanted(e, record, env.resolve(record).value)]
          && managedNow == managed + {e.id}
  }

  ghost predicate DroppedIfManaged(e: Entry, managed: set<nat>, left: seq<Entry>, managedNow: set<nat>) {
    if e.id in managed then left == [] && managedNow == managed - {e.id} else left == [e] && managedNow == managed
  }

  /** The configuration for the entry cannot be made. */
  predicate Stuck(env: Env, records: seq<Record>, e: Entry, seen: set<string>) {
    e.plugin == CLIENT
    && match RecordOf(env, records, e)
       case None => false
       case Some(record) => record.serverName !in seen && env.resolve(record) == None
  }

  lemma SweepParts(env: Env, records: seq<Record>, entries: seq<Entry>, managed: set<nat>, seen: set<string>)
    returns (left: seq<Entry>, managedNow: set<nat>, touched: bool, more: Outcome)
    requires entries != [] && !Stuck(env, records, entries[0], seen)
    ensures Left(env, records, entries[0], managed, seen, left, managedNow)
    ensures touched <==> left != [entries[0]]
    ensures more == Sweep(env, records, entries[1..], managedNow, Meet(env, records, entries[0], seen))
    ensures Sweep(env, records, entries, managed, seen) == Before(left, touched, more)
  {
    var e, rest := entries[0], entries[1..];
    var seenNow := Meet(env, records, e, seen);
    left, managedNow := [e], managed;
    if e.plugin == CLIENT {
      var record := RecordOf(env, records, e);
      if record == None || record.value.serverName in seen {
        if e.id in managed {
          left, managedNow := [], managed - {e.id};
        }
        assert seenNow == seen;
      } else {
        left, managedNow := [Wanted(e, record.value, env.resolve(record.value).value)], managed + {e.id};
      }
    }
    touched := left != [e];
    more := Sweep(env, records, rest, managedNow, seenNow);
  }

  lemma LeftIsSettled(env: Env, records: seq<Record>, e: Entry, managed: set<nat>, seen: set<string>, left: seq<Entry>,
                      managedNow: set<nat>, final: set<nat>)
    requires NamesServers(env, records) && Left(env, records, e, managed, seen, left, managedNow)
    requires e.id in final <==> e.id in managedNow
    ensures left == [] || (|left| == 1 && left[0].id == e.id && Quiet(env, records, left[0], final, seen))
    ensures left == [] ==> Meet(env, records, e, seen) == seen
    ensures left != [] ==> Meet(env, records, left[0], seen) == Meet(env, records, e, seen)
  {
  }

  lemma {:induction false} SweepSettles(env: Env, records: seq<Record>, entries: seq<Entry>, managed: set<nat>,
                                        seen: set<string>)
    requires NamesServers(env, records) && DistinctIds(entries) && !Sweep(env, records, entries, managed, seen).failed
    ensures var o := Sweep(env, records, entries, managed, seen);
            && Settled(env, records, o.entries, o.managed, seen)
            && MeetAll(env, records, o.entries, seen) == o.seen && seen <= o.seen
            && forall e | e in o.entries :: e.id in Ids(entries)
    decreases |entries|
  {
    if entries != [] {
      var e, rest := entries[0], entries[1..];
      var left, managedNow, touched, more := SweepParts(env, records, entries, managed, seen);
      var seenNow := Meet(env, records, e, seen);
      SweepSettles(env, records, rest, managedNow, seenNow);
      SweepLeavesOthers(env, records, rest, managedNow, seenNow, e.id);
      LeftIsSettled(env, records, e, managed, seen, left, managedNow, more.managed);
      assert left + more.entries == if left == [] then more.entries else [left[0]] + more.entries;
      assert forall x | x in rest :: x in entries;
    }
  }

  // ----- After the second loop -----

  lemma {:induction false} SettledFrame(env: Env, records: seq<Record>, entries: seq<Entry>, managed: set<nat>,
                                        seen: set<string>, other: set<nat>)
    requires Settled(env, records, entries, managed, seen)
    requires forall e | e in entries :: e.id in managed <==> e.id in other
    ensures Settled(env, records, entries, other, seen)
    decreases |entries|
  {
    if entries != [] {
      assert entries[0] in entries;
      SettledFrame(env, records, entries[1..], managed, Meet(env, records, entries[0], seen), other);
    }
  }

  lemma {:induction false} SettledAppend(env: Env, records: seq<Record>, a: seq<Entry>, b: seq<Entry>,
                                         managed: set<nat>, seen: set<string>)
    requires Settled(env, records, a, managed, seen)
             && Settled(env, records, b, managed, MeetAll(env, records, a, seen))
    ensures Settled(env, records, a + b, managed, seen)
    ensures MeetAll(env, records, a + b, seen) == MeetAll(env, records, b, MeetAll(env, records, a, seen))
    decreases |a|
  {
    if a == [] {
      assert a + b == b;
    } else {
      assert (a + b)[1..] == a[1..] + b;
      SettledAppend(env, records, a[1..], b, managed, Meet(env, records, a[0], seen));
    }
  }

  lemma {:induction false} MeetAllGrows(env: Env, records: seq<Record>, entries: seq<Entry>, seen: set<string>)
    ensures seen <= MeetAll(env, records, entries, seen)
    decreases |entries|
  {
    if entries != [] {
      MeetAllGrows(env, records, entries[1..], Meet(env, records, entries[0], seen));
    }
  }

  /** The created entries settle what is left of the records, from record `i` on. */
  lemma {:induction false} FillSettles(env: Env, records: seq<Record>, i: nat, seen: set<string>, met: set<string>,
                                       nextId: nat, managed: set<nat>)
    requires NamesServers(env, records) && RepeatedOnlyIn(records, seen)
    requires i <= |records| && !Fill(env, records[i..], seen, nextId).failed
    requires forall j | i <= j < |records| :: records[j].serverName in met <==> records[j].serverName in seen
    requires forall e | e in Fill(env, records[i..], seen, nextId).entries :: e.id in managed
    ensures var made := Fill(env, records[i..], seen, nextId).entries;
            && Settled(env, records, made, managed, met)
            && forall j | i <= j < |records| :: records[j].serverName in MeetAll(env, records, made, met)
    decreases |records| - i
  {
    if i < |records| {
      var record := records[i];
      assert records[i..][0] == record && records[i..][1..] == records[i + 1..];
      if record.serverName in seen {
        FillSettles(env, records, i + 1, seen, met, nextId, managed);
        MeetAllGrows(env, records, Fill(env, records[i..], seen, nextId).entries, met);
      } else {
        var e := Entry(nextId, CLIENT, env.resolve(record).value, Some(!record.enabled));
        var more := Fill(env, records[i + 1..], seen, nextId + 1).entries;
        assert Fill(env, records[i..], seen, nextId).entries == [e] + more;
        DesiredIsUnique(records, i);
        assert record in records;
        assert RecordOf(env, records, e) == Some(record);
        assert Meet(env, records, e, met) == met + {record.serverName};
        FillSettles(env, records, i + 1, seen, met + {record.serverName}, nextId + 1, managed);
        MeetAllGrows(env, records, more, met + {record.serverName});
      }
    }
  }

  lemma {:induction false} FillIds(env: Env, records: seq<Record>, seen: set<string>, nextId: nat)
    ensures var made := Fill(env, records, seen, nextId).entries;
            && DistinctIds(made) && forall e | e in made :: nextId <= e.id < nextId + |made|
    decreases |records|
  {
    if records != [] {
      FillIds(env, records[1..], seen, nextId);
      FillIds(env, records[1..], seen, nextId + 1);
    }
  }

  lemma {:induction false} SweepIds(env: Env, records: seq<Record>, entries: seq<Entry>, managed: set<nat>,
                                    seen: set<string>)
    requires DistinctIds(entries)
    ensures var o := Sweep(env, records, entries, managed, seen);
            && DistinctIds(o.entries) && Ids(o.entries) <= Ids(entries) && o.managed <= managed + Ids(entries)
    decreases |entries|
  {
    if entries != [] {
      var e, rest := entries[0], entries[1..];
      assert e in entries;
      if !Stuck(env, records, e, seen) {
        var left, managedNow, touched, more := SweepParts(env, records, entries, managed, seen);
        SweepIds(env, records, rest, managedNow, Meet(env, records, e, seen));
        NotAmongRest(entries);
        LeftIds(e, left, more.entries, Ids(rest));
        assert managedNow <= managed + {e.id};
      }
    }
  }

  lemma LeftIds(e: Entry, left: seq<Entry>, more: seq<Entry>, rest: set<nat>)
    requires left == [] || (|left| == 1 && left[0].id == e.id)
    requires DistinctIds(more) && Ids(more) <= rest && e.id !in rest
    ensures DistinctIds(left + more) && Ids(left + more) <= {e.id} + rest
  {
    if left == [] {
      assert left + more == more;
    } else {
      assert left == [left[0]];
      ConsIds(left[0], more);
    }
  }

  lemma NotAmongRest(entries: seq<Entry>)
    requires DistinctIds(entries) && entries != []
    ensures entries[0].id !in Ids(entries[1..]) && Ids(entries) == {entries[0].id} + Ids(entries[1..])
  {
    assert entries == [entries[0]] + entries[1..];
    assert forall x | x in entries[1..] :: x in entries;
    assert entries[0] in entries;
  }

  lemma ConsIds(e: Entry, entries: seq<Entry>)
    requires DistinctIds(entries) && e.id !in Ids(entries)
    ensures DistinctIds([e] + entries) && Ids([e] + entries) == {e.id} + Ids(entries)
  {
    forall x | x in entries ensures x.id in Ids(entries) {
    }
    var all := [e] + entries;
    forall i, j | 0 <= i < j < |all| ensures all[i].id != all[j].id {
      assert all[j] == entries[j - 1];
      assert i > 0 ==> all[i] == entries[i - 1];
    }
    assert e in all && forall x | x in entries :: x in all;
  }

  /** The loader stays in order, even when a configuration cannot be made half-way. */
  lemma ReconciledIsSound(env: Env, records: seq<Record>, st: State)
    requires Sound(st)
    ensures Sound(Reconciled(env, records, st).state)
  {
    var swept := Sweep(env, records, st.entries, st.managed, {});
    SweepIds(env, records, st.entries, st.managed, {});
    forall e | e in swept.entries ensures e.id < st.nextId {
      assert e.id in Ids(swept.entries);
    }
    if !swept.failed {
      FillIds(env, records, swept.seen, st.nextId);
      var made := Fill(env, records, swept.seen, st.nextId).entries;
      var all := swept.entries + made;
      forall i, j | 0 <= i < j < |all| ensures all[i].id != all[j].id {
        if i < |swept.entries| <= j {
          assert all[i] in swept.entries && all[j] in made;
        }
      }
    }
  }

  lemma {:induction false} ReconciledIsSettled(env: Env, records: seq<Record>, st: State)
    requires Sound(st) && NamesServers(env, records) && !Reconciled(env, records, st).failed
    requires RepeatedOnlyIn(records, Sweep(env, records, st.entries, st.managed, {}).seen)
    ensures var now := Reconciled(env, records, st).state;
            && Settled(env, records, now.entries, now.managed, {})
            && forall r | r in records :: r.serverName in MeetAll(env, records, now.entries, {})
  {
    var swept := Sweep(env, records, st.entries, st.managed, {});
    var made := Fill(env, records, swept.seen, st.nextId).entries;
    var managed := swept.managed + Ids(made);
    SweepSettles(env, records, st.entries, st.managed, {});
    FillIds(env, records, swept.seen, st.nextId);
    forall e | e in swept.entries ensures e.id in swept.managed <==> e.id in managed {
      assert e.id in Ids(st.entries);
    }
    SettledFrame(env, records, swept.entries, swept.managed, {}, managed);
    assert records[0..] == records;
    FillSettles(env, records, 0, swept.seen, swept.seen, st.nextId, managed);
    SettledAppend(env, records, swept.entries, made, managed, {});
  }

  // ----- The results -----

  lemma {:induction false} FirstOfSettled(env: Env, records: seq<Record>, entries: seq<Entry>, managed: set<nat>,
                                          seen: set<string>, record: Record)
    requires Settled(env, records, entries, managed, seen) && Desired(records, record.serverName) == Some(record)
    requires record.serverName !in seen && record.serverName in MeetAll(env, records, entries, seen)
    ensures var first := First(env, entries, record.serverName);
            && first.Some? && first.value.id in managed && AsDesired(env, first.value, record)
            && first.value.plugin == CLIENT
    decreases |entries|
  {
    if ServerOf(env, entries[0]) != Some(record.serverName) {
      FirstOfSettled(env, records, entries[1..], managed, Meet(env, records, entries[0], seen), record);
    }
  }

  lemma {:induction false} ManagedOfSettled(env: Env, records: seq<Record>, entries: seq<Entry>, managed: set<nat>,
                                            seen: set<string>, e: Entry)
    requires Settled(env, records, entries, managed, seen) && e in entries && e.plugin == CLIENT && e.id in managed
    ensures var record := RecordOf(env, records, e);
            record.Some? && record.value.serverName !in seen && First(env, entries, record.value.serverName) == Some(e)
    decreases |entries|
  {
    if e != entries[0] {
      ManagedOfSettled(env, records, entries[1..], managed, Meet(env, records, entries[0], seen), e);
    }
  }

  /** The first entry of every record is managed and as desired; and no managed entry is without a record, or
      repeated. */
  lemma {:induction false} ReconciledIsAsDesired(env: Env, records: seq<Record>, st: State)
    requires Sound(st) && Configured(env, records) && !Reconciled(env, records, st).failed
    ensures var now := Reconciled(env, records, st).state;
            && (forall r | r in records ::
                  var first := First(env, now.entries, r.serverName);
                  && first.Some? && first.value.id in now.managed
                  && first.value.plugin == "@deepseek-ai/dsh-mcp-client"
                  && env.resolve(r) == Some(first.value.config) && first.value.disabled == Some(!r.enabled))
            && (forall e | e in now.entries && e.plugin == CLIENT && e.id in now.managed ::
                  var r := RecordOf(env, records, e);
                  r.Some? && First(env, now.entries, r.value.serverName) == Some(e))
  {
    var now := Reconciled(env, records, st).state;
    ReconciledIsSettled(env, records, st);
    forall r | r in records
      ensures var first := First(env, now.entries, r.serverName);
              && first.Some? && first.value.id in now.managed && AsDesired(env, first.value, r)
              && first.value.plugin == CLIENT
    {
      var i :| 0 <= i < |records| && records[i] == r;
      DesiredIsUnique(records, i);
      FirstOfSettled(env, records, now.entries, now.managed, {}, r);
    }
    forall e | e in now.entries && e.plugin == CLIENT && e.id in now.managed
      ensures var r := RecordOf(env, records, e); r.Some? && First(env, now.entries, r.value.serverName) == Some(e)
    {
      ManagedOfSettled(env, records, now.entries, now.managed, {}, e);
    }
  }

  lemma {:induction false} SweepOfSettled(env: Env, records: seq<Record>, entries: seq<Entry>, managed: set<nat>,
                                          seen: set<string>)
    requires Settled(env, records, entries, managed, seen)
    ensures Sweep(env, records, entries, managed, seen)
         == Outcome(entries, managed, MeetAll(env, records, entries, seen), false, false)
    decreases |entries|
  {
    if entries != [] {
      var e := entries[0];
      var left, managedNow, touched, more := SweepParts(env, records, entries, managed, seen);
      assert managedNow == managed && left == [e];
      SweepOfSettled(env, records, entries[1..], managed, Meet(env, records, e, seen));
      assert [e] + entries[1..] == entries;
    }
  }

  lemma {:induction false} NothingToFill(env: Env, records: seq<Record>, seen: set<string>, nextId: nat)
    requires forall r | r in records :: r.serverName in seen
    ensures Fill(env, records, seen, nextId) == Filled([], false)
  {
    if records != [] {
      assert records[0] in records;
      NothingToFill(env, records[1..], seen, nextId);
    }
  }

  /** A second run changes nothing and makes no loader call. */
  lemma SecondRunIsIdle(env: Env, records: seq<Record>, st: State)
    requires Sound(st) && Configured(env, records) && !Reconciled(env, records, st).failed
    ensures var now := Reconciled(env, records, st).state; Reconciled(env, records, now) == Run(now, false, false)
  {
    var now := Reconciled(env, records, st).state;
    ReconciledIsSettled(env, records, st);
    SweepOfSettled(env, records, now.entries, now.managed, {});
    NothingToFill(env, records, MeetAll(env, records, now.entries, {}), now.nextId);
    assert now.entries + [] == now.entries && now.managed + Ids([]) == now.managed;
  }

  /** The entries that are no business of a reconciliation: other plugins, and clients that are not managed and that
      no record names. */
  function Foreign(env: Env, records: seq<Record>, entries: seq<Entry>, managed: set<nat>): seq<Entry> {
    if entries == [] then []
    else
      var e := entries[0];
      (if e.plugin != CLIENT || (e.id !in managed && RecordOf(env, records, e) == None) then [e] else [])
      + Foreign(env, records, entries[1..], managed)
  }

  lemma {:induction false} LeftForeign(env: Env, records: seq<Record>, e: Entry, managed: set<nat>, seen: set<string>,
                                       left: seq<Entry>, managedNow: set<nat>, before: set<nat>)
    requires NamesServers(env, records) && Left(env, records, e, managed, seen, left, managedNow)
    requires e.id in before <==> e.id in managed
    ensures Foreign(env, records, left, before) == Foreign(env, records, [e], before)
  {
    assert [e][1..] == [];
    if left != [] {
      assert left == [left[0]] && left[1..] == [];
    }
  }

  lemma {:induction false} SweepKeepsForeign(env: Env, records: seq<Record>, entries: seq<Entry>, managed: set<nat>,
                                             seen: set<string>, before: set<nat>)
    requires NamesServers(env, records) && DistinctIds(entries)
    requires forall e | e in entries :: e.id in before <==> e.id in managed
    ensures Foreign(env, records, Sweep(env, records, entries, managed, seen).entries, before)
         == Foreign(env, records, entries, before)
    decreases |entries|
  {
    if entries != [] && !Stuck(env, records, entries[0], seen) {
      var e, rest := entries[0], entries[1..];
      var left, managedNow, touched, more := SweepParts(env, records, entries, managed, seen);
      assert e in entries;
      forall x | x in rest ensures x.id in before <==> x.id in managedNow {
        assert x in entries && x.id != e.id;
      }
      SweepKeepsForeign(env, records, rest, managedNow, Meet(env, records, e, seen), before);
      LeftForeign(env, records, e, managed, seen, left, managedNow, before);
      ForeignAppend(env, records, left, more.entries, before);
      ForeignAppend(env, records, [e], rest, before);
      assert entries == [e] + rest;
    }
  }

  lemma {:induction false} NoForeignMade(env: Env, records: seq<Record>, i: nat, seen: set<string>, nextId: nat,
                                         before: set<nat>)
    requires NamesServers(env, records) && i <= |records|
    ensures Foreign(env, records, Fill(env, records[i..], seen, nextId).entries, before) == []
    decreases |records| - i
  {
    if i < |records| {
      var record := records[i];
      assert records[i..][0] == record && records[i..][1..] == records[i + 1..];
      NoForeignMade(env, records, i + 1, seen, nextId, before);
      NoForeignMade(env, records, i + 1, seen, nextId + 1, before);
      if record.serverName !in seen && env.resolve(record).Some? {
        var e := Entry(nextId, CLIENT, env.resolve(record).value, Some(!record.enabled));
        DesiredExists(records, i);
        assert record in records;
        assert RecordOf(env, records, e).Some?;
        ForeignAppend(env, records, [e], Fill(env, records[i + 1..], seen, nextId + 1).entries, before);
        assert [e][1..] == [];
      }
    }
  }

  /** Foreign entries stay as they are and in their order, even when a configuration cannot be made half-way. */
  lemma {:induction false} ForeignStay(env: Env, records: seq<Record>, st: State)
    requires Sound(st) && NamesServers(env, records)
    ensures Foreign(env, records, Reconciled(env, records, st).state.entries, st.managed)
         == Foreign(env, records, st.entries, st.managed)
  {
    var swept := Sweep(env, records, st.entries, st.managed, {});
    SweepKeepsForeign(env, records, st.entries, st.managed, {}, st.managed);
    if !swept.failed {
      assert records[0..] == records;
      NoForeignMade(env, records, 0, swept.seen, st.nextId, st.managed);
      ForeignAppend(env, records, swept.entries, Fill(env, records, swept.seen, st.nextId).entries, st.managed);
    }
  }

  lemma {:induction false} ForeignAppend(env: Env, records: seq<Record>, a: seq<Entry>, b: seq<Entry>,
                                         managed: set<nat>)
    ensures Foreign(env, records, a + b, managed)
          == Foreign(env, records, a, managed) + Foreign(env, records, b, managed)
  {
    if a == [] {
      assert a + b == b;
    } else {
      assert (a + b)[1..] == a[1..] + b;
      ForeignAppend(env, records, a[1..], b, managed);
    }
  }
}
