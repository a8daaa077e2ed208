/**
 Upgrading the addons of a release in dependency order. The stored ClusterAddon
 objects are a map from object name to record. Every remote result of a run
 (API reads and writes, hooks, backup, the upgrade job, health check) comes from
 an oracle per addon name; a run handles each name at most once. The release
 the cluster is at is read once per run, and an absent one defines nothing.
 */
module AddonUpgrades {
  import opened Wrappers
  import opened DependencyGraph

  datatype Hook = Hook(name: string, onFailure: string)
  datatype AddonDef = AddonDef(name: string, version: string, dependencies: seq<string>, preHooks: seq<Hook>,
                               postHooks: seq<Hook>, backup: bool, healthCheck: bool)
  type Release = seq<AddonDef>

  /** A stored ClusterAddon: the definition it refers to and the version its status reports. */
  datatype Record = Record(addonName: string, version: string)
  type Store = map<string, Record>

  /** Results of the remote operations for one addon; hooks beyond a result list succeed. */
  datatype Oracle = Oracle(getOk: bool, createOk: bool, pre: seq<bool>, backupOk: bool, performOk: bool,
                           post: seq<bool>, healthOk: bool, statusOk: bool)

  /** What a run reads and is told: the release the cluster is at and the results per addon. */
  datatype Oracles = Oracles(current: Release, results: map<string, Oracle>)

  const ALL_WELL := Oracle(true, true, [], true, true, [], true, true)

  function OracleFor(oracles: Oracles, name: string): Oracle {
    if name in oracles.results then oracles.results[name] else ALL_WELL
  }

  /** The first definition of that name. */
  function FindDef(release: Release, name: string): (r: Option<AddonDef>)
    ensures r.Some? ==> r.value in release && r.value.name == name
    ensures r.None? ==> forall d :: d in release ==> d.name != name
  {
    if release == [] then None
    else if release[0].name == name then Some(release[0])
    else FindDef(release[1..], name)
  }

  /** Of several definitions with one name the first is found. */
  lemma {:induction false} FindsTheFirst(release: Release, i: nat)
    requires i < |release| && forall j :: 0 <= j < i ==> release[j].name != release[i].name
    ensures FindDef(release, release[i].name) == Some(release[i])
  {
    if i > 0 {
      FindsTheFirst(release[1..], i - 1);
    }
  }

  // ----- One addon

  ghost predicate HookTolerated(hook: Hook) {
    hook.onFailure == "Ignore" || hook.onFailure == "Continue"
  }

  ghost predicate HooksPass(hooks: seq<Hook>, results: seq<bool>) {
    forall i :: 0 <= i < |hooks| && i < |results| && !results[i] ==> HookTolerated(hooks[i])
  }

  method ExecuteHooks(hooks: seq<Hook>, results: seq<bool>) returns (ok: bool)
    ensures ok <==> HooksPass(hooks, results)
  {
    for i := 0 to |hooks|
      invariant forall j :: 0 <= j < i && j < |results| && !results[j] ==> HookTolerated(hooks[j])
    {
      if i < |results| && !results[i] {
        if hooks[i].onFailure == "Abort" { return false; }
        else if hooks[i].onFailure == "Ignore" { continue; }
        else if hooks[i].onFailure == "Continue" { continue; }
        else { return false; }
      }
    }
    return true;
  }

  /**
   All the stages of an upgrade to the definition go well. A backup records the
   version of the current definition; where there is none the upgrade panics.
   */
  ghost predicate StagesPass(current: Release, def: AddonDef, o: Oracle) {
    && HooksPass(def.preHooks, o.pre)
    && (def.backup ==> FindDef(current, def.name).Some? && o.backupOk)
    && o.performOk
    && HooksPass(def.postHooks, o.post)
    && (def.healthCheck ==> o.healthOk)
    && o.statusOk
  }

  /** The version an upgrade of the record writes, or None when the upgrade fails. */
  ghost function Upgraded(release: Release, current: Release, rec: Record, o: Oracle): Option<string> {
    var target := FindDef(release, rec.addonName);
    if target.Some? && StagesPass(current, target.value, o) then Some(target.value.version) else None
  }

  /** The version is written only when no stage has failed, and then always. */
  method Upgrade(release: Release, current: Release, rec: Record, o: Oracle) returns (written: Option<Record>)
    ensures FindDef(release, rec.addonName).None? ==> written.None?
    ensures FindDef(release, rec.addonName).Some? ==>
      var def := FindDef(release, rec.addonName).value;
      && (written.Some? <==>
            && HooksPass(def.preHooks, o.pre) && o.performOk && HooksPass(def.postHooks, o.post) && o.statusOk
            && (def.backup ==> o.backupOk && FindDef(current, rec.addonName).Some?)
            && (def.healthCheck ==> o.healthOk))
      && (written.Some? ==> written.value == Record(rec.addonName, def.version))
    ensures written == match Upgraded(release, current, rec, o)
                       case None => None
                       case Some(v) => Some(rec.(version := v))
  {
    var currentDef := FindDef(current, rec.addonName);
    var target := FindDef(release, rec.addonName);
    if target.None? { return None; }
    var def := target.value;
    var pre := ExecuteHooks(def.preHooks, o.pre);
    if !pre { return None; }
    if def.backup {
      if currentDef.None? { return None; } // a nil dereference: nothing is written
      if !o.backupOk { return None; }
    }
    if !o.performOk { return None; }
    var post := ExecuteHooks(def.postHooks, o.post);
    if !post { return None; }
    if def.healthCheck && !o.healthOk { return None; }
    if !o.statusOk { return None; }
    return Some(rec.(version := def.version));
  }

  // ----- All addons of a release

  function DefNames(release: Release): set<string> {
    set d | d in release :: d.name
  }

  function AddonGraph(release: Release): (g: Graph)
    ensures g.Keys == DefNames(release)
  {
    if release == [] then map[]
    else
      var last := |release| - 1;
      assert release == release[..last] + [release[last]];
      AddonGraph(release[..last])[release[last].name := release[last].dependencies]
  }

  /** The graph holds the dependencies of the last definition of each name. */
  lemma {:induction false} GraphHoldsDependencies(release: Release, i: nat)
    requires i < |release| && forall j :: i < j < |release| ==> release[j].name != release[i].name
    ensures release[i].name in AddonGraph(release) && AddonGraph(release)[release[i].name] == release[i].dependencies
  {
    var last := |release| - 1;
    if i < last {
      GraphHoldsDependencies(release[..last], i);
    }
  }

  /** An upgrade that was called, and what was stored at that moment. */
  datatype Call = Call(name: string, at: Store)
  datatype Result = Result(ok: bool, store: Store, calls: seq<Call>)

  /** Handling the names of a sorted list one after the other, stopping at the first error. */
  ghost function Run(release: Release, names: seq<string>, store: Store, oracles: Oracles): Result
    decreases |names|
  {
    if names == [] then Result(true, store, [])
    else
      var head := Handle(release, names[0], store, oracles);
      if !head.ok then head
      else
        Join(head, Run(release, names[1..], head.store, oracles))
  }

  /** The body of the loop for one name. */
  ghost function Handle(release: Release, name: string, store: Store, oracles: Oracles): Result {
    var o := OracleFor(oracles, name);
    var def := FindDef(release, name);
    if def.None? then Result(true, store, [])
    else if !o.getOk then Result(false, store, [])
    else if name !in store && !o.createOk then Result(false, store, [])
    else
      var created := if name in store then store else store[name := Record(name, "")];
      var rec := created[name];
      if rec.version == def.value.version then Result(true, created, [])
      else match Upgraded(release, oracles.current, rec, o)
        case None => Result(false, created, [Call(name, created)])
        case Some(v) => Result(true, created[name := rec.(version := v)], [Call(name, created)])
  }

  method HandleAddon(release: Release, name: string, store: Store, oracles: Oracles) returns (r: Result)
    ensures r == Handle(release, name, store, oracles)
    ensures r.ok <==> Passes(release, store, oracles, name)
    ensures Leaves(release, store, oracles, name, r.store) && Unchanged(store, r.store, name)
  {
    var o := OracleFor(oracles, name);
    var def := FindDef(release, name);
    if def.None? { return Result(true, store, []); }
    if !o.getOk { return Result(false, store, []); }
    var after := store;
    if name !in after {
      if !o.createOk { return Result(false, store, []); }
      after := after[name := Record(name, "")];
    }
    if after[name].version == def.value.version { return Result(true, after, []); }
    var written := Upgrade(release, oracles.current, after[name], o);
    if written.None? { return Result(false, after, [Call(name, after)]); }
    return Result(true, after[name := written.value], [Call(name, after)]);
  }

  method ExecuteAddonUpgrades(release: Release, order: seq<string>, store: Store, oracles: Oracles) returns (r: Result)
    requires Enumerates(order, AddonGraph(release))
    ensures r == Run(release, Sorted(AddonGraph(release), order), store, oracles)
  {
    var sorted := TopologicalSort(AddonGraph(release), order);
    r := RunAddons(release, sorted, store, oracles);
  }

  method RunAddons(release: Release, sorted: seq<string>, store: Store, oracles: Oracles) returns (r: Result)
    ensures r == Run(release, sorted, store, oracles)
  {
    r := Result(true, store, []);
    ghost var whole := Run(release, sorted, store, oracles);
    for i := 0 to |sorted|
      invariant r.ok
      invariant whole == Join(r, Run(release, sorted[i..], r.store, oracles))
    {
      ghost var before := r;
      var head := HandleAddon(release, sorted[i], r.store, oracles);
      assert sorted[i..][1..] == sorted[i + 1..];
      r := Join(r, head);
      if !head.ok {
        return r;
      }
      JoinAssociates(before, head, Run(release, sorted[i + 1..], head.store, oracles));
    }
  }

  lemma JoinAssociates(a: Result, b: Result, c: Result)
    ensures Join(Join(a, b), c) == Join(a, Join(b, c))
  {
    assert (a.calls + b.calls) + c.calls == a.calls + (b.calls + c.calls);
  }

  /** One part of a run followed by the next. */
  function Join(first: Result, second: Result): Result {
    Result(second.ok, second.store, first.calls + second.calls)
  }

  // ----- What handling one name comes to, told from the store before it

  /** The object that is worked on: the stored one, or a new one that refers to the definition of its own name. */
  ghost function Found(store: Store, name: string): Record {
    if name in store then store[name] else Record(name, "")
  }

  /** The object could be read, or was missing and could be created. */
  ghost predicate CanBegin(store: Store, o: Oracle, name: string) {
    o.getOk && (name in store || o.createOk)
  }

  /** Every stage of the upgrade of the record to the definition it refers to went well. */
  ghost predicate WentWell(release: Release, current: Release, rec: Record, o: Oracle) {
    FindDef(release, rec.addonName).Some? &&
      var def := FindDef(release, rec.addonName).value;
      && HooksPass(def.preHooks, o.pre) && o.performOk && HooksPass(def.postHooks, o.post) && o.statusOk
      && (def.backup ==> o.backupOk && FindDef(current, rec.addonName).Some?)
      && (def.healthCheck ==> o.healthOk)
  }

  /** The handling of the name reports no error. */
  ghost predicate Passes(release: Release, store: Store, oracles: Oracles, name: string) {
    FindDef(release, name).Some? ==>
      && CanBegin(store, OracleFor(oracles, name), name)
      && (Found(store, name).version == FindDef(release, name).value.version
          || WentWell(release, oracles.current, Found(store, name), OracleFor(oracles, name)))
  }

  ghost predicate Same(a: Store, b: Store, name: string) {
    (name in a <==> name in b) && (name in a ==> a[name] == b[name])
  }

  /**
   What the handling of a name leaves, with an error or without: nothing if it could
   not begin; the object as found if it was at its target or a stage failed; and the
   version of the definition it refers to only if every stage went well.
   */
  ghost predicate Leaves(release: Release, store: Store, oracles: Oracles, name: string, after: Store) {
    if FindDef(release, name).None? || !CanBegin(store, OracleFor(oracles, name), name) then Same(store, after, name)
    else
      var rec := Found(store, name);
      && name in after
      && after[name] ==
           if Wanted(release, store, oracles, name) && WentWell(release, oracles.current, rec, OracleFor(oracles, name))
           then Record(rec.addonName, FindDef(release, rec.addonName).value.version) else rec
  }

  /** The handling of the name gets as far as an Upgrade call: it can begin and the object is not at its target. */
  ghost predicate Wanted(release: Release, store: Store, oracles: Oracles, name: string) {
    && FindDef(release, name).Some?
    && CanBegin(store, OracleFor(oracles, name), name)
    && Found(store, name).version != FindDef(release, name).value.version
  }

  ghost predicate IsCalled(calls: seq<Call>, name: string) {
    exists k :: 0 <= k < |calls| && calls[k].name == name
  }

  lemma HandleExactly(release: Release, name: string, store: Store, oracles: Oracles)
    ensures var r := Handle(release, name, store, oracles);
      && (r.ok <==> Passes(release, store, oracles, name))
      && Leaves(release, store, oracles, name, r.store)
      && Unchanged(store, r.store, name)
      && |r.calls| <= 1
      && forall n :: IsCalled(r.calls, n) <==> n == name && Wanted(release, store, oracles, name)
  {
    var r := Handle(release, name, store, oracles);
    if Wanted(release, store, oracles, name) {
      assert r.calls[0].name == name;
    }
  }

  /** The position of the first name whose handling reports an error, told from the store before the run. */
  ghost function FirstFailing(release: Release, names: seq<string>, store: Store, oracles: Oracles): (f: nat)
    ensures f <= |names|
    ensures forall i :: 0 <= i < f ==> Passes(release, store, oracles, names[i])
    ensures f < |names| ==> !Passes(release, store, oracles, names[f])
  {
    if names == [] || !Passes(release, store, oracles, names[0]) then 0
    else 1 + FirstFailing(release, names[1..], store, oracles)
  }

  lemma {:induction false} FirstFailingFrame(release: Release, names: seq<string>, a: Store, b: Store, oracles: Oracles,
                                             name: string)
    requires Unchanged(a, b, name) && name !in names
    ensures FirstFailing(release, names, a, oracles) == FirstFailing(release, names, b, oracles)
    decreases |names|
  {
    if names != [] {
      FirstFailingFrame(release, names[1..], a, b, oracles, name);
    }
  }

  /** How the handling of the first name and the rest of the run make up the run and its first failing name. */
  lemma RunFirst(release: Release, names: seq<string>, store: Store, oracles: Oracles)
    requires NoDuplicates(names) && names != []
    ensures var head, rest := Handle(release, names[0], store, oracles), names[1..];
      var r, f := Run(release, names, store, oracles), FirstFailing(release, names, store, oracles);
      && names[0] !in rest && NoDuplicates(rest)
      && if head.ok then
           r == Join(head, Run(release, rest, head.store, oracles))
           && f == 1 + FirstFailing(release, rest, head.store, oracles)
         else r == head && f == 0
  {
    HandleExactly(release, names[0], store, oracles);
    var head := Handle(release, names[0], store, oracles);
    assert names[0] !in names[1..];
    FirstFailingFrame(release, names[1..], store, head.store, oracles, names[0]);
  }

  /** What the handling of a name comes to does not depend on other names. */
  lemma HandlingFrame(release: Release, a: Store, b: Store, oracles: Oracles, name: string, n: string, after: Store)
    requires Unchanged(a, b, name) && n != name
    ensures Wanted(release, a, oracles, n) <==> Wanted(release, b, oracles, n)
    ensures Leaves(release, a, oracles, n, after) <==> Leaves(release, b, oracles, n, after)
    ensures Same(a, after, n) <==> Same(b, after, n)
  {
    assert Same(a, b, n);
  }

  lemma {:induction false} RunLeaves(release: Release, names: seq<string>, store: Store, oracles: Oracles, i: nat)
    requires NoDuplicates(names) && i < |names|
    ensures var r, f := Run(release, names, store, oracles), FirstFailing(release, names, store, oracles);
      if i <= f then Leaves(release, store, oracles, names[i], r.store) else Same(store, r.store, names[i])
    decreases |names|
  {
    RunFirst(release, names, store, oracles);
    HandleExactly(release, names[0], store, oracles);
    var head := Handle(release, names[0], store, oracles);
    var after := Run(release, names, store, oracles).store;
    if head.ok && i == 0 {
      RunFrame(release, names[1..], head.store, oracles, names[0]);
    } else if head.ok {
      RunLeaves(release, names[1..], head.store, oracles, i - 1);
      HandlingFrame(release, store, head.store, oracles, names[0], names[i], after);
    }
  }

  lemma JoinedCalls(a: Result, b: Result, n: string)
    ensures IsCalled(Join(a, b).calls, n) <==> IsCalled(a.calls, n) || IsCalled(b.calls, n)
  {
    var all := a.calls + b.calls;
    if k :| 0 <= k < |a.calls| && a.calls[k].name == n {
      assert all[k].name == n;
    }
    if k :| 0 <= k < |b.calls| && b.calls[k].name == n {
      assert all[|a.calls| + k].name == n;
    }
  }

  lemma {:induction false} CalledIsListed(release: Release, names: seq<string>, store: Store, oracles: Oracles,
                                          n: string)
    requires NoDuplicates(names) && n !in names
    ensures !IsCalled(Run(release, names, store, oracles).calls, n)
    decreases |names|
  {
    if names != [] {
      RunFirst(release, names, store, oracles);
      HandleExactly(release, names[0], store, oracles);
      var head := Handle(release, names[0], store, oracles);
      if head.ok {
        CalledIsListed(release, names[1..], head.store, oracles, n);
        JoinedCalls(head, Run(release, names[1..], head.store, oracles), n);
      }
    }
  }

  /** A name is called exactly when it wants an upgrade and stands no later than the first that fails. */
  lemma {:induction false} RunCalls(release: Release, names: seq<string>, store: Store, oracles: Oracles, i: nat)
    requires NoDuplicates(names) && i < |names|
    ensures IsCalled(Run(release, names, store, oracles).calls, names[i]) <==>
      i <= FirstFailing(release, names, store, oracles) && Wanted(release, store, oracles, names[i])
    decreases |names|
  {
    RunFirst(release, names, store, oracles);
    HandleExactly(release, names[0], store, oracles);
    var head := Handle(release, names[0], store, oracles);
    if head.ok {
      JoinedCalls(head, Run(release, names[1..], head.store, oracles), names[i]);
      if i == 0 {
        CalledIsListed(release, names[1..], head.store, oracles, names[0]);
      } else {
        RunCalls(release, names[1..], head.store, oracles, i - 1);
        HandlingFrame(release, store, head.store, oracles, names[0], names[i], store);
      }
    }
  }

  lemma {:induction false} RunEndsAtFailing(release: Release, names: seq<string>, store: Store, oracles: Oracles)
    requires NoDuplicates(names)
    ensures Run(release, names, store, oracles).ok <==> FirstFailing(release, names, store, oracles) == |names|
    decreases |names|
  {
    if names != [] {
      RunFirst(release, names, store, oracles);
      var head := Handle(release, names[0], store, oracles);
      if head.ok {
        RunEndsAtFailing(release, names[1..], head.store, oracles);
      }
    }
  }

  // ----- What a run stores

  /**
   The version that a run without error stores for a name: the one its own
   definition asks for if the object is missing or already there, else the one of
   the definition that the stored object refers to, if there is one.
   */
  ghost function VersionStored(release: Release, store: Store, name: string): Option<string> {
    var own := FindDef(release, name);
    if own.None? then None
    else if name !in store || store[name].version == own.value.version then Some(own.value.version)
    else
      var other := FindDef(release, store[name].addonName);
      if other.None? then None else Some(other.value.version)
  }

  /** The addon is stored with the version its definition asks for. */
  ghost predicate AtTarget(release: Release, store: Store, name: string) {
    FindDef(release, name).Some? ==> name in store && store[name].version == FindDef(release, name).value.version
  }

  /** A run stores for the name the version its own definition asks for. */
  ghost predicate Agrees(release: Release, store: Store, name: string) {
    FindDef(release, name).Some? ==> VersionStored(release, store, name) == Some(FindDef(release, name).value.version)
  }

  ghost predicate TargetsAgree(release: Release, store: Store) {
    forall name :: name in store ==> Agrees(release, store, name)
  }

  /** The addon is stored, at its target or at the version of the definition it refers to. */
  ghost predicate Settled(release: Release, store: Store, name: string) {
    FindDef(release, name).Some? ==>
      && name in store
      && (store[name].version == FindDef(release, name).value.version
          || (FindDef(release, store[name].addonName).Some?
              && store[name].version == FindDef(release, store[name].addonName).value.version))
  }

  ghost predicate Stored(release: Release, store: Store, after: Store, name: string) {
    FindDef(release, name).Some? ==>
      && name in after
      && Some(after[name].version) == VersionStored(release, store, name)
      && Settled(release, after, name)
  }

  /** Handling a name touches no other record, stores the version above, and nothing new once that is settled. */
  lemma HandleEffect(release: Release, name: string, store: Store, oracles: Oracles)
    ensures var r := Handle(release, name, store, oracles);
      && Unchanged(store, r.store, name)
      && (r.ok ==> Stored(release, store, r.store, name))
      && (Settled(release, store, name) ==> r.store == store)
      && (forall k :: 0 <= k < |r.calls| ==> r.calls[k].name == name && Unchanged(store, r.calls[k].at, name))
      && |r.calls| <= 1
  {
  }

  /** The two stores agree everywhere but at `name`. */
  ghost predicate Unchanged(a: Store, b: Store, name: string) {
    forall n :: n != name ==> (n in a <==> n in b) && (n in a ==> a[n] == b[n])
  }

  /** A run leaves the records of names it does not handle alone. */
  lemma {:induction false} RunFrame(release: Release, names: seq<string>, store: Store, oracles: Oracles, n: string)
    requires n !in names
    ensures var r := Run(release, names, store, oracles);
      (n in r.store <==> n in store) && (n in store ==> r.store[n] == store[n])
    decreases |names|
  {
    if names != [] {
      HandleEffect(release, names[0], store, oracles);
      var head := Handle(release, names[0], store, oracles);
      if head.ok {
        RunFrame(release, names[1..], head.store, oracles, n);
      }
    }
  }

  /** A run without error stores `VersionStored`; the target is reached exactly when the record agreed before. */
  lemma {:induction false} RunReaches(release: Release, names: seq<string>, store: Store, oracles: Oracles, n: string)
    requires NoDuplicates(names) && n in names && Run(release, names, store, oracles).ok
    ensures Stored(release, store, Run(release, names, store, oracles).store, n)
    ensures AtTarget(release, Run(release, names, store, oracles).store, n) <==> Agrees(release, store, n)
    decreases |names|
  {
    var first := names[0];
    HandleEffect(release, first, store, oracles);
    var head := Handle(release, first, store, oracles);
    if n == first {
      assert n !in names[1..];
      RunFrame(release, names[1..], head.store, oracles, n);
    } else {
      RunReaches(release, names[1..], head.store, oracles, n);
    }
  }

  /** Whatever the remote results, a run over settled records writes nothing new. */
  lemma {:induction false} RunOverSettled(release: Release, names: seq<string>, store: Store, oracles: Oracles)
    requires forall n :: n in names ==> Settled(release, store, n)
    ensures Run(release, names, store, oracles).store == store
    decreases |names|
  {
    if names != [] {
      HandleEffect(release, names[0], store, oracles);
      if Handle(release, names[0], store, oracles).ok {
        RunOverSettled(release, names[1..], store, oracles);
      }
    }
  }

  /** What is known in the middle of a run that began with `store`, when the first i names are handled. */
  ghost predicate Midway(release: Release, names: seq<string>, i: nat, store: Store, now: Store)
    requires i <= |names|
  {
    && (forall n :: n in names[..i] ==> (AtTarget(release, now, n) <==> Agrees(release, store, n)))
    && (forall n :: n in names[i..] ==> (n in now <==> n in store) && (n in store ==> now[n] == store[n]))
  }

  lemma MidwayKept(release: Release, names: seq<string>, i: nat, store: Store, now: Store, next: Store)
    requires NoDuplicates(names) && i < |names| && Midway(release, names, i, store, now)
    requires Unchanged(now, next, names[i]) && Stored(release, now, next, names[i])
    ensures Midway(release, names, i + 1, store, next)
  {
    assert names[..i + 1] == names[..i] + [names[i]];
    assert names[i..] == [names[i]] + names[i + 1..];
    assert names[i] !in names[..i] && names[i] !in names[i + 1..];
  }

  /** What is known midway stays known while the next name is handled. */
  lemma MidwayAtCall(release: Release, names: seq<string>, i: nat, store: Store, now: Store, at: Store)
    requires NoDuplicates(names) && i < |names| && Midway(release, names, i, store, now) && Unchanged(now, at, names[i])
    ensures forall n :: n in names[..i] ==> (AtTarget(release, at, n) <==> Agrees(release, store, n))
  {
    assert names[i] !in names[..i];
  }

  lemma RunFrom(release: Release, names: seq<string>, i: nat, store: Store, oracles: Oracles)
    requires i < |names|
    ensures var head := Handle(release, names[i], store, oracles);
      Run(release, names[i..], store, oracles) ==
        if head.ok then Join(head, Run(release, names[i + 1..], head.store, oracles)) else head
  {
    assert names[i..][1..] == names[i + 1..];
  }

  /** At each call an addon handled before is at its target exactly when its record agreed at the start of the run. */
  lemma {:induction false} CallsSeeHandledNames(release: Release, names: seq<string>, i: nat, store: Store, now: Store,
                                                oracles: Oracles, k: nat)
      returns (j: nat)
    requires NoDuplicates(names) && i <= |names| && Midway(release, names, i, store, now)
    requires k < |Run(release, names[i..], now, oracles).calls|
    ensures i <= j < |names|
    ensures var call := Run(release, names[i..], now, oracles).calls[k];
      && names[j] == call.name
      && forall n :: n in names[..j] ==> (AtTarget(release, call.at, n) <==> Agrees(release, store, n))
    decreases |names| - i
  {
    var name := names[i];
    var head := Handle(release, name, now, oracles);
    RunFrom(release, names, i, now, oracles);
    HandleEffect(release, name, now, oracles);
    if k < |head.calls| {
      j := i;
      MidwayAtCall(release, names, i, store, now, head.calls[k].at);
    } else {
      MidwayKept(release, names, i, store, now, head.store);
      j := CallsSeeHandledNames(release, names, i + 1, store, head.store, oracles, k - |head.calls|);
    }
  }

  // ----- Main results

  /** The whole upgrade of a release, for one iteration order of the addon graph. */
  ghost function Upgrades(release: Release, order: seq<string>, store: Store, oracles: Oracles): Result
    requires Enumerates(order, AddonGraph(release))
  {
    Run(release, Sorted(AddonGraph(release), order), store, oracles)
  }

  /** The place of a call in the sorted list, and what holds of the names before it. */
  lemma CallPlace(release: Release, order: seq<string>, store: Store, oracles: Oracles, k: nat) returns (j: nat)
    requires Enumerates(order, AddonGraph(release)) && k < |Upgrades(release, order, store, oracles).calls|
    ensures var sorted, call := Sorted(AddonGraph(release), order), Upgrades(release, order, store, oracles).calls[k];
      && j < |sorted| && sorted[j] == call.name
      && forall n :: n in sorted[..j] ==> (AtTarget(release, call.at, n) <==> Agrees(release, store, n))
  {
    var sorted := Sorted(AddonGraph(release), order);
    SortedIsCorrect(AddonGraph(release), order);
    assert sorted[0..] == sorted;
    j := CallsSeeHandledNames(release, sorted, 0, store, store, oracles, k);
  }

  /**
   With acyclic dependencies, at every Upgrade call a direct or transitive
   dependency is at its target exactly when its record agreed when the run began.
   */
  lemma DependenciesUpgradedFirst(release: Release, order: seq<string>, store: Store, oracles: Oracles, k: nat,
                                  walk: seq<string>)
    requires Enumerates(order, AddonGraph(release)) && Acyclic(AddonGraph(release))
    requires k < |Upgrades(release, order, store, oracles).calls|
    requires IsWalk(AddonGraph(release), walk) && |walk| > 1
    requires walk[0] == Upgrades(release, order, store, oracles).calls[k].name
    ensures var d := walk[|walk| - 1];
      AtTarget(release, Upgrades(release, order, store, oracles).calls[k].at, d) <==> Agrees(release, store, d)
  {
    var g := AddonGraph(release);
    AcyclicSortedHasDependenciesFirst(g, order);
    var j := CallPlace(release, order, store, oracles, k);
    TransitiveDependenciesFirst(g, Sorted(g, order), j, walk);
  }

  /** The same on any graph, cycles included, for a direct dependency that does not itself need the caller. */
  lemma DependenciesUpgradedFirstUpToCycles(release: Release, order: seq<string>, store: Store, oracles: Oracles,
                                            k: nat, d: string)
    requires Enumerates(order, AddonGraph(release))
    requires k < |Upgrades(release, order, store, oracles).calls|
    requires d in Deps(AddonGraph(release), Upgrades(release, order, store, oracles).calls[k].name)
    ensures var call := Upgrades(release, order, store, oracles).calls[k];
      || Reaches(AddonGraph(release), d, call.name)
      || (AtTarget(release, call.at, d) <==> Agrees(release, store, d))
  {
    var g := AddonGraph(release);
    SortedIsCorrect(g, order);
    var j := CallPlace(release, order, store, oracles, k);
    assert d in Deps(g, Sorted(g, order)[j]);
  }

  /** Every remote result counts: the upgrade reports no error exactly when every addon passes on its own. */
  lemma SucceedsExactlyWhenAllPass(release: Release, order: seq<string>, store: Store, oracles: Oracles)
    requires Enumerates(order, AddonGraph(release))
    ensures Upgrades(release, order, store, oracles).ok <==> forall n :: Passes(release, store, oracles, n)
  {
    var g := AddonGraph(release);
    var sorted := Sorted(g, order);
    SortedIsCorrect(g, order);
    RunEndsAtFailing(release, sorted, store, oracles);
    forall n | FindDef(release, n).Some?
      ensures n in sorted
    {
      ReachesSelf(g, n);
    }
    if Upgrades(release, order, store, oracles).ok {
      forall n | FindDef(release, n).Some?
        ensures Passes(release, store, oracles, n)
      {
        var i :| 0 <= i < |sorted| && sorted[i] == n;
      }
    }
  }

  /** Whether it fails or not, a run leaves each record as it was or as the handling of its own name leaves it. */
  lemma EveryRunLeaves(release: Release, order: seq<string>, store: Store, oracles: Oracles, n: string)
    requires Enumerates(order, AddonGraph(release))
    ensures var after := Upgrades(release, order, store, oracles).store;
      Same(store, after, n) || Leaves(release, store, oracles, n, after)
  {
    var sorted := Sorted(AddonGraph(release), order);
    SortedIsCorrect(AddonGraph(release), order);
    if n in sorted {
      var i :| 0 <= i < |sorted| && sorted[i] == n;
      RunLeaves(release, sorted, store, oracles, i);
    } else {
      RunFrame(release, sorted, store, oracles, n);
    }
  }

  /** A run without error calls Upgrade exactly for the addons that are missing or not at their target. */
  lemma SuccessCallsExactly(release: Release, order: seq<string>, store: Store, oracles: Oracles, n: string)
    requires Enumerates(order, AddonGraph(release)) && Upgrades(release, order, store, oracles).ok
    ensures IsCalled(Upgrades(release, order, store, oracles).calls, n) <==>
      FindDef(release, n).Some? && Found(store, n).version != FindDef(release, n).value.version
  {
    var g := AddonGraph(release);
    var sorted := Sorted(g, order);
    SortedIsCorrect(g, order);
    RunEndsAtFailing(release, sorted, store, oracles);
    if n in sorted {
      var i :| 0 <= i < |sorted| && sorted[i] == n;
      RunCalls(release, sorted, store, oracles, i);
    } else {
      CalledIsListed(release, sorted, store, oracles, n);
    }
    if n in g {
      ReachesSelf(g, n);
    }
  }

  /**
   A failed run has one addon to blame. It keeps its version, or has none if it was
   just created; if it needed an upgrade it still does, so the next check finds it.
   */
  lemma FailedAddonStaysNeeded(release: Release, order: seq<string>, store: Store, oracles: Oracles) returns (n: string)
    requires Enumerates(order, AddonGraph(release)) && !Upgrades(release, order, store, oracles).ok
    ensures !Passes(release, store, oracles, n) && FindDef(release, n).Some?
    ensures var after := Upgrades(release, order, store, oracles).store;
      && (n in store ==> n in after && after[n] == store[n])
      && (n in after && n !in store ==> after[n] == Record(n, ""))
      && (DefNeeded(FindDef(release, n).value, store, {}) ==> Needed(release, after, {}))
  {
    var sorted := Sorted(AddonGraph(release), order);
    SortedIsCorrect(AddonGraph(release), order);
    RunEndsAtFailing(release, sorted, store, oracles);
    var f := FirstFailing(release, sorted, store, oracles);
    RunLeaves(release, sorted, store, oracles, f);
    n := sorted[f];
    var def := FindDef(release, n).value;
    var i :| 0 <= i < |release| && release[i] == def;
    var after := Upgrades(release, order, store, oracles).store;
    assert DefNeeded(def, store, {}) ==> DefNeeded(release[i], after, {});
  }

  /** After a result without error every defined addon is stored with the version foretold from the store before. */
  lemma SuccessStores(release: Release, order: seq<string>, store: Store, oracles: Oracles)
    requires Enumerates(order, AddonGraph(release)) && Upgrades(release, order, store, oracles).ok
    ensures forall n :: Stored(release, store, Upgrades(release, order, store, oracles).store, n)
  {
    var g := AddonGraph(release);
    SortedIsCorrect(g, order);
    forall n | n in g
      ensures Stored(release, store, Upgrades(release, order, store, oracles).store, n)
    {
      ReachesSelf(g, n);
      RunReaches(release, Sorted(g, order), store, oracles, n);
    }
  }

  /** A result without error leaves every defined addon at its target exactly when the stored records agree. */
  lemma SuccessReachesTarget(release: Release, order: seq<string>, store: Store, oracles: Oracles)
    requires Enumerates(order, AddonGraph(release))
    requires Upgrades(release, order, store, oracles).ok
    ensures (forall n :: AtTarget(release, Upgrades(release, order, store, oracles).store, n)) <==>
            TargetsAgree(release, store)
  {
    SuccessStores(release, order, store, oracles);
    var after := Upgrades(release, order, store, oracles).store;
    forall n
      ensures AtTarget(release, after, n) <==> Agrees(release, store, n)
    {
      assert Stored(release, store, after, n);
    }
  }

  /** After a result without error no further run of the release changes the store, whether it fails or not. */
  lemma FurtherRunsChangeNothing(release: Release, order: seq<string>, store: Store, oracles: Oracles,
                                 order': seq<string>, oracles': Oracles)
    requires Enumerates(order, AddonGraph(release)) && Enumerates(order', AddonGraph(release))
    requires Upgrades(release, order, store, oracles).ok
    ensures var after := Upgrades(release, order, store, oracles).store;
      Upgrades(release, order', after, oracles').store == after
  {
    SuccessStores(release, order, store, oracles);
    var after := Upgrades(release, order, store, oracles).store;
    forall n
      ensures Settled(release, after, n)
    {
      assert Stored(release, store, after, n);
    }
    RunOverSettled(release, Sorted(AddonGraph(release), order'), after, oracles');
  }

  /**
   Nothing in the store or in the two releases stands in the way of the addon: it
   is at its target, or the definition its object refers to exists and, if that
   asks for a backup, is also defined in the current release.
   */
  ghost predicate Upgradable(release: Release, current: Release, store: Store, name: string) {
    var def := FindDef(release, name);
    var rec := if name in store then store[name] else Record(name, "");
    def.Some? && rec.version != def.value.version ==>
      var target := FindDef(release, rec.addonName);
      target.Some? && (target.value.backup ==> FindDef(current, rec.addonName).Some?)
  }

  lemma PassingIsUpgradable(release: Release, store: Store, oracles: Oracles, name: string)
    ensures Passes(release, store, oracles, name) ==> Upgradable(release, oracles.current, store, name)
    ensures oracles.results == map[] && Upgradable(release, oracles.current, store, name) ==>
      Passes(release, store, oracles, name)
  {
    assert oracles.results == map[] ==> OracleFor(oracles, name) == ALL_WELL;
  }

  /**
   Some remote results let a run succeed exactly when every addon is upgradable.
   In particular an addon that is new in the release, with a version and a backup,
   makes every run fail: there is no current definition to back up.
   */
  lemma SomeRunSucceedsExactly(release: Release, order: seq<string>, current: Release, store: Store)
    requires Enumerates(order, AddonGraph(release))
    ensures (exists oracles: Oracles :: oracles.current == current && Upgrades(release, order, store, oracles).ok) <==>
            forall n :: Upgradable(release, current, store, n)
  {
    forall oracles: Oracles, n
      ensures Passes(release, store, oracles, n) ==> Upgradable(release, oracles.current, store, n)
    {
      PassingIsUpgradable(release, store, oracles, n);
    }
    if oracles: Oracles :| oracles.current == current && Upgrades(release, order, store, oracles).ok {
      SucceedsExactlyWhenAllPass(release, order, store, oracles);
    }
    if forall n :: Upgradable(release, current, store, n) {
      var best := Oracles(current, map[]);
      forall n
        ensures Passes(release, store, best, n)
      {
        PassingIsUpgradable(release, store, best, n);
      }
      SucceedsExactlyWhenAllPass(release, order, store, best);
    }
  }

  /** Some defined addon is missing or at another version; addons that cannot be read are passed over. */
  ghost predicate Needed(release: Release, store: Store, unreadable: set<string>) {
    exists i :: 0 <= i < |release| && DefNeeded(release[i], store, unreadable)
  }

  ghost predicate DefNeeded(def: AddonDef, store: Store, unreadable: set<string>) {
    def.version != "" && def.name !in unreadable && (def.name !in store || store[def.name].version != def.version)
  }

  method NeedsAddonUpgrade(release: Release, store: Store, unreadable: set<string>) returns (needed: bool)
    ensures needed <==> Needed(release, store, unreadable)
    ensures needed <==>
      exists d ::
        && d in release && d.version != "" && d.name !in unreadable
        && (d.name in store ==> store[d.name].version != d.version)
  {
    for i := 0 to |release|
      invariant forall j :: 0 <= j < i ==> !DefNeeded(release[j], store, unreadable)
    {
      var def := release[i];
      if def.version == "" { continue; }
      if def.name in unreadable { continue; }
      assert def in release;
      if def.name !in store { return true; }
      if store[def.name].version != def.version { return true; }
    }
    return false;
  }

  /** Read errors can only make the check miss a needed upgrade. */
  lemma UnreadableHidesNeeds(release: Release, store: Store, unreadable: set<string>)
    ensures Needed(release, store, unreadable) ==> Needed(release, store, {})
  {
  }

  /** Two definitions of one name that ask for different versions. */
  ghost predicate Conflicting(release: Release, i: int) {
    0 <= i < |release| && release[i].version != "" && FindDef(release, release[i].name).Some?
      && FindDef(release, release[i].name).value.version != release[i].version
  }

  /**
   Once all addons are at their target an upgrade is still reported as needed
   exactly when the release defines some name twice with different versions.
   */
  lemma NothingNeededAtTarget(release: Release, store: Store)
    requires forall n :: AtTarget(release, store, n)
    ensures Needed(release, store, {}) <==> exists i :: Conflicting(release, i)
  {
    forall i | 0 <= i < |release|
      ensures DefNeeded(release[i], store, {}) <==> Conflicting(release, i)
    {
      assert release[i] in release;
      assert AtTarget(release, store, release[i].name);
    }
    if Needed(release, store, {}) {
      var i :| 0 <= i < |release| && DefNeeded(release[i], store, {});
      assert Conflicting(release, i);
    }
    if i :| Conflicting(release, i) {
      assert DefNeeded(release[i], store, {});
    }
  }

  /** Some definition asks for a version that a run on this store will not leave behind. */
  ghost predicate Unsettled(release: Release, store: Store) {
    exists i :: 0 <= i < |release| && Missed(release, store, release[i])
  }

  ghost predicate Missed(release: Release, store: Store, def: AddonDef) {
    def.version != "" && VersionStored(release, store, def.name) != Some(def.version)
  }

  /** After a result without error an upgrade is still reported as needed exactly when the store was unsettled. */
  lemma NeededAfterSuccess(release: Release, order: seq<string>, store: Store, oracles: Oracles)
    requires Enumerates(order, AddonGraph(release)) && Upgrades(release, order, store, oracles).ok
    ensures Needed(release, Upgrades(release, order, store, oracles).store, {}) <==> Unsettled(release, store)
  {
    SuccessStores(release, order, store, oracles);
    var after := Upgrades(release, order, store, oracles).store;
    forall i | 0 <= i < |release|
      ensures DefNeeded(release[i], after, {}) <==> Missed(release, store, release[i])
    {
      assert release[i] in release;
      assert Stored(release, store, after, release[i].name);
    }
  }

  /** With agreeing records only conflicting definitions leave a release unsettled. */
  lemma UnsettledByConflict(release: Release, store: Store)
    requires TargetsAgree(release, store)
    ensures Unsettled(release, store) <==> exists i :: Conflicting(release, i)
  {
    forall i | 0 <= i < |release|
      ensures Missed(release, store, release[i]) <==> Conflicting(release, i)
    {
      assert release[i] in release;
      assert Agrees(release, store, release[i].name);
    }
    if Unsettled(release, store) {
      var i :| 0 <= i < |release| && Missed(release, store, release[i]);
      assert Conflicting(release, i);
    }
    if i :| Conflicting(release, i) {
      assert Missed(release, store, release[i]);
    }
  }
}
