/**
 The ClusterVersion reconcile as a state machine over whole runs. One reconcile
 reads its spec, the upgrade path, the release image, the nodes and the stored
 addons from its environment; the upgrade graph and the addon upgrades report
 their results; the final status patch may be lost. Everything in the
 environment may differ from one reconcile to the next.
 */
module ClusterVersion {
  import opened Wrappers
  import opened UpgradePath
  import Graphs = DependencyGraph
  import Addons = AddonUpgrades

  datatype Entry = Entry(completed: bool, version: string)

  /** The status of the object: the version reached and the history, newest first. */
  datatype Status = Status(actual: string, history: seq<Entry>)

  /**
   `synced` says that the upgrade path and the catalog could be synchronised,
   `release` is the fetched release image, `graphOk` the result of the upgrade
   graph, `order` the iteration order of the addon graph and `patched` whether
   the status patch at the end of the reconcile is stored.
   */
  datatype Env = Env(deleted: bool, paused: bool, synced: bool, desired: Option<Update>,
                     release: Option<Addons.Release>, path: Option<Path>, nodesReady: bool, graphOk: bool,
                     addons: Addons.Store, unreadable: set<string>, order: seq<string>, oracles: Addons.Oracles,
                     patched: bool)

  ghost predicate ValidEnv(env: Env) {
    env.release.Some? ==> Graphs.Enumerates(env.order, Addons.AddonGraph(env.release.value))
  }

  /** An unfinished entry of the same version on top is reused. */
  function PrependHistory(history: seq<Entry>, entry: Entry): seq<Entry> {
    if |history| > 0 && history[0].version == entry.version && !history[0].completed then history
    else [entry] + history
  }

  // ----- One reconcile

  ghost predicate NeedsK8SUpgrade(s: Status, env: Env)
    requires env.desired.Some?
  {
    s.actual != env.desired.value.version
  }

  /** The reconcile gets as far as recording an upgrade in the history. */
  ghost predicate Begins(s: Status, env: Env) {
    && !env.deleted && !env.paused && env.synced && env.desired.Some? && env.release.Some?
    && (NeedsK8SUpgrade(s, env) || Addons.Needed(env.release.value, env.addons, env.unreadable))
    && (NeedsK8SUpgrade(s, env) ==> Accepts(env.path, s.actual, env.desired) && env.nodesReady)
  }

  /** The addon phase of a reconcile that begins, when it is reached. */
  ghost function AddonPhase(s: Status, env: Env): Addons.Result
    requires ValidEnv(env) && env.desired.Some? && env.release.Some?
  {
    if NeedsK8SUpgrade(s, env) && !env.graphOk then Addons.Result(false, env.addons, [])
    else Addons.Upgrades(env.release.value, env.order, env.addons, env.oracles)
  }

  ghost predicate Succeeds(s: Status, env: Env)
    requires ValidEnv(env)
  {
    Begins(s, env) && AddonPhase(s, env).ok
  }

  /** The status that the reconcile computes in memory. */
  ghost function Computed(s: Status, env: Env): Status
    requires ValidEnv(env)
  {
    if !Begins(s, env) then s
    else
      var version := env.desired.value.version;
      var history := PrependHistory(s.history, Entry(false, version));
      if Succeeds(s, env) then Status(version, history[0 := history[0].(completed := true)])
      else s.(history := history)
  }

  ghost function StatusAfter(s: Status, env: Env): Status
    requires ValidEnv(env)
  {
    if env.patched then Computed(s, env) else s
  }

  ghost function AddonsAfter(s: Status, env: Env): Addons.Store
    requires ValidEnv(env)
  {
    if Begins(s, env) then AddonPhase(s, env).store else env.addons
  }

  /** The stored object and the controller's Reconcile on it. */
  class Controller {
    var actual: string
    var history: seq<Entry>
    var addons: Addons.Store

    ghost function Stored(): Status reads this {
      Status(actual, history)
    }

    method Reconcile(env: Env)
      requires ValidEnv(env) && env.addons == addons
      modifies this
      ensures Stored() == StatusAfter(old(Stored()), env)
      ensures addons == AddonsAfter(old(Stored()), env)
      ensures Hindered(old(actual), old(addons), env) ==> Stored() == old(Stored()) && addons == old(addons)
      ensures env.desired.Some? && old(actual) != env.desired.value.version && !env.graphOk ==>
        actual == old(actual) && addons == old(addons) && Trail(history) == Trail(old(history))
      ensures !Hindered(old(actual), old(addons), env) && env.patched ==>
        history != [] && history[0] == Entry(Finishes(old(actual), old(addons), env), env.desired.value.version)
      ensures if Finishes(old(actual), old(addons), env) && env.patched
        then actual == env.desired.value.version && Trail(history) == [actual] + Trail(old(history))
        else actual == old(actual) && Trail(history) == Trail(old(history))
    {
      OutcomeExactly(Stored(), env);
      if env.deleted { return; }
      if env.paused { return; }
      if !env.synced { return; }
      if env.desired.None? { return; }
      var version := env.desired.value.version;
      var needsK8S := actual != version;
      if env.release.None? { return; }
      var release := env.release.value;
      var needsAddons := Addons.NeedsAddonUpgrade(release, addons, env.unreadable);
      if !needsK8S && !needsAddons { return; }
      if needsK8S {
        var accepted := ValidateUpgradePath(env.path, actual, env.desired);
        if !accepted { return; }
        if !env.nodesReady { return; }
      }
      assert Begins(old(Stored()), env);

      var status := Status(actual, PrependHistory(history, Entry(false, version)));
      var result := Addons.Result(false, addons, []);
      if !needsK8S || env.graphOk {
        result := Addons.ExecuteAddonUpgrades(release, env.order, addons, env.oracles);
      }
      addons := result.store;
      if result.ok {
        status := Status(version, status.history[0 := status.history[0].(completed := true)]);
      }
      if env.patched {
        actual, history := status.actual, status.history;
      }
    }
  }

  /** The reconcile stops before it records an upgrade, for one of the reasons the environment can give. */
  ghost predicate Hindered(actual: string, addons: Addons.Store, env: Env) {
    || env.deleted || env.paused || !env.synced || env.desired.None? || env.release.None?
    || (actual != env.desired.value.version && (!Accepts(env.path, actual, env.desired) || !env.nodesReady))
    || (actual == env.desired.value.version && !Addons.Needed(env.release.value, addons, env.unreadable))
  }

  /** Nothing hinders the reconcile, the upgrade graph succeeds if the version changes, and every addon passes. */
  ghost predicate Finishes(actual: string, addons: Addons.Store, env: Env) {
    && !Hindered(actual, addons, env)
    && (actual != env.desired.value.version ==> env.graphOk)
    && forall n :: Addons.Passes(env.release.value, addons, env.oracles, n)
  }

  /** What a reconcile comes to, told from the environment: when it moves nothing and when it completes. */
  lemma OutcomeExactly(s: Status, env: Env)
    requires ValidEnv(env)
    ensures Hindered(s.actual, env.addons, env) ==> StatusAfter(s, env) == s && AddonsAfter(s, env) == env.addons
    ensures env.desired.Some? && s.actual != env.desired.value.version && !env.graphOk ==>
      && AddonsAfter(s, env) == env.addons
      && StatusAfter(s, env).actual == s.actual && Trail(StatusAfter(s, env).history) == Trail(s.history)
    ensures !Hindered(s.actual, env.addons, env) && env.patched ==>
      var history := StatusAfter(s, env).history;
      && history != [] && history[0] == Entry(Finishes(s.actual, env.addons, env), env.desired.value.version)
      && history[1..] == if s.history != [] && s.history[0] == Entry(false, env.desired.value.version)
           then s.history[1..] else s.history
    ensures !env.patched ==> StatusAfter(s, env) == s
    ensures Completes(s, env) <==> Finishes(s.actual, env.addons, env) && env.patched
    ensures if Completes(s, env)
      then
        && StatusAfter(s, env).actual == env.desired.value.version
        && Trail(StatusAfter(s, env).history) == [env.desired.value.version] + Trail(s.history)
      else StatusAfter(s, env).actual == s.actual && Trail(StatusAfter(s, env).history) == Trail(s.history)
  {
    if env.desired.Some? {
      CompletedTrail(s.history, env.desired.value.version);
    }
    if env.release.Some? {
      Addons.SucceedsExactlyWhenAllPass(env.release.value, env.order, env.addons, env.oracles);
    }
  }

  ghost predicate IsRun(states: seq<Status>, envs: seq<Env>) {
    && |states| == |envs| + 1
    && forall k :: 0 <= k < |envs| ==> ValidEnv(envs[k]) && states[k + 1] == StatusAfter(states[k], envs[k])
  }

  // ----- Moves between versions

  /** The version changes only by a move that was validated in that very reconcile. */
  lemma MoveIsValidated(s: Status, env: Env)
    requires ValidEnv(env) && StatusAfter(s, env).actual != s.actual
    ensures env.desired.Some? && StatusAfter(s, env).actual == env.desired.value.version
    ensures Accepts(env.path, s.actual, env.desired)
    ensures env.desired.value.version != "" ==>
      env.path.Some? && Allows(env.path.value, s.actual, env.desired.value.version, env.desired.value.force)
  {
  }

  /** The completed versions of a history, newest first. */
  ghost function Trail(history: seq<Entry>): seq<string> {
    if history == [] then []
    else (if history[0].completed then [history[0].version] else []) + Trail(history[1..])
  }

  /** All versions the cluster has been at, newest first, back to the one it started from. */
  ghost function Versions(s: Status, start: string): seq<string> {
    Trail(s.history) + [start]
  }

  /** The path of that reconcile allows the move: no block, and a recommended edge unless it is forced. */
  ghost predicate LegalMove(env: Env, from: string, to: string) {
    env.desired.Some? && (from == to || (env.path.Some? && Allows(env.path.value, from, to, env.desired.value.force)))
  }

  lemma CompletedTrail(history: seq<Entry>, version: string)
    ensures var h := PrependHistory(history, Entry(false, version));
      && Trail(h) == Trail(history)
      && Trail(h[0 := h[0].(completed := true)]) == [version] + Trail(history)
  {
  }

  /** The reconcile completes an upgrade and stores that. */
  ghost predicate Completes(s: Status, env: Env)
    requires ValidEnv(env)
  {
    Succeeds(s, env) && env.patched
  }

  lemma StepTrail(s: Status, env: Env, start: string)
    requires ValidEnv(env)
    ensures var t := StatusAfter(s, env);
      if Completes(s, env) then
        Versions(t, start) == [env.desired.value.version] + Versions(s, start) && t.actual == env.desired.value.version
      else Versions(t, start) == Versions(s, start) && t.actual == s.actual
  {
    if Begins(s, env) {
      CompletedTrail(s.history, env.desired.value.version);
    }
  }

  /** For each reconcile of a run the version it completes, if any. */
  ghost function Completions(states: seq<Status>, envs: seq<Env>): (r: seq<Option<string>>)
    requires IsRun(states, envs)
    ensures |r| == |envs|
  {
    seq(|envs|, k requires 0 <= k < |envs| =>
      if Completes(states[k], envs[k]) then Some(envs[k].desired.value.version) else None)
  }

  ghost function AllVersions(states: seq<Status>, start: string): (r: seq<seq<string>>)
    ensures |r| == |states|
  {
    seq(|states|, k requires 0 <= k < |states| => Versions(states[k], start))
  }

  /** How many of the first k completions there are. */
  ghost function Count(completions: seq<Option<string>>, k: nat): nat
    requires k <= |completions|
  {
    if k == 0 then 0 else Count(completions, k - 1) + if completions[k - 1].Some? then 1 else 0
  }

  /** Each completion puts its version on top of the list and nothing else changes it. */
  ghost predicate Grows(versions: seq<seq<string>>, completions: seq<Option<string>>) {
    && |versions| == |completions| + 1
    && versions[0] != []
    && forall k, n :: 0 <= k < |completions| && n == k + 1 ==>
         versions[n] == (if completions[k].Some? then [completions[k].value] else []) + versions[k]
  }

  /** The i-th newest version is the i-th latest completion, and the one below it was on top before that. */
  lemma {:induction false} PairSource(versions: seq<seq<string>>, completions: seq<Option<string>>, k: nat, i: nat)
      returns (j: nat)
    requires Grows(versions, completions) && k < |versions| && i < Count(completions, k)
    ensures j < k && Count(completions, j) + i + 1 == Count(completions, k)
    ensures i + 1 < |versions[k]| && versions[j] != []
    ensures completions[j] == Some(versions[k][i]) && versions[j][0] == versions[k][i + 1]
    decreases k
  {
    var done := completions[k - 1].Some?;
    if done && i == 0 {
      j := k - 1;
      GrowthIsCounted(versions, completions, j);
    } else {
      j := PairSource(versions, completions, k - 1, if done then i - 1 else i);
    }
  }

  lemma {:induction false} GrowthIsCounted(versions: seq<seq<string>>, completions: seq<Option<string>>, k: nat)
    requires Grows(versions, completions) && k < |versions|
    ensures |versions[k]| == |versions[0]| + Count(completions, k)
    decreases k
  {
    if k > 0 {
      GrowthIsCounted(versions, completions, k - 1);
    }
  }

  lemma RunGrows(states: seq<Status>, envs: seq<Env>, start: string)
    requires IsRun(states, envs)
    ensures Grows(AllVersions(states, start), Completions(states, envs))
  {
    forall k, n | 0 <= k < |envs| && n == k + 1
      ensures Versions(states[n], start) ==
        (if Completes(states[k], envs[k]) then [envs[k].desired.value.version] else []) + Versions(states[k], start)
    {
      StepTrail(states[k], envs[k], start);
    }
  }

  /** Over every run, whatever its targets and paths, the newest completed version is the actual one. */
  lemma {:induction false} NewestIsActual(states: seq<Status>, envs: seq<Env>, start: string, k: nat)
    requires IsRun(states, envs) && k < |states|
    requires Versions(states[0], start)[0] == states[0].actual
    ensures Versions(states[k], start)[0] == states[k].actual
    decreases k
  {
    if k > 0 {
      NewestIsActual(states, envs, start, k - 1);
      assert states[k] == states[k - 1 + 1];
      StepTrail(states[k - 1], envs[k - 1], start);
    }
  }

  /** The number of upgrades that the first k reconciles complete. */
  ghost function Completed(states: seq<Status>, envs: seq<Env>, k: nat): nat
    requires IsRun(states, envs) && k < |states|
  {
    Count(Completions(states, envs), k)
  }

  /** Reconcile j completes the move of the i-th newest completed version from the one below it. */
  ghost predicate PairFrom(states: seq<Status>, envs: seq<Env>, start: string, k: nat, i: nat, j: nat)
    requires IsRun(states, envs) && k < |states|
  {
    var versions := Versions(states[k], start);
    && i + 1 < |versions|
    && j < k && Completed(states, envs, j) + i + 1 == Completed(states, envs, k)
    && Completes(states[j], envs[j])
    && states[j].actual == versions[i + 1] && envs[j].desired.value.version == versions[i]
  }

  lemma VersionWasCompleted(states: seq<Status>, envs: seq<Env>, start: string, k: nat, i: nat) returns (j: nat)
    requires IsRun(states, envs) && k < |states| && i < Completed(states, envs, k)
    requires Versions(states[0], start)[0] == states[0].actual
    ensures PairFrom(states, envs, start, k, i, j)
  {
    RunGrows(states, envs, start);
    j := PairSource(AllVersions(states, start), Completions(states, envs), k, i);
    NewestIsActual(states, envs, start, j);
  }

  /** A completed upgrade obeys the path exactly when it changes nothing, names a target, or is forced with a path. */
  lemma MoveIsLegalExactly(s: Status, env: Env)
    requires ValidEnv(env) && Completes(s, env)
    ensures LegalMove(env, s.actual, env.desired.value.version) <==> s.actual == "" || !Unchecked(env)
  {
    if env.path.Some? && s.actual != env.desired.value.version {
      UncheckedExactlyWhenEmpty(env.path.value, s.actual, env.desired.value);
    }
  }

  /** The reconcile asks for an empty version, and not by a forced update with a readable path. */
  ghost predicate Unchecked(env: Env) {
    env.desired.Some? && env.desired.value.version == "" && !(env.desired.value.force && env.path.Some?)
  }

  /**
   In every run each two consecutive completed versions are the move of one
   reconcile, and a legal one under the path and the force flag of that reconcile
   exactly when it does not leave a version for an unchecked empty target. A named
   target is always legal: never across a block, unforced only along a
   recommended edge.
   */
  lemma RunsFollowThePath(states: seq<Status>, envs: seq<Env>, start: string, k: nat, i: nat) returns (j: nat)
    requires IsRun(states, envs) && k < |states| && i < Completed(states, envs, k)
    requires Versions(states[0], start)[0] == states[0].actual
    ensures PairFrom(states, envs, start, k, i, j)
    ensures LegalMove(envs[j], Versions(states[k], start)[i + 1], Versions(states[k], start)[i]) <==>
      Versions(states[k], start)[i + 1] == "" || !Unchecked(envs[j])
    ensures Versions(states[k], start)[i] != "" ==>
      LegalMove(envs[j], Versions(states[k], start)[i + 1], Versions(states[k], start)[i])
    ensures !envs[j].deleted && !envs[j].paused && envs[j].synced && envs[j].release.Some?
    ensures Versions(states[k], start)[i] != Versions(states[k], start)[i + 1] ==> envs[j].nodesReady && envs[j].graphOk
    ensures forall n :: Addons.Passes(envs[j].release.value, envs[j].addons, envs[j].oracles, n)
  {
    j := VersionWasCompleted(states, envs, start, k, i);
    MoveIsLegalExactly(states[j], envs[j]);
    OutcomeExactly(states[j], envs[j]);
  }

  // ----- A target that the path forbids

  /** Every other version is blocked from the target. */
  ghost predicate Forbids(path: Path, target: string) {
    forall from :: from != "" && from != target ==> Blocks(path, from, target)
  }

  lemma StarBlockForbids(path: Path, target: string)
    requires target != "" && Block("*", target) in path.blocked
    ensures Forbids(path, target)
  {
    forall from | from != "" && from != target
      ensures Blocks(path, from, target)
    {
      assert MatchVersion("*", from) && MatchVersion(target, target);
    }
  }

  /** A run from `from` that reads this path, if any, and asks only for these updates. */
  ghost predicate RunUnder(path: Path, updates: set<Update>, from: string, states: seq<Status>, envs: seq<Env>) {
    && IsRun(states, envs)
    && states[0] == Status(from, [])
    && forall i :: 0 <= i < |envs| ==>
         && (envs[i].path.Some? ==> envs[i].path.value == path)
         && (envs[i].desired.Some? ==> envs[i].desired.value in updates)
  }

  ghost predicate NamesNothing(updates: set<Update>) {
    Update("", false) in updates || Update("", true) in updates
  }

  lemma {:induction false} ForbiddenNeedsEmpty(path: Path, updates: set<Update>, from: string, target: string,
                                               states: seq<Status>, envs: seq<Env>, k: nat)
    requires Forbids(path, target) && target != "" && from != "" && from != target
    requires RunUnder(path, updates, from, states, envs) && k < |states|
    ensures states[k].actual == "" ==> NamesNothing(updates)
    ensures states[k].actual == target ==> NamesNothing(updates) && Update(target, true) in updates
    decreases k
  {
    if k > 0 {
      ForbiddenNeedsEmpty(path, updates, from, target, states, envs, k - 1);
      var s, env := states[k - 1], envs[k - 1];
      assert states[k] == states[k - 1 + 1];
      if states[k].actual != s.actual {
        MoveIsValidated(s, env);
        if states[k].actual == target && s.actual == "" {
          FirstUpdateNeedsForce(path, env.desired.value);
        }
      }
    }
  }

  /** Two reconciles that go to an empty version and from there to the target. */
  lemma ThroughEmpty(path: Path, from: string, target: string, force: bool)
      returns (states: seq<Status>, envs: seq<Env>)
    requires target != "" && from != ""
    ensures RunUnder(path, {Update("", force), Update(target, true)}, from, states, envs)
    ensures |states| == 3 && states[1].actual == "" && states[2].actual == target
    ensures !force ==> !LegalMove(envs[0], states[0].actual, states[1].actual)
  {
    var oracles := Addons.Oracles([], map[]);
    var first := Some(Update("", force));
    var env := Env(false, false, true, first, Some([]), Some(path), true, true, map[], {}, [], oracles, true);
    envs := [env, env.(desired := Some(Update(target, true)))];
    var s0 := Status(from, []);
    var s1 := StatusAfter(s0, envs[0]);
    assert Begins(s0, envs[0]) && s1.actual == "";
    FirstUpdateNeedsForce(path, Update(target, true));
    var s2 := StatusAfter(s1, envs[1]);
    assert Begins(s1, envs[1]) && s2.actual == target;
    states := [s0, s1, s2];
    MoveIsLegalExactly(s0, envs[0]);
  }

  ghost predicate CanReach(path: Path, updates: set<Update>, from: string, target: string) {
    exists states: seq<Status>, envs: seq<Env> ::
      RunUnder(path, updates, from, states, envs) && states[|states| - 1].actual == target
  }

  /**
   A target that is blocked from every other version is reached all the same,
   exactly when the updates asked for include an empty one and a forced one to it.
   */
  lemma ForbiddenReachedExactly(path: Path, updates: set<Update>, from: string, target: string)
    requires Forbids(path, target) && target != "" && from != "" && from != target
    ensures CanReach(path, updates, from, target) <==> NamesNothing(updates) && Update(target, true) in updates
  {
    if CanReach(path, updates, from, target) {
      var states: seq<Status>, envs: seq<Env> :|
        RunUnder(path, updates, from, states, envs) && states[|states| - 1].actual == target;
      ForbiddenNeedsEmpty(path, updates, from, target, states, envs, |states| - 1);
    }
    if NamesNothing(updates) && Update(target, true) in updates {
      var states, envs := ThroughEmpty(path, from, target, Update("", true) in updates);
      assert RunUnder(path, updates, from, states, envs);
    }
  }

  // ----- The history

  /** No entry sits directly above an unfinished entry of its own version. */
  ghost predicate NoRepeatAbovePartial(history: seq<Entry>) {
    forall i, j :: 0 <= i < j < |history| && j == i + 1 && !history[j].completed ==>
      history[i].version != history[j].version
  }

  lemma PrependKeeps(history: seq<Entry>, version: string)
    requires NoRepeatAbovePartial(history)
    ensures NoRepeatAbovePartial(PrependHistory(history, Entry(false, version)))
  {
    var h := [Entry(false, version)] + history;
    assert forall j :: 0 < j < |h| ==> h[j] == history[j - 1];
  }

  lemma CompleteKeeps(history: seq<Entry>)
    requires history != [] && NoRepeatAbovePartial(history)
    ensures NoRepeatAbovePartial(history[0 := history[0].(completed := true)])
  {
  }

  lemma HistoryKept(s: Status, env: Env)
    requires ValidEnv(env) && NoRepeatAbovePartial(s.history)
    ensures NoRepeatAbovePartial(StatusAfter(s, env).history)
  {
    if Begins(s, env) {
      PrependKeeps(s.history, env.desired.value.version);
      CompleteKeeps(PrependHistory(s.history, Entry(false, env.desired.value.version)));
    }
  }

  lemma {:induction false} RunsKeepHistory(states: seq<Status>, envs: seq<Env>, k: nat)
    requires IsRun(states, envs) && k < |states| && NoRepeatAbovePartial(states[0].history)
    ensures NoRepeatAbovePartial(states[k].history)
    decreases k
  {
    if k > 0 {
      RunsKeepHistory(states, envs, k - 1);
      HistoryKept(states[k - 1], envs[k - 1]);
      assert states[k] == states[k - 1 + 1];
    }
  }

  /** However often an upgrade to one version is retried without success, it adds at most one entry. */
  lemma {:induction false} RetriesAddOneEntry(states: seq<Status>, envs: seq<Env>, version: string, k: nat)
    requires IsRun(states, envs) && k < |states|
    requires forall i :: 0 <= i < |envs| && envs[i].desired.Some? ==> envs[i].desired.value.version == version
    requires forall i :: 0 <= i < |envs| ==> !Succeeds(states[i], envs[i])
    ensures states[k].actual == states[0].actual
    ensures states[k].history == states[0].history
         || states[k].history == PrependHistory(states[0].history, Entry(false, version))
    decreases k
  {
    if k > 0 {
      RetriesAddOneEntry(states, envs, version, k - 1);
      assert states[k] == states[k - 1 + 1];
      assert !Succeeds(states[k - 1], envs[k - 1]);
    }
  }

  // ----- The fixed point

  /** A reconcile of the same target and release, on the addons as they were left. */
  ghost predicate Follows(s: Status, env: Env, again: Env)
    requires ValidEnv(env)
  {
    && ValidEnv(again)
    && again.release == env.release
    && again.addons == AddonsAfter(s, env)
    && env.desired.Some? && again.desired.Some? && again.desired.value.version == env.desired.value.version
  }

  /** Nothing keeps the reconcile from looking at the release and at every addon. */
  ghost predicate Looks(env: Env) {
    !env.deleted && !env.paused && env.synced && env.unreadable == {}
  }

  /** After a completed upgrade a reconcile that looks begins again exactly when the addons were unsettled before. */
  lemma BeginsAgain(s: Status, env: Env, again: Env)
    requires ValidEnv(env) && Completes(s, env) && Follows(s, env, again)
    ensures Begins(StatusAfter(s, env), again) ==> Addons.Unsettled(env.release.value, env.addons)
    ensures Looks(again) && Addons.Unsettled(env.release.value, env.addons) ==> Begins(StatusAfter(s, env), again)
    ensures AddonsAfter(StatusAfter(s, env), again) == again.addons
  {
    var release := env.release.value;
    Addons.NeededAfterSuccess(release, env.order, env.addons, env.oracles);
    Addons.UnreadableHidesNeeds(release, again.addons, again.unreadable);
    Addons.FurtherRunsChangeNothing(release, env.order, env.addons, env.oracles, again.order, again.oracles);
  }

  /**
   A completed upgrade is a fixed point, of every further reconcile of the same
   target and release, exactly when each definition asks for the version that the
   addon phase was bound to store for its name.
   */
  lemma SuccessIsFixedPoint(s: Status, env: Env)
    requires ValidEnv(env) && Completes(s, env)
    ensures (forall again :: Follows(s, env, again) ==> StatusAfter(StatusAfter(s, env), again) == StatusAfter(s, env))
      <==> !Addons.Unsettled(env.release.value, env.addons)
    ensures forall again :: Follows(s, env, again) ==> AddonsAfter(StatusAfter(s, env), again) == again.addons
  {
    var t := StatusAfter(s, env);
    forall again | Follows(s, env, again)
      ensures AddonsAfter(t, again) == again.addons
      ensures !Addons.Unsettled(env.release.value, env.addons) ==> StatusAfter(t, again) == t
    {
      BeginsAgain(s, env, again);
    }
    if Addons.Unsettled(env.release.value, env.addons) {
      var again := env.(addons := AddonsAfter(s, env), unreadable := {});
      BeginsAgain(s, env, again);
      assert Follows(s, env, again) && Begins(t, again);
      assert |StatusAfter(t, again).history| == |t.history| + 1;
    }
  }

  /**
   On an unsettled store a completed upgrade never settles: each later reconcile
   that looks begins again, and each one that completes adds a completed entry to
   the history, though neither the version nor any addon changes.
   */
  lemma NeverSettles(s: Status, env: Env, states: seq<Status>, envs: seq<Env>, k: nat)
    requires ValidEnv(env) && Completes(s, env) && Addons.Unsettled(env.release.value, env.addons)
    requires IsRun(states, envs) && k < |states| && states[0] == StatusAfter(s, env)
    requires forall i :: 0 <= i < |envs| ==> Follows(s, env, envs[i])
    ensures states[k].actual == env.desired.value.version
    ensures |Trail(states[k].history)| == |Trail(states[0].history)| + Completed(states, envs, k)
    ensures k < |envs| ==> AddonsAfter(states[k], envs[k]) == envs[k].addons
    ensures k < |envs| && Looks(envs[k]) ==> Begins(states[k], envs[k])
  {
    StaysAt(states, envs, env.desired.value.version, k);
    RunGrows(states, envs, "");
    GrowthIsCounted(AllVersions(states, ""), Completions(states, envs), k);
    if k < |envs| {
      BeginsAgain(s, env, envs[k]);
      OnlyActualDecides(StatusAfter(s, env), states[k], envs[k]);
    }
  }

  lemma OnlyActualDecides(s: Status, t: Status, env: Env)
    requires ValidEnv(env) && s.actual == t.actual
    ensures Begins(s, env) <==> Begins(t, env)
    ensures AddonsAfter(s, env) == AddonsAfter(t, env)
  {
  }

  lemma {:induction false} StaysAt(states: seq<Status>, envs: seq<Env>, version: string, k: nat)
    requires IsRun(states, envs) && k < |states| && states[0].actual == version
    requires forall i :: 0 <= i < |envs| && envs[i].desired.Some? ==> envs[i].desired.value.version == version
    ensures states[k].actual == version
    decreases k
  {
    if k > 0 {
      StaysAt(states, envs, version, k - 1);
      assert states[k] == states[k - 1 + 1];
    }
  }
}
