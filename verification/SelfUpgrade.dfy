/**
 The SelfUpgrade phase machine. One reconcile advances the phase, and in the
 Upgrading phase upgrades one component. The results of all remote work come
 with the environment of the reconcile. Two logs record the calls made across
 reconciles: the upgrade attempts and the rollbacks. Sorting a cyclic list of
 components overflows the stack, which ends the process with nothing stored.
 */
module SelfUpgrade {
  import opened DependencyGraph
  import opened ComponentOrder

  datatype Hook = Hook(name: string, onFailure: string)
  datatype Spec = Spec(target: string, components: seq<Component>, preHooks: seq<Hook>, autoRollback: bool)

  /** `Unset` is the empty phase of a new object. */
  datatype Phase = Unset | Pending | Validating | PreUpgrade | Upgrading | Verifying | RollingBack | Completed | Failed

  datatype ComponentPhase = Done | Broken
  datatype ComponentStatus = ComponentStatus(name: string, phase: ComponentPhase)

  datatype Attempt = Attempt(name: string, ok: bool)

  datatype World = World(phase: Phase, statuses: seq<ComponentStatus>, current: string,
                         attempts: seq<Attempt>, rolledBack: seq<string>)

  /**
   `hooks` lists the results of the pre-upgrade hooks, hooks beyond its end
   succeed; `unhealthy` and `stuck` name the components whose health check or
   rollback fails.
   */
  datatype Env = Env(paused: bool, nodesReady: bool, hooks: seq<bool>, backupOk: bool, upgradeOk: bool,
                     unhealthy: set<string>, stuck: set<string>)

  // ----- Component statuses

  predicate IsDone(statuses: seq<ComponentStatus>, name: string) {
    exists i :: 0 <= i < |statuses| && statuses[i] == ComponentStatus(name, Done)
  }

  /** Overwrites the first entry of that name or appends one. */
  function WithStatus(statuses: seq<ComponentStatus>, name: string, phase: ComponentPhase): seq<ComponentStatus> {
    if statuses == [] then [ComponentStatus(name, phase)]
    else if statuses[0].name == name then [ComponentStatus(name, phase)] + statuses[1..]
    else [statuses[0]] + WithStatus(statuses[1..], name, phase)
  }

  lemma {:induction false} WithStatusAppends(statuses: seq<ComponentStatus>, name: string, phase: ComponentPhase)
    requires forall j :: 0 <= j < |statuses| ==> statuses[j].name != name
    ensures WithStatus(statuses, name, phase) == statuses + [ComponentStatus(name, phase)]
  {
    if statuses != [] {
      WithStatusAppends(statuses[1..], name, phase);
    }
  }

  lemma {:induction false} WithStatusOverwrites(statuses: seq<ComponentStatus>, i: nat, name: string,
                                                phase: ComponentPhase)
    requires i < |statuses| && statuses[i].name == name
    requires forall j :: 0 <= j < i ==> statuses[j].name != name
    ensures WithStatus(statuses, name, phase) == statuses[i := ComponentStatus(name, phase)]
  {
    if i > 0 {
      WithStatusOverwrites(statuses[1..], i - 1, name, phase);
    }
  }

  /** The first name of the list that is not recorded as done. */
  ghost function FirstOpen(statuses: seq<ComponentStatus>, names: seq<string>): (i: nat)
    ensures i <= |names|
    ensures forall j :: 0 <= j < i ==> IsDone(statuses, names[j])
    ensures i < |names| ==> !IsDone(statuses, names[i])
  {
    if names == [] || !IsDone(statuses, names[0]) then 0 else 1 + FirstOpen(statuses, names[1..])
  }

  function Lookup(components: seq<Component>, name: string): (c: Component)
    requires name in NamesOf(components)
    ensures c in components && c.name == name
  {
    assert NamesOf(components) == [components[0].name] + NamesOf(components[1..]);
    if components[0].name == name then components[0] else Lookup(components[1..], name)
  }

  // ----- One reconcile as a function

  ghost predicate HookAborts(spec: Spec, env: Env, i: int) {
    && 0 <= i < |spec.preHooks| && i < |env.hooks| && !env.hooks[i]
    && (spec.preHooks[i].onFailure == "Abort" || spec.preHooks[i].onFailure == "")
  }

  ghost predicate Unhealthy(spec: Spec, env: Env, i: int) {
    0 <= i < |spec.components| && spec.components[i].healthCheck && spec.components[i].name in env.unhealthy
  }

  /** Every failed hook has a policy other than Abort, which is also the default. */
  ghost predicate HooksTolerated(spec: Spec, env: Env) {
    forall i :: 0 <= i < |spec.preHooks| && i < |env.hooks| && !env.hooks[i] ==>
      spec.preHooks[i].onFailure != "Abort" && spec.preHooks[i].onFailure != ""
  }

  /** Every component with a health check passes it. */
  ghost predicate AllHealthy(spec: Spec, env: Env) {
    forall c :: c in spec.components && c.healthCheck ==> c.name !in env.unhealthy
  }

  /** The rollback calls: the list from its end, up to the first that fails. */
  function Rollbacks(names: seq<string>, stuck: set<string>): seq<string> {
    if names == [] then []
    else
      var last := names[|names| - 1];
      if last in stuck then [last] else [last] + Rollbacks(names[..|names| - 1], stuck)
  }

  /** One reconcile in the Upgrading phase: the first component that is not done is upgraded. */
  ghost function UpgradeNext(spec: Spec, w: World, env: Env): World {
    var order := UpgradeOrder(spec.components);
    var i := FirstOpen(w.statuses, order);
    if i == |order| || order[i] !in NamesOf(spec.components) then w.(phase := Verifying)
    else AfterAttempt(spec, w, Lookup(spec.components, order[i]), i == |order| - 1, env)
  }

  /** A failure is recorded and ends the upgrade if it matters; otherwise the component counts as done. */
  ghost function AfterAttempt(spec: Spec, w: World, c: Component, last: bool, env: Env): World {
    var tried := w.(attempts := w.attempts + [Attempt(c.name, env.upgradeOk)]);
    if !env.upgradeOk && (c.blocking || spec.autoRollback) then
      tried.(statuses := WithStatus(w.statuses, c.name, Broken), phase := RollingBack)
    else
      var marked := if env.upgradeOk then w.statuses else WithStatus(w.statuses, c.name, Broken);
      tried.(statuses := WithStatus(marked, c.name, Done), phase := if last then Verifying else w.phase)
  }

  /** What the Validating phase lets through, ready nodes provided. */
  ghost predicate Accepted(spec: Spec) {
    spec.target != "" && spec.components != [] && ValidComponents(spec.components)
  }

  ghost function Next(spec: Spec, w: World, env: Env): World {
    if env.paused then w.(phase := Pending)
    else match w.phase
      case Unset => w.(phase := Validating)
      case Validating =>
        if Accepted(spec) && env.nodesReady then w.(phase := PreUpgrade) else w.(phase := Failed)
      case PreUpgrade =>
        if exists i :: HookAborts(spec, env, i) then w.(phase := if spec.autoRollback then RollingBack else Failed)
        else if !env.backupOk && spec.autoRollback then w.(phase := RollingBack)
        else w.(phase := Upgrading)
      case Upgrading => if Acyclic(ComponentGraph(spec.components)) then UpgradeNext(spec, w, env) else w
      case Verifying =>
        if exists i :: Unhealthy(spec, env, i) then w.(phase := if spec.autoRollback then RollingBack else Failed)
        else w.(phase := Completed, current := spec.target)
      case RollingBack =>
        w.(phase := Failed, rolledBack := w.rolledBack + Rollbacks(NamesOf(spec.components), env.stuck))
      case Completed => w
      case Failed => w
      case Pending => w
  }

  // ----- The controller

  class Controller {
    var phase: Phase
    var statuses: seq<ComponentStatus>
    var current: string
    ghost var attempts: seq<Attempt>
    ghost var rolledBack: seq<string>

    ghost function Value(): World reads this {
      World(phase, statuses, current, attempts, rolledBack)
    }

    method IsComponentCompleted(name: string) returns (done: bool)
      ensures done <==> IsDone(statuses, name)
    {
      for i := 0 to |statuses|
        invariant forall j :: 0 <= j < i ==> statuses[j] != ComponentStatus(name, Done)
      {
        if statuses[i] == ComponentStatus(name, Done) { return true; }
      }
      return false;
    }

    method UpdateComponentStatus(name: string, newPhase: ComponentPhase)
      modifies this`statuses
      ensures statuses == WithStatus(old(statuses), name, newPhase)
    {
      for i := 0 to |statuses|
        invariant statuses == old(statuses)
        invariant forall j :: 0 <= j < i ==> statuses[j].name != name
      {
        if statuses[i].name == name {
          WithStatusOverwrites(statuses, i, name, newPhase);
          statuses := statuses[i := ComponentStatus(name, newPhase)];
          return;
        }
      }
      WithStatusAppends(statuses, name, newPhase);
      statuses := statuses + [ComponentStatus(name, newPhase)];
    }

    method UpgradeComponent(spec: Spec, component: Component, last: bool, env: Env)
      modifies this
      ensures Value() == AfterAttempt(spec, old(Value()), component, last, env)
    {
      attempts := attempts + [Attempt(component.name, env.upgradeOk)];
      if !env.upgradeOk {
        UpdateComponentStatus(component.name, Broken);
        if component.blocking || spec.autoRollback {
          phase := RollingBack;
          return;
        }
      }
      UpdateComponentStatus(component.name, Done);
      if last {
        phase := Verifying;
      }
    }

    /** With stack for `depth` nested visits of the sort; `ended` is false when the process dies in it. */
    method ExecuteUpgrade(spec: Spec, env: Env, depth: nat) returns (ended: bool)
      requires ValidComponents(spec.components)
      modifies this
      ensures ended ==> Acyclic(ComponentGraph(spec.components)) && Value() == UpgradeNext(spec, old(Value()), env)
      ensures !ended ==> Value() == old(Value())
      ensures Acyclic(ComponentGraph(spec.components)) && depth >= |spec.components| ==> ended
    {
      var sorted;
      ended, sorted := SortComponents(spec.components, depth);
      if !ended { return; }
      ghost var order := UpgradeOrder(spec.components);
      for i := 0 to |sorted|
        invariant Value() == old(Value())
        invariant forall j :: 0 <= j < i ==> IsDone(statuses, order[j])
      {
        assert sorted[i].name == order[i];
        var done := IsComponentCompleted(sorted[i].name);
        if !done {
          assert FirstOpen(statuses, order) == i;
          LookupFinds(spec.components, sorted[i]);
          UpgradeComponent(spec, sorted[i], i == |sorted| - 1, env);
          return;
        }
      }
      assert FirstOpen(statuses, order) == |order|;
      phase := Verifying;
    }

    method ExecutePreUpgrade(spec: Spec, env: Env)
      requires phase == PreUpgrade && !env.paused
      modifies this`phase
      ensures Value() == Next(spec, old(Value()), env)
      ensures phase == Upgrading <==> HooksTolerated(spec, env) && (spec.autoRollback ==> env.backupOk)
      ensures phase != Upgrading ==> phase == if spec.autoRollback then RollingBack else Failed
    {
      HookWitness(spec, env);
      for i := 0 to |spec.preHooks|
        invariant Value() == old(Value())
        invariant forall j :: 0 <= j < i ==> !HookAborts(spec, env, j)
      {
        if i < |env.hooks| && !env.hooks[i] {
          if spec.preHooks[i].onFailure == "Abort" || spec.preHooks[i].onFailure == "" {
            assert HookAborts(spec, env, i);
            phase := if spec.autoRollback then RollingBack else Failed;
            return;
          }
        }
      }
      if !env.backupOk && spec.autoRollback {
        phase := RollingBack;
        return;
      }
      phase := Upgrading;
    }

    method VerifyUpgrade(spec: Spec, env: Env)
      requires phase == Verifying && !env.paused
      modifies this`phase, this`current
      ensures Value() == Next(spec, old(Value()), env)
      ensures phase == Completed <==> AllHealthy(spec, env)
      ensures phase == Completed ==> current == spec.target
      ensures phase != Completed ==>
        current == old(current) && phase == if spec.autoRollback then RollingBack else Failed
    {
      HookWitness(spec, env);
      for i := 0 to |spec.components|
        invariant Value() == old(Value())
        invariant forall j :: 0 <= j < i ==> !Unhealthy(spec, env, j)
      {
        if !spec.components[i].healthCheck { continue; }
        if spec.components[i].name in env.unhealthy {
          assert Unhealthy(spec, env, i);
          phase := if spec.autoRollback then RollingBack else Failed;
          return;
        }
      }
      phase := Completed;
      current := spec.target;
    }

    method ExecuteRollback(spec: Spec, env: Env)
      requires phase == RollingBack && !env.paused
      modifies this`phase, this`rolledBack
      ensures Value() == Next(spec, old(Value()), env)
      ensures phase == Failed && rolledBack == old(rolledBack) + Rollbacks(NamesOf(spec.components), env.stuck)
    {
      var n := |spec.components|;
      ghost var names := NamesOf(spec.components);
      ghost var all := Rollbacks(names, env.stuck);
      ghost var before := rolledBack;
      assert names[..n] == names;
      while n > 0
        invariant 0 <= n <= |spec.components|
        invariant phase == RollingBack && statuses == old(statuses)
        invariant current == old(current) && attempts == old(attempts)
        invariant before + all == rolledBack + Rollbacks(names[..n], env.stuck)
      {
        n := n - 1;
        var component := spec.components[n];
        assert names[..n + 1][..n] == names[..n];
        ghost var rest := Rollbacks(names[..n], env.stuck);
        ghost var made := rolledBack;
        rolledBack := rolledBack + [component.name];
        if component.name in env.stuck {
          phase := Failed;
          return;
        }
        assert made + ([component.name] + rest) == rolledBack + rest;
      }
      phase := Failed;
    }

    /** The switch over the phase; a reconcile that does not end leaves everything as it was. */
    method Reconcile(spec: Spec, env: Env, depth: nat) returns (ended: bool)
      requires phase == Upgrading ==> ValidComponents(spec.components)
      modifies this
      ensures ended ==> Value() == Next(spec, old(Value()), env)
      ensures !ended ==> Value() == old(Value()) && phase == Upgrading
      ensures depth >= |spec.components| ==> Value() == Next(spec, old(Value()), env)
      ensures env.paused ==> Value() == old(Value()).(phase := Pending)
      ensures !env.paused && old(phase) == Validating ==>
        Value() == old(Value()).(phase := if Accepted(spec) && env.nodesReady then PreUpgrade else Failed)
      ensures depth >= |spec.components| ==>
        (ended <==> env.paused || old(phase) != Upgrading || Acyclic(ComponentGraph(spec.components)))
    {
      ended := true;
      if env.paused {
        phase := Pending;
        return;
      }
      match phase
      case Unset => phase := Validating;
      case Validating =>
        var valid := ValidateComponents(spec.components);
        phase := if spec.target == "" then Failed
          else if spec.components == [] then Failed
          else if !valid then Failed
          else if !env.nodesReady then Failed
          else PreUpgrade;
      case PreUpgrade => ExecutePreUpgrade(spec, env);
      case Upgrading => ended := ExecuteUpgrade(spec, env, depth);
      case Verifying => VerifyUpgrade(spec, env);
      case RollingBack => ExecuteRollback(spec, env);
      case Completed =>
      case Failed =>
      case Pending =>
    }
  }

  method ValidateComponents(components: seq<Component>) returns (valid: bool)
    ensures valid <==> ValidComponents(components)
  {
    ghost var all := NamesOf(components);
    var names := {};
    for i := 0 to |components|
      invariant forall n :: n in names <==> n in all[..i]
      invariant NoDuplicates(all[..i])
    {
      assert all[..i + 1] == all[..i] + [components[i].name];
      if components[i].name in names {
        ghost var j :| 0 <= j < i && all[j] == components[i].name;
        assert all[j] == all[i];
        return false;
      }
      names := names + {components[i].name};
    }
    assert all[..|components|] == all;
    for i := 0 to |components|
      invariant forall j, d :: 0 <= j < i && d in components[j].dependsOn ==> d in all
    {
      var deps := components[i].dependsOn;
      for k := 0 to |deps|
        invariant forall d :: d in deps[..k] ==> d in all
      {
        if deps[k] !in names { return false; }
      }
      assert deps[..|deps|] == deps;
    }
    return true;
  }

  // ----- Runs

  const START_WORLD := World(Unset, [], "", [], [])

  /** A run of unpaused reconciles of one spec; each computed status is stored. */
  ghost predicate IsRun(spec: Spec, worlds: seq<World>, envs: seq<Env>) {
    && |worlds| == |envs| + 1
    && worlds[0] == START_WORLD
    && forall k :: 0 <= k < |envs| ==> !envs[k].paused && worlds[k + 1] == Next(spec, worlds[k], envs[k])
  }

  function DoneEntries(names: seq<string>): seq<ComponentStatus> {
    seq(|names|, i requires 0 <= i < |names| => ComponentStatus(names[i], Done))
  }

  function AttemptNames(attempts: seq<Attempt>): seq<string> {
    seq(|attempts|, i requires 0 <= i < |attempts| => attempts[i].name)
  }

  /** A failed attempt that the run went past belongs to a component that may fail. */
  ghost predicate FailuresTolerated(spec: Spec, attempts: seq<Attempt>) {
    forall i, c :: 0 <= i < |attempts| && !attempts[i].ok && c in spec.components && c.name == attempts[i].name ==>
      !c.blocking && !spec.autoRollback
  }

  /** The first `k` components in upgrade order have been attempted, once each and in order, and recorded. */
  ghost predicate Upgraded(spec: Spec, w: World, k: nat) {
    var order := UpgradeOrder(spec.components);
    && k <= |order|
    && AttemptNames(w.attempts) == order[..k]
    && w.statuses == DoneEntries(order[..k])
    && FailuresTolerated(spec, w.attempts)
  }

  ghost predicate Inv(spec: Spec, w: World) {
    && (w.phase == Unset || w.phase == Validating || w.phase == PreUpgrade ==> w.attempts == [] && w.statuses == [])
    && (w.phase == PreUpgrade || w.phase == Upgrading || w.phase == RollingBack ==> Accepted(spec))
    && (w.phase != Failed ==> w.rolledBack == [])
    && w.current == (if w.phase == Completed then spec.target else "")
    && (w.phase == Upgrading ==> |w.attempts| < |spec.components| && Upgraded(spec, w, |w.attempts|))
    && (w.phase == Verifying || w.phase == Completed ==>
          && Accepted(spec) && Acyclic(ComponentGraph(spec.components))
          && Upgraded(spec, w, |UpgradeOrder(spec.components)|))
    && w.phase != Pending
  }

  lemma RecordNext(names: seq<string>, name: string)
    requires name !in names
    ensures WithStatus(DoneEntries(names), name, Broken) == DoneEntries(names) + [ComponentStatus(name, Broken)]
    ensures WithStatus(DoneEntries(names), name, Done) == DoneEntries(names + [name])
    ensures WithStatus(WithStatus(DoneEntries(names), name, Broken), name, Done) == DoneEntries(names + [name])
  {
    var entries := DoneEntries(names);
    WithStatusAppends(entries, name, Done);
    WithStatusAppends(entries, name, Broken);
    WithStatusOverwrites(entries + [ComponentStatus(name, Broken)], |names|, name, Done);
  }

  /** With a prefix of the order recorded, exactly the names of the prefix are done. */
  lemma PrefixIsDone(order: seq<string>, k: nat, j: nat)
    requires NoDuplicates(order) && k <= |order| && j < |order|
    ensures IsDone(DoneEntries(order[..k]), order[j]) <==> j < k
  {
    var entries := DoneEntries(order[..k]);
    if j < k {
      assert entries[j] == ComponentStatus(order[j], Done);
    }
    if i :| 0 <= i < |entries| && entries[i] == ComponentStatus(order[j], Done) {
      assert order[i] == order[j];
    }
  }

  /** The next open component is the one after the recorded prefix. */
  lemma PrefixFirstOpen(order: seq<string>, k: nat)
    requires NoDuplicates(order) && k <= |order|
    ensures FirstOpen(DoneEntries(order[..k]), order) == k
  {
    var entries := DoneEntries(order[..k]);
    var i := FirstOpen(entries, order);
    if i < |order| {
      PrefixIsDone(order, k, i);
    }
    if k < |order| {
      PrefixIsDone(order, k, k);
    }
  }

  /** Which component a reconcile in the Upgrading phase of a run takes, and how it is recorded. */
  lemma NextComponent(spec: Spec, w: World)
    requires w.phase == Upgrading && Inv(spec, w) && Acyclic(ComponentGraph(spec.components))
    ensures var order, k := UpgradeOrder(spec.components), |w.attempts|;
      && k < |order| == |spec.components|
      && order[k] in NamesOf(spec.components)
      && FirstOpen(w.statuses, order) == k
      && WithStatus(w.statuses, order[k], Broken) == DoneEntries(order[..k]) + [ComponentStatus(order[k], Broken)]
      && WithStatus(w.statuses, order[k], Done) == DoneEntries(order[..k + 1])
      && WithStatus(WithStatus(w.statuses, order[k], Broken), order[k], Done) == DoneEntries(order[..k + 1])
  {
    var order := UpgradeOrder(spec.components);
    var k := |w.attempts|;
    OrderIsComplete(spec.components);
    OrderLength(spec.components);
    PrefixFirstOpen(order, k);
    NotListedEarlier(order, k);
    RecordNext(order[..k], order[k]);
    assert order[..k] + [order[k]] == order[..k + 1];
    assert order[k] in order;
  }

  lemma AttemptNamesNext(attempts: seq<Attempt>, a: Attempt, order: seq<string>)
    requires |attempts| < |order| && AttemptNames(attempts) == order[..|attempts|] && a.name == order[|attempts|]
    ensures AttemptNames(attempts + [a]) == order[..|attempts| + 1]
  {
    assert order[..|attempts| + 1] == order[..|attempts|] + [a.name];
    assert AttemptNames(attempts + [a]) == AttemptNames(attempts) + [a.name];
  }

  /** What a reconcile in the Upgrading phase of a run does. */
  lemma UpgradeStep(spec: Spec, w: World, env: Env)
    requires w.phase == Upgrading && Inv(spec, w) && !env.paused && Acyclic(ComponentGraph(spec.components))
    ensures var order, k := UpgradeOrder(spec.components), |w.attempts|;
      && k < |order| == |spec.components|
      && order[k] in NamesOf(spec.components)
      && var w' := Next(spec, w, env);
      && w'.attempts == w.attempts + [Attempt(order[k], env.upgradeOk)]
      && AttemptNames(w'.attempts) == order[..k + 1]
      && if !env.upgradeOk && (Lookup(spec.components, order[k]).blocking || spec.autoRollback)
         then
           && w'.statuses == DoneEntries(order[..k]) + [ComponentStatus(order[k], Broken)]
           && w'.phase == RollingBack
         else
           && w'.statuses == DoneEntries(order[..k + 1])
           && w'.phase == if k + 1 == |order| then Verifying else Upgrading
  {
    NextComponent(spec, w);
    var order := UpgradeOrder(spec.components);
    AttemptNamesNext(w.attempts, Attempt(order[|w.attempts|], env.upgradeOk), order);
  }

  lemma ToleratedNext(spec: Spec, attempts: seq<Attempt>, a: Attempt)
    requires NoDuplicates(NamesOf(spec.components)) && a.name in NamesOf(spec.components)
    requires FailuresTolerated(spec, attempts)
    requires a.ok || (!Lookup(spec.components, a.name).blocking && !spec.autoRollback)
    ensures FailuresTolerated(spec, attempts + [a])
  {
    forall c | c in spec.components && c.name == a.name
      ensures Lookup(spec.components, a.name) == c
    {
      LookupFinds(spec.components, c);
    }
  }

  lemma UpgradeStepKeeps(spec: Spec, w: World, env: Env)
    requires w.phase == Upgrading && Inv(spec, w) && !env.paused && Acyclic(ComponentGraph(spec.components))
    ensures Inv(spec, Next(spec, w, env))
  {
    UpgradeStep(spec, w, env);
    var w' := Next(spec, w, env);
    if w'.phase != RollingBack {
      ToleratedNext(spec, w.attempts, Attempt(UpgradeOrder(spec.components)[|w.attempts|], env.upgradeOk));
      assert Upgraded(spec, w', |w.attempts| + 1);
    }
  }

  lemma StepKeeps(spec: Spec, w: World, env: Env)
    requires Inv(spec, w) && !env.paused
    ensures Inv(spec, Next(spec, w, env))
  {
    if w.phase == Upgrading && Acyclic(ComponentGraph(spec.components)) {
      UpgradeStepKeeps(spec, w, env);
    } else if w.phase == PreUpgrade {
      assert AttemptNames([]) == UpgradeOrder(spec.components)[..0] && DoneEntries([]) == [];
    }
  }

  lemma {:induction false} RunKeeps(spec: Spec, worlds: seq<World>, envs: seq<Env>, k: nat)
    requires IsRun(spec, worlds, envs) && k < |worlds|
    ensures Inv(spec, worlds[k])
    decreases k
  {
    if k > 0 {
      RunKeeps(spec, worlds, envs, k - 1);
      StepKeeps(spec, worlds[k - 1], envs[k - 1]);
      assert worlds[k] == worlds[k - 1 + 1];
    }
  }

  // ----- Main results

  predicate Terminal(w: World) {
    w.phase == Completed || w.phase == Failed
  }

  /** How many reconciles are left at most: the phase first, then the components still to do. */
  ghost function Measure(spec: Spec, w: World): int {
    var n := |spec.components|;
    match w.phase
    case Unset => n + 5
    case Validating => n + 4
    case PreUpgrade => n + 3
    case Upgrading => n - |w.attempts| + 2
    case Verifying => 2
    case RollingBack => 1
    case _ => 0
  }

  lemma StepDecreases(spec: Spec, w: World, env: Env)
    requires Inv(spec, w) && !env.paused && !Terminal(w)
    requires w.phase == Upgrading ==> Acyclic(ComponentGraph(spec.components))
    ensures 0 <= Measure(spec, Next(spec, w, env)) < Measure(spec, w)
  {
    StepKeeps(spec, w, env);
    if w.phase == Upgrading {
      UpgradeStep(spec, w, env);
    }
  }

  /** Every run over n acyclic components is over after n + 5 reconciles, and so is every run that is not accepted. */
  lemma RunsEnd(spec: Spec, worlds: seq<World>, envs: seq<Env>)
    requires Accepted(spec) ==> Acyclic(ComponentGraph(spec.components))
    requires IsRun(spec, worlds, envs) && |envs| >= |spec.components| + 5
    ensures Terminal(worlds[|spec.components| + 5])
  {
    var bound := |spec.components| + 5;
    for k := 0 to bound
      invariant Terminal(worlds[k]) || Measure(spec, worlds[k]) + k <= bound
    {
      RunKeeps(spec, worlds, envs, k);
      if !Terminal(worlds[k]) {
        StepDecreases(spec, worlds[k], envs[k]);
      }
    }
    RunKeeps(spec, worlds, envs, bound);
  }

  const GOOD_DAY := Env(false, true, [], true, true, {}, {})

  /** On an accepted cyclic spec a run in which every remote result is good stays in Upgrading for ever. */
  lemma {:induction false} CyclicRunIsStuck(spec: Spec, m: nat) returns (worlds: seq<World>, envs: seq<Env>)
    requires Accepted(spec) && !Acyclic(ComponentGraph(spec.components))
    ensures IsRun(spec, worlds, envs) && |envs| == m
    ensures worlds[m] == START_WORLD.(phase :=
      if m == 0 then Unset else if m == 1 then Validating else if m == 2 then PreUpgrade else Upgrading)
  {
    if m == 0 {
      worlds, envs := [START_WORLD], [];
    } else {
      worlds, envs := CyclicRunIsStuck(spec, m - 1);
      var w := worlds[m - 1];
      assert forall i :: !HookAborts(spec, GOOD_DAY, i);
      worlds, envs := worlds + [Next(spec, w, GOOD_DAY)], envs + [GOOD_DAY];
    }
  }

  /** Every unpaused run is over after that many reconciles. */
  ghost predicate EndsWithin(spec: Spec, bound: nat) {
    forall worlds, envs :: IsRun(spec, worlds, envs) && |envs| == bound ==> Terminal(worlds[bound])
  }

  /** Some bound on the number of reconciles exists, and n + 5 is one, exactly when no cyclic list is accepted. */
  lemma RunsEndExactly(spec: Spec)
    ensures EndsWithin(spec, |spec.components| + 5) <==> (Accepted(spec) ==> Acyclic(ComponentGraph(spec.components)))
    ensures (exists bound :: EndsWithin(spec, bound)) <==> EndsWithin(spec, |spec.components| + 5)
  {
    if Accepted(spec) ==> Acyclic(ComponentGraph(spec.components)) {
      forall worlds, envs | IsRun(spec, worlds, envs) && |envs| == |spec.components| + 5
        ensures Terminal(worlds[|spec.components| + 5])
      {
        RunsEnd(spec, worlds, envs);
      }
    } else {
      forall bound: nat
        ensures !EndsWithin(spec, bound)
      {
        var worlds, envs := CyclicRunIsStuck(spec, bound);
        assert IsRun(spec, worlds, envs) && !Terminal(worlds[bound]);
      }
    }
  }

  // ----- Why a run goes where it goes

  /** The component that is next in upgrade order fails and its failure matters. */
  ghost predicate NextFails(spec: Spec, w: World, env: Env) {
    var order := UpgradeOrder(spec.components);
    && Acyclic(ComponentGraph(spec.components)) && !env.upgradeOk && |w.attempts| < |order|
    && (spec.autoRollback
        || exists c :: c in spec.components && c.name == order[|w.attempts|] && c.blocking)
  }

  lemma HookWitness(spec: Spec, env: Env)
    ensures HooksTolerated(spec, env) <==> forall i :: !HookAborts(spec, env, i)
    ensures AllHealthy(spec, env) <==> forall i :: !Unhealthy(spec, env, i)
  {
    if i :| Unhealthy(spec, env, i) {
      assert spec.components[i] in spec.components;
    }
    if i :| HookAborts(spec, env, i) {
      assert !HooksTolerated(spec, env);
    }
    if HooksTolerated(spec, env) {
      assert forall i :: !HookAborts(spec, env, i);
    } else {
      var i :| 0 <= i < |spec.preHooks| && i < |env.hooks| && !env.hooks[i]
        && !(spec.preHooks[i].onFailure != "Abort" && spec.preHooks[i].onFailure != "");
      assert HookAborts(spec, env, i);
    }
    if !AllHealthy(spec, env) {
      var c :| c in spec.components && c.healthCheck && c.name in env.unhealthy;
      var i :| 0 <= i < |spec.components| && spec.components[i] == c;
      assert Unhealthy(spec, env, i);
    }
  }

  lemma NextFailsExactly(spec: Spec, w: World, env: Env)
    requires w.phase == Upgrading && Inv(spec, w) && !env.paused
    ensures Next(spec, w, env).phase == RollingBack <==> NextFails(spec, w, env)
    ensures Next(spec, w, env).phase in {Upgrading, Verifying, RollingBack}
  {
    if Acyclic(ComponentGraph(spec.components)) {
      UpgradeStep(spec, w, env);
      var name := UpgradeOrder(spec.components)[|w.attempts|];
      forall c | c in spec.components && c.name == name
        ensures c == Lookup(spec.components, name)
      {
        LookupFinds(spec.components, c);
      }
    }
  }

  /** When a reconcile of a run begins a rollback, fails or completes, told from the spec and the environment. */
  lemma PhaseExactly(spec: Spec, w: World, env: Env)
    requires Inv(spec, w) && !env.paused
    ensures Next(spec, w, env).phase == RollingBack <==>
      || (w.phase == PreUpgrade && spec.autoRollback && !(HooksTolerated(spec, env) && env.backupOk))
      || (w.phase == Upgrading && NextFails(spec, w, env))
      || (w.phase == Verifying && spec.autoRollback && !AllHealthy(spec, env))
    ensures Next(spec, w, env).phase == Failed <==>
      || w.phase == Failed || w.phase == RollingBack
      || (w.phase == Validating && !(Accepted(spec) && env.nodesReady))
      || (w.phase == PreUpgrade && !spec.autoRollback && !HooksTolerated(spec, env))
      || (w.phase == Verifying && !spec.autoRollback && !AllHealthy(spec, env))
    ensures Next(spec, w, env).phase == Completed <==>
      w.phase == Completed || (w.phase == Verifying && AllHealthy(spec, env))
    ensures Next(spec, w, env).phase == PreUpgrade <==> w.phase == Validating && Accepted(spec) && env.nodesReady
    ensures w.phase != Upgrading ==> (Next(spec, w, env).phase == Upgrading <==>
      w.phase == PreUpgrade && HooksTolerated(spec, env) && (spec.autoRollback ==> env.backupOk))
  {
    HookWitness(spec, env);
    if w.phase == Upgrading {
      NextFailsExactly(spec, w, env);
    }
  }

  /** The spec was validated on ready nodes before anything else happened in the run. */
  lemma {:induction false} ValidatedFirst(spec: Spec, worlds: seq<World>, envs: seq<Env>, k: nat) returns (v: nat)
    requires IsRun(spec, worlds, envs) && k < |worlds| && worlds[k].phase !in {Unset, Validating, Failed}
    ensures v < k && worlds[v].phase == Validating && Accepted(spec) && envs[v].nodesReady
    decreases k
  {
    RunKeeps(spec, worlds, envs, k - 1);
    assert worlds[k] == worlds[k - 1 + 1];
    PhaseExactly(spec, worlds[k - 1], envs[k - 1]);
    if worlds[k - 1].phase == Validating {
      v := k - 1;
    } else {
      v := ValidatedFirst(spec, worlds, envs, k - 1);
    }
  }

  /** No component is touched before hooks and backup have let the upgrade through. */
  lemma {:induction false} PreparedFirst(spec: Spec, worlds: seq<World>, envs: seq<Env>, k: nat) returns (p: nat)
    requires IsRun(spec, worlds, envs) && k < |worlds|
    requires worlds[k].attempts != [] || worlds[k].phase in {Upgrading, Verifying, Completed}
    ensures p < k && worlds[p].phase == PreUpgrade && worlds[p].attempts == []
    ensures HooksTolerated(spec, envs[p]) && (spec.autoRollback ==> envs[p].backupOk)
    decreases k
  {
    RunKeeps(spec, worlds, envs, k - 1);
    assert worlds[k] == worlds[k - 1 + 1];
    PhaseExactly(spec, worlds[k - 1], envs[k - 1]);
    if worlds[k - 1].phase == PreUpgrade {
      p := k - 1;
    } else {
      p := PreparedFirst(spec, worlds, envs, k - 1);
    }
  }

  lemma AttemptsStep(spec: Spec, w: World, env: Env)
    requires Inv(spec, w) && !env.paused
    ensures var order, w' := UpgradeOrder(spec.components), Next(spec, w, env);
      || w'.attempts == w.attempts
      || (&& w.phase == Upgrading && |w.attempts| < |order|
          && w'.attempts == w.attempts + [Attempt(order[|w.attempts|], env.upgradeOk)])
  {
    if w.phase == Upgrading && Acyclic(ComponentGraph(spec.components)) {
      UpgradeStep(spec, w, env);
    }
  }

  /** Each recorded attempt was made by one reconcile, of the component next in order, with that reconcile's result. */
  lemma {:induction false} AttemptSource(spec: Spec, worlds: seq<World>, envs: seq<Env>, k: nat, a: nat)
      returns (j: nat)
    requires IsRun(spec, worlds, envs) && k < |worlds| && a < |worlds[k].attempts|
    ensures j < k && worlds[j].phase == Upgrading && |worlds[j].attempts| == a
    ensures a < |UpgradeOrder(spec.components)|
    ensures worlds[k].attempts[a] == Attempt(UpgradeOrder(spec.components)[a], envs[j].upgradeOk)
    decreases k
  {
    RunKeeps(spec, worlds, envs, k - 1);
    assert worlds[k] == worlds[k - 1 + 1];
    AttemptsStep(spec, worlds[k - 1], envs[k - 1]);
    j := k - 1;
    if a < |worlds[k - 1].attempts| {
      j := AttemptSource(spec, worlds, envs, k - 1, a);
    }
  }

  /** If nothing goes wrong, an accepted acyclic spec is Completed after n + 5 reconciles. */
  lemma GoodRunCompletes(spec: Spec, worlds: seq<World>, envs: seq<Env>)
    requires IsRun(spec, worlds, envs) && |envs| >= |spec.components| + 5
    requires Accepted(spec) && Acyclic(ComponentGraph(spec.components))
    requires forall k :: 0 <= k < |envs| ==>
      && envs[k].nodesReady && envs[k].backupOk && envs[k].upgradeOk
      && HooksTolerated(spec, envs[k]) && AllHealthy(spec, envs[k])
    ensures worlds[|spec.components| + 5].phase == Completed
  {
    RunsEnd(spec, worlds, envs);
    for k := 0 to |spec.components| + 5
      invariant worlds[k].phase != RollingBack && worlds[k].phase != Failed
    {
      RunKeeps(spec, worlds, envs, k);
      PhaseExactly(spec, worlds[k], envs[k]);
    }
  }

  /**
   A completed run attempted every component exactly once, in upgrade order, and
   every blocking component succeeded; with automatic rollback all of them did.
   */
  lemma CompletedRun(spec: Spec, worlds: seq<World>, envs: seq<Env>, k: nat)
    requires IsRun(spec, worlds, envs) && k < |worlds| && worlds[k].phase == Completed
    ensures AttemptNames(worlds[k].attempts) == UpgradeOrder(spec.components)
    ensures NoDuplicates(AttemptNames(worlds[k].attempts))
    ensures forall n :: n in AttemptNames(worlds[k].attempts) <==> n in NamesOf(spec.components)
    ensures FailuresTolerated(spec, worlds[k].attempts)
  {
    RunKeeps(spec, worlds, envs, k);
    OrderIsComplete(spec.components);
    var order := UpgradeOrder(spec.components);
    assert order[..|order|] == order;
  }

  /** A completed run passed its verification: some earlier reconcile found every checked component healthy. */
  lemma {:induction false} CompletedIsVerified(spec: Spec, worlds: seq<World>, envs: seq<Env>, k: nat) returns (v: nat)
    requires IsRun(spec, worlds, envs) && k < |worlds| && worlds[k].phase == Completed
    ensures v < k && worlds[v].phase == Verifying && worlds[k].current == spec.target
    ensures forall c :: c in spec.components && c.healthCheck ==> c.name !in envs[v].unhealthy
    decreases k
  {
    RunKeeps(spec, worlds, envs, k);
    assert worlds[k] == worlds[k - 1 + 1];
    if worlds[k - 1].phase == Completed {
      v := CompletedIsVerified(spec, worlds, envs, k - 1);
    } else {
      v := k - 1;
      forall c | c in spec.components && c.healthCheck
        ensures c.name !in envs[v].unhealthy
      {
        var i :| 0 <= i < |spec.components| && spec.components[i] == c;
        assert !Unhealthy(spec, envs[v], i);
      }
    }
  }

  /**
   Whenever a reconcile of a run upgrades a component, all direct and transitive
   dependencies of that component are already recorded as completed.
   */
  lemma DependenciesDoneFirst(spec: Spec, worlds: seq<World>, envs: seq<Env>, k: nat, walk: seq<string>)
    requires IsRun(spec, worlds, envs) && k < |envs|
    requires |worlds[k + 1].attempts| > |worlds[k].attempts|
    requires IsWalk(ComponentGraph(spec.components), walk) && |walk| > 1
    requires walk[0] == worlds[k + 1].attempts[|worlds[k].attempts|].name
    ensures IsDone(worlds[k].statuses, walk[|walk| - 1])
  {
    var w := worlds[k];
    RunKeeps(spec, worlds, envs, k);
    assert worlds[k + 1] == Next(spec, w, envs[k]);
    assert w.phase == Upgrading;
    UpgradeStep(spec, w, envs[k]);
    OrderIsComplete(spec.components);
    var order := UpgradeOrder(spec.components);
    TransitiveDependenciesFirst(ComponentGraph(spec.components), order, |w.attempts|, walk);
    var i :| 0 <= i < |w.attempts| && order[i] == walk[|walk| - 1];
    assert DoneEntries(order[..|w.attempts|])[i] == ComponentStatus(order[i], Done);
  }

  /** The rollback calls are the declared names from last to first, up to and including the first that is stuck. */
  lemma {:induction false} RollbacksStopAtStuck(names: seq<string>, stuck: set<string>)
    ensures var calls := Rollbacks(names, stuck);
      && calls <= Reverse(names)
      && (forall i :: 0 <= i < |calls| - 1 ==> calls[i] !in stuck)
      && (|calls| < |names| ==> |calls| > 0 && calls[|calls| - 1] in stuck)
  {
    if names != [] {
      var last := |names| - 1;
      RollbacksStopAtStuck(names[..last], stuck);
      assert Reverse(names) == [names[last]] + Reverse(names[..last]);
    }
  }

  /**
   The rollback of a run, when nothing gets stuck, undoes all components in
   exactly the reverse of the upgrade order if and only if the declared list
   already respects the dependencies.
   */
  lemma FullRollbackOrder(spec: Spec, worlds: seq<World>, envs: seq<Env>, k: nat)
    requires Acyclic(ComponentGraph(spec.components)) && IsRun(spec, worlds, envs)
    requires k < |envs| && worlds[k].phase == RollingBack && envs[k].stuck == {}
    ensures worlds[k + 1].phase == Failed
    ensures worlds[k + 1].rolledBack == Reverse(UpgradeOrder(spec.components)) <==>
      DependenciesFirst(ComponentGraph(spec.components), NamesOf(spec.components))
  {
    RunKeeps(spec, worlds, envs, k);
    assert worlds[k + 1] == Next(spec, worlds[k], envs[k]);
    RollbacksStopAtStuck(NamesOf(spec.components), envs[k].stuck);
    assert worlds[k + 1].rolledBack == Reverse(NamesOf(spec.components));
    RollbackReversesUpgrade(spec.components);
  }

  /** Declared dependant first: the rollback undoes the dependency before the component that needs it. */
  lemma RollbackCanRunInUpgradeOrder() returns (components: seq<Component>)
    ensures Sortable(components) && |components| == 2
    ensures Rollbacks(NamesOf(components), {}) == UpgradeOrder(components)
  {
    components := [Component("manager", ["crd"], true, false), Component("crd", [], true, false)];
    DependantFirstGraph(components);
    var g := ComponentGraph(components);
    assert NamesOf(components) == ["manager", "crd"];
    OrderIsComplete(components);
    OrderLength(components);
    RollbacksStopAtStuck(NamesOf(components), {});
    DependencyComesFirst(g, UpgradeOrder(components));
  }

  lemma DependencyComesFirst(g: Graph, order: seq<string>)
    requires Deps(g, "manager") == ["crd"] && DependenciesFirst(g, order)
    requires |order| == 2 && "manager" in order
    ensures order == ["crd", "manager"]
  {
    var i :| 0 <= i < 2 && order[i] == "manager";
    assert "crd" in Deps(g, order[i]);
  }

  lemma DependantFirstGraph(components: seq<Component>)
    requires components == [Component("manager", ["crd"], true, false), Component("crd", [], true, false)]
    ensures ComponentGraph(components) == map["manager" := ["crd"], "crd" := []]
    ensures Sortable(components)
  {
    var manager := components[0];
    assert ComponentGraph([manager][..0]) == map[];
    assert ComponentGraph([manager]) == map["manager" := ["crd"]];
    assert components[..1] == [manager];
    assert NamesOf(components) == ["manager", "crd"];
    var g := ComponentGraph(components);
    forall u, d | d in Deps(g, u)
      ensures !Reaches(g, d, u)
    {
      assert u == "manager" && d == "crd";
      forall walk | IsWalk(g, walk) && walk[0] == d
        ensures walk[|walk| - 1] == "crd"
      {
        ClosedUnderWalk(g, {"crd"}, walk);
      }
    }
  }

  /** One paused reconcile is final: no later reconcile, paused or not, ever leaves Pending. */
  lemma {:induction false} PauseIsFinal(spec: Spec, w: World, env: Env, envs: seq<Env>, later: seq<World>)
    requires env.paused && |later| == |envs| + 1 && later[0] == Next(spec, w, env)
    requires forall k :: 0 <= k < |envs| ==> later[k + 1] == Next(spec, later[k], envs[k])
    ensures forall k :: 0 <= k < |later| ==> later[k] == w.(phase := Pending)
  {
    for k := 0 to |envs|
      invariant forall j :: 0 <= j <= k ==> later[j] == w.(phase := Pending)
    {
      assert later[k + 1] == Next(spec, later[k], envs[k]);
    }
  }

  lemma {:induction false} LookupFinds(components: seq<Component>, c: Component)
    requires NoDuplicates(NamesOf(components)) && c in components
    ensures c.name in NamesOf(components) && Lookup(components, c.name) == c
  {
    var i :| 0 <= i < |components| && components[i] == c;
    assert NamesOf(components)[i] == c.name;
    assert NamesOf(components[1..]) == NamesOf(components)[1..];
    if i > 0 {
      assert NamesOf(components)[0] != NamesOf(components)[i];
      assert components[1..][i - 1] == c;
      LookupFinds(components[1..], c);
    }
  }
}
