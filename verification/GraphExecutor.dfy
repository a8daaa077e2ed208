/**
 The phased upgrade graph executor. Running a component (manifests, scripts,
 health check) may succeed or fail: the results, by position of the phase and name
 of the component, are an input. The calls made are returned as a trace so that
 contracts can speak of whole runs.
 */
module GraphExecutor {
  import opened Wrappers
  import opened DependencyGraph

  datatype Component = Component(name: string, dependsOn: seq<string>, blocking: bool)
  datatype Phase = Phase(name: string, order: int, blocking: bool, components: seq<Component>)
  datatype Call = Call(phase: nat, component: Component, ok: bool)

  /** How the execution of a component in a phase goes; what is not mentioned succeeds. */
  type Results = map<(nat, string), bool>

  function ResultOf(results: Results, p: nat, name: string): bool {
    (p, name) in results ==> results[(p, name)]
  }

  function ComponentNames(components: seq<Component>): set<string> {
    set c | c in components :: c.name
  }

  /** The names a run has marked completed when it reaches phase `p`. */
  function NamesBefore(phases: seq<Phase>, p: nat): set<string>
    requires p <= |phases|
  {
    if p == 0 then {} else NamesBefore(phases, p - 1) + ComponentNames(phases[p - 1].components)
  }

  /** The first component of that name, as the executor looks it up. */
  function FindComponent(components: seq<Component>, name: string): (r: Option<Component>)
    ensures r.Some? <==> name in ComponentNames(components)
    ensures r.Some? ==> r.value in components && r.value.name == name
  {
    if components == [] then None
    else if components[0].name == name then Some(components[0])
    else
      assert forall c :: c in components <==> c == components[0] || c in components[1..];
      FindComponent(components[1..], name)
  }

  /** Of several components with one name the lookup finds the first. */
  lemma {:induction false} FindsTheFirst(components: seq<Component>, i: nat)
    requires i < |components| && forall j :: 0 <= j < i ==> components[j].name != components[i].name
    ensures FindComponent(components, components[i].name) == Some(components[i])
  {
    if i > 0 {
      FindsTheFirst(components[1..], i - 1);
    }
  }

  /** No later component has the name of component `i`. */
  ghost predicate IsLast(components: seq<Component>, i: int) {
    0 <= i < |components| && forall j :: i < j < |components| ==> components[j].name != components[i].name
  }

  ghost predicate IsListed(phase: Phase, c: Component) {
    FindComponent(phase.components, c.name) == Some(c)
  }

  /** Every component that the phase would run finds its dependencies completed. */
  ghost predicate DependenciesMet(phase: Phase, completed: set<string>) {
    forall c, d :: IsListed(phase, c) && d in c.dependsOn ==> d in completed
  }

  /** No component that the phase would run fails if it is blocking. */
  ghost predicate BlockingSucceed(p: nat, phase: Phase, results: Results) {
    forall c :: IsListed(phase, c) && c.blocking ==> ResultOf(results, p, c.name)
  }

  /** The names of the components with what they depend on; later components overwrite earlier ones. */
  function PhaseGraph(components: seq<Component>): (g: Graph)
    ensures g.Keys == ComponentNames(components)
  {
    if components == [] then map[]
    else
      var last := |components| - 1;
      assert components == components[..last] + [components[last]];
      PhaseGraph(components[..last])[components[last].name := components[last].dependsOn]
  }

  ghost predicate SortedByOrder(phases: seq<Phase>) {
    forall i, j :: 0 <= i < j < |phases| ==> phases[i].order <= phases[j].order
  }

  method BuildDependencyGraph(components: seq<Component>) returns (g: Graph)
    ensures g == PhaseGraph(components) && g.Keys == ComponentNames(components)
    ensures forall i :: IsLast(components, i) && components[i].name in g ==>
      g[components[i].name] == components[i].dependsOn
  {
    g := map[];
    for i := 0 to |components|
      invariant g == PhaseGraph(components[..i])
    {
      assert components[..i + 1][..i] == components[..i];
      g := g[components[i].name := components[i].dependsOn];
    }
    assert components[..|components|] == components;
    forall i | IsLast(components, i)
      ensures components[i].name in g && g[components[i].name] == components[i].dependsOn
    {
      GraphHoldsLast(components, i);
    }
  }

  /** The graph holds the dependencies of the last component of each name. */
  lemma {:induction false} GraphHoldsLast(components: seq<Component>, i: nat)
    requires IsLast(components, i)
    ensures components[i].name in PhaseGraph(components)
    ensures PhaseGraph(components)[components[i].name] == components[i].dependsOn
  {
    var last := |components| - 1;
    if i < last {
      GraphHoldsLast(components[..last], i);
    }
  }

  /** Ranging over a map: each key once, in an order the language leaves open. */
  method RangeKeys(g: Graph) returns (order: seq<string>)
    ensures Enumerates(order, g)
  {
    order := [];
    var rest := g.Keys;
    while rest != {}
      invariant NoDuplicates(order) && rest <= g.Keys
      invariant forall n :: n in order <==> n in g.Keys - rest
    {
      var k :| k in rest;
      assert k !in order;
      order, rest := order + [k], rest - {k};
    }
  }

  /** `sort.Slice` is not stable, so any arrangement with non-decreasing order may come out. */
  method SortPhases(phases: seq<Phase>) returns (sorted: seq<Phase>)
    ensures SortedByOrder(sorted) && multiset(sorted) == multiset(phases)
  {
    sorted := [];
    var rest := phases;
    while rest != []
      invariant multiset(sorted) + multiset(rest) == multiset(phases)
      invariant SortedByOrder(sorted)
      invariant AllBelow(sorted, rest)
      decreases |rest|
    {
      LeastOrderExists(rest);
      var i :| IsLeast(rest, i);
      MoveLeast(sorted, rest, i);
      sorted, rest := sorted + [rest[i]], rest[..i] + rest[i + 1..];
    }
  }

  ghost predicate AllBelow(sorted: seq<Phase>, rest: seq<Phase>) {
    forall s, r :: s in sorted && r in rest ==> s.order <= r.order
  }

  /** Moving a least phase of the rest behind the sorted ones keeps the sort going. */
  lemma MoveLeast(sorted: seq<Phase>, rest: seq<Phase>, i: nat)
    requires SortedByOrder(sorted) && AllBelow(sorted, rest) && IsLeast(rest, i)
    ensures var remaining := rest[..i] + rest[i + 1..];
      && SortedByOrder(sorted + [rest[i]])
      && AllBelow(sorted + [rest[i]], remaining)
      && multiset(sorted + [rest[i]]) + multiset(remaining) == multiset(sorted) + multiset(rest)
  {
    var remaining := rest[..i] + rest[i + 1..];
    assert rest == rest[..i] + [rest[i]] + rest[i + 1..];
    assert forall r :: r in remaining ==> r in rest;
    assert forall s :: s in sorted ==> s.order <= rest[i].order;
  }

  predicate IsLeast(phases: seq<Phase>, i: int) {
    0 <= i < |phases| && forall j :: 0 <= j < |phases| ==> phases[i].order <= phases[j].order
  }

  lemma LeastOrderExists(phases: seq<Phase>)
    requires phases != []
    ensures exists i :: IsLeast(phases, i)
  {
    var least := 0;
    for k := 1 to |phases|
      invariant 0 <= least < |phases|
      invariant forall j :: 0 <= j < k ==> phases[least].order <= phases[j].order
    {
      if phases[k].order < phases[least].order {
        least := k;
      }
    }
    assert IsLeast(phases, least);
  }

  /** The call is of a component of the phase whose dependencies are completed, with its own result. */
  ghost predicate ProperCall(p: nat, phase: Phase, completed: set<string>, results: Results, call: Call) {
    && call.phase == p
    && IsListed(phase, call.component)
    && (forall d :: d in call.component.dependsOn ==> d in completed)
    && call.ok == ResultOf(results, p, call.component.name)
  }

  /** Two calls of one phase, in this order: different components, and the first is no reason to stop. */
  ghost predicate InOrder(g: Graph, first: Call, second: Call) {
    && first.component.name != second.component.name
    && (first.component.blocking ==> first.ok)
    && (second.component.name in Deps(g, first.component.name) ==>
          Reaches(g, second.component.name, first.component.name))
  }

  /** What the calls of one phase look like, whether or not it succeeds. */
  ghost predicate PhaseCalls(p: nat, phase: Phase, completed: set<string>, results: Results, calls: seq<Call>) {
    && (forall i :: 0 <= i < |calls| ==> ProperCall(p, phase, completed, results, calls[i]))
    && (forall i, j :: 0 <= i < j < |calls| ==> InOrder(PhaseGraph(phase.components), calls[i], calls[j]))
  }

  ghost predicate Called(calls: seq<Call>, name: string) {
    exists i :: 0 <= i < |calls| && calls[i].component.name == name
  }

  /** A component of the phase that did not run although the phase came to it, for want of a dependency. */
  ghost predicate Waits(phase: Phase, completed: set<string>, calls: seq<Call>, c: Component) {
    IsListed(phase, c) && !Called(calls, c.name) && exists d :: d in c.dependsOn && d !in completed
  }

  /** Why a phase ended early: at a component that waits, or right after a blocking one that failed. */
  ghost predicate Stopped(phase: Phase, completed: set<string>, calls: seq<Call>) {
    || (exists c :: Waits(phase, completed, calls, c))
    || (calls != [] && calls[|calls| - 1].component.blocking && !calls[|calls| - 1].ok)
  }

  /** The state of the phase loop after the names in `seen`. */
  ghost predicate PhaseProgress(p: nat, phase: Phase, completed: set<string>, results: Results, seen: seq<string>,
                                calls: seq<Call>) {
    && PhaseCalls(p, phase, completed, results, calls)
    && (forall i :: 0 <= i < |calls| ==>
          calls[i].component.name in seen && (calls[i].component.blocking ==> calls[i].ok))
    && (forall n :: n in seen && n in ComponentNames(phase.components) ==> Called(calls, n))
  }

  /** A name that comes after another in a sorted list and is needed by it lies on a cycle with it. */
  lemma LaterNeedsCycle(g: Graph, sorted: seq<string>, k: nat, name: string)
    requires NoDuplicates(sorted) && OrderedUpToCycles(g, sorted) && k < |sorted| && name in sorted[..k]
    ensures sorted[k] in Deps(g, name) ==> Reaches(g, sorted[k], name)
  {
    var a :| 0 <= a < k && sorted[a] == name;
    assert sorted[k] !in sorted[..a];
  }

  lemma ExtendPhase(p: nat, phase: Phase, completed: set<string>, results: Results, sorted: seq<string>, k: nat,
                    calls: seq<Call>, c: Component)
    requires NoDuplicates(sorted) && OrderedUpToCycles(PhaseGraph(phase.components), sorted) && k < |sorted|
    requires PhaseProgress(p, phase, completed, results, sorted[..k], calls)
    requires c.name == sorted[k] && IsListed(phase, c) && forall d :: d in c.dependsOn ==> d in completed
    ensures var ok := ResultOf(results, p, c.name);
      var longer := calls + [Call(p, c, ok)];
      && PhaseCalls(p, phase, completed, results, longer)
      && (c.blocking && !ok ==> Stopped(phase, completed, longer) && !BlockingSucceed(p, phase, results))
      && (!c.blocking || ok ==> PhaseProgress(p, phase, completed, results, sorted[..k + 1], longer))
  {
    var longer := calls + [Call(p, c, ResultOf(results, p, c.name))];
    assert forall i :: 0 <= i < |calls| ==> longer[i] == calls[i];
    assert longer[|calls|] == Call(p, c, ResultOf(results, p, c.name));
    assert sorted[..k + 1] == sorted[..k] + [c.name];
    forall i | 0 <= i < |calls|
      ensures InOrder(PhaseGraph(phase.components), longer[i], longer[|calls|])
    {
      LaterNeedsCycle(PhaseGraph(phase.components), sorted, k, calls[i].component.name);
    }
    forall n | Called(calls, n)
      ensures Called(longer, n)
    {
      var i :| 0 <= i < |calls| && calls[i].component.name == n;
      assert longer[i].component.name == n;
    }
    assert Called(longer, c.name);
  }

  method AllCompleted(deps: seq<string>, completed: set<string>) returns (all: bool)
    ensures all <==> forall d :: d in deps ==> d in completed
  {
    for i := 0 to |deps|
      invariant forall j :: 0 <= j < i ==> deps[j] in completed
    {
      if deps[i] !in completed {
        assert deps[i] in deps;
        return false;
      }
    }
    return true;
  }

  /** Manifests, scripts and health check of one component. */
  method ExecuteComponent(p: nat, comp: Component, results: Results) returns (ok: bool)
    ensures ok == ResultOf(results, p, comp.name)
  {
    ok := ResultOf(results, p, comp.name);
  }

  /** Passes exactly when all dependencies are completed and no blocking component fails; else it stops for a reason. */
  method ExecutePhase(p: nat, phase: Phase, completed: set<string>, results: Results)
      returns (ok: bool, calls: seq<Call>)
    ensures PhaseCalls(p, phase, completed, results, calls)
    ensures ok <==> DependenciesMet(phase, completed) && BlockingSucceed(p, phase, results)
    ensures ok ==> forall n :: n in ComponentNames(phase.components) ==> Called(calls, n)
    ensures !ok ==> Stopped(phase, completed, calls)
  {
    var sorted := SortedNames(phase.components);
    calls := [];
    for k := 0 to |sorted|
      invariant PhaseProgress(p, phase, completed, results, sorted[..k], calls)
    {
      assert sorted[..k + 1] == sorted[..k] + [sorted[k]];
      var found := FindComponent(phase.components, sorted[k]);
      if found.None? {
        continue;
      }
      var comp := found.value;
      assert IsListed(phase, comp);
      var ready := AllCompleted(comp.dependsOn, completed);
      if !ready {
        NotCalledYet(sorted, k, calls);
        assert Waits(phase, completed, calls, comp);
        return false, calls;
      }
      var success := ExecuteComponent(p, comp, results);
      ExtendPhase(p, phase, completed, results, sorted, k, calls, comp);
      calls := calls + [Call(p, comp, success)];
      if !success && comp.blocking {
        return false, calls;
      }
    }
    assert sorted[..|sorted|] == sorted;
    AllRunMeansPassed(p, phase, completed, results, calls);
    return true, calls;
  }

  lemma NotCalledYet(sorted: seq<string>, k: nat, calls: seq<Call>)
    requires NoDuplicates(sorted) && k < |sorted|
    requires forall i :: 0 <= i < |calls| ==> calls[i].component.name in sorted[..k]
    ensures !Called(calls, sorted[k])
  {
    assert sorted[k] !in sorted[..k];
  }

  /** The order in which a phase looks at its components. */
  method SortedNames(components: seq<Component>) returns (sorted: seq<string>)
    ensures NoDuplicates(sorted) && OrderedUpToCycles(PhaseGraph(components), sorted)
    ensures forall n :: n in ComponentNames(components) ==> n in sorted
  {
    var graph := BuildDependencyGraph(components);
    var order := RangeKeys(graph);
    sorted := TopologicalSort(graph, order);
    forall n | n in ComponentNames(components)
      ensures n in sorted
    {
      ReachesSelf(graph, n);
    }
  }

  lemma AllRunMeansPassed(p: nat, phase: Phase, completed: set<string>, results: Results, calls: seq<Call>)
    requires PhaseCalls(p, phase, completed, results, calls)
    requires forall i :: 0 <= i < |calls| ==> (calls[i].component.blocking ==> calls[i].ok)
    requires forall n :: n in ComponentNames(phase.components) ==> Called(calls, n)
    ensures DependenciesMet(phase, completed) && BlockingSucceed(p, phase, results)
  {
    forall c | IsListed(phase, c)
      ensures (c.blocking ==> ResultOf(results, p, c.name)) && forall d :: d in c.dependsOn ==> d in completed
    {
      assert Called(calls, c.name);
      var i :| 0 <= i < |calls| && calls[i].component.name == c.name;
      assert ProperCall(p, phase, completed, results, calls[i]);
    }
  }

  // ----- Whole runs

  /** What decides a phase: its own components and the names that earlier phases list. */
  ghost predicate PhasePasses(phases: seq<Phase>, p: nat, results: Results)
    requires p < |phases|
  {
    DependenciesMet(phases[p], NamesBefore(phases, p)) && BlockingSucceed(p, phases[p], results)
  }

  /** The calls of one phase within a run. */
  ghost predicate Handled(phases: seq<Phase>, p: nat, results: Results, calls: seq<Call>)
    requires p < |phases|
  {
    && PhaseCalls(p, phases[p], NamesBefore(phases, p), results, calls)
    && (PhasePasses(phases, p, results) ==>
          forall n :: n in ComponentNames(phases[p].components) ==> Called(calls, n))
    && (!PhasePasses(phases, p, results) ==> Stopped(phases[p], NamesBefore(phases, p), calls))
  }

  /** A trace is the calls of the handled phases, one phase after the other. */
  ghost predicate IsTrace(phases: seq<Phase>, handled: nat, results: Results, calls: seq<seq<Call>>)
    requires handled <= |phases|
  {
    |calls| == handled && forall p :: 0 <= p < handled ==> Handled(phases, p, results, calls[p])
  }

  /** All blocking phases among the first n pass. */
  ghost predicate BlockingPass(phases: seq<Phase>, n: nat, results: Results)
    requires n <= |phases|
  {
    forall p :: 0 <= p < n && phases[p].blocking ==> PhasePasses(phases, p, results)
  }

  lemma PassNext(phases: seq<Phase>, n: nat, results: Results)
    requires n < |phases| && BlockingPass(phases, n, results)
    ensures BlockingPass(phases, n + 1, results) <==> (phases[n].blocking ==> PhasePasses(phases, n, results))
    ensures phases[n].blocking && !PhasePasses(phases, n, results) ==> !BlockingPass(phases, |phases|, results)
  {
  }

  lemma TraceNext(phases: seq<Phase>, n: nat, results: Results, calls: seq<seq<Call>>, more: seq<Call>)
    requires n < |phases| && IsTrace(phases, n, results, calls) && Handled(phases, n, results, more)
    ensures IsTrace(phases, n + 1, results, calls + [more])
  {
    var longer := calls + [more];
    assert forall p :: 0 <= p < n ==> longer[p] == calls[p];
  }

  /**
   Every run handles the phases in non-decreasing order and stops after the first
   blocking one that does not pass; it succeeds exactly when there is none. What
   is called in a phase, blocking or not, follows from its components, the names
   listed in earlier phases and the results of the components alone.
   */
  method ExecuteUpgradeGraph(phases: seq<Phase>, results: Results)
      returns (ok: bool, sorted: seq<Phase>, handled: nat, calls: seq<seq<Call>>)
    ensures SortedByOrder(sorted) && multiset(sorted) == multiset(phases) && handled <= |sorted|
    ensures IsTrace(sorted, handled, results, calls)
    ensures ok <==> BlockingPass(sorted, |sorted|, results)
    ensures ok ==> handled == |sorted|
    ensures !ok ==> handled > 0 && sorted[handled - 1].blocking && !PhasePasses(sorted, handled - 1, results)
    ensures !ok ==> BlockingPass(sorted, handled - 1, results)
  {
    sorted := SortPhases(phases);
    var completed := {};
    calls := [];
    handled := 0;
    while handled < |sorted|
      invariant handled <= |sorted|
      invariant completed == NamesBefore(sorted, handled)
      invariant IsTrace(sorted, handled, results, calls)
      invariant BlockingPass(sorted, handled, results)
    {
      var passed, more := HandlePhase(sorted, handled, completed, results);
      TraceNext(sorted, handled, results, calls, more);
      PassNext(sorted, handled, results);
      calls := calls + [more];
      handled := handled + 1;
      if !passed && sorted[handled - 1].blocking {
        return false, sorted, handled, calls;
      }
      completed := completed + ComponentNames(sorted[handled - 1].components);
    }
    return true, sorted, handled, calls;
  }

  /** One iteration of the loop over the phases, up to its error check. */
  method HandlePhase(phases: seq<Phase>, p: nat, completed: set<string>, results: Results)
      returns (passed: bool, calls: seq<Call>)
    requires p < |phases| && completed == NamesBefore(phases, p)
    ensures passed <==> PhasePasses(phases, p, results)
    ensures Handled(phases, p, results, calls)
  {
    passed, calls := ExecutePhase(p, phases[p], completed, results);
  }

  /** A name counts as completed in phase `p` exactly when an earlier phase lists it. */
  lemma {:induction false} NamesBeforeAreEarlier(phases: seq<Phase>, p: nat, name: string)
    requires p <= |phases|
    ensures name in NamesBefore(phases, p) <==>
      exists q :: 0 <= q < p && name in ComponentNames(phases[q].components)
  {
    if p > 0 {
      NamesBeforeAreEarlier(phases, p - 1, name);
    }
  }

  /**
   The sort inside a phase never helps: a dependency on a component of the same
   or a later phase leaves the dependencies of that phase unmet in every run.
   */
  lemma SamePhaseDependencyIsNeverMet(phases: seq<Phase>, p: nat, c: Component, d: string)
    requires p < |phases| && IsListed(phases[p], c) && d in c.dependsOn
    requires forall q :: 0 <= q < p ==> d !in ComponentNames(phases[q].components)
    ensures forall results :: !PhasePasses(phases, p, results)
  {
    NamesBeforeAreEarlier(phases, p, d);
  }
}
