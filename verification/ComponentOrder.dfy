/**
 The order in which the SelfUpgrade controller upgrades its components. Its sort
 has no guard against cycles and the validation does not reject them. The sort is
 therefore modelled with the depth of calls that the stack has room for: beyond
 it the process dies.
 */
module ComponentOrder {
  import opened Wrappers
  import opened Sequences
  import opened DependencyGraph

  datatype Component = Component(name: string, dependsOn: seq<string>, blocking: bool, healthCheck: bool)

  // ----- Components and their order

  function NamesOf(components: seq<Component>): seq<string> {
    seq(|components|, i requires 0 <= i < |components| => components[i].name)
  }

  function ComponentGraph(components: seq<Component>): (g: Graph)
    ensures forall n :: n in g <==> n in NamesOf(components)
  {
    if components == [] then map[]
    else
      var last := |components| - 1;
      assert NamesOf(components) == NamesOf(components[..last]) + [components[last].name];
      ComponentGraph(components[..last])[components[last].name := components[last].dependsOn]
  }

  /** What `validateComponents` accepts: distinct names and known dependencies, but possibly a cycle. */
  ghost predicate ValidComponents(components: seq<Component>) {
    && NoDuplicates(NamesOf(components))
    && forall i, d :: 0 <= i < |components| && d in components[i].dependsOn ==> d in NamesOf(components)
  }

  ghost predicate Sortable(components: seq<Component>) {
    ValidComponents(components) && Acyclic(ComponentGraph(components))
  }

  /** The names in the order in which they are upgraded. */
  function UpgradeOrder(components: seq<Component>): seq<string> {
    Sorted(ComponentGraph(components), NamesOf(components))
  }

  lemma {:induction false} GraphHoldsDependencies(components: seq<Component>, i: nat)
    requires NoDuplicates(NamesOf(components)) && i < |components|
    ensures components[i].name in ComponentGraph(components)
    ensures ComponentGraph(components)[components[i].name] == components[i].dependsOn
  {
    var last := |components| - 1;
    assert NamesOf(components[..last]) == NamesOf(components)[..last];
    if i < last {
      assert NamesOf(components)[i] != NamesOf(components)[last];
      GraphHoldsDependencies(components[..last], i);
    }
  }

  lemma DependenciesAreKnown(components: seq<Component>)
    requires ValidComponents(components)
    ensures forall k, d :: k in ComponentGraph(components) && d in Deps(ComponentGraph(components), k) ==>
      d in ComponentGraph(components)
  {
    var g := ComponentGraph(components);
    forall k, d | k in g && d in Deps(g, k)
      ensures d in g
    {
      var i :| 0 <= i < |components| && NamesOf(components)[i] == k;
      GraphHoldsDependencies(components, i);
    }
  }

  lemma OrderIsComplete(components: seq<Component>)
    requires Sortable(components)
    ensures NoDuplicates(UpgradeOrder(components))
    ensures DependenciesFirst(ComponentGraph(components), UpgradeOrder(components))
    ensures forall n :: n in UpgradeOrder(components) <==> n in NamesOf(components)
  {
    var g := ComponentGraph(components);
    DependenciesAreKnown(components);
    ClosedGraphSortsItsKeys(g, NamesOf(components));
    AcyclicSortedHasDependenciesFirst(g, NamesOf(components));
  }

  /** On distinct declared names the order has as many entries as there are components. */
  lemma OrderLength(components: seq<Component>)
    requires Sortable(components)
    ensures |UpgradeOrder(components)| == |components|
  {
    OrderIsComplete(components);
    SameNamesSameLength(UpgradeOrder(components), NamesOf(components));
  }

  lemma SameNamesSameLength(a: seq<string>, b: seq<string>)
    requires NoDuplicates(a) && NoDuplicates(b) && forall n :: n in a <==> n in b
    ensures |a| == |b|
  {
    DistinctSize(a);
    DistinctSize(b);
    assert Elements(a) == Elements(b);
  }

  // ----- The sort of this controller: no guard against cycles

  datatype Partial = Partial(visited: set<string>, result: seq<string>)

  /** The recursive closure, for at most `depth` nested visits; None when that is not enough. */
  ghost function DeepVisit(g: Graph, name: string, s: Partial, depth: nat): Option<Partial>
    decreases depth, 0, 0
  {
    if name in s.visited then Some(s)
    else if depth == 0 then None
    else match DeepVisitAll(g, Deps(g, name), s, depth - 1)
      case None => None
      case Some(inner) => Some(Partial(inner.visited + {name}, inner.result + [name]))
  }

  ghost function DeepVisitAll(g: Graph, names: seq<string>, s: Partial, depth: nat): Option<Partial>
    decreases depth, 1, |names|
  {
    if names == [] then Some(s)
    else match DeepVisit(g, names[0], s, depth)
      case None => None
      case Some(mid) => DeepVisitAll(g, names[1..], mid, depth)
  }

  ghost function DeepSort(components: seq<Component>, depth: nat): Option<Partial> {
    DeepVisitAll(ComponentGraph(components), NamesOf(components), Partial({}, []), depth)
  }

  /** The visited names are closed under dependencies and none of them lies on a cycle. */
  ghost predicate Sound(g: Graph, visited: set<string>) {
    forall x, d :: x in visited && d in Deps(g, x) ==> d in visited && !Reaches(g, d, x)
  }

  /** If all dependencies of a name are visited soundly, the name is not on a cycle either. */
  lemma NotOnCycle(g: Graph, visited: set<string>, name: string)
    requires Sound(g, visited) && forall d :: d in Deps(g, name) ==> d in visited
    ensures Sound(g, visited + {name})
  {
    forall d | d in Deps(g, name)
      ensures !Reaches(g, d, name)
    {
      if walk :| IsWalk(g, walk) && walk[0] == d && walk[|walk| - 1] == name {
        ClosedUnderWalk(g, visited, walk);
      }
    }
  }

  lemma {:induction false} DeepVisitIsSound(g: Graph, name: string, s: Partial, depth: nat)
    requires Sound(g, s.visited) && DeepVisit(g, name, s, depth).Some?
    ensures var r := DeepVisit(g, name, s, depth).value;
      Sound(g, r.visited) && s.visited <= r.visited && name in r.visited
    decreases depth, 0, 0
  {
    if name !in s.visited {
      DeepVisitAllIsSound(g, Deps(g, name), s, depth - 1);
      NotOnCycle(g, DeepVisitAll(g, Deps(g, name), s, depth - 1).value.visited, name);
    }
  }

  lemma {:induction false} DeepVisitAllIsSound(g: Graph, names: seq<string>, s: Partial, depth: nat)
    requires Sound(g, s.visited) && DeepVisitAll(g, names, s, depth).Some?
    ensures var r := DeepVisitAll(g, names, s, depth).value;
      Sound(g, r.visited) && s.visited <= r.visited && forall n :: n in names ==> n in r.visited
    decreases depth, 1, |names|
  {
    if names != [] {
      DeepVisitIsSound(g, names[0], s, depth);
      DeepVisitAllIsSound(g, names[1..], DeepVisit(g, names[0], s, depth).value, depth);
    }
  }

  /** More room for calls changes no result. */
  lemma {:induction false} DeeperIsSame(g: Graph, name: string, s: Partial, depth: nat, deeper: nat)
    requires depth <= deeper && DeepVisit(g, name, s, depth).Some?
    ensures DeepVisit(g, name, s, deeper) == DeepVisit(g, name, s, depth)
    decreases depth, 0, 0
  {
    if name !in s.visited {
      DeeperIsSameAll(g, Deps(g, name), s, depth - 1, deeper - 1);
    }
  }

  lemma {:induction false} DeeperIsSameAll(g: Graph, names: seq<string>, s: Partial, depth: nat, deeper: nat)
    requires depth <= deeper && DeepVisitAll(g, names, s, depth).Some?
    ensures DeepVisitAll(g, names, s, deeper) == DeepVisitAll(g, names, s, depth)
    decreases depth, 1, |names|
  {
    if names != [] {
      DeeperIsSame(g, names[0], s, depth, deeper);
      DeeperIsSameAll(g, names[1..], DeepVisit(g, names[0], s, depth).value, depth, deeper);
    }
  }

  ghost function Outcome(s: State): Partial {
    Partial(s.visited, s.result)
  }

  /** The first i names of a list with dependencies first, none of whose visits is in progress. */
  ghost predicate Ready(g: Graph, order: seq<string>, i: nat, s: State) {
    && DependenciesFirst(g, order) && NoDuplicates(order) && i <= |order|
    && (forall x :: x in order ==> x in Names(g))
    && (forall x :: x in order[..i] ==> x !in s.inProgress)
  }

  lemma ReadyBelow(g: Graph, order: seq<string>, i: nat, s: State)
    requires i < |order| && Ready(g, order, i + 1, s)
    ensures order[i] !in s.inProgress
    ensures Ready(g, order, i, s.(inProgress := s.inProgress + {order[i]}))
    ensures forall d :: d in Deps(g, order[i]) ==> d in order[..i]
  {
    assert order[..i + 1] == order[..i] + [order[i]];
    NotListedEarlier(order, i);
  }

  /** With dependencies first and one level of calls for each name up to i, the unguarded visit is the guarded one. */
  lemma {:induction false} DeepVisitIsGuarded(g: Graph, order: seq<string>, i: nat, s: State, depth: nat)
    requires i < |order| && Ready(g, order, i + 1, s) && i < depth
    ensures DeepVisit(g, order[i], Outcome(s), depth) == Some(Outcome(Visit(g, order[i], s)))
    decreases depth, 0, 0
  {
    ReadyBelow(g, order, i, s);
    if order[i] !in s.visited {
      DeepVisitAllIsGuarded(g, order, i, Deps(g, order[i]), s.(inProgress := s.inProgress + {order[i]}), depth - 1);
    }
  }

  lemma {:induction false} DeepVisitAllIsGuarded(g: Graph, order: seq<string>, i: nat, names: seq<string>, s: State,
                                                 depth: nat)
    requires Ready(g, order, i, s) && i <= depth
    requires forall n :: n in names ==> n in order[..i]
    ensures forall n :: n in names ==> n in Names(g)
    ensures DeepVisitAll(g, names, Outcome(s), depth) == Some(Outcome(VisitAll(g, names, s)))
    decreases depth, 1, |names|
  {
    if names != [] {
      assert names[0] in order[..i];
      var j :| 0 <= j < i && order[j] == names[0];
      assert order[..j + 1] <= order[..i];
      DeepVisitIsGuarded(g, order, j, s, depth);
      DeepVisitAllIsGuarded(g, order, i, names[1..], Visit(g, names[0], s), depth);
    }
  }

  lemma AcyclicSortEnds(components: seq<Component>, depth: nat)
    requires Sortable(components) && depth >= |components|
    ensures DeepSort(components, depth).Some? && DeepSort(components, depth).value.result == UpgradeOrder(components)
  {
    var g, order := ComponentGraph(components), UpgradeOrder(components);
    OrderIsComplete(components);
    OrderLength(components);
    assert order[..|order|] == order;
    DeepVisitAllIsGuarded(g, order, |order|, NamesOf(components), START, depth);
  }

  lemma EndingSortIsAcyclic(components: seq<Component>, depth: nat)
    requires ValidComponents(components) && DeepSort(components, depth).Some?
    ensures Acyclic(ComponentGraph(components))
    ensures DeepSort(components, depth).value.result == UpgradeOrder(components)
  {
    var g := ComponentGraph(components);
    DeepVisitAllIsSound(g, NamesOf(components), Partial({}, []), depth);
    assert forall u, d :: d in Deps(g, u) ==> u in NamesOf(components);
    var deeper := depth + |components|;
    DeeperIsSameAll(g, NamesOf(components), Partial({}, []), depth, deeper);
    AcyclicSortEnds(components, deeper);
  }

  /** For components that pass the validation the sort ends, at whatever depth, exactly when there is no cycle. */
  lemma SortEndsExactly(components: seq<Component>)
    requires ValidComponents(components)
    ensures (exists depth :: DeepSort(components, depth).Some?) <==> Acyclic(ComponentGraph(components))
  {
    if depth :| DeepSort(components, depth).Some? {
      EndingSortIsAcyclic(components, depth);
    }
    if Acyclic(ComponentGraph(components)) {
      AcyclicSortEnds(components, |components|);
    }
  }

  /** Two components that need each other pass the validation, and no depth is enough to sort them. */
  lemma AcceptedCycle() returns (components: seq<Component>)
    ensures ValidComponents(components) && |components| == 2
    ensures !Acyclic(ComponentGraph(components))
    ensures forall depth :: DeepSort(components, depth).None?
  {
    components := [Component("a", ["b"], true, false), Component("b", ["a"], true, false)];
    assert NamesOf(components) == ["a", "b"];
    assert ValidComponents(components);
    var g := ComponentGraph(components);
    GraphHoldsDependencies(components, 0);
    GraphHoldsDependencies(components, 1);
    assert "b" in Deps(g, "a") && "a" in Deps(g, "b");
    assert IsWalk(g, ["b", "a"]);
    assert Reaches(g, "b", "a");
    SortEndsExactly(components);
  }

  lemma NotListedEarlier(names: seq<string>, j: nat)
    requires NoDuplicates(names) && j < |names|
    ensures names[j] !in names[..j]
  {
  }

  /** The recursive closure; `ended` is false when it runs out of stack. */
  method VisitComponent(components: seq<Component>, comp: Component, visited: set<string>, sorted: seq<Component>,
                        depth: nat)
      returns (ended: bool, visited': set<string>, sorted': seq<Component>)
    requires ValidComponents(components) && comp in components
    requires forall c :: c in sorted ==> c in components
    ensures ended ==> forall c :: c in sorted' ==> c in components
    ensures DeepVisit(ComponentGraph(components), comp.name, Partial(visited, NamesOf(sorted)), depth) ==
      if ended then Some(Partial(visited', NamesOf(sorted'))) else None
    decreases depth, 0
  {
    ghost var g := ComponentGraph(components);
    ghost var at :| 0 <= at < |components| && components[at] == comp;
    GraphHoldsDependencies(components, at);
    ended, visited', sorted' := true, visited, sorted;
    if comp.name in visited {
      return;
    }
    if depth == 0 {
      ended := false;
      return;
    }
    ended, visited', sorted' := VisitDependencies(components, comp.dependsOn, visited, sorted, depth - 1);
    if ended {
      assert NamesOf(sorted' + [comp]) == NamesOf(sorted') + [comp.name];
      visited', sorted' := visited' + {comp.name}, sorted' + [comp];
    }
  }

  /** The two nested loops: every component whose name is a listed dependency is visited. */
  method VisitDependencies(components: seq<Component>, deps: seq<string>, visited: set<string>, sorted: seq<Component>,
                           depth: nat)
      returns (ended: bool, visited': set<string>, sorted': seq<Component>)
    requires ValidComponents(components)
    requires forall c :: c in sorted ==> c in components
    requires forall d :: d in deps ==> d in NamesOf(components)
    ensures ended ==> forall c :: c in sorted' ==> c in components
    ensures DeepVisitAll(ComponentGraph(components), deps, Partial(visited, NamesOf(sorted)), depth) ==
      if ended then Some(Partial(visited', NamesOf(sorted'))) else None
    decreases depth, 1
  {
    ghost var g := ComponentGraph(components);
    ended, visited', sorted' := true, visited, sorted;
    ghost var whole := DeepVisitAll(g, deps, Partial(visited, NamesOf(sorted)), depth);
    assert deps[0..] == deps;
    for k := 0 to |deps|
      invariant ended && forall c :: c in sorted' ==> c in components
      invariant DeepVisitAll(g, deps[k..], Partial(visited', NamesOf(sorted')), depth) == whole
    {
      assert deps[k..][1..] == deps[k + 1..];
      ghost var before := Partial(visited', NamesOf(sorted'));
      ghost var found := false;
      for j := 0 to |components|
        invariant ended && forall c :: c in sorted' ==> c in components
        invariant found <==> deps[k] in NamesOf(components)[..j]
        invariant found ==> DeepVisit(g, deps[k], before, depth) == Some(Partial(visited', NamesOf(sorted')))
        invariant !found ==> before == Partial(visited', NamesOf(sorted'))
      {
        assert NamesOf(components)[..j + 1] == NamesOf(components)[..j] + [components[j].name];
        if components[j].name == deps[k] {
          NotListedEarlier(NamesOf(components), j);
          ended, visited', sorted' := VisitComponent(components, components[j], visited', sorted', depth);
          if !ended { return; }
          found := true;
        }
      }
      assert NamesOf(components)[..|components|] == NamesOf(components);
    }
  }

  /** Ends exactly when there is no cycle, given stack for every component; what it returns is always in order. */
  method SortComponents(components: seq<Component>, depth: nat) returns (ended: bool, sorted: seq<Component>)
    requires ValidComponents(components)
    ensures ended ==> NamesOf(sorted) == UpgradeOrder(components) && forall c :: c in sorted ==> c in components
    ensures ended ==> DependenciesFirst(ComponentGraph(components), NamesOf(sorted))
    ensures ended ==> Acyclic(ComponentGraph(components))
    ensures Acyclic(ComponentGraph(components)) && depth >= |components| ==> ended
  {
    ghost var g := ComponentGraph(components);
    ghost var names := NamesOf(components);
    ended, sorted := true, [];
    var visited := {};
    assert names[0..] == names && NamesOf(sorted) == [];
    if Acyclic(g) && depth >= |components| {
      AcyclicSortEnds(components, depth);
    }
    for i := 0 to |components|
      invariant forall c :: c in sorted ==> c in components
      invariant DeepVisitAll(g, names[i..], Partial(visited, NamesOf(sorted)), depth) == DeepSort(components, depth)
    {
      assert names[i..][1..] == names[i + 1..];
      ended, visited, sorted := VisitComponent(components, components[i], visited, sorted, depth);
      if !ended { return; }
    }
    EndingSortIsAcyclic(components, depth);
    OrderIsComplete(components);
  }

  // ----- Rollback order

  function Reverse(names: seq<string>): (r: seq<string>)
    ensures |r| == |names| && forall i :: 0 <= i < |names| ==> r[i] == names[|names| - 1 - i]
  {
    if names == [] then [] else Reverse(names[1..]) + [names[0]]
  }

  /**
   The rollback walks the declared list backwards. That is the reverse of the
   upgrade order exactly when the declared list already respects dependencies.
   */
  lemma RollbackReversesUpgrade(components: seq<Component>)
    requires Sortable(components)
    ensures Reverse(NamesOf(components)) == Reverse(UpgradeOrder(components)) <==>
      DependenciesFirst(ComponentGraph(components), NamesOf(components))
  {
    OrderedListIsKept(ComponentGraph(components), NamesOf(components));
    ReverseIsInjective(NamesOf(components), UpgradeOrder(components));
  }

  lemma ReverseIsInjective(a: seq<string>, b: seq<string>)
    ensures Reverse(a) == Reverse(b) <==> a == b
  {
    if Reverse(a) == Reverse(b) {
      assert |a| == |b|;
      forall i | 0 <= i < |a|
        ensures a[i] == b[i]
      {
        assert Reverse(a)[|a| - 1 - i] == a[i] && Reverse(b)[|b| - 1 - i] == b[i];
      }
    }
  }
}
