/**
 The depth-first dependency sort shared by the upgrade graph executor, the
 addon upgrade and (without its guard) the self-upgrade controller.

 A graph maps a name to the names it depends on. Names that occur only as a
 dependency are allowed, and so are cycles. The order in which the source
 iterates over the keys of a Go map is arbitrary; here it is the parameter
 `order`, and every result holds for every enumeration of the keys.
 */
module DependencyGraph {

  type Graph = map<string, seq<string>>

  function Deps(g: Graph, name: string): seq<string> {
    if name in g then g[name] else []
  }

  /** Every name the sort can meet: the keys and everything they mention. */
  function Names(g: Graph): set<string> {
    g.Keys + set k, d | k in g.Keys && d in g[k] :: d
  }

  /** A walk follows dependency edges; a single name is a walk of length one. */
  ghost predicate IsWalk(g: Graph, walk: seq<string>) {
    |walk| > 0 && forall i, j :: 0 <= i < j < |walk| && j == i + 1 ==> walk[j] in Deps(g, walk[i])
  }

  /** `y` is `x` itself or a direct or transitive dependency of `x`. */
  ghost predicate Reaches(g: Graph, x: string, y: string) {
    exists walk :: IsWalk(g, walk) && walk[0] == x && walk[|walk| - 1] == y
  }

  ghost predicate Acyclic(g: Graph) {
    forall u, d :: d in Deps(g, u) ==> !Reaches(g, d, u)
  }

  ghost predicate NoDuplicates(s: seq<string>) {
    forall i, j :: 0 <= i < j < |s| ==> s[i] != s[j]
  }

  /** `order` visits each key of `g` once, in whatever order. */
  ghost predicate Enumerates(order: seq<string>, g: Graph) {
    NoDuplicates(order) && forall n :: n in order <==> n in g
  }

  /** Each listed name comes after all of its dependencies. */
  ghost predicate DependenciesFirst(g: Graph, s: seq<string>) {
    forall j, d :: 0 <= j < |s| && d in Deps(g, s[j]) ==> d in s[..j]
  }

  /** The ordering the sort keeps on every graph: only an edge on a cycle may be out of order. */
  ghost predicate OrderedUpToCycles(g: Graph, s: seq<string>) {
    forall j, d :: 0 <= j < |s| && d in Deps(g, s[j]) ==> d in s[..j] || Reaches(g, d, s[j])
  }

  // ----- Reachability

  lemma ReachesSelf(g: Graph, x: string)
    ensures Reaches(g, x, x)
  {
    assert IsWalk(g, [x]);
  }

  lemma ReachesStep(g: Graph, x: string, y: string, d: string)
    requires Reaches(g, x, y) && d in Deps(g, y)
    ensures Reaches(g, x, d)
  {
    var walk :| IsWalk(g, walk) && walk[0] == x && walk[|walk| - 1] == y;
    var longer := walk + [d];
    assert IsWalk(g, longer);
    assert longer[0] == x && longer[|longer| - 1] == d;
  }

  lemma ReachesFirstStep(g: Graph, x: string, d: string, y: string)
    requires d in Deps(g, x) && Reaches(g, d, y)
    ensures Reaches(g, x, y)
  {
    var walk :| IsWalk(g, walk) && walk[0] == d && walk[|walk| - 1] == y;
    var longer := [x] + walk;
    assert IsWalk(g, longer);
    assert longer[0] == x && longer[|longer| - 1] == y;
  }

  /** A set closed under dependencies holds everything its members reach. */
  lemma {:induction false} ClosedUnderWalk(g: Graph, closed: set<string>, walk: seq<string>)
    requires IsWalk(g, walk) && walk[0] in closed
    requires forall x, d :: x in closed && d in Deps(g, x) ==> d in closed
    ensures walk[|walk| - 1] in closed
    decreases |walk|
  {
    if |walk| > 1 {
      ClosedUnderWalk(g, closed, walk[1..]);
    }
  }

  // ----- The sort as a function of the iteration order

  /** The variables the recursive closure of the source captures. */
  datatype State = State(visited: set<string>, inProgress: set<string>, result: seq<string>)

  const START := State({}, {}, [])

  ghost function Unseen(g: Graph, s: State): set<string> {
    Names(g) - s.visited - s.inProgress
  }

  function Visit(g: Graph, name: string, s: State): (r: State)
    requires name in Names(g)
    ensures s.visited <= r.visited && r.inProgress == s.inProgress
    decreases Unseen(g, s), 0, 0
  {
    if name in s.visited || name in s.inProgress then s
    else
      assert name in Unseen(g, s);
      var inner := VisitAll(g, Deps(g, name), s.(inProgress := s.inProgress + {name}));
      State(inner.visited + {name}, inner.inProgress - {name}, inner.result + [name])
  }

  function VisitAll(g: Graph, names: seq<string>, s: State): (r: State)
    requires forall n :: n in names ==> n in Names(g)
    ensures s.visited <= r.visited && r.inProgress == s.inProgress
    decreases Unseen(g, s), 1, |names|
  {
    if names == [] then s else VisitAll(g, names[1..], Visit(g, names[0], s))
  }

  /** The list `topologicalSort` returns when the keys come in the given order. */
  function Sorted(g: Graph, order: seq<string>): seq<string>
    requires forall n :: n in order ==> n in g
  {
    VisitAll(g, order, START).result
  }

  // ----- What the recursion keeps

  ghost predicate SortInvariant(g: Graph, s: State) {
    && NoDuplicates(s.result)
    && (forall x :: x in s.result <==> x in s.visited)
    && s.visited !! s.inProgress
    && OrderedUpToCycles(g, s.result)
    && (forall x, d :: x in s.visited && d in Deps(g, x) ==> d in s.visited || d in s.inProgress)
  }

  /** All names being visited are ancestors of the name about to be visited. */
  ghost predicate StackReaches(g: Graph, s: State, name: string) {
    forall p :: p in s.inProgress ==> Reaches(g, p, name)
  }

  ghost predicate ReachedFrom(g: Graph, names: seq<string>, x: string) {
    exists n :: n in names && Reaches(g, n, x)
  }

  lemma {:induction false} VisitKeeps(g: Graph, name: string, s: State)
    requires name in Names(g) && SortInvariant(g, s) && StackReaches(g, s, name)
    ensures var r := Visit(g, name, s);
      && SortInvariant(g, r)
      && (name in r.visited || name in s.inProgress)
      && (forall x :: x in r.visited && x !in s.visited ==> Reaches(g, name, x))
    decreases Unseen(g, s), 0, 0
  {
    if name !in s.visited && name !in s.inProgress {
      assert name in Unseen(g, s);
      var deps := Deps(g, name);
      var entered := s.(inProgress := s.inProgress + {name});
      forall p, d | p in entered.inProgress && d in deps
        ensures Reaches(g, p, d)
      {
        ReachesSelf(g, name);
        ReachesStep(g, p, name, d);
      }
      VisitAllKeeps(g, deps, entered);
      var inner := VisitAll(g, deps, entered);
      ReachesSelf(g, name);
      forall x | x in inner.visited && x !in s.visited
        ensures Reaches(g, name, x)
      {
        var d :| d in deps && Reaches(g, d, x);
        ReachesFirstStep(g, name, d, x);
      }
      AppendKeepsOrder(g, inner.result, name);
    }
  }

  lemma AppendKeepsOrder(g: Graph, s: seq<string>, name: string)
    requires OrderedUpToCycles(g, s)
    requires forall d :: d in Deps(g, name) ==> d in s || Reaches(g, d, name)
    ensures OrderedUpToCycles(g, s + [name])
  {
    var longer := s + [name];
    forall j, d | 0 <= j < |longer| && d in Deps(g, longer[j])
      ensures d in longer[..j] || Reaches(g, d, longer[j])
    {
      if j < |s| {
        assert longer[j] == s[j] && longer[..j] == s[..j];
      } else {
        assert longer[..j] == s;
      }
    }
  }

  lemma {:induction false} VisitAllKeeps(g: Graph, names: seq<string>, s: State)
    requires forall n :: n in names ==> n in Names(g)
    requires SortInvariant(g, s)
    requires forall n :: n in names ==> StackReaches(g, s, n)
    ensures var r := VisitAll(g, names, s);
      && SortInvariant(g, r)
      && (forall n :: n in names ==> n in r.visited || n in s.inProgress)
      && (forall x :: x in r.visited && x !in s.visited ==> ReachedFrom(g, names, x))
    decreases Unseen(g, s), 1, |names|
  {
    if names != [] {
      VisitKeeps(g, names[0], s);
      var mid := Visit(g, names[0], s);
      forall n | n in names[1..]
        ensures n in Names(g) && StackReaches(g, mid, n)
      {
        assert n in names && StackReaches(g, s, n);
      }
      VisitAllKeeps(g, names[1..], mid);
      var r := VisitAll(g, names, s);
      assert r == VisitAll(g, names[1..], mid);
      assert names == [names[0]] + names[1..];
      forall x | x in r.visited && x !in s.visited
        ensures ReachedFrom(g, names, x)
      {
        ReachedFromOneMore(g, names, x);
      }
    }
  }

  lemma ReachedFromOneMore(g: Graph, names: seq<string>, x: string)
    requires names != []
    requires Reaches(g, names[0], x) || ReachedFrom(g, names[1..], x)
    ensures ReachedFrom(g, names, x)
  {
  }

  // ----- Main results

  /**
   On every graph, cyclic or not, and for every iteration order: the sort lists
   exactly the names reachable from the keys, each once, and a dependency comes
   first unless it lies on a cycle with its dependant.
   */
  lemma SortedIsCorrect(g: Graph, order: seq<string>)
    requires Enumerates(order, g)
    ensures NoDuplicates(Sorted(g, order))
    ensures OrderedUpToCycles(g, Sorted(g, order))
    ensures forall x :: x in Sorted(g, order) <==> exists k :: k in g && Reaches(g, k, x)
  {
    VisitAllKeeps(g, order, START);
    var r := VisitAll(g, order, START);
    forall x | exists k :: k in g && Reaches(g, k, x)
      ensures x in r.result
    {
      var k :| k in g && Reaches(g, k, x);
      var walk :| IsWalk(g, walk) && walk[0] == k && walk[|walk| - 1] == x;
      assert k in order;
      ClosedUnderWalk(g, r.visited, walk);
    }
  }

  /** When every dependency is a key itself, the sort rearranges the keys. */
  lemma ClosedGraphSortsItsKeys(g: Graph, order: seq<string>)
    requires Enumerates(order, g)
    requires forall k, d :: k in g && d in Deps(g, k) ==> d in g
    ensures NoDuplicates(Sorted(g, order))
    ensures forall x :: x in Sorted(g, order) <==> x in g
  {
    SortedIsCorrect(g, order);
    forall x
      ensures x in Sorted(g, order) <==> x in g
    {
      if x in g {
        ReachesSelf(g, x);
      }
      if k :| k in g && Reaches(g, k, x) {
        var walk :| IsWalk(g, walk) && walk[0] == k && walk[|walk| - 1] == x;
        ClosedUnderWalk(g, g.Keys, walk);
      }
    }
  }

  /** Without cycles every dependency precedes its dependant. */
  lemma AcyclicSortedHasDependenciesFirst(g: Graph, order: seq<string>)
    requires Enumerates(order, g) && Acyclic(g)
    ensures DependenciesFirst(g, Sorted(g, order))
    ensures forall k :: k in g ==> k in Sorted(g, order)
  {
    SortedIsCorrect(g, order);
    forall k | k in g
      ensures k in Sorted(g, order)
    {
      ReachesSelf(g, k);
    }
  }

  /** Precedence extends to transitive dependencies. */
  lemma {:induction false} TransitiveDependenciesFirst(g: Graph, s: seq<string>, j: nat, walk: seq<string>)
    requires DependenciesFirst(g, s) && j < |s|
    requires IsWalk(g, walk) && |walk| > 1 && walk[0] == s[j]
    ensures walk[|walk| - 1] in s[..j]
    decreases |walk|
  {
    assert walk[1] in Deps(g, s[j]);
    var i :| 0 <= i < j && s[i] == walk[1];
    if |walk| > 2 {
      TransitiveDependenciesFirst(g, s, i, walk[1..]);
      assert s[..i] <= s[..j];
    }
  }

  /** Visiting names that are all visited already changes nothing. */
  lemma {:induction false} VisitedNamesAreSkipped(g: Graph, names: seq<string>, s: State)
    requires forall n :: n in names ==> n in Names(g) && n in s.visited
    ensures VisitAll(g, names, s) == s
    decreases |names|
  {
    if names != [] {
      VisitedNamesAreSkipped(g, names[1..], s);
    }
  }

  lemma {:induction false} OrderedSuffixIsKept(g: Graph, order: seq<string>, i: nat, s: State)
    requires Enumerates(order, g) && DependenciesFirst(g, order) && i <= |order|
    requires s.result == order[..i] && s.inProgress == {} && forall x :: x in s.visited <==> x in order[..i]
    ensures VisitAll(g, order[i..], s).result == order
    decreases |order| - i
  {
    if i < |order| {
      var name := order[i];
      assert name !in s.visited;
      var entered := s.(inProgress := s.inProgress + {name});
      VisitedNamesAreSkipped(g, Deps(g, name), entered);
      var next := Visit(g, name, s);
      assert next.result == order[..i + 1];
      assert order[i..][1..] == order[i + 1..];
      OrderedSuffixIsKept(g, order, i + 1, next);
    }
  }

  /** A list that already respects its dependencies is a fixed point of the sort, and nothing else is. */
  lemma OrderedListIsKept(g: Graph, order: seq<string>)
    requires Enumerates(order, g) && Acyclic(g)
    ensures Sorted(g, order) == order <==> DependenciesFirst(g, order)
  {
    AcyclicSortedHasDependenciesFirst(g, order);
    if DependenciesFirst(g, order) {
      OrderedSuffixIsKept(g, order, 0, START);
      assert order[0..] == order;
    }
  }

  // ----- The recursive closure and its driving loop

  method VisitNode(g: Graph, name: string, s: State) returns (r: State)
    requires name in Names(g)
    ensures r == Visit(g, name, s)
    decreases Unseen(g, s)
  {
    if name in s.visited { return s; }
    if name in s.inProgress { return s; }
    assert name in Unseen(g, s);
    r := s.(inProgress := s.inProgress + {name});
    ghost var entered := r;
    if name in g {
      var deps := g[name];
      assert forall d :: d in deps ==> d in Names(g);
      for i := 0 to |deps|
        invariant s.visited <= r.visited && r.inProgress == entered.inProgress
        invariant VisitAll(g, deps[i..], r) == VisitAll(g, deps, entered)
      {
        assert deps[i..][1..] == deps[i + 1..];
        r := VisitNode(g, deps[i], r);
      }
    }
    r := State(r.visited + {name}, r.inProgress - {name}, r.result + [name]);
  }

  method TopologicalSort(g: Graph, order: seq<string>) returns (result: seq<string>)
    requires Enumerates(order, g)
    ensures result == Sorted(g, order)
    ensures NoDuplicates(result) && OrderedUpToCycles(g, result)
    ensures forall x :: x in result <==> exists k :: k in g && Reaches(g, k, x)
    ensures Acyclic(g) ==> DependenciesFirst(g, result)
  {
    var s := START;
    for i := 0 to |order|
      invariant s.inProgress == {}
      invariant VisitAll(g, order[i..], s) == VisitAll(g, order, START)
    {
      assert order[i..][1..] == order[i + 1..];
      s := VisitNode(g, order[i], s);
    }
    result := s.result;
    SortedIsCorrect(g, order);
  }
}
