/**
 Synchronising the backends of a load balancer pool with the desired ones. The
 pool is the in-memory list of the Keepalived provider; maps are iterated in any
 order. The calls made to the provider are returned as a trace.
 */
module BackendSync {

  datatype Backend = Backend(name: string, ip: string, port: int)

  predicate SameBackend(a: Backend, b: Backend) {
    a.name == b.name && a.ip == b.ip
  }

  function Registered(pool: seq<Backend>, b: Backend): seq<Backend> {
    if exists i :: 0 <= i < |pool| && SameBackend(pool[i], b) then pool else pool + [b]
  }

  /** The pool without its first entry of the same name and address. */
  function Unregistered(pool: seq<Backend>, b: Backend): seq<Backend> {
    if pool == [] then []
    else if SameBackend(pool[0], b) then pool[1..]
    else [pool[0]] + Unregistered(pool[1..], b)
  }

  /**
   After a registration a backend of that name and address is present, at most one
   entry is new, a second registration changes nothing, and an address that is new
   for its name is added beside the old one.
   */
  lemma RegisterEffect(pool: seq<Backend>, b: Backend)
    ensures var after := Registered(pool, b);
      && (exists x :: x in after && x.name == b.name && x.ip == b.ip)
      && (forall x :: x in pool ==> x in after)
      && (forall x :: x in after ==> x in pool || x == b)
      && (after == pool || after == pool + [b])
      && Registered(after, b) == after
      && ((forall x :: x in pool ==> x.name != b.name || x.ip != b.ip) ==> after == pool + [b])
  {
    var after := Registered(pool, b);
    if i :| 0 <= i < |pool| && SameBackend(pool[i], b) {
      assert pool[i] in after;
    } else {
      assert after[|pool|] == b && b in after;
      assert SameBackend(after[|pool|], b);
    }
    if forall x :: x in pool ==> x.name != b.name || x.ip != b.ip {
      forall i | 0 <= i < |pool|
        ensures !SameBackend(pool[i], b)
      {
        assert pool[i] in pool;
      }
    }
  }

  class Provider {
    var backends: seq<Backend>

    method RegisterBackend(b: Backend)
      modifies this
      ensures backends == Registered(old(backends), b)
    {
      for i := 0 to |backends|
        invariant backends == old(backends)
        invariant forall j :: 0 <= j < i ==> !SameBackend(backends[j], b)
      {
        if SameBackend(backends[i], b) { return; }
      }
      backends := backends + [b];
    }

    method UnregisterBackend(b: Backend)
      modifies this
      ensures backends == Unregistered(old(backends), b)
    {
      for i := 0 to |backends|
        invariant backends == old(backends)
        invariant Unregistered(backends, b) == backends[..i] + Unregistered(backends[i..], b)
      {
        assert backends[i..] == [backends[i]] + backends[i + 1..];
        if SameBackend(backends[i], b) {
          backends := backends[..i] + backends[i + 1..];
          return;
        }
        assert backends[..i + 1] == backends[..i] + [backends[i]];
      }
      assert backends[..|backends|] == backends;
    }

    method GetBackends() returns (current: seq<Backend>)
      ensures current == backends
    {
      current := backends;
    }
  }

  // ----- Traces

  datatype Call = Register(b: Backend) | Unregister(b: Backend)

  function After(pool: seq<Backend>, calls: seq<Call>): seq<Backend>
    decreases |calls|
  {
    if calls == [] then pool
    else ApplyCall(After(pool, calls[..|calls| - 1]), calls[|calls| - 1])
  }

  function ApplyCall(pool: seq<Backend>, call: Call): seq<Backend> {
    match call
    case Register(b) => Registered(pool, b)
    case Unregister(b) => Unregistered(pool, b)
  }

  function NamesIn(pool: seq<Backend>): set<string> {
    set b | b in pool :: b.name
  }

  function CountName(pool: seq<Backend>, name: string): nat {
    if pool == [] then 0 else (if pool[0].name == name then 1 else 0) + CountName(pool[1..], name)
  }

  /** Every backend that is registered and desired is in the pool. */
  ghost predicate KeepsDesired(old_: seq<Backend>, desired: map<string, Backend>, pool: seq<Backend>) {
    forall b :: b in old_ && b.name in desired ==> b in pool
  }

  /** Callers key the desired backends by name. */
  ghost predicate Keyed(desired: map<string, Backend>) {
    forall n :: n in desired ==> desired[n].name == n
  }

  lemma {:induction false} CountPositive(pool: seq<Backend>, name: string)
    ensures CountName(pool, name) > 0 <==> name in NamesIn(pool)
  {
    if pool != [] {
      CountPositive(pool[1..], name);
      assert pool == [pool[0]] + pool[1..];
    }
  }

  lemma {:induction false} CountAppend(pool: seq<Backend>, b: Backend, name: string)
    ensures CountName(pool + [b], name) == CountName(pool, name) + if b.name == name then 1 else 0
  {
    if pool == [] {
      assert pool + [b] == [b] && [b][1..] == [];
    } else {
      CountAppend(pool[1..], b, name);
      assert (pool + [b])[1..] == pool[1..] + [b];
    }
  }

  /** Unregistering a member takes away one entry of its name and leaves the other names alone. */
  lemma {:induction false} UnregisterEffect(pool: seq<Backend>, b: Backend)
    requires b in pool
    ensures forall n :: CountName(Unregistered(pool, b), n) == CountName(pool, n) - if n == b.name then 1 else 0
    ensures forall x :: x in Unregistered(pool, b) ==> x in pool
    ensures forall x :: x in pool && (x.name != b.name || x.ip != b.ip) ==> x in Unregistered(pool, b)
  {
    if !SameBackend(pool[0], b) {
      assert b in pool[1..];
      UnregisterEffect(pool[1..], b);
      var less := Unregistered(pool[1..], b);
      assert ([pool[0]] + less)[1..] == less;
    }
    assert pool == [pool[0]] + pool[1..];
  }

  lemma AfterNext(pool: seq<Backend>, calls: seq<Call>, call: Call)
    ensures After(pool, calls + [call]) == ApplyCall(After(pool, calls), call)
  {
    assert (calls + [call])[..|calls|] == calls;
  }

  ghost predicate KeptThroughout(pool: seq<Backend>, desired: map<string, Backend>, calls: seq<Call>) {
    forall k :: 0 <= k <= |calls| ==> KeepsDesired(pool, desired, After(pool, calls[..k]))
  }

  lemma KeptNext(pool: seq<Backend>, desired: map<string, Backend>, calls: seq<Call>, call: Call)
    requires KeptThroughout(pool, desired, calls) && KeepsDesired(pool, desired, After(pool, calls + [call]))
    ensures KeptThroughout(pool, desired, calls + [call])
  {
    var more := calls + [call];
    forall k | 0 <= k <= |more|
      ensures KeepsDesired(pool, desired, After(pool, more[..k]))
    {
      if k <= |calls| {
        assert more[..k] == calls[..k];
      } else {
        assert more[..k] == more;
      }
    }
  }

  lemma OneLess(names: set<string>, rest: set<string>, n: string)
    requires n in rest && rest <= names
    ensures (names - rest) + {n} == names - (rest - {n})
    ensures |rest - {n}| == |rest| - 1
  {
  }

  // ----- The synchronisation

  /** The last backend of each name, as the source's map holds it. */
  method CurrentByName(current: seq<Backend>) returns (byName: map<string, Backend>)
    ensures byName.Keys == NamesIn(current)
    ensures forall n :: n in byName ==> byName[n].name == n && byName[n] in current
  {
    byName := map[];
    for i := 0 to |current|
      invariant byName.Keys == NamesIn(current[..i])
      invariant forall n :: n in byName ==> byName[n].name == n && byName[n] in current
    {
      assert current[..i + 1] == current[..i] + [current[i]];
      byName := byName[current[i].name := current[i]];
    }
    assert current[..|current|] == current;
  }

  /** What the pool holds once the desired names in `added` have been registered. */
  ghost predicate Grown(pool: seq<Backend>, desired: map<string, Backend>, added: set<string>, now: seq<Backend>) {
    && (forall b :: b in now <==> b in pool || (b.name in added && b.name in desired && b == desired[b.name]))
    && (forall n :: CountName(now, n) == CountName(pool, n) + if n in added then 1 else 0)
  }

  lemma GrowOne(pool: seq<Backend>, desired: map<string, Backend>, added: set<string>, now: seq<Backend>, n: string)
    requires Grown(pool, desired, added, now) && Keyed(desired) && added <= desired.Keys
    requires n in desired && n !in added && n !in NamesIn(pool)
    ensures Grown(pool, desired, added + {n}, Registered(now, desired[n]))
  {
    var b := desired[n];
    forall i | 0 <= i < |now|
      ensures !SameBackend(now[i], b)
    {
      assert now[i] in now;
    }
    forall m
      ensures CountName(now + [b], m) == CountName(now, m) + if b.name == m then 1 else 0
    {
      CountAppend(now, b, m);
    }
  }

  /** The registrations so far: of the names in `done`, leading from `pool` to `now`. */
  ghost predicate Registering(pool: seq<Backend>, desired: map<string, Backend>, done: set<string>, calls: seq<Call>,
                              now: seq<Backend>) {
    && now == After(pool, calls)
    && Grown(pool, desired, done, now)
    && KeptThroughout(pool, desired, calls)
    && forall i :: 0 <= i < |calls| ==> calls[i].Register?
  }

  lemma RegisterStep(pool: seq<Backend>, desired: map<string, Backend>, done: set<string>, calls: seq<Call>,
                     now: seq<Backend>, n: string)
    requires Registering(pool, desired, done, calls, now) && Keyed(desired) && done <= desired.Keys
    requires n in desired && n !in done && n !in NamesIn(pool)
    ensures Registering(pool, desired, done + {n}, calls + [Register(desired[n])], Registered(now, desired[n]))
  {
    var call := Register(desired[n]);
    AfterNext(pool, calls, call);
    assert Grown(pool, desired, done + {n}, Registered(now, desired[n])) by { GrowOne(pool, desired, done, now, n); }
    assert KeepsDesired(pool, desired, Registered(now, desired[n]));
    KeptNext(pool, desired, calls, call);
  }

  method RegisterAll(p: Provider, desired: map<string, Backend>, names: set<string>, ghost pool: seq<Backend>)
      returns (calls: seq<Call>)
    requires p.backends == pool && Keyed(desired) && names <= desired.Keys && names !! NamesIn(pool)
    modifies p
    ensures |calls| == |names| && Registering(pool, desired, names, calls, p.backends)
  {
    calls := [];
    var rest := names;
    assert Registering(pool, desired, {}, [], pool);
    while rest != {}
      invariant rest <= names && |calls| == |names| - |rest|
      invariant Registering(pool, desired, names - rest, calls, p.backends)
    {
      var n :| n in rest;
      RegisterStep(pool, desired, names - rest, calls, p.backends, n);
      OneLess(names, rest, n);
      p.RegisterBackend(desired[n]);
      rest, calls := rest - {n}, calls + [Register(desired[n])];
    }
    assert names - rest == names;
  }

  /** What the pool holds once one entry of each name in `removed` has been taken from `grown`. */
  ghost predicate Shrunk(grown: seq<Backend>, removed: set<string>, now: seq<Backend>) {
    && (forall b :: b in now ==> b in grown)
    && (forall b :: b in grown && b.name !in removed ==> b in now)
    && (forall n :: CountName(now, n) == CountName(grown, n) - if n in removed then 1 else 0)
  }

  /** The removals so far: of the names in `done`, after the calls `before` had led to `grown`. */
  ghost predicate Unregistering(pool: seq<Backend>, desired: map<string, Backend>, grown: seq<Backend>,
                                before: seq<Call>, done: set<string>, calls: seq<Call>, now: seq<Backend>) {
    && now == After(pool, before + calls)
    && Shrunk(grown, done, now)
    && KeepsDesired(pool, desired, now)
    && KeptThroughout(pool, desired, before + calls)
    && forall i :: 0 <= i < |calls| ==> calls[i].Unregister?
  }

  lemma UnregisterStep(pool: seq<Backend>, desired: map<string, Backend>, grown: seq<Backend>, before: seq<Call>,
                       done: set<string>, calls: seq<Call>, now: seq<Backend>, b: Backend)
    requires Unregistering(pool, desired, grown, before, done, calls, now)
    requires b in grown && b.name !in done && b.name !in desired
    ensures Unregistering(pool, desired, grown, before, done + {b.name}, calls + [Unregister(b)], Unregistered(now, b))
  {
    UnregisterEffect(now, b);
    AfterNext(pool, before + calls, Unregister(b));
    KeptNext(pool, desired, before + calls, Unregister(b));
    assert before + calls + [Unregister(b)] == before + (calls + [Unregister(b)]);
  }

  lemma NothingUnregistered(pool: seq<Backend>, desired: map<string, Backend>, grown: seq<Backend>, before: seq<Call>)
    requires grown == After(pool, before) && KeptThroughout(pool, desired, before)
    ensures Unregistering(pool, desired, grown, before, {}, [], grown)
  {
    assert before + [] == before && before[..|before|] == before;
  }

  method UnregisterAll(p: Provider, byName: map<string, Backend>, names: set<string>, desired: map<string, Backend>,
                       ghost pool: seq<Backend>, ghost before: seq<Call>)
      returns (calls: seq<Call>)
    requires names <= byName.Keys && names !! desired.Keys
    requires forall n :: n in byName ==> byName[n].name == n && byName[n] in p.backends
    requires p.backends == After(pool, before) && KeptThroughout(pool, desired, before)
    modifies p
    ensures |calls| == |names| && Unregistering(pool, desired, old(p.backends), before, names, calls, p.backends)
  {
    calls := [];
    ghost var grown := p.backends;
    var rest := names;
    NothingUnregistered(pool, desired, grown, before);
    while rest != {}
      invariant rest <= names && |calls| == |names| - |rest|
      invariant Unregistering(pool, desired, grown, before, names - rest, calls, p.backends)
    {
      var n :| n in rest;
      UnregisterStep(pool, desired, grown, before, names - rest, calls, p.backends, byName[n]);
      OneLess(names, rest, n);
      p.UnregisterBackend(byName[n]);
      rest, calls := rest - {n}, calls + [Unregister(byName[n])];
    }
    assert names - rest == names;
  }

  /**
   Registers what is missing, then unregisters what is not desired. At every
   moment all backends that are both current and desired stay in the pool. The
   names agree with the desired ones afterwards exactly when no undesired name
   occurs twice, and the backends agree exactly when, besides, every backend kept
   by name already was the desired one. No call at all is made exactly when the
   names agreed before.
   */
  method SyncBackends(p: Provider, desired: map<string, Backend>) returns (calls: seq<Call>)
    requires Keyed(desired)
    modifies p
    ensures p.backends == After(old(p.backends), calls)
    ensures KeptThroughout(old(p.backends), desired, calls)
    ensures forall b :: b in p.backends ==> b in old(p.backends) || (b.name in desired && b == desired[b.name])
    ensures forall n :: n in desired && n !in NamesIn(old(p.backends)) ==> desired[n] in p.backends
    ensures NamesIn(p.backends) == desired.Keys <==>
      forall n :: n in NamesIn(old(p.backends)) && n !in desired ==> CountName(old(p.backends), n) == 1
    ensures IsExactly(p.backends, desired) <==>
      && (forall n :: n in NamesIn(old(p.backends)) && n !in desired ==> CountName(old(p.backends), n) == 1)
      && (forall b :: b in old(p.backends) && b.name in desired ==> b == desired[b.name])
    ensures calls == [] <==> NamesIn(old(p.backends)) == desired.Keys
    ensures forall i, j :: 0 <= i < j < |calls| && calls[i].Unregister? ==> calls[j].Unregister?
  {
    var current := p.GetBackends();
    var byName := CurrentByName(current);
    var toAdd := desired.Keys - byName.Keys;
    var toRemove := byName.Keys - desired.Keys;
    var added := RegisterAll(p, desired, toAdd, current);
    ghost var grown := p.backends;
    var removed := UnregisterAll(p, byName, toRemove, desired, current, added);
    calls := added + removed;
    FinalNames(current, desired, grown, p.backends);
    FinalBackends(current, desired, grown, p.backends);
    RegistrationsFirst(added, removed);
    NoDifference(desired.Keys, byName.Keys);
  }

  lemma RegistrationsFirst(added: seq<Call>, removed: seq<Call>)
    requires forall i :: 0 <= i < |added| ==> added[i].Register?
    requires forall i :: 0 <= i < |removed| ==> removed[i].Unregister?
    ensures var calls := added + removed;
      forall i, j :: 0 <= i < j < |calls| && calls[i].Unregister? ==> calls[j].Unregister?
  {
  }

  lemma NoDifference(a: set<string>, b: set<string>)
    ensures |a - b| + |b - a| == 0 <==> a == b
  {
    if |a - b| + |b - a| == 0 {
      assert a - b == {} && b - a == {};
    }
  }

  lemma FinalNames(pool: seq<Backend>, desired: map<string, Backend>, grown: seq<Backend>, now: seq<Backend>)
    requires Keyed(desired)
    requires Grown(pool, desired, desired.Keys - NamesIn(pool), grown)
    requires Shrunk(grown, NamesIn(pool) - desired.Keys, now)
    ensures NamesIn(now) == desired.Keys <==>
      forall n :: n in NamesIn(pool) && n !in desired ==> CountName(pool, n) == 1
  {
    forall n
      ensures n in NamesIn(now) <==> (n in desired || (n in NamesIn(pool) && CountName(pool, n) > 1))
    {
      CountPositive(now, n);
      CountPositive(pool, n);
      assert CountName(now, n) == CountName(grown, n) - if n in NamesIn(pool) - desired.Keys then 1 else 0;
      assert CountName(grown, n) == CountName(pool, n) + if n in desired.Keys - NamesIn(pool) then 1 else 0;
    }
    forall n | n in NamesIn(pool)
      ensures CountName(pool, n) >= 1
    {
      CountPositive(pool, n);
    }
  }

  /** The pool holds the desired backends, addresses and ports included, and no others. */
  ghost predicate IsExactly(pool: seq<Backend>, desired: map<string, Backend>) {
    forall b :: b in pool <==> b.name in desired && b == desired[b.name]
  }

  lemma FinalBackends(pool: seq<Backend>, desired: map<string, Backend>, grown: seq<Backend>, now: seq<Backend>)
    requires Keyed(desired)
    requires Grown(pool, desired, desired.Keys - NamesIn(pool), grown)
    requires Shrunk(grown, NamesIn(pool) - desired.Keys, now)
    ensures IsExactly(now, desired) <==>
      && (forall n :: n in NamesIn(pool) && n !in desired ==> CountName(pool, n) == 1)
      && (forall b :: b in pool && b.name in desired ==> b == desired[b.name])
  {
    FinalNames(pool, desired, grown, now);
    if IsExactly(now, desired) {
      forall n | n in desired
        ensures n in NamesIn(now)
      {
        assert desired[n] in now;
      }
      assert NamesIn(now) == desired.Keys;
    }
    if NamesIn(now) == desired.Keys && forall b :: b in pool && b.name in desired ==> b == desired[b.name] {
      forall n | n in desired
        ensures desired[n] in now
      {
        assert desired[n] in grown;
      }
    }
  }

  /** A pool with unique names agrees with the desired names after one sync, and a second sync makes no call. */
  method SyncTwice(p: Provider, desired: map<string, Backend>) returns (again: seq<Call>)
    requires Keyed(desired) && forall n :: CountName(p.backends, n) <= 1
    modifies p
    ensures NamesIn(p.backends) == desired.Keys
    ensures forall b :: b in old(p.backends) && b.name in desired ==> b in p.backends
    ensures again == []
  {
    ghost var pool := p.backends;
    forall n | n in NamesIn(pool)
      ensures CountName(pool, n) == 1
    {
      CountPositive(pool, n);
    }
    var calls := SyncBackends(p, desired);
    assert KeepsDesired(pool, desired, After(pool, calls[..|calls|])) && calls[..|calls|] == calls;
    again := SyncBackends(p, desired);
  }
}
