/**
 The shared SSH connection pool. Connect looks the pool up under the read lock,
 dials without a lock and inserts the new connection under the write lock; Close
 and Cleanup run under the write lock. Each locked section is one step, and the
 steps of any number of threads interleave freely.
 */
module SshPool {

  // ----- Keys

  function Digits(n: nat): string {
    if n < 10 then [(n as char) + '0'] else Digits(n / 10) + [((n % 10) as char) + '0']
  }

  function Decimal(n: int): string {
    if n < 0 then "-" + Digits(-n) else Digits(n)
  }

  /** The pool key of a host and a port. */
  function Key(host: string, port: int): string {
    host + ":" + Decimal(port)
  }

  predicate IsDigit(c: char) {
    '0' <= c <= '9'
  }

  function DigitValue(c: char): nat
    requires IsDigit(c)
  {
    c as int - '0' as int
  }

  function NumberOf(digits: string): nat
    requires forall i :: 0 <= i < |digits| ==> IsDigit(digits[i])
  {
    if digits == [] then 0
    else 10 * NumberOf(digits[..|digits| - 1]) + DigitValue(digits[|digits| - 1])
  }

  lemma {:induction false} DigitsRoundTrip(n: nat)
    ensures Digits(n) != []
    ensures forall i :: 0 <= i < |Digits(n)| ==> IsDigit(Digits(n)[i])
    ensures NumberOf(Digits(n)) == n
  {
    if n < 10 {
      assert Digits(n)[..0] == [];
    } else {
      DigitsRoundTrip(n / 10);
      var d := Digits(n);
      assert d[..|d| - 1] == Digits(n / 10);
    }
  }

  lemma DecimalHasNoColon(n: int)
    ensures ':' !in Decimal(n)
  {
    DigitsRoundTrip(if n < 0 then -n else n);
  }

  lemma DecimalIsInjective(a: int, b: int)
    requires Decimal(a) == Decimal(b)
    ensures a == b
  {
    var m, n := if a < 0 then -a else a, if b < 0 then -b else b;
    DigitsRoundTrip(m);
    DigitsRoundTrip(n);
    assert a < 0 ==> Decimal(a)[0] == '-' && Decimal(a)[1..] == Digits(m);
    assert b < 0 ==> Decimal(b)[0] == '-' && Decimal(b)[1..] == Digits(n);
    assert a >= 0 ==> IsDigit(Decimal(a)[0]);
    assert b >= 0 ==> IsDigit(Decimal(b)[0]);
  }

  /** Different endpoints never share a key, even when host names contain colons. */
  lemma KeyIsInjective(h1: string, p1: int, h2: string, p2: int)
    requires Key(h1, p1) == Key(h2, p2)
    ensures h1 == h2 && p1 == p2
  {
    DecimalHasNoColon(p1);
    DecimalHasNoColon(p2);
    SplitAtLastColon(h1, Decimal(p1), h2, Decimal(p2));
    DecimalIsInjective(p1, p2);
  }

  lemma NoColonAfter(h: string, d: string)
    requires ':' !in d
    ensures (h + ":" + d)[|h|] == ':'
    ensures forall p :: |h| < p < |h + ":" + d| ==> (h + ":" + d)[p] != ':'
  {
    forall p | |h| < p < |h + ":" + d|
      ensures (h + ":" + d)[p] != ':'
    {
      assert (h + ":" + d)[p] == d[p - |h| - 1];
    }
  }

  lemma SplitAtLastColon(h1: string, d1: string, h2: string, d2: string)
    requires ':' !in d1 && ':' !in d2 && h1 + ":" + d1 == h2 + ":" + d2
    ensures h1 == h2 && d1 == d2
  {
    NoColonAfter(h1, d1);
    NoColonAfter(h2, d2);
    var k1, k2 := h1 + ":" + d1, h2 + ":" + d2;
    assert |h1| == |h2|;
    assert h1 == k1[..|h1|] && h2 == k2[..|h2|];
    assert d1 == k1[|h1| + 1..] && d2 == k2[|h2| + 1..];
  }

  // ----- The locked sections

  datatype Conn = Conn(host: string, port: int, lastUsed: int, closed: bool)

  /** The pool and all connections ever dialled, by identity. */
  datatype Pool = Pool(connections: map<string, nat>, conns: map<nat, Conn>)

  function KeyOf(c: Conn): string {
    Key(c.host, c.port)
  }

  /** Every pooled connection is known, sits under its own key and was not closed by the manager. */
  ghost predicate PoolInv(p: Pool) {
    forall k :: k in p.connections ==>
      p.connections[k] in p.conns && KeyOf(p.conns[p.connections[k]]) == k && !p.conns[p.connections[k]].closed
  }

  predicate Hit(p: Pool, host: string, port: int, now: int, idleTimeout: int, alive: bool)
  {
    var key := Key(host, port);
    && key in p.connections && p.connections[key] in p.conns
    && now - p.conns[p.connections[key]].lastUsed < idleTimeout && alive
  }

  /** A connection to that endpoint that has been used within the timeout. */
  predicate Fresh(c: Conn, host: string, port: int, now: int, idleTimeout: int) {
    c.host == host && c.port == port && now - c.lastUsed < idleTimeout
  }

  function Touched(p: Pool, id: nat, now: int): Pool
    requires id in p.conns
  {
    p.(conns := p.conns[id := p.conns[id].(lastUsed := now)])
  }

  function Inserted(p: Pool, id: nat): Pool
    requires id in p.conns
  {
    p.(connections := p.connections[KeyOf(p.conns[id]) := id])
  }

  /** Closes the given connection and drops whatever is pooled under its key. */
  function Closed(p: Pool, id: nat): Pool
    requires id in p.conns
  {
    Pool(p.connections - {KeyOf(p.conns[id])}, p.conns[id := p.conns[id].(closed := true)])
  }

  function Expired(p: Pool, now: int, idleTimeout: int): set<string> {
    set k | k in p.connections && p.connections[k] in p.conns && now - p.conns[p.connections[k]].lastUsed > idleTimeout
  }

  /** The pool without the keys, with the connections under them closed. */
  function Without(p: Pool, keys: set<string>): Pool {
    var ids := set k | k in keys && k in p.connections :: p.connections[k];
    Pool(p.connections - keys,
         map id | id in p.conns :: if id in ids then p.conns[id].(closed := true) else p.conns[id])
  }

  class Manager {
    var connections: map<string, nat>
    var conns: map<nat, Conn>
    const idleTimeout: int

    ghost function Value(): Pool reads this {
      Pool(connections, conns)
    }

    /** Ranges over the pool in any order, closing and deleting as it goes. */
    method Cleanup(now: int)
      requires PoolInv(Value())
      modifies this
      ensures Value() == Without(old(Value()), Expired(old(Value()), now, idleTimeout))
    {
      ghost var start := Value();
      ghost var expired := Expired(start, now, idleTimeout);
      var rest := connections.Keys;
      assert start == Without(start, {});
      while rest != {}
        invariant rest <= start.connections.Keys
        invariant Value() == Without(start, expired - rest)
      {
        var key :| key in rest;
        DroppedOne(start, expired - rest, key);
        if now - conns[connections[key]].lastUsed > idleTimeout {
          assert expired - (rest - {key}) == (expired - rest) + {key};
          Drop(key);
        } else {
          assert expired - (rest - {key}) == expired - rest;
        }
        rest := rest - {key};
      }
      assert expired - rest == expired;
    }

    method Drop(key: string)
      requires key in connections && connections[key] in conns
      modifies this
      ensures var id := old(connections)[key];
        Value() == Pool(old(connections) - {key}, old(conns)[id := old(conns)[id].(closed := true)])
    {
      var id := connections[key];
      conns := conns[id := conns[id].(closed := true)];
      connections := connections - {key};
    }

    /** The part of Connect under the read lock: a pooled connection that is fresh and answers is reused. */
    method Reuse(host: string, port: int, now: int, alive: bool) returns (hit: bool, id: nat)
      requires PoolInv(Value())
      modifies this`conns
      ensures hit <==> Hit(old(Value()), host, port, now, idleTimeout, alive)
      ensures hit ==>
        && id in old(conns) && !old(conns)[id].closed
        && old(conns)[id].host == host && old(conns)[id].port == port
        && alive && now - old(conns)[id].lastUsed < idleTimeout
        && connections == old(connections) && conns == old(conns)[id := Conn(host, port, now, false)]
        && Value() == Touched(old(Value()), id, now)
      ensures !hit ==> Value() == old(Value())
      ensures forall k :: k in old(connections) ==>
        (alive && Fresh(old(conns)[old(connections)[k]], host, port, now, idleTimeout) ==>
           hit && id == old(connections)[k])
    {
      var key := Key(host, port);
      if key in connections {
        id := connections[key];
        if now - conns[id].lastUsed < idleTimeout && alive {
          KeyIsInjective(conns[id].host, conns[id].port, host, port);
          conns := conns[id := conns[id].(lastUsed := now)];
          return true, id;
        }
      }
      return false, 0;
    }

    /** The part of Connect under the write lock; an older connection under the key is overwritten. */
    method Insert(id: nat)
      requires id in conns
      modifies this`connections
      ensures Value() == Inserted(old(Value()), id)
      ensures PoolInv(old(Value())) && !conns[id].closed ==> PoolInv(Value())
    {
      connections := connections[KeyOf(conns[id]) := id];
    }

    method Close(id: nat)
      requires id in conns
      modifies this
      ensures Value() == Closed(old(Value()), id)
      ensures PoolInv(old(Value())) ==> PoolInv(Value())
    {
      var key := KeyOf(conns[id]);
      conns := conns[id := conns[id].(closed := true)];
      connections := connections - {key};
    }

    method ConnectionCount() returns (n: nat)
      ensures n == |connections|
    {
      n := |connections|;
    }
  }

  /** Dropping one more key than before. */
  lemma DroppedOne(p: Pool, keys: set<string>, key: string)
    requires PoolInv(p) && key in p.connections && key !in keys
    ensures var q, id := Without(p, keys), p.connections[key];
      && key in q.connections && q.connections[key] == id && q.conns[id] == p.conns[id]
      && Without(p, keys + {key}) == Pool(q.connections - {key}, q.conns[id := q.conns[id].(closed := true)])
  {
    var id := p.connections[key];
    forall k | k in keys && k in p.connections
      ensures p.connections[k] != id
    {
      assert KeyOf(p.conns[p.connections[k]]) == k;
    }
    assert (p.connections - keys) - {key} == p.connections - (keys + {key});
  }

  // ----- Interleaved threads

  /** A thread inside Connect has missed the pool and dials, or is about to insert what it dialled. */
  datatype Thread = Dialing(host: string, port: int) | Inserting(id: nat)

  datatype Request = Request(host: string, port: int, id: nat)

  /**
   `threads` are the running Connect calls, `returned` the connections that some
   caller has got, `next` the next fresh identity, `hits` the pool hits so far and
   `evicted` the connections that were open when they left the pool.
   */
  datatype State = State(pool: Pool, threads: map<nat, Thread>, returned: set<nat>, next: nat, hits: seq<Request>,
                         evicted: set<nat>)

  datatype Step =
    | Lookup(t: nat, host: string, port: int, now: int, alive: bool)
    | Dial(t: nat, now: int, ok: bool)
    | Insert(t: nat)
    | Close(id: nat)
    | Cleanup(now: int)
    | Use(id: nat, now: int)

  /** The connection is the one pooled under its key. */
  predicate Pooled(p: Pool, id: nat) {
    id in p.conns && KeyOf(p.conns[id]) in p.connections && p.connections[KeyOf(p.conns[id])] == id
  }

  /** The connections that are pooled in `p`, and open but no longer pooled in `q`. */
  function Dropped(p: Pool, q: Pool): set<nat> {
    set id | id in p.conns && Pooled(p, id) && id in q.conns && !q.conns[id].closed && !Pooled(q, id)
  }

  function Apply(s: State, step: Step, idleTimeout: int): State {
    var t := Act(s, step, idleTimeout);
    t.(evicted := s.evicted + Dropped(s.pool, t.pool))
  }

  function Act(s: State, step: Step, idleTimeout: int): State {
    match step
    case Lookup(t, host, port, now, alive) =>
      if t in s.threads then s
      else if Hit(s.pool, host, port, now, idleTimeout, alive) then
        var id := s.pool.connections[Key(host, port)];
        s.(pool := Touched(s.pool, id, now), returned := s.returned + {id}, hits := s.hits + [Request(host, port, id)])
      else s.(threads := s.threads[t := Dialing(host, port)])
    case Dial(t, now, ok) =>
      if t !in s.threads || !s.threads[t].Dialing? then s
      else if !ok then s.(threads := s.threads - {t})
      else
        var conn := Conn(s.threads[t].host, s.threads[t].port, now, false);
        s.(pool := s.pool.(conns := s.pool.conns[s.next := conn]),
           threads := s.threads[t := Inserting(s.next)], next := s.next + 1)
    case Insert(t) =>
      if t !in s.threads || !s.threads[t].Inserting? || s.threads[t].id !in s.pool.conns then s
      else
        var id := s.threads[t].id;
        s.(pool := Inserted(s.pool, id), threads := s.threads - {t}, returned := s.returned + {id})
    case Close(id) =>
      if id in s.returned && id in s.pool.conns then s.(pool := Closed(s.pool, id)) else s
    case Cleanup(now) => s.(pool := Without(s.pool, Expired(s.pool, now, idleTimeout)))
    case Use(id, now) => if id in s.pool.conns then s.(pool := Touched(s.pool, id, now)) else s
  }

  const EMPTY := State(Pool(map[], map[]), map[], {}, 0, [], {})

  ghost predicate IsRun(states: seq<State>, steps: seq<Step>, idleTimeout: int) {
    && |states| == |steps| + 1
    && states[0] == EMPTY
    && forall k :: 0 <= k < |steps| ==> states[k + 1] == Apply(states[k], steps[k], idleTimeout)
  }

  /** A dialled connection stays private to its thread, and open, until it is inserted. */
  ghost predicate ThreadInv(s: State) {
    && (forall t :: t in s.threads && s.threads[t].Inserting? ==>
          && s.threads[t].id in s.pool.conns && !s.pool.conns[s.threads[t].id].closed
          && s.threads[t].id !in s.returned)
    && (forall t, u ::
          t in s.threads && u in s.threads && t != u && s.threads[t].Inserting? && s.threads[u].Inserting? ==>
            s.threads[t].id != s.threads[u].id)
  }

  ghost predicate IdentityInv(s: State) {
    && (forall id :: id in s.pool.conns ==> id < s.next)
    && (forall k :: k in s.pool.connections ==> s.pool.connections[k] in s.returned)
    && (forall id :: id in s.returned ==> id in s.pool.conns)
  }

  /** A hit gave the caller a connection to the host and port it asked for. */
  ghost predicate HitsInv(s: State) {
    forall i :: 0 <= i < |s.hits| ==>
      && s.hits[i].id in s.pool.conns
      && s.pool.conns[s.hits[i].id].host == s.hits[i].host && s.pool.conns[s.hits[i].id].port == s.hits[i].port
  }

  ghost predicate Inv(s: State) {
    PoolInv(s.pool) && ThreadInv(s) && IdentityInv(s) && HitsInv(s)
  }

  lemma LookupKeeps(s: State, step: Step, idleTimeout: int)
    requires Inv(s) && step.Lookup?
    ensures Inv(Act(s, step, idleTimeout))
  {
    if step.t !in s.threads && Hit(s.pool, step.host, step.port, step.now, idleTimeout, step.alive) {
      var c := s.pool.conns[s.pool.connections[Key(step.host, step.port)]];
      KeyIsInjective(c.host, c.port, step.host, step.port);
    }
  }

  lemma DialKeeps(s: State, step: Step, idleTimeout: int)
    requires Inv(s) && step.Dial?
    ensures Inv(Act(s, step, idleTimeout))
  {
  }

  lemma UseKeeps(s: State, step: Step, idleTimeout: int)
    requires Inv(s) && step.Use?
    ensures Inv(Act(s, step, idleTimeout))
  {
  }

  lemma InsertKeeps(s: State, step: Step, idleTimeout: int)
    requires Inv(s) && step.Insert?
    ensures Inv(Act(s, step, idleTimeout))
  {
  }

  lemma CloseKeeps(s: State, step: Step, idleTimeout: int)
    requires Inv(s) && step.Close?
    ensures Inv(Act(s, step, idleTimeout))
  {
  }

  lemma CleanupKeeps(s: State, step: Step, idleTimeout: int)
    requires Inv(s) && step.Cleanup?
    ensures Inv(Act(s, step, idleTimeout))
  {
    var p := s.pool;
    var q := Without(p, Expired(p, step.now, idleTimeout));
    forall k | k in q.connections
      ensures q.connections[k] in q.conns && q.conns[q.connections[k]] == p.conns[p.connections[k]]
    {
      forall e | e in Expired(p, step.now, idleTimeout)
        ensures p.connections[e] != p.connections[k]
      {
        assert KeyOf(p.conns[p.connections[e]]) == e;
      }
    }
  }

  /** A cleanup leaves exactly the connections that are not expired, and what it drops is closed. */
  lemma CleanupEffect(p: Pool, now: int, idleTimeout: int)
    requires PoolInv(p)
    ensures var q := Without(p, Expired(p, now, idleTimeout));
      forall k :: k in p.connections ==>
        var id := p.connections[k];
        if now - p.conns[id].lastUsed > idleTimeout then k !in q.connections && q.conns[id].closed
        else k in q.connections && q.connections[k] == id && q.conns[id] == p.conns[id]
  {
    forall j, k | j in p.connections && k in p.connections && j != k
      ensures p.connections[j] != p.connections[k]
    {
      assert KeyOf(p.conns[p.connections[j]]) == j && KeyOf(p.conns[p.connections[k]]) == k;
    }
  }

  lemma StepKeeps(s: State, step: Step, idleTimeout: int)
    requires Inv(s)
    ensures Inv(Act(s, step, idleTimeout)) && Inv(Apply(s, step, idleTimeout))
  {
    match step
    case Lookup(_, _, _, _, _) => LookupKeeps(s, step, idleTimeout);
    case Dial(_, _, _) => DialKeeps(s, step, idleTimeout);
    case Insert(_) => InsertKeeps(s, step, idleTimeout);
    case Close(_) => CloseKeeps(s, step, idleTimeout);
    case Cleanup(_) => CleanupKeeps(s, step, idleTimeout);
    case Use(_, _) => UseKeeps(s, step, idleTimeout);
  }

  lemma {:induction false} RunKeeps(states: seq<State>, steps: seq<Step>, idleTimeout: int, k: nat)
    requires IsRun(states, steps, idleTimeout) && k < |states|
    ensures Inv(states[k])
    decreases k
  {
    if k > 0 {
      RunKeeps(states, steps, idleTimeout, k - 1);
      assert states[k] == states[k - 1 + 1];
      StepKeeps(states[k - 1], steps[k - 1], idleTimeout);
    }
  }

  /**
   In every interleaving: each pooled connection sits under its own key and was
   never closed by the manager, and every hit so far returned a connection to the
   requested host and port.
   */
  lemma PoolIsSound(states: seq<State>, steps: seq<Step>, idleTimeout: int, k: nat)
    requires IsRun(states, steps, idleTimeout) && k < |states|
    ensures PoolInv(states[k].pool)
    ensures HitsInv(states[k])
  {
    RunKeeps(states, steps, idleTimeout, k);
  }

  ghost function Image(m: map<string, nat>, keys: set<string>): set<nat> {
    set k | k in keys && k in m :: m[k]
  }

  lemma {:induction false} InjectiveSize(m: map<string, nat>, keys: set<string>)
    requires keys <= m.Keys && forall j, k :: j in m && k in m && j != k ==> m[j] != m[k]
    ensures |Image(m, keys)| == |keys|
    decreases |keys|
  {
    if keys != {} {
      var k :| k in keys;
      InjectiveSize(m, keys - {k});
      assert Image(m, keys) == Image(m, keys - {k}) + {m[k]};
    }
  }

  /** The endpoint that a running Connect is about. */
  ghost predicate Serves(s: State, t: nat, host: string, port: int) {
    t in s.threads &&
      match s.threads[t]
      case Dialing(h, p) => h == host && p == port
      case Inserting(id) => id in s.pool.conns && s.pool.conns[id].host == host && s.pool.conns[id].port == port
  }

  lemma ServesOn(s: State, step: Step, idleTimeout: int, t: nat, host: string, port: int)
    requires Inv(s) && Serves(s, t, host, port) && t in Act(s, step, idleTimeout).threads
    ensures Serves(Act(s, step, idleTimeout), t, host, port)
  {
  }

  /** Every running Connect was begun by a lookup that missed, and is about the endpoint that lookup asked for. */
  lemma {:induction false} ThreadSource(states: seq<State>, steps: seq<Step>, idleTimeout: int, k: nat, t: nat)
      returns (a: nat)
    requires IsRun(states, steps, idleTimeout) && k < |states| && t in states[k].threads
    ensures a < k && steps[a].Lookup? && steps[a].t == t && t !in states[a].threads
    ensures Serves(states[k], t, steps[a].host, steps[a].port)
    decreases k
  {
    a := k - 1;
    assert states[k] == states[a + 1];
    if t in states[a].threads {
      var b := ThreadSource(states, steps, idleTimeout, a, t);
      RunKeeps(states, steps, idleTimeout, a);
      ServesOn(states[a], steps[a], idleTimeout, t, steps[b].host, steps[b].port);
      a := b;
    }
  }

  /** What a Connect pools and returns after dialling is a connection to the endpoint it was asked for. */
  lemma ConnectServesItsRequest(states: seq<State>, steps: seq<Step>, idleTimeout: int, k: nat, t: nat) returns (a: nat)
    requires IsRun(states, steps, idleTimeout) && k < |steps| && steps[k] == Insert(t)
    requires t in states[k].threads && states[k].threads[t].Inserting?
    ensures a < k && steps[a].Lookup? && steps[a].t == t
    ensures var id, p := states[k].threads[t].id, states[k + 1].pool;
      && id in states[k + 1].returned && t !in states[k + 1].threads
      && Pooled(p, id) && p.conns[id].host == steps[a].host && p.conns[id].port == steps[a].port
  {
    RunKeeps(states, steps, idleTimeout, k);
    a := ThreadSource(states, steps, idleTimeout, k, t);
    assert states[k + 1] == Apply(states[k], steps[k], idleTimeout);
  }

  /** A connection comes to exist exactly by a dial that succeeds. */
  lemma DialledExactly(s: State, step: Step, idleTimeout: int, id: nat)
    requires Inv(s) && id !in s.pool.conns
    ensures id in Act(s, step, idleTimeout).pool.conns <==>
      step.Dial? && step.ok && step.t in s.threads && s.threads[step.t].Dialing? && id == s.next
  {
  }

  // ----- Where the open connections are

  ghost function OpenIds(p: Pool): set<nat> {
    set id | id in p.conns && !p.conns[id].closed
  }

  ghost function PooledIds(p: Pool): set<nat> {
    set id | id in p.conns && Pooled(p, id)
  }

  /** The connections that a running Connect has dialled and not yet inserted. */
  ghost function Held(s: State): set<nat> {
    set t | t in s.threads && s.threads[t].Inserting? :: s.threads[t].id
  }

  /** The connections driven out of the pool that are still open. */
  ghost function Strays(s: State): set<nat> {
    s.evicted * OpenIds(s.pool)
  }

  /** Whom a step drives out of the pool: who shares the key with what is inserted, or with what is closed. */
  ghost predicate Evicts(s: State, step: Step, id: nat) {
    && Pooled(s.pool, id)
    && match step
       case Insert(t) =>
         && t in s.threads && s.threads[t].Inserting? && s.threads[t].id in s.pool.conns
         && KeyOf(s.pool.conns[s.threads[t].id]) == KeyOf(s.pool.conns[id])
       case Close(other) =>
         && other in s.returned && other in s.pool.conns && other != id
         && KeyOf(s.pool.conns[other]) == KeyOf(s.pool.conns[id])
       case _ => false
  }

  /** An open connection leaves the pool exactly when another of its key is inserted, or closed by its holder. */
  lemma EvictedExactly(s: State, step: Step, idleTimeout: int, id: nat)
    requires Inv(s)
    ensures id in Dropped(s.pool, Act(s, step, idleTimeout).pool) <==> Evicts(s, step, id)
  {
  }

  lemma EvictedNow(s: State, step: Step, idleTimeout: int, id: nat)
    requires Inv(s)
    ensures id in Apply(s, step, idleTimeout).evicted <==> id in s.evicted || Evicts(s, step, id)
  {
    EvictedExactly(s, step, idleTimeout, id);
    assert Act(s, step, idleTimeout).evicted == s.evicted;
  }

  /** Evicted connections are in some caller's hands, never pooled again, and every open one is accounted for. */
  ghost predicate EvictionInv(s: State) {
    && (forall id :: id in s.evicted ==> id in s.returned && !Pooled(s.pool, id))
    && (forall id :: id in OpenIds(s.pool) ==> Pooled(s.pool, id) || id in Held(s) || id in s.evicted)
  }

  /** A held connection stays with its thread or is pooled by it. */
  lemma HeldStays(s: State, step: Step, idleTimeout: int, u: nat)
    requires Inv(s) && u in s.threads && s.threads[u].Inserting?
    ensures var t, id := Act(s, step, idleTimeout), s.threads[u].id;
      id in Held(t) || Pooled(t.pool, id)
  {
    var t := Act(s, step, idleTimeout);
    assert u in t.threads ==> t.threads[u] == s.threads[u];
  }

  /** An open connection has just been dialled, or was open before. */
  lemma OpenWasOpen(s: State, step: Step, idleTimeout: int, id: nat)
    requires Inv(s) && id in OpenIds(Act(s, step, idleTimeout).pool)
    ensures id in OpenIds(s.pool) || id in Held(Act(s, step, idleTimeout))
  {
    if step.Dial? && id !in s.pool.conns {
      assert Act(s, step, idleTimeout).threads[step.t] == Inserting(id);
    }
  }

  lemma StaysAccounted(s: State, step: Step, idleTimeout: int, id: nat)
    requires Inv(s) && EvictionInv(s) && id in OpenIds(Apply(s, step, idleTimeout).pool)
    ensures var t := Apply(s, step, idleTimeout);
      Pooled(t.pool, id) || id in Held(t) || id in t.evicted
  {
    OpenWasOpen(s, step, idleTimeout, id);
    var t := Apply(s, step, idleTimeout);
    if id in OpenIds(s.pool) {
      if id in Held(s) {
        var u :| u in s.threads && s.threads[u].Inserting? && s.threads[u].id == id;
        HeldStays(s, step, idleTimeout, u);
      } else if Pooled(s.pool, id) && !Pooled(t.pool, id) {
        assert id in Dropped(s.pool, t.pool);
      }
    }
  }

  lemma NotPooledAgain(s: State, step: Step, idleTimeout: int, id: nat)
    requires Inv(s) && id in s.returned && !Pooled(s.pool, id)
    ensures var t := Act(s, step, idleTimeout);
      id in t.returned && !Pooled(t.pool, id)
  {
  }

  lemma EvictionKept(s: State, step: Step, idleTimeout: int)
    requires Inv(s) && EvictionInv(s)
    ensures EvictionInv(Apply(s, step, idleTimeout))
  {
    var t := Apply(s, step, idleTimeout);
    forall id | id in s.evicted
      ensures id in t.returned && !Pooled(t.pool, id)
    {
      NotPooledAgain(s, step, idleTimeout, id);
    }
    forall id | id in OpenIds(t.pool)
      ensures Pooled(t.pool, id) || id in Held(t) || id in t.evicted
    {
      StaysAccounted(s, step, idleTimeout, id);
    }
  }

  lemma {:induction false} RunAccounts(states: seq<State>, steps: seq<Step>, idleTimeout: int, k: nat)
    requires IsRun(states, steps, idleTimeout) && k < |states|
    ensures Inv(states[k]) && EvictionInv(states[k])
    decreases k
  {
    if k > 0 {
      RunAccounts(states, steps, idleTimeout, k - 1);
      assert states[k] == states[k - 1 + 1];
      StepKeeps(states[k - 1], steps[k - 1], idleTimeout);
      EvictionKept(states[k - 1], steps[k - 1], idleTimeout);
    }
  }

  lemma PooledIsCounted(p: Pool)
    requires PoolInv(p)
    ensures |PooledIds(p)| == |p.connections| && PooledIds(p) <= OpenIds(p)
  {
    forall a, b | a in p.connections && b in p.connections && a != b
      ensures p.connections[a] != p.connections[b]
    {
      assert KeyOf(p.conns[p.connections[a]]) == a && KeyOf(p.conns[p.connections[b]]) == b;
    }
    InjectiveSize(p.connections, p.connections.Keys);
    assert PooledIds(p) == Image(p.connections, p.connections.Keys);
  }

  /**
   In every interleaving each open connection is pooled, held by a Connect that is
   about to pool it, or evicted, and only one of these; so the connection count
   falls short of the open connections by exactly the held and the stray ones.
   */
  lemma OpenIsAccountedFor(states: seq<State>, steps: seq<Step>, idleTimeout: int, k: nat)
    requires IsRun(states, steps, idleTimeout) && k < |states|
    ensures var s := states[k];
      && OpenIds(s.pool) == PooledIds(s.pool) + Held(s) + Strays(s)
      && PooledIds(s.pool) !! Held(s) && PooledIds(s.pool) !! s.evicted && Held(s) !! s.evicted
      && |OpenIds(s.pool)| == |s.pool.connections| + |Held(s)| + |Strays(s)|
      && s.evicted <= s.returned
  {
    RunAccounts(states, steps, idleTimeout, k);
    var s := states[k];
    PooledIsCounted(s.pool);
    assert PooledIds(s.pool) !! Held(s);
    assert OpenIds(s.pool) == PooledIds(s.pool) + Held(s) + Strays(s);
  }

  lemma {:induction false} EvictionHasCause(states: seq<State>, steps: seq<Step>, idleTimeout: int, k: nat, id: nat)
      returns (j: nat)
    requires IsRun(states, steps, idleTimeout) && k < |states| && id in states[k].evicted
    ensures j < k && Evicts(states[j], steps[j], id)
    decreases k
  {
    j := k - 1;
    RunKeeps(states, steps, idleTimeout, j);
    EvictedNow(states[j], steps[j], idleTimeout, id);
    assert states[k] == states[j + 1];
    if id in states[j].evicted {
      j := EvictionHasCause(states, steps, idleTimeout, j, id);
    }
  }

  lemma {:induction false} EvictedStays(states: seq<State>, steps: seq<Step>, idleTimeout: int, j: nat, k: nat, id: nat)
    requires IsRun(states, steps, idleTimeout) && j <= k < |states| && id in states[j].evicted
    ensures id in states[k].evicted
    decreases k
  {
    if j < k {
      EvictedStays(states, steps, idleTimeout, j, k - 1, id);
      assert states[k] == states[k - 1 + 1];
    }
  }

  /** A connection is evicted exactly when an earlier step of the run inserted or closed another one of its key. */
  lemma EvictedByEarlierStep(states: seq<State>, steps: seq<Step>, idleTimeout: int, k: nat, id: nat)
    requires IsRun(states, steps, idleTimeout) && k < |states|
    ensures id in states[k].evicted <==> exists j :: 0 <= j < k && Evicts(states[j], steps[j], id)
  {
    if id in states[k].evicted {
      var j := EvictionHasCause(states, steps, idleTimeout, k, id);
    }
    if j :| 0 <= j < k && Evicts(states[j], steps[j], id) {
      RunKeeps(states, steps, idleTimeout, j);
      EvictedNow(states[j], steps[j], idleTimeout, id);
      EvictedStays(states, steps, idleTimeout, j + 1, k, id);
    }
  }

  lemma StrayStays(s: State, step: Step, idleTimeout: int, id: nat)
    requires Inv(s) && id in OpenIds(s.pool) && !Pooled(s.pool, id) && step != Close(id)
    ensures id in OpenIds(Act(s, step, idleTimeout).pool)
  {
  }

  /** Nothing but its holder's own Close ever closes an evicted connection: no cleanup reaches it. */
  lemma {:induction false} StraysStayOpen(states: seq<State>, steps: seq<Step>, idleTimeout: int, k: nat, n: nat,
                                          id: nat)
    requires IsRun(states, steps, idleTimeout) && k <= n < |states| && id in Strays(states[k])
    requires forall j :: k <= j < n ==> steps[j] != Close(id)
    ensures id in Strays(states[n])
    decreases n
  {
    if n > k {
      StraysStayOpen(states, steps, idleTimeout, k, n - 1, id);
      RunAccounts(states, steps, idleTimeout, n - 1);
      assert states[n] == states[n - 1 + 1];
      StrayStays(states[n - 1], steps[n - 1], idleTimeout, id);
    }
  }
}
