/**
 Host allocation under interleaving. One worker reconciles machines: it reads an
 inventory, looks at one host after the other (each time listing the machines
 afresh), writes the inventory status and then writes the machine. A second
 controller recounts inventories. Machines are created and deleted by others at
 any time, every read of a list and every write can fail, status writes carry
 the version that was read, and the process may restart between any two steps.
 All machines are those of one namespace; only the worker writes host names, and
 the inventory a machine refers to is read anew by each of its reconciles.
 */
module HostAllocation {
  import opened Wrappers
  import opened HostInventory

  datatype Machine = Machine(host: string, address: string, role: string, live: bool)

  /** An inventory object with its resource version. */
  datatype Stored = Stored(inv: Inventory, version: nat)

  /** Where the machine worker stands; `snap` is the inventory it read. */
  datatype Worker =
    | Idle
    | Scanning(m: nat, key: string, snap: Stored, i: nat)
    | Saving(m: nat, key: string, snap: Stored, i: nat)
    | Naming(m: nat, host: Host)
    | Freeing(m: nat, key: string, snap: Stored, i: nat)
    | Removing(m: nat)

  datatype Counter = Resting | Counting(key: string, snap: Stored, listings: seq<Listing>)

  datatype System = System(inventories: map<string, Stored>, machines: map<nat, Machine>, worker: Worker,
                           counter: Counter)

  datatype Step =
    | Create(m: nat, role: string) | MarkDeleted(m: nat)
    | BeginAllocation(m: nat, key: string) | ScanHost(listOk: bool) | SaveStatus(ok: bool) | SaveMachine(ok: bool)
    | BeginDeletion(m: nat, key: string) | SaveRelease(ok: bool) | RemoveMachine(ok: bool)
    | BeginRecount(key: string) | CountHost(listOk: bool) | SaveRecount(ok: bool)
    | Restart

  /** The host names that machines not marked for deletion carry. */
  function LiveNames(machines: map<nat, Machine>): set<string> {
    set m | m in machines && machines[m].live :: machines[m].host
  }

  function List(s: System, ok: bool): Listing {
    if ok then Some(LiveNames(s.machines)) else None
  }

  /** A status write goes through only on the version that was read. */
  function Written(s: System, key: string, snap: Stored, inv: Inventory, ok: bool): Option<map<string, Stored>> {
    if ok && key in s.inventories && s.inventories[key].version == snap.version
    then Some(s.inventories[key := Stored(inv, snap.version + 1)]) else None
  }

  // ----- The steps of the worker

  function ScanStep(s: System, listOk: bool): System
    requires s.worker.Scanning?
  {
    var Scanning(m, key, snap, i) := s.worker;
    if m !in s.machines || i >= |snap.inv.hosts| then s.(worker := Idle)
    else if !RoleFits(snap.inv.hosts[i], s.machines[m].role) || !EntryFree(snap.inv, i) then
      s.(worker := Scanning(m, key, snap, i + 1))
    else match List(s, listOk)
      case None => s.(worker := Idle)
      case Some(names) =>
        if snap.inv.hosts[i].name in names then s.(worker := Scanning(m, key, snap, i + 1))
        else s.(worker := Saving(m, key, snap, i))
  }

  function SaveStatusStep(s: System, ok: bool): System
    requires s.worker.Saving?
  {
    var Saving(m, key, snap, i) := s.worker;
    if i >= |snap.inv.hosts| then s.(worker := Idle)
    else match Written(s, key, snap, AllocatedAt(snap.inv, i), ok)
      case None => s.(worker := Idle)
      case Some(inventories) => s.(inventories := inventories, worker := Naming(m, snap.inv.hosts[i]))
  }

  function SaveMachineStep(s: System, ok: bool): System
    requires s.worker.Naming?
  {
    var Naming(m, host) := s.worker;
    if ok && m in s.machines then
      s.(machines := s.machines[m := s.machines[m].(host := host.hostName, address := host.address)], worker := Idle)
    else s.(worker := Idle)
  }

  function BeginDeletionStep(s: System, m: nat, key: string): System
    requires m in s.machines
  {
    var name := s.machines[m].host;
    if name == "" || key !in s.inventories then s.(worker := Removing(m))
    else
      var snap := s.inventories[key];
      var i := IndexOf(snap.inv.hosts, name);
      if i < |snap.inv.hosts| then s.(worker := Freeing(m, key, snap, i)) else s.(worker := Removing(m))
  }

  function SaveReleaseStep(s: System, ok: bool): System
    requires s.worker.Freeing?
  {
    var Freeing(m, key, snap, i) := s.worker;
    match Written(s, key, snap, ReleasedAt(snap.inv, i), ok)
    case None => s.(worker := Removing(m))
    case Some(inventories) => s.(inventories := inventories, worker := Removing(m))
  }

  function SaveRecountStep(s: System, ok: bool): System
    requires s.counter.Counting?
  {
    var Counting(key, snap, listings) := s.counter;
    if |listings| != |snap.inv.hosts| then s
    else match Written(s, key, snap, Recounted(snap.inv, listings), ok)
      case None => s.(counter := Resting)
      case Some(inventories) => s.(inventories := inventories, counter := Resting)
  }

  /** One step of the system; a step that is not enabled changes nothing. */
  function Apply(s: System, step: Step): System {
    match step
    case Create(m, role) =>
      if m !in s.machines then s.(machines := s.machines[m := Machine("", "", role, true)]) else s
    case MarkDeleted(m) =>
      if m in s.machines then s.(machines := s.machines[m := s.machines[m].(live := false)]) else s
    case BeginAllocation(m, key) =>
      if s.worker.Idle? && key in s.inventories && m in s.machines && s.machines[m].live
        && (s.machines[m].host == "" || s.machines[m].address == "")
      then s.(worker := Scanning(m, key, s.inventories[key], 0)) else s
    case ScanHost(listOk) => if s.worker.Scanning? then ScanStep(s, listOk) else s
    case SaveStatus(ok) => if s.worker.Saving? then SaveStatusStep(s, ok) else s
    case SaveMachine(ok) => if s.worker.Naming? then SaveMachineStep(s, ok) else s
    case BeginDeletion(m, key) =>
      if s.worker.Idle? && m in s.machines && !s.machines[m].live then BeginDeletionStep(s, m, key) else s
    case SaveRelease(ok) => if s.worker.Freeing? then SaveReleaseStep(s, ok) else s
    case RemoveMachine(ok) =>
      if !s.worker.Removing? then s
      else if ok then s.(machines := s.machines - {s.worker.m}, worker := Idle)
      else s.(worker := Idle)
    case BeginRecount(key) =>
      if s.counter.Resting? && key in s.inventories then s.(counter := Counting(key, s.inventories[key], [])) else s
    case CountHost(listOk) =>
      if s.counter.Counting? && |s.counter.listings| < |s.counter.snap.inv.hosts|
      then s.(counter := s.counter.(listings := s.counter.listings + [List(s, listOk)])) else s
    case SaveRecount(ok) => if s.counter.Counting? then SaveRecountStep(s, ok) else s
    case Restart => s.(worker := Idle, counter := Resting)
  }

  function Exec(s: System, steps: seq<Step>): System
    decreases |steps|
  {
    if steps == [] then s else Exec(Apply(s, steps[0]), steps[1..])
  }

  function Start(inventories: map<string, Stored>): System {
    System(inventories, map[], Idle, Resting)
  }

  // ----- The scan is the search

  /** One step of the scan per host from the i-th on, with the given results of its lists, and one to end it. */
  function Scans(oks: seq<bool>, i: nat): seq<Step>
    requires i <= |oks|
    decreases |oks| - i
  {
    if i == |oks| then [ScanHost(true)] else [ScanHost(oks[i])] + Scans(oks, i + 1)
  }

  lemma {:induction false} ScansAreIdle(s: System, oks: seq<bool>, i: nat)
    requires !s.worker.Scanning? && i <= |oks|
    ensures Exec(s, Scans(oks, i)) == s
    decreases |oks| - i
  {
    if i < |oks| {
      assert Scans(oks, i)[1..] == Scans(oks, i + 1);
      ScansAreIdle(s, oks, i + 1);
    } else {
      assert Scans(oks, i)[1..] == [];
    }
  }

  function Listings(s: System, oks: seq<bool>): (r: seq<Listing>)
    ensures |r| == |oks|
  {
    seq(|oks|, j requires 0 <= j < |oks| => List(s, oks[j]))
  }

  /**
   Without interference the steps of the scan find the host that the allocation's
   search chooses, whichever of its lists fail, and give up where the search does.
   */
  lemma {:induction false} ScanRefinesChoose(s: System, oks: seq<bool>)
    requires s.worker.Scanning? && s.worker.m in s.machines
    requires s.worker.i <= |oks| == |s.worker.snap.inv.hosts|
    ensures var Scanning(m, key, snap, i) := s.worker;
      var choice := Choose(snap.inv, s.machines[m].role, Listings(s, oks), i);
      Exec(s, Scans(oks, i)) == s.(worker := if choice.Chosen? then Saving(m, key, snap, choice.index) else Idle)
    decreases |oks| - s.worker.i
  {
    var i := s.worker.i;
    if i < |oks| {
      var t := Apply(s, ScanHost(oks[i]));
      assert Scans(oks, i)[0] == ScanHost(oks[i]) && Scans(oks, i)[1..] == Scans(oks, i + 1);
      assert Listings(t, oks) == Listings(s, oks);
      if t.worker.Scanning? {
        ScanRefinesChoose(t, oks);
      } else {
        ScansAreIdle(t, oks, i + 1);
      }
    } else {
      assert Scans(oks, i)[1..] == [];
    }
  }

  /** A deletion removes the machine whether or not the release of its host could be written. */
  lemma DeletionRemoves(s: System, m: nat, key: string, ok: bool)
    requires s.worker.Idle? && m in s.machines && !s.machines[m].live
    ensures var t := Exec(s, [BeginDeletion(m, key), SaveRelease(ok), RemoveMachine(true)]);
      t.machines == s.machines - {m} && t.worker.Idle?
  {
    var s1 := Apply(s, BeginDeletion(m, key));
    var s2 := Apply(s1, SaveRelease(ok));
    assert s2.worker == Removing(m) && s2.machines == s.machines;
    ExecThen(s, [], s, BeginDeletion(m, key));
    ExecThen(s, [] + [BeginDeletion(m, key)], s1, SaveRelease(ok));
    ExecThen(s, [] + [BeginDeletion(m, key)] + [SaveRelease(ok)], s2, RemoveMachine(true));
    assert [] + [BeginDeletion(m, key)] + [SaveRelease(ok)] + [RemoveMachine(true)] ==
      [BeginDeletion(m, key), SaveRelease(ok), RemoveMachine(true)];
  }

  // ----- Uniqueness

  ghost predicate SameHost(a: Machine, b: Machine) {
    a.live && b.live && a.host == b.host
  }

  /** No two live machines name the same host. */
  ghost predicate Unique(s: System) {
    forall a, b :: a in s.machines && b in s.machines && a != b && SameHost(s.machines[a], s.machines[b]) ==>
      s.machines[a].host == ""
  }

  ghost predicate NamedHosts(inv: Inventory) {
    forall i :: 0 <= i < |inv.hosts| ==> inv.hosts[i].name != "" && inv.hosts[i].hostName != ""
  }

  ghost predicate MatchingHosts(inv: Inventory) {
    forall i :: 0 <= i < |inv.hosts| ==> inv.hosts[i].name == inv.hosts[i].hostName
  }

  ghost predicate Good(inv: Inventory) {
    NamedHosts(inv) && MatchingHosts(inv)
  }

  ghost predicate WorkerInv(s: System) {
    match s.worker
    case Scanning(m, key, snap, i) => Good(snap.inv)
    case Saving(m, key, snap, i) =>
      Good(snap.inv) && i < |snap.inv.hosts| && snap.inv.hosts[i].hostName !in LiveNames(s.machines)
    case Naming(m, host) => host.hostName != "" && host.hostName !in LiveNames(s.machines)
    case Freeing(m, key, snap, i) => Good(snap.inv)
    case _ => true
  }

  ghost predicate GoodInventories(inventories: map<string, Stored>) {
    forall key :: key in inventories ==> Good(inventories[key].inv)
  }

  ghost predicate Inv(s: System) {
    && Unique(s)
    && GoodInventories(s.inventories)
    && WorkerInv(s)
    && (s.counter.Counting? ==> Good(s.counter.snap.inv))
  }

  /** Machines change without any new live name appearing. */
  lemma FewerNamesKeep(s: System, machines: map<nat, Machine>)
    requires Inv(s)
    requires forall m :: m in machines && machines[m].live && machines[m].host != "" ==>
      m in s.machines && s.machines[m].live && s.machines[m].host == machines[m].host
    ensures Inv(s.(machines := machines))
  {
  }

  lemma NamingKeeps(s: System, ok: bool)
    requires Inv(s) && s.worker.Naming?
    ensures Inv(SaveMachineStep(s, ok))
  {
  }

  lemma WrittenKeeps(s: System, key: string, snap: Stored, inv: Inventory, ok: bool)
    requires GoodInventories(s.inventories) && Good(inv)
    ensures var w := Written(s, key, snap, inv, ok);
      w.Some? ==> GoodInventories(w.value)
  {
  }

  lemma WorkerKeeps(s: System, step: Step)
    requires Inv(s)
    requires step.ScanHost? || step.SaveStatus? || step.SaveRelease? || step.BeginAllocation? || step.BeginDeletion?
    ensures Inv(Apply(s, step))
  {
    match s.worker
    case Saving(m, key, snap, i) =>
      if step.SaveStatus? { WrittenKeeps(s, key, snap, AllocatedAt(snap.inv, i), step.ok); }
    case Freeing(m, key, snap, i) =>
      if step.SaveRelease? { WrittenKeeps(s, key, snap, ReleasedAt(snap.inv, i), step.ok); }
    case _ =>
  }

  lemma CounterKeeps(s: System, step: Step)
    requires Inv(s) && (step.BeginRecount? || step.CountHost? || step.SaveRecount? || step.Restart?)
    ensures Inv(Apply(s, step))
  {
    if step.SaveRecount? && s.counter.Counting? && |s.counter.listings| == |s.counter.snap.inv.hosts| {
      WrittenKeeps(s, s.counter.key, s.counter.snap, Recounted(s.counter.snap.inv, s.counter.listings), step.ok);
    }
  }

  lemma MachinesKeep(s: System, step: Step)
    requires Inv(s) && (step.Create? || step.MarkDeleted? || step.RemoveMachine? || step.SaveMachine?)
    ensures Inv(Apply(s, step))
  {
    match step
    case Create(m, role) =>
      if m !in s.machines { FewerNamesKeep(s, s.machines[m := Machine("", "", role, true)]); }
    case MarkDeleted(m) =>
      if m in s.machines { FewerNamesKeep(s, s.machines[m := s.machines[m].(live := false)]); }
    case RemoveMachine(ok) =>
      if s.worker.Removing? { FewerNamesKeep(s.(worker := Idle), s.machines - {s.worker.m}); }
    case SaveMachine(ok) =>
      if s.worker.Naming? { NamingKeeps(s, ok); }
  }

  lemma StepKeeps(s: System, step: Step)
    requires Inv(s)
    ensures Inv(Apply(s, step))
  {
    if step.Create? || step.MarkDeleted? || step.RemoveMachine? || step.SaveMachine? {
      MachinesKeep(s, step);
    } else if step.BeginRecount? || step.CountHost? || step.SaveRecount? || step.Restart? {
      CounterKeeps(s, step);
    } else {
      WorkerKeeps(s, step);
    }
  }

  lemma {:induction false} RunKeeps(s: System, steps: seq<Step>)
    requires Inv(s)
    ensures Inv(Exec(s, steps))
    decreases |steps|
  {
    if steps != [] {
      StepKeeps(s, steps[0]);
      RunKeeps(Apply(s, steps[0]), steps[1..]);
    }
  }

  // ----- A machine keeps the host it has

  /** The worker seeks a host only for a machine that lacks its name or address, and frees only marked machines. */
  ghost predicate WorkerIsFair(s: System) {
    match s.worker
    case Idle => true
    case Freeing(m, _, _, _) => m in s.machines && !s.machines[m].live
    case Removing(m) => m in s.machines && !s.machines[m].live
    case _ => s.worker.m in s.machines ==>
      s.machines[s.worker.m].host == "" || s.machines[s.worker.m].address == ""
  }

  lemma FairnessKept(s: System, step: Step)
    requires WorkerIsFair(s)
    ensures WorkerIsFair(Apply(s, step))
  {
  }

  lemma {:induction false} RunIsFair(s: System, steps: seq<Step>)
    requires WorkerIsFair(s)
    ensures WorkerIsFair(Exec(s, steps))
    decreases |steps|
  {
    if steps != [] {
      FairnessKept(s, steps[0]);
      RunIsFair(Apply(s, steps[0]), steps[1..]);
    }
  }

  /**
   In every run no step changes the host of a machine that has one with its
   address, and only a machine marked for deletion disappears.
   */
  lemma HostIsKept(inventories: map<string, Stored>, steps: seq<Step>, step: Step, m: nat)
    requires m in Exec(Start(inventories), steps).machines
    ensures var s := Exec(Start(inventories), steps);
      var t := Apply(s, step);
      && (m !in t.machines ==> !s.machines[m].live)
      && (m in t.machines && s.machines[m].host != "" && s.machines[m].address != "" ==>
            t.machines[m].host == s.machines[m].host && t.machines[m].address == s.machines[m].address)
  {
    RunIsFair(Start(inventories), steps);
  }

  // ----- A run that gives one host to two machines

  lemma {:induction false} ExecConcat(s: System, a: seq<Step>, b: seq<Step>)
    ensures Exec(s, a + b) == Exec(Exec(s, a), b)
    decreases |a|
  {
    if a == [] {
      assert a + b == b;
    } else {
      assert (a + b)[1..] == a[1..] + b;
      ExecConcat(Apply(s, a[0]), a[1..], b);
    }
  }

  lemma ExecThen(s: System, steps: seq<Step>, t: System, step: Step)
    requires Exec(s, steps) == t
    ensures Exec(s, steps + [step]) == Apply(t, step)
  {
    ExecConcat(s, steps, [step]);
    assert [step][1..] == [];
  }

  /** Only host `i` is available, all others are under maintenance. */
  ghost predicate OnlyFree(inv: Inventory, i: nat) {
    && |inv.entries| == |inv.hosts| && i < |inv.hosts|
    && forall j :: 0 <= j < |inv.entries| ==> inv.entries[j].state == if j == i then Available else Maintenance
  }

  /** Lists that fail for all hosts but `i`. */
  function Isolating(n: nat, i: nat, names: set<string>): seq<Listing> {
    seq(n, j => if j == i then Some(names) else None)
  }

  /** From the middle of a recount to its end, with every list failing except the one for host `i`. */
  lemma {:induction false} CountOn(s: System, i: nat) returns (steps: seq<Step>)
    requires s.counter.Counting? && |s.counter.listings| <= |s.counter.snap.inv.hosts|
    requires s.counter.listings == Isolating(|s.counter.listings|, i, LiveNames(s.machines))
    ensures Exec(s, steps) == s.(counter := s.counter.(listings :=
      Isolating(|s.counter.snap.inv.hosts|, i, LiveNames(s.machines))))
    decreases |s.counter.snap.inv.hosts| - |s.counter.listings|
  {
    var j := |s.counter.listings|;
    if j == |s.counter.snap.inv.hosts| {
      steps := [];
    } else {
      var step := CountHost(j == i);
      var t := Apply(s, step);
      assert t.counter.listings == Isolating(j + 1, i, LiveNames(s.machines));
      var rest := CountOn(t, i);
      steps := [step] + rest;
      assert steps[1..] == rest;
    }
  }

  lemma RecountIsolates(s: System, key: string, i: nat) returns (steps: seq<Step>, inv: Inventory)
    requires s.counter.Resting? && key in s.inventories && i < |s.inventories[key].inv.hosts|
    requires s.inventories[key].inv.hosts[i].name !in LiveNames(s.machines)
    ensures inv.hosts == s.inventories[key].inv.hosts && OnlyFree(inv, i) && Balanced(inv)
    ensures Exec(s, steps) == s.(inventories := s.inventories[key := Stored(inv, s.inventories[key].version + 1)])
  {
    var snap := s.inventories[key];
    var s1 := Apply(s, BeginRecount(key));
    var counting := CountOn(s1, i);
    var listings := Isolating(|snap.inv.hosts|, i, LiveNames(s.machines));
    inv := Recounted(snap.inv, listings);
    var s2 := Exec(s1, counting);
    steps := [BeginRecount(key)] + counting;
    assert steps[1..] == counting;
    ExecThen(s, steps, s2, SaveRecount(true));
    steps := steps + [SaveRecount(true)];
    assert s2.counter == Counting(key, snap, listings);
    assert Apply(s2, SaveRecount(true)) == s.(inventories := s.inventories[key := Stored(inv, snap.version + 1)]);
  }

  /** From host `s.worker.i` the scan passes every host under maintenance and stops at host `i`. */
  lemma {:induction false} ScanOn(s: System, i: nat) returns (steps: seq<Step>)
    requires s.worker.Scanning? && s.worker.m in s.machines && s.machines[s.worker.m].role == ""
    requires s.worker.i <= i && OnlyFree(s.worker.snap.inv, i)
    requires s.worker.snap.inv.hosts[i].name !in LiveNames(s.machines)
    ensures Exec(s, steps) == s.(worker := Saving(s.worker.m, s.worker.key, s.worker.snap, i))
    decreases i - s.worker.i
  {
    var t := Apply(s, ScanHost(true));
    var rest := [];
    if s.worker.i < i {
      rest := ScanOn(t, i);
    }
    steps := [ScanHost(true)] + rest;
    assert steps[1..] == rest;
  }

  lemma AllocateTo(s: System, m: nat, key: string, i: nat) returns (steps: seq<Step>)
    requires s.worker.Idle? && m in s.machines && s.machines[m] == Machine("", "", "", true)
    requires key in s.inventories && OnlyFree(s.inventories[key].inv, i)
    requires s.inventories[key].inv.hosts[i].name !in LiveNames(s.machines)
    ensures var inv, version := s.inventories[key].inv, s.inventories[key].version;
      var host := inv.hosts[i];
      Exec(s, steps) == s.(inventories := s.inventories[key := Stored(AllocatedAt(inv, i), version + 1)],
                           machines := s.machines[m := Machine(host.hostName, host.address, "", true)])
  {
    var s1 := Apply(s, BeginAllocation(m, key));
    assert s1 == s.(worker := Scanning(m, key, s.inventories[key], 0));
    var scanning := ScanOn(s1, i);
    steps := [BeginAllocation(m, key)] + scanning;
    assert steps[1..] == scanning;
    var s2 := Exec(s, steps);
    ExecThen(s, steps, s2, SaveStatus(true));
    var s3 := Apply(s2, SaveStatus(true));
    steps := steps + [SaveStatus(true)];
    ExecThen(s, steps, s3, SaveMachine(true));
    steps := steps + [SaveMachine(true)];
  }

  /** A host whose name differs from its host name can be given to two live machines. */
  lemma MismatchIsGivenTwice(inventories: map<string, Stored>, key: string, i: nat) returns (steps: seq<Step>)
    requires key in inventories && NamedHosts(inventories[key].inv) && i < |inventories[key].inv.hosts|
    requires inventories[key].inv.hosts[i].name != inventories[key].inv.hosts[i].hostName
    ensures !Unique(Exec(Start(inventories), steps))
  {
    var host := inventories[key].inv.hosts[i];
    var s0 := Start(inventories);
    ExecThen(s0, [], s0, Create(1, ""));
    ExecThen(s0, [] + [Create(1, "")], Apply(s0, Create(1, "")), Create(2, ""));
    steps := [] + [Create(1, "")] + [Create(2, "")];
    var s1 := Exec(s0, steps);
    var fresh1 := Machine("", "", "", true);
    assert s1.machines == map[1 := fresh1, 2 := fresh1];
    var more, inv := RecountIsolates(s1, key, i);
    ExecConcat(s0, steps, more);
    steps := steps + more;
    var s2 := Exec(s1, more);
    more := AllocateTo(s2, 1, key, i);
    ExecConcat(s0, steps, more);
    steps := steps + more;
    var s3 := Exec(s2, more);
    assert s3.machines == map[1 := Machine(host.hostName, host.address, "", true), 2 := fresh1];
    more, inv := RecountIsolates(s3, key, i);
    ExecConcat(s0, steps, more);
    steps := steps + more;
    var s4 := Exec(s3, more);
    more := AllocateTo(s4, 2, key, i);
    ExecConcat(s0, steps, more);
    steps := steps + more;
    var s5 := Exec(s4, more);
    assert s5.machines[1].host == s5.machines[2].host == host.hostName;
  }

  /**
   For inventories whose hosts all carry a name and a host name: no interleaving
   ever lets two live machines name the same host exactly when the two names of
   every host are equal.
   */
  lemma UniqueExactlyWhenNamesMatch(inventories: map<string, Stored>)
    requires forall key :: key in inventories ==> NamedHosts(inventories[key].inv)
    ensures (forall steps :: Unique(Exec(Start(inventories), steps))) <==>
      forall key :: key in inventories ==> MatchingHosts(inventories[key].inv)
  {
    if forall key :: key in inventories ==> MatchingHosts(inventories[key].inv) {
      forall steps
        ensures Unique(Exec(Start(inventories), steps))
      {
        RunKeeps(Start(inventories), steps);
      }
    } else {
      var key :| key in inventories && !MatchingHosts(inventories[key].inv);
      var inv := inventories[key].inv;
      var i :| 0 <= i < |inv.hosts| && inv.hosts[i].name != inv.hosts[i].hostName;
      var steps := MismatchIsGivenTwice(inventories, key, i);
    }
  }

  /** Without interference a recount marks a host Allocated exactly when a live machine names it. */
  lemma RecountReflectsMachines(s: System, inv: Inventory, i: nat)
    requires i < |inv.hosts|
    ensures Recounted(inv, seq(|inv.hosts|, _ => List(s, true))).entries[i].state == Allocated <==>
      exists m :: m in s.machines && s.machines[m].live && s.machines[m].host == inv.hosts[i].name
  {
  }

  // ----- No lost updates, and the counters under interleaving

  /** A snapshot with the stored version is the stored inventory; an older one cannot be written. */
  ghost predicate SnapOk(inventories: map<string, Stored>, key: string, snap: Stored) {
    key in inventories && snap.version <= inventories[key].version
    && (snap.version == inventories[key].version ==> snap == inventories[key])
  }

  ghost predicate SnapInv(s: System) {
    && (match s.worker
        case Scanning(_, key, snap, _) => SnapOk(s.inventories, key, snap)
        case Saving(_, key, snap, i) =>
          SnapOk(s.inventories, key, snap) && i < |snap.inv.hosts| && EntryFree(snap.inv, i)
        case Freeing(_, key, snap, i) => SnapOk(s.inventories, key, snap) && i < |snap.inv.hosts|
        case _ => true)
    && (s.counter.Counting? ==> SnapOk(s.inventories, s.counter.key, s.counter.snap))
  }

  /** A write that goes through replaces the very inventory that was read; no snapshot becomes current by it. */
  lemma WriteReplacesWhatWasRead(s: System, key: string, snap: Stored, inv: Inventory, ok: bool)
    requires SnapOk(s.inventories, key, snap)
    ensures var w := Written(s, key, snap, inv, ok);
      w.Some? ==>
        && s.inventories[key] == snap
        && w.value == s.inventories[key := Stored(inv, snap.version + 1)]
        && forall k, other :: SnapOk(s.inventories, k, other) ==> SnapOk(w.value, k, other)
  {
  }

  /** How one step may change the stored inventory under a key. */
  ghost predicate IsUpdate(before: Inventory, after: Inventory) {
    || after == before
    || (exists i :: 0 <= i < |before.hosts| && EntryFree(before, i) && after == AllocatedAt(before, i))
    || (exists i :: 0 <= i < |before.hosts| && after == ReleasedAt(before, i))
    || (exists listings :: |listings| == |before.hosts| && after == Recounted(before, listings))
  }

  lemma SnapsKept(s: System, step: Step)
    requires SnapInv(s)
    ensures SnapInv(Apply(s, step))
  {
    if step.SaveStatus? && s.worker.Saving? {
      WriteReplacesWhatWasRead(s, s.worker.key, s.worker.snap, AllocatedAt(s.worker.snap.inv, s.worker.i), step.ok);
    } else if step.SaveRelease? && s.worker.Freeing? {
      WriteReplacesWhatWasRead(s, s.worker.key, s.worker.snap, ReleasedAt(s.worker.snap.inv, s.worker.i), step.ok);
    } else if step.SaveRecount? && s.counter.Counting? && |s.counter.listings| == |s.counter.snap.inv.hosts| {
      var Counting(key, snap, listings) := s.counter;
      WriteReplacesWhatWasRead(s, key, snap, Recounted(snap.inv, listings), step.ok);
    }
  }

  /** No update is lost: every stored status is its predecessor, or one operation applied to its predecessor. */
  lemma StepsAreOperations(s: System, step: Step, key: string)
    requires SnapInv(s) && key in s.inventories
    ensures key in Apply(s, step).inventories
    ensures IsUpdate(s.inventories[key].inv, Apply(s, step).inventories[key].inv)
  {
    if step.SaveStatus? && s.worker.Saving? {
      WriteReplacesWhatWasRead(s, s.worker.key, s.worker.snap, AllocatedAt(s.worker.snap.inv, s.worker.i), step.ok);
    } else if step.SaveRelease? && s.worker.Freeing? {
      WriteReplacesWhatWasRead(s, s.worker.key, s.worker.snap, ReleasedAt(s.worker.snap.inv, s.worker.i), step.ok);
    } else if step.SaveRecount? && s.counter.Counting? && |s.counter.listings| == |s.counter.snap.inv.hosts| {
      var Counting(key, snap, listings) := s.counter;
      WriteReplacesWhatWasRead(s, key, snap, Recounted(snap.inv, listings), step.ok);
    }
  }

  /** A release is written only over an entry that is Allocated. */
  ghost predicate ProperStep(s: System, step: Step) {
    step.SaveRelease? && step.ok && s.worker.Freeing? ==>
      s.worker.i < |s.worker.snap.inv.entries| && s.worker.snap.inv.entries[s.worker.i].state == Allocated
  }

  ghost predicate ProperRun(s: System, steps: seq<Step>)
    decreases |steps|
  {
    steps == [] || (ProperStep(s, steps[0]) && ProperRun(Apply(s, steps[0]), steps[1..]))
  }

  ghost predicate AllBalanced(s: System) {
    forall key :: key in s.inventories ==> Balanced(s.inventories[key].inv)
  }

  lemma BalanceKept(s: System, step: Step)
    requires SnapInv(s) && AllBalanced(s) && ProperStep(s, step)
    ensures AllBalanced(Apply(s, step))
  {
    if step.SaveStatus? && s.worker.Saving? {
      var Saving(m, key, snap, i) := s.worker;
      WriteReplacesWhatWasRead(s, key, snap, AllocatedAt(snap.inv, i), step.ok);
      if s.inventories[key] == snap { AllocationKeeps(snap.inv, i); }
    } else if step.SaveRelease? && s.worker.Freeing? {
      var Freeing(m, key, snap, i) := s.worker;
      WriteReplacesWhatWasRead(s, key, snap, ReleasedAt(snap.inv, i), step.ok);
      if s.inventories[key] == snap { ReleaseKeepsExactlyWhenAllocated(snap.inv, i); }
    }
  }

  /** In every interleaving whose releases are proper, all inventories keep their counters right. */
  lemma {:induction false} RunsConserve(s: System, steps: seq<Step>)
    requires SnapInv(s) && AllBalanced(s) && ProperRun(s, steps)
    ensures AllBalanced(Exec(s, steps))
    decreases |steps|
  {
    if steps != [] {
      SnapsKept(s, steps[0]);
      BalanceKept(s, steps[0]);
      RunsConserve(Apply(s, steps[0]), steps[1..]);
    }
  }

  // ----- When the counters can drift

  /** Some inventory has a host of this name. */
  ghost predicate NamesAHost(inventories: map<string, Stored>, hostName: string) {
    exists key, j ::
      key in inventories && HasHost(inventories[key].inv, j) && inventories[key].inv.hosts[j].name == hostName
  }

  /** Some inventory gives this host name to the machines that get one of its hosts. */
  ghost predicate IsGiven(inventories: map<string, Stored>, name: string) {
    exists key, i ::
      key in inventories && HasHost(inventories[key].inv, i) && inventories[key].inv.hosts[i].hostName == name
  }

  ghost predicate HasHost(inv: Inventory, i: int) {
    0 <= i < |inv.hosts|
  }

  /** The hosts of the inventories never change. */
  ghost predicate SameHosts(inventories: map<string, Stored>, now: map<string, Stored>) {
    forall key :: key in now ==> key in inventories && now[key].inv.hosts == inventories[key].inv.hosts
  }

  /** What holds while no machine carries the name of a host: none is ever released. */
  ghost predicate NothingToFree(inventories: map<string, Stored>, s: System) {
    && SameHosts(inventories, s.inventories)
    && (forall m :: m in s.machines && s.machines[m].host != "" ==> IsGiven(inventories, s.machines[m].host))
    && (match s.worker
        case Scanning(_, key, snap, _) => key in inventories && snap.inv.hosts == inventories[key].inv.hosts
        case Saving(_, key, snap, _) => key in inventories && snap.inv.hosts == inventories[key].inv.hosts
        case Naming(_, host) => IsGiven(inventories, host.hostName)
        case Freeing(_, _, _, _) => false
        case _ => true)
    && (s.counter.Counting? ==>
          s.counter.key in inventories && s.counter.snap.inv.hosts == inventories[s.counter.key].inv.hosts)
  }

  lemma NothingToFreeKept(inventories: map<string, Stored>, s: System, step: Step)
    requires forall name :: IsGiven(inventories, name) ==> !NamesAHost(inventories, name)
    requires NothingToFree(inventories, s)
    ensures NothingToFree(inventories, Apply(s, step))
  {
    if step.BeginDeletion? {
      NothingFreedByDeletion(inventories, s, step.m, step.key);
    } else if step.BeginAllocation? || step.ScanHost? || step.SaveStatus? || step.SaveRelease? {
      NothingFreedByWorker(inventories, s, step);
    } else {
      NothingFreedByOthers(inventories, s, step);
    }
  }

  lemma NothingFreedByOthers(inventories: map<string, Stored>, s: System, step: Step)
    requires NothingToFree(inventories, s)
    requires !(step.BeginDeletion? || step.BeginAllocation? || step.ScanHost? || step.SaveStatus? || step.SaveRelease?)
    ensures NothingToFree(inventories, Apply(s, step))
  {
  }

  lemma NothingFreedByWorker(inventories: map<string, Stored>, s: System, step: Step)
    requires NothingToFree(inventories, s)
    requires step.BeginAllocation? || step.ScanHost? || step.SaveStatus? || step.SaveRelease?
    ensures NothingToFree(inventories, Apply(s, step))
  {
    if s.worker.Saving? && s.worker.i < |s.worker.snap.inv.hosts| {
      assert HasHost(inventories[s.worker.key].inv, s.worker.i);
    }
  }

  lemma NothingFreedByDeletion(inventories: map<string, Stored>, s: System, m: nat, key: string)
    requires forall name :: IsGiven(inventories, name) ==> !NamesAHost(inventories, name)
    requires NothingToFree(inventories, s)
    ensures NothingToFree(inventories, Apply(s, BeginDeletion(m, key)))
  {
    if m in s.machines && s.machines[m].host != "" && key in s.inventories {
      var hosts := s.inventories[key].inv.hosts;
      var i := IndexOf(hosts, s.machines[m].host);
      if i < |hosts| {
        assert HasHost(inventories[key].inv, i);
        assert NamesAHost(inventories, s.machines[m].host);
      }
    }
  }

  lemma {:induction false} NothingFreedConserves(inventories: map<string, Stored>, s: System, steps: seq<Step>)
    requires forall name :: IsGiven(inventories, name) ==> !NamesAHost(inventories, name)
    requires NothingToFree(inventories, s)
    ensures ProperRun(s, steps)
    decreases |steps|
  {
    if steps != [] {
      NothingToFreeKept(inventories, s, steps[0]);
      NothingFreedConserves(inventories, Apply(s, steps[0]), steps[1..]);
    }
  }

  /** A release of a host that a recount has already freed makes one host too many available. */
  lemma ReleaseDrifts(s: System, m: nat, key: string, i: nat) returns (steps: seq<Step>)
    requires s.worker.Idle? && m in s.machines && !s.machines[m].live && s.machines[m].host != ""
    requires key in s.inventories && Balanced(s.inventories[key].inv) && OnlyFree(s.inventories[key].inv, i)
    requires i == IndexOf(s.inventories[key].inv.hosts, s.machines[m].host)
    ensures var t := Exec(s, steps);
      key in t.inventories && t.inventories[key].inv.availableHosts > t.inventories[key].inv.totalHosts
  {
    NoneAllocated(s.inventories[key].inv.entries);
    var s1 := Apply(s, BeginDeletion(m, key));
    assert s1 == s.(worker := Freeing(m, key, s.inventories[key], i));
    ExecThen(s, [], s, BeginDeletion(m, key));
    ExecThen(s, [] + [BeginDeletion(m, key)], s1, SaveRelease(true));
    steps := [] + [BeginDeletion(m, key)] + [SaveRelease(true)];
  }

  /**
   The life of one machine: created, given a host, marked for deletion and, after
   a recount that already frees the entry, released.
   */
  lemma DeletionDrifts(inventories: map<string, Stored>, key: string, i: nat, key': string, j: nat)
      returns (steps: seq<Step>)
    requires key in inventories && i < |inventories[key].inv.hosts| && NamedHosts(inventories[key].inv)
    requires key' in inventories && j < |inventories[key'].inv.hosts|
    requires inventories[key].inv.hosts[i].hostName == inventories[key'].inv.hosts[j].name
    ensures var s := Exec(Start(inventories), steps);
      key' in s.inventories && s.inventories[key'].inv.availableHosts > s.inventories[key'].inv.totalHosts
  {
    var s0 := Start(inventories);
    var host := inventories[key].inv.hosts[i];
    ExecThen(s0, [], s0, Create(1, ""));
    steps := [] + [Create(1, "")];
    var s1 := Exec(s0, steps);
    assert s1.machines == map[1 := Machine("", "", "", true)];
    var more, inv := RecountIsolates(s1, key, i);
    ExecConcat(s0, steps, more);
    steps := steps + more;
    var s2 := Exec(s1, more);
    more := AllocateTo(s2, 1, key, i);
    ExecConcat(s0, steps, more);
    steps := steps + more;
    var s3 := Exec(s2, more);
    ExecThen(s0, steps, s3, MarkDeleted(1));
    steps := steps + [MarkDeleted(1)];
    var s4 := Apply(s3, MarkDeleted(1));
    assert s4.machines == map[1 := Machine(host.hostName, host.address, "", false)];
    var first := IndexOf(inventories[key'].inv.hosts, host.hostName);
    assert s4.inventories[key'].inv.hosts == inventories[key'].inv.hosts;
    more, inv := RecountIsolates(s4, key', first);
    ExecConcat(s0, steps, more);
    steps := steps + more;
    var s5 := Exec(s4, more);
    more := ReleaseDrifts(s5, 1, key', first);
    ExecConcat(s0, steps, more);
    steps := steps + more;
  }

  /**
   From balanced inventories of named hosts: the counters stay right in every
   interleaving exactly when no host name that machines are given is the name of a
   host. In particular one host whose two names are equal is enough for a run that
   leaves more hosts available than there are.
   */
  lemma ConservedExactlyWhenNothingIsFreed(inventories: map<string, Stored>)
    requires AllBalanced(Start(inventories))
    requires forall key :: key in inventories ==> NamedHosts(inventories[key].inv)
    ensures (forall steps :: AllBalanced(Exec(Start(inventories), steps))) <==>
      forall name :: IsGiven(inventories, name) ==> !NamesAHost(inventories, name)
  {
    if name :| IsGiven(inventories, name) && NamesAHost(inventories, name) {
      var key, i :|
        key in inventories && HasHost(inventories[key].inv, i) && inventories[key].inv.hosts[i].hostName == name;
      var key', j :|
        key' in inventories && HasHost(inventories[key'].inv, j) && inventories[key'].inv.hosts[j].name == name;
      var steps := DeletionDrifts(inventories, key, i, key', j);
      assert !Balanced(Exec(Start(inventories), steps).inventories[key'].inv);
    } else {
      forall steps
        ensures AllBalanced(Exec(Start(inventories), steps))
      {
        NothingFreedConserves(inventories, Start(inventories), steps);
        RunsConserve(Start(inventories), steps);
      }
    }
  }
}
