/**
 The bare-metal host inventory: the status entries of its hosts and the three
 counters kept beside them. A recount rebuilds the status from the machines; an
 allocation and a release change one entry and adjust the counters.

 A list of machines can fail. Its result is an Option of the set of host names
 that live machines carry.
 */
module HostInventory {
  import opened Wrappers

  datatype Host = Host(name: string, hostName: string, address: string, role: string)

  /** `Unset` is the zero value of an entry that nothing has written yet. */
  datatype HostState = Unset | Available | Allocated | Maintenance
  datatype Entry = Entry(name: string, state: HostState)

  datatype Inventory = Inventory(hosts: seq<Host>, entries: seq<Entry>, totalHosts: int, availableHosts: int,
                                 allocatedHosts: int)

  type Listing = Option<set<string>>

  function CountAllocated(entries: seq<Entry>): nat {
    if entries == [] then 0
    else CountAllocated(entries[..|entries| - 1]) + if entries[|entries| - 1].state == Allocated then 1 else 0
  }

  /** Every host has an entry and the counters say what the entries say. */
  ghost predicate Balanced(inv: Inventory) {
    && |inv.entries| == |inv.hosts| == inv.totalHosts
    && inv.allocatedHosts == CountAllocated(inv.entries)
    && inv.availableHosts + inv.allocatedHosts == inv.totalHosts
  }

  // ----- The three operations

  function RecountedEntry(host: Host, listing: Listing): Entry {
    match listing
    case None => Entry(host.name, Maintenance)
    case Some(names) => Entry(host.name, if host.name in names then Allocated else Available)
  }

  function RecountedEntries(hosts: seq<Host>, listings: seq<Listing>): seq<Entry>
    requires |listings| == |hosts|
  {
    seq(|hosts|, i requires 0 <= i < |hosts| => RecountedEntry(hosts[i], listings[i]))
  }

  function Recounted(inv: Inventory, listings: seq<Listing>): Inventory
    requires |listings| == |inv.hosts|
  {
    var entries := RecountedEntries(inv.hosts, listings);
    var allocatedHosts := CountAllocated(entries);
    Inventory(inv.hosts, entries, |inv.hosts|, |inv.hosts| - allocatedHosts, allocatedHosts)
  }

  /** The entry does not rule the host out: it is missing or Available. */
  predicate EntryFree(inv: Inventory, i: nat) {
    i < |inv.entries| ==> inv.entries[i].state == Available
  }

  predicate RoleFits(host: Host, role: string) {
    role == "" || host.role == role
  }

  function Zeros(n: nat): seq<Entry> {
    seq(n, _ => Entry("", Unset))
  }

  /** The entries, extended by zero values so that index `i` exists. */
  function Extended(inv: Inventory, i: nat): (e: seq<Entry>)
    requires i < |inv.hosts|
    ensures i < |e|
  {
    if inv.entries == [] then Zeros(|inv.hosts|)
    else if i >= |inv.entries| then inv.entries + Zeros(i - |inv.entries| + 1)
    else inv.entries
  }

  function AllocatedAt(inv: Inventory, i: nat): Inventory
    requires i < |inv.hosts|
  {
    inv.(entries := Extended(inv, i)[i := Entry(inv.hosts[i].name, Allocated)],
         availableHosts := inv.availableHosts - 1, allocatedHosts := inv.allocatedHosts + 1)
  }

  function ReleasedAt(inv: Inventory, i: nat): Inventory {
    inv.(entries := if i < |inv.entries| then inv.entries[i := inv.entries[i].(state := Available)] else inv.entries,
         availableHosts := inv.availableHosts + 1,
         allocatedHosts := if inv.allocatedHosts > 0 then inv.allocatedHosts - 1 else inv.allocatedHosts)
  }

  /** Where the search for a free host ends. */
  datatype Choice = Chosen(index: nat) | ListFailed | NoneFree

  /** The first host that fits the role, has a free entry and is not named by a live machine. */
  function Choose(inv: Inventory, role: string, listings: seq<Listing>, i: nat): Choice
    requires |listings| == |inv.hosts|
    decreases |inv.hosts| - i
  {
    if i >= |inv.hosts| then NoneFree
    else if !RoleFits(inv.hosts[i], role) || !EntryFree(inv, i) then Choose(inv, role, listings, i + 1)
    else match listings[i]
      case None => ListFailed
      case Some(names) => if inv.hosts[i].name in names then Choose(inv, role, listings, i + 1) else Chosen(i)
  }

  function IndexOf(hosts: seq<Host>, name: string): (i: nat)
    ensures i <= |hosts|
    ensures i < |hosts| ==> hosts[i].name == name
    ensures forall j :: 0 <= j < i ==> hosts[j].name != name
  {
    if hosts == [] || hosts[0].name == name then 0 else 1 + IndexOf(hosts[1..], name)
  }

  /** An inventory object and the controllers' operations on it. */
  class Object {
    const hosts: seq<Host>
    var entries: seq<Entry>
    var totalHosts: int
    var availableHosts: int
    var allocatedHosts: int

    ghost function Value(): Inventory reads this {
      Inventory(hosts, entries, totalHosts, availableHosts, allocatedHosts)
    }

    method Recount(listings: seq<Listing>)
      requires |listings| == |hosts|
      modifies this
      ensures Value() == Recounted(old(Value()), listings)
      ensures |entries| == totalHosts == |hosts| && availableHosts == |hosts| - allocatedHosts
      ensures forall i :: 0 <= i < |hosts| ==>
        && entries[i].name == hosts[i].name
        && (entries[i].state == Maintenance <==> listings[i].None?)
        && (entries[i].state == Allocated <==> listings[i].Some? && hosts[i].name in listings[i].value)
        && (entries[i].state == Available <==> listings[i].Some? && hosts[i].name !in listings[i].value)
    {
      var newEntries, free, taken := [], 0, 0;
      ghost var all := RecountedEntries(hosts, listings);
      for i := 0 to |hosts|
        invariant newEntries == all[..i]
        invariant taken == CountAllocated(newEntries) && free == i - taken
      {
        var state := Available;
        if listings[i].None? {
          state := Maintenance;
        } else if hosts[i].name in listings[i].value {
          state := Allocated;
        }
        newEntries := newEntries + [Entry(hosts[i].name, state)];
        assert newEntries[..i] == all[..i];
        if state == Allocated { taken := taken + 1; } else { free := free + 1; }
      }
      assert all[..|hosts|] == all;
      totalHosts, entries, availableHosts, allocatedHosts := |hosts|, newEntries, free, taken;
    }

    /** Allocation in memory; the caller decides whether the status write went through. */
    method Allocate(role: string, listings: seq<Listing>) returns (choice: Choice)
      requires |listings| == |hosts|
      modifies this
      ensures choice == Choose(old(Value()), role, listings, 0)
      ensures choice.Chosen? ==> choice.index < |hosts| && Value() == AllocatedAt(old(Value()), choice.index)
      ensures choice.Chosen? ==>
        && choice.index < |entries| && entries[choice.index] == Entry(hosts[choice.index].name, Allocated)
        && (forall j :: 0 <= j < |old(entries)| && j != choice.index ==> j < |entries| && entries[j] == old(entries)[j])
        && availableHosts == old(availableHosts) - 1 && allocatedHosts == old(allocatedHosts) + 1
        && totalHosts == old(totalHosts)
      ensures !choice.Chosen? ==> Value() == old(Value())
    {
      for i := 0 to |hosts|
        invariant Value() == old(Value())
        invariant Choose(Value(), role, listings, 0) == Choose(Value(), role, listings, i)
      {
        var host := hosts[i];
        if role != "" && host.role != role { continue; }
        if i < |entries| && entries[i].state != Available { continue; }
        if listings[i].None? { return ListFailed; }
        if host.name in listings[i].value { continue; }
        if entries == [] {
          entries := Zeros(|hosts|);
        }
        if i >= |entries| {
          entries := entries + Zeros(i - |entries| + 1);
        }
        entries := entries[i := Entry(host.name, Allocated)];
        availableHosts, allocatedHosts := availableHosts - 1, allocatedHosts + 1;
        return Chosen(i);
      }
      return NoneFree;
    }

    method Release(hostName: string)
      modifies this
      ensures var i := IndexOf(hosts, hostName);
        Value() == if i < |hosts| then ReleasedAt(old(Value()), i) else old(Value())
      ensures (forall h :: h in hosts ==> h.name != hostName) ==> Value() == old(Value())
      ensures (exists h :: h in hosts && h.name == hostName) ==>
        && totalHosts == old(totalHosts) && availableHosts == old(availableHosts) + 1
        && allocatedHosts == (if old(allocatedHosts) > 0 then old(allocatedHosts) - 1 else old(allocatedHosts))
        && |entries| == |old(entries)|
        && forall j :: 0 <= j < |entries| ==>
             entries[j].name == old(entries)[j].name
             && entries[j].state == if j == IndexOf(hosts, hostName) then Available else old(entries)[j].state
    {
      for i := 0 to |hosts|
        invariant Value() == old(Value())
        invariant forall j :: 0 <= j < i ==> hosts[j].name != hostName
      {
        if hosts[i].name == hostName {
          assert IndexOf(hosts, hostName) == i;
          if i < |entries| {
            entries := entries[i := entries[i].(state := Available)];
          }
          availableHosts := availableHosts + 1;
          if allocatedHosts > 0 { allocatedHosts := allocatedHosts - 1; }
          return;
        }
      }
    }
  }

  // ----- Conservation

  lemma {:induction false} CountBound(entries: seq<Entry>)
    ensures CountAllocated(entries) <= |entries|
  {
    if entries != [] {
      CountBound(entries[..|entries| - 1]);
    }
  }

  lemma {:induction false} CountUpdate(entries: seq<Entry>, i: nat, e: Entry)
    requires i < |entries|
    ensures CountAllocated(entries[i := e]) ==
      CountAllocated(entries) + (if e.state == Allocated then 1 else 0) - if entries[i].state == Allocated then 1 else 0
  {
    var last := |entries| - 1;
    if i == last {
      assert entries[i := e][..last] == entries[..last];
    } else {
      CountUpdate(entries[..last], i, e);
      assert entries[i := e][..last] == entries[..last][i := e];
    }
  }

  lemma {:induction false} SomeAllocated(entries: seq<Entry>, i: nat)
    requires i < |entries| && entries[i].state == Allocated
    ensures CountAllocated(entries) > 0
  {
    var last := |entries| - 1;
    if i < last {
      SomeAllocated(entries[..last], i);
    }
  }

  /** What a balanced inventory means for a reader of the counters. */
  lemma BalancedCounters(inv: Inventory)
    requires Balanced(inv)
    ensures 0 <= inv.availableHosts <= inv.totalHosts && 0 <= inv.allocatedHosts <= inv.totalHosts
  {
    CountBound(inv.entries);
  }

  lemma AllocationKeeps(inv: Inventory, i: nat)
    requires Balanced(inv) && i < |inv.hosts| && EntryFree(inv, i)
    ensures Balanced(AllocatedAt(inv, i))
  {
    CountUpdate(inv.entries, i, Entry(inv.hosts[i].name, Allocated));
  }

  /** A release keeps the balance exactly when the entry it frees was allocated. */
  lemma ReleaseKeepsExactlyWhenAllocated(inv: Inventory, i: nat)
    requires Balanced(inv) && i < |inv.hosts|
    ensures Balanced(ReleasedAt(inv, i)) <==> inv.entries[i].state == Allocated
  {
    CountUpdate(inv.entries, i, inv.entries[i].(state := Available));
    if inv.entries[i].state == Allocated {
      SomeAllocated(inv.entries, i);
    }
  }

  datatype Op = Recount(listings: seq<Listing>) | Allocate(role: string, listings: seq<Listing>) | Release(name: string)

  ghost predicate ValidOp(inv: Inventory, op: Op) {
    op.Release? || |op.listings| == |inv.hosts|
  }

  /** A release that names a host whose entry is Allocated, or no host at all. */
  ghost predicate ProperRelease(inv: Inventory, op: Op) {
    op.Release? && IndexOf(inv.hosts, op.name) < |inv.hosts| && IndexOf(inv.hosts, op.name) < |inv.entries| ==>
      inv.entries[IndexOf(inv.hosts, op.name)].state == Allocated
  }

  function Perform(inv: Inventory, op: Op): Inventory
    requires ValidOp(inv, op)
  {
    match op
    case Recount(listings) => Recounted(inv, listings)
    case Allocate(role, listings) =>
      var choice := Choose(inv, role, listings, 0);
      ChoiceIsFirst(inv, role, listings, 0);
      if choice.Chosen? then AllocatedAt(inv, choice.index) else inv
    case Release(name) =>
      var i := IndexOf(inv.hosts, name);
      if i < |inv.hosts| then ReleasedAt(inv, i) else inv
  }

  /** The host can be taken, going by its role, its entry and the listing. */
  ghost predicate Takable(inv: Inventory, role: string, listings: seq<Listing>, j: nat)
    requires j < |inv.hosts| == |listings|
  {
    && (role == "" || inv.hosts[j].role == role)
    && (j < |inv.entries| ==> inv.entries[j].state == Available)
    && (listings[j].Some? ==> inv.hosts[j].name !in listings[j].value)
  }

  /** The search ends at the first host that can be taken: it is chosen, unless its list of machines failed. */
  lemma {:induction false} ChoiceIsFirst(inv: Inventory, role: string, listings: seq<Listing>, i: nat)
    requires |listings| == |inv.hosts| && i <= |inv.hosts|
    ensures match Choose(inv, role, listings, i)
      case Chosen(k) =>
        && i <= k < |inv.hosts| && Takable(inv, role, listings, k) && listings[k].Some?
        && forall j :: i <= j < k ==> !Takable(inv, role, listings, j)
      case ListFailed =>
        exists k :: i <= k < |inv.hosts| && Takable(inv, role, listings, k) && listings[k].None?
          && forall j :: i <= j < k ==> !Takable(inv, role, listings, j)
      case NoneFree => forall j :: i <= j < |inv.hosts| ==> !Takable(inv, role, listings, j)
    decreases |inv.hosts| - i
  {
    if i < |inv.hosts| && !Takable(inv, role, listings, i) {
      ChoiceIsFirst(inv, role, listings, i + 1);
    }
  }

  lemma OpKeeps(inv: Inventory, op: Op)
    requires ValidOp(inv, op) && (op.Recount? || (Balanced(inv) && ProperRelease(inv, op)))
    ensures Balanced(Perform(inv, op)) && Perform(inv, op).hosts == inv.hosts
  {
    match op
    case Recount(listings) =>
    case Allocate(role, listings) =>
      ChoiceIsFirst(inv, role, listings, 0);
      if Choose(inv, role, listings, 0).Chosen? {
        AllocationKeeps(inv, Choose(inv, role, listings, 0).index);
      }
    case Release(name) =>
      if IndexOf(inv.hosts, name) < |inv.hosts| {
        ReleaseKeepsExactlyWhenAllocated(inv, IndexOf(inv.hosts, name));
      }
  }

  /** Each operation acts on the inventory the one before it left. */
  ghost predicate IsHistory(states: seq<Inventory>, ops: seq<Op>) {
    && |states| == |ops| + 1
    && forall j :: 0 <= j < |ops| ==> ValidOp(states[j], ops[j]) && states[j + 1] == Perform(states[j], ops[j])
  }

  lemma {:induction false} ProperSequenceKeeps(states: seq<Inventory>, ops: seq<Op>, k: nat)
    requires IsHistory(states, ops) && |ops| > 0 && ops[0].Recount?
    requires forall j :: 0 <= j < |ops| ==> ProperRelease(states[j], ops[j])
    requires 0 < k < |states|
    ensures Balanced(states[k])
    decreases k
  {
    if k > 1 {
      ProperSequenceKeeps(states, ops, k - 1);
    }
    assert states[k] == states[k - 1 + 1];
    OpKeeps(states[k - 1], ops[k - 1]);
  }

  /**
   From a recount on, a sequence of recounts, allocations and releases keeps the
   counters right throughout exactly when every release is of an Allocated entry
   or of no host at all.
   */
  lemma SequencesConserve(states: seq<Inventory>, ops: seq<Op>)
    requires IsHistory(states, ops) && |ops| > 0 && ops[0].Recount?
    ensures (forall k :: 0 < k < |states| ==> Balanced(states[k])) <==>
      forall j :: 0 <= j < |ops| ==> ProperRelease(states[j], ops[j])
  {
    if forall j :: 0 <= j < |ops| ==> ProperRelease(states[j], ops[j]) {
      forall k | 0 < k < |states|
        ensures Balanced(states[k])
      {
        ProperSequenceKeeps(states, ops, k);
      }
    }
    if forall k :: 0 < k < |states| ==> Balanced(states[k]) {
      forall j | 0 <= j < |ops|
        ensures ProperRelease(states[j], ops[j])
      {
        if ops[j].Release? && IndexOf(states[j].hosts, ops[j].name) < |states[j].hosts| {
          assert states[j + 1] == Perform(states[j], ops[j]);
          ReleaseKeepsExactlyWhenAllocated(states[j], IndexOf(states[j].hosts, ops[j].name));
        }
      }
    }
  }

  /**
   The first allocation from an inventory without entries blocks all its other
   hosts: no further allocation finds one until a recount.
   */
  lemma FirstAllocationBlocksTheRest(inv: Inventory, i: nat, role: string, listings: seq<Listing>)
    requires inv.entries == [] && i < |inv.hosts| == |listings|
    ensures Choose(AllocatedAt(inv, i), role, listings, 0) == NoneFree
    ensures |AllocatedAt(inv, i).entries| == |inv.hosts|
    ensures forall j :: 0 <= j < |inv.hosts| ==>
      AllocatedAt(inv, i).entries[j] == if j == i then Entry(inv.hosts[i].name, Allocated) else Entry("", Unset)
  {
    ChoiceIsFirst(AllocatedAt(inv, i), role, listings, 0);
  }

  /** The number of allocated hosts never becomes negative, not even where the counters drift. */
  lemma {:induction false} AllocatedNeverNegative(states: seq<Inventory>, ops: seq<Op>, k: nat)
    requires IsHistory(states, ops) && k < |states| && states[0].allocatedHosts >= 0
    ensures states[k].allocatedHosts >= 0
    decreases k
  {
    if k > 0 {
      AllocatedNeverNegative(states, ops, k - 1);
      assert states[k] == states[k - 1 + 1];
    }
  }

  lemma {:induction false} NoneAllocated(entries: seq<Entry>)
    requires forall j :: 0 <= j < |entries| ==> entries[j].state != Allocated
    ensures CountAllocated(entries) == 0
  {
    if entries != [] {
      NoneAllocated(entries[..|entries| - 1]);
    }
  }
}
