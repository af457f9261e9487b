/** The ledger of body storages: which were created, which are closed, and the usage counters
    (common/body_storage.go, common/disk_cache_config.go). */
module StorageLedger {

  function AtLeastZero(x: int): nat {
    if x < 0 then 0 else x
  }

  datatype Slot = Slot(disk: bool, size: nat, closed: bool)

  datatype Ledger = Ledger(slots: seq<Slot>, diskFiles: int, diskBytes: int, memoryBuffers: int, memoryBytes: int)

  datatype Event = Create(disk: bool, size: nat) | Close(i: nat) | Removal(size: nat)

  /** The counters after a creation or a close, as the storages update them, and after the removal
      of one file by the age-based cleanup. */
  function Step(l: Ledger, e: Event): Ledger {
    match e
    case Create(disk, size) =>
      if disk then l.(slots := l.slots + [Slot(true, size, false)], diskFiles := l.diskFiles + 1, diskBytes := l.diskBytes + size)
      else l.(slots := l.slots + [Slot(false, size, false)], memoryBuffers := l.memoryBuffers + 1, memoryBytes := l.memoryBytes + size)
    case Close(i) =>
      if i >= |l.slots| || l.slots[i].closed then l
      else
        var s := l.slots[i];
        var slots := l.slots[i := s.(closed := true)];
        if s.disk then l.(slots := slots, diskFiles := AtLeastZero(l.diskFiles - 1), diskBytes := AtLeastZero(l.diskBytes - s.size))
        else l.(slots := slots, memoryBuffers := l.memoryBuffers - 1, memoryBytes := l.memoryBytes - s.size)
    case Removal(size) =>
      l.(diskFiles := AtLeastZero(l.diskFiles - 1), diskBytes := AtLeastZero(l.diskBytes - size))
  }

  function Events(l: Ledger, events: seq<Event>): Ledger
    decreases |events|
  {
    if events == [] then l else Events(Step(l, events[0]), events[1..])
  }

  function OpenCount(slots: seq<Slot>, disk: bool): nat {
    if slots == [] then 0
    else (if slots[0].disk == disk && !slots[0].closed then 1 else 0) + OpenCount(slots[1..], disk)
  }

  function OpenBytes(slots: seq<Slot>, disk: bool): nat {
    if slots == [] then 0
    else (if slots[0].disk == disk && !slots[0].closed then slots[0].size else 0) + OpenBytes(slots[1..], disk)
  }

  /** The memory counters are exact. */
  predicate MemoryBalanced(l: Ledger) {
    l.memoryBuffers == OpenCount(l.slots, false) && l.memoryBytes == OpenBytes(l.slots, false)
  }

  /** The disk counters lie between zero and what the open storages hold. */
  predicate DiskBounded(l: Ledger) {
    0 <= l.diskFiles <= OpenCount(l.slots, true) && 0 <= l.diskBytes <= OpenBytes(l.slots, true)
  }

  /** All four counters are exact. */
  predicate Balanced(l: Ledger) {
    && l.diskFiles == OpenCount(l.slots, true) && l.diskBytes == OpenBytes(l.slots, true)
    && MemoryBalanced(l)
  }

  lemma {:induction false} OpenSnoc(slots: seq<Slot>, s: Slot, disk: bool)
    requires !s.closed
    ensures OpenCount(slots + [s], disk) == OpenCount(slots, disk) + (if s.disk == disk then 1 else 0)
    ensures OpenBytes(slots + [s], disk) == OpenBytes(slots, disk) + (if s.disk == disk then s.size else 0)
  {
    if slots != [] {
      OpenSnoc(slots[1..], s, disk);
      assert (slots + [s])[1..] == slots[1..] + [s];
    } else {
      assert (slots + [s])[1..] == [];
    }
  }

  lemma {:induction false} OpenClosed(slots: seq<Slot>, i: nat, disk: bool)
    requires i < |slots| && !slots[i].closed
    ensures var s := slots[i]; var after := slots[i := s.(closed := true)];
            && OpenCount(after, disk) == OpenCount(slots, disk) - (if s.disk == disk then 1 else 0)
            && OpenBytes(after, disk) == OpenBytes(slots, disk) - (if s.disk == disk then s.size else 0)
  {
    var after := slots[i := slots[i].(closed := true)];
    if i == 0 {
      assert after[1..] == slots[1..];
    } else {
      OpenClosed(slots[1..], i - 1, disk);
      assert after[1..] == slots[1..][i - 1 := slots[i].(closed := true)];
    }
  }

  lemma StepBalanced(l: Ledger, e: Event)
    requires MemoryBalanced(l) && DiskBounded(l)
    ensures MemoryBalanced(Step(l, e)) && DiskBounded(Step(l, e))
    ensures Balanced(l) && !e.Removal? ==> Balanced(Step(l, e))
  {
    match e
    case Create(disk, size) =>
      OpenSnoc(l.slots, Slot(disk, size, false), true);
      OpenSnoc(l.slots, Slot(disk, size, false), false);
    case Close(i) =>
      if i < |l.slots| && !l.slots[i].closed {
        OpenClosed(l.slots, i, true);
        OpenClosed(l.slots, i, false);
      }
    case Removal(size) =>
  }

  /** Along every run, cleanups included, the memory counters are exact and the disk counters lie
      between zero and what the open storages hold. */
  lemma {:induction false} RunBounded(l: Ledger, events: seq<Event>)
    requires MemoryBalanced(l) && DiskBounded(l)
    ensures MemoryBalanced(Events(l, events)) && DiskBounded(Events(l, events))
    decreases |events|
  {
    if events != [] {
      StepBalanced(l, events[0]);
      RunBounded(Step(l, events[0]), events[1..]);
    }
  }

  /** Without a cleanup the counters are exact along every run, the clamp never bites, and a
      second close changes nothing. */
  lemma {:induction false} RunBalanced(l: Ledger, events: seq<Event>)
    requires Balanced(l) && forall i :: 0 <= i < |events| ==> !events[i].Removal?
    ensures Balanced(Events(l, events))
    decreases |events|
  {
    if events != [] {
      StepBalanced(l, events[0]);
      RunBalanced(Step(l, events[0]), events[1..]);
    }
  }

  /** A storage that is created and closed leaves no trace in the counters. */
  lemma LifeLeavesNothing(l: Ledger, disk: bool, size: nat)
    requires Balanced(l)
    ensures var after := Step(Step(l, Create(disk, size)), Close(|l.slots|));
            Balanced(after) && after == l.(slots := after.slots)
  {
    StepBalanced(l, Create(disk, size));
    StepBalanced(Step(l, Create(disk, size)), Close(|l.slots|));
  }
}
