/** The allocation registry of the page-sampling program: a fixed table of
    three named allocations, filled by a malloc wrapper, emptied by a free
    wrapper, and charged one sample whenever a sampled data address falls
    inside a recorded allocation.  Address 0 stands for NULL. */
module AllocRegistry {
  import opened Wrappers

  /** `MAX_MALLOC`. */
  const MaxMalloc: nat := 3

  /** `var_names`: the name given to the allocation recorded for slot `i`. */
  const VarNames: seq<string> := ["A", "B", "C"]

  /** `struct mem_alloc_s`. */
  datatype Slot = Slot(address: nat, size: nat, name: Option<string>, samples: nat)

  /** The table `mem_allocation` and the counter `num_mallocs`. */
  datatype Registry = Registry(slots: seq<Slot>, count: int)

  const Cleared: Slot := Slot(0, 0, None, 0)

  /** The zero-initialised static table. */
  const Initial: Registry := Registry([Cleared, Cleared, Cleared], 0)

  predicate Shaped(reg: Registry)
  {
    |reg.slots| == MaxMalloc
  }

  /** The first slot whose address is NULL. */
  function FirstFree(slots: seq<Slot>): (i: Option<nat>)
    ensures i.Some? ==> i.value < |slots| && slots[i.value].address == 0 &&
                        forall j :: 0 <= j < i.value ==> slots[j].address != 0
    ensures i.None? <==> forall j :: 0 <= j < |slots| ==> slots[j].address != 0
  {
    if slots == [] then None
    else if slots[0].address == 0 then Some(0)
    else match FirstFree(slots[1..])
      case None => None
      case Some(k) => Some(k + 1)
  }

  /** What a malloc wrapper leaves behind: the table and the pointer it
      returns, or a write outside the table. */
  datatype MallocResult = Allocated(reg: Registry, ret: nat) | OutOfBounds

  /** Records allocation `addr` of `size` bytes under the name `VarNames[i]`
      in slot `k`. */
  function Record(reg: Registry, k: nat, i: nat, addr: nat, size: nat): Registry
    requires k < |reg.slots| && i < MaxMalloc
  {
    Registry(reg.slots[k := reg.slots[k].(address := addr, size := size, name := Some(VarNames[i]))], reg.count + 1)
  }

  /** `wrap_malloc` as written: finds the first free slot `i`, but records the
      allocation in slot `num_mallocs` (under the name of slot `i`); with no
      free slot it returns NULL.  `addr` is what `malloc` returned. */
  function MallocAsWritten(reg: Registry, size: nat, addr: nat): MallocResult
    requires Shaped(reg)
  {
    match FirstFree(reg.slots)
    case None => Allocated(reg, 0)
    case Some(i) =>
      if 0 <= reg.count < MaxMalloc then Allocated(Record(reg, reg.count, i, addr, size), addr)
      else OutOfBounds
  }

  /** Records the allocation in the free slot it found; a failed `malloc`
      (NULL) is returned without being recorded. */
  function Malloc(reg: Registry, size: nat, addr: nat): (res: MallocResult)
    requires Shaped(reg)
    ensures res.Allocated?
  {
    if addr == 0 then Allocated(reg, 0)
    else match FirstFree(reg.slots)
    case None => Allocated(reg, 0)
    case Some(i) => Allocated(Record(reg, i, i, addr, size), addr)
  }

  /** Clears every slot from `i` on whose address is `addr`, and says how
      many it cleared. */
  function ClearFrom(slots: seq<Slot>, addr: nat, i: nat): (res: (seq<Slot>, nat))
    requires i <= |slots|
    ensures |res.0| == |slots|
    decreases |slots| - i
  {
    if i == |slots| then (slots, 0)
    else if slots[i].address == addr then
      var (s, n) := ClearFrom(slots[i := slots[i].(address := 0, size := 0, name := None)], addr, i + 1);
      (s, n + 1)
    else ClearFrom(slots, addr, i + 1)
  }

  /** `wrap_free` as written: clears every slot recording `addr`, including
      every empty slot when `addr` is NULL, and decrements `num_mallocs` once
      per cleared slot. */
  function FreeAsWritten(reg: Registry, addr: nat): Registry
  {
    var (s, n) := ClearFrom(reg.slots, addr, 0);
    Registry(s, reg.count - n)
  }

  /** Freeing NULL changes nothing. */
  function Free(reg: Registry, addr: nat): Registry
  {
    if addr == 0 then reg else FreeAsWritten(reg, addr)
  }

  /** Slot `s` records an allocation containing address `a`. */
  predicate Covers(s: Slot, a: nat)
  {
    s.address != 0 && s.address <= a < s.address + s.size
  }

  /** `update`: charges one sample to every recorded allocation containing `a`. */
  function Update(reg: Registry, a: nat): (r: Registry)
    ensures |r.slots| == |reg.slots| && r.count == reg.count
  {
    Registry(seq(|reg.slots|, i requires 0 <= i < |reg.slots| =>
      var s := reg.slots[i];
      if Covers(s, a) then s.(samples := s.samples + 1) else s), reg.count)
  }

  /** One `update` per sampled address, in order. */
  function UpdateAll(reg: Registry, addrs: seq<nat>): (r: Registry)
    ensures |r.slots| == |reg.slots| && r.count == reg.count
    decreases |addrs|
  {
    if addrs == [] then reg else UpdateAll(Update(reg, addrs[0]), addrs[1..])
  }

  /** How many of the addresses fall inside the allocation of slot `s`. */
  function CoveredCount(s: Slot, addrs: seq<nat>): nat
  {
    if addrs == [] then 0 else (if Covers(s, addrs[0]) then 1 else 0) + CoveredCount(s, addrs[1..])
  }

  // ---------------------------------------------------------------------------
  // Sample accounting.
  // ---------------------------------------------------------------------------

  lemma {:induction false} CoveredIgnoresSamples(s: Slot, n: nat, addrs: seq<nat>)
    ensures CoveredCount(s.(samples := n), addrs) == CoveredCount(s, addrs)
  {
    if addrs != [] {
      CoveredIgnoresSamples(s, n, addrs[1..]);
    }
  }

  /** After a run of updates every slot has been charged exactly the number of
      sampled addresses its allocation contains, and nothing else changed. */
  lemma {:induction false} UpdateAllCounts(reg: Registry, addrs: seq<nat>, i: nat)
    requires i < |reg.slots|
    ensures UpdateAll(reg, addrs).slots[i] ==
            reg.slots[i].(samples := reg.slots[i].samples + CoveredCount(reg.slots[i], addrs))
    decreases |addrs|
  {
    if addrs != [] {
      var reg1 := Update(reg, addrs[0]);
      assert reg1.slots[i] == reg.slots[i].(samples := reg1.slots[i].samples);
      UpdateAllCounts(reg1, addrs[1..], i);
      CoveredIgnoresSamples(reg.slots[i], reg1.slots[i].samples, addrs[1..]);
    }
  }

  // ---------------------------------------------------------------------------
  // The counter invariant.
  // ---------------------------------------------------------------------------

  /** The number of slots recording an allocation. */
  function Occupied(slots: seq<Slot>): nat
  {
    if slots == [] then 0 else (if slots[0].address != 0 then 1 else 0) + Occupied(slots[1..])
  }

  /** `num_mallocs` counts the recorded allocations. */
  predicate Inv(reg: Registry)
  {
    Shaped(reg) && reg.count == Occupied(reg.slots)
  }

  /** The number of slots recording address `addr`. */
  function Recording(slots: seq<Slot>, addr: nat): nat
  {
    if slots == [] then 0 else (if slots[0].address == addr then 1 else 0) + Recording(slots[1..], addr)
  }

  lemma CountThree(a: Slot, b: Slot, c: Slot, addr: nat)
    ensures Occupied([a, b, c]) ==
            (if a.address != 0 then 1 else 0) + (if b.address != 0 then 1 else 0) + (if c.address != 0 then 1 else 0)
    ensures Recording([a, b, c], addr) ==
            (if a.address == addr then 1 else 0) + (if b.address == addr then 1 else 0) + (if c.address == addr then 1 else 0)
  {
    assert [a, b, c][1..] == [b, c];
    assert [b, c][1..] == [c];
    assert [c][1..] == [];
    assert Occupied([c]) == if c.address != 0 then 1 else 0;
    assert Occupied([b, c]) == (if b.address != 0 then 1 else 0) + Occupied([c]);
    assert Recording([c], addr) == if c.address == addr then 1 else 0;
    assert Recording([b, c], addr) == (if b.address == addr then 1 else 0) + Recording([c], addr);
  }

  lemma {:induction false} OccupiedSet(slots: seq<Slot>, k: nat, s: Slot)
    requires k < |slots|
    ensures Occupied(slots[k := s]) + (if slots[k].address != 0 then 1 else 0) ==
            Occupied(slots) + (if s.address != 0 then 1 else 0)
  {
    if k > 0 {
      assert slots[k := s][1..] == slots[1..][k - 1 := s];
      OccupiedSet(slots[1..], k - 1, s);
    }
  }

  /** The corrected wrapper records the allocation in the first free slot,
      under that slot's name, touches no other slot, and keeps the counter
      equal to the number of recorded allocations; a failed `malloc`, or a full
      table, returns NULL and changes nothing. */
  lemma MallocRecords(reg: Registry, size: nat, addr: nat)
    requires Inv(reg)
    ensures Inv(Malloc(reg, size, addr).reg)
    ensures addr == 0 || FirstFree(reg.slots).None? ==> Malloc(reg, size, addr) == Allocated(reg, 0)
    ensures addr != 0 && FirstFree(reg.slots).Some? ==>
              var i := FirstFree(reg.slots).value;
              var r := Malloc(reg, size, addr);
              r.ret == addr && r.reg.slots[i].address == addr && r.reg.slots[i].size == size &&
              r.reg.slots[i].name == Some(VarNames[i]) &&
              forall j :: 0 <= j < MaxMalloc && j != i ==> r.reg.slots[j] == reg.slots[j]
  {
    if addr != 0 && FirstFree(reg.slots).Some? {
      var i := FirstFree(reg.slots).value;
      OccupiedSet(reg.slots, i, reg.slots[i].(address := addr, size := size, name := Some(VarNames[i])));
    }
  }

  lemma {:induction false} ClearFromSpec(slots: seq<Slot>, addr: nat, i: nat)
    requires i <= |slots|
    ensures var (s, n) := ClearFrom(slots, addr, i);
            (forall j :: 0 <= j < |slots| ==>
               s[j] == if i <= j && slots[j].address == addr
                       then slots[j].(address := 0, size := 0, name := None) else slots[j]) &&
            n == Recording(slots[i..], addr) &&
            (addr != 0 ==> Occupied(s) + n == Occupied(slots)) &&
            (addr == 0 ==> Occupied(s) == Occupied(slots))
    decreases |slots| - i
  {
    if i < |slots| && slots[i].address == addr {
      var cleared := slots[i].(address := 0, size := 0, name := None);
      OccupiedSet(slots, i, cleared);
      ClearFromSpec(slots[i := cleared], addr, i + 1);
      assert slots[i := cleared][i + 1..] == slots[i + 1..];
      assert slots[i..][1..] == slots[i + 1..];
    } else if i < |slots| {
      ClearFromSpec(slots, addr, i + 1);
      assert slots[i..][1..] == slots[i + 1..];
    }
  }

  /** The corrected wrapper clears every record of `addr`, touches no other
      slot, and keeps the counter equal to the number of recorded allocations. */
  lemma FreeClears(reg: Registry, addr: nat)
    requires Inv(reg)
    ensures Inv(Free(reg, addr))
    ensures forall j :: 0 <= j < MaxMalloc ==>
              Free(reg, addr).slots[j] ==
                if addr != 0 && reg.slots[j].address == addr
                then reg.slots[j].(address := 0, size := 0, name := None) else reg.slots[j]
  {
    ClearFromSpec(reg.slots, addr, 0);
  }

  // ---------------------------------------------------------------------------
  // The wrappers as written.
  // ---------------------------------------------------------------------------

  /** The recorded allocations are exactly the first `num_mallocs` slots:
      the table looks like this as long as nothing has been freed. */
  predicate Packed(reg: Registry)
  {
    Shaped(reg) && 0 <= reg.count <= MaxMalloc &&
    forall j :: 0 <= j < MaxMalloc ==> (reg.slots[j].address != 0 <==> j < reg.count)
  }

  /** On a packed table the wrapper as written records a non-NULL allocation
      in the right slot and leaves the table packed. */
  lemma MallocAgreesWhenPacked(reg: Registry, size: nat, addr: nat)
    requires Packed(reg)
    ensures addr != 0 ==> MallocAsWritten(reg, size, addr) == Malloc(reg, size, addr)
    ensures addr != 0 ==> Packed(MallocAsWritten(reg, size, addr).reg)
  {
    if reg.count < MaxMalloc {
      assert reg.slots[reg.count].address == 0;
      assert FirstFree(reg.slots) == Some(reg.count);
    } else {
      assert FirstFree(reg.slots).None?;
    }
  }

  /** Allocating A, B and C on the initial table, as written, fills it in
      order. */
  lemma AsWrittenFillsInOrder()
    ensures MallocAsWritten(MallocAsWritten(MallocAsWritten(Initial, 8, 100).reg, 8, 200).reg, 8, 300) ==
            Allocated(Registry([Slot(100, 8, Some("A"), 0), Slot(200, 8, Some("B"), 0), Slot(300, 8, Some("C"), 0)], 3), 300)
  {
    var r1 := MallocAsWritten(Initial, 8, 100).reg;
    assert r1 == Registry([Slot(100, 8, Some("A"), 0), Cleared, Cleared], 1);
    var r2 := MallocAsWritten(r1, 8, 200).reg;
    assert FirstFree(r1.slots) == Some(1);
    assert r2 == Registry([Slot(100, 8, Some("A"), 0), Slot(200, 8, Some("B"), 0), Cleared], 2);
    assert FirstFree(r2.slots) == Some(2);
  }

  /** Allocating A, B and C, freeing B and allocating D: the wrapper as
      written records D in C's slot, so C is lost while B's slot stays free,
      and the next allocation writes past the end of the table. */
  lemma MallocAsWrittenOverwrites()
    ensures var r3 := MallocAsWritten(MallocAsWritten(MallocAsWritten(Initial, 8, 100).reg, 8, 200).reg, 8, 300).reg;
            var r4 := FreeAsWritten(r3, 200);
            MallocAsWritten(r4, 8, 400).Allocated? &&
            var r5 := MallocAsWritten(r4, 8, 400).reg;
            r5.slots[1].address == 0 && r5.slots[2].address == 400 &&
            (forall j :: 0 <= j < MaxMalloc ==> r5.slots[j].address != 300) &&
            MallocAsWritten(r5, 8, 500) == OutOfBounds
  {
    AsWrittenFillsInOrder();
    var a := Slot(100, 8, Some("A"), 0);
    var c := Slot(300, 8, Some("C"), 0);
    var r3 := Registry([a, Slot(200, 8, Some("B"), 0), c], 3);
    ClearFromSpec(r3.slots, 200, 0);
    CountThree(r3.slots[0], r3.slots[1], r3.slots[2], 200);
    assert r3.slots[0..] == r3.slots;
    var r4 := FreeAsWritten(r3, 200);
    assert r4 == Registry([a, Cleared, c], 2);
    assert FirstFree(r4.slots) == Some(1);
    var r5 := MallocAsWritten(r4, 8, 400).reg;
    assert r5 == Registry([a, Cleared, Slot(400, 8, Some("B"), 0)], 3);
    assert FirstFree(r5.slots) == Some(1);
  }

  /** The same sequence with the corrected wrappers records D in B's old
      slot and keeps C. */
  lemma MallocReusesFreedSlot()
    ensures var r3 := Malloc(Malloc(Malloc(Initial, 8, 100).reg, 8, 200).reg, 8, 300).reg;
            var r5 := Malloc(Free(r3, 200), 8, 400).reg;
            Inv(r5) && r5.slots[1].address == 400 && r5.slots[1].name == Some("B") &&
            r5.slots[2].address == 300
  {
    CountThree(Cleared, Cleared, Cleared, 0);
    var r1 := Malloc(Initial, 8, 100).reg;
    MallocRecords(Initial, 8, 100);
    var r2 := Malloc(r1, 8, 200).reg;
    MallocRecords(r1, 8, 200);
    var r3 := Malloc(r2, 8, 300).reg;
    MallocRecords(r2, 8, 300);
    assert r3.slots[0].address == 100 && r3.slots[1].address == 200 && r3.slots[2].address == 300;
    var r4 := Free(r3, 200);
    FreeClears(r3, 200);
    assert r4.slots[0].address == 100 && r4.slots[1].address == 0 && r4.slots[2].address == 300;
    assert FirstFree(r4.slots) == Some(1);
    MallocRecords(r4, 8, 400);
  }

  /** Freeing NULL on an empty table, as written, drives the counter to -3,
      and the next allocation then writes before the start of the table. */
  lemma FreeNullAsWritten()
    ensures FreeAsWritten(Initial, 0).count == -3
    ensures MallocAsWritten(FreeAsWritten(Initial, 0), 8, 100) == OutOfBounds
    ensures Free(Initial, 0) == Initial
  {
    ClearFromSpec(Initial.slots, 0, 0);
    CountThree(Cleared, Cleared, Cleared, 0);
    assert Initial.slots[0..] == Initial.slots;
    var r := FreeAsWritten(Initial, 0);
    assert r.slots == Initial.slots;
    assert FirstFree(r.slots) == Some(0);
  }

  /** A failed `malloc` on the initial table, as written, is recorded and
      counted although its slot still reads as free, so the counter no longer
      counts the recorded allocations.  Two later allocations are then both
      named "A", and a third writes past the end of the table; the corrected
      wrapper leaves the table alone. */
  lemma MallocNullAsWritten()
    ensures var r1 := MallocAsWritten(Initial, 8, 0);
            r1 == Allocated(Registry([Slot(0, 8, Some("A"), 0), Cleared, Cleared], 1), 0) &&
            Inv(Initial) && !Inv(r1.reg) &&
            var r3 := MallocAsWritten(MallocAsWritten(r1.reg, 8, 100).reg, 8, 200).reg;
            r3.slots[1] == Slot(100, 8, Some("A"), 0) && r3.slots[2] == Slot(200, 8, Some("A"), 0) &&
            MallocAsWritten(r3, 8, 300) == OutOfBounds
    ensures Malloc(Initial, 8, 0) == Allocated(Initial, 0)
  {
    var z := Slot(0, 8, Some("A"), 0);
    CountThree(Cleared, Cleared, Cleared, 0);
    CountThree(z, Cleared, Cleared, 0);
    var r1 := MallocAsWritten(Initial, 8, 0).reg;
    assert r1 == Registry([z, Cleared, Cleared], 1);
    assert FirstFree(r1.slots) == Some(0);
    var r2 := MallocAsWritten(r1, 8, 100).reg;
    assert r2 == Registry([z, Slot(100, 8, Some("A"), 0), Cleared], 2);
    assert FirstFree(r2.slots) == Some(0);
    var r3 := MallocAsWritten(r2, 8, 200).reg;
    assert r3 == Registry([z, Slot(100, 8, Some("A"), 0), Slot(200, 8, Some("A"), 0)], 3);
    assert FirstFree(r3.slots) == Some(0);
  }
}
