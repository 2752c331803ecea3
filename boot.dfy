/** `get_memory_map`, `exit_boot_services_with_map` and `exit_boot_services`
    (src/boot.rs:240-351) as methods on the firmware, each proved to make
    exactly the calls and to end exactly as the functions in BootSpec say. */
module Boot {
  import opened Bytes
  import opened Status
  import opened Memory
  import opened Firmware
  import opened Reclassify
  import opened BootSpec
  import Arith

  /** How a call ended, without the value it returned. */
  function Erased<T>(o: Outcome<T>): Outcome<()>
  {
    match o
    case Returned(Ok(_)) => Returned(Ok(()))
    case Returned(Err(e)) => Returned(Err(e))
    case Panicked => Panicked
    case Running => Running
  }

  /** `get_memory_map(memory_type)`: allocates one page, asks for the map,
      and on every failure frees the buffer and allocates
      `size / PAGE_SIZE + 1` pages instead. `count` says which page count the
      buffer is freed with: `NewCount` is the source as written, `HeldCount`
      the count of the buffer being freed. */
  method GetMemoryMap(bs: BootServices, memoryType: MemoryType, fuel: nat, count: FreeCount)
    returns (out: Outcome<MemoryMap>)
    requires bs.Valid()
    modifies bs
    ensures bs.history == GetMemoryMapSpec(bs.oracle, memoryType, old(bs.history), fuel, count).history
    ensures Erased(out) == Erased(GetMemoryMapSpec(bs.oracle, memoryType, old(bs.history), fuel, count).outcome)
    ensures out.Returned? && out.result.Ok? ==>
      fresh(out.result.value) && fresh(out.result.value.buffer) && out.result.value.Valid() &&
      out.result.value.Info() == GetMemoryMapSpec(bs.oracle, memoryType, old(bs.history), fuel, count).outcome.result.value
  {
    ghost var run := GetMemoryMapSpec(bs.oracle, memoryType, bs.history, fuel, count);
    var first, buffer := bs.AllocatePages(memoryType, 1);
    if first.Err? {
      return Returned(Err(first.error));
    }
    // the fields of the `MemoryMap` under construction
    var address: nat, allocSize: nat, size: nat := first.value, 1, PAGE_SIZE;
    var key: nat, descriptorSize: nat, version: nat := 0, 0, 0;
    ghost var spec := MapInfo(address, allocSize, size, key, descriptorSize, version, []);
    ghost var last: MapReply;
    var fuelLeft := fuel;
    while true
      invariant fresh(buffer) && buffer.Length == allocSize * PAGE_SIZE && size <= buffer.Length
      invariant spec == MapInfo(address, allocSize, size, key, descriptorSize, version, [])
      invariant Regrow(bs.oracle, memoryType, spec, bs.history, fuelLeft, count) == run
      decreases fuelLeft
    {
      if fuelLeft == 0 {
        return Running;
      }
      var reply := bs.GetMemoryMap(address, size, buffer);
      last := reply;
      assert run == Answered(bs.oracle, memoryType, spec, reply, bs.history, fuelLeft, count);
      size, key, descriptorSize, version := reply.size, reply.key, reply.descriptorSize, reply.version;
      if reply.status == Success {
        break;
      }
      var held := allocSize;
      allocSize := size / PAGE_SIZE + 1;
      var freed := bs.FreePages(address, if count == NewCount then allocSize else held);
      spec := spec.(size := size, key := key, descriptorSize := descriptorSize, version := version, allocSize := allocSize);
      assert run == Freed(bs.oracle, memoryType, spec, freed, bs.history, fuelLeft, count);
      if freed.Err? {
        return Returned(Err(freed.error));
      }
      var next, buffer' := bs.AllocatePages(memoryType, allocSize);
      if next.Err? {
        return Returned(Err(next.error));
      }
      buffer, address := buffer', next.value;
      Arith.DivBounds(size, PAGE_SIZE);
      spec := spec.(address := address);
      fuelLeft := fuelLeft - 1;
    }
    if descriptorSize < DESCRIPTOR_SIZE {
      return Panicked;
    }
    var m := new MemoryMap(buffer, address, allocSize, size, key, descriptorSize, version);
    assert m.buffer[..m.size] == last.contents;
    return Returned(Ok(m));
  }

  /** `exit_boot_services_with_map`: ExitBootServices with the given key,
      its answer passed on unchanged. */
  method ExitBootServicesWithMap(bs: BootServices, mapKey: nat) returns (r: Result<()>)
    modifies bs
    ensures r == bs.oracle.exitBootServices(old(bs.history), mapKey)
    ensures bs.history == old(bs.history) + [ExitBootServicesCall(mapKey, r)]
  {
    r := bs.ExitBootServices(mapKey);
  }

  /** `exit_boot_services`: gets a LoaderData map, exits with its key,
      re-queries and retries while the exit fails, then marks boot-services
      memory as conventional memory. */
  method ExitBootServices(bs: BootServices, fuel: nat, count: FreeCount) returns (out: Outcome<MemoryMap>)
    requires bs.Valid()
    modifies bs
    ensures bs.history == ExitSpec(bs.oracle, old(bs.history), fuel, count).history
    ensures Erased(out) == Erased(ExitSpec(bs.oracle, old(bs.history), fuel, count).outcome)
    ensures out.Returned? && out.result.Ok? ==>
      fresh(out.result.value) && out.result.value.Valid() &&
      out.result.value.Info() == ExitSpec(bs.oracle, old(bs.history), fuel, count).outcome.result.value
  {
    ghost var run := ExitSpec(bs.oracle, bs.history, fuel, count);
    var got := GetMemoryMap(bs, LoaderData, fuel, count);
    if !(got.Returned? && got.result.Ok?) {
      return got;
    }
    var m := got.result.value;
    var exited := ExitBootServicesWithMap(bs, m.key);
    if exited.Err? {
      ghost var info := m.Info();
      assert run == Recover(bs.oracle, info, bs.history, fuel);
      var retried := RetryExit(bs, m, fuel);
      if retried != Returned(Ok(())) {
        return if retried == Running then Running else Returned(Err(Aborted));
      }
    }
    assert run == Run(Rewrite(m.Info()), bs.history);
    var panicked := RewriteEntries(m);
    if panicked {
      return Panicked;
    }
    return Returned(Ok(m));
  }

  /** The recovery loop of `exit_boot_services` (src/boot.rs:316-338), entered
      after a failed exit: it re-queries the map into the same buffer and
      retries the exit, as `Recover` says; `Returned(Ok(()))` means the
      firmware accepted an exit, and the rewrite of `m` follows. */
  method RetryExit(bs: BootServices, m: MemoryMap, fuel: nat) returns (r: Outcome<()>)
    requires bs.Valid() && m.Valid()
    modifies bs, m, m.buffer
    ensures m.buffer == old(m.buffer)
    ensures r == Running || r == Returned(Err(Aborted)) || r == Returned(Ok(()))
    ensures r == Returned(Ok(())) ==> m.Valid()
    ensures r == Returned(Ok(())) ==>
      Recover(bs.oracle, old(m.Info()), old(bs.history), fuel) == Run(Rewrite(m.Info()), bs.history)
    ensures r == Running ==> Recover(bs.oracle, old(m.Info()), old(bs.history), fuel) == Run(Running, bs.history)
    ensures r == Returned(Err(Aborted)) ==>
      Recover(bs.oracle, old(m.Info()), old(bs.history), fuel) == Run(Returned(Err(Aborted)), bs.history)
  {
    ghost var run := Recover(bs.oracle, m.Info(), bs.history, fuel);
    var fuelLeft := fuel;
    while true
      invariant m.Valid() && m.buffer == old(m.buffer)
      invariant Recover(bs.oracle, m.Info(), bs.history, fuelLeft) == run
      decreases fuelLeft
    {
      if fuelLeft == 0 {
        return Running;
      }
      ghost var before := m.Info();
      var reply := bs.GetMemoryMap(m.address, m.size, m.buffer);
      assert run == Requeried(bs.oracle, before, reply, bs.history, fuelLeft);
      m.size, m.key, m.descriptorSize, m.version := reply.size, reply.key, reply.descriptorSize, reply.version;
      if reply.status != Success {
        return Returned(Err(Aborted));
      }
      assert m.Info() == before.(size := reply.size, key := reply.key, descriptorSize := reply.descriptorSize,
                                 version := reply.version, bytes := reply.contents);
      var exited := ExitBootServicesWithMap(bs, m.key);
      assert run == Exited(bs.oracle, m.Info(), exited, bs.history, fuelLeft);
      if exited.Ok? {
        return Returned(Ok(()));
      }
      fuelLeft := fuelLeft - 1;
    }
  }

  /** The loop over `iter_mut` that marks boot-services code and data as
      conventional memory (src/boot.rs:341-348), ending as `Rewrite` says. */
  method RewriteEntries(m: MemoryMap) returns (panicked: bool)
    requires m.Valid()
    modifies m.buffer
    ensures m.Valid()
    ensures Rewrite(old(m.Info())) == if panicked then Panicked else Returned(Ok(m.Info()))
    ensures m.buffer[m.size..] == old(m.buffer[m.size..])
  {
    if m.descriptorSize == 0 {
      // `chunks_mut(0)` panics
      return true;
    }
    ghost var info := m.Info();
    ghost var before := m.buffer[..];
    assert info.bytes == before[..m.size];
    var it := m.IterMut();
    panicked := VisitEntries(it, before);
    if !panicked {
      RewriteDone(info, before, m.buffer[..], it.index);
      assert m.buffer[..][..m.size] == m.buffer[..m.size];
    }
  }

  /** The `for` loop itself: each entry the iterator yields is visited in
      turn, until the iterator is exhausted or its stride check fails. */
  method VisitEntries(it: MemoryMapIteratorMut, ghost before: seq<u8>) returns (panicked: bool)
    requires it.Valid() && it.index == 0 && it.bytes[..] == before
    modifies it, it.bytes
    ensures it.Valid()
    ensures panicked <==> it.descriptorSize < DESCRIPTOR_SIZE && it.descriptorSize <= it.size
    ensures !panicked ==>
      it.index == Arith.Count(it.size, it.descriptorSize) && Visited(it.bytes[..], before, it.descriptorSize, it.index)
    ensures it.bytes[it.size..] == before[it.size..]
  {
    while true
      invariant it.Valid() && Visited(it.bytes[..], before, it.descriptorSize, it.index)
      decreases Arith.Count(it.size, it.descriptorSize) - it.index
    {
      ghost var current := it.bytes[..];
      var step := VisitNext(it, before);
      match step {
        case Exhausted =>
          Arith.OffsetCount(it.size, it.descriptorSize);
          VisitedTail(it.bytes[..], before, it.descriptorSize, it.index, it.size);
          return false;
        case AssertFailed =>
          assert it.bytes[..] == current == before;
          return true;
        case Yielded(_) =>
      }
    }
  }

  /** One round of that loop: the iterator's `next`, then the visit of the
      entry it yields. */
  method VisitNext(it: MemoryMapIteratorMut, ghost before: seq<u8>) returns (step: IterStep<DescriptorMut>)
    requires it.Valid() && Visited(it.bytes[..], before, it.descriptorSize, it.index)
    modifies it, it.bytes
    ensures it.Valid()
    ensures !step.AssertFailed? ==> Visited(it.bytes[..], before, it.descriptorSize, it.index)
    ensures step.Yielded? ==> it.index == old(it.index) + 1
    ensures step.Exhausted? ==> it.index == Arith.Count(it.size, it.descriptorSize)
    ensures step.AssertFailed? <==> it.descriptorSize < DESCRIPTOR_SIZE && it.descriptorSize <= it.size
    ensures !step.Yielded? ==> it.bytes[..] == old(it.bytes[..])
  {
    ghost var ds := it.descriptorSize;
    ghost var k := it.index;
    ghost var current := it.bytes[..];
    Arith.OffsetFits(it.size, ds, 0);
    step := it.Next();
    if step.Yielded? {
      var entry := step.item;
      assert entry.bytes == it.bytes && it.bytes[..] == current;
      ReclassifyEntry(entry, ds, k);
      VisitedStep(current, it.bytes[..], before, ds, k);
    } else if step.Exhausted? {
      assert it.bytes[..] == current;
    }
  }

  /** The body of that loop for one entry, the one at chunk `k`: if its type
      is BootServicesCode or BootServicesData, it becomes ConventionalMemory. */
  method ReclassifyEntry(entry: DescriptorMut, ghost ds: nat, ghost k: nat)
    requires entry.Valid() && ds >= DESCRIPTOR_SIZE
    requires entry.offset == Arith.Offset(k, ds) && entry.offset + ds <= entry.bytes.Length
    modifies entry.bytes
    ensures Arith.Offset(k + 1, ds) <= entry.bytes.Length
    ensures entry.bytes[..] == Visit(old(entry.bytes[..]), ds, k)
  {
    ghost var current := entry.bytes[..];
    assert current[entry.offset .. entry.offset + 4] == entry.bytes[entry.offset .. entry.offset + 4];
    var t := entry.Type();
    if t == BootServicesCode.Code() || t == BootServicesData.Code() {
      entry.SetType(ConventionalMemory.Code());
    }
  }
}
