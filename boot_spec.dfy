/** What `get_memory_map` and `exit_boot_services` (src/boot.rs:240-351) do,
    as functions of the firmware and the history before the call: the whole
    history after the call and how the call ends. Both functions take a
    `fuel` bound on the number of GetMemoryMap calls per loop, because the
    source's loops have none; `Running` means the fuel ran out. */
module BootSpec {
  import opened Bytes
  import opened Status
  import opened Memory
  import opened Firmware
  import opened Reclassify
  import Arith

  /** How a call ends, and every boot-service call made until then. */
  datatype Run = Run(outcome: Outcome<MapInfo>, history: seq<Event>)

  /** Which page count a regrowth step passes to `free_pages`: the count just
      computed for the new buffer, as the source does, or the count of the
      buffer being freed. */
  datatype FreeCount = NewCount | HeldCount

  /** The pages a regrowth step frees: `held` is the size of the buffer being
      freed, `reported` the map size the firmware just asked for. */
  function FreedPages(count: FreeCount, held: nat, reported: nat): nat
  {
    match count
    case NewCount => reported / PAGE_SIZE + 1
    case HeldCount => held
  }

  /** The negotiation loop of `get_memory_map` (src/boot.rs:252-270) and the
      check after it (src/boot.rs:272-277), from a map whose buffer is at
      `m.address`, `m.allocSize` pages long, claimed to be `m.size` bytes:
      one GetMemoryMap call, then `Answered`. */
  function Regrow(o: Oracle, mt: MemoryType, m: MapInfo, h: seq<Event>, fuel: nat, count: FreeCount): Run
    decreases fuel, 2
  {
    if fuel == 0 then Run(Running, h)
    else
      var reply := o.getMemoryMap(h, m.address, m.size);
      Answered(o, mt, m, reply, h + [GetMemoryMapCall(m.address, m.size, reply)], fuel, count)
  }

  /** The loop once GetMemoryMap answered `reply`: every field it reported is
      stored; SUCCESS leaves the loop and the stride is checked, anything else
      frees the buffer as `Freed` continues. */
  function Answered(o: Oracle, mt: MemoryType, m: MapInfo, reply: MapReply, h: seq<Event>, fuel: nat,
                    count: FreeCount): Run
    requires fuel > 0
    decreases fuel, 1
  {
    var m1 := m.(size := reply.size, key := reply.key, descriptorSize := reply.descriptorSize,
                 version := reply.version);
    if reply.status == Success then
      if reply.descriptorSize >= DESCRIPTOR_SIZE then Run(Returned(Ok(m1.(bytes := reply.contents))), h)
      else Run(Panicked, h)
    else
      var freed := FreedPages(count, m.allocSize, reply.size);
      var f := o.freePages(h, m.address, freed);
      Freed(o, mt, m1.(allocSize := reply.size / PAGE_SIZE + 1), f, h + [FreePagesCall(m.address, freed, f)],
            fuel, count)
  }

  /** The loop once `free_pages` answered `f`: an error is returned, otherwise
      `m.allocSize` new pages are allocated and the loop starts over with them. */
  function Freed(o: Oracle, mt: MemoryType, m: MapInfo, f: Result<()>, h: seq<Event>, fuel: nat,
                 count: FreeCount): Run
    requires fuel > 0
    decreases fuel, 0
  {
    if f.Err? then Run(Returned(Err(f.error)), h)
    else
      var a := o.allocatePages(h, mt, m.allocSize);
      var h1 := h + [AllocatePagesCall(mt, m.allocSize, a)];
      if a.Err? then Run(Returned(Err(a.error)), h1)
      else Regrow(o, mt, m.(address := a.value), h1, fuel - 1, count)
  }

  /** `get_memory_map(memory_type)`: one page first, then the loop. */
  function GetMemoryMapSpec(o: Oracle, mt: MemoryType, h: seq<Event>, fuel: nat, count: FreeCount): (run: Run)
  {
    var a := o.allocatePages(h, mt, 1);
    var h1 := h + [AllocatePagesCall(mt, 1, a)];
    if a.Err? then Run(Returned(Err(a.error)), h1)
    else Regrow(o, mt, MapInfo(a.value, 1, PAGE_SIZE, 0, 0, 0, []), h1, fuel, count)
  }

  /** The rewrite over `iter_mut` once the firmware accepted the exit
      (src/boot.rs:341-350). A zero stride panics in `chunks_mut`; a stride
      below DESCRIPTOR_SIZE panics in the iterator's `debug_assert!` as soon
      as there is one whole chunk, and otherwise iterates nothing. */
  function Rewrite(m: MapInfo): Outcome<MapInfo>
  {
    if m.descriptorSize == 0 then Panicked
    else if m.descriptorSize < DESCRIPTOR_SIZE then
      if m.size < m.descriptorSize then Returned(Ok(m)) else Panicked
    else Returned(Ok(m.(bytes := RewriteMap(m.bytes, m.descriptorSize))))
  }

  /** The buffer `bytes` once the loop over `iter_mut` has visited `count`
      entries of the buffer that was `before`: with a short stride the loop
      visits none (the first full chunk panics). */
  ghost predicate Visited(bytes: seq<u8>, before: seq<u8>, ds: nat, count: nat)
  {
    if ds >= DESCRIPTOR_SIZE then
      Arith.Offset(count, ds) <= |before| && bytes == Reclassified(before, ds, count)
    else bytes == before && count == 0
  }

  /** Visiting entry `count` extends a visited prefix by one entry. */
  lemma VisitedStep(current: seq<u8>, next: seq<u8>, before: seq<u8>, ds: nat, count: nat)
    requires ds >= DESCRIPTOR_SIZE && Arith.Offset(count + 1, ds) <= |before|
    requires Visited(current, before, ds, count) && |current| == |before| && next == Visit(current, ds, count)
    ensures Visited(next, before, ds, count + 1)
  {
    ReclassifiedStep(before, ds, count);
  }

  /** The loop over `iter_mut` writes nothing at or past byte `size` of the
      buffer while its entries end by then. */
  lemma VisitedTail(bytes: seq<u8>, before: seq<u8>, ds: nat, count: nat, size: nat)
    requires Visited(bytes, before, ds, count) && size <= |before|
    requires ds >= DESCRIPTOR_SIZE ==> Arith.Offset(count, ds) <= size
    ensures bytes[size..] == before[size..]
  {
    if ds >= DESCRIPTOR_SIZE {
      ReclassifiedTail(before, ds, count, size);
    }
  }

  /** The loop over `iter_mut` once it has visited `count` entries and found
      no more: it ends as `Rewrite` says. */
  lemma RewriteDone(m: MapInfo, before: seq<u8>, after: seq<u8>, count: nat)
    requires m.descriptorSize > 0 && m.size <= |before| && m.bytes == before[..m.size]
    requires count == Arith.Count(m.size, m.descriptorSize) && Visited(after, before, m.descriptorSize, count)
    ensures Rewrite(m) == Returned(Ok(m.(bytes := after[..m.size])))
  {
    var ds := m.descriptorSize;
    if ds >= DESCRIPTOR_SIZE {
      RewriteMapPrefix(before, ds, m.size);
    } else {
      Arith.OffsetFits(m.size, ds, 0);
    }
  }

  /** The recovery loop (src/boot.rs:316-338), entered after a failed exit:
      query the map again into the same buffer, with the size last reported,
      then `Requeried`. */
  function Recover(o: Oracle, m: MapInfo, h: seq<Event>, fuel: nat): Run
    decreases fuel, 2
  {
    if fuel == 0 then Run(Running, h)
    else
      var reply := o.getMemoryMap(h, m.address, m.size);
      Requeried(o, m, reply, h + [GetMemoryMapCall(m.address, m.size, reply)], fuel)
  }

  /** The recovery loop once GetMemoryMap answered `reply`: a failure aborts,
      a success stores the new map and tries to exit with its key. */
  function Requeried(o: Oracle, m: MapInfo, reply: MapReply, h: seq<Event>, fuel: nat): Run
    requires fuel > 0
    decreases fuel, 1
  {
    if reply.status != Success then Run(Returned(Err(Aborted)), h)
    else
      var m1 := m.(size := reply.size, key := reply.key, descriptorSize := reply.descriptorSize,
                   version := reply.version, bytes := reply.contents);
      var e := o.exitBootServices(h, m1.key);
      Exited(o, m1, e, h + [ExitBootServicesCall(m1.key, e)], fuel)
  }

  /** The recovery loop once ExitBootServices answered `e`: success leaves
      the loop for the rewrite, failure goes round again. */
  function Exited(o: Oracle, m: MapInfo, e: Result<()>, h: seq<Event>, fuel: nat): Run
    requires fuel > 0
    decreases fuel, 0
  {
    if e.Ok? then Run(Rewrite(m), h) else Recover(o, m, h, fuel - 1)
  }

  /** `exit_boot_services` (src/boot.rs:310-351), its map obtained with
      the page count `count` for the frees. */
  function ExitSpec(o: Oracle, h: seq<Event>, fuel: nat, count: FreeCount): (run: Run)
  {
    var g := GetMemoryMapSpec(o, LoaderData, h, fuel, count);
    if !(g.outcome.Returned? && g.outcome.result.Ok?) then g
    else
      var m := g.outcome.result.value;
      var e := o.exitBootServices(g.history, m.key);
      var h1 := g.history + [ExitBootServicesCall(m.key, e)];
      if e.Ok? then Run(Rewrite(m), h1) else Recover(o, m, h1, fuel)
  }
}
