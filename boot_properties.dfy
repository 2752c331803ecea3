/** What `get_memory_map` and `exit_boot_services` promise about the calls
    they make, read off the history their specifications produce: which call
    follows which, with which arguments, and how the last call explains how
    the function ended. */
module BootProperties {
  import opened Status
  import opened Memory
  import opened Firmware
  import opened BootSpec
  import Arith

  /** Call `i` of a history is one the negotiation loop of
      `get_memory_map(mt)` makes: GetMemoryMap into the buffer allocated just
      before, claiming no more than it holds; a free of that buffer right
      after a query that failed, of the page count `count` says; an
      allocation of `size / PAGE_SIZE + 1` pages, more than the failed query
      reported, right after a free that succeeded. Nothing else. */
  ghost predicate NegotiationStep(h: seq<Event>, i: nat, mt: MemoryType, count: FreeCount)
    requires i < |h|
  {
    match h[i]
    case GetMemoryMapCall(address, bufferSize, _) =>
      i >= 1 && h[i - 1].AllocatePagesCall? && h[i - 1].memoryType == mt &&
      h[i - 1].granted == Ok(address) && bufferSize <= h[i - 1].pages * PAGE_SIZE
    case FreePagesCall(address, pages, _) =>
      i >= 2 && h[i - 1].GetMemoryMapCall? && h[i - 1].address == address &&
      h[i - 1].reply.status != Success &&
      h[i - 2].AllocatePagesCall? && h[i - 2].granted == Ok(address) &&
      pages == FreedPages(count, h[i - 2].pages, h[i - 1].reply.size)
    case AllocatePagesCall(memoryType, pages, _) =>
      i >= 2 && memoryType == mt && h[i - 1].FreePagesCall? && h[i - 1].freed.Ok? &&
      h[i - 2].GetMemoryMapCall? && pages == h[i - 2].reply.size / PAGE_SIZE + 1 &&
      pages * PAGE_SIZE > h[i - 2].reply.size
    case ExitBootServicesCall(_, _) => false
  }

  /** How the last call of a negotiation explains how it ended: still
      looping after an allocation; a panic on a SUCCESS whose stride is
      below DESCRIPTOR_SIZE; the map of a SUCCESS, in the buffer allocated
      before it; or the error of a failed free or allocation. */
  ghost predicate NegotiationEnd(r: Run)
  {
    |r.history| >= 1 &&
    var last := r.history[|r.history| - 1];
    match r.outcome
    case Running => last.AllocatePagesCall? && last.granted.Ok?
    case Panicked =>
      last.GetMemoryMapCall? && last.reply.status == Success && last.reply.descriptorSize < DESCRIPTOR_SIZE
    case Returned(Ok(m)) =>
      |r.history| >= 2 && last.GetMemoryMapCall? && last.reply.status == Success &&
      last.reply.descriptorSize >= DESCRIPTOR_SIZE &&
      r.history[|r.history| - 2].AllocatePagesCall? &&
      m == MapInfo(last.address, r.history[|r.history| - 2].pages, last.reply.size, last.reply.key,
                   last.reply.descriptorSize, last.reply.version, last.reply.contents)
    case Returned(Err(e)) =>
      (last.FreePagesCall? && last.freed == Err(e)) || (last.AllocatePagesCall? && last.granted == Err(e))
  }

  /** What the negotiation promises from the start of `Regrow`: the history
      only grows, every call it adds is a negotiation step, and the last call
      explains the end. */
  ghost predicate NegotiationFrom(r: Run, h: seq<Event>, mt: MemoryType, count: FreeCount)
  {
    |r.history| >= |h| && r.history[..|h|] == h &&
    (forall i :: |h| <= i < |r.history| ==> NegotiationStep(r.history, i, mt, count)) &&
    NegotiationEnd(r)
  }

  /** The negotiation from a buffer that was just allocated. */
  lemma {:induction false} RegrowTrace(o: Oracle, mt: MemoryType, m: MapInfo, h: seq<Event>, fuel: nat,
                                       count: FreeCount)
    requires |h| >= 1 && h[|h| - 1] == AllocatePagesCall(mt, m.allocSize, Ok(m.address))
    requires m.size <= m.allocSize * PAGE_SIZE
    ensures NegotiationFrom(Regrow(o, mt, m, h, fuel, count), h, mt, count)
    decreases fuel, 2
  {
    if fuel > 0 {
      var reply := o.getMemoryMap(h, m.address, m.size);
      var h1 := h + [GetMemoryMapCall(m.address, m.size, reply)];
      AnsweredTrace(o, mt, m, reply, h1, fuel, count);
      var r := Regrow(o, mt, m, h, fuel, count);
      assert r.history[..|h1|][..|h|] == r.history[..|h|];
      assert h1[..|h|] == h;
      assert NegotiationStep(r.history, |h|, mt, count);
    }
  }

  /** The negotiation once GetMemoryMap answered. */
  lemma {:induction false} AnsweredTrace(o: Oracle, mt: MemoryType, m: MapInfo, reply: MapReply, h: seq<Event>,
                                         fuel: nat, count: FreeCount)
    requires fuel > 0 && |h| >= 2
    requires h[|h| - 1] == GetMemoryMapCall(m.address, m.size, reply)
    requires h[|h| - 2] == AllocatePagesCall(mt, m.allocSize, Ok(m.address))
    ensures NegotiationFrom(Answered(o, mt, m, reply, h, fuel, count), h, mt, count)
    decreases fuel, 1
  {
    if reply.status != Success {
      var freed := FreedPages(count, m.allocSize, reply.size);
      var f := o.freePages(h, m.address, freed);
      var h1 := h + [FreePagesCall(m.address, freed, f)];
      var m1 := m.(size := reply.size, key := reply.key, descriptorSize := reply.descriptorSize,
                   version := reply.version, allocSize := reply.size / PAGE_SIZE + 1);
      FreedTrace(o, mt, m1, f, h1, fuel, count);
      var r := Answered(o, mt, m, reply, h, fuel, count);
      assert r.history[..|h1|][..|h|] == r.history[..|h|];
      assert h1[..|h|] == h;
      assert r.history[|h| - 1] == h[|h| - 1] && r.history[|h| - 2] == h[|h| - 2];
      assert NegotiationStep(r.history, |h|, mt, count);
    }
  }

  /** The negotiation once `free_pages` answered. */
  lemma {:induction false} FreedTrace(o: Oracle, mt: MemoryType, m: MapInfo, f: Result<()>, h: seq<Event>,
                                      fuel: nat, count: FreeCount)
    requires fuel > 0 && |h| >= 2 && h[|h| - 1].FreePagesCall? && h[|h| - 1].freed == f
    requires h[|h| - 2].GetMemoryMapCall? && m.size == h[|h| - 2].reply.size
    requires m.allocSize == m.size / PAGE_SIZE + 1
    ensures NegotiationFrom(Freed(o, mt, m, f, h, fuel, count), h, mt, count)
    decreases fuel, 0
  {
    if f.Ok? {
      var a := o.allocatePages(h, mt, m.allocSize);
      var h1 := h + [AllocatePagesCall(mt, m.allocSize, a)];
      Arith.DivBounds(m.size, PAGE_SIZE);
      if a.Ok? {
        RegrowTrace(o, mt, m.(address := a.value), h1, fuel - 1, count);
      }
      var r := Freed(o, mt, m, f, h, fuel, count);
      assert r.history[..|h1|][..|h|] == r.history[..|h|];
      assert h1[..|h|] == h;
      assert r.history[|h| - 1] == h[|h| - 1] && r.history[|h| - 2] == h[|h| - 2];
      assert NegotiationStep(r.history, |h|, mt, count);
    }
  }

  /** `get_memory_map(mt)`, call by call: it first allocates exactly one page
      of `mt`; an error there is returned at once; every later call is a
      negotiation step; and the last call explains how it ended. */
  lemma GetMemoryMapTrace(o: Oracle, mt: MemoryType, h: seq<Event>, fuel: nat, count: FreeCount)
    ensures var r := GetMemoryMapSpec(o, mt, h, fuel, count);
      |r.history| > |h| && r.history[..|h|] == h &&
      r.history[|h|] == AllocatePagesCall(mt, 1, o.allocatePages(h, mt, 1)) &&
      (forall i :: |h| < i < |r.history| ==> NegotiationStep(r.history, i, mt, count)) &&
      NegotiationEnd(r)
  {
    var a := o.allocatePages(h, mt, 1);
    var h1 := h + [AllocatePagesCall(mt, 1, a)];
    var r := GetMemoryMapSpec(o, mt, h, fuel, count);
    if a.Ok? {
      RegrowTrace(o, mt, MapInfo(a.value, 1, PAGE_SIZE, 0, 0, 0, []), h1, fuel, count);
      assert r.history[..|h1|][..|h|] == r.history[..|h|];
      assert h1[..|h|] == h;
    }
  }

  /** The negotiation loop leaves only on SUCCESS: every GetMemoryMap call
      but the last answered something else, and the loop went round again. */
  lemma SuccessEndsNegotiation(o: Oracle, mt: MemoryType, h: seq<Event>, fuel: nat, count: FreeCount)
    ensures var r := GetMemoryMapSpec(o, mt, h, fuel, count);
      forall i :: |h| <= i < |r.history| - 1 && r.history[i].GetMemoryMapCall? ==>
        r.history[i].reply.status != Success && r.history[i + 1].FreePagesCall?
  {
    GetMemoryMapTrace(o, mt, h, fuel, count);
    var r := GetMemoryMapSpec(o, mt, h, fuel, count);
    forall i | |h| <= i < |r.history| - 1 && r.history[i].GetMemoryMapCall?
      ensures r.history[i].reply.status != Success && r.history[i + 1].FreePagesCall?
    {
      assert NegotiationStep(r.history, i + 1, mt, count);
    }
  }

  /** With the page count of the buffer being freed, every free gives back
      exactly the pages of the allocation that produced that buffer. */
  lemma FreesMatchAllocations(o: Oracle, mt: MemoryType, h: seq<Event>, fuel: nat)
    ensures var r := GetMemoryMapSpec(o, mt, h, fuel, HeldCount);
      forall i :: |h| <= i < |r.history| && r.history[i].FreePagesCall? ==>
        i >= 2 && r.history[i - 2].AllocatePagesCall? &&
        r.history[i - 2].pages == r.history[i].pages &&
        r.history[i - 2].granted == Ok(r.history[i].address)
  {
    GetMemoryMapTrace(o, mt, h, fuel, HeldCount);
    var r := GetMemoryMapSpec(o, mt, h, fuel, HeldCount);
    forall i | |h| <= i < |r.history| && r.history[i].FreePagesCall?
      ensures i >= 2 && r.history[i - 2].AllocatePagesCall? &&
        r.history[i - 2].pages == r.history[i].pages &&
        r.history[i - 2].granted == Ok(r.history[i].address)
    {
      assert i != |h|;
      assert NegotiationStep(r.history, i, mt, HeldCount);
    }
  }

  /** A firmware whose first map is 8000 bytes, too big for one page. */
  function TooSmallOnce(): Oracle
  {
    Oracle(
      (h: seq<Event>, t: MemoryType, n: nat) => Ok(0x1000),
      (h: seq<Event>, a: nat, n: nat) => Ok(()),
      (h: seq<Event>, a: nat, s: nat) =>
        if s < 8000 then MapReply(NotSuccess(5), 8000, 0, 48, 1, []) else MapReply(Success, 0, 1, 48, 1, []),
      (h: seq<Event>, k: nat) => Ok(()))
  }

  /** As written, `get_memory_map` frees a one-page buffer as two pages when
      the firmware asks for 8000 bytes: it passes the page count of the next
      buffer, not of the one it frees. */
  lemma FreeCountAsWritten()
    ensures Conforms(TooSmallOnce())
    ensures var r := GetMemoryMapSpec(TooSmallOnce(), LoaderData, [], 2, NewCount);
      |r.history| >= 3 &&
      r.history[0] == AllocatePagesCall(LoaderData, 1, Ok(0x1000)) &&
      r.history[2] == FreePagesCall(0x1000, 2, Ok(()))
  {
  }

  /** The recovery loop of `exit_boot_services`, call by call: after a failed
      exit it queries the map again into the same buffer, claiming the size
      the previous query reported; after a successful query it tries to exit
      with the new key. Nothing is allocated or freed. */
  ghost predicate RecoveryStep(h: seq<Event>, i: nat)
    requires i < |h|
  {
    match h[i]
    case ExitBootServicesCall(mapKey, _) =>
      i >= 1 && h[i - 1].GetMemoryMapCall? && h[i - 1].reply.status == Success && mapKey == h[i - 1].reply.key
    case GetMemoryMapCall(address, bufferSize, _) =>
      i >= 2 && h[i - 1].ExitBootServicesCall? && h[i - 1].exited.Err? &&
      h[i - 2].GetMemoryMapCall? && h[i - 2].reply.status == Success &&
      address == h[i - 2].address && bufferSize == h[i - 2].reply.size
    case _ => false
  }

  /** How the last call of the recovery explains how `exit_boot_services`
      ended: `Aborted` exactly after a query that failed; the rewrite of the
      last map the firmware reported, in the same buffer, exactly after an
      exit that succeeded; still looping after an exit that failed. */
  ghost predicate RecoveryEnd(r: Run, m: MapInfo)
  {
    |r.history| >= 2 &&
    var last := r.history[|r.history| - 1];
    var query := r.history[|r.history| - 2];
    (r.outcome == Returned(Err(Aborted)) <==> last.GetMemoryMapCall? && last.reply.status != Success) &&
    (r.outcome.Running? <==> last.ExitBootServicesCall? && last.exited.Err?) &&
    (last.ExitBootServicesCall? && last.exited.Ok? ==>
      query.GetMemoryMapCall? && query.reply.status == Success && query.address == m.address &&
      r.outcome == Rewrite(m.(size := query.reply.size, key := query.reply.key,
                              descriptorSize := query.reply.descriptorSize, version := query.reply.version,
                              bytes := query.reply.contents))) &&
    (last.GetMemoryMapCall? || last.ExitBootServicesCall?)
  }

  /** What the recovery promises from the start of `Recover`. */
  ghost predicate RecoveryFrom(r: Run, h: seq<Event>, m: MapInfo)
  {
    |r.history| >= |h| && r.history[..|h|] == h &&
    (forall i :: |h| <= i < |r.history| ==> RecoveryStep(r.history, i)) &&
    RecoveryEnd(r, m)
  }

  /** The recovery after a failed exit, with the map last reported. */
  lemma {:induction false} RecoverTrace(o: Oracle, m: MapInfo, h: seq<Event>, fuel: nat, m0: MapInfo)
    requires |h| >= 2 && h[|h| - 1].ExitBootServicesCall? && h[|h| - 1].exited.Err?
    requires h[|h| - 2].GetMemoryMapCall? && h[|h| - 2].reply.status == Success
    requires h[|h| - 2].address == m.address == m0.address && h[|h| - 2].reply.size == m.size
    requires m.allocSize == m0.allocSize
    ensures RecoveryFrom(Recover(o, m, h, fuel), h, m0)
    decreases fuel
  {
    if fuel > 0 {
      var reply := o.getMemoryMap(h, m.address, m.size);
      var h1 := h + [GetMemoryMapCall(m.address, m.size, reply)];
      var r := Recover(o, m, h, fuel);
      assert r == Requeried(o, m, reply, h1, fuel);
      if reply.status == Success {
        var m1 := m.(size := reply.size, key := reply.key, descriptorSize := reply.descriptorSize,
                     version := reply.version, bytes := reply.contents);
        var e := o.exitBootServices(h1, m1.key);
        var h2 := h1 + [ExitBootServicesCall(m1.key, e)];
        assert r == Exited(o, m1, e, h2, fuel);
        if e.Err? {
          RecoverTrace(o, m1, h2, fuel - 1, m0);
          assert r.history[..|h2|][..|h|] == r.history[..|h|];
          assert r.history[..|h2|][|h|] == r.history[|h|];
          assert h2[..|h|] == h;
        } else {
          assert r.history == h2;
        }
      } else {
        assert r.history == h1;
      }
      assert r.history[|h| - 1] == h[|h| - 1] && r.history[|h| - 2] == h[|h| - 2];
      assert RecoveryStep(r.history, |h|);
    }
  }

  /** `exit_boot_services`, call by call: it first gets a LoaderData map,
      and any way that fails to return a map is passed through unchanged;
      then it tries to exit with the map's key; every later call is a
      recovery step; and the last call explains how it ended. */
  lemma ExitTrace(o: Oracle, h: seq<Event>, fuel: nat, count: FreeCount)
    ensures var g := GetMemoryMapSpec(o, LoaderData, h, fuel, count);
      var r := ExitSpec(o, h, fuel, count);
      if !(g.outcome.Returned? && g.outcome.result.Ok?) then r == g
      else
        var m := g.outcome.result.value;
        |r.history| > |g.history| && r.history[..|g.history|] == g.history &&
        r.history[|g.history|] == ExitBootServicesCall(m.key, o.exitBootServices(g.history, m.key)) &&
        (forall i :: |g.history| < i < |r.history| ==> RecoveryStep(r.history, i)) &&
        RecoveryEnd(r, m)
  {
    var g := GetMemoryMapSpec(o, LoaderData, h, fuel, count);
    if g.outcome.Returned? && g.outcome.result.Ok? {
      GetMemoryMapTrace(o, LoaderData, h, fuel, count);
      var m := g.outcome.result.value;
      var e := o.exitBootServices(g.history, m.key);
      var h1 := g.history + [ExitBootServicesCall(m.key, e)];
      var r := ExitSpec(o, h, fuel, count);
      var query := g.history[|g.history| - 1];
      assert h1[|h1| - 2] == query;
      if e.Err? {
        RecoverTrace(o, m, h1, fuel, m);
        assert r.history[..|h1|][..|g.history|] == r.history[..|g.history|];
        assert h1[..|g.history|] == g.history;
        assert r.history[|g.history|] == h1[|g.history|];
      } else {
        assert m == m.(size := query.reply.size, key := query.reply.key,
                       descriptorSize := query.reply.descriptorSize, version := query.reply.version,
                       bytes := query.reply.contents);
      }
    }
  }
}
