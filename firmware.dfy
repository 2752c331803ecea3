/** The four boot services the core calls, as an abstract firmware.
    The firmware's answers come from an `Oracle`: one total function per
    service, given everything that happened before the call (the `history`)
    and the call's arguments. Every call appends exactly one `Event` to the
    history, so what the core did can be read off the history afterwards. */
module Firmware {
  import opened Bytes
  import opened Status
  import opened Memory

  /** What a GetMemoryMap call hands back through its out-parameters: the
      status, the map size in bytes, the map key, the descriptor stride, the
      descriptor version, and the bytes of the map itself. */
  datatype MapReply = MapReply(
    status: Status,
    size: nat,
    key: nat,
    descriptorSize: nat,
    version: nat,
    contents: seq<u8>)

  /** One boot-service call with its arguments and its answer. */
  datatype Event =
    | AllocatePagesCall(memoryType: MemoryType, pages: nat, granted: Result<nat>)
    | FreePagesCall(address: nat, pages: nat, freed: Result<()>)
    | GetMemoryMapCall(address: nat, bufferSize: nat, reply: MapReply)
    | ExitBootServicesCall(mapKey: nat, exited: Result<()>)

  /** The firmware's behaviour. `allocatePages` answers with the physical
      address of the new pages, `getMemoryMap` is given the address and the
      claimed size of the caller's buffer. */
  datatype Oracle = Oracle(
    allocatePages: (seq<Event>, MemoryType, nat) -> Result<nat>,
    freePages: (seq<Event>, nat, nat) -> Result<()>,
    getMemoryMap: (seq<Event>, nat, nat) -> MapReply,
    exitBootServices: (seq<Event>, nat) -> Result<()>)

  /** GetMemoryMap as section 7.2 of the UEFI Specification describes it:
      SUCCESS means the whole map was written into the buffer, so it is no
      longer than the buffer the caller claimed. */
  ghost predicate Conforms(o: Oracle)
  {
    forall h: seq<Event>, address: nat, bufferSize: nat
      {:trigger o.getMemoryMap(h, address, bufferSize)} ::
      var reply := o.getMemoryMap(h, address, bufferSize);
      reply.status == Success ==> |reply.contents| == reply.size <= bufferSize
  }

  /** The boot-services table, reduced to the four services the core uses. */
  class BootServices {
    const oracle: Oracle
    /** Every call made so far, oldest first. */
    var history: seq<Event>

    ghost predicate Valid()
    {
      Conforms(oracle)
    }

    constructor (oracle: Oracle, history: seq<Event>)
      requires Conforms(oracle)
      ensures Valid() && this.oracle == oracle && this.history == history
    {
      this.oracle := oracle;
      this.history := history;
    }

    /** `allocate_pages`: asks for `pages` pages of `memoryType`. On success
        the pages are a fresh buffer of `pages * PAGE_SIZE` bytes. */
    method AllocatePages(memoryType: MemoryType, pages: nat) returns (r: Result<nat>, buffer: array<u8>)
      modifies this
      ensures r == oracle.allocatePages(old(history), memoryType, pages)
      ensures history == old(history) + [AllocatePagesCall(memoryType, pages, r)]
      ensures fresh(buffer)
      ensures r.Ok? ==> buffer.Length == pages * PAGE_SIZE
    {
      r := oracle.allocatePages(history, memoryType, pages);
      history := history + [AllocatePagesCall(memoryType, pages, r)];
      if r.Ok? {
        buffer := new u8[pages * PAGE_SIZE](_ => 0);
      } else {
        buffer := new u8[0];
      }
    }

    /** `free_pages`: gives `pages` pages at `address` back. */
    method FreePages(address: nat, pages: nat) returns (r: Result<()>)
      modifies this
      ensures r == oracle.freePages(old(history), address, pages)
      ensures history == old(history) + [FreePagesCall(address, pages, r)]
    {
      r := oracle.freePages(history, address, pages);
      history := history + [FreePagesCall(address, pages, r)];
    }

    /** GetMemoryMap on the buffer `buffer`, found at `address`, of which the
        caller claims the first `bufferSize` bytes. On SUCCESS the map is
        written at the start of the buffer; otherwise the buffer is left alone. */
    method GetMemoryMap(address: nat, bufferSize: nat, buffer: array<u8>) returns (reply: MapReply)
      requires Valid() && bufferSize <= buffer.Length
      modifies this, buffer
      ensures reply == oracle.getMemoryMap(old(history), address, bufferSize)
      ensures history == old(history) + [GetMemoryMapCall(address, bufferSize, reply)]
      ensures reply.status == Success ==>
        reply.size <= bufferSize && buffer[..] == reply.contents + old(buffer[reply.size..])
      ensures reply.status != Success ==> buffer[..] == old(buffer[..])
    {
      reply := oracle.getMemoryMap(history, address, bufferSize);
      history := history + [GetMemoryMapCall(address, bufferSize, reply)];
      if reply.status == Success {
        var contents := reply.contents;
        forall i | 0 <= i < |contents| {
          buffer[i] := contents[i];
        }
        assert buffer[..] == contents + old(buffer[reply.size..]);
      }
    }

    /** ExitBootServices with the map key `mapKey`. */
    method ExitBootServices(mapKey: nat) returns (r: Result<()>)
      modifies this
      ensures r == oracle.exitBootServices(old(history), mapKey)
      ensures history == old(history) + [ExitBootServicesCall(mapKey, r)]
    {
      r := oracle.exitBootServices(history, mapKey);
      history := history + [ExitBootServicesCall(mapKey, r)];
    }
  }
}
