/** The memory map as the crate exposes it (src/memory.rs): memory types,
    the descriptor layout, the map that owns the firmware's buffer, and the
    two iterators that cut that buffer into descriptor-sized chunks. */
module Memory {
  import opened Bytes
  import opened Status
  import opened Arith

  /** Bytes per UEFI page. The crate imports `PAGE_SIZE` from this file, but
      its definition is not part of this model; UEFI pages are 4 KiB. */
  const PAGE_SIZE: nat := 4096

  /** `size_of::<MemoryDescriptor>()`: a u32 type, four bytes of padding and
      four u64 fields, laid out as `repr(C)`. */
  const DESCRIPTOR_SIZE: nat := 40

  /** The memory types, in declaration order. */
  datatype MemoryType =
    | ReservedMemoryType
    | LoaderCode
    | LoaderData
    | BootServicesCode
    | BootServicesData
    | RuntimeServicesCode
    | RuntimeServicesData
    | ConventionalMemory
    | UnusableMemory
    | ACPIReclaimMemory
    | ACPIMemoryNVS
    | MemoryMappedIO
    | MemoryMappedIOPortSpace
    | PalCode
    | PersistentMemory
    | MaxMemoryType
  {
    /** The `repr(u32)` discriminant: the declaration index, counted from 0. */
    function Code(): (c: u32)
      ensures c < 16
    {
      match this
      case ReservedMemoryType => 0
      case LoaderCode => 1
      case LoaderData => 2
      case BootServicesCode => 3
      case BootServicesData => 4
      case RuntimeServicesCode => 5
      case RuntimeServicesData => 6
      case ConventionalMemory => 7
      case UnusableMemory => 8
      case ACPIReclaimMemory => 9
      case ACPIMemoryNVS => 10
      case MemoryMappedIO => 11
      case MemoryMappedIOPortSpace => 12
      case PalCode => 13
      case PersistentMemory => 14
      case MaxMemoryType => 15
    }
  }

  /** The memory type a raw discriminant denotes, if any. */
  function FromCode(c: nat): Option<MemoryType>
  {
    if c == 0 then Some(ReservedMemoryType)
    else if c == 1 then Some(LoaderCode)
    else if c == 2 then Some(LoaderData)
    else if c == 3 then Some(BootServicesCode)
    else if c == 4 then Some(BootServicesData)
    else if c == 5 then Some(RuntimeServicesCode)
    else if c == 6 then Some(RuntimeServicesData)
    else if c == 7 then Some(ConventionalMemory)
    else if c == 8 then Some(UnusableMemory)
    else if c == 9 then Some(ACPIReclaimMemory)
    else if c == 10 then Some(ACPIMemoryNVS)
    else if c == 11 then Some(MemoryMappedIO)
    else if c == 12 then Some(MemoryMappedIOPortSpace)
    else if c == 13 then Some(PalCode)
    else if c == 14 then Some(PersistentMemory)
    else if c == 15 then Some(MaxMemoryType)
    else None
  }

  /** Every memory type survives the trip through its discriminant. */
  lemma CodeRoundTrip(t: MemoryType)
    ensures FromCode(t.Code()) == Some(t)
  {
    match t
    case ReservedMemoryType =>
    case LoaderCode =>
    case LoaderData =>
    case BootServicesCode =>
    case BootServicesData =>
    case RuntimeServicesCode =>
    case RuntimeServicesData =>
    case ConventionalMemory =>
    case UnusableMemory =>
    case ACPIReclaimMemory =>
    case ACPIMemoryNVS =>
    case MemoryMappedIO =>
    case MemoryMappedIOPortSpace =>
    case PalCode =>
    case PersistentMemory =>
    case MaxMemoryType =>
  }

  /** Exactly the discriminants 0 to 15 denote a memory type, and each
      denotes the type declared at that index. */
  lemma FromCodeRoundTrip(c: nat)
    ensures FromCode(c).Some? <==> c < 16
    ensures FromCode(c).Some? ==> FromCode(c).value.Code() == c
  {
  }

  /** A decoded descriptor. The type is kept as its raw u32 so that values
      outside the enum are carried through unchanged; the attribute bits are
      an opaque u64. */
  datatype MemoryDescriptor = MemoryDescriptor(
    memoryType: u32,
    physicalStart: u64,
    virtualStart: u64,
    numberOfPages: u64,
    attribute: u64)

  /** Reads a descriptor from the first DESCRIPTOR_SIZE bytes of `b`. */
  function DecodeDescriptor(b: seq<u8>): MemoryDescriptor
    requires |b| >= DESCRIPTOR_SIZE
  {
    assert Pow256(4) == 0x1_0000_0000 && Pow256(8) == 0x1_0000_0000_0000_0000;
    MemoryDescriptor(
      LeDecode(b[0..4]),
      LeDecode(b[8..16]),
      LeDecode(b[16..24]),
      LeDecode(b[24..32]),
      LeDecode(b[32..40]))
  }

  /** The DESCRIPTOR_SIZE bytes of a descriptor, with zero padding. */
  function EncodeDescriptor(d: MemoryDescriptor): (b: seq<u8>)
    ensures |b| == DESCRIPTOR_SIZE
  {
    LeEncode(d.memoryType, 4) + [0, 0, 0, 0] + LeEncode(d.physicalStart, 8)
      + LeEncode(d.virtualStart, 8) + LeEncode(d.numberOfPages, 8) + LeEncode(d.attribute, 8)
  }

  /** Decoding an encoded descriptor gives it back. */
  lemma DescriptorRoundTrip(d: MemoryDescriptor)
    ensures DecodeDescriptor(EncodeDescriptor(d)) == d
  {
    var b := EncodeDescriptor(d);
    assert Pow256(4) == 0x1_0000_0000 && Pow256(8) == 0x1_0000_0000_0000_0000;
    assert b[0..4] == LeEncode(d.memoryType, 4);
    assert b[8..16] == LeEncode(d.physicalStart, 8);
    assert b[16..24] == LeEncode(d.virtualStart, 8);
    assert b[24..32] == LeEncode(d.numberOfPages, 8);
    assert b[32..40] == LeEncode(d.attribute, 8);
    DecodeEncode(d.memoryType, 4);
    DecodeEncode(d.physicalStart, 8);
    DecodeEncode(d.virtualStart, 8);
    DecodeEncode(d.numberOfPages, 8);
    DecodeEncode(d.attribute, 8);
  }

  /** Rewriting the four type bytes of a descriptor changes its type and
      nothing else in it. */
  lemma DecodeAfterTypeWrite(b: seq<u8>, t: u32)
    requires |b| >= DESCRIPTOR_SIZE
    ensures DecodeDescriptor(LeEncode(t, 4) + b[4..]) == DecodeDescriptor(b).(memoryType := t)
  {
    var b' := LeEncode(t, 4) + b[4..];
    assert b'[0..4] == LeEncode(t, 4);
    assert b'[8..16] == b[8..16] && b'[16..24] == b[16..24];
    assert b'[24..32] == b[24..32] && b'[32..40] == b[32..40];
    assert Pow256(4) == 0x1_0000_0000;
    DecodeEncode(t, 4);
  }

  /** The items a memory-map iterator yields over the first `|b|` bytes of a
      buffer with stride `ds`: the buffer is cut into `ds`-byte chunks, each
      full chunk gives the descriptor in its leading DESCRIPTOR_SIZE bytes, and
      a short final chunk ends the sequence. There are `Count(|b|, ds)` items, that is `|b| / ds`. */
  function Descriptors(b: seq<u8>, ds: nat): (items: seq<MemoryDescriptor>)
    requires ds >= DESCRIPTOR_SIZE
    ensures |items| == Arith.Count(|b|, ds)
    decreases |b|
  {
    if |b| < ds then []
    else
      [DecodeDescriptor(b[..DESCRIPTOR_SIZE])] + Descriptors(b[ds..], ds)
  }

  /** Past the first chunk, the items are those of the rest of the buffer. */
  lemma DescriptorsTail(b: seq<u8>, ds: nat, k: nat)
    requires ds >= DESCRIPTOR_SIZE && 0 < k < Arith.Count(|b|, ds)
    ensures ds <= |b| && Descriptors(b, ds)[k] == Descriptors(b[ds..], ds)[k - 1]
  {
  }

  /** The k-th item is read from bytes `k * ds` to `k * ds + DESCRIPTOR_SIZE`
      and from no other byte: the rest of each chunk is ignored. */
  lemma {:induction false} DescriptorAt(b: seq<u8>, ds: nat, k: nat)
    requires ds >= DESCRIPTOR_SIZE && k < Arith.Count(|b|, ds)
    ensures Offset(k + 1, ds) <= |b|
    ensures Descriptors(b, ds)[k] == DecodeDescriptor(b[Offset(k, ds) .. Offset(k, ds) + DESCRIPTOR_SIZE])
  {
    Arith.OffsetFits(|b|, ds, k);
    if k > 0 {
      DescriptorsTail(b, ds, k);
      DescriptorAt(b[ds..], ds, k - 1);
      ChunkOfSuffix(b, ds, k);
    }
  }

  /** Chunk `k - 1` of the buffer past its first chunk is chunk `k` of the
      buffer. */
  lemma ChunkOfSuffix(b: seq<u8>, ds: nat, k: nat)
    requires ds >= DESCRIPTOR_SIZE && 0 < k && Offset(k + 1, ds) <= |b|
    ensures Offset(k, ds) <= |b[ds..]|
    ensures b[ds..][Offset(k - 1, ds) .. Offset(k - 1, ds) + DESCRIPTOR_SIZE] ==
      b[Offset(k, ds) .. Offset(k, ds) + DESCRIPTOR_SIZE]
  {
    Arith.OffsetStart(k - 1, ds);
    Arith.OffsetStart(k, ds);
    SliceOfSuffix(b, ds, Offset(k - 1, ds), Offset(k - 1, ds) + DESCRIPTOR_SIZE);
  }

  /** The same for the items of the first `size` bytes of a longer buffer. */
  lemma DescriptorInPrefix(b: seq<u8>, size: nat, ds: nat, k: nat)
    requires ds >= DESCRIPTOR_SIZE && size <= |b| && k < Arith.Count(size, ds)
    ensures Offset(k + 1, ds) <= size
    ensures Descriptors(b[..size], ds)[k] == DecodeDescriptor(b[Offset(k, ds) .. Offset(k, ds) + DESCRIPTOR_SIZE])
  {
    DescriptorAt(b[..size], ds, k);
    SliceOfPrefix(b, size, Offset(k, ds), Offset(k, ds) + DESCRIPTOR_SIZE);
  }

  /** The fields of a memory map as values, with the bytes the firmware
      wrote into the first `size` bytes of its buffer. */
  datatype MapInfo = MapInfo(
    address: nat,
    allocSize: nat,
    size: nat,
    key: nat,
    descriptorSize: nat,
    version: nat,
    bytes: seq<u8>)

  /** One step of a memory-map iterator: an item, the end of the iteration
      (`None`), or the `debug_assert!` on the stride failing (a panic). */
  datatype IterStep<T> = Yielded(item: T) | Exhausted | AssertFailed

  /** A memory map: the pages the firmware allocated for it (`buffer`, at
      physical address `address`, `allocSize` pages long) and what the last
      GetMemoryMap call reported about the map stored in them. */
  class MemoryMap {
    var buffer: array<u8>
    var address: nat
    var allocSize: nat
    var size: nat
    var key: nat
    var descriptorSize: nat
    var version: nat

    /** The reported size fits the allocation, which is `allocSize` whole pages. */
    ghost predicate Valid()
      reads this
    {
      size <= buffer.Length && buffer.Length == allocSize * PAGE_SIZE
    }

    constructor (buffer: array<u8>, address: nat, allocSize: nat, size: nat,
                 key: nat, descriptorSize: nat, version: nat)
      ensures this.buffer == buffer && this.address == address && this.allocSize == allocSize
      ensures this.size == size && this.key == key
      ensures this.descriptorSize == descriptorSize && this.version == version
    {
      this.buffer := buffer;
      this.address := address;
      this.allocSize := allocSize;
      this.size := size;
      this.key := key;
      this.descriptorSize := descriptorSize;
      this.version := version;
    }

    ghost function Info(): MapInfo
      reads this, buffer
      requires Valid()
    {
      MapInfo(address, allocSize, size, key, descriptorSize, version, buffer[..size])
    }

    /** The number of entries: how many whole strides fit in `size`. A zero
        stride is a division by zero in the source. */
    function Len(): (n: nat)
      reads this
      requires descriptorSize > 0
      ensures n == Arith.Count(size, descriptorSize)
      ensures n * descriptorSize <= size < (n + 1) * descriptorSize
    {
      var n := size / descriptorSize;
      Arith.CountIsQuotient(size, descriptorSize);
      Arith.DivBounds(size, descriptorSize);
      n
    }

    /** The map has no entries exactly when not even one stride fits. */
    function IsEmpty(): (e: bool)
      reads this
      requires descriptorSize > 0
      ensures e <==> size < descriptorSize
    {
      Arith.OffsetFits(size, descriptorSize, 0);
      Len() == 0
    }

    /** An iterator over the entries. `chunks(0)` panics in the source, so a
        zero stride is excluded here and handled by the caller. */
    method Iter() returns (it: MemoryMapIterator)
      requires Valid() && descriptorSize > 0
      ensures fresh(it) && it.Valid()
      ensures it.bytes == buffer && it.size == size && it.descriptorSize == descriptorSize
      ensures it.version == version && it.index == 0 && it.position == 0
    {
      it := new MemoryMapIterator(buffer, size, descriptorSize, version);
    }

    /** An iterator over the entries that hands out views through which they
        can be rewritten in place. */
    method IterMut() returns (it: MemoryMapIteratorMut)
      requires Valid() && descriptorSize > 0
      ensures fresh(it) && it.Valid()
      ensures it.bytes == buffer && it.size == size && it.descriptorSize == descriptorSize
      ensures it.version == version && it.index == 0 && it.position == 0
    {
      it := new MemoryMapIteratorMut(buffer, size, descriptorSize, version);
    }
  }

  /** A `Chunks` cursor over `bytes[..size]` with chunk length `ds`, at
      `position`, after `index` full chunks: either at the start of chunk
      `index`, or at the end once the short final chunk has been consumed. */
  ghost predicate CursorValid(bytes: array<u8>, size: nat, ds: nat, position: nat, index: nat)
  {
    size <= bytes.Length && ds > 0 && index <= Count(size, ds) &&
    (position == Offset(index, ds) || (index == Count(size, ds) && position == size))
  }

  /** How a `Chunks` cursor moves: a full chunk ahead advances it by `ds`;
      otherwise the short remainder, if any, is consumed and it stops at the end. */
  lemma CursorStep(size: nat, ds: nat, position: nat, index: nat)
    requires ds > 0 && index <= Count(size, ds)
    requires position == Offset(index, ds) || (index == Count(size, ds) && position == size)
    ensures index < Count(size, ds) <==> position + ds <= size
    ensures index < Count(size, ds) ==> position == Offset(index, ds)
  {
    Arith.OffsetCount(size, ds);
    if index < Count(size, ds) {
      Arith.OffsetFits(size, ds, index);
    }
  }

  /** `MemoryMapIterator`: walks the map's buffer one stride at a time and
      decodes the descriptor at the start of each full chunk. */
  class MemoryMapIterator {
    const bytes: array<u8>
    const size: nat
    const descriptorSize: nat
    const version: nat
    var position: nat
    /** The number of items yielded so far. */
    ghost var index: nat

    ghost predicate Valid()
      reads this
    {
      CursorValid(bytes, size, descriptorSize, position, index)
    }

    constructor (bytes: array<u8>, size: nat, descriptorSize: nat, version: nat)
      requires size <= bytes.Length && descriptorSize > 0
      ensures Valid() && index == 0 && position == 0
      ensures this.bytes == bytes && this.size == size
      ensures this.descriptorSize == descriptorSize && this.version == version
    {
      this.bytes := bytes;
      this.size := size;
      this.descriptorSize := descriptorSize;
      this.version := version;
      position := 0;
      index := 0;
    }

    /** The next descriptor: item k of `Descriptors` for each of the
        `size / descriptorSize` full chunks, then `None` for good. A full chunk
        with a stride below DESCRIPTOR_SIZE trips the `debug_assert!`. */
    method Next() returns (step: IterStep<MemoryDescriptor>)
      requires Valid()
      modifies this
      ensures Valid()
      ensures old(index) < Count(size, descriptorSize) ==>
        index == old(index) + 1 && position == old(position) + descriptorSize &&
        step == if descriptorSize < DESCRIPTOR_SIZE then AssertFailed
                else Yielded(Descriptors(bytes[..size], descriptorSize)[old(index)])
      ensures old(index) == Count(size, descriptorSize) ==>
        index == old(index) && position == size && step == Exhausted
    {
      CursorStep(size, descriptorSize, position, index);
      if position == size {
        return Exhausted;
      }
      var start := position;
      position := if position + descriptorSize <= size then position + descriptorSize else size;
      if position - start != descriptorSize {
        return Exhausted;
      }
      index := index + 1;
      if descriptorSize < DESCRIPTOR_SIZE {
        return AssertFailed;
      }
      // the item is read from the leading DESCRIPTOR_SIZE bytes of the chunk
      var item := DecodeDescriptor(bytes[start .. start + DESCRIPTOR_SIZE]);
      DescriptorInPrefix(bytes[..], size, descriptorSize, index - 1);
      return Yielded(item);
    }
  }

  /** A `&mut MemoryDescriptor` into a map's buffer: the descriptor whose
      bytes start at `offset`. */
  datatype DescriptorMut = DescriptorMut(bytes: array<u8>, offset: nat)
  {
    ghost predicate Valid()
    {
      offset + DESCRIPTOR_SIZE <= bytes.Length
    }

    function Get(): MemoryDescriptor
      reads bytes
      requires Valid()
    {
      DecodeDescriptor(bytes[offset .. offset + DESCRIPTOR_SIZE])
    }

    /** `entry.Type`: the four type bytes, little-endian. */
    function Type(): (t: u32)
      reads bytes
      requires Valid()
    {
      assert Pow256(4) == 0x1_0000_0000;
      LeDecode(bytes[offset .. offset + 4])
    }

    /** `Type` is the type of the descriptor `Get` decodes. */
    lemma TypeOfDescriptor()
      requires Valid()
      ensures Type() == Get().memoryType
    {
      assert bytes[offset .. offset + DESCRIPTOR_SIZE][0..4] == bytes[offset .. offset + 4];
    }

    /** `entry.Type = t`: stores the four type bytes and nothing else. */
    method SetType(t: u32)
      requires Valid()
      modifies bytes
      ensures bytes[..] == old(bytes[..offset]) + LeEncode(t, 4) + old(bytes[offset + 4..])
      ensures Get() == old(Get()).(memoryType := t)
    {
      var encoded := LeEncode(t, 4);
      bytes[offset] := encoded[0];
      bytes[offset + 1] := encoded[1];
      bytes[offset + 2] := encoded[2];
      bytes[offset + 3] := encoded[3];
      assert bytes[..] == old(bytes[..offset]) + encoded + old(bytes[offset + 4..]);
      ghost var before := old(bytes[offset .. offset + DESCRIPTOR_SIZE]);
      assert bytes[offset .. offset + DESCRIPTOR_SIZE] == encoded + before[4..];
      DecodeAfterTypeWrite(before, t);
    }
  }

  /** `MemoryMapIteratorMut`: the same walk as `MemoryMapIterator`, handing
      out a view of each full chunk's descriptor instead of a copy. */
  class MemoryMapIteratorMut {
    const bytes: array<u8>
    const size: nat
    const descriptorSize: nat
    const version: nat
    var position: nat
    /** The number of items yielded so far. */
    ghost var index: nat

    ghost predicate Valid()
      reads this
    {
      CursorValid(bytes, size, descriptorSize, position, index)
    }

    constructor (bytes: array<u8>, size: nat, descriptorSize: nat, version: nat)
      requires size <= bytes.Length && descriptorSize > 0
      ensures Valid() && index == 0 && position == 0
      ensures this.bytes == bytes && this.size == size
      ensures this.descriptorSize == descriptorSize && this.version == version
    {
      this.bytes := bytes;
      this.size := size;
      this.descriptorSize := descriptorSize;
      this.version := version;
      position := 0;
      index := 0;
    }

    /** The next descriptor view: item k sits at byte `k * descriptorSize`,
        for each of the `size / descriptorSize` full chunks, then `None` for
        good. The buffer itself is not touched. */
    method Next() returns (step: IterStep<DescriptorMut>)
      requires Valid()
      modifies this
      ensures Valid()
      ensures old(index) < Count(size, descriptorSize) ==>
        index == old(index) + 1 && position == old(position) + descriptorSize &&
        step == if descriptorSize < DESCRIPTOR_SIZE then AssertFailed
                else Yielded(DescriptorMut(bytes, Offset(old(index), descriptorSize)))
      ensures step.Yielded? ==> step.item.Valid() && step.item.offset + descriptorSize <= size
      ensures old(index) == Count(size, descriptorSize) ==>
        index == old(index) && position == size && step == Exhausted
    {
      CursorStep(size, descriptorSize, position, index);
      if position == size {
        return Exhausted;
      }
      var start := position;
      position := if position + descriptorSize <= size then position + descriptorSize else size;
      if position - start != descriptorSize {
        return Exhausted;
      }
      index := index + 1;
      if descriptorSize < DESCRIPTOR_SIZE {
        return AssertFailed;
      }
      return Yielded(DescriptorMut(bytes, start));
    }
  }
}
