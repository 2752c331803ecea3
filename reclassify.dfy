/** The rewrite `exit_boot_services` performs on a memory map once the
    firmware has accepted the exit (src/boot.rs:341-348): every entry of type
    BootServicesCode or BootServicesData becomes ConventionalMemory, in place,
    by storing the entry's four type bytes. */
module Reclassify {
  import opened Bytes
  import opened Memory
  import opened Arith

  /** The two memory types that become conventional memory after the exit. */
  predicate IsBootServicesType(t: nat)
  {
    t == BootServicesCode.Code() || t == BootServicesData.Code()
  }

  /** The effect of the rewrite on one decoded entry. */
  function ReclassifyDescriptor(d: MemoryDescriptor): MemoryDescriptor
  {
    if IsBootServicesType(d.memoryType) then d.(memoryType := ConventionalMemory.Code()) else d
  }

  /** Whether the entry whose bytes start at `off` has one of those types:
      the type is the entry's first four bytes, little-endian. */
  predicate BootServicesAt(b: seq<u8>, off: nat)
    requires off + 4 <= |b|
  {
    IsBootServicesType(LeDecode(b[off .. off + 4]))
  }

  /** `BootServicesAt` reads the type field of the decoded entry. */
  lemma BootServicesAtDescriptor(b: seq<u8>, off: nat)
    requires off + DESCRIPTOR_SIZE <= |b|
    ensures BootServicesAt(b, off) == IsBootServicesType(DecodeDescriptor(b[off .. off + DESCRIPTOR_SIZE]).memoryType)
  {
    assert b[off .. off + DESCRIPTOR_SIZE][0..4] == b[off .. off + 4];
  }

  /** The effect of the rewrite on one chunk of the buffer. */
  function RewriteChunk(c: seq<u8>): seq<u8>
    requires |c| >= DESCRIPTOR_SIZE
  {
    if BootServicesAt(c, 0) then LeEncode(ConventionalMemory.Code(), 4) + c[4..] else c
  }

  /** Chunk `j` of a buffer cut at stride `ds`. */
  function Chunk(b: seq<u8>, ds: nat, j: nat): (c: seq<u8>)
    requires Offset(j + 1, ds) <= |b|
    ensures |c| == ds
  {
    b[Offset(j, ds) .. Offset(j, ds) + ds]
  }

  /** `b` with its four bytes at `off` replaced by `e`: one `entry.Type = ...` store. */
  function Splice(b: seq<u8>, off: nat, e: seq<u8>): seq<u8>
    requires |e| == 4 && off + 4 <= |b|
  {
    b[..off] + e + b[off + 4..]
  }

  /** One pass of the loop body: the entry at chunk `k` is read from `b` and,
      if it is a boot-services entry, its type is stored as ConventionalMemory. */
  function Visit(b: seq<u8>, ds: nat, k: nat): (r: seq<u8>)
    requires ds >= DESCRIPTOR_SIZE && Offset(k + 1, ds) <= |b|
    ensures |r| == |b|
  {
    var off := Offset(k, ds);
    if BootServicesAt(b, off) then Splice(b, off, LeEncode(ConventionalMemory.Code(), 4)) else b
  }

  /** The buffer after the loop over `iter_mut` has visited its first
      `count` entries, each visit reading the entry's type from the buffer
      as the earlier visits left it. */
  function Reclassified(b: seq<u8>, ds: nat, count: nat): (r: seq<u8>)
    requires ds >= DESCRIPTOR_SIZE && Offset(count, ds) <= |b|
    ensures |r| == |b|
    decreases count
  {
    if count == 0 then b
    else
      Visit(Reclassified(b, ds, count - 1), ds, count - 1)
  }

  /** One more visit extends the rewrite by one entry. */
  lemma ReclassifiedStep(b: seq<u8>, ds: nat, count: nat)
    requires ds >= DESCRIPTOR_SIZE && Offset(count + 1, ds) <= |b|
    ensures Offset(count, ds) <= |b|
    ensures Reclassified(b, ds, count + 1) == Visit(Reclassified(b, ds, count), ds, count)
  {
  }

  /** A store outside `[lo, hi)` leaves that slice alone. */
  lemma SpliceOutside(b: seq<u8>, off: nat, e: seq<u8>, lo: nat, hi: nat)
    requires |e| == 4 && off + 4 <= |b| && lo <= hi <= |b|
    requires hi <= off || off + 4 <= lo
    ensures Splice(b, off, e)[lo..hi] == b[lo..hi]
  {
    var s := Splice(b, off, e);
    assert forall i :: lo <= i < hi ==> s[i] == b[i];
  }

  /** A store at the start of a chunk replaces the chunk's first four bytes. */
  lemma SpliceInside(b: seq<u8>, off: nat, e: seq<u8>, ds: nat)
    requires |e| == 4 && 4 <= ds && off + ds <= |b|
    ensures Splice(b, off, e)[off .. off + ds] == e + b[off .. off + ds][4..]
  {
    var s := Splice(b, off, e);
    var t := e + b[off .. off + ds][4..];
    assert |s| == |b|;
    forall i | 0 <= i < ds
      ensures s[off + i] == t[i]
    {
      if i < 4 {
        assert s[off + i] == e[i];
      } else {
        assert s[off + i] == b[off + i];
      }
    }
  }

  /** A visit rewrites its own chunk. */
  lemma VisitOwnChunk(b: seq<u8>, ds: nat, k: nat)
    requires ds >= DESCRIPTOR_SIZE && Offset(k + 1, ds) <= |b|
    ensures Chunk(Visit(b, ds, k), ds, k) == RewriteChunk(Chunk(b, ds, k))
  {
    var off := Offset(k, ds);
    var c := b[off .. off + ds];
    assert Chunk(b, ds, k) == c;
    assert Chunk(Visit(b, ds, k), ds, k) == Visit(b, ds, k)[off .. off + ds];
    assert c[0..4] == b[off .. off + 4];
    if BootServicesAt(b, off) {
      SpliceInside(b, off, LeEncode(ConventionalMemory.Code(), 4), ds);
    }
  }

  /** A visit leaves every other chunk alone. */
  lemma VisitOtherChunk(b: seq<u8>, ds: nat, k: nat, j: nat)
    requires ds >= DESCRIPTOR_SIZE && Offset(k + 1, ds) <= |b| && Offset(j + 1, ds) <= |b| && j != k
    ensures Chunk(Visit(b, ds, k), ds, j) == Chunk(b, ds, j)
  {
    var off := Offset(k, ds);
    var lo := Offset(j, ds);
    if j < k {
      OffsetMonotone(j, k, ds);
    } else {
      OffsetMonotone(k, j, ds);
    }
    if BootServicesAt(b, off) {
      SpliceOutside(b, off, LeEncode(ConventionalMemory.Code(), 4), lo, lo + ds);
    }
  }

  /** Visiting entry `count` leaves every other chunk as the earlier visits
      left it. */
  lemma ReclassifiedOtherChunk(b: seq<u8>, ds: nat, count: nat, j: nat)
    requires ds >= DESCRIPTOR_SIZE && 0 < count && Offset(count, ds) <= |b| && Offset(j + 1, ds) <= |b|
    requires j != count - 1 && Offset(count - 1, ds) <= |b|
    ensures Chunk(Reclassified(b, ds, count), ds, j) == Chunk(Reclassified(b, ds, count - 1), ds, j)
  {
    VisitOtherChunk(Reclassified(b, ds, count - 1), ds, count - 1, j);
  }

  /** A chunk the loop has not reached yet is as it was. */
  lemma {:induction false} ReclassifiedChunkAhead(b: seq<u8>, ds: nat, count: nat, j: nat)
    requires ds >= DESCRIPTOR_SIZE && Offset(count, ds) <= |b| && Offset(j + 1, ds) <= |b| && count <= j
    ensures Chunk(Reclassified(b, ds, count), ds, j) == Chunk(b, ds, j)
    decreases count
  {
    if count > 0 {
      OffsetMonotone(count - 1, count, ds);
      ReclassifiedChunkAhead(b, ds, count - 1, j);
      ReclassifiedOtherChunk(b, ds, count, j);
    }
  }

  /** The chunk a visit rewrites was as the loop found it in the original. */
  lemma ReclassifiedChunkLast(b: seq<u8>, ds: nat, j: nat)
    requires ds >= DESCRIPTOR_SIZE && Offset(j + 1, ds) <= |b|
    ensures Offset(j, ds) <= |b|
    ensures Chunk(Reclassified(b, ds, j + 1), ds, j) == RewriteChunk(Chunk(b, ds, j))
  {
    OffsetMonotone(j, j + 1, ds);
    VisitOwnChunk(Reclassified(b, ds, j), ds, j);
    ReclassifiedChunkAhead(b, ds, j, j);
  }

  /** A chunk the loop has passed was rewritten from its original bytes:
      later visits do not touch it. */
  lemma {:induction false} ReclassifiedChunk(b: seq<u8>, ds: nat, count: nat, j: nat)
    requires ds >= DESCRIPTOR_SIZE && Offset(count, ds) <= |b| && j < count
    ensures Offset(j + 1, ds) <= |b|
    ensures Chunk(Reclassified(b, ds, count), ds, j) == RewriteChunk(Chunk(b, ds, j))
    decreases count
  {
    if j + 1 == count {
      ReclassifiedChunkLast(b, ds, j);
    } else {
      OffsetMonotone(j + 1, count, ds);
      OffsetMonotone(count - 1, count, ds);
      ReclassifiedChunk(b, ds, count - 1, j);
      ReclassifiedOtherChunk(b, ds, count, j);
    }
  }

  /** A visit writes nothing at or past byte `n` when its chunk ends by `n`. */
  lemma VisitTail(b: seq<u8>, ds: nat, k: nat, n: nat)
    requires ds >= DESCRIPTOR_SIZE && Offset(k + 1, ds) <= n <= |b|
    ensures Visit(b, ds, k)[n..] == b[n..]
  {
    var off := Offset(k, ds);
    if BootServicesAt(b, off) {
      SpliceOutside(b, off, LeEncode(ConventionalMemory.Code(), 4), n, |b|);
    }
  }

  /** A visit to a chunk inside the first `n` bytes commutes with cutting
      the buffer at `n`. */
  lemma VisitPrefix(b: seq<u8>, ds: nat, k: nat, n: nat)
    requires ds >= DESCRIPTOR_SIZE && Offset(k + 1, ds) <= n <= |b|
    ensures Visit(b, ds, k)[..n] == Visit(b[..n], ds, k)
  {
    var off := Offset(k, ds);
    assert b[..n][off .. off + 4] == b[off .. off + 4];
    var e := LeEncode(ConventionalMemory.Code(), 4);
    if BootServicesAt(b, off) {
      assert Splice(b, off, e)[..n] == Splice(b[..n], off, e);
    }
  }

  /** Bytes past the last visited chunk are never written. */
  lemma {:induction false} ReclassifiedTail(b: seq<u8>, ds: nat, count: nat, n: nat)
    requires ds >= DESCRIPTOR_SIZE && Offset(count, ds) <= n <= |b|
    ensures Reclassified(b, ds, count)[n..] == b[n..]
    decreases count
  {
    if count > 0 {
      OffsetMonotone(count - 1, count, ds);
      ReclassifiedTail(b, ds, count - 1, n);
      ReclassifiedTailStep(b, ds, count, n);
    }
  }

  /** The step of that induction: the last visit writes nothing from `n` on. */
  lemma ReclassifiedTailStep(b: seq<u8>, ds: nat, count: nat, n: nat)
    requires ds >= DESCRIPTOR_SIZE && 0 < count && Offset(count, ds) <= n <= |b| && Offset(count - 1, ds) <= n
    ensures Reclassified(b, ds, count)[n..] == Reclassified(b, ds, count - 1)[n..]
  {
    VisitTail(Reclassified(b, ds, count - 1), ds, count - 1, n);
  }

  /** Rewriting a whole buffer or only its first `n` bytes comes to the same
      thing when the visited chunks lie inside those `n` bytes. */
  lemma {:induction false} ReclassifiedPrefix(b: seq<u8>, ds: nat, count: nat, n: nat)
    requires ds >= DESCRIPTOR_SIZE && Offset(count, ds) <= n <= |b|
    ensures Reclassified(b, ds, count)[..n] == Reclassified(b[..n], ds, count)
    decreases count
  {
    if count > 0 {
      OffsetMonotone(count - 1, count, ds);
      ReclassifiedPrefix(b, ds, count - 1, n);
      ReclassifiedPrefixStep(b, ds, count, n);
    }
  }

  /** The step of that induction: one more visit on both sides. */
  lemma ReclassifiedPrefixStep(b: seq<u8>, ds: nat, count: nat, n: nat)
    requires ds >= DESCRIPTOR_SIZE && 0 < count && Offset(count, ds) <= n <= |b|
    requires Offset(count - 1, ds) <= n
    requires Reclassified(b, ds, count - 1)[..n] == Reclassified(b[..n], ds, count - 1)
    ensures Reclassified(b, ds, count)[..n] == Reclassified(b[..n], ds, count)
  {
    VisitPrefix(Reclassified(b, ds, count - 1), ds, count - 1, n);
  }

  /** Rewriting a chunk rewrites the descriptor at its start as
      ReclassifyDescriptor says, and keeps every byte after the type. */
  lemma RewriteChunkEffect(c: seq<u8>)
    requires |c| >= DESCRIPTOR_SIZE
    ensures |RewriteChunk(c)| == |c| && RewriteChunk(c)[4..] == c[4..]
    ensures DecodeDescriptor(RewriteChunk(c)[..DESCRIPTOR_SIZE]) == ReclassifyDescriptor(DecodeDescriptor(c[..DESCRIPTOR_SIZE]))
  {
    BootServicesAtDescriptor(c, 0);
    assert c[0 .. DESCRIPTOR_SIZE] == c[..DESCRIPTOR_SIZE];
    if BootServicesAt(c, 0) {
      var e := LeEncode(ConventionalMemory.Code(), 4);
      assert RewriteChunk(c)[..DESCRIPTOR_SIZE] == e + c[..DESCRIPTOR_SIZE][4..];
      DecodeAfterTypeWrite(c[..DESCRIPTOR_SIZE], ConventionalMemory.Code());
    }
  }

  /** Item `k` of `Descriptors` is the descriptor at the start of chunk `k`. */
  lemma DescriptorInChunk(b: seq<u8>, ds: nat, k: nat)
    requires ds >= DESCRIPTOR_SIZE && k < Count(|b|, ds)
    ensures Offset(k + 1, ds) <= |b|
    ensures Descriptors(b, ds)[k] == DecodeDescriptor(Chunk(b, ds, k)[..DESCRIPTOR_SIZE])
  {
    DescriptorAt(b, ds, k);
    var off := Offset(k, ds);
    assert Chunk(b, ds, k)[..DESCRIPTOR_SIZE] == b[off .. off + DESCRIPTOR_SIZE];
  }

  /** The buffer after the whole loop: every full chunk of `b` visited. */
  function RewriteMap(b: seq<u8>, ds: nat): (r: seq<u8>)
    requires ds >= DESCRIPTOR_SIZE
    ensures |r| == |b|
  {
    OffsetCount(|b|, ds);
    Reclassified(b, ds, Count(|b|, ds))
  }

  /** The loop over the first `size` bytes of a larger buffer rewrites that
      prefix exactly as `RewriteMap` rewrites the prefix alone. */
  lemma RewriteMapPrefix(b: seq<u8>, ds: nat, size: nat)
    requires ds >= DESCRIPTOR_SIZE && size <= |b|
    ensures Offset(Count(size, ds), ds) <= |b|
    ensures Reclassified(b, ds, Count(size, ds))[..size] == RewriteMap(b[..size], ds)
  {
    OffsetCount(size, ds);
    ReclassifiedPrefix(b, ds, Count(size, ds), size);
    assert |b[..size]| == size;
  }

  /** Entry `k` after the whole loop: rewritten if it was a boot-services entry. */
  lemma ReclassifiedDescriptorAt(b: seq<u8>, ds: nat, k: nat)
    requires ds >= DESCRIPTOR_SIZE && k < Count(|b|, ds)
    ensures Descriptors(RewriteMap(b, ds), ds)[k] == ReclassifyDescriptor(Descriptors(b, ds)[k])
  {
    OffsetCount(|b|, ds);
    var r := RewriteMap(b, ds);
    DescriptorInChunk(b, ds, k);
    DescriptorInChunk(r, ds, k);
    ReclassifiedChunk(b, ds, Count(|b|, ds), k);
    RewriteChunkEffect(Chunk(b, ds, k));
  }

  /** What the loop leaves behind, entry by entry: the iterated entries of
      type BootServicesCode or BootServicesData now read as
      ConventionalMemory, every other entry reads as before, and there are
      as many entries as before. */
  lemma ReclassifiedDescriptors(b: seq<u8>, ds: nat)
    requires ds >= DESCRIPTOR_SIZE
    ensures |Descriptors(RewriteMap(b, ds), ds)| == |Descriptors(b, ds)|
    ensures forall k :: 0 <= k < Count(|b|, ds) ==>
      Descriptors(RewriteMap(b, ds), ds)[k] == ReclassifyDescriptor(Descriptors(b, ds)[k])
  {
    forall k | 0 <= k < Count(|b|, ds)
      ensures Descriptors(RewriteMap(b, ds), ds)[k] == ReclassifyDescriptor(Descriptors(b, ds)[k])
    {
      ReclassifiedDescriptorAt(b, ds, k);
    }
  }

  /** In an iterated chunk only the four type bytes may change. */
  lemma ReclassifiedChunkRest(b: seq<u8>, ds: nat, k: nat)
    requires ds >= DESCRIPTOR_SIZE && k < Count(|b|, ds)
    ensures Offset(k + 1, ds) <= |b|
    ensures Chunk(RewriteMap(b, ds), ds, k)[4..] == Chunk(b, ds, k)[4..]
  {
    OffsetCount(|b|, ds);
    OffsetFits(|b|, ds, k);
    ReclassifiedChunk(b, ds, Count(|b|, ds), k);
    RewriteChunkEffect(Chunk(b, ds, k));
  }

  /** No byte past the last whole chunk changes. */
  lemma ReclassifiedPastEntries(b: seq<u8>, ds: nat)
    requires ds >= DESCRIPTOR_SIZE
    ensures Offset(Count(|b|, ds), ds) <= |b|
    ensures RewriteMap(b, ds)[Offset(Count(|b|, ds), ds)..] == b[Offset(Count(|b|, ds), ds)..]
  {
    OffsetCount(|b|, ds);
    ReclassifiedTail(b, ds, Count(|b|, ds), Offset(Count(|b|, ds), ds));
  }
}
