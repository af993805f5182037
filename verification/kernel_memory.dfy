/**
 * Model of the first kernel heap (kernel/memory.cpp): a singly linked chain of
 * blocks starting at 1 MiB, each a 12-byte header followed by its payload.
 * `malloc` takes the first free block large enough without splitting it, or
 * appends a new block after the last one; `free` marks the block free and then
 * merges every pair of neighbouring free blocks along the whole chain.
 *
 * The chain is a sequence of blocks in address order, and a payload pointer is
 * the handle `Payload(i)` of block `i`, at address `PayloadAddress(blocks, i)`.
 */
module KernelMemory {
  import opened Common

  /** `sizeof(struct block_meta)` on the 32-bit target: size, next, is_free (padded). */
  const HEADER: nat := 12
  const HEAP_START: nat := 0x100000
  const HEAP_SIZE: nat := 0x100000
  /** What `memory_get_total` reports: 64 MiB, not measured. */
  const REPORTED_TOTAL: nat := 64 * 1024 * 1024

  datatype Block = Block(size: nat, isFree: bool)

  datatype Ptr = Null | Payload(index: nat)

  /** The chain `memory_init` creates: one free block filling the heap region. */
  function InitialChain(): (bs: seq<Block>)
    ensures |bs| == 1 && bs[0].isFree && HEADER + bs[0].size == HEAP_SIZE
  {
    [Block(HEAP_SIZE - HEADER, true)]
  }

  /** Bytes a chain occupies: every header plus every payload. */
  function Span(bs: seq<Block>): nat {
    if bs == [] then 0 else HEADER + bs[0].size + Span(bs[1..])
  }

  /** Bytes held by the free blocks of a chain, headers included. */
  function FreeSpan(bs: seq<Block>): nat {
    if bs == [] then 0 else (if bs[0].isFree then HEADER + bs[0].size else 0) + FreeSpan(bs[1..])
  }

  predicate NoAdjacentFree(bs: seq<Block>) {
    forall i | 0 <= i < |bs| - 1 :: !(bs[i].isFree && bs[i + 1].isFree)
  }

  function PayloadAddress(bs: seq<Block>, i: nat): nat
    requires i < |bs|
  {
    HEAP_START + Span(bs[..i]) + HEADER
  }

  predicate Fits(b: Block, n: nat) {
    b.isFree && b.size >= n
  }

  /** The first block at or after `i` that is free and holds at least `n` bytes. */
  function FirstFitFrom(bs: seq<Block>, n: nat, i: nat): (r: Option<nat>)
    requires i <= |bs|
    decreases |bs| - i
    ensures r.Some? ==> i <= r.value < |bs| && Fits(bs[r.value], n)
    ensures r.Some? ==> forall j | i <= j < r.value :: !Fits(bs[j], n)
    ensures r.None? ==> forall j | i <= j < |bs| :: !Fits(bs[j], n)
  {
    if i == |bs| then None
    else if Fits(bs[i], n) then Some(i)
    else FirstFitFrom(bs, n, i + 1)
  }

  function MarkFree(bs: seq<Block>, i: nat): seq<Block>
    requires i < |bs|
  {
    bs[i := Block(bs[i].size, true)]
  }

  /**
   * The coalescing pass of `free`, from the head of the chain: a free block
   * followed by a free block absorbs it (and is examined again), otherwise the
   * pass moves on.
   */
  function MergeAll(bs: seq<Block>): (r: seq<Block>)
    decreases |bs|
    ensures |r| <= |bs|
    ensures bs != [] ==> r != [] && r[0].isFree == bs[0].isFree
  {
    if |bs| < 2 then bs
    else if bs[0].isFree && bs[1].isFree then
      MergeAll([Block(bs[0].size + HEADER + bs[1].size, true)] + bs[2..])
    else
      [bs[0]] + MergeAll(bs[1..])
  }

  // ---------------------------------------------------------------------------
  // Lemmas about the chain

  lemma {:induction false} SpanAppend(a: seq<Block>, b: seq<Block>)
    ensures Span(a + b) == Span(a) + Span(b)
    ensures FreeSpan(a + b) == FreeSpan(a) + FreeSpan(b)
  {
    if a == [] {
      assert a + b == b;
    } else {
      assert (a + b)[0] == a[0] && (a + b)[1..] == a[1..] + b;
      SpanAppend(a[1..], b);
    }
  }

  /** The pass keeps the bytes covered and the free bytes. */
  lemma {:induction false} MergeAllSpans(bs: seq<Block>)
    ensures Span(MergeAll(bs)) == Span(bs)
    ensures FreeSpan(MergeAll(bs)) == FreeSpan(bs)
    decreases |bs|
  {
    if |bs| >= 2 {
      if bs[0].isFree && bs[1].isFree {
        var rest := [Block(bs[0].size + HEADER + bs[1].size, true)] + bs[2..];
        MergeAllSpans(rest);
        assert rest[1..] == bs[2..];
        assert bs[1..][1..] == bs[2..];
      } else {
        MergeAllSpans(bs[1..]);
        assert ([bs[0]] + MergeAll(bs[1..]))[1..] == MergeAll(bs[1..]);
      }
    }
  }

  /** After the pass no two neighbouring blocks are free. */
  lemma {:induction false} MergeAllNoAdjacent(bs: seq<Block>)
    ensures NoAdjacentFree(MergeAll(bs))
    decreases |bs|
  {
    if |bs| >= 2 {
      if bs[0].isFree && bs[1].isFree {
        MergeAllNoAdjacent([Block(bs[0].size + HEADER + bs[1].size, true)] + bs[2..]);
      } else {
        MergeAllNoAdjacent(bs[1..]);
        var r := MergeAll(bs);
        assert r == [bs[0]] + MergeAll(bs[1..]);
        forall t | 0 <= t < |r| - 1
          ensures !(r[t].isFree && r[t + 1].isFree)
        {
          if t > 0 {
            assert r[t] == MergeAll(bs[1..])[t - 1] && r[t + 1] == MergeAll(bs[1..])[t];
          }
        }
      }
    }
  }

  /** A chain with no two free neighbours is left as it is by the pass. */
  lemma {:induction false} MergeAllFixed(bs: seq<Block>)
    requires NoAdjacentFree(bs)
    ensures MergeAll(bs) == bs
    decreases |bs|
  {
    if |bs| >= 2 {
      assert !(bs[0].isFree && bs[1].isFree);
      assert NoAdjacentFree(bs[1..]) by {
        forall t | 0 <= t < |bs[1..]| - 1
          ensures !(bs[1..][t].isFree && bs[1..][t + 1].isFree)
        {
          assert bs[1..][t] == bs[t + 1] && bs[1..][t + 1] == bs[t + 2];
        }
      }
      MergeAllFixed(bs[1..]);
      assert [bs[0]] + bs[1..] == bs;
    }
  }

  /** Where an allocated block `t` of `bs` sits after the pass. */
  function MergeIndex(bs: seq<Block>, t: nat): nat
    requires t < |bs|
    decreases |bs|
  {
    if |bs| < 2 then t
    else if bs[0].isFree && bs[1].isFree then
      (if t < 2 then 0 else MergeIndex([Block(bs[0].size + HEADER + bs[1].size, true)] + bs[2..], t - 1))
    else if t == 0 then 0
    else 1 + MergeIndex(bs[1..], t - 1)
  }

  /** Absorbing the second block into the first leaves the bytes in front of every later block unchanged. */
  lemma SpanPrefixAbsorb(bs: seq<Block>, t: nat)
    requires 2 <= t <= |bs|
    ensures Span(([Block(bs[0].size + HEADER + bs[1].size, true)] + bs[2..])[..t - 1]) == Span(bs[..t])
  {
    var head := Block(bs[0].size + HEADER + bs[1].size, true);
    assert ([head] + bs[2..])[..t - 1] == [head] + bs[2..t];
    assert bs[..t] == [bs[0]] + ([bs[1]] + bs[2..t]);
    SpanAppend([head], bs[2..t]);
    SpanAppend([bs[0]], [bs[1]] + bs[2..t]);
    SpanAppend([bs[1]], bs[2..t]);
    assert [head][1..] == [] && [bs[0]][1..] == [] && [bs[1]][1..] == [];
  }

  /** The bytes in front of block `u + 1` of `[x] + s`: block `x` and those in front of block `u` of `s`. */
  lemma SpanPrefixCons(x: Block, s: seq<Block>, u: nat)
    requires u <= |s|
    ensures Span(([x] + s)[..u + 1]) == HEADER + x.size + Span(s[..u])
  {
    assert ([x] + s)[..u + 1] == [x] + s[..u];
    SpanAppend([x], s[..u]);
    assert [x][1..] == [];
  }

  /** The pass keeps every allocated block, and the bytes in front of it, so its payload address is unchanged. */
  lemma {:induction false} MergeKeepsUsed(bs: seq<Block>, t: nat)
    requires t < |bs| && !bs[t].isFree
    ensures MergeIndex(bs, t) < |MergeAll(bs)|
    ensures MergeAll(bs)[MergeIndex(bs, t)] == bs[t]
    ensures Span(MergeAll(bs)[..MergeIndex(bs, t)]) == Span(bs[..t])
    decreases |bs|
  {
    if |bs| >= 2 {
      if bs[0].isFree && bs[1].isFree {
        var rest := [Block(bs[0].size + HEADER + bs[1].size, true)] + bs[2..];
        assert rest[t - 1] == bs[t];
        MergeKeepsUsed(rest, t - 1);
        SpanPrefixAbsorb(bs, t);
      } else if t > 0 {
        MergeKeepsUsed(bs[1..], t - 1);
        var u := MergeIndex(bs[1..], t - 1);
        assert MergeAll(bs) == [bs[0]] + MergeAll(bs[1..]);
        SpanPrefixCons(bs[0], MergeAll(bs[1..]), u);
        SpanPrefixCons(bs[0], bs[1..], t - 1);
        assert [bs[0]] + bs[1..] == bs;
      }
    }
  }

  /** The byte count `memcpy` copies in `realloc`: the smaller of the two sizes. */
  function CopySize(oldSize: nat, newSize: nat): (n: nat)
    ensures n <= oldSize && n <= newSize && (n == oldSize || n == newSize)
  {
    if oldSize < newSize then oldSize else newSize
  }

  /** The chain `malloc` works on: the initial chain on the first call. */
  function Started(initialized: bool, bs: seq<Block>): seq<Block> {
    if initialized then bs else InitialChain()
  }

  /** The chain after `malloc(size)` for `size > 0`: the first fit marked allocated, or a new block appended. */
  function AfterMalloc(bs: seq<Block>, size: nat): seq<Block> {
    match FirstFitFrom(bs, size, 0)
    case Some(i) => bs[i := Block(bs[i].size, false)]
    case None => bs + [Block(size, false)]
  }

  /** The block `malloc(size)` hands out for `size > 0`. */
  function MallocIndex(bs: seq<Block>, size: nat): nat {
    match FirstFitFrom(bs, size, 0)
    case Some(i) => i
    case None => |bs|
  }

  /** `malloc` always succeeds for a non-zero size: the block handed out is allocated and large enough. */
  lemma MallocGives(bs: seq<Block>, size: nat)
    ensures MallocIndex(bs, size) < |AfterMalloc(bs, size)|
    ensures !AfterMalloc(bs, size)[MallocIndex(bs, size)].isFree
    ensures AfterMalloc(bs, size)[MallocIndex(bs, size)].size >= size
    ensures forall t | 0 <= t < |bs| && t != MallocIndex(bs, size) :: AfterMalloc(bs, size)[t] == bs[t]
    ensures |AfterMalloc(bs, size)| >= |bs|
  {
  }

  /** `malloc` keeps the chain free of adjacent free blocks. */
  lemma MallocNoAdjacent(bs: seq<Block>, size: nat)
    requires NoAdjacentFree(bs)
    ensures NoAdjacentFree(AfterMalloc(bs, size))
  {
    var a := AfterMalloc(bs, size);
    forall t | 0 <= t < |a| - 1
      ensures !(a[t].isFree && a[t + 1].isFree)
    {
      if t + 1 < |bs| {
        assert a[t].isFree ==> a[t] == bs[t];
        assert a[t + 1].isFree ==> a[t + 1] == bs[t + 1];
      }
    }
  }

  /**
   * Freeing a block that `malloc` took from the chain without growing it gives
   * the chain back exactly; a block appended at the end stays part of the chain.
   */
  lemma MallocThenFree(bs: seq<Block>, size: nat)
    requires NoAdjacentFree(bs)
    ensures MallocIndex(bs, size) < |AfterMalloc(bs, size)|
    ensures FirstFitFrom(bs, size, 0).Some? ==> MergeAll(MarkFree(AfterMalloc(bs, size), MallocIndex(bs, size))) == bs
    ensures FirstFitFrom(bs, size, 0).None? ==> Span(MergeAll(MarkFree(AfterMalloc(bs, size), MallocIndex(bs, size)))) == Span(bs) + HEADER + size
  {
    var i := MallocIndex(bs, size);
    var m := MarkFree(AfterMalloc(bs, size), i);
    MergeAllSpans(m);
    if FirstFitFrom(bs, size, 0).Some? {
      assert m == bs;
      MergeAllFixed(bs);
    } else {
      assert m == bs + [Block(size, true)];
      SpanAppend(bs, [Block(size, true)]);
      assert [Block(size, true)][1..] == [];
    }
  }

  /** One absorbing step of the coalescing loop leaves what the rest of the pass produces unchanged. */
  lemma MergeStepAbsorb(bs: seq<Block>, c: nat)
    requires c + 1 < |bs| && bs[c].isFree && bs[c + 1].isFree
    ensures var nb := bs[..c] + [Block(bs[c].size + HEADER + bs[c + 1].size, true)] + bs[c + 2..];
      nb[..c] + MergeAll(nb[c..]) == bs[..c] + MergeAll(bs[c..])
  {
    var head := Block(bs[c].size + HEADER + bs[c + 1].size, true);
    var nb := bs[..c] + [head] + bs[c + 2..];
    assert nb[..c] == bs[..c];
    assert nb[c..] == [head] + bs[c..][2..];
  }

  /** One advancing step of the coalescing loop moves a finished block into the prefix. */
  lemma MergeStepAdvance(bs: seq<Block>, c: nat)
    requires c + 1 < |bs| && !(bs[c].isFree && bs[c + 1].isFree)
    ensures bs[..c + 1] + MergeAll(bs[c + 1..]) == bs[..c] + MergeAll(bs[c..])
  {
    assert bs[c..][1..] == bs[c + 1..];
    assert bs[..c + 1] == bs[..c] + [bs[c]];
  }

  /** When the pass reaches the last block, what it has left is the merged chain. */
  lemma MergeDone(bs: seq<Block>, c: nat)
    requires c + 1 == |bs|
    ensures bs[..c] + MergeAll(bs[c..]) == bs
  {
    assert bs[c..] == [bs[c]];
    assert bs == bs[..c] + bs[c..];
  }

  /** Payloads of distinct blocks do not overlap: each ends before the next header starts. */
  lemma AddressesIncrease(bs: seq<Block>, s: nat, t: nat)
    requires s < t < |bs|
    ensures PayloadAddress(bs, s) + bs[s].size + HEADER <= PayloadAddress(bs, t)
  {
    assert bs[..t] == bs[..s] + [bs[s]] + bs[s + 1..t];
    SpanAppend(bs[..s] + [bs[s]], bs[s + 1..t]);
    SpanAppend(bs[..s], [bs[s]]);
    assert [bs[s]][1..] == [];
  }

  /**
   * The chain facts behind `realloc`'s copying path: `malloc` leaves the old
   * block where it was and hands out a different block, the two payloads do not
   * overlap, and freeing the old block leaves the new one in place.
   */
  lemma ReallocChain(bs: seq<Block>, t: nat, size: nat)
    requires t < |bs| && !bs[t].isFree
    ensures var mid := AfterMalloc(bs, size);
      var n := MallocIndex(bs, size);
      var marked := MarkFree(mid, t);
      && t < |mid| && n < |mid| && n != t && mid[t] == bs[t]
      && !mid[n].isFree && mid[n].size >= size
      && PayloadAddress(mid, t) == PayloadAddress(bs, t)
      && (PayloadAddress(mid, t) + bs[t].size <= PayloadAddress(mid, n)
          || PayloadAddress(mid, n) + mid[n].size <= PayloadAddress(mid, t))
      && MergeIndex(marked, n) < |MergeAll(marked)|
      && MergeAll(marked)[MergeIndex(marked, n)] == mid[n]
      && PayloadAddress(MergeAll(marked), MergeIndex(marked, n)) == PayloadAddress(mid, n)
  {
    var mid := AfterMalloc(bs, size);
    var n := MallocIndex(bs, size);
    var marked := MarkFree(mid, t);
    MallocGives(bs, size);
    if t < n {
      AddressesIncrease(mid, t, n);
    } else {
      AddressesIncrease(mid, n, t);
    }
    SpanSizesOnly(mid[..t], bs[..t]);
    MergeKeepsUsed(marked, n);
    SpanSizesOnly(marked[..n], mid[..n]);
  }

  /**
   * The kernel heap: `heap_start` (modelled by `initialized` and the chain
   * `blocks`) and the memory contents the allocator copies.
   */
  class KernelHeap {
    var initialized: bool
    var blocks: seq<Block>
    /** Memory contents by physical address; headers are kept in `blocks`, not here. */
    var ram: nat -> byte

    /** The chain exists exactly once `memory_init` has run, and never holds two free neighbours. */
    ghost predicate Valid()
      reads this
    {
      (initialized <==> blocks != []) && NoAdjacentFree(blocks)
    }

    /** The static initial state: `heap_start` is null. */
    constructor (contents: nat -> byte)
      ensures Valid() && !initialized && ram == contents
    {
      initialized := false;
      blocks := [];
      ram := contents;
    }

    /** `memory_init`: the heap becomes one free block filling the 1 MiB region. */
    method MemoryInit()
      modifies this
      ensures Valid()
      ensures initialized && blocks == InitialChain() && ram == old(ram)
    {
      blocks := [Block(HEAP_SIZE - HEADER, true)];
      initialized := true;
    }

    /**
     * `find_free_block`: the first block that is free and large enough, and in
     * `last` the block visited before it, or the final block when none fits.
     */
    method FindFreeBlock(size: nat) returns (block: Option<nat>, last: nat)
      requires initialized && blocks != []
      ensures block == FirstFitFrom(blocks, size, 0)
      ensures block.Some? ==> last == if block.value == 0 then 0 else block.value - 1
      ensures block.None? ==> last == |blocks| - 1
    {
      var i := 0;
      last := 0;
      while i < |blocks| && !(blocks[i].isFree && blocks[i].size >= size)
        invariant i <= |blocks|
        invariant FirstFitFrom(blocks, size, i) == FirstFitFrom(blocks, size, 0)
        invariant last == if i == 0 then 0 else i - 1
      {
        last := i;
        i := i + 1;
      }
      block := if i < |blocks| then Some(i) else None;
    }

    /**
     * `request_space`: a new allocated block of `size` bytes placed directly after
     * block `last`, the final block, with no check against the end of the region.
     */
    method RequestSpace(last: nat, size: nat) returns (b: nat)
      requires Valid() && initialized && last == |blocks| - 1
      modifies this
      ensures Valid()
      ensures blocks == old(blocks) + [Block(size, false)] && b == |old(blocks)|
      ensures PayloadAddress(blocks, b) == PayloadAddress(old(blocks), last) + old(blocks[last].size) + HEADER
      ensures initialized && ram == old(ram)
    {
      ghost var before := blocks;
      blocks := blocks + [Block(size, false)];
      b := last + 1;
      assert blocks[..b] == before[..last] + [before[last]];
      SpanAppend(before[..last], [before[last]]);
      assert [before[last]][1..] == [];
    }

    /**
     * `malloc`: null for size 0; otherwise the heap is initialised on first use
     * and the first fitting block is marked allocated, or a new block is appended.
     */
    method Malloc(size: nat) returns (p: Ptr)
      requires Valid()
      modifies this
      ensures Valid() && ram == old(ram)
      ensures size == 0 ==> p == Null && unchanged(this)
      ensures size > 0 ==> initialized
      ensures size > 0 ==> blocks == AfterMalloc(Started(old(initialized), old(blocks)), size)
      ensures size > 0 ==> p == Payload(MallocIndex(Started(old(initialized), old(blocks)), size))
      ensures p.Payload? ==> p.index < |blocks| && !blocks[p.index].isFree && blocks[p.index].size >= size
    {
      if size == 0 {
        return Null;
      }
      if !initialized {
        MemoryInit();
      }
      ghost var start := blocks;
      MallocGives(start, size);
      MallocNoAdjacent(start, size);
      var found, last := FindFreeBlock(size);
      if found.None? {
        var b := RequestSpace(last, size);
        p := Payload(b);
      } else {
        blocks := blocks[found.value := Block(blocks[found.value].size, false)];
        p := Payload(found.value);
      }
    }

    /**
     * `free`: nothing for null; otherwise the block is marked free and the whole
     * chain is walked from its head, merging each free block with a free successor.
     */
    method Free(p: Ptr)
      requires Valid()
      requires p.Payload? ==> p.index < |blocks| && !blocks[p.index].isFree
      modifies this
      ensures Valid() && ram == old(ram) && initialized == old(initialized)
      ensures p.Null? ==> unchanged(this)
      ensures p.Payload? ==> blocks == MergeAll(MarkFree(old(blocks), p.index))
    {
      if p.Null? {
        return;
      }
      blocks := blocks[p.index := Block(blocks[p.index].size, true)];
      MergeAllNoAdjacent(blocks);
      blocks := Merge(blocks);
    }

    /** The merge pass of `free`: from the first block on, a free block absorbs a free successor, otherwise the pass moves on. */
    static method Merge(chain: seq<Block>) returns (bs: seq<Block>)
      requires chain != []
      ensures bs == MergeAll(chain)
    {
      bs := chain;
      var c := 0;
      assert bs[c..] == bs;
      while c + 1 < |bs|
        invariant c < |bs|
        invariant bs[..c] + MergeAll(bs[c..]) == MergeAll(chain)
        decreases |bs| - c
      {
        if bs[c].isFree && bs[c + 1].isFree {
          MergeStepAbsorb(bs, c);
          bs := bs[..c] + [Block(bs[c].size + HEADER + bs[c + 1].size, true)] + bs[c + 2..];
        } else {
          MergeStepAdvance(bs, c);
          c := c + 1;
        }
      }
      MergeDone(bs, c);
    }

    /**
     * `memcpy(dst, src, n)`: copies `n` bytes forward, one at a time; the regions
     * must not overlap.
     */
    method Memcpy(dst: nat, src: nat, n: nat)
      requires dst + n <= src || src + n <= dst
      modifies this
      ensures Bytes(ram, dst, n) == Bytes(old(ram), src, n)
      ensures forall a: nat | !(dst <= a < dst + n) :: ram(a) == old(ram)(a)
      ensures blocks == old(blocks) && initialized == old(initialized)
    {
      var mem := ram;
      ghost var r0 := ram;
      var i := 0;
      while i < n
        invariant i <= n
        invariant forall a: nat | dst <= a < dst + i :: mem(a) == r0(src + (a - dst))
        invariant forall a: nat | !(dst <= a < dst + i) :: mem(a) == r0(a)
      {
        var cur := mem;
        var v := cur(src + i);
        mem := (a: nat) => if a == dst + i then v else cur(a);
        i := i + 1;
      }
      ram := mem;
      assert Bytes(ram, dst, n) == Bytes(old(ram), src, n);
    }

    /**
     * The copying path of `realloc`: `malloc` a new block, copy the smaller of
     * the two sizes into it, free the old block.
     */
    method ReallocMove(p: Ptr, size: nat) returns (q: Ptr)
      requires Valid() && size > 0
      requires p.Payload? && p.index < |blocks| && !blocks[p.index].isFree
      modifies this
      ensures Valid()
      ensures var mid := AfterMalloc(old(blocks), size);
        var n := MallocIndex(old(blocks), size);
        && p.index < |mid|
        && blocks == MergeAll(MarkFree(mid, p.index))
        && n < |mid| && n != p.index
        && q == Payload(MergeIndex(MarkFree(mid, p.index), n))
      ensures q.Payload? && q.index < |blocks| && !blocks[q.index].isFree && blocks[q.index].size >= size
      ensures Bytes(ram, PayloadAddress(blocks, q.index), CopySize(old(blocks[p.index].size), size))
           == Bytes(old(ram), PayloadAddress(old(blocks), p.index), CopySize(old(blocks[p.index].size), size))
      ensures forall a: nat | !(PayloadAddress(blocks, q.index) <= a < PayloadAddress(blocks, q.index) + CopySize(old(blocks[p.index].size), size)) ::
        ram(a) == old(ram)(a)
    {
      var before := blocks;
      ReallocChain(before, p.index, size);
      var newPtr := Malloc(size);
      var n := newPtr.index;
      var copy := CopySize(before[p.index].size, size);
      var dst, src := PayloadAddress(blocks, n), PayloadAddress(blocks, p.index);
      Memcpy(dst, src, copy);
      var marked := MarkFree(blocks, p.index);
      Free(p);
      q := Payload(MergeIndex(marked, n));
    }

    /**
     * `realloc`: null behaves as `malloc`; size 0 frees and gives null; otherwise a
     * new block is always taken, the smaller of the two sizes copied into it, and
     * the old block freed (`ReallocMove`).
     */
    method Realloc(p: Ptr, size: nat) returns (q: Ptr)
      requires Valid()
      requires p.Payload? ==> p.index < |blocks| && !blocks[p.index].isFree
      modifies this
      ensures Valid()
      ensures p.Null? && size == 0 ==> q == Null && unchanged(this)
      ensures p.Null? && size > 0 ==> blocks == AfterMalloc(Started(old(initialized), old(blocks)), size) && ram == old(ram)
      ensures p.Null? && size > 0 ==> q == Payload(MallocIndex(Started(old(initialized), old(blocks)), size))
      ensures p.Payload? && size == 0 ==> q == Null && blocks == MergeAll(MarkFree(old(blocks), p.index)) && ram == old(ram)
      ensures p.Payload? && size > 0 ==>
        var mid := AfterMalloc(old(blocks), size);
        var n := MallocIndex(old(blocks), size);
        && p.index < |mid|
        && blocks == MergeAll(MarkFree(mid, p.index))
        && n < |mid| && n != p.index
        && q == Payload(MergeIndex(MarkFree(mid, p.index), n))
      ensures p.Payload? && size > 0 ==>
        && q.Payload? && q.index < |blocks| && !blocks[q.index].isFree && blocks[q.index].size >= size
        && Bytes(ram, PayloadAddress(blocks, q.index), CopySize(old(blocks[p.index].size), size))
           == Bytes(old(ram), PayloadAddress(old(blocks), p.index), CopySize(old(blocks[p.index].size), size))
        && (forall a: nat | !(PayloadAddress(blocks, q.index) <= a < PayloadAddress(blocks, q.index) + CopySize(old(blocks[p.index].size), size)) ::
              ram(a) == old(ram)(a))
    {
      if p.Null? {
        q := Malloc(size);
        return;
      }
      if size == 0 {
        Free(p);
        return Null;
      }
      q := ReallocMove(p, size);
    }

    /** `memory_allocate`: the same as `malloc`. */
    method MemoryAllocate(size: nat) returns (p: Ptr)
      requires Valid()
      modifies this
      ensures Valid() && ram == old(ram)
      ensures size == 0 ==> p == Null && unchanged(this)
      ensures size > 0 ==> blocks == AfterMalloc(Started(old(initialized), old(blocks)), size)
      ensures size > 0 ==> p == Payload(MallocIndex(Started(old(initialized), old(blocks)), size))
      ensures p.Payload? ==> p.index < |blocks| && !blocks[p.index].isFree && blocks[p.index].size >= size
    {
      p := Malloc(size);
    }

    /** `memory_free`: the same as `free`. */
    method MemoryFree(p: Ptr)
      requires Valid()
      requires p.Payload? ==> p.index < |blocks| && !blocks[p.index].isFree
      modifies this
      ensures Valid() && ram == old(ram)
      ensures p.Null? ==> unchanged(this)
      ensures p.Payload? ==> blocks == MergeAll(MarkFree(old(blocks), p.index))
    {
      Free(p);
    }
  }

  /** Two chains with the same block sizes cover the same bytes. */
  lemma {:induction false} SpanSizesOnly(a: seq<Block>, b: seq<Block>)
    requires |a| == |b|
    requires forall t | 0 <= t < |a| :: a[t].size == b[t].size
    ensures Span(a) == Span(b)
  {
    if a != [] {
      SpanSizesOnly(a[1..], b[1..]);
    }
  }

  /** `memory_get_total`: a fixed 64 MiB, larger than the heap region, whatever the heap holds. */
  function MemoryGetTotal(): (r: nat)
    ensures r == 64 * 1024 * 1024 && r > HEAP_START + HEAP_SIZE
  {
    REPORTED_TOTAL
  }

  /** `memory_get_free`: the size of the block `memory_init` creates, whatever has been allocated since. */
  function MemoryGetFree(): (r: nat)
    ensures r == InitialChain()[0].size && r + HEADER == HEAP_SIZE
  {
    HEAP_SIZE - HEADER
  }
}
