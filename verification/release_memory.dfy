/**
 * Model of the release kernel heap (release/kernel/memory.cpp): a first-fit
 * allocator over a doubly linked chain of blocks in address order. Each block
 * is a 16-byte header followed by its payload. Requests are rounded up to a
 * multiple of 8, oversized blocks are split, and a freed block is merged with
 * its free neighbours in both directions.
 *
 * The chain is a sequence of blocks in address order; a block's `next` and
 * `prev` are its neighbours in the sequence. A payload pointer handed to a
 * caller is the handle `Payload(i)` of block `i`, and its address is
 * `PayloadAddress(blocks, i)`, the header address plus the header size.
 */
module ReleaseMemory {
  import opened Common

  /** `sizeof(struct memory_block)` on the 32-bit target: size, is_free (padded), next, prev. */
  const HEADER: nat := 16
  /** The heap starts at 1 MiB, already aligned to 4096. */
  const HEAP_ADDR: nat := 0x100000
  /** Bit 0 of the Multiboot `flags`: `mem_lower`/`mem_upper` are valid (Multiboot 0.6.96, section 3.3). */
  const MULTIBOOT_INFO_MEMORY: bv32 := 1

  /** The fields of the boot information structure the allocator reads. */
  datatype MultibootInfo = MultibootInfo(flags: bv32, memLower: u32, memUpper: u32)

  datatype Block = Block(size: nat, isFree: bool)

  /** A payload pointer: null, or the payload of block `index` of the chain. */
  datatype Ptr = Null | Payload(index: nat)

  /** Rounding up to a multiple of `a`, a power of two, by adding `a - 1` and clearing the low bits, on 32 bits. */
  function AlignUp(x: u32, a: nat): (r: u32)
    requires a == 8 || a == 4096
    ensures r % a == 0
    ensures x + a - 1 < U32_MOD ==> x <= r < x + a
    ensures x + a - 1 >= U32_MOD ==> r == 0
  {
    ((x + a - 1) % U32_MOD) / a * a
  }

  /** The usable byte count the boot report announces: lower plus upper memory, in KiB, times 1024 on 32 bits. */
  function TotalBytes(mbi: MultibootInfo): u32 {
    ((mbi.memLower + mbi.memUpper) * 1024) % U32_MOD
  }

  /** Whether the report carries the memory fields. */
  predicate HasMemoryInfo(mbi: MultibootInfo) {
    mbi.flags & MULTIBOOT_INFO_MEMORY != 0
  }

  /** Bytes a chain occupies: every header plus every payload. */
  function Span(bs: seq<Block>): (n: nat)
    ensures bs != [] ==> n >= HEADER + bs[0].size
  {
    if bs == [] then 0 else HEADER + bs[0].size + Span(bs[1..])
  }

  /** Bytes held by the free blocks of a chain, headers included. */
  function FreeSpan(bs: seq<Block>): (n: nat)
    ensures n <= Span(bs)
  {
    if bs == [] then 0 else (if bs[0].isFree then HEADER + bs[0].size else 0) + FreeSpan(bs[1..])
  }

  /** The coalescing invariant: no two neighbouring blocks are both free. */
  predicate NoAdjacentFree(bs: seq<Block>) {
    forall i | 0 <= i < |bs| - 1 :: !(bs[i].isFree && bs[i + 1].isFree)
  }

  /** Every payload size is a multiple of 8, so every payload address is too. */
  predicate Aligned(bs: seq<Block>) {
    forall i | 0 <= i < |bs| :: bs[i].size % 8 == 0
  }

  /** The address of block `i`'s payload: the header address plus `HEADER`. */
  function PayloadAddress(bs: seq<Block>, i: nat): nat
    requires i < |bs|
  {
    HEAP_ADDR + Span(bs[..i]) + HEADER
  }

  predicate Fits(b: Block, n: nat) {
    b.isFree && b.size >= n
  }

  /** `find_free_block` from block `i` on: the first block at or after `i` that is free and large enough. */
  function FirstFitFrom(bs: seq<Block>, n: nat, i: nat): (r: Option<nat>)
    requires i <= |bs|
    decreases |bs| - i
    ensures r.Some? ==> i <= r.value < |bs| && Fits(bs[r.value], n)
    ensures r.Some? ==> forall j | i <= j < r.value :: !Fits(bs[j], n)
    ensures r.None? ==> forall j | i <= j < |bs| :: !Fits(bs[j], n)
  {
    if i == |bs| then None
    else if Fits(bs[i], n) then Some(i)
    else FirstFitFrom(bs, n, i + 1)
  }

  /** The block first fit selects for a request of `n` (already rounded). */
  function FirstFit(bs: seq<Block>, n: nat): (r: Option<nat>)
    ensures r.Some? ==> r.value < |bs| && Fits(bs[r.value], n)
    ensures r.Some? ==> forall j | 0 <= j < r.value :: !Fits(bs[j], n)
    ensures r.None? ==> forall j | 0 <= j < |bs| :: !Fits(bs[j], n)
  {
    FirstFitFrom(bs, n, 0)
  }

  /** Whether taking `r` bytes from a block of `size` bytes splits it. */
  predicate Splits(size: nat, r: nat) {
    size > r + HEADER + 8
  }

  /**
   * The chain after block `i` is handed out for a rounded request `r`: split into
   * an allocated head of exactly `r` bytes and a free tail when large enough,
   * otherwise marked allocated whole.
   */
  function Carve(bs: seq<Block>, i: nat, r: nat): seq<Block>
    requires i < |bs| && bs[i].size >= r
  {
    if Splits(bs[i].size, r) then
      bs[..i] + [Block(r, false), Block(bs[i].size - r - HEADER, true)] + bs[i + 1..]
    else
      bs[i := Block(bs[i].size, false)]
  }

  /** Blocks `j..k` replaced by one free block covering the same bytes. */
  function Merged(bs: seq<Block>, j: nat, k: nat): seq<Block>
    requires j < k <= |bs|
  {
    bs[..j] + [Block(Span(bs[j..k]) - HEADER, true)] + bs[k..]
  }

  /** Block `j` absorbs its successor: what one step of either merge loop does. */
  function Absorb(bs: seq<Block>, j: nat): seq<Block>
    requires j + 1 < |bs|
  {
    bs[..j] + [Block(bs[j].size + bs[j + 1].size + HEADER, bs[j].isFree)] + bs[j + 2..]
  }

  /** First block of the run of free blocks that ends at free block `i`. */
  function RunStart(bs: seq<Block>, i: nat): (j: nat)
    requires i < |bs|
    ensures j <= i
    ensures forall t | j <= t < i :: bs[t].isFree
    ensures j == 0 || !bs[j - 1].isFree
  {
    if i > 0 && bs[i - 1].isFree then RunStart(bs, i - 1) else i
  }

  /** One past the last block of the run of free blocks that starts at block `i`. */
  function RunEnd(bs: seq<Block>, i: nat): (k: nat)
    requires i < |bs|
    decreases |bs| - i
    ensures i < k <= |bs|
    ensures forall t | i < t < k :: bs[t].isFree
    ensures k == |bs| || !bs[k].isFree
  {
    if i + 1 < |bs| && bs[i + 1].isFree then RunEnd(bs, i + 1) else i + 1
  }

  /** Block `i` marked free. */
  function MarkFree(bs: seq<Block>, i: nat): seq<Block>
    requires i < |bs|
  {
    bs[i := Block(bs[i].size, true)]
  }

  /** The chain after `memory_free` of block `i`: marked free, then merged with its free run. */
  function Coalesce(bs: seq<Block>, i: nat): seq<Block>
    requires i < |bs|
  {
    var m := MarkFree(bs, i);
    Merged(m, RunStart(m, i), RunEnd(m, i))
  }

  // ---------------------------------------------------------------------------
  // Lemmas about the chain arithmetic

  lemma {:induction false} SpanAppend(a: seq<Block>, b: seq<Block>)
    ensures Span(a + b) == Span(a) + Span(b)
  {
    if a == [] {
      assert a + b == b;
    } else {
      assert (a + b)[0] == a[0] && (a + b)[1..] == a[1..] + b;
      SpanAppend(a[1..], b);
    }
  }

  lemma {:induction false} FreeSpanAppend(a: seq<Block>, b: seq<Block>)
    ensures FreeSpan(a + b) == FreeSpan(a) + FreeSpan(b)
  {
    if a == [] {
      assert a + b == b;
    } else {
      assert (a + b)[0] == a[0] && (a + b)[1..] == a[1..] + b;
      FreeSpanAppend(a[1..], b);
    }
  }

  /** Both measures of a chain in three parts. */
  lemma Concat3(a: seq<Block>, b: seq<Block>, c: seq<Block>)
    ensures Span(a + b + c) == Span(a) + Span(b) + Span(c)
    ensures FreeSpan(a + b + c) == FreeSpan(a) + FreeSpan(b) + FreeSpan(c)
  {
    SpanAppend(a + b, c);
    SpanAppend(a, b);
    FreeSpanAppend(a + b, c);
    FreeSpanAppend(a, b);
  }

  /** Both measures of a single block. */
  lemma SpanOne(x: Block)
    ensures Span([x]) == HEADER + x.size
    ensures FreeSpan([x]) == if x.isFree then HEADER + x.size else 0
  {
    assert [x][1..] == [];
  }

  /** Span of a chain split at `i`: the prefix, block `i`, and the rest. */
  lemma SpanAt(bs: seq<Block>, i: nat)
    requires i < |bs|
    ensures Span(bs) == Span(bs[..i]) + HEADER + bs[i].size + Span(bs[i + 1..])
    ensures FreeSpan(bs) == FreeSpan(bs[..i]) + (if bs[i].isFree then HEADER + bs[i].size else 0) + FreeSpan(bs[i + 1..])
  {
    assert bs == bs[..i] + [bs[i]] + bs[i + 1..];
    Concat3(bs[..i], [bs[i]], bs[i + 1..]);
    SpanOne(bs[i]);
  }

  /** A chain whose blocks are all free is all free space. */
  lemma {:induction false} FreeSpanAllFree(bs: seq<Block>)
    requires forall t | 0 <= t < |bs| :: bs[t].isFree
    ensures FreeSpan(bs) == Span(bs)
  {
    if bs != [] {
      FreeSpanAllFree(bs[1..]);
    }
  }

  /** Replacing blocks `j..k` by the blocks `mid` trades their bytes for those of `mid`. */
  lemma ReplaceRunSpans(bs: seq<Block>, j: nat, k: nat, mid: seq<Block>)
    requires j <= k <= |bs|
    ensures Span(bs[..j] + mid + bs[k..]) + Span(bs[j..k]) == Span(bs) + Span(mid)
    ensures FreeSpan(bs[..j] + mid + bs[k..]) + FreeSpan(bs[j..k]) == FreeSpan(bs) + FreeSpan(mid)
  {
    assert bs == bs[..j] + bs[j..k] + bs[k..];
    Concat3(bs[..j], bs[j..k], bs[k..]);
    Concat3(bs[..j], mid, bs[k..]);
  }

  /** Merging a run of blocks keeps the bytes covered and the free bytes when the run is free. */
  lemma MergedSpan(bs: seq<Block>, j: nat, k: nat)
    requires j < k <= |bs|
    requires forall t | j <= t < k :: bs[t].isFree
    ensures |Merged(bs, j, k)| == |bs| - (k - j - 1)
    ensures Span(Merged(bs, j, k)) == Span(bs)
    ensures FreeSpan(Merged(bs, j, k)) == FreeSpan(bs)
  {
    var run := bs[j..k];
    var x := Block(Span(run) - HEADER, true);
    ReplaceRunSpans(bs, j, k, [x]);
    SpanOne(x);
    assert forall t | 0 <= t < |run| :: run[t] == bs[j + t];
    FreeSpanAllFree(run);
  }

  /** One absorbing step extends a merged run by the next block. */
  lemma AbsorbForward(m: seq<Block>, j: nat, e: nat)
    requires j < e < |m|
    ensures |Merged(m, j, e)| > j + 1
    ensures Merged(m, j, e)[j + 1] == m[e]
    ensures Absorb(Merged(m, j, e), j) == Merged(m, j, e + 1)
  {
    var cur := Merged(m, j, e);
    assert cur[j + 2..] == m[e + 1..];
    assert m[j..e + 1] == m[j..e] + [m[e]];
    SpanAppend(m[j..e], [m[e]]);
  }

  /** One absorbing step of the predecessor extends a merged run backwards. */
  lemma AbsorbBackward(m: seq<Block>, j: nat, e: nat)
    requires 0 < j < e <= |m|
    requires m[j - 1].isFree
    ensures Absorb(Merged(m, j, e), j - 1) == Merged(m, j - 1, e)
  {
    var cur := Merged(m, j, e);
    assert cur[j - 1] == m[j - 1] && cur[j + 1..] == m[e..];
    assert m[j - 1..e] == [m[j - 1]] + m[j..e];
  }

  /** A single block merged with nothing is the block itself, marked free. */
  lemma MergedSingle(m: seq<Block>, i: nat)
    requires i < |m| && m[i].isFree
    ensures Merged(m, i, i + 1) == m
  {
    var x := m[i];
    assert m[i..i + 1] == [x];
    assert [x][1..] == [];
    assert Span([x]) == HEADER + x.size;
    assert Block(Span(m[i..i + 1]) - HEADER, true) == x;
    assert m == m[..i] + [x] + m[i + 1..];
  }

  /** The forward merge loop stops exactly at the end of the run. */
  lemma {:induction false} RunEndIs(m: seq<Block>, i: nat, e: nat)
    requires i < e <= |m|
    requires forall t | i < t < e :: m[t].isFree
    requires e == |m| || !m[e].isFree
    ensures RunEnd(m, i) == e
    decreases e - i
  {
    if i + 1 < e {
      RunEndIs(m, i + 1, e);
    }
  }

  /** The backward merge loop stops exactly at the start of the run. */
  lemma {:induction false} RunStartIs(m: seq<Block>, i: nat, j: nat)
    requires j <= i < |m|
    requires forall t | j <= t < i :: m[t].isFree
    requires j == 0 || !m[j - 1].isFree
    ensures RunStart(m, i) == j
    decreases i - j
  {
    if j < i {
      RunStartIs(m, i - 1, j);
    }
  }

  /** Two chains with the same block sizes cover the same bytes. */
  lemma {:induction false} SpanSizesOnly(a: seq<Block>, b: seq<Block>)
    requires |a| == |b|
    requires forall t | 0 <= t < |a| :: a[t].size == b[t].size
    ensures Span(a) == Span(b)
  {
    if a != [] {
      SpanSizesOnly(a[1..], b[1..]);
    }
  }

  /** An aligned chain covers a multiple of 8 bytes. */
  lemma {:induction false} SpanAligned(bs: seq<Block>)
    requires Aligned(bs)
    ensures Span(bs) % 8 == 0
  {
    if bs != [] {
      SpanAligned(bs[1..]);
    }
  }

  /** Replacing block `i` by the blocks `mid` trades that block's bytes for theirs. */
  lemma ReplaceSpans(bs: seq<Block>, i: nat, mid: seq<Block>)
    requires i < |bs|
    ensures Span(bs[..i] + mid + bs[i + 1..]) + HEADER + bs[i].size == Span(bs) + Span(mid)
    ensures FreeSpan(bs[..i] + mid + bs[i + 1..]) + (if bs[i].isFree then HEADER + bs[i].size else 0) == FreeSpan(bs) + FreeSpan(mid)
  {
    SpanAt(bs, i);
    Concat3(bs[..i], mid, bs[i + 1..]);
  }

  /** Both measures of two blocks. */
  lemma SpanTwo(x: Block, y: Block)
    ensures Span([x, y]) == HEADER + x.size + HEADER + y.size
    ensures FreeSpan([x, y]) == (if x.isFree then HEADER + x.size else 0) + (if y.isFree then HEADER + y.size else 0)
  {
    assert [x, y] == [x] + [y];
    SpanAppend([x], [y]);
    FreeSpanAppend([x], [y]);
    SpanOne(x);
    SpanOne(y);
  }

  /** A split leaves a head of exactly `r` bytes and a free tail that together cover the block. */
  lemma SplitSpans(bs: seq<Block>, i: nat, r: nat)
    requires i < |bs| && Fits(bs[i], r) && Splits(bs[i].size, r)
    ensures Span(Carve(bs, i, r)) == Span(bs)
    ensures FreeSpan(Carve(bs, i, r)) + HEADER + r == FreeSpan(bs)
  {
    var head, tail := Block(r, false), Block(bs[i].size - r - HEADER, true);
    assert Carve(bs, i, r) == bs[..i] + [head, tail] + bs[i + 1..];
    ReplaceSpans(bs, i, [head, tail]);
    SpanTwo(head, tail);
  }

  /** Without a split the block is handed out whole. */
  lemma WholeSpans(bs: seq<Block>, i: nat, r: nat)
    requires i < |bs| && Fits(bs[i], r) && !Splits(bs[i].size, r)
    ensures Span(Carve(bs, i, r)) == Span(bs)
    ensures FreeSpan(Carve(bs, i, r)) + HEADER + bs[i].size == FreeSpan(bs)
  {
    var x := Block(bs[i].size, false);
    assert Carve(bs, i, r) == bs[..i] + [x] + bs[i + 1..];
    ReplaceSpans(bs, i, [x]);
    SpanOne(x);
  }

  /** The chain after a carve covers the same bytes, and the handed-out block left the free space. */
  lemma CarveSpans(bs: seq<Block>, i: nat, r: nat)
    requires i < |bs| && Fits(bs[i], r)
    ensures Span(Carve(bs, i, r)) == Span(bs)
    ensures FreeSpan(Carve(bs, i, r)) + HEADER + Carve(bs, i, r)[i].size == FreeSpan(bs)
  {
    if Splits(bs[i].size, r) {
      SplitSpans(bs, i, r);
    } else {
      WholeSpans(bs, i, r);
    }
  }

  /** The split keeps the chain free of adjacent free blocks and 8-aligned. */
  lemma CarveInvariants(bs: seq<Block>, i: nat, r: nat)
    requires i < |bs| && Fits(bs[i], r) && r % 8 == 0
    requires NoAdjacentFree(bs) && Aligned(bs)
    ensures NoAdjacentFree(Carve(bs, i, r)) && Aligned(Carve(bs, i, r))
  {
    var c := Carve(bs, i, r);
    if Splits(bs[i].size, r) {
      forall t | 0 <= t < |c| - 1
        ensures !(c[t].isFree && c[t + 1].isFree)
      {
        if t + 1 < i {
          assert c[t] == bs[t] && c[t + 1] == bs[t + 1];
        } else if t + 1 == i {
          assert !c[t + 1].isFree;
        } else if t == i {
          assert !c[t].isFree;
        } else if t == i + 1 {
          assert c[t + 1] == bs[i + 1];
        } else {
          assert c[t] == bs[t - 1] && c[t + 1] == bs[t];
        }
      }
      forall t | 0 <= t < |c|
        ensures c[t].size % 8 == 0
      {
        if t > i + 1 {
          assert c[t] == bs[t - 1];
        }
      }
    }
  }

  /**
   * Handing out block `i` for a rounded request `r` keeps the covered bytes, the
   * invariants, and takes exactly the handed-out block (header included) from the
   * free bytes.
   */
  lemma CarveProps(bs: seq<Block>, i: nat, r: nat)
    requires i < |bs| && Fits(bs[i], r) && r % 8 == 0
    requires NoAdjacentFree(bs) && Aligned(bs)
    ensures |Carve(bs, i, r)| == |bs| + (if Splits(bs[i].size, r) then 1 else 0)
    ensures Carve(bs, i, r)[i] == Block(if Splits(bs[i].size, r) then r else bs[i].size, false)
    ensures Carve(bs, i, r)[i].size >= r
    ensures Span(Carve(bs, i, r)) == Span(bs)
    ensures FreeSpan(Carve(bs, i, r)) + HEADER + Carve(bs, i, r)[i].size == FreeSpan(bs)
    ensures NoAdjacentFree(Carve(bs, i, r)) && Aligned(Carve(bs, i, r))
  {
    CarveSpans(bs, i, r);
    CarveInvariants(bs, i, r);
  }

  /** The block `memory_allocate` of `size` bytes hands out, if any: none for 0, else first fit of the rounded size. */
  function AllocIndex(bs: seq<Block>, size: u32): (r: Option<nat>)
    ensures r.Some? ==> r.value < |bs| && Fits(bs[r.value], AlignUp(size, 8))
  {
    if size == 0 then None else FirstFit(bs, AlignUp(size, 8))
  }

  /** The chain after `memory_allocate(size)`. */
  function AfterAllocate(bs: seq<Block>, size: u32): seq<Block> {
    match AllocIndex(bs, size)
    case None => bs
    case Some(i) => Carve(bs, i, AlignUp(size, 8))
  }

  function ToPtr(r: Option<nat>): Ptr {
    match r
    case None => Null
    case Some(i) => Payload(i)
  }

  /** Merging a whole free run, bounded by non-free blocks, leaves no two free neighbours. */
  lemma MergedInvariants(m: seq<Block>, j: nat, k: nat)
    requires j < k <= |m|
    requires forall t | j <= t < k :: m[t].isFree
    requires j == 0 || !m[j - 1].isFree
    requires k == |m| || !m[k].isFree
    requires forall t | 0 <= t < |m| - 1 && (t + 1 < j || t >= k) :: !(m[t].isFree && m[t + 1].isFree)
    requires Aligned(m)
    ensures NoAdjacentFree(Merged(m, j, k)) && Aligned(Merged(m, j, k))
  {
    var c := Merged(m, j, k);
    assert forall t | 0 <= t < |m[j..k]| :: m[j..k][t].size == m[j + t].size;
    SpanAligned(m[j..k]);
    forall t | 0 <= t < |c| - 1
      ensures !(c[t].isFree && c[t + 1].isFree)
    {
      if t + 1 < j {
        assert c[t] == m[t] && c[t + 1] == m[t + 1];
      } else if t + 1 == j {
        assert c[t] == m[j - 1];
      } else if t == j {
        assert c[t + 1] == m[k];
      } else {
        assert c[t] == m[t + k - j - 1] && c[t + 1] == m[t + k - j];
      }
    }
  }

  /** Marking block `i` free adds its bytes to the free space and keeps the covered bytes. */
  lemma MarkFreeSpans(bs: seq<Block>, i: nat)
    requires i < |bs| && !bs[i].isFree
    ensures Span(MarkFree(bs, i)) == Span(bs)
    ensures FreeSpan(MarkFree(bs, i)) == FreeSpan(bs) + HEADER + bs[i].size
  {
    var x := Block(bs[i].size, true);
    assert MarkFree(bs, i) == bs[..i] + [x] + bs[i + 1..];
    ReplaceSpans(bs, i, [x]);
    SpanOne(x);
  }

  /** `memory_free` keeps the covered bytes and the invariants and returns the block's bytes to the free space. */
  lemma CoalesceProps(bs: seq<Block>, i: nat)
    requires i < |bs| && !bs[i].isFree
    requires NoAdjacentFree(bs) && Aligned(bs)
    ensures Span(Coalesce(bs, i)) == Span(bs)
    ensures FreeSpan(Coalesce(bs, i)) == FreeSpan(bs) + HEADER + bs[i].size
    ensures NoAdjacentFree(Coalesce(bs, i)) && Aligned(Coalesce(bs, i))
  {
    CoalesceSpans(bs, i);
    CoalesceInvariants(bs, i);
  }

  /** `memory_free` keeps the covered bytes and returns the block's bytes to the free space. */
  lemma CoalesceSpans(bs: seq<Block>, i: nat)
    requires i < |bs| && !bs[i].isFree
    ensures Span(Coalesce(bs, i)) == Span(bs)
    ensures FreeSpan(Coalesce(bs, i)) == FreeSpan(bs) + HEADER + bs[i].size
  {
    var m := MarkFree(bs, i);
    MarkFreeSpans(bs, i);
    MergedSpan(m, RunStart(m, i), RunEnd(m, i));
  }

  /** `memory_free` keeps the chain free of adjacent free blocks and 8-aligned. */
  lemma CoalesceInvariants(bs: seq<Block>, i: nat)
    requires i < |bs| && !bs[i].isFree
    requires NoAdjacentFree(bs) && Aligned(bs)
    ensures NoAdjacentFree(Coalesce(bs, i)) && Aligned(Coalesce(bs, i))
  {
    var m := MarkFree(bs, i);
    var j, k := RunStart(m, i), RunEnd(m, i);
    forall t | 0 <= t < |m| - 1 && (t + 1 < j || t >= k)
      ensures !(m[t].isFree && m[t + 1].isFree)
    {
      assert m[t] == bs[t] && m[t + 1] == bs[t + 1];
    }
    assert Aligned(m);
    MergedInvariants(m, j, k);
  }

  /**
   * Freeing a block just handed out restores the chain exactly: `memory_free`
   * undoes `memory_allocate`, including the split.
   */
  lemma CarveThenCoalesce(bs: seq<Block>, i: nat, r: nat)
    requires i < |bs| && Fits(bs[i], r)
    requires NoAdjacentFree(bs)
    ensures Coalesce(Carve(bs, i, r), i) == bs
  {
    var c := Carve(bs, i, r);
    var m := MarkFree(c, i);
    assert i == 0 || !m[i - 1].isFree;
    RunStartIs(m, i, i);
    if Splits(bs[i].size, r) {
      assert m[i + 1].isFree;
      assert i + 2 == |m| || !m[i + 2].isFree;
      RunEndIs(m, i, i + 2);
      assert m[i..i + 2] == [m[i]] + [m[i + 1]];
      SpanAppend([m[i]], [m[i + 1]]);
      assert [m[i]][1..] == [] && [m[i + 1]][1..] == [];
      assert Span(m[i..i + 2]) == HEADER + r + HEADER + (bs[i].size - r - HEADER);
      assert Merged(m, i, i + 2) == bs[..i] + [bs[i]] + bs[i + 1..];
    } else {
      RunEndIs(m, i, i + 1);
      MergedSingle(m, i);
      assert m == bs;
    }
  }

  /** Where block `t` of `bs` sits after block `i` is carved for `r` bytes. */
  function CarveIndex(bs: seq<Block>, i: nat, r: nat, t: nat): nat
    requires i < |bs|
  {
    if t > i && Splits(bs[i].size, r) then t + 1 else t
  }

  /** Carving one block leaves every other block, and its payload address, in place. */
  lemma CarveKeepsOthers(bs: seq<Block>, i: nat, r: nat, t: nat)
    requires i < |bs| && bs[i].size >= r && t < |bs| && t != i
    ensures CarveIndex(bs, i, r, t) < |Carve(bs, i, r)|
    ensures Carve(bs, i, r)[CarveIndex(bs, i, r, t)] == bs[t]
    ensures PayloadAddress(Carve(bs, i, r), CarveIndex(bs, i, r, t)) == PayloadAddress(bs, t)
  {
    var c := Carve(bs, i, r);
    if t < i {
      assert c[..t] == bs[..t];
    } else if Splits(bs[i].size, r) {
      SplitKeepsLater(bs, i, r, t);
    } else {
      SpanSizesOnly(c[..t], bs[..t]);
    }
  }

  /** After a split, a later block moves one place on and keeps the bytes before it. */
  lemma SplitKeepsLater(bs: seq<Block>, i: nat, r: nat, t: nat)
    requires i < t < |bs| && bs[i].size >= r && Splits(bs[i].size, r)
    ensures t + 1 < |Carve(bs, i, r)| && Carve(bs, i, r)[t + 1] == bs[t]
    ensures Span(Carve(bs, i, r)[..t + 1]) == Span(bs[..t])
  {
    var c := Carve(bs, i, r);
    var p := bs[..t];
    var head, tail := Block(r, false), Block(bs[i].size - r - HEADER, true);
    assert c[..t + 1] == p[..i] + [head, tail] + p[i + 1..];
    ReplaceSpans(p, i, [head, tail]);
    SpanTwo(head, tail);
  }

  /** The block `i` is handed out at the address block `i` had. */
  lemma CarveKeepsAddress(bs: seq<Block>, i: nat, r: nat)
    requires i < |bs| && bs[i].size >= r
    ensures i < |Carve(bs, i, r)|
    ensures PayloadAddress(Carve(bs, i, r), i) == PayloadAddress(bs, i)
  {
    assert Carve(bs, i, r)[..i] == bs[..i];
  }

  /** Where a block `t` outside the merged run sits after `memory_free` of block `i`. */
  function CoalesceIndex(bs: seq<Block>, i: nat, t: nat): nat
    requires i < |bs|
  {
    var m := MarkFree(bs, i);
    if t >= RunEnd(m, i) then t - (RunEnd(m, i) - RunStart(m, i) - 1) else t
  }

  /** A block outside a merged run keeps its contents and the bytes before it. */
  lemma MergedKeepsOutside(m: seq<Block>, j: nat, k: nat, t: nat)
    requires j < k <= t < |m|
    ensures t - (k - j - 1) < |Merged(m, j, k)|
    ensures Merged(m, j, k)[t - (k - j - 1)] == m[t]
    ensures Span(Merged(m, j, k)[..t - (k - j - 1)]) == Span(m[..t])
  {
    var c := Merged(m, j, k);
    var u := t - (k - j - 1);
    var mid := [Block(Span(m[j..k]) - HEADER, true)];
    assert c[..u] == m[..j] + mid + m[k..t];
    assert m[..t] == m[..j] + m[j..k] + m[k..t];
    SpanAppend(m[..j] + mid, m[k..t]);
    SpanAppend(m[..j], mid);
    SpanAppend(m[..j] + m[j..k], m[k..t]);
    SpanAppend(m[..j], m[j..k]);
    assert mid[1..] == [];
  }

  /** Freeing a block leaves every allocated block, and its payload address, in place. */
  lemma CoalesceKeepsUsed(bs: seq<Block>, i: nat, t: nat)
    requires i < |bs| && t < |bs| && t != i && !bs[t].isFree
    ensures CoalesceIndex(bs, i, t) < |Coalesce(bs, i)|
    ensures Coalesce(bs, i)[CoalesceIndex(bs, i, t)] == bs[t]
    ensures PayloadAddress(Coalesce(bs, i), CoalesceIndex(bs, i, t)) == PayloadAddress(bs, t)
  {
    var m := MarkFree(bs, i);
    var j, k := RunStart(m, i), RunEnd(m, i);
    MarkFreeKeeps(bs, i, t);
    if t < j {
      MergedKeepsBefore(m, j, k, t);
    } else {
      assert t >= k;
      MergedKeepsOutside(m, j, k, t);
    }
  }

  /** Marking block `i` free leaves every other block and the bytes before it. */
  lemma MarkFreeKeeps(bs: seq<Block>, i: nat, t: nat)
    requires i < |bs| && t < |bs| && t != i
    ensures MarkFree(bs, i)[t] == bs[t] && Span(MarkFree(bs, i)[..t]) == Span(bs[..t])
  {
    var m := MarkFree(bs, i);
    assert |m[..t]| == |bs[..t]|;
    SpanSizesOnly(m[..t], bs[..t]);
  }

  /** A block before a merged run keeps its place, its contents and the bytes before it. */
  lemma MergedKeepsBefore(m: seq<Block>, j: nat, k: nat, t: nat)
    requires t < j < k <= |m|
    ensures t < |Merged(m, j, k)| && Merged(m, j, k)[t] == m[t] && Merged(m, j, k)[..t] == m[..t]
  {
  }

  /** Payload addresses increase along the chain, so an address names one block. */
  lemma AddressesIncrease(bs: seq<Block>, s: nat, t: nat)
    requires s < t < |bs|
    ensures PayloadAddress(bs, s) + HEADER + bs[s].size <= PayloadAddress(bs, t)
  {
    assert bs[..t] == bs[..s] + [bs[s]] + bs[s + 1..t];
    SpanAppend(bs[..s] + [bs[s]], bs[s + 1..t]);
    SpanAppend(bs[..s], [bs[s]]);
    assert [bs[s]][1..] == [];
  }

  /** In an aligned chain every payload address is a multiple of 8. */
  lemma PayloadAligned(bs: seq<Block>, t: nat)
    requires Aligned(bs) && t < |bs|
    ensures PayloadAddress(bs, t) % 8 == 0
  {
    SpanAligned(bs[..t]);
  }

  /** `(x * 1024) mod 2^32` is a multiple of 1024. */
  lemma TotalBytesAligned(mbi: MultibootInfo)
    ensures TotalBytes(mbi) % 1024 == 0
  {
    var x := mbi.memLower + mbi.memUpper;
    var q := x * 1024 / U32_MOD;
    assert TotalBytes(mbi) == x * 1024 - q * U32_MOD;
    assert x * 1024 - q * U32_MOD == (x - q * 0x40_0000) * 1024;
  }

  /**
   * The growing path of `memory_reallocate`: after block `n` is carved for `r`
   * bytes and the old block `t` is freed, the new block stays allocated, large
   * enough and at the address it was handed out at, and the old block was at its
   * original address when its bytes were copied.
   */
  lemma ReallocMoves(bs: seq<Block>, n: nat, r: nat, t: nat)
    requires n < |bs| && Fits(bs[n], r) && t < |bs| && !bs[t].isFree
    ensures var mid := Carve(bs, n, r);
      var o := CarveIndex(bs, n, r, t);
      && o < |mid| && o != n && n < |mid| && mid[o] == bs[t] && !mid[n].isFree
      && PayloadAddress(mid, o) == PayloadAddress(bs, t)
      && CoalesceIndex(mid, o, n) < |Coalesce(mid, o)|
      && Coalesce(mid, o)[CoalesceIndex(mid, o, n)] == mid[n]
      && mid[n].size >= r
      && PayloadAddress(Coalesce(mid, o), CoalesceIndex(mid, o, n)) == PayloadAddress(mid, n)
  {
    var mid := Carve(bs, n, r);
    var o := CarveIndex(bs, n, r, t);
    assert t != n;
    CarveKeepsOthers(bs, n, r, t);
    assert !mid[n].isFree && mid[n].size >= r;
    CoalesceKeepsUsed(mid, o, n);
  }

  /** The heap start 0x100000 is already 4096-aligned. */
  lemma HeapStartAligned()
    ensures AlignUp(HEAP_ADDR, 4096) == HEAP_ADDR
  {
    assert (HEAP_ADDR + 4095) % U32_MOD == HEAP_ADDR + 4095;
    assert (HEAP_ADDR + 4095) / 4096 == 256;
  }

  /** A heap of a single free block satisfies the chain invariants. */
  lemma SingleBlock(size: nat)
    requires size % 8 == 0
    ensures Span([Block(size, true)]) == HEADER + size
    ensures FreeSpan([Block(size, true)]) == HEADER + size
    ensures NoAdjacentFree([Block(size, true)]) && Aligned([Block(size, true)])
  {
    assert [Block(size, true)][1..] == [];
  }

  /** Adding `d` to the counter keeps it equal to the free bytes minus a header, modulo 2^32. */
  lemma FreeAccounting(f: int, free: int, d: int)
    requires f == (free - HEADER) % U32_MOD
    ensures (f + d) % U32_MOD == (free + d - HEADER) % U32_MOD
  {
  }

  /**
   * The heap invariant. Before initialisation the heap is empty. Afterwards the
   * chain is non-empty, covers exactly the bytes from the heap start to
   * `total_memory`, has no two free neighbours, keeps 8-byte sizes, and
   * `free_memory` is the free bytes minus one header, counted in 32-bit
   * arithmetic.
   */
  ghost predicate HeapInvariant(initialized: bool, bs: seq<Block>, total: int, free: int) {
    if !initialized then
      bs == [] && total == 0 && free == 0
    else
      && |bs| >= 1
      && HEAP_ADDR + Span(bs) == total
      && NoAdjacentFree(bs)
      && Aligned(bs)
      && free == (FreeSpan(bs) - HEADER) % U32_MOD
  }

  /** A heap of one free block spanning the whole region satisfies the heap invariant. */
  lemma InitializeEstablishes(total: u32)
    requires total >= HEAP_ADDR + HEADER && total % 1024 == 0
    ensures HeapInvariant(true, [Block(total - HEAP_ADDR - HEADER, true)], total, total - HEAP_ADDR - HEADER)
  {
    var size := total - HEAP_ADDR - HEADER;
    SingleBlock(size);
    assert 0 <= size < U32_MOD;
    assert (FreeSpan([Block(size, true)]) - HEADER) % U32_MOD == size;
  }

  /** Handing out a fitting block keeps the heap invariant, with the block's bytes taken off the counter. */
  lemma AllocatePreserves(bs: seq<Block>, total: int, free: int, i: nat, r: nat)
    requires HeapInvariant(true, bs, total, free)
    requires i < |bs| && Fits(bs[i], r) && r % 8 == 0
    ensures i < |Carve(bs, i, r)|
    ensures HeapInvariant(true, Carve(bs, i, r), total, (free - (Carve(bs, i, r)[i].size + HEADER)) % U32_MOD)
  {
    CarveProps(bs, i, r);
    FreeAccounting(free, FreeSpan(bs), -(HEADER + Carve(bs, i, r)[i].size));
  }

  /** Freeing an allocated block keeps the heap invariant, with the block's bytes added to the counter. */
  lemma FreePreserves(bs: seq<Block>, total: int, free: int, i: nat)
    requires HeapInvariant(true, bs, total, free)
    requires i < |bs| && !bs[i].isFree
    ensures HeapInvariant(true, Coalesce(bs, i), total, (free + (bs[i].size + HEADER)) % U32_MOD)
  {
    CoalesceProps(bs, i);
    FreeAccounting(free, FreeSpan(bs), bs[i].size + HEADER);
  }

  /**
   * The heap state of release/kernel/memory.cpp: `heap_start` (modelled by
   * `initialized` and the chain `blocks`), `total_memory`, `free_memory`, and the
   * payload bytes of physical memory that the allocator copies.
   */
  class Heap {
    var initialized: bool
    var blocks: seq<Block>
    var totalMemory: u32
    var freeMemory: u32
    /** Memory contents by physical address; headers are kept in `blocks`, not here. */
    var ram: nat -> byte

    /** The heap invariant holds of the current state. */
    ghost predicate Valid()
      reads this
    {
      HeapInvariant(initialized, blocks, totalMemory, freeMemory)
    }

    /** The static initial state: no heap, both counters zero. */
    constructor (contents: nat -> byte)
      ensures Valid() && !initialized && ram == contents
    {
      initialized := false;
      blocks := [];
      totalMemory := 0;
      freeMemory := 0;
      ram := contents;
    }

    /**
     * `memory_initialize`: fails without boot information or without its memory
     * fields; otherwise the whole region from 1 MiB to the reported total becomes
     * one free block.
     */
    method Initialize(mbi: Option<MultibootInfo>) returns (ok: bool)
      requires Valid()
      requires mbi.Some? && HasMemoryInfo(mbi.value) ==> TotalBytes(mbi.value) >= HEAP_ADDR + HEADER
      modifies this
      ensures Valid()
      ensures ok <==> mbi.Some? && HasMemoryInfo(mbi.value)
      ensures !ok ==> unchanged(this)
      ensures ok ==> initialized && totalMemory == TotalBytes(mbi.value) && ram == old(ram)
      ensures ok ==> blocks == [Block(TotalBytes(mbi.value) - HEAP_ADDR - HEADER, true)]
      ensures ok ==> freeMemory == TotalBytes(mbi.value) - HEAP_ADDR - HEADER
    {
      if mbi.None? {
        return false;
      }
      if mbi.value.flags & MULTIBOOT_INFO_MEMORY == 0 {
        return false;
      }
      TotalBytesAligned(mbi.value);
      totalMemory := TotalBytes(mbi.value);
      var heapAddr := AlignUp(HEAP_ADDR, 4096);
      HeapStartAligned();
      var size := totalMemory - heapAddr - HEADER;
      InitializeEstablishes(totalMemory);
      blocks := [Block(size, true)];
      initialized := true;
      freeMemory := size;
      ok := true;
    }

    /** `find_free_block`: walks the chain from the start for the first free block of at least `size` bytes. */
    method FindFreeBlock(size: nat) returns (r: Option<nat>)
      ensures r == FirstFit(blocks, size)
    {
      var i := 0;
      while i < |blocks|
        invariant i <= |blocks|
        invariant FirstFitFrom(blocks, size, i) == FirstFit(blocks, size)
      {
        if blocks[i].isFree && blocks[i].size >= size {
          return Some(i);
        }
        i := i + 1;
      }
      return None;
    }

    /**
     * `merge_free_blocks`: the free block `i` first absorbs every free block after
     * it, then is absorbed by every free block before it.
     */
    method MergeFreeBlocks(i: nat)
      requires i < |blocks| && blocks[i].isFree
      modifies this
      ensures blocks == Merged(old(blocks), RunStart(old(blocks), i), RunEnd(old(blocks), i))
      ensures initialized == old(initialized) && totalMemory == old(totalMemory)
      ensures freeMemory == old(freeMemory) && ram == old(ram)
    {
      ghost var m := blocks;
      ghost var e := MergeNext(i);
      MergePrevious(i, m, e);
    }

    /** The forward loop: block `i` absorbs its free successors, up to the end of its run. */
    method MergeNext(i: nat) returns (ghost e: nat)
      requires i < |blocks| && blocks[i].isFree
      modifies this
      ensures e == RunEnd(old(blocks), i) && blocks == Merged(old(blocks), i, e)
      ensures initialized == old(initialized) && totalMemory == old(totalMemory)
      ensures freeMemory == old(freeMemory) && ram == old(ram)
    {
      ghost var m := blocks;
      e := i + 1;
      MergedSingle(m, i);
      while i + 1 < |blocks| && blocks[i + 1].isFree
        invariant i < e <= |m|
        invariant blocks == Merged(m, i, e)
        invariant forall t | i < t < e :: m[t].isFree
        invariant initialized == old(initialized) && totalMemory == old(totalMemory)
        invariant freeMemory == old(freeMemory) && ram == old(ram)
        decreases |m| - e
      {
        AbsorbForward(m, i, e);
        blocks := Absorb(blocks, i);
        e := e + 1;
      }
      assert e < |m| ==> |blocks| > i + 1 && blocks[i + 1] == m[e] by {
        if e < |m| {
          AbsorbForward(m, i, e);
        }
      }
      RunEndIs(m, i, e);
    }

    /** The backward loop: the merged block is absorbed by its free predecessors, back to the start of the run. */
    method MergePrevious(i: nat, ghost m: seq<Block>, ghost e: nat)
      requires i < e <= |m| && m[i].isFree && blocks == Merged(m, i, e)
      modifies this
      ensures blocks == Merged(m, RunStart(m, i), e)
      ensures initialized == old(initialized) && totalMemory == old(totalMemory)
      ensures freeMemory == old(freeMemory) && ram == old(ram)
    {
      var j: nat := i;
      while j > 0 && blocks[j - 1].isFree
        invariant j <= i
        invariant blocks == Merged(m, j, e)
        invariant forall t | j <= t < i :: m[t].isFree
        invariant initialized == old(initialized) && totalMemory == old(totalMemory)
        invariant freeMemory == old(freeMemory) && ram == old(ram)
      {
        assert blocks[j - 1] == m[j - 1];
        AbsorbBackward(m, j, e);
        blocks := Absorb(blocks, j - 1);
        j := j - 1;
      }
      assert j == 0 || blocks[j - 1] == m[j - 1];
      RunStartIs(m, i, j);
    }

    /**
     * `memory_allocate`: null for a zero request or when no block fits; otherwise
     * the first fitting block for the request rounded up to 8 bytes, split when
     * large enough, and its bytes taken from `free_memory`.
     */
    method Allocate(size: u32) returns (p: Ptr)
      requires Valid()
      modifies this
      ensures Valid()
      ensures p == ToPtr(AllocIndex(old(blocks), size))
      ensures blocks == AfterAllocate(old(blocks), size)
      ensures p.Null? ==> unchanged(this)
      ensures p.Payload? ==> p.index < |blocks| && !blocks[p.index].isFree
      ensures p.Payload? && size <= U32_MOD - 8 ==> blocks[p.index].size >= size
      ensures p.Payload? ==> freeMemory == (old(freeMemory) - HEADER - blocks[p.index].size) % U32_MOD
      ensures initialized == old(initialized) && totalMemory == old(totalMemory) && ram == old(ram)
    {
      if size == 0 {
        return Null;
      }
      var r := AlignUp(size, 8);
      var found := FindFreeBlock(r);
      if found.None? {
        return Null;
      }
      var i := found.value;
      CarveProps(blocks, i, r);
      AllocatePreserves(blocks, totalMemory, freeMemory, i, r);
      ghost var before := blocks;
      assert AfterAllocate(before, size) == Carve(before, i, r);
      if blocks[i].size > r + HEADER + 8 {
        blocks := blocks[..i] + [Block(r, false), Block(blocks[i].size - r - HEADER, true)] + blocks[i + 1..];
        assert blocks == Carve(before, i, r);
      } else {
        blocks := blocks[i := Block(blocks[i].size, false)];
        assert blocks == Carve(before, i, r);
      }
      freeMemory := (freeMemory - (blocks[i].size + HEADER)) % U32_MOD;
      p := Payload(i);
    }

    /**
     * `memory_free`: nothing for null; otherwise the block is marked free, its
     * bytes are returned to `free_memory`, and it is merged with its free run.
     */
    method Free(p: Ptr)
      requires Valid()
      requires p.Payload? ==> p.index < |blocks| && !blocks[p.index].isFree
      modifies this
      ensures Valid()
      ensures p.Null? ==> unchanged(this)
      ensures p.Payload? ==> blocks == Coalesce(old(blocks), p.index)
      ensures p.Payload? ==> freeMemory == (old(freeMemory) + HEADER + old(blocks[p.index].size)) % U32_MOD
      ensures initialized == old(initialized) && totalMemory == old(totalMemory) && ram == old(ram)
    {
      if p.Null? {
        return;
      }
      var i := p.index;
      FreePreserves(blocks, totalMemory, freeMemory, i);
      blocks := blocks[i := Block(blocks[i].size, true)];
      freeMemory := (freeMemory + (blocks[i].size + HEADER)) % U32_MOD;
      MergeFreeBlocks(i);
    }

    /** `memcpy(dst, src, n)` on the memory contents; the chain is untouched. */
    method CopyBytes(dst: nat, src: nat, n: nat)
      requires Valid()
      modifies this
      ensures Valid()
      ensures Bytes(ram, dst, n) == Bytes(old(ram), src, n)
      ensures forall a: nat | !(dst <= a < dst + n) :: ram(a) == old(ram)(a)
      ensures blocks == old(blocks) && initialized == old(initialized)
      ensures totalMemory == old(totalMemory) && freeMemory == old(freeMemory)
    {
      var contents := ram;
      ram := (a: nat) => if dst <= a < dst + n then contents(src + (a - dst)) else contents(a);
      assert Bytes(ram, dst, n) == Bytes(contents, src, n);
    }

    /**
     * The moving path of `memory_reallocate`: a new block is allocated; when that
     * fails null is returned and nothing changes, otherwise the old payload is
     * copied into the new block and the old block is freed.
     */
    method Relocate(p: Ptr, size: u32) returns (q: Ptr)
      requires Valid()
      requires p.Payload? && p.index < |blocks| && !blocks[p.index].isFree
      modifies this
      ensures Valid()
      ensures initialized == old(initialized) && totalMemory == old(totalMemory)
      ensures AllocIndex(old(blocks), size).None? ==> q == Null && unchanged(this)
      ensures AllocIndex(old(blocks), size).Some? ==>
        var n := AllocIndex(old(blocks), size).value;
        var mid := Carve(old(blocks), n, AlignUp(size, 8));
        var o := CarveIndex(old(blocks), n, AlignUp(size, 8), p.index);
        && o < |mid|
        && blocks == Coalesce(mid, o)
        && q == Payload(CoalesceIndex(mid, o, n))
        && q.index < |blocks| && !blocks[q.index].isFree
        && (size <= U32_MOD - 8 ==> blocks[q.index].size >= size)
        && Bytes(ram, PayloadAddress(blocks, q.index), old(blocks[p.index].size))
           == Bytes(old(ram), PayloadAddress(old(blocks), p.index), old(blocks[p.index].size))
        && (forall a: nat | !(PayloadAddress(blocks, q.index) <= a < PayloadAddress(blocks, q.index) + old(blocks[p.index].size)) ::
              ram(a) == old(ram)(a))
    {
      var before := blocks;
      var oldSize := blocks[p.index].size;
      var newPtr := Allocate(size);
      if newPtr.Null? {
        return Null;
      }
      var n := newPtr.index;
      var r := AlignUp(size, 8);
      assert AllocIndex(before, size) == Some(n);
      var mid := blocks;
      assert mid == Carve(before, n, r);
      var o := CarveIndex(before, n, r, p.index);
      ReallocMoves(before, n, r, p.index);
      // memcpy(new_ptr, ptr, block->size)
      var dst, src := PayloadAddress(mid, n), PayloadAddress(mid, o);
      CopyBytes(dst, src, oldSize);
      Free(Payload(o));
      q := Payload(CoalesceIndex(mid, o, n));
      assert blocks == Coalesce(mid, o);
      assert PayloadAddress(blocks, q.index) == dst;
      assert src == PayloadAddress(before, p.index);
    }

    /**
     * `memory_reallocate`: null behaves as an allocation; size 0 frees and gives
     * null; a block already large enough is kept; otherwise the block is moved
     * (`Relocate`). When that allocation fails, null is returned and the old block
     * is left as it was.
     */
    method Reallocate(p: Ptr, size: u32) returns (q: Ptr)
      requires Valid()
      requires p.Payload? ==> p.index < |blocks| && !blocks[p.index].isFree
      modifies this
      ensures Valid()
      ensures initialized == old(initialized) && totalMemory == old(totalMemory)
      ensures p.Null? ==> q == ToPtr(AllocIndex(old(blocks), size)) && blocks == AfterAllocate(old(blocks), size) && ram == old(ram)
      ensures p.Payload? && size == 0 ==> q == Null && blocks == Coalesce(old(blocks), p.index) && ram == old(ram)
      ensures p.Payload? && 0 < size <= old(blocks[p.index].size) ==> q == p && unchanged(this)
      ensures p.Payload? && size > old(blocks[p.index].size) && AllocIndex(old(blocks), size).None? ==> q == Null && unchanged(this)
      ensures p.Payload? && size > old(blocks[p.index].size) && AllocIndex(old(blocks), size).Some? ==>
        var n := AllocIndex(old(blocks), size).value;
        var mid := Carve(old(blocks), n, AlignUp(size, 8));
        var o := CarveIndex(old(blocks), n, AlignUp(size, 8), p.index);
        && o < |mid|
        && blocks == Coalesce(mid, o)
        && q == Payload(CoalesceIndex(mid, o, n))
        && q.index < |blocks| && !blocks[q.index].isFree
        && (size <= U32_MOD - 8 ==> blocks[q.index].size >= size)
        && Bytes(ram, PayloadAddress(blocks, q.index), old(blocks[p.index].size))
           == Bytes(old(ram), PayloadAddress(old(blocks), p.index), old(blocks[p.index].size))
        && (forall a: nat | !(PayloadAddress(blocks, q.index) <= a < PayloadAddress(blocks, q.index) + old(blocks[p.index].size)) ::
              ram(a) == old(ram)(a))
    {
      if p.Null? {
        q := Allocate(size);
        return;
      }
      if size == 0 {
        Free(p);
        return Null;
      }
      if blocks[p.index].size >= size {
        return p;
      }
      q := Relocate(p, size);
    }

    /** `memory_get_total`: the reported memory size, which is where the chain ends. */
    function MemoryGetTotal(): (r: u32)
      reads this
      requires Valid()
      ensures initialized ==> r == HEAP_ADDR + Span(blocks)
      ensures !initialized ==> r == 0
    {
      totalMemory
    }

    /**
     * `memory_get_free`: the free bytes, headers included, minus one header; exact
     * while some block is free, wrapped around 2^32 when none is.
     */
    function MemoryGetFree(): (r: u32)
      reads this
      requires Valid()
      ensures initialized ==> r == (FreeSpan(blocks) - HEADER) % U32_MOD
      ensures initialized && FreeSpan(blocks) >= HEADER ==> r == FreeSpan(blocks) - HEADER
      ensures !initialized ==> r == 0
    {
      freeMemory
    }
  }
}
