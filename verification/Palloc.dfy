/** The page allocator of threads/palloc.c: two pools of pages, each with a bitmap of used pages.
    Pages are named by their page numbers. */
module Palloc {
  import opened Common
  import opened Bitmap

  const PGSIZE: nat := 4096

  /** `DIV_ROUND_UP` of lib/round.h, on unbounded integers. */
  function DivRoundUp(x: nat, step: nat): (n: nat)
    requires step > 0
  {
    (x + step - 1) / step
  }

  /** `bitmap_buf_size`: two machine words, then the elements. */
  function BitmapBufSize(bitCnt: nat): (n: nat) {
    8 + 4 * ElemCnt(bitCnt)
  }

  /** The region cannot hold the bitmap of its own pages. */
  lemma {:induction false} BufSizeIs(bitCnt: nat)
    ensures BitmapBufSize(bitCnt) == 8 + 4 * ((bitCnt + 31) / 32)
  {
  }

  predicate TooSmall(pageCnt: nat) { DivRoundUp(BitmapBufSize(pageCnt), PGSIZE) > pageCnt }

  class Pool {
    const base: nat
    const usedMap: Map

    constructor (base: nat, pageCnt: nat)
      ensures this.base == base && usedMap.Valid() && fresh(usedMap) && fresh(usedMap.bits)
      ensures usedMap.bitCnt == pageCnt && usedMap.Value() == seq(pageCnt, _ => false)
    {
      this.base := base;
      usedMap := new Map(pageCnt);
    }

    ghost predicate Valid()
      reads this, usedMap
    {
      usedMap.Valid()
    }

    /** Which pages are in use, from `base` on. */
    ghost function Used(): (s: seq<bool>)
      requires Valid()
      reads this, usedMap, usedMap.bits
    {
      usedMap.Value()
    }

    /** `page_from_pool`. */
    predicate Owns(page: nat)
      reads this, usedMap
    {
      base <= page < base + usedMap.bitCnt
    }

    /** The part of `palloc_get_multiple` that concerns one pool. */
    method Get(pageCnt: nat) returns (page: Option<nat>)
      requires Valid()
      modifies usedMap.bits
      ensures pageCnt == 0 ==> page.None?
      ensures page.None? ==> Used() == old(Used())
      ensures page.None? && pageCnt > 0 ==> forall i: nat :: !All(old(Used()), i, pageCnt, false)
      ensures page.Some? ==> base <= page.value && page.value + pageCnt <= base + usedMap.bitCnt
      ensures page.Some? ==> All(old(Used()), page.value - base, pageCnt, false)
      ensures page.Some? ==> forall i: nat | i < page.value - base :: !All(old(Used()), i, pageCnt, false)
      ensures page.Some? ==> Used() == Fill(old(Used()), page.value - base, pageCnt, true)
    {
      hide Bits, ElemCnt;
      if pageCnt == 0 { return None; }
      var idx := usedMap.ScanAndFlip(0, pageCnt, false);
      return if idx.Some? then Some(base + idx.value) else None;
    }

    /** The part of `palloc_free_multiple` that concerns one pool. */
    method Free(page: nat, pageCnt: nat)
      requires Valid() && Owns(page) && All(Used(), page - base, pageCnt, true)
      modifies usedMap.bits
      ensures Used() == Fill(old(Used()), page - base, pageCnt, false)
    {
      hide Bits, ElemCnt;
      usedMap.SetMultiple(page - base, pageCnt, false);
    }
  }

  /** `init_pool`: the pool's bitmap takes the first pages and fits in them; the pool has the rest. */
  method InitPool(start: nat, pageCnt: nat) returns (pool: Option<Pool>, bmPages: nat)
    ensures pool.None? <==> bmPages > pageCnt
    ensures BitmapBufSize(pageCnt) <= bmPages * PGSIZE < BitmapBufSize(pageCnt) + PGSIZE
    ensures pool.None? <==> TooSmall(pageCnt)
    ensures pool.Some? ==>
            pool.value.Valid() && fresh(pool.value) && fresh(pool.value.usedMap) && fresh(pool.value.usedMap.bits)
    ensures pool.Some? ==> pool.value.base == start + bmPages && pool.value.usedMap.bitCnt == pageCnt - bmPages
    ensures pool.Some? ==> BitmapBufSize(pool.value.usedMap.bitCnt) <= bmPages * PGSIZE
    ensures pool.Some? ==> pool.value.Used() == seq(pageCnt - bmPages, _ => false)
  {
    hide Bits;
    bmPages := DivRoundUp(BitmapBufSize(pageCnt), PGSIZE);
    if bmPages > pageCnt { return None, bmPages; }
    var p := new Pool(start + bmPages, pageCnt - bmPages);
    pool := Some(p);
  }

  /** The pool is made of these pages: the least number of them that hold its bitmap, then the pool's own,
      all free. */
  ghost predicate IsPool(pool: Pool, start: nat, pageCnt: nat)
    reads pool, pool.usedMap, pool.usedMap.bits
  {
    && pool.Valid() && start <= pool.base && pool.base + pool.usedMap.bitCnt == start + pageCnt
    && var bmPages := pool.base - start;
       && 8 + 4 * ((pageCnt + 31) / 32) <= bmPages * 4096 < 8 + 4 * ((pageCnt + 31) / 32) + 4096
       && pool.Used() == seq(pool.usedMap.bitCnt, _ => false)
  }

  /** Allocating pages and freeing them again restores the pool. */
  lemma {:induction false} GetThenFree(used: seq<bool>, start: nat, cnt: nat)
    requires All(used, start, cnt, false)
    ensures All(Fill(used, start, cnt, true), start, cnt, true)
    ensures Fill(Fill(used, start, cnt, true), start, cnt, false) == used
  {
  }

  class Allocator {
    const kernelPool: Pool
    const userPool: Pool

    ghost predicate Valid()
      reads this, kernelPool, userPool, kernelPool.usedMap, userPool.usedMap
    {
      && kernelPool.Valid() && userPool.Valid()
      && kernelPool.usedMap.bits != userPool.usedMap.bits
      && kernelPool.base + kernelPool.usedMap.bitCnt <= userPool.base
    }

    constructor (kernelPool: Pool, userPool: Pool)
      ensures this.kernelPool == kernelPool && this.userPool == userPool
    {
      this.kernelPool, this.userPool := kernelPool, userPool;
    }

    /** `palloc_free_multiple`: the pages go back to the pool they came from. */
    method FreeMultiple(page: nat, pageCnt: nat)
      requires Valid()
      requires page != 0 && pageCnt != 0 ==> kernelPool.Owns(page) || userPool.Owns(page)
      requires page != 0 && pageCnt != 0 && kernelPool.Owns(page) ==>
               All(kernelPool.Used(), page - kernelPool.base, pageCnt, true)
      requires page != 0 && pageCnt != 0 && userPool.Owns(page) ==>
               All(userPool.Used(), page - userPool.base, pageCnt, true)
      modifies kernelPool.usedMap.bits, userPool.usedMap.bits
      ensures kernelPool.Used() == if page != 0 && pageCnt != 0 && kernelPool.Owns(page)
        then Fill(old(kernelPool.Used()), page - kernelPool.base, pageCnt, false) else old(kernelPool.Used())
      ensures userPool.Used() == if page != 0 && pageCnt != 0 && userPool.Owns(page)
        then Fill(old(userPool.Used()), page - userPool.base, pageCnt, false) else old(userPool.Used())
    {
      hide Bits, ElemCnt;
      if page == 0 || pageCnt == 0 { return; }
      if kernelPool.Owns(page) {
        kernelPool.Free(page, pageCnt);
      } else {
        userPool.Free(page, pageCnt);
      }
    }
  }

  /** `palloc_init`: of the free pages at most half, and at most the limit, go to the user pool;
      the kernel pool gets the pages before it. */
  method Init(freeStart: nat, freePages: nat, userPageLimit: nat) returns (a: Option<Allocator>)
    ensures var userPages := if freePages / 2 > userPageLimit then userPageLimit else freePages / 2;
      a.None? <==> TooSmall(freePages - userPages) || TooSmall(userPages)
    ensures a.Some? ==> a.value.Valid() && freeStart <= a.value.kernelPool.base
    ensures a.Some? ==>
      var userPages := if freePages / 2 > userPageLimit then userPageLimit else freePages / 2;
      var kernelPages := freePages - userPages;
      && IsPool(a.value.kernelPool, freeStart, kernelPages)
      && IsPool(a.value.userPool, freeStart + kernelPages, userPages)
  {
    hide Bits, ElemCnt, BitmapBufSize;
    var userPages := freePages / 2;
    if userPages > userPageLimit { userPages := userPageLimit; }
    var kernelPages := freePages - userPages;
    BufSizeIs(kernelPages);
    BufSizeIs(userPages);
    var kernel, _ := InitPool(freeStart, kernelPages);
    if kernel.None? { return None; }
    var user, _ := InitPool(freeStart + kernelPages, userPages);
    if user.None? { return None; }
    var alloc := new Allocator(kernel.value, user.value);
    return Some(alloc);
  }
}
