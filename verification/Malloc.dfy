/** The block allocator of threads/malloc.c.

    A descriptor manages the blocks of one size.  Its free blocks are on a list; the blocks lie in
    arenas, pages that begin with a header.  Bigger requests get pages of their own.  Addresses are
    byte addresses; an arena is named by its page number. */
module Malloc {
  import opened Common
  import opened Arithmetic
  import opened Bitmap
  import opened Palloc

  const HEADER: nat := 12
  const SIZE_MAX_1: nat := 0x1_0000_0000

  // ----- descriptors -----

  datatype Desc = Desc(blockSize: nat, blocksPerArena: nat)

  const DESCS: seq<Desc> :=
    [Desc(16, 255), Desc(32, 127), Desc(64, 63), Desc(128, 31), Desc(256, 15), Desc(512, 7), Desc(1024, 3)]

  /** `malloc_init`. */
  method InitDescs() returns (descs: seq<Desc>)
    ensures descs == DESCS
  {
    descs := [];
    var blockSize := 16;
    while blockSize < PGSIZE / 2
      invariant |descs| <= 7 && descs == DESCS[..|descs|]
      invariant blockSize == if |descs| < 7 then DESCS[|descs|].blockSize else 2048
      decreases 7 - |descs|
    {
      descs := descs + [Desc(blockSize, (PGSIZE - HEADER) / blockSize)];
      blockSize := blockSize * 2;
    }
  }

  /** The first descriptor whose blocks are big enough: the smallest one. */
  ghost predicate IsBestDesc(size: nat, d: nat) {
    && d <= 7
    && (d < 7 ==> size <= DESCS[d].blockSize)
    && (forall e | 0 <= e < d :: DESCS[e].blockSize < size)
  }

  // ----- addresses -----

  function PageOf(addr: nat): (page: nat) { addr / PGSIZE }

  /** `arena_to_block`. */
  function BlockAddr(d: nat, page: nat, idx: nat): (addr: nat)
    requires d < 7
  {
    page * PGSIZE + HEADER + idx * DESCS[d].blockSize
  }

  /** The alignment that `block_to_arena` checks, and that the block is one of the arena's. */
  predicate Aligned(d: nat, addr: nat)
    requires d < 7
  {
    var ofs := addr % PGSIZE;
    && HEADER <= ofs
    && (ofs - HEADER) % DESCS[d].blockSize == 0
    && (ofs - HEADER) / DESCS[d].blockSize < DESCS[d].blocksPerArena
  }

  /** `block_to_arena` undoes `arena_to_block`: each block lies in its arena's page, behind the header. */
  lemma {:induction false} BlockInArena(d: nat, page: nat, idx: nat)
    requires d < 7 && idx < DESCS[d].blocksPerArena
    ensures PageOf(BlockAddr(d, page, idx)) == page && Aligned(d, BlockAddr(d, page, idx))
    ensures (BlockAddr(d, page, idx) % PGSIZE - HEADER) / DESCS[d].blockSize == idx
    ensures BlockAddr(d, page, idx) + DESCS[d].blockSize <= (page + 1) * PGSIZE
  {
    var bs, x := DESCS[d].blockSize, idx * DESCS[d].blockSize;
    BlocksFit(d);
    MulLe(idx + 1, DESCS[d].blocksPerArena, bs);
    Distribute(idx, 1, bs);
    QuotientUnique(x, bs, idx);
    DivisionDef(x, bs);
    OffsetOf(page, HEADER + x);
  }

  lemma {:induction false} BlocksFit(d: nat)
    requires d < 7
    ensures DESCS[d].blocksPerArena * DESCS[d].blockSize <= PGSIZE - HEADER
  {
  }

  lemma {:induction false} OffsetOf(page: nat, ofs: nat)
    requires ofs < PGSIZE
    ensures (page * PGSIZE + ofs) / PGSIZE == page && (page * PGSIZE + ofs) % PGSIZE == ofs
  {
  }

  lemma {:induction false} AlignedIsBlock(d: nat, addr: nat) returns (idx: nat)
    requires d < 7 && Aligned(d, addr)
    ensures idx < DESCS[d].blocksPerArena && addr == BlockAddr(d, PageOf(addr), idx)
  {
    idx := (addr % PGSIZE - HEADER) / DESCS[d].blockSize;
  }

  /** Two blocks of one arena do not overlap. */
  lemma {:induction false} BlocksApart(d: nat, a: nat, b: nat)
    requires d < 7 && Aligned(d, a) && Aligned(d, b) && PageOf(a) == PageOf(b) && a < b
    ensures a + DESCS[d].blockSize <= b
  {
    if
    case d == 0 => assert DESCS[d] == Desc(16, 255);
    case d == 1 => assert DESCS[d] == Desc(32, 127);
    case d == 2 => assert DESCS[d] == Desc(64, 63);
    case d == 3 => assert DESCS[d] == Desc(128, 31);
    case d == 4 => assert DESCS[d] == Desc(256, 15);
    case d == 5 => assert DESCS[d] == Desc(512, 7);
    case d == 6 => assert DESCS[d] == Desc(1024, 3);
  }

  /** The addresses of the first `n` blocks of an arena. */
  function Blocks(d: nat, page: nat, n: nat): (s: seq<nat>)
    requires d < 7
    ensures |s| == n
  {
    seq(n, i requires 0 <= i < n => BlockAddr(d, page, i))
  }

  function Per(d: nat): (n: nat)
    requires d < 7
    ensures n > 0
  {
    DESCS[d].blocksPerArena
  }

  function Size(d: nat): (n: nat)
    requires d < 7
    ensures 16 <= n <= 1024
  {
    DESCS[d].blockSize
  }

  // ----- the allocator's state -----

  /** An arena's header: the descriptor and the number of free blocks, or the pages of a big block. */
  datatype Arena = Small(desc: nat, freeCnt: nat) | Big(pageCnt: nat)

  /** `live` holds the blocks handed out and not yet freed, with the sizes asked for. */
  datatype State = State(base: nat, used: seq<bool>, arenas: map<nat, Arena>, free: seq<seq<nat>>, live: map<nat, nat>)

  function PagesIn(a: Arena): (n: nat) {
    match a
    case Small(_, _) => 1
    case Big(n) => n
  }

  /** The address is one of the blocks of its page's arena. */
  predicate IsBlock(arenas: map<nat, Arena>, addr: nat) {
    && PageOf(addr) in arenas
    && match arenas[PageOf(addr)]
       case Small(d, _) => d < 7 && Aligned(d, addr)
       case Big(_) => addr == PageOf(addr) * PGSIZE + HEADER
  }

  predicate IsBlockOf(arenas: map<nat, Arena>, d: nat, addr: nat) {
    PageOf(addr) in arenas && arenas[PageOf(addr)].Small? && arenas[PageOf(addr)].desc == d && IsBlock(arenas, addr)
  }

  /** `block_size`: the bytes available in a block. */
  function Capacity(arenas: map<nat, Arena>, addr: nat): (n: int)
    requires IsBlock(arenas, addr)
  {
    match arenas[PageOf(addr)]
    case Small(d, _) => Size(d)
    case Big(n) => PGSIZE * n - HEADER
  }

  function OnPage(s: seq<nat>, page: nat): (r: set<nat>) {
    set a | a in s && PageOf(a) == page
  }

  predicate NoDup(s: seq<nat>) {
    forall i, j | 0 <= i < j < |s| :: s[i] != s[j]
  }

  /** Each free list holds exactly the blocks of its arenas that are not handed out, each once. */
  ghost predicate ListsExact(st: State) {
    && |st.free| == 7
    && (forall d | 0 <= d < 7 :: NoDup(st.free[d]))
    && (forall d, a | 0 <= d < 7 && a in st.free[d] :: IsBlockOf(st.arenas, d, a) && a !in st.live)
    && (forall d, a: nat | 0 <= d < 7 && IsBlockOf(st.arenas, d, a) :: a in st.free[d] || a in st.live)
    && (forall a | a in st.live :: IsBlock(st.arenas, a))
  }

  /** Each arena's counter is the number of its blocks on the free list. */
  ghost predicate CountsExact(st: State)
    requires |st.free| == 7
  {
    forall p | p in st.arenas && st.arenas[p].Small? ::
      st.arenas[p].desc < 7 && st.arenas[p].freeCnt == |OnPage(st.free[st.arenas[p].desc], p)|
  }

  /** No arena is kept, other than the excepted ones, whose blocks are all free. */
  ghost predicate NoneIdle(st: State, except: set<nat>) {
    forall p | p in st.arenas && st.arenas[p].Small? && p !in except ::
      st.arenas[p].desc < 7 && st.arenas[p].freeCnt < Per(st.arenas[p].desc)
  }

  /** The arenas' pages are in use and no page belongs to two arenas. */
  ghost predicate PagesApart(st: State) {
    && (forall p | p in st.arenas ::
          st.base <= p && PagesIn(st.arenas[p]) > 0 && All(st.used, p - st.base, PagesIn(st.arenas[p]), true))
    && (forall p, q | p in st.arenas && q in st.arenas && p < q :: p + PagesIn(st.arenas[p]) <= q)
  }

  /** Blocks are as big as asked for, unless the page count wrapped around. */
  ghost predicate BigEnough(st: State) {
    forall a | a in st.live ::
      IsBlock(st.arenas, a) && (st.live[a] < SIZE_MAX_1 - 11 ==> st.live[a] <= Capacity(st.arenas, a))
  }

  ghost predicate Inv(st: State, except: set<nat>) {
    |st.free| == 7 && ListsExact(st) && CountsExact(st) && NoneIdle(st, except) && PagesApart(st) && BigEnough(st)
  }

  // ----- what the invariant means for the blocks handed out -----

  /** Live blocks are disjoint. */
  lemma {:induction false} LiveBlocksApart(st: State, a: nat, b: nat)
    requires Inv(st, {}) && a in st.live && b in st.live && a < b
    ensures a + Capacity(st.arenas, a) <= b
  {
    hide Aligned, ListsExact, CountsExact;
    assert IsBlock(st.arenas, a) && IsBlock(st.arenas, b);
    if PageOf(a) == PageOf(b) {
      if st.arenas[PageOf(a)].Small? {
        BlocksApart(st.arenas[PageOf(a)].desc, a, b);
      }
    } else {
      BlockInExtent(st, a);
    }
  }

  /** A block lies behind its arena's header and within its arena's pages. */
  lemma {:induction false} BlockInExtent(st: State, a: nat)
    requires IsBlock(st.arenas, a)
    ensures var p := PageOf(a);
            p * PGSIZE + HEADER <= a && a + Capacity(st.arenas, a) <= (p + PagesIn(st.arenas[p])) * PGSIZE
  {
    var p := PageOf(a);
    if st.arenas[p].Small? {
      var idx := AlignedIsBlock(st.arenas[p].desc, a);
      BlockInArena(st.arenas[p].desc, p, idx);
    }
  }

  /** Live blocks are clear of every arena header. */
  lemma {:induction false} LiveBlocksClearOfHeaders(st: State, a: nat, p: nat)
    requires Inv(st, {}) && a in st.live && p in st.arenas
    ensures a + Capacity(st.arenas, a) <= p * PGSIZE || p * PGSIZE + HEADER <= a
  {
    hide Aligned, ListsExact, CountsExact;
    assert IsBlock(st.arenas, a);
    BlockInExtent(st, a);
    var q := PageOf(a);
    if q < p {
      assert q + PagesIn(st.arenas[q]) <= p;
    } else if p < q {
      assert p + 1 <= q;
    }
  }

  /** Every arena that is kept has a block handed out. */
  lemma {:induction false} ArenaInUse(st: State, p: nat) returns (a: nat)
    requires Inv(st, {}) && p in st.arenas && st.arenas[p].Small?
    ensures a in st.live && PageOf(a) == p
  {
    hide Aligned, Per;
    var d := st.arenas[p].desc;
    var free := OnPage(st.free[d], p);
    BlockSetSize(d, p, Per(d));
    assert |free| < |BlockSet(d, p, Per(d))|;
    if BlockSet(d, p, Per(d)) <= free { Smaller(BlockSet(d, p, Per(d)), free); }
    a :| a in BlockSet(d, p, Per(d)) && a !in free;
    BlockSetMeaning(d, p, a);
    assert IsBlockOf(st.arenas, d, a);
  }

  lemma {:induction false} Smaller(a: set<nat>, b: set<nat>)
    requires a <= b
    ensures |a| <= |b| && (|a| == |b| ==> a == b)
  {
    assert b == a + (b - a);
    assert |b| == |a| + |b - a|;
    if |a| == |b| { assert b - a == {}; }
  }

  ghost function BlockSet(d: nat, page: nat, n: nat): (r: set<nat>)
    requires d < 7
  {
    set i | 0 <= i < n :: BlockAddr(d, page, i)
  }

  lemma {:induction false} BlockSetSize(d: nat, page: nat, n: nat)
    requires d < 7 && n <= Per(d)
    ensures |BlockSet(d, page, n)| == n
  {
    if n > 0 {
      BlockSetSize(d, page, n - 1);
      BlockSetGrows(d, page, n);
    }
  }

  lemma {:induction false} BlockSetGrows(d: nat, page: nat, n: nat)
    requires d < 7 && 0 < n <= Per(d)
    ensures BlockSet(d, page, n) == BlockSet(d, page, n - 1) + {BlockAddr(d, page, n - 1)}
    ensures BlockAddr(d, page, n - 1) !in BlockSet(d, page, n - 1)
  {
    hide BlockAddr;
    forall i: nat | i < n - 1
      ensures BlockAddr(d, page, i) != BlockAddr(d, page, n - 1)
    {
      BlocksDiffer(d, page, i, n - 1);
    }
  }

  lemma {:induction false} BlocksDiffer(d: nat, page: nat, i: nat, j: nat)
    requires d < 7 && i < j < Per(d)
    ensures BlockAddr(d, page, i) != BlockAddr(d, page, j)
  {
    hide BlockAddr;
    BlockInArena(d, page, i);
    BlockInArena(d, page, j);
  }

  lemma {:induction false} BlockSetMeaning(d: nat, page: nat, a: nat)
    requires d < 7
    ensures a in BlockSet(d, page, Per(d)) <==> PageOf(a) == page && Aligned(d, a)
  {
    hide BlockAddr, Aligned, PageOf;
    if a in BlockSet(d, page, Per(d)) {
      var i :| 0 <= i < Per(d) && a == BlockAddr(d, page, i);
      BlockInArena(d, page, i);
    }
    if PageOf(a) == page && Aligned(d, a) {
      var i := AlignedIsBlock(d, a);
    }
  }

  // ----- steps -----

  /** A page becomes an arena whose blocks go to the empty free list. */
  ghost function NewArena(st: State, d: nat, p: nat): State
    requires d < 7 && |st.free| == 7 && st.base <= p < st.base + |st.used|
  {
    st.(used := Fill(st.used, p - st.base, 1, true),
        arenas := st.arenas[p := Small(d, Per(d))],
        free := st.free[d := Blocks(d, p, Per(d))])
  }

  /** The first free block is handed out. */
  ghost function Take(st: State, d: nat, size: nat): State
    requires d < 7 && |st.free| == 7 && st.free[d] != [] && IsBlockOf(st.arenas, d, st.free[d][0])
    requires st.arenas[PageOf(st.free[d][0])].freeCnt > 0
  {
    var a := st.free[d][0];
    st.(arenas := st.arenas[PageOf(a) := Small(d, st.arenas[PageOf(a)].freeCnt - 1)],
        free := st.free[d := st.free[d][1..]],
        live := st.live[a := size])
  }

  /** A block comes back to the front of its free list. */
  ghost function Give(st: State, d: nat, a: nat): State
    requires d < 7 && |st.free| == 7 && IsBlockOf(st.arenas, d, a) && a in st.live
  {
    st.(arenas := st.arenas[PageOf(a) := Small(d, st.arenas[PageOf(a)].freeCnt + 1)],
        free := st.free[d := [a] + st.free[d]],
        live := st.live - {a})
  }

  /** The elements of `s` outside `drop`, in order. */
  function Minus(s: seq<nat>, drop: set<nat>): (r: seq<nat>)
    ensures forall x :: x in r <==> x in s && x !in drop
    ensures NoDup(s) ==> NoDup(r)
  {
    if s == [] then [] else
      var rest := Minus(s[1..], drop);
      assert forall x :: x in s <==> x == s[0] || x in s[1..];
      if s[0] in drop then rest else [s[0]] + rest
  }

  /** A page whose blocks are all free goes back to the pool. */
  ghost function DropArena(st: State, d: nat, p: nat): State
    requires d < 7 && |st.free| == 7 && st.base <= p < st.base + |st.used|
  {
    st.(used := Fill(st.used, p - st.base, 1, false),
        arenas := st.arenas - {p},
        free := st.free[d := Minus(st.free[d], BlockSet(d, p, Per(d)))])
  }

  ghost function NewBig(st: State, p: nat, cnt: nat, size: nat): State
    requires st.base <= p && p + cnt <= st.base + |st.used|
  {
    st.(used := Fill(st.used, p - st.base, cnt, true),
        arenas := st.arenas[p := Big(cnt)],
        live := st.live[p * PGSIZE + HEADER := size])
  }

  ghost function DropBig(st: State, p: nat): State
    requires p in st.arenas && st.base <= p && p + PagesIn(st.arenas[p]) <= st.base + |st.used|
  {
    st.(used := Fill(st.used, p - st.base, PagesIn(st.arenas[p]), false),
        arenas := st.arenas - {p},
        live := st.live - {p * PGSIZE + HEADER})
  }

  /** A page belongs to some arena. */
  ghost predicate Claimed(st: State, page: nat) {
    exists p :: p in st.arenas && p <= page < p + PagesIn(st.arenas[p])
  }

  /** The pages that others obtained from the pool stay as they are: nothing is leaked or stolen. */
  ghost predicate OthersKept(st: State, st': State) {
    && |st.used| == |st'.used| && st.base == st'.base
    && forall i | 0 <= i < |st.used| ::
      (st.used[i] && !Claimed(st, st.base + i) <==> st'.used[i] && !Claimed(st', st.base + i))
  }

  // ----- pages -----

  lemma {:induction false} FreshPages(st: State, p: nat, cnt: nat, q: nat)
    requires PagesApart(st) && st.base <= p && cnt > 0 && All(st.used, p - st.base, cnt, false) && q in st.arenas
    ensures q + PagesIn(st.arenas[q]) <= p || p + cnt <= q
  {
    assert !st.used[p - st.base];
    assert st.used[q - st.base];
  }

  lemma {:induction false} PagesAfterNew(st: State, p: nat, a: Arena)
    requires PagesApart(st) && st.base <= p && PagesIn(a) > 0 && All(st.used, p - st.base, PagesIn(a), false)
    ensures var st' := st.(used := Fill(st.used, p - st.base, PagesIn(a), true), arenas := st.arenas[p := a]);
            p !in st.arenas && PagesApart(st') && OthersKept(st, st')
  {
    forall q | q in st.arenas ensures q + PagesIn(st.arenas[q]) <= p || p + PagesIn(a) <= q {
      FreshPages(st, p, PagesIn(a), q);
    }
    ClaimsAfterNew(st, p, a);
  }

  lemma {:induction false} ClaimsAfterNew(st: State, p: nat, a: Arena)
    requires PagesApart(st) && st.base <= p && All(st.used, p - st.base, PagesIn(a), false) && p !in st.arenas
    ensures OthersKept(st, st.(used := Fill(st.used, p - st.base, PagesIn(a), true), arenas := st.arenas[p := a]))
  {
    hide PagesApart;
    var st' := st.(used := Fill(st.used, p - st.base, PagesIn(a), true), arenas := st.arenas[p := a]);
    forall i | 0 <= i < |st.used|
      ensures st.used[i] && !Claimed(st, st.base + i) <==> st'.used[i] && !Claimed(st', st.base + i)
    {
      if p <= st.base + i < p + PagesIn(a) {
        assert p in st'.arenas;
      } else if Claimed(st, st.base + i) {
        var q :| q in st.arenas && q <= st.base + i < q + PagesIn(st.arenas[q]);
        assert q in st'.arenas;
      }
    }
  }

  lemma {:induction false} PagesAfterDrop(st: State, p: nat)
    requires PagesApart(st) && p in st.arenas
    ensures var st' := st.(used := Fill(st.used, p - st.base, PagesIn(st.arenas[p]), false), arenas := st.arenas - {p});
            PagesApart(st') && OthersKept(st, st')
  {
    ClaimsAfterDrop(st, p);
  }

  lemma {:induction false} ClaimsAfterDrop(st: State, p: nat)
    requires PagesApart(st) && p in st.arenas
    ensures OthersKept(st, st.(used := Fill(st.used, p - st.base, PagesIn(st.arenas[p]), false),
                               arenas := st.arenas - {p}))
  {
    var n := PagesIn(st.arenas[p]);
    var st' := st.(used := Fill(st.used, p - st.base, n, false), arenas := st.arenas - {p});
    forall i | 0 <= i < |st.used|
      ensures st.used[i] && !Claimed(st, st.base + i) <==> st'.used[i] && !Claimed(st', st.base + i)
    {
      ClaimAfterDrop(st.arenas, st, st', p, st.base + i);
    }
  }

  lemma {:induction false} ClaimAfterDrop(arenas: map<nat, Arena>, st: State, st': State, p: nat, page: nat)
    requires st.arenas == arenas && st'.arenas == arenas - {p} && p in arenas
    requires forall q, r | q in arenas && r in arenas && q < r :: q + PagesIn(arenas[q]) <= r
    ensures if p <= page < p + PagesIn(arenas[p]) then Claimed(st, page) else Claimed(st', page) <==> Claimed(st, page)
  {
    if Claimed(st, page) && !(p <= page < p + PagesIn(arenas[p])) {
      var q :| q in arenas && q <= page < q + PagesIn(arenas[q]);
      assert q in st'.arenas;
    }
    if Claimed(st', page) {
      var q :| q in st'.arenas && q <= page < q + PagesIn(st'.arenas[q]);
      assert q in arenas;
    }
  }

  lemma {:induction false} OthersUnaffected(st: State, st': State, st'': State)
    requires OthersKept(st, st') && st''.used == st'.used && st''.base == st'.base
    requires st''.arenas.Keys == st'.arenas.Keys
    requires forall p | p in st'.arenas :: PagesIn(st''.arenas[p]) == PagesIn(st'.arenas[p])
    ensures OthersKept(st, st'')
  {
    forall i {:trigger st.used[i]} | 0 <= i < |st.used|
      ensures Claimed(st', st.base + i) <==> Claimed(st'', st.base + i)
    {
      if Claimed(st', st.base + i) {
        var q :| q in st'.arenas && q <= st.base + i < q + PagesIn(st'.arenas[q]);
        assert q in st''.arenas;
      }
      if Claimed(st'', st.base + i) {
        var q :| q in st''.arenas && q <= st.base + i < q + PagesIn(st''.arenas[q]);
        assert q in st'.arenas;
      }
    }
  }

  // ----- every step keeps the invariant -----

  lemma {:induction false} NewArenaKeeps(st: State, d: nat, p: nat)
    requires Inv(st, {}) && d < 7 && st.free[d] == [] && st.base <= p && All(st.used, p - st.base, 1, false)
    ensures Inv(NewArena(st, d, p), {p}) && OthersKept(st, NewArena(st, d, p))
  {
    hide Per, Aligned, PageOf, BlockAddr, Fill, PagesApart, OthersKept, IsBlock;
    PagesAfterNew(st, p, Small(d, Per(d)));
    PagesOnlyPart(st, NewArena(st, d, p),
                  st.(used := Fill(st.used, p - st.base, 1, true), arenas := st.arenas[p := Small(d, Per(d))]));
    NewArenaLists(st, d, p);
    NewArenaCounts(st, d, p);
    BlocksKeep(st.arenas, p, Small(d, Per(d)), st.live);
  }

  lemma {:induction false} PagesOnlyPart(st: State, st': State, st'': State)
    requires st'.used == st''.used && st'.base == st''.base && st'.arenas == st''.arenas
    ensures PagesApart(st') <==> PagesApart(st'')
    ensures OthersKept(st, st') <==> OthersKept(st, st'')
  {
    assert forall i: nat :: Claimed(st', i) <==> Claimed(st'', i);
  }

  /** A new arena leaves the blocks of the others what they were. */
  lemma {:induction false} BlocksKeep(arenas: map<nat, Arena>, p: nat, a: Arena, live: map<nat, nat>)
    requires p !in arenas
    ensures forall x: nat | IsBlock(arenas, x) ::
            IsBlock(arenas[p := a], x) && Capacity(arenas[p := a], x) == Capacity(arenas, x)
    ensures forall x: nat | PageOf(x) != p && IsBlock(arenas[p := a], x) :: IsBlock(arenas, x)
  {
    hide Aligned, Size;
  }

  lemma {:induction false} BlocksMeaning(d: nat, p: nat)
    requires d < 7
    ensures NoDup(Blocks(d, p, Per(d)))
    ensures forall a: nat :: a in Blocks(d, p, Per(d)) <==> PageOf(a) == p && Aligned(d, a)
    ensures OnPage(Blocks(d, p, Per(d)), p) == BlockSet(d, p, Per(d)) && |OnPage(Blocks(d, p, Per(d)), p)| == Per(d)
  {
    hide Per, Aligned, PageOf, BlockAddr;
    var s := Blocks(d, p, Per(d));
    forall i, j | 0 <= i < j < |s| ensures s[i] != s[j] { BlocksDiffer(d, p, i, j); }
    forall a: nat ensures a in s <==> PageOf(a) == p && Aligned(d, a) {
      BlockSetMeaning(d, p, a);
      if a in BlockSet(d, p, Per(d)) {
        var i :| 0 <= i < Per(d) && a == BlockAddr(d, p, i);
        assert s[i] == a;
      }
    }
    forall a: nat ensures a in OnPage(s, p) <==> a in BlockSet(d, p, Per(d)) { BlockSetMeaning(d, p, a); }
    BlockSetSize(d, p, Per(d));
  }

  lemma {:induction false} NewArenaLists(st: State, d: nat, p: nat)
    requires ListsExact(st) && d < 7 && st.free[d] == [] && p !in st.arenas && st.base <= p < st.base + |st.used|
    ensures ListsExact(NewArena(st, d, p))
  {
    hide Per, Aligned, PageOf, BlockAddr, Fill, Blocks, NoDup;
    BlocksMeaning(d, p);
    BlocksKeep(st.arenas, p, Small(d, Per(d)), st.live);
    var st' := NewArena(st, d, p);
    forall e, a | 0 <= e < 7 && a in st'.free[e] ensures IsBlockOf(st'.arenas, e, a) && a !in st'.live {
      if e == d {
        assert a in Blocks(d, p, Per(d));
        assert PageOf(a) == p;
        assert IsBlockOf(st'.arenas, e, a);
      } else {
        assert a in st.free[e];
        assert IsBlockOf(st.arenas, e, a);
      }
    }
    forall e, a: nat | 0 <= e < 7 && IsBlockOf(st'.arenas, e, a) ensures a in st'.free[e] || a in st'.live {
      if PageOf(a) != p { assert IsBlockOf(st.arenas, e, a); }
    }
  }

  lemma {:induction false} NewArenaCounts(st: State, d: nat, p: nat)
    requires ListsExact(st) && CountsExact(st) && d < 7 && st.free[d] == [] && p !in st.arenas
    requires st.base <= p < st.base + |st.used|
    ensures CountsExact(NewArena(st, d, p))
  {
    hide Per, Aligned, PageOf, BlockAddr, Fill, Blocks, NoDup;
    BlocksMeaning(d, p);
    var st' := NewArena(st, d, p);
    forall q | q in st'.arenas && st'.arenas[q].Small?
      ensures st'.arenas[q].desc < 7 && st'.arenas[q].freeCnt == |OnPage(st'.free[st'.arenas[q].desc], q)|
    {
      if q != p && st.arenas[q].desc == d {
        assert OnPage(st'.free[d], q) == {} == OnPage(st.free[d], q);
      }
    }
  }

  /** Changing an arena's counter changes no block. */
  lemma {:induction false} CounterOnly(arenas: map<nat, Arena>, p: nat, c: nat)
    requires p in arenas && arenas[p].Small?
    ensures var arenas' := arenas[p := Small(arenas[p].desc, c)];
            forall x: nat {:trigger IsBlock(arenas', x)} {:trigger IsBlock(arenas, x)} ::
              (IsBlock(arenas', x) <==> IsBlock(arenas, x))
              && (IsBlock(arenas, x) ==> Capacity(arenas', x) == Capacity(arenas, x))
  {
    hide Aligned, Size, PageOf;
  }

  lemma {:induction false} CounterPages(st: State, st': State)
    requires PagesApart(st) && st'.used == st.used && st'.base == st.base && st'.arenas.Keys == st.arenas.Keys
    requires forall p | p in st.arenas :: PagesIn(st'.arenas[p]) == PagesIn(st.arenas[p])
    ensures PagesApart(st') && OthersKept(st, st')
  {
    OthersUnaffected(st, st, st');
  }

  lemma {:induction false} FirstOnPage(st: State, d: nat)
    requires ListsExact(st) && CountsExact(st) && d < 7 && st.free[d] != []
    ensures IsBlockOf(st.arenas, d, st.free[d][0]) && st.arenas[PageOf(st.free[d][0])].freeCnt > 0
  {
    hide IsBlock, PageOf;
    var a := st.free[d][0];
    assert a in st.free[d];
    assert IsBlockOf(st.arenas, d, a);
    assert a in OnPage(st.free[d], PageOf(a));
  }

  lemma {:induction false} TakeLists(st: State, d: nat, size: nat)
    requires ListsExact(st) && CountsExact(st) && d < 7 && st.free[d] != []
    requires IsBlockOf(st.arenas, d, st.free[d][0]) && st.arenas[PageOf(st.free[d][0])].freeCnt > 0
    ensures ListsExact(Take(st, d, size))
  {
    hide Aligned, PageOf, IsBlock, Capacity;
    var a, st' := st.free[d][0], Take(st, d, size);
    CounterOnly(st.arenas, PageOf(a), st.arenas[PageOf(a)].freeCnt - 1);
    assert st.free[d] == [a] + st'.free[d];
    assert a !in st'.free[d];
    forall e, x | 0 <= e < 7 && x in st'.free[e] ensures IsBlockOf(st'.arenas, e, x) && x !in st'.live {
      assert x in st.free[e];
      assert IsBlockOf(st.arenas, e, x);
    }
    forall e, x: nat | 0 <= e < 7 && IsBlockOf(st'.arenas, e, x) ensures x in st'.free[e] || x in st'.live {
      assert IsBlockOf(st.arenas, e, x);
      assert x in st.free[e] || x in st.live;
    }
  }

  lemma {:induction false} TakeCounts(st: State, d: nat, size: nat)
    requires ListsExact(st) && CountsExact(st) && d < 7 && st.free[d] != []
    requires IsBlockOf(st.arenas, d, st.free[d][0]) && st.arenas[PageOf(st.free[d][0])].freeCnt > 0
    ensures CountsExact(Take(st, d, size))
  {
    hide Aligned, PageOf, IsBlock, Capacity;
    var a, st' := st.free[d][0], Take(st, d, size);
    assert st.free[d] == [a] + st'.free[d];
    assert a !in st'.free[d];
    forall q | q in st'.arenas && st'.arenas[q].Small?
      ensures st'.arenas[q].desc < 7 && st'.arenas[q].freeCnt == |OnPage(st'.free[st'.arenas[q].desc], q)|
    {
      if q == PageOf(a) {
        assert OnPage(st.free[d], q) == OnPage(st'.free[d], q) + {a};
      } else if st.arenas[q].desc == d {
        assert OnPage(st.free[d], q) == OnPage(st'.free[d], q);
      }
    }
  }

  lemma {:induction false} CountAtMost(st: State, p: nat)
    requires ListsExact(st) && CountsExact(st) && p in st.arenas && st.arenas[p].Small?
    ensures var d := st.arenas[p].desc;
            d < 7 && OnPage(st.free[d], p) <= BlockSet(d, p, Per(d)) && st.arenas[p].freeCnt <= Per(d)
    ensures st.arenas[p].freeCnt == Per(st.arenas[p].desc) ==>
            OnPage(st.free[st.arenas[p].desc], p) == BlockSet(st.arenas[p].desc, p, Per(st.arenas[p].desc))
  {
    hide Aligned, PageOf, BlockSet, Per;
    var d := st.arenas[p].desc;
    forall a | a in OnPage(st.free[d], p) ensures a in BlockSet(d, p, Per(d)) {
      assert IsBlockOf(st.arenas, d, a);
      BlockSetMeaning(d, p, a);
    }
    BlockSetSize(d, p, Per(d));
    Smaller(OnPage(st.free[d], p), BlockSet(d, p, Per(d)));
  }

  lemma {:induction false} TakeKeeps(st: State, d: nat, size: nat)
    requires d < 7 && |st.free| == 7 && st.free[d] != [] && Inv(st, {PageOf(st.free[d][0])})
    requires size <= Size(d)
    ensures IsBlockOf(st.arenas, d, st.free[d][0]) && st.arenas[PageOf(st.free[d][0])].freeCnt > 0
    ensures Inv(Take(st, d, size), {}) && OthersKept(st, Take(st, d, size))
    ensures IsBlock(Take(st, d, size).arenas, st.free[d][0])
    ensures Capacity(Take(st, d, size).arenas, st.free[d][0]) == Size(d)
  {
    hide Aligned, PageOf, IsBlock, Per, Size, ListsExact, CountsExact, PagesApart, OthersKept;
    FirstOnPage(st, d);
    TakeLists(st, d, size);
    TakeCounts(st, d, size);
    var a, st' := st.free[d][0], Take(st, d, size);
    CounterOnly(st.arenas, PageOf(a), st.arenas[PageOf(a)].freeCnt - 1);
    CounterPages(st, st');
    CountAtMost(st, PageOf(a));
  }

  lemma {:induction false} GiveLists(st: State, d: nat, a: nat)
    requires ListsExact(st) && d < 7 && IsBlockOf(st.arenas, d, a) && a in st.live
    ensures ListsExact(Give(st, d, a))
  {
    hide Aligned, PageOf, IsBlock, Capacity;
    var st' := Give(st, d, a);
    CounterOnly(st.arenas, PageOf(a), st.arenas[PageOf(a)].freeCnt + 1);
    assert a !in st.free[d];
    forall e, x | 0 <= e < 7 && x in st'.free[e] ensures IsBlockOf(st'.arenas, e, x) && x !in st'.live {
      assert x == a || x in st.free[e];
      assert x == a || IsBlockOf(st.arenas, e, x);
    }
    forall e, x: nat | 0 <= e < 7 && IsBlockOf(st'.arenas, e, x) ensures x in st'.free[e] || x in st'.live {
      assert IsBlockOf(st.arenas, e, x);
      assert x in st.free[e] || x in st.live;
    }
  }

  lemma {:induction false} GiveCounts(st: State, d: nat, a: nat)
    requires ListsExact(st) && CountsExact(st) && d < 7 && IsBlockOf(st.arenas, d, a) && a in st.live
    ensures CountsExact(Give(st, d, a))
  {
    hide Aligned, PageOf, IsBlock, Capacity;
    var st' := Give(st, d, a);
    assert a !in st.free[d];
    forall q | q in st'.arenas && st'.arenas[q].Small?
      ensures st'.arenas[q].desc < 7 && st'.arenas[q].freeCnt == |OnPage(st'.free[st'.arenas[q].desc], q)|
    {
      if q == PageOf(a) {
        assert OnPage(st'.free[d], q) == OnPage(st.free[d], q) + {a};
      } else if st.arenas[q].desc == d {
        assert OnPage(st.free[d], q) == OnPage(st'.free[d], q);
      }
    }
  }

  lemma {:induction false} GiveKeeps(st: State, d: nat, a: nat)
    requires Inv(st, {}) && d < 7 && IsBlockOf(st.arenas, d, a) && a in st.live
    ensures Inv(Give(st, d, a), {PageOf(a)}) && OthersKept(st, Give(st, d, a))
    ensures Give(st, d, a).arenas[PageOf(a)].freeCnt <= Per(d)
    ensures Give(st, d, a).arenas[PageOf(a)].freeCnt < Per(d) ==> Inv(Give(st, d, a), {})
  {
    hide Aligned, PageOf, IsBlock, Per, Size, ListsExact, CountsExact, PagesApart, OthersKept;
    GiveLists(st, d, a);
    GiveCounts(st, d, a);
    CounterOnly(st.arenas, PageOf(a), st.arenas[PageOf(a)].freeCnt + 1);
    CounterPages(st, Give(st, d, a));
  }

  /** Dropping an arena leaves the blocks of the others what they were. */
  lemma {:induction false} BlocksDropped(arenas: map<nat, Arena>, p: nat)
    ensures forall x: nat {:trigger IsBlock(arenas - {p}, x)} {:trigger IsBlock(arenas, x)} ::
      (IsBlock(arenas - {p}, x) <==> PageOf(x) != p && IsBlock(arenas, x))
      && (IsBlock(arenas - {p}, x) ==> Capacity(arenas - {p}, x) == Capacity(arenas, x))
  {
    hide Aligned, Size, PageOf;
  }

  /** The arena's blocks are all free: none of them is live, and those on the list are exactly its own. */
  lemma {:induction false} AllFree(st: State, d: nat, p: nat)
    requires ListsExact(st) && CountsExact(st) && p in st.arenas && d < 7 && st.arenas[p] == Small(d, Per(d))
    ensures forall a: nat {:trigger PageOf(a)} | PageOf(a) == p && IsBlock(st.arenas, a) ::
            a in st.free[d] && a !in st.live && a in BlockSet(d, p, Per(d))
    ensures forall e, a | 0 <= e < 7 && a in st.free[e] && PageOf(a) == p :: e == d && a in BlockSet(d, p, Per(d))
    ensures forall a | a in BlockSet(d, p, Per(d)) :: PageOf(a) == p && a in st.free[d]
  {
    hide Aligned, BlockSet, Per, PageOf;
    CountAtMost(st, p);
    forall a: nat | PageOf(a) == p && IsBlock(st.arenas, a)
      ensures a in st.free[d] && a !in st.live && a in BlockSet(d, p, Per(d))
    {
      BlockSetMeaning(d, p, a);
      assert a in OnPage(st.free[d], p);
    }
    forall a | a in BlockSet(d, p, Per(d)) ensures PageOf(a) == p && a in st.free[d] {
      BlockSetMeaning(d, p, a);
      assert a in OnPage(st.free[d], p);
    }
    forall e, a | 0 <= e < 7 && a in st.free[e] && PageOf(a) == p ensures e == d && a in BlockSet(d, p, Per(d)) {
      assert IsBlockOf(st.arenas, e, a);
      BlockSetMeaning(d, p, a);
    }
  }

  lemma {:induction false} DropLists(st: State, d: nat, p: nat)
    requires ListsExact(st) && CountsExact(st) && p in st.arenas && d < 7 && st.arenas[p] == Small(d, Per(d))
    requires st.base <= p < st.base + |st.used|
    ensures ListsExact(DropArena(st, d, p))
  {
    hide Aligned, PageOf, IsBlock, Capacity, BlockSet, Per, Fill, NoDup, CountsExact;
    var st' := DropArena(st, d, p);
    AllFree(st, d, p);
    BlocksDropped(st.arenas, p);
    forall e, x | 0 <= e < 7 && x in st'.free[e] ensures IsBlockOf(st'.arenas, e, x) && x !in st'.live {
      assert x in st.free[e];
      assert IsBlockOf(st.arenas, e, x);
      assert PageOf(x) != p;
    }
    forall e, x: nat | 0 <= e < 7 && IsBlockOf(st'.arenas, e, x) ensures x in st'.free[e] || x in st'.live {
      assert IsBlockOf(st.arenas, e, x);
      assert x in st.free[e] || x in st.live;
    }
    forall a | a in st'.live ensures IsBlock(st'.arenas, a) {
      assert IsBlock(st.arenas, a);
    }
  }

  lemma {:induction false} DropCounts(st: State, d: nat, p: nat)
    requires |st.free| == 7 && ListsExact(st) && CountsExact(st) && p in st.arenas && d < 7
    requires st.arenas[p] == Small(d, Per(d)) && st.base <= p < st.base + |st.used|
    ensures CountsExact(DropArena(st, d, p))
  {
    hide Aligned, PageOf, IsBlock, Capacity, BlockSet, Per, Fill, NoDup, ListsExact;
    var st' := DropArena(st, d, p);
    AllFree(st, d, p);
    forall q | q in st'.arenas && st'.arenas[q].Small?
      ensures st'.arenas[q].desc < 7 && st'.arenas[q].freeCnt == |OnPage(st'.free[st'.arenas[q].desc], q)|
    {
      var e := st.arenas[q].desc;
      assert OnPage(st.free[e], q) == OnPage(st'.free[e], q);
    }
  }

  lemma {:induction false} DropKeeps(st: State, d: nat, p: nat)
    requires Inv(st, {p}) && p in st.arenas && d < 7 && st.arenas[p] == Small(d, Per(d))
    ensures st.base <= p < st.base + |st.used| && All(st.used, p - st.base, 1, true)
    ensures Inv(DropArena(st, d, p), {}) && OthersKept(st, DropArena(st, d, p))
  {
    hide Aligned, PageOf, IsBlock, Capacity, BlockSet, Per, Size, Fill, ListsExact, CountsExact, OthersKept, Minus;
    PageInPool(st, p);
    var st' := DropArena(st, d, p);
    DropLists(st, d, p);
    DropCounts(st, d, p);
    PagesAfterDrop(st, p);
    PagesOnlyPart(st, st', st.(used := Fill(st.used, p - st.base, 1, false), arenas := st.arenas - {p}));
    BlocksDropped(st.arenas, p);
    LiveAreBlocks(st');
  }

  lemma {:induction false} LiveAreBlocks(st: State)
    requires ListsExact(st)
    ensures forall a | a in st.live :: IsBlock(st.arenas, a)
  {
  }

  lemma {:induction false} PageInPool(st: State, p: nat)
    requires PagesApart(st) && p in st.arenas
    ensures st.base <= p && p + PagesIn(st.arenas[p]) <= st.base + |st.used| && PagesIn(st.arenas[p]) > 0
    ensures All(st.used, p - st.base, PagesIn(st.arenas[p]), true)
  {
  }

  // ----- big blocks -----

  /** The page count that `malloc` computes in 32 bits. */
  function PageCnt(size: nat): (n: nat) {
    (((size + HEADER) % SIZE_MAX_1 + PGSIZE - 1) % SIZE_MAX_1) / PGSIZE
  }

  /** There are that many free pages in a row. */
  ghost predicate Room(used: seq<bool>, cnt: nat) {
    exists i: nat :: All(used, i, cnt, false)
  }

  /** The pages hold the request and the header exactly when the 32-bit sum does not wrap to one page;
      sizes whose rounding wraps to zero pages are refused. */
  lemma {:induction false} PageCntEnough(size: nat)
    requires 1024 < size < SIZE_MAX_1
    ensures PageCnt(size) == 0 <==> SIZE_MAX_1 - 4107 <= size <= SIZE_MAX_1 - 12
    ensures PageCnt(size) > 0 ==> (size <= PGSIZE * PageCnt(size) - HEADER <==> size < SIZE_MAX_1 - 11)
    ensures PageCnt(size) > 0 && size < SIZE_MAX_1 - 11 ==> PGSIZE * (PageCnt(size) - 1) - HEADER < size
  {
  }

  /** A request of 2^32 - 11 bytes gets one page. */
  lemma {:induction false} PageCntWraps()
    ensures PageCnt(0xFFFF_FFF5) == 1
  {
  }

  lemma {:induction false} NewBigKeeps(st: State, p: nat, cnt: nat, size: nat)
    requires Inv(st, {}) && cnt > 0 && st.base <= p && All(st.used, p - st.base, cnt, false)
    requires size < SIZE_MAX_1 - 11 ==> size <= PGSIZE * cnt - HEADER
    ensures Inv(NewBig(st, p, cnt, size), {}) && OthersKept(st, NewBig(st, p, cnt, size))
    ensures p * PGSIZE + HEADER !in st.live
  {
    hide Aligned, Per, Size, Fill, PagesApart, OthersKept, NoDup, OnPage;
    PagesAfterNew(st, p, Big(cnt));
    var a, st' := p * PGSIZE + HEADER, NewBig(st, p, cnt, size);
    OffsetOf(p, HEADER);
    PagesOnlyPart(st, st', st.(used := Fill(st.used, p - st.base, cnt, true), arenas := st.arenas[p := Big(cnt)]));
    BlocksKeep(st.arenas, p, Big(cnt), st.live);
    assert forall e, x | 0 <= e < 7 && x in st.free[e] :: IsBlockOf(st.arenas, e, x);
    forall e, x: nat | 0 <= e < 7 && IsBlockOf(st'.arenas, e, x) ensures x in st'.free[e] || x in st'.live {
      assert IsBlockOf(st.arenas, e, x);
    }
  }

  lemma {:induction false} DropBigKeeps(st: State, p: nat)
    requires Inv(st, {}) && p in st.arenas && st.arenas[p].Big?
    ensures st.base <= p && p + PagesIn(st.arenas[p]) <= st.base + |st.used| && PagesIn(st.arenas[p]) > 0
    ensures All(st.used, p - st.base, PagesIn(st.arenas[p]), true)
    ensures Inv(DropBig(st, p), {}) && OthersKept(st, DropBig(st, p))
  {
    hide Aligned, Per, Size, Fill, PagesApart, OthersKept, NoDup, OnPage, IsBlock, Capacity;
    PageInPool(st, p);
    PagesAfterDrop(st, p);
    var st' := DropBig(st, p);
    PagesOnlyPart(st, st', st.(used := Fill(st.used, p - st.base, PagesIn(st.arenas[p]), false),
                               arenas := st.arenas - {p}));
    BlocksDropped(st.arenas, p);
    BigHasOneBlock(st.arenas, p);
    assert forall e, x | 0 <= e < 7 && x in st.free[e] :: IsBlockOf(st.arenas, e, x);
    forall e, x: nat | 0 <= e < 7 && IsBlockOf(st'.arenas, e, x) ensures x in st'.free[e] || x in st'.live {
      assert IsBlockOf(st.arenas, e, x);
    }
    assert CountsExact(st');
  }

  lemma {:induction false} BigHasOneBlock(arenas: map<nat, Arena>, p: nat)
    requires p in arenas && arenas[p].Big?
    ensures forall a: nat | IsBlock(arenas, a) && PageOf(a) == p :: a == p * PGSIZE + HEADER
  {
  }

  // ----- the allocator -----

  class Heap {
    const pool: Pool
    var arenas: map<nat, Arena>
    var freeLists: seq<seq<nat>>
    ghost var live: map<nat, nat>

    ghost function St(): State
      requires pool.Valid()
      reads this, pool, pool.usedMap, pool.usedMap.bits
    {
      State(pool.base, pool.Used(), arenas, freeLists, live)
    }

    ghost predicate Valid()
      reads this, pool, pool.usedMap, pool.usedMap.bits
    {
      pool.Valid() && Inv(St(), {})
    }

    constructor (pool: Pool)
      requires pool.Valid()
      ensures Valid() && this.pool == pool && live == map[] && arenas == map[]
      ensures freeLists == [[], [], [], [], [], [], []]
    {
      this.pool := pool;
      arenas, live := map[], map[];
      freeLists := [[], [], [], [], [], [], []];
    }

    /** The search for a descriptor in `malloc`. */
    method FindDesc(size: nat) returns (d: nat)
      ensures IsBestDesc(size, d)
    {
      d := 0;
      while d < 7
        invariant d <= 7 && forall e | 0 <= e < d :: DESCS[e].blockSize < size
      {
        if DESCS[d].blockSize >= size { return; }
        d := d + 1;
      }
    }

    /** `malloc`: a null pointer, or a new block that overlaps no other block. */
    method Malloc(size: nat) returns (block: Option<nat>)
      requires Valid() && size < SIZE_MAX_1
      modifies this, pool.usedMap.bits
      ensures Valid() && OthersKept(old(St()), St())
      ensures size == 0 ==> block.None?
      ensures block.None? ==> St() == old(St())
      ensures block.Some? ==> block.value !in old(live) && live == old(live)[block.value := size]
      ensures block.Some? ==> IsBlock(arenas, block.value)
      ensures block.Some? ==> (size <= Capacity(arenas, block.value) <==> size < SIZE_MAX_1 - 11)
      ensures block.Some? && size <= 1024 ==>
              exists d | IsBestDesc(size, d) && d < 7 :: Capacity(arenas, block.value) == Size(d)
      ensures |old(freeLists)| == 7
      ensures forall d: nat | IsBestDesc(size, d) && size > 0 && d < 7 ::
                && (block.Some? <==> old(freeLists)[d] != [] || Room(old(St()).used, 1))
                && (old(freeLists)[d] != [] ==> St().used == old(St()).used)
      ensures size > 1024 ==> (block.Some? <==> PageCnt(size) > 0 && Room(old(St()).used, PageCnt(size)))
    {
      hide Inv, OthersKept, IsBlock, Size, Capacity, Bits, PageCnt, Room;
      InvLists(St());
      if size == 0 {
        NothingChanges(St());
        return None;
      }
      var d := FindDesc(size);
      BestDescSize(size, d);
      forall e: nat | IsBestDesc(size, e) ensures e == d { BestDescUnique(size, d, e); }
      if d == 7 {
        block := MallocBig(size);
      } else {
        block := MallocSmall(d, size);
      }
    }

    /** The branch of `malloc` for requests too big for any descriptor. */
    method MallocBig(size: nat) returns (block: Option<nat>)
      requires Valid() && 1024 < size < SIZE_MAX_1
      modifies this, pool.usedMap.bits
      ensures Valid() && OthersKept(old(St()), St())
      ensures block.None? ==> St() == old(St())
      ensures block.Some? ==> block.value !in old(live) && live == old(live)[block.value := size]
      ensures block.Some? ==> IsBlock(arenas, block.value)
      ensures block.Some? ==> (size <= Capacity(arenas, block.value) <==> size < SIZE_MAX_1 - 11)
      ensures block.Some? <==> PageCnt(size) > 0 && Room(old(St()).used, PageCnt(size))
    {
      hide Inv, OthersKept, Size, Bits, PageCnt, Fill;
      var pageCnt := PageCnt(size);
      PageCntEnough(size);
      ghost var st := St();
      var page := pool.Get(pageCnt);
      if page.None? {
        NothingChanges(St());
        return None;
      }
      NewBigKeeps(st, page.value, pageCnt, size);
      OffsetOf(page.value, HEADER);
      arenas := arenas[page.value := Big(pageCnt)];
      block := Some(page.value * PGSIZE + HEADER);
      live := live[block.value := size];
      assert St() == NewBig(st, page.value, pageCnt, size);
    }

    /** The rest of `malloc`: a block of descriptor `d`, from a new arena if none is free. */
    method MallocSmall(d: nat, size: nat) returns (block: Option<nat>)
      requires Valid() && d < 7 && 0 < size <= Size(d)
      modifies this, pool.usedMap.bits
      ensures Valid() && OthersKept(old(St()), St())
      ensures block.None? ==> St() == old(St())
      ensures block.Some? ==> block.value !in old(live) && live == old(live)[block.value := size]
      ensures block.Some? ==> IsBlock(arenas, block.value) && Capacity(arenas, block.value) == Size(d)
      ensures |old(freeLists)| == 7 && (block.Some? <==> old(freeLists)[d] != [] || Room(old(St()).used, 1))
      ensures old(freeLists)[d] != [] ==> block.value == old(freeLists)[d][0] && St().used == old(St()).used
      ensures old(freeLists)[d] == [] && block.Some? ==> PageOf(block.value) !in old(arenas)
    {
      hide Inv, OthersKept, Size, Per, IsBlock, Capacity, PageOf, Bits, Fill, Blocks;
      ghost var st := St();
      InvLists(st);
      NothingChanges(st);
      if freeLists[d] == [] {
        var page := pool.Get(1);
        if page.None? { return None; }
        NewArenaKeeps(st, d, page.value);
        NoArenaThere(st, page.value);
        var blocks := ArenaBlocks(d, page.value);
        arenas := arenas[page.value := Small(d, DESCS[d].blocksPerArena)];
        freeLists := freeLists[d := freeLists[d] + blocks];
        PerDef(d);
        assert freeLists[d] == blocks;
        assert St() == NewArena(st, d, page.value);
        FirstBlock(d, page.value);
      } else {
        ExceptMore(st, {PageOf(freeLists[d][0])});
      }
      ghost var st1 := St();
      TakeKeeps(st1, d, size);
      TakenIsNew(st1, d);
      var b := freeLists[d][0];
      freeLists := freeLists[d := freeLists[d][1..]];
      arenas := arenas[PageOf(b) := Small(d, arenas[PageOf(b)].freeCnt - 1)];
      live := live[b := size];
      assert St() == Take(st1, d, size);
      OthersChain(st, st1, St());
      return Some(b);
    }

    /** The loop of `malloc` that puts a new arena's blocks on the free list. */
    method ArenaBlocks(d: nat, page: nat) returns (s: seq<nat>)
      requires d < 7
      ensures s == Blocks(d, page, Per(d))
    {
      hide BlockAddr;
      s := [];
      for i := 0 to DESCS[d].blocksPerArena
        invariant s == Blocks(d, page, i)
      {
        s := s + [BlockAddr(d, page, i)];
      }
    }

    /** `free`: the block is given back, and with the last block of an arena its page. */
    method Free(block: Option<nat>)
      requires Valid() && (block.Some? ==> block.value in live)
      modifies this, pool.usedMap.bits
      ensures Valid() && OthersKept(old(St()), St())
      ensures live == if block.Some? then old(live) - {block.value} else old(live)
      ensures block.None? ==> St() == old(St())
      ensures block.Some? && old(arenas[PageOf(block.value)]).Big? ==> arenas == old(arenas) - {PageOf(block.value)}
    {
      hide Inv, OthersKept, Size, Per, Capacity, PageOf, Bits, Fill, Blocks;
      ghost var st := St();
      NothingChanges(st);
      if block.None? { return; }
      var b := block.value;
      LiveIsBlock(st, b);
      var page := PageOf(b);
      if arenas[page].Big? {
        DropBigKeeps(st, page);
        BigHasOneBlock(arenas, page);
        pool.Free(page, arenas[page].pageCnt);
        arenas := arenas - {page};
        live := live - {b};
        assert St() == DropBig(st, page);
      } else {
        FreeSmall(arenas[page].desc, b);
      }
    }

    /** The branch of `free` for a block of an arena. */
    method FreeSmall(d: nat, b: nat)
      requires Valid() && d < 7 && b in live && IsBlockOf(arenas, d, b)
      modifies this, pool.usedMap.bits
      ensures Valid() && OthersKept(old(St()), St())
      ensures live == old(live) - {b}
    {
      hide Inv, OthersKept, Size, Per, Capacity, PageOf, IsBlock, Bits, Fill, Blocks, BlockSet, Minus;
      ghost var st := St();
      InvLists(st);
      GiveKeeps(st, d, b);
      var page := PageOf(b);
      freeLists := freeLists[d := [b] + freeLists[d]];
      arenas := arenas[page := Small(d, arenas[page].freeCnt + 1)];
      live := live - {b};
      ghost var st1 := St();
      assert st1 == Give(st, d, b);
      PerDef(d);
      if arenas[page].freeCnt >= DESCS[d].blocksPerArena {
        DropKeeps(st1, d, page);
        var rest := RemoveBlocks(freeLists[d], d, page);
        freeLists := freeLists[d := rest];
        arenas := arenas - {page};
        pool.Free(page, 1);
        assert St() == DropArena(st1, d, page);
        OthersChain(st, st1, St());
      }
    }

    /** The loop of `free` that takes an arena's blocks off the free list. */
    method RemoveBlocks(s: seq<nat>, d: nat, page: nat) returns (r: seq<nat>)
      requires d < 7
      ensures r == Minus(s, BlockSet(d, page, Per(d)))
    {
      hide BlockAddr;
      r := s;
      MinusNothing(s);
      assert BlockSet(d, page, 0) == {};
      for i := 0 to DESCS[d].blocksPerArena
        invariant r == Minus(s, BlockSet(d, page, i))
      {
        MinusTwice(s, BlockSet(d, page, i), {BlockAddr(d, page, i)});
        assert BlockSet(d, page, i + 1) == BlockSet(d, page, i) + {BlockAddr(d, page, i)};
        r := Minus(r, {BlockAddr(d, page, i)});
      }
    }
  }

  // ----- helpers of the methods -----

  lemma {:induction false} NothingChanges(st: State)
    ensures OthersKept(st, st)
  {
  }

  lemma {:induction false} OthersChain(st: State, st': State, st'': State)
    requires OthersKept(st, st') && OthersKept(st', st'')
    ensures OthersKept(st, st'')
  {
    hide Claimed;
  }

  lemma {:induction false} InvLists(st: State)
    requires Inv(st, {})
    ensures |st.free| == 7
  {
  }

  lemma {:induction false} ExceptMore(st: State, except: set<nat>)
    requires Inv(st, {})
    ensures Inv(st, except)
  {
  }

  lemma {:induction false} LiveIsBlock(st: State, a: nat)
    requires Inv(st, {}) && a in st.live
    ensures IsBlock(st.arenas, a)
  {
  }

  lemma {:induction false} TakenIsNew(st: State, d: nat)
    requires |st.free| == 7 && d < 7 && st.free[d] != [] && Inv(st, {PageOf(st.free[d][0])})
    ensures st.free[d][0] !in st.live
  {
  }

  lemma {:induction false} FirstBlock(d: nat, page: nat)
    requires d < 7
    ensures |Blocks(d, page, Per(d))| > 0 && PageOf(Blocks(d, page, Per(d))[0]) == page
  {
    BlockInArena(d, page, 0);
  }

  lemma {:induction false} BestDescSize(size: nat, d: nat)
    requires IsBestDesc(size, d)
    ensures if d < 7 then size <= Size(d) <= 1024 else size > 1024
  {
    assert d == 7 ==> DESCS[6].blockSize < size;
  }

  lemma {:induction false} NoArenaThere(st: State, p: nat)
    requires Inv(st, {}) && st.base <= p && All(st.used, p - st.base, 1, false)
    ensures p !in st.arenas
  {
    if p in st.arenas {
      FreshPages(st, p, 1, p);
      assert false;
    }
  }

  lemma {:induction false} BestDescUnique(size: nat, d: nat, e: nat)
    requires IsBestDesc(size, d) && IsBestDesc(size, e)
    ensures d == e
  {
  }

  lemma {:induction false} PerDef(d: nat)
    requires d < 7
    ensures Per(d) == DESCS[d].blocksPerArena
  {
  }

  lemma {:induction false} MinusNothing(s: seq<nat>)
    ensures Minus(s, {}) == s
  {
    if s != [] { MinusNothing(s[1..]); }
  }

  lemma {:induction false} MinusTwice(s: seq<nat>, a: set<nat>, b: set<nat>)
    ensures Minus(Minus(s, a), b) == Minus(s, a + b)
  {
    if s != [] {
      MinusTwice(s[1..], a, b);
      if s[0] !in a { assert Minus(s, a)[1..] == Minus(s[1..], a); }
    }
  }
}
