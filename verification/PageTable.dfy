/** The two-level page table of userprog/pagedir.c and threads/pte.h.

    Physical pages are named by their physical addresses; the kernel reaches each of them at a
    fixed offset, so `ptov` and `vtop` do not appear.  Virtual pages are named by page number. */
module PageTable {
  import opened Common

  const PGSIZE: nat := 4096
  const ENTRIES: nat := 1024

  /** The pages below PHYS_BASE, and the page directory entries that cover them. */
  const USER_PAGES: nat := 0xC_0000
  const USER_TABLES: nat := 768

  // ----- entries -----

  /** The physical address of a page. */
  datatype Phys = Phys(addr: bv32)

  function AddrBits(entry: bv32): Phys { Phys(entry & 0xffff_f000) }
  predicate Present(entry: bv32) { entry & 1 != 0 }
  predicate Writable(entry: bv32) { entry & 2 != 0 }
  predicate UserBit(entry: bv32) { entry & 4 != 0 }
  predicate PageAligned(page: Phys) { page.addr & 0xfff == 0 }

  /** `pde_create`. */
  function PdeCreate(pt: Phys): bv32 { pt.addr | 4 | 1 | 2 }

  /** `pte_create_user`. */
  function PteCreateUser(page: Phys, writable: bool): bv32 { page.addr | 1 | (if writable then 2 else 0) | 4 }

  function ClearPresent(entry: bv32): bv32 { entry & !1 }

  /** `pde_get_pt` undoes `pde_create`. */
  lemma {:induction false} PdeReadsBack(pt: Phys)
    requires PageAligned(pt)
    ensures AddrBits(PdeCreate(pt)) == pt && Present(PdeCreate(pt)) && PdeCreate(pt) != 0
    ensures UserBit(PdeCreate(pt)) && Writable(PdeCreate(pt))
  {
  }

  /** `pte_get_page` and the flag tests undo `pte_create_user`. */
  lemma {:induction false} PteReadsBack(page: Phys, writable: bool)
    requires PageAligned(page)
    ensures AddrBits(PteCreateUser(page, writable)) == page && Present(PteCreateUser(page, writable))
    ensures Writable(PteCreateUser(page, writable)) == writable && UserBit(PteCreateUser(page, writable))
  {
  }

  lemma {:induction false} ClearedIsAbsent(entry: bv32)
    ensures !Present(ClearPresent(entry)) && AddrBits(ClearPresent(entry)) == AddrBits(entry)
  {
  }

  lemma {:induction false} ZeroIsAbsent()
    ensures !Present(0)
  {
  }

  // ----- the mapping that a directory and its tables represent -----

  /** What a user page is mapped to. */
  datatype Frame = Frame(page: Phys, writable: bool)

  datatype Tables = Tables(pd: seq<bv32>, pts: map<Phys, seq<bv32>>)

  /** A directory entry that is in use leaves the protection to the table. */
  predicate Open(pde: bv32) { Present(pde) && UserBit(pde) && Writable(pde) }

  /** What is present in a table is for user code. */
  ghost predicate TableOk(pt: seq<bv32>) {
    |pt| == ENTRIES && forall j | 0 <= j < ENTRIES && Present(pt[j]) :: UserBit(pt[j])
  }

  /** Every user entry of the directory is zero or points to a table of its own. */
  ghost predicate WellFormed(t: Tables) {
    && |t.pd| == ENTRIES
    && (forall i | 0 <= i < USER_TABLES :: t.pd[i] == 0 || (Open(t.pd[i]) && AddrBits(t.pd[i]) in t.pts))
    && (forall i, j | 0 <= i < j < USER_TABLES && t.pd[i] != 0 && t.pd[j] != 0 ::
          AddrBits(t.pd[i]) != AddrBits(t.pd[j]))
    && (forall a | a in t.pts :: TableOk(t.pts[a]))
  }

  /** `pd_no` and `pt_no`. */
  function PdNo(k: nat): nat { k / ENTRIES }
  function PtNo(k: nat): nat { k % ENTRIES }

  lemma {:induction false} IndicesInRange(k: nat)
    requires k < USER_PAGES
    ensures PdNo(k) < USER_TABLES && PtNo(k) < ENTRIES
  {
  }

  lemma {:induction false} IndicesDiffer(j: nat, k: nat)
    requires j != k
    ensures PdNo(j) != PdNo(k) || PtNo(j) != PtNo(k)
  {
  }

  /** The page table entry of user page `k`, zero where there is no table. */
  function Entry(t: Tables, k: nat): (e: bv32)
    requires WellFormed(t) && k < USER_PAGES
  {
    var pde := t.pd[PdNo(k)];
    if pde == 0 then 0 else t.pts[AddrBits(pde)][PtNo(k)]
  }

  /** The mapping as a partial map from user pages to frames. */
  ghost function View(t: Tables): (m: map<nat, Frame>)
    requires WellFormed(t)
  {
    map k: nat | k < USER_PAGES && Present(Entry(t, k)) :: Frame(AddrBits(Entry(t, k)), Writable(Entry(t, k)))
  }

  function WithEntry(t: Tables, k: nat, e: bv32): (t': Tables)
    requires WellFormed(t) && k < USER_PAGES && t.pd[PdNo(k)] != 0
  {
    var pt := AddrBits(t.pd[PdNo(k)]);
    t.(pts := t.pts[pt := t.pts[pt][PtNo(k) := e]])
  }

  function WithTable(t: Tables, i: nat, pt: Phys): (t': Tables)
    requires WellFormed(t) && i < USER_TABLES
  {
    Tables(t.pd[i := PdeCreate(pt)], t.pts[pt := seq(ENTRIES, _ => 0 as bv32)])
  }

  lemma {:induction false} EntryAfterWrite(t: Tables, k: nat, e: bv32, j: nat)
    requires WellFormed(t) && k < USER_PAGES && t.pd[PdNo(k)] != 0 && j < USER_PAGES && WellFormed(WithEntry(t, k, e))
    ensures Entry(WithEntry(t, k, e), j) == if j == k then e else Entry(t, j)
  {
    hide AddrBits, Present, Writable, UserBit, PdNo, PtNo;
    IndicesInRange(k);
    IndicesInRange(j);
    if j != k {
      IndicesDiffer(j, k);
      if t.pd[PdNo(j)] != 0 && PdNo(j) != PdNo(k) {
        assert AddrBits(t.pd[PdNo(j)]) != AddrBits(t.pd[PdNo(k)]);
      }
    }
  }

  // ----- the processor's view -----

  /** What the processor finds for a linear address: the byte, and whether user code may read and write it. */
  datatype Access = Access(page: Phys, ofs: nat, user: bool, write: bool)

  /** What a directory entry that is present and a table entry grant together: access needs both. */
  ghost function Granted(pde: bv32, pte: bv32, ofs: nat): (r: Option<Access>) {
    if pte & 1 == 0 then None
    else Some(Access(Phys(pte & 0xffff_f000), ofs, pde & 4 != 0 && pte & 4 != 0, pde & 2 != 0 && pte & 2 != 0))
  }

  /** The page walk of IA-32 (volume 3A, section 3.7): the top ten bits of the address select the directory
      entry, the next ten the table entry. */
  ghost function Walk(t: Tables, addr: nat): (r: Option<Access>)
    requires |t.pd| == ENTRIES && (forall a | a in t.pts :: |t.pts[a]| == ENTRIES) && addr < 0x1_0000_0000
  {
    var pde := t.pd[addr / 0x40_0000];
    var pt := Phys(pde & 0xffff_f000);
    if pde & 1 == 0 || pt !in t.pts then None else Granted(pde, t.pts[pt][addr / 0x1000 % 0x400], addr % 0x1000)
  }

  /** The processor finds exactly the pages of the mapping: each accessible to user code, and writable exactly
      as the mapping says. */
  lemma {:induction false} WalkIsMapping(t: Tables, addr: nat)
    requires WellFormed(t) && addr < USER_PAGES * PGSIZE
    ensures Walk(t, addr) ==
            if addr / PGSIZE in View(t)
            then Some(Access(View(t)[addr / PGSIZE].page, addr % PGSIZE, true, View(t)[addr / PGSIZE].writable))
            else None
  {
    hide AddrBits, Present, Writable, UserBit, PdNo, PtNo, Granted;
    var k := addr / PGSIZE;
    IndicesInRange(k);
    SameIndices(addr);
    ZeroIsAbsent();
    var pde := t.pd[PdNo(k)];
    SameFields(pde);
    if pde != 0 {
      assert Open(pde) && TableOk(t.pts[AddrBits(pde)]);
      GrantedWhenOpen(pde, t.pts[AddrBits(pde)][PtNo(k)], addr % PGSIZE);
    }
  }

  /** The addresses of a mapped page. */
  lemma {:induction false} PageIsOpen(t: Tables, k: nat)
    requires WellFormed(t) && k in View(t)
    ensures forall addr: nat | addr / PGSIZE == k ::
              Walk(t, addr) == Some(Access(View(t)[k].page, addr % PGSIZE, true, View(t)[k].writable))
  {
    hide AddrBits, Present, Writable, UserBit, Entry, Granted, PdNo, PtNo;
    forall addr: nat | addr / PGSIZE == k
      ensures Walk(t, addr) == Some(Access(View(t)[k].page, addr % PGSIZE, true, View(t)[k].writable))
    {
      WalkIsMapping(t, addr);
    }
  }

  lemma {:induction false} SameFields(pde: bv32)
    ensures (pde & 1 == 0) == !Present(pde) && Phys(pde & 0xffff_f000) == AddrBits(pde)
  {
  }

  lemma {:induction false} GrantedWhenOpen(pde: bv32, pte: bv32, ofs: nat)
    requires Open(pde) && (Present(pte) ==> UserBit(pte))
    ensures Granted(pde, pte, ofs) ==
            if Present(pte) then Some(Access(AddrBits(pte), ofs, true, Writable(pte))) else None
  {
  }

  lemma {:induction false} SameIndices(addr: nat)
    ensures addr / 0x40_0000 == PdNo(addr / PGSIZE) && addr / 0x1000 % 0x400 == PtNo(addr / PGSIZE)
  {
    assert addr / PGSIZE / ENTRIES == addr / (PGSIZE * ENTRIES);
  }

  /** Writing one entry changes the mapping of one page. */
  lemma {:induction false} EntryWritten(t: Tables, k: nat, e: bv32)
    requires WellFormed(t) && k < USER_PAGES && t.pd[PdNo(k)] != 0 && (Present(e) ==> UserBit(e))
    ensures WellFormed(WithEntry(t, k, e)) && WithEntry(t, k, e).pts.Keys == t.pts.Keys
    ensures View(WithEntry(t, k, e)) ==
            if Present(e) then View(t)[k := Frame(AddrBits(e), Writable(e))] else View(t) - {k}
  {
    hide AddrBits, Present, Writable, UserBit, PdNo, PtNo, Entry;
    IndicesInRange(k);
    var t' := WithEntry(t, k, e);
    forall j: nat | j < USER_PAGES ensures Entry(t', j) == if j == k then e else Entry(t, j) {
      EntryAfterWrite(t, k, e, j);
    }
  }

  /** A new empty table changes no mapping. */
  lemma {:induction false} TableAdded(t: Tables, i: nat, pt: Phys)
    requires WellFormed(t) && i < USER_TABLES && t.pd[i] == 0 && PageAligned(pt) && pt !in t.pts
    ensures WellFormed(WithTable(t, i, pt)) && View(WithTable(t, i, pt)) == View(t)
    ensures WithTable(t, i, pt).pts.Keys == t.pts.Keys + {pt}
  {
    hide AddrBits, Present, Writable, UserBit, PdeCreate, PageAligned, PdNo, PtNo, Entry;
    TableAddedForm(t, i, pt);
    var t' := WithTable(t, i, pt);
    forall k: nat | k < USER_PAGES ensures Entry(t', k) == Entry(t, k) {
      EntryAfterTable(t, i, pt, k);
    }
  }

  lemma {:induction false} TableAddedForm(t: Tables, i: nat, pt: Phys)
    requires WellFormed(t) && i < USER_TABLES && t.pd[i] == 0 && PageAligned(pt) && pt !in t.pts
    ensures WellFormed(WithTable(t, i, pt))
  {
    hide AddrBits, Present, Writable, UserBit, PdeCreate, PageAligned, PdNo, PtNo;
    PdeReadsBack(pt);
    var t' := WithTable(t, i, pt);
    assert t'.pd[i] == PdeCreate(pt);
    ZeroIsAbsent();
    assert forall j | 0 <= j < USER_TABLES && j != i :: t'.pd[j] == t.pd[j];
    assert forall j | 0 <= j < USER_TABLES && t.pd[j] != 0 :: AddrBits(t.pd[j]) in t.pts && AddrBits(t.pd[j]) != pt;
  }

  lemma {:induction false} EntryAfterTable(t: Tables, i: nat, pt: Phys, k: nat)
    requires WellFormed(t) && i < USER_TABLES && t.pd[i] == 0 && PageAligned(pt) && pt !in t.pts && k < USER_PAGES
    requires WellFormed(WithTable(t, i, pt))
    ensures Entry(WithTable(t, i, pt), k) == Entry(t, k)
  {
    hide AddrBits, Present, Writable, UserBit, PdeCreate, PageAligned, PdNo, PtNo;
    PdeReadsBack(pt);
    IndicesInRange(k);
    var t' := WithTable(t, i, pt);
    if PdNo(k) != i && t.pd[PdNo(k)] != 0 {
      assert t'.pd[PdNo(k)] == t.pd[PdNo(k)];
      assert AddrBits(t.pd[PdNo(k)]) in t.pts;
    }
  }

  // ----- the page directory -----

  /** Free pages: a pool hands out its first page. */
  ghost predicate Distinct(pages: seq<Phys>) {
    && (forall i | 0 <= i < |pages| :: PageAligned(pages[i]))
    && (forall i, j | 0 <= i < j < |pages| :: pages[i] != pages[j])
  }

  class PageDir {
    const pd: array<bv32>
    var pts: map<Phys, seq<bv32>>
    var kernelPages: seq<Phys>

    ghost function T(): Tables
      reads this, pd
    {
      Tables(pd[..], pts)
    }

    ghost predicate Valid()
      reads this, pd
    {
      && WellFormed(T())
      && Distinct(kernelPages)
      && forall i | 0 <= i < |kernelPages| :: kernelPages[i] !in pts
    }

    /** The user mapping. */
    ghost function Mapping(): (m: map<nat, Frame>)
      requires Valid()
      reads this, pd
    {
      View(T())
    }

    /** The pages that are free or hold page tables: no page is lost. */
    ghost function KernelPages(): set<Phys>
      reads this
    {
      pts.Keys + set p | p in kernelPages
    }

    /** The directory entries that have a table. */
    ghost function Tabled(): set<nat>
      reads this, pd
    {
      set i: nat | i < USER_TABLES && i < pd.Length && pd[i] != 0
    }

    /** A copy of the kernel's directory, which maps no user page. */
    constructor (initPageDir: seq<bv32>, kernelPages: seq<Phys>)
      requires |initPageDir| == ENTRIES && (forall i | 0 <= i < USER_TABLES :: initPageDir[i] == 0)
      requires Distinct(kernelPages)
      ensures Valid() && fresh(pd) && Mapping() == map[] && pd[..] == initPageDir && this.kernelPages == kernelPages
      ensures Tabled() == {}
    {
      hide Present, AddrBits, Writable, UserBit, PdNo, PtNo;
      pd := new bv32[ENTRIES](i requires 0 <= i < ENTRIES => initPageDir[i]);
      pts := map[];
      this.kernelPages := kernelPages;
      new;
      assert pd[..] == initPageDir;
      ZeroIsAbsent();
      forall k: nat | k < USER_PAGES ensures !Present(Entry(T(), k)) { IndicesInRange(k); }
    }

    /** `lookup_page`: the table that holds the entry of user page `k`, made on demand. */
    method LookupPage(k: nat, create: bool) returns (pt: Option<Phys>)
      requires Valid() && k < USER_PAGES
      modifies this, pd
      ensures Valid() && Mapping() == old(Mapping()) && pd[USER_TABLES..] == old(pd[USER_TABLES..])
      ensures pt.Some? ==> pd[PdNo(k)] != 0 && pt.value == AddrBits(pd[PdNo(k)])
      ensures pt.None? <==> old(pd[PdNo(k)]) == 0 && (!create || old(kernelPages) == [])
      ensures pt.None? || !create ==> T() == old(T()) && kernelPages == old(kernelPages)
      ensures pt.Some? ==> Tabled() == old(Tabled()) + {PdNo(k)}
      ensures pt.Some? ==>
                kernelPages == if old(pd[PdNo(k)]) == 0 then old(kernelPages)[1..] else old(kernelPages)
      ensures KernelPages() == old(KernelPages())
    {
      hide Present, AddrBits, Writable, UserBit, PdNo, PtNo, PdeCreate, View, WellFormed;
      IndicesInRange(k);
      DirSize(T());
      if pd[PdNo(k)] == 0 {
        if !create || kernelPages == [] { return None; }
        var page := kernelPages[0];
        ghost var t := T();
        TableAdded(t, PdNo(k), page);
        PdeReadsBack(page);
        assert kernelPages == [page] + kernelPages[1..];
        kernelPages := kernelPages[1..];
        pts := pts[page := seq(ENTRIES, _ => 0 as bv32)];
        pd[PdNo(k)] := PdeCreate(page);
        assert pd[..] == t.pd[PdNo(k) := PdeCreate(page)];
        assert T() == WithTable(t, PdNo(k), page);
        assert pd[USER_TABLES..] == old(pd[USER_TABLES..]);
      }
      return Some(AddrBits(pd[PdNo(k)]));
    }

    /** `pagedir_set_page`: the mapping gains one page, or memory for a table is missing. */
    method SetPage(k: nat, page: Phys, writable: bool) returns (ok: bool)
      requires Valid() && k < USER_PAGES && PageAligned(page) && k !in Mapping()
      modifies this, pd
      ensures Valid() && pd[USER_TABLES..] == old(pd[USER_TABLES..])
      ensures Mapping() == if ok then old(Mapping())[k := Frame(page, writable)] else old(Mapping())
      ensures ok ==> forall addr: nat | addr / PGSIZE == k ::
                Walk(T(), addr) == Some(Access(page, addr % PGSIZE, true, writable))
      ensures !ok <==> PdNo(k) !in old(Tabled()) && old(kernelPages) == []
      ensures !ok ==> T() == old(T()) && kernelPages == old(kernelPages)
      ensures ok ==> Tabled() == old(Tabled()) + {PdNo(k)}
      ensures ok ==> kernelPages == if PdNo(k) in old(Tabled()) then old(kernelPages) else old(kernelPages)[1..]
      ensures KernelPages() == old(KernelPages())
    {
      hide Present, AddrBits, Writable, UserBit, PdNo, PtNo, PteCreateUser, View, WellFormed, PageAligned;
      IndicesInRange(k);
      DirSize(T());
      var pt := LookupPage(k, true);
      if pt.None? { return false; }
      ghost var t := T();
      PteReadsBack(page, writable);
      EntryWritten(t, k, PteCreateUser(page, writable));
      TableHere(t, k);
      pts := pts[pt.value := pts[pt.value][PtNo(k) := PteCreateUser(page, writable)]];
      assert T() == WithEntry(t, k, PteCreateUser(page, writable));
      PageIsOpen(T(), k);
      return true;
    }

    /** `pagedir_get_page`: where a user address is in physical memory, if its page is mapped: the
        frame and the offset in it. */
    method GetPage(uaddr: nat) returns (addr: Option<(Phys, nat)>)
      requires Valid() && uaddr < USER_PAGES * PGSIZE
      modifies this, pd
      ensures T() == old(T()) && kernelPages == old(kernelPages) && Valid()
      ensures addr.Some? <==> uaddr / PGSIZE in Mapping()
      ensures addr.Some? ==> addr.value == (Mapping()[uaddr / PGSIZE].page, uaddr % PGSIZE)
    {
      hide Present, AddrBits, Writable, UserBit, PdNo, PtNo, WellFormed;
      var k := uaddr / PGSIZE;
      IndicesInRange(k);
      DirSize(T());
      ZeroIsAbsent();
      var pt := LookupPage(k, false);
      if pt.Some? {
        TableHere(T(), k);
        var pte := pts[pt.value][PtNo(k)];
        if Present(pte) { return Some((AddrBits(pte), uaddr % PGSIZE)); }
      }
      return None;
    }

    /** `pagedir_clear_page`: the mapping loses one page, if it has it. */
    method ClearPage(k: nat)
      requires Valid() && k < USER_PAGES
      modifies this, pd
      ensures Valid() && Mapping() == old(Mapping()) - {k}
      ensures pd[..] == old(pd[..]) && kernelPages == old(kernelPages) && pts.Keys == old(pts).Keys
    {
      hide Present, AddrBits, Writable, UserBit, PdNo, PtNo, WellFormed, ClearPresent;
      IndicesInRange(k);
      DirSize(T());
      ZeroIsAbsent();
      var pt := LookupPage(k, false);
      ghost var t := T();
      if pt.Some? {
        TableHere(t, k);
        var pte := pts[pt.value][PtNo(k)];
        if Present(pte) {
          ClearedIsAbsent(pte);
          EntryWritten(t, k, ClearPresent(pte));
          pts := pts[pt.value := pts[pt.value][PtNo(k) := ClearPresent(pte)]];
          assert T() == WithEntry(t, k, ClearPresent(pte));
        }
      }
    }
  }

  /** `pagedir_create`: a directory in a page of its own, or none exactly when no page is free. */
  method CreateDir(initPageDir: seq<bv32>, kernelPages: seq<Phys>) returns (dir: Option<PageDir>)
    requires |initPageDir| == ENTRIES && (forall i | 0 <= i < USER_TABLES :: initPageDir[i] == 0)
    requires Distinct(kernelPages)
    ensures dir.None? <==> kernelPages == []
    ensures dir.Some? ==> dir.value.Valid() && dir.value.Mapping() == map[] && dir.value.pd[..] == initPageDir
    ensures dir.Some? ==> dir.value.kernelPages == kernelPages[1..] && fresh(dir.value) && fresh(dir.value.pd)
  {
    if kernelPages == [] { return None; }
    var d := new PageDir(initPageDir, kernelPages[1..]);
    return Some(d);
  }

  lemma {:induction false} DirSize(t: Tables)
    requires WellFormed(t)
    ensures |t.pd| == ENTRIES
  {
  }

  lemma {:induction false} TableHere(t: Tables, k: nat)
    requires WellFormed(t) && k < USER_PAGES && t.pd[PdNo(k)] != 0
    ensures AddrBits(t.pd[PdNo(k)]) in t.pts && |t.pts[AddrBits(t.pd[PdNo(k)])]| == ENTRIES && PtNo(k) < ENTRIES
  {
    hide Present, AddrBits, PdNo, PtNo;
    IndicesInRange(k);
  }
}
