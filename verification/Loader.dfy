/** Loading an executable's segments into a process's address space (userprog/process.c). */
module Loader {
  import opened Common
  import Inode
  import opened PageTable

  const PHYS_BASE: nat := 0xC000_0000
  const WORD: nat := 0x1_0000_0000

  // ----- memory as the process sees it -----

  type Memory = map<Phys, seq<byte>>

  /** Every mapped page has a frame of its own. */
  ghost predicate Backed(m: map<nat, Frame>, frames: Memory) {
    && (forall k | k in m :: k < USER_PAGES && m[k].page in frames && |frames[m[k].page]| == PGSIZE)
    && (forall j, k | j in m && k in m && j != k :: m[j].page != m[k].page)
  }

  /** Nothing that was mapped before has changed: not the frame, the protection or the contents. */
  ghost predicate Kept(m: map<nat, Frame>, frames: Memory, m': map<nat, Frame>, frames': Memory) {
    forall k | k in m :: && k in m' && m'[k] == m[k] && m[k].page in frames && m[k].page in frames'
                         && frames'[m[k].page] == frames[m[k].page]
  }

  /** The page holds these bytes. */
  ghost predicate PageIs(m: map<nat, Frame>, frames: Memory, k: nat, writable: bool, bytes: seq<byte>) {
    k in m && m[k].writable == writable && m[k].page in frames && frames[m[k].page] == bytes
  }

  /** The byte at a user virtual address. */
  ghost predicate ByteIs(m: map<nat, Frame>, frames: Memory, va: nat, writable: bool, b: byte) {
    && va / PGSIZE in m && m[va / PGSIZE].writable == writable
    && m[va / PGSIZE].page in frames && |frames[m[va / PGSIZE].page]| == PGSIZE
    && frames[m[va / PGSIZE].page][va % PGSIZE] == b
  }

  lemma {:induction false} KeptTrans(m: map<nat, Frame>, f: Memory, m': map<nat, Frame>, f': Memory,
                                     m'': map<nat, Frame>, f'': Memory)
    requires Kept(m, f, m', f') && Kept(m', f', m'', f'')
    ensures Kept(m, f, m'', f'')
  {
  }

  // ----- what a segment's pages hold -----

  /** Byte `j` of a segment: `readBytes` bytes of the file from `ofs` on, then zeros. */
  function SegmentByte(file: seq<byte>, ofs: nat, readBytes: nat, j: nat): (b: byte)
  {
    if j < readBytes && ofs + j < |file| then file[ofs + j] else 0
  }

  /** Page `i` of a segment. */
  function SegmentPage(file: seq<byte>, ofs: nat, readBytes: nat, i: nat): (s: seq<byte>)
  {
    seq<byte>(PGSIZE, j requires 0 <= j < PGSIZE => SegmentByte(file, ofs, readBytes, i * PGSIZE + j))
  }

  ghost predicate PagesLoaded(m: map<nat, Frame>, frames: Memory, upage: nat, n: nat, writable: bool, file: seq<byte>,
                              ofs: nat, readBytes: nat)
  {
    forall i | 0 <= i < n :: PageIs(m, frames, upage + i, writable, SegmentPage(file, ofs, readBytes, i))
  }

  /** Later loading leaves loaded pages loaded. */
  lemma {:induction false} StillLoaded(m: map<nat, Frame>, f: Memory, m': map<nat, Frame>, f': Memory,
                                       upage: nat, n: nat, writable: bool, file: seq<byte>, ofs: nat, readBytes: nat)
    requires PagesLoaded(m, f, upage, n, writable, file, ofs, readBytes) && Kept(m, f, m', f')
    ensures PagesLoaded(m', f', upage, n, writable, file, ofs, readBytes)
  {
    hide SegmentPage;
    forall i | 0 <= i < n ensures PageIs(m', f', upage + i, writable, SegmentPage(file, ofs, readBytes, i)) {
      assert PageIs(m, f, upage + i, writable, SegmentPage(file, ofs, readBytes, i));
    }
  }

  /** The pages put the right byte at every address. */
  lemma {:induction false} BytesLoaded(m: map<nat, Frame>, frames: Memory, upage: nat, n: nat, writable: bool,
                                       file: seq<byte>, ofs: nat, readBytes: nat, j: nat)
    requires PagesLoaded(m, frames, upage, n, writable, file, ofs, readBytes) && j < n * PGSIZE
    ensures ByteIs(m, frames, upage * PGSIZE + j, writable, SegmentByte(file, ofs, readBytes, j))
  {
    hide SegmentByte;
    var i := j / PGSIZE;
    assert PageIs(m, frames, upage + i, writable, SegmentPage(file, ofs, readBytes, i));
    assert (upage * PGSIZE + j) / PGSIZE == upage + i;
    assert i * PGSIZE + j % PGSIZE == j;
  }

  // ----- the program header -----

  datatype Phdr = Phdr(offset: nat, vaddr: nat, filesz: nat, memsz: nat, writable: bool)

  /** The fields are 32-bit words. */
  predicate Words(p: Phdr) {
    p.offset < WORD && p.vaddr < WORD && p.filesz < WORD && p.memsz < WORD
  }

  /** `validate_segment`, in 32-bit arithmetic. */
  predicate ValidateSegment(p: Phdr, fileLength: nat) {
    && p.offset % PGSIZE == p.vaddr % PGSIZE
    && p.offset <= fileLength
    && p.filesz <= p.memsz
    && p.memsz != 0
    && p.vaddr < PHYS_BASE
    && (p.vaddr + p.memsz) % WORD < PHYS_BASE
    && p.vaddr <= (p.vaddr + p.memsz) % WORD
    && PGSIZE <= p.vaddr
  }

  /** What passes: the offsets in the page agree, the segment starts in the file, its bytes from the file are
      bytes of the segment, it is not empty, and it lies between the first page and the kernel. */
  lemma {:induction false} ValidateMeaning(p: Phdr, fileLength: nat)
    requires Words(p)
    ensures ValidateSegment(p, fileLength) <==>
            && p.offset % 4096 == p.vaddr % 4096 && p.offset <= fileLength && p.filesz <= p.memsz && 0 < p.memsz
            && 4096 <= p.vaddr && p.vaddr + p.memsz < 0xC000_0000
  {
    if p.vaddr < PHYS_BASE && (p.vaddr + p.memsz) % WORD < PHYS_BASE && p.vaddr <= (p.vaddr + p.memsz) % WORD {
      NoWrap(p.vaddr, p.memsz);
    }
  }

  datatype Plan = Plan(filePage: nat, memPage: nat, readBytes: nat, zeroBytes: nat)

  function RoundUp(x: nat): (r: nat) { (x + PGSIZE - 1) % WORD / PGSIZE * PGSIZE }

  /** The arithmetic of `load` for one loadable segment, in 32 bits. */
  function SegmentPlan(p: Phdr): (r: Plan) {
    var pageOffset := p.vaddr % PGSIZE;
    var readBytes := if p.filesz > 0 then (pageOffset + p.filesz) % WORD else 0;
    Plan(p.offset - p.offset % PGSIZE, p.vaddr - pageOffset, readBytes,
         (RoundUp((pageOffset + p.memsz) % WORD) - readBytes) % WORD)
  }

  /** A validated segment meets what `load_segment` asserts; nothing wraps around, the pages are
      user pages other than page 0, and they cover the segment. */
  lemma {:induction false} PlanFits(p: Phdr, fileLength: nat)
    requires Words(p) && ValidateSegment(p, fileLength)
    ensures var plan := SegmentPlan(p);
      && (plan.readBytes + plan.zeroBytes) % PGSIZE == 0 && plan.memPage % PGSIZE == 0 && plan.filePage % PGSIZE == 0
      && plan.memPage + plan.readBytes + plan.zeroBytes <= PHYS_BASE && PGSIZE <= plan.memPage
      && plan.memPage <= p.vaddr && p.vaddr + p.memsz <= plan.memPage + plan.readBytes + plan.zeroBytes
      && p.vaddr < plan.memPage + PGSIZE
      && plan.memPage + plan.readBytes + plan.zeroBytes < p.vaddr + p.memsz + PGSIZE
      && p.vaddr - plan.memPage == p.offset - plan.filePage
      && (p.filesz > 0 ==> plan.filePage + plan.readBytes == p.offset + p.filesz)
      && (p.filesz == 0 ==> plan.readBytes == 0)
  {
    hide RoundUp, SegmentPlan;
    var o := p.vaddr % PGSIZE;
    NoWrap(p.vaddr, p.memsz);
    RoundUpFacts(o + p.memsz);
    PlanWithoutWrap(p);
    RoundedEnd(p.vaddr - o, RoundUp(o + p.memsz), o + p.memsz);
  }

  lemma {:induction false} OffsetInFile(p: Phdr, fileLength: nat)
    requires ValidateSegment(p, fileLength)
    ensures p.offset <= fileLength
  {
  }

  lemma {:induction false} NoWrap(vaddr: nat, memsz: nat)
    requires vaddr < PHYS_BASE && memsz < WORD && (vaddr + memsz) % WORD < PHYS_BASE && vaddr <= (vaddr + memsz) % WORD
    ensures vaddr + memsz < PHYS_BASE
  {
  }

  lemma {:induction false} RoundUpFacts(x: nat)
    requires x + PGSIZE <= WORD
    ensures x <= RoundUp(x) < x + PGSIZE && RoundUp(x) % PGSIZE == 0
  {
  }

  lemma {:induction false} RoundedEnd(page: nat, rounded: nat, x: nat)
    requires page % PGSIZE == 0 && rounded % PGSIZE == 0 && rounded < x + PGSIZE && page + x < PHYS_BASE
    ensures page + rounded <= PHYS_BASE
  {
  }

  lemma {:induction false} PlanWithoutWrap(p: Phdr)
    requires p.vaddr + p.memsz < PHYS_BASE && p.filesz <= p.memsz
    requires var x := p.vaddr % PGSIZE + p.memsz; x <= RoundUp(x) < x + PGSIZE
    ensures var plan, o := SegmentPlan(p), p.vaddr % PGSIZE;
      && plan.readBytes == (if p.filesz > 0 then o + p.filesz else 0)
      && plan.readBytes + plan.zeroBytes == RoundUp(o + p.memsz)
      && plan.memPage == p.vaddr - o && plan.filePage == p.offset - p.offset % PGSIZE
  {
    hide RoundUp;
  }

  /** The memory image that section "Program Header" of the ELF specification asks for: the file's
      bytes at `vaddr`, then zeros up to `memsz`. */
  ghost predicate SegmentInMemory(m: map<nat, Frame>, frames: Memory, p: Phdr, file: seq<byte>) {
    && (p.filesz > 0 ==> p.offset + p.filesz <= |file|)
    && forall i: nat | i < p.memsz ::
      ByteIs(m, frames, Plus(p.vaddr, i), p.writable, if i < p.filesz then file[p.offset + i] else 0)
  }

  function Plus(x: nat, i: nat): nat { x + i }

  lemma {:induction false} PlanMeaning(m: map<nat, Frame>, frames: Memory, p: Phdr, file: seq<byte>)
    requires Words(p) && ValidateSegment(p, |file|)
    requires var plan := SegmentPlan(p);
      && (plan.readBytes > 0 ==> plan.filePage + plan.readBytes <= |file|)
      && PagesLoaded(m, frames, plan.memPage / PGSIZE, (plan.readBytes + plan.zeroBytes) / PGSIZE, p.writable, file,
                     plan.filePage, plan.readBytes)
    ensures SegmentInMemory(m, frames, p, file)
  {
    hide PagesLoaded, ValidateSegment, SegmentPlan, ByteIs;
    PlanFits(p, |file|);
    var plan := SegmentPlan(p);
    var lead := p.vaddr - plan.memPage;
    forall i: nat | i < p.memsz
      ensures ByteIs(m, frames, Plus(p.vaddr, i), p.writable, if i < p.filesz then file[p.offset + i] else 0)
    {
      BytesLoaded(m, frames, plan.memPage / PGSIZE, (plan.readBytes + plan.zeroBytes) / PGSIZE, p.writable, file,
                  plan.filePage, plan.readBytes, lead + i);
      assert plan.memPage / PGSIZE * PGSIZE + (lead + i) == p.vaddr + i;
    }
  }

  // ----- the headers in the file -----

  const EHDR: nat := 52
  const PHDR: nat := 32
  const OFF_LIMIT: nat := 0x8000_0000  // file offsets are signed 32-bit words

  function HalfAt(s: seq<byte>, i: nat): (h: nat)
    requires i + 2 <= |s|
  {
    var a: int, b: int := s[i], s[i + 1];
    a + 256 * b
  }

  /** The conversion of `e_phoff` to an `off_t`. */
  function AsOffset(x: nat): (ofs: int) { if x < OFF_LIMIT then x else x - WORD }

  /** What `load` asks of the executable header. */
  predicate HeaderOk(h: seq<byte>)
    requires |h| == EHDR
  {
    && h[..7] == [0x7F, 0x45, 0x4C, 0x46, 1, 1, 1]
    && HalfAt(h, 16) == 2 && HalfAt(h, 18) == 3 && Inode.WordAt(h, 20) == 1
    && HalfAt(h, 42) == PHDR && HalfAt(h, 44) <= 1024
  }

  /** A program header by what `load` does with it. */
  datatype Segment = Ignored | Unsupported | Loadable(phdr: Phdr)

  function SegmentOf(h: seq<byte>): (segment: Segment)
    requires |h| == PHDR
    ensures segment.Loadable? ==> Words(segment.phdr)
  {
    var ptype, flags := Inode.WordAt(h, 0), Inode.WordAt(h, 24);
    if ptype == 1 then
      Loadable(Phdr(Inode.WordAt(h, 4), Inode.WordAt(h, 8), Inode.WordAt(h, 16), Inode.WordAt(h, 20),
                    flags / 2 % 2 == 1))
    else if ptype == 2 || ptype == 3 || ptype == 5 then Unsupported
    else Ignored
  }

  function SegmentAt(file: seq<byte>, ofs: nat): (segment: Segment)
    requires ofs + PHDR <= |file|
  {
    SegmentOf(file[ofs..ofs + PHDR])
  }

  function PhdrCount(file: seq<byte>): (n: nat)
    requires EHDR <= |file|
  {
    HalfAt(file, 44)
  }

  function PhdrOffset(file: seq<byte>, i: nat): (ofs: nat)
    requires EHDR <= |file|
  {
    Inode.WordAt(file, 28) + PHDR * i
  }

  function EntryPoint(file: seq<byte>): (eip: nat)
    requires EHDR <= |file|
  {
    Inode.WordAt(file, 24)
  }

  // ----- what the fields mean -----

  /** `Elf32_Phdr`, with the flags PF_X and PF_W and the others apart (TIS ELF 1.2, Book I, Program
      Header). */
  datatype Elf32Phdr = Elf32Phdr(ptype: nat, offset: nat, vaddr: nat, paddr: nat, filesz: nat, memsz: nat,
                                 exec: bool, write: bool, otherFlags: nat, align: nat)

  predicate PhdrWords(e: Elf32Phdr) {
    && e.ptype < WORD && e.offset < WORD && e.vaddr < WORD && e.paddr < WORD && e.filesz < WORD && e.memsz < WORD
    && e.otherFlags < WORD / 4 && e.align < WORD
  }

  function Flags(e: Elf32Phdr): nat {
    4 * e.otherFlags + (if e.write then 2 else 0) + if e.exec then 1 else 0
  }

  /** The header as it lies in the file. */
  function PhdrBytes(e: Elf32Phdr): (h: seq<byte>)
    requires PhdrWords(e)
    ensures |h| == PHDR
  {
    Inode.Word(e.ptype) + Inode.Word(e.offset) + Inode.Word(e.vaddr) + Inode.Word(e.paddr) +
    Inode.Word(e.filesz) + Inode.Word(e.memsz) + Inode.Word(Flags(e)) + Inode.Word(e.align)
  }

  /** A program header says what its fields say: a loadable segment (type 1) with its offset, address, sizes
      and write flag; an unsupported one (types 2, 3 and 5); or nothing to do. */
  lemma {:induction false} PhdrReadsBack(e: Elf32Phdr)
    requires PhdrWords(e)
    ensures SegmentOf(PhdrBytes(e)) ==
            match e.ptype {
              case 1 => Loadable(Phdr(e.offset, e.vaddr, e.filesz, e.memsz, e.write))
              case 2 => Unsupported
              case 3 => Unsupported
              case 5 => Unsupported
              case _ => Ignored
            }
  {
    hide Inode.Word, Inode.WordAt;
    var h := PhdrBytes(e);
    assert h[0..4] == Inode.Word(e.ptype) && h[4..8] == Inode.Word(e.offset) && h[8..12] == Inode.Word(e.vaddr);
    assert h[16..20] == Inode.Word(e.filesz) && h[20..24] == Inode.Word(e.memsz) && h[24..28] == Inode.Word(Flags(e));
    Inode.WordReadsBack(h, 0, e.ptype);
    Inode.WordReadsBack(h, 4, e.offset);
    Inode.WordReadsBack(h, 8, e.vaddr);
    Inode.WordReadsBack(h, 16, e.filesz);
    Inode.WordReadsBack(h, 20, e.memsz);
    Inode.WordReadsBack(h, 24, Flags(e));
  }

  /** `Elf32_Ehdr` (TIS ELF 1.2, Book I, ELF Header). */
  datatype Elf32Ehdr = Elf32Ehdr(ident: seq<byte>, etype: nat, machine: nat, version: nat, entry: nat, phoff: nat,
                                 shoff: nat, flags: nat, ehsize: nat, phentsize: nat, phnum: nat, shentsize: nat,
                                 shnum: nat, shstrndx: nat)

  const HALF: nat := 0x1_0000

  predicate EhdrWords(e: Elf32Ehdr) {
    && |e.ident| == 16 && e.etype < HALF && e.machine < HALF && e.version < WORD && e.entry < WORD && e.phoff < WORD
    && e.shoff < WORD && e.flags < WORD && e.ehsize < HALF && e.phentsize < HALF && e.phnum < HALF
    && e.shentsize < HALF && e.shnum < HALF && e.shstrndx < HALF
  }

  function Half(x: nat): (s: seq<byte>)
    requires x < HALF
    ensures |s| == 2
  {
    [x % 256, x / 256]
  }

  function EhdrBytes(e: Elf32Ehdr): (h: seq<byte>)
    requires EhdrWords(e)
    ensures |h| == EHDR
  {
    e.ident + Half(e.etype) + Half(e.machine) + Inode.Word(e.version) + Inode.Word(e.entry) + Inode.Word(e.phoff) +
    Inode.Word(e.shoff) + Inode.Word(e.flags) + Half(e.ehsize) + Half(e.phentsize) + Half(e.phnum) +
    Half(e.shentsize) + Half(e.shnum) + Half(e.shstrndx)
  }

  /** What `load` asks of the executable header's fields: a 32-bit little-endian executable for the 80386,
      current version, with at most 1024 program headers of 32 bytes. */
  predicate EhdrOk(e: Elf32Ehdr)
    requires EhdrWords(e)
  {
    && e.ident[0] == 0x7F && e.ident[1] == 'E' as int && e.ident[2] == 'L' as int && e.ident[3] == 'F' as int
    && e.ident[4] == 1 && e.ident[5] == 1 && e.ident[6] == 1
    && e.etype == 2 && e.machine == 3 && e.version == 1 && e.phentsize == 32 && e.phnum <= 1024
  }

  /** A file that starts with an executable header is accepted exactly when its fields are, and gives back
      the entry point and the place and number of the program headers. */
  lemma {:induction false} EhdrReadsBack(e: Elf32Ehdr, file: seq<byte>)
    requires EhdrWords(e) && EHDR <= |file| && file[..EHDR] == EhdrBytes(e)
    ensures HeaderOk(file[..EHDR]) <==> EhdrOk(e)
    ensures EntryPoint(file) == e.entry && PhdrCount(file) == e.phnum
    ensures forall i: nat :: PhdrOffset(file, i) == e.phoff + PHDR * i
  {
    hide Inode.Word, Inode.WordAt, HalfAt, Half;
    var h := EhdrBytes(e);
    assert h[..7] == e.ident[..7];
    assert h[16..18] == Half(e.etype) && h[18..20] == Half(e.machine) && h[20..24] == Inode.Word(e.version);
    assert h[24..28] == Inode.Word(e.entry) && h[28..32] == Inode.Word(e.phoff);
    assert h[42..44] == Half(e.phentsize) && h[44..46] == Half(e.phnum);
    HalfReadsBack(h, 16, e.etype);
    HalfReadsBack(h, 18, e.machine);
    HalfReadsBack(h, 42, e.phentsize);
    HalfReadsBack(h, 44, e.phnum);
    Inode.WordReadsBack(h, 20, e.version);
    Inode.WordReadsBack(h, 24, e.entry);
    Inode.WordReadsBack(h, 28, e.phoff);
    HeaderInFile(file, h);
    IdentIs(e.ident);
  }

  lemma {:induction false} IdentIs(ident: seq<byte>)
    requires |ident| == 16
    ensures ident[..7] == [0x7F, 0x45, 0x4C, 0x46, 1, 1, 1] <==>
            && ident[0] == 0x7F && ident[1] == 'E' as int && ident[2] == 'L' as int && ident[3] == 'F' as int
            && ident[4] == 1 && ident[5] == 1 && ident[6] == 1
  {
    var s := ident[..7];
    assert s[0] == ident[0] && s[1] == ident[1] && s[2] == ident[2] && s[3] == ident[3];
    assert s[4] == ident[4] && s[5] == ident[5] && s[6] == ident[6];
  }

  lemma {:induction false} HalfReadsBack(s: seq<byte>, i: nat, x: nat)
    requires x < HALF && i + 2 <= |s| && s[i..i + 2] == Half(x)
    ensures HalfAt(s, i) == x
  {
    assert s[i] == s[i..i + 2][0] && s[i + 1] == s[i..i + 2][1];
  }

  /** The first `n` program headers lie in the file. */
  predicate TableFits(file: seq<byte>, n: nat)
    requires EHDR <= |file|
  {
    n > 0 ==> PhdrOffset(file, n) <= |file|
  }

  /** The user pages that a segment takes. */
  ghost function PagesOf(p: Phdr): set<nat> {
    var plan := SegmentPlan(p);
    PageRange(plan.memPage / PGSIZE, (plan.readBytes + plan.zeroBytes) / PGSIZE)
  }

  ghost function PagesFor(segment: Segment): set<nat> {
    if segment.Loadable? then PagesOf(segment.phdr) else {}
  }

  /** They are the pages with a byte of the segment on them. */
  lemma {:induction false} PagesOfMeaning(p: Phdr, fileLength: nat, k: nat)
    requires Words(p) && ValidateSegment(p, fileLength)
    ensures k in PagesOf(p) <==> k * PGSIZE < p.vaddr + p.memsz && p.vaddr < (k + 1) * PGSIZE
  {
    hide SegmentPlan, ValidateSegment, PageRange;
    PlanFits(p, fileLength);
    var plan := SegmentPlan(p);
    var first, n := plan.memPage / PGSIZE, (plan.readBytes + plan.zeroBytes) / PGSIZE;
    assert first * PGSIZE == plan.memPage && n * PGSIZE == plan.readBytes + plan.zeroBytes;
    InPageRange(first, n, k);
  }

  // ----- what memory a set of pages takes -----

  /** The free user and kernel pages, and the directory entries that have tables. */
  datatype Budget = Budget(users: nat, kernels: nat, tables: set<nat>)

  ghost function TablesFor(pages: set<nat>): set<nat> { set k | k in pages :: PdNo(k) }

  /** There is a user page for each page, and a kernel page for each table that is missing. */
  ghost predicate Enough(b: Budget, pages: set<nat>) {
    |pages| <= b.users && |TablesFor(pages) - b.tables| <= b.kernels
  }

  ghost predicate Spent(b: Budget, pages: set<nat>, b': Budget) {
    && b'.users == b.users - |pages| && b'.kernels == b.kernels - |TablesFor(pages) - b.tables|
    && b'.tables == b.tables + TablesFor(pages)
  }

  lemma {:induction false} SpentNothing(b: Budget)
    ensures Spent(b, {}, b)
  {
    assert TablesFor({}) == {} && TablesFor({}) - b.tables == {};
    assert b.tables + TablesFor({}) == b.tables;
  }

  lemma {:induction false} TablesOfBoth(p: set<nat>, q: set<nat>, t: set<nat>)
    ensures TablesFor(p + q) == TablesFor(p) + TablesFor(q)
    ensures |TablesFor(p + q) - t| == |TablesFor(p) - t| + |TablesFor(q) - (t + TablesFor(p))|
  {
    assert TablesFor(p + q) == TablesFor(p) + TablesFor(q);
    CardDisjoint(TablesFor(p) - t, TablesFor(q) - (t + TablesFor(p)));
    assert TablesFor(p + q) - t == (TablesFor(p) - t) + (TablesFor(q) - (t + TablesFor(p)));
  }

  lemma {:induction false} CardDisjoint(a: set<nat>, b: set<nat>)
    requires a !! b
    ensures |a + b| == |a| + |b|
  {
  }

  lemma {:induction false} CardLess(a: set<nat>, b: set<nat>)
    requires a <= b
    ensures |a| <= |b|
  {
    assert b == a + (b - a);
    CardDisjoint(a, b - a);
  }

  lemma {:induction false} SpentBoth(b: Budget, p: set<nat>, b1: Budget, q: set<nat>, b2: Budget)
    requires Spent(b, p, b1) && Spent(b1, q, b2) && p !! q
    ensures Spent(b, p + q, b2)
  {
    hide TablesFor;
    TablesOfBoth(p, q, b.tables);
    CardDisjoint(p, q);
  }

  /** What does not suffice later did not suffice from the start. */
  lemma {:induction false} NotEnough(b: Budget, p: set<nat>, b1: Budget, q: set<nat>, all: set<nat>)
    requires Spent(b, p, b1) && !Enough(b1, q) && p !! q && p + q <= all
    ensures !Enough(b, all)
  {
    hide TablesFor;
    TablesOfBoth(p, q, b.tables);
    CardDisjoint(p, q);
    CardLess(p + q, all);
    var rest := all - (p + q);
    assert all == (p + q) + rest;
    TablesOfBoth(p + q, rest, b.tables);
  }

  /** The segment is valid, its bytes are in the file, and its pages are not taken. */
  ghost predicate SegmentFits(p: Phdr, file: seq<byte>, taken: set<nat>) {
    ValidateSegment(p, |file|) && (p.filesz > 0 ==> p.offset + p.filesz <= |file|) && taken !! PagesOf(p)
  }

  ghost predicate Accepted(segment: Segment, file: seq<byte>, taken: set<nat>) {
    !segment.Unsupported? && (segment.Loadable? ==> SegmentFits(segment.phdr, file, taken))
  }

  /** The pages of the first `n` segments. */
  ghost function PagesBefore(file: seq<byte>, n: nat): set<nat>
    requires EHDR <= |file| && TableFits(file, n)
  {
    if n == 0 then {} else PagesBefore(file, n - 1) + PagesFor(SegmentAt(file, PhdrOffset(file, n - 1)))
  }

  /** Each of the first `n` segments fits beside what was there and the segments before it. */
  ghost predicate AllAccepted(file: seq<byte>, taken: set<nat>, n: nat)
    requires EHDR <= |file| && TableFits(file, n)
  {
    n > 0 ==>
      && AllAccepted(file, taken, n - 1)
      && Accepted(SegmentAt(file, PhdrOffset(file, n - 1)), file, taken + PagesBefore(file, n - 1))
  }

  /** What the file must be like to be loaded into an address space in which some pages are taken. */
  ghost predicate FileFits(file: seq<byte>, taken: set<nat>) {
    && EHDR <= |file| && HeaderOk(file[..EHDR]) && TableFits(file, PhdrCount(file))
    && AllAccepted(file, taken, PhdrCount(file))
    && USER_PAGES - 1 !in taken + PagesBefore(file, PhdrCount(file))
  }

  /** The pages that loading the file takes: those of its segments and the stack. */
  ghost function NewPages(file: seq<byte>): set<nat> {
    if EHDR <= |file| && TableFits(file, PhdrCount(file))
    then PagesBefore(file, PhdrCount(file)) + {USER_PAGES - 1} else {}
  }

  ghost predicate ShortRead(pages: set<nat>, limit: nat -> nat) {
    exists k :: k in pages && limit(k) < PGSIZE
  }

  /** Some read of the file delivers less than its bytes. */
  ghost predicate DiskFails(file: seq<byte>, ehdrLimit: nat, headerLimit: nat -> nat, limits: nat -> nat -> nat) {
    ehdrLimit < EHDR
    || (EHDR <= |file| && TableFits(file, PhdrCount(file)) &&
        exists i: nat :: i < PhdrCount(file) && PhdrFails(file, i, headerLimit(i), limits(i)))
  }

  ghost predicate PhdrFails(file: seq<byte>, i: nat, headerLimit: nat, limit: nat -> nat)
    requires EHDR <= |file| && PhdrOffset(file, i) + PHDR <= |file|
  {
    headerLimit < PHDR || ShortRead(PagesFor(SegmentAt(file, PhdrOffset(file, i))), limit)
  }

  // ----- the process -----

  /** `file_read`, which may deliver less than asked for: never beyond the end of the file, and
      possibly less still when the disk or memory fails it. */
  method FileRead(file: seq<byte>, pos: nat, n: nat, limit: nat) returns (got: seq<byte>)
    ensures |got| <= n && (got != [] ==> pos + |got| <= |file| && got == file[pos..pos + |got|])
    ensures |got| == n <==> n == 0 || (pos + n <= |file| && n <= limit)
  {
    if pos >= |file| { return []; }
    var size := if |file| - pos < n then |file| - pos else n;
    if limit < size { size := limit; }
    return file[pos..pos + size];
  }

  class Process {
    const dir: PageDir
    var frames: Memory
    var userPages: seq<Phys>

    ghost predicate Valid()
      reads this, dir, dir.pd
    {
      && dir.Valid() && Backed(dir.Mapping(), frames)
      && Distinct(userPages) && forall i | 0 <= i < |userPages| :: userPages[i] !in frames
    }

    constructor (dir: PageDir, userPages: seq<Phys>)
      requires dir.Valid() && dir.Mapping() == map[] && Distinct(userPages)
      ensures Valid() && this.dir == dir && frames == map[] && this.userPages == userPages
    {
      this.dir, this.userPages := dir, userPages;
      frames := map[];
    }

    ghost function Now(): Space
      requires dir.Valid()
      reads this, dir, dir.pd
    {
      Space(dir.Mapping(), frames, Left())
    }

    /** The memory that is left for user pages and page tables. */
    ghost function Left(): Budget
      reads this, dir, dir.pd
    {
      Budget(|userPages|, |dir.kernelPages|, dir.Tabled())
    }

    /** `install_page`: the page is mapped unless something is mapped there already or memory for
        a page table is missing. */
    method InstallPage(k: nat, page: Phys, writable: bool) returns (ok: bool)
      requires dir.Valid() && k < USER_PAGES && PageAligned(page)
      modifies dir, dir.pd
      ensures dir.Valid()
      ensures ok <==> k !in old(dir.Mapping()) && (PdNo(k) in old(dir.Tabled()) || old(dir.kernelPages) != [])
      ensures dir.Mapping() == if ok then old(dir.Mapping())[k := Frame(page, writable)] else old(dir.Mapping())
      ensures ok ==> dir.Tabled() == old(dir.Tabled()) + {PdNo(k)}
      ensures ok ==> |dir.kernelPages| == old(|dir.kernelPages|) - if PdNo(k) in old(dir.Tabled()) then 0 else 1
      ensures !ok ==> dir.Tabled() == old(dir.Tabled()) && dir.kernelPages == old(dir.kernelPages)
    {
      hide View, Distinct, WellFormed, PageAligned, PdNo;
      var there := dir.GetPage(k * PGSIZE);
      if there.Some? { return false; }
      ok := dir.SetPage(k, page, writable);
    }

    /** One turn of the loop of `load_segment`. */
    method LoadPage(k: nat, file: seq<byte>, pos: nat, pageReadBytes: nat, writable: bool, limit: nat)
        returns (ok: bool)
      requires Valid() && k < USER_PAGES && pageReadBytes <= PGSIZE
      modifies this, dir, dir.pd
      ensures Valid() && Kept(old(dir.Mapping()), old(frames), dir.Mapping(), frames)
      ensures ok ==> k !in old(dir.Mapping()) && dir.Mapping().Keys == old(dir.Mapping()).Keys + {k}
      ensures ok ==> (pageReadBytes > 0 ==> pos + pageReadBytes <= |file|)
      ensures ok ==> PageIs(dir.Mapping(), frames, k, writable,
                            (if pageReadBytes == 0 then [] else file[pos..pos + pageReadBytes]) +
                            Zeros(PGSIZE - pageReadBytes))
      ensures ok <==> && k !in old(dir.Mapping()) && Enough(old(Left()), {k})
                      && (pageReadBytes > 0 ==> pos + pageReadBytes <= |file| && pageReadBytes <= limit)
      ensures ok ==> old(userPages) != [] && userPages == old(userPages)[1..] && Spent(old(Left()), {k}, Left())
      ensures !ok ==> dir.Mapping() == old(dir.Mapping()) && userPages == old(userPages) && Left() == old(Left())
    {
      hide View, WellFormed, PdNo, PageAligned, Enough, Spent, Kept, PageIs, Zeros, PageDir.Tabled, PageDir.Valid;
      OnePage(Left(), k);
      KeptSame(dir.Mapping(), frames);
      if userPages == [] { return false; }
      var kpage := userPages[0];
      userPages := userPages[1..];
      var got := FileRead(file, pos, pageReadBytes, limit);
      if |got| != pageReadBytes {
        userPages := [kpage] + userPages;
        return false;
      }
      var bytes := got + Zeros(PGSIZE - pageReadBytes);
      ghost var m := dir.Mapping();
      ok := InstallPage(k, kpage, writable);
      if !ok {
        userPages := [kpage] + userPages;
        return false;
      }
      Installed(m, frames, k, Frame(kpage, writable), bytes);
      frames := frames[kpage := bytes];
    }

    /** `load_segment`. */
    method LoadSegment(file: seq<byte>, ofs: nat, upage: nat, readBytes: nat, zeroBytes: nat, writable: bool,
                       limit: nat -> nat)
        returns (ok: bool)
      requires Valid() && (readBytes + zeroBytes) % PGSIZE == 0 && upage * PGSIZE + readBytes + zeroBytes <= PHYS_BASE
      modifies this, dir, dir.pd
      ensures Valid() && Kept(old(dir.Mapping()), old(frames), dir.Mapping(), frames)
      ensures ok && readBytes > 0 ==> ofs + readBytes <= |file|
      ensures ok ==>
              PagesLoaded(dir.Mapping(), frames, upage, (readBytes + zeroBytes) / PGSIZE, writable, file, ofs,
                          readBytes)
      ensures ok ==> dir.Mapping().Keys == old(dir.Mapping()).Keys + PageRange(upage, (readBytes + zeroBytes) / PGSIZE)
      ensures ok ==> old(dir.Mapping()).Keys !! PageRange(upage, (readBytes + zeroBytes) / PGSIZE)
      ensures ok ==> Spent(old(Left()), PageRange(upage, (readBytes + zeroBytes) / PGSIZE), Left())
      ensures !ok ==> !Enough(old(Left()), PageRange(upage, (readBytes + zeroBytes) / PGSIZE))
                      || ofs + readBytes > |file|
                      || ShortRead(PageRange(upage, (readBytes + zeroBytes) / PGSIZE), limit)
                      || !(old(dir.Mapping()).Keys !! PageRange(upage, (readBytes + zeroBytes) / PGSIZE))
      ensures exists n: nat ::
                && Taken(old(userPages), userPages, n) && n <= (readBytes + zeroBytes) / PGSIZE
                && dir.Mapping().Keys == old(dir.Mapping()).Keys + PageRange(upage, n)
    {
      hide View, WellFormed, PdNo, PageAligned, Distinct, Backed, PagesLoaded, Kept, SegmentPage, PageIs, Zeros;
      hide PageRange, Enough, Spent, ShortRead, UpTo, PageDir.Tabled, PageDir.Valid;
      ghost var n, s0 := (readBytes + zeroBytes) / PGSIZE, Now();
      var read: nat, zero: nat, page, pos := readBytes, zeroBytes, upage, ofs;
      ghost var i: nat := 0;
      NothingLoaded(s0, upage, writable, file, ofs, readBytes);
      while read > 0 || zero > 0
        invariant i <= n && page == upage + i && read + zero == (n - i) * PGSIZE
        invariant read == (if i * PGSIZE < readBytes then readBytes - i * PGSIZE else 0)
        invariant pos == ofs + (readBytes - read)
        invariant i > 0 && readBytes > 0 ==> pos <= |file|
        invariant Valid() && UpTo(s0, Now(), upage, i, writable, file, ofs, readBytes)
        invariant Taken(old(userPages), userPages, i)
        decreases n - i
      {
        var pageReadBytes := if read < PGSIZE then read else PGSIZE;
        var pageZeroBytes := PGSIZE - pageReadBytes;
        ghost var s1 := Now();
        ok := LoadPage(page, file, pos, pageReadBytes, writable, limit(page));
        UpToKept(s0, s1, Now(), upage, i, writable, file, ofs, readBytes);
        if !ok {
          if pos + pageReadBytes <= |file| {
            PageFails(s0, s1, upage, i, n, writable, file, ofs, readBytes, limit);
          }
          return false;
        }
        PageIsSegment(file, ofs, readBytes, i, pos, pageReadBytes);
        OneMorePage(s0, s1, Now(), upage, i, writable, file, ofs, readBytes);
        read := read - pageReadBytes;
        zero := zero - pageZeroBytes;
        page := page + 1;
        pos := pos + pageReadBytes;
        i := i + 1;
      }
      UpToMeans(s0, Now(), upage, n, writable, file, ofs, readBytes);
      return true;
    }

    /** The PT_LOAD case of `load`. */
    method LoadPhdr(p: Phdr, file: seq<byte>, limit: nat -> nat) returns (ok: bool)
      requires Valid() && Words(p)
      modifies this, dir, dir.pd
      ensures Valid() && Kept(old(dir.Mapping()), old(frames), dir.Mapping(), frames)
      ensures ok ==> SegmentFits(p, file, old(dir.Mapping()).Keys) && SegmentInMemory(dir.Mapping(), frames, p, file)
      ensures ok ==> dir.Mapping().Keys == old(dir.Mapping()).Keys + PagesOf(p)
      ensures ok ==> Spent(old(Left()), PagesOf(p), Left())
      ensures !ok ==> !SegmentFits(p, file, old(dir.Mapping()).Keys) || !Enough(old(Left()), PagesOf(p))
                      || ShortRead(PagesOf(p), limit)
      ensures !ValidateSegment(p, |file|) ==> dir.Mapping() == old(dir.Mapping()) && userPages == old(userPages)
    {
      hide View, WellFormed, PdNo, PageAligned, Distinct, Backed, PagesLoaded, Kept, SegmentInMemory, SegmentPlan;
      hide ValidateSegment, PageRange, Enough, Spent;
      KeptSame(dir.Mapping(), frames);
      if !ValidateSegment(p, |file|) { return false; }
      PlanFits(p, |file|);
      var plan := SegmentPlan(p);
      ok := LoadSegment(file, plan.filePage, plan.memPage / PGSIZE, plan.readBytes, plan.zeroBytes, p.writable, limit);
      if ok { PlanMeaning(dir.Mapping(), frames, p, file); } else { OffsetInFile(p, |file|); }
    }

    /** `setup_stack`: a zeroed page at the top of user memory. */
    method SetupStack() returns (ok: bool)
      requires Valid()
      modifies this, dir, dir.pd
      ensures Valid() && Kept(old(dir.Mapping()), old(frames), dir.Mapping(), frames)
      ensures ok ==> PageIs(dir.Mapping(), frames, USER_PAGES - 1, true, Zeros(PGSIZE))
      ensures ok ==> dir.Mapping().Keys == old(dir.Mapping()).Keys + {USER_PAGES - 1}
      ensures ok ==> USER_PAGES - 1 !in old(dir.Mapping())
      ensures ok <==> USER_PAGES - 1 !in old(dir.Mapping()) && Enough(old(Left()), {USER_PAGES - 1})
      ensures ok ==> Spent(old(Left()), {USER_PAGES - 1}, Left())
      ensures !ok ==> dir.Mapping() == old(dir.Mapping())
    {
      hide View, WellFormed, PdNo, PageAligned, Distinct, Backed, Kept, Zeros, PageIs, Enough, Spent;
      ok := LoadPage(USER_PAGES - 1, [], 0, 0, true, 0);
      assert [] + Zeros(PGSIZE) == Zeros(PGSIZE);
    }

    /** One turn of the loop of `load` over the program headers. */
    method LoadHeader(file: seq<byte>, fileOfs: int, headerLimit: nat, limit: nat -> nat) returns (ok: bool)
      requires Valid()
      modifies this, dir, dir.pd
      ensures Valid() && Kept(old(dir.Mapping()), old(frames), dir.Mapping(), frames)
      ensures ok ==> 0 <= fileOfs && fileOfs + PHDR <= |file|
      ensures ok ==> InMemory(dir.Mapping(), frames, SegmentAt(file, fileOfs), file)
      ensures ok ==> Accepted(SegmentAt(file, fileOfs), file, old(dir.Mapping()).Keys)
      ensures ok ==> dir.Mapping().Keys == old(dir.Mapping()).Keys + PagesFor(SegmentAt(file, fileOfs))
      ensures ok ==> Spent(old(Left()), PagesFor(SegmentAt(file, fileOfs)), Left())
      ensures !ok ==> fileOfs < 0 || fileOfs + PHDR > |file| || headerLimit < PHDR
                      || !Enough(old(Left()), PagesFor(SegmentAt(file, fileOfs)))
                      || !Accepted(SegmentAt(file, fileOfs), file, old(dir.Mapping()).Keys)
                      || ShortRead(PagesFor(SegmentAt(file, fileOfs)), limit)
    {
      hide View, WellFormed, PdNo, PageAligned, Distinct, Backed, Kept, SegmentInMemory, SegmentFits, PagesOf;
      hide Inode.WordAt, ShortRead, Enough, Spent;
      KeptSame(dir.Mapping(), frames);
      SpentNothing(Left());
      if fileOfs < 0 || fileOfs > |file| { return false; }
      var header := FileRead(file, fileOfs, PHDR, headerLimit);
      if |header| != PHDR { return false; }
      match SegmentOf(header) {
        case Ignored => return true;
        case Unsupported => return false;
        case Loadable(p) => ok := LoadPhdr(p, file, limit);
      }
    }

    /** `load`: the headers are read from the file's bytes, every loadable segment is put in memory,
        and the stack is set up.  Unless the disk fails it, it succeeds exactly for files that fit and for
        which there is enough memory; then every segment is in memory, whatever was loaded after it, and
        nothing else is new. */
    method Load(file: seq<byte>, ehdrLimit: nat, headerLimit: nat -> nat, limits: nat -> nat -> nat)
        returns (ok: bool, eip: nat)
      requires Valid() && |file| < OFF_LIMIT
      modifies this, dir, dir.pd
      ensures Valid() && Kept(old(dir.Mapping()), old(frames), dir.Mapping(), frames)
      ensures ok ==> FileFits(file, old(dir.Mapping()).Keys) && eip == EntryPoint(file)
      ensures ok ==> AllInMemory(dir.Mapping(), frames, file, PhdrCount(file))
      ensures ok ==> PageIs(dir.Mapping(), frames, USER_PAGES - 1, true, Zeros(PGSIZE))
      ensures ok ==> dir.Mapping().Keys ==
                     old(dir.Mapping()).Keys + PagesBefore(file, PhdrCount(file)) + {USER_PAGES - 1}
      ensures ok ==> Spent(old(Left()), NewPages(file), Left())
      ensures !ok ==> !FileFits(file, old(dir.Mapping()).Keys) || !Enough(old(Left()), NewPages(file))
                      || DiskFails(file, ehdrLimit, headerLimit, limits)
    {
      hide View, WellFormed, PdNo, PageAligned, Distinct, Backed, Kept, PageIs, Zeros, HeaderOk, AllInMemory, InMemory;
      hide Inode.WordAt, SegmentAt, PagesFor, Accepted, ShortRead, PagesBefore, AllAccepted, DiskFails, Enough, Spent;
      hide PageDir.Tabled, PageDir.Valid, FileFits, NewPages, Segments;
      eip := 0;
      ghost var s0 := Now();
      KeptSame(s0.mapping, s0.frames);
      var ehdr := FileRead(file, 0, EHDR, ehdrLimit);
      if |ehdr| != EHDR || !HeaderOk(ehdr) {
        if ehdrLimit < EHDR {
          ShortHeader(file, ehdrLimit, headerLimit, limits);
        } else {
          NoHeader(file, s0.mapping.Keys);
        }
        return false, eip;
      }
      HeaderInFile(file, ehdr);
      var fileOfs: int := AsOffset(Inode.WordAt(ehdr, 28));
      NoSegments(s0, file);
      for i := 0 to HalfAt(ehdr, 44)
        invariant if i == 0 then fileOfs == AsOffset(PhdrOffset(file, 0)) else fileOfs == PhdrOffset(file, i) <= |file|
        invariant TableFits(file, i) && Valid() && Segments(s0, Now(), file, i)
      {
        ghost var s1 := Now();
        SegmentsMean(s0, s1, file, i);
        ok := LoadHeader(file, fileOfs, headerLimit(i), limits(i));
        KeptTrans(s0.mapping, s0.frames, s1.mapping, s1.frames, dir.Mapping(), frames);
        if !ok {
          HeaderFails(file, s0, s1, i, ehdrLimit, headerLimit, limits);
          return;
        }
        OneMoreSegment(s0, s1, Now(), file, i);
        fileOfs := fileOfs + PHDR;
      }
      ghost var s1 := Now();
      SegmentsMean(s0, s1, file, PhdrCount(file));
      ok := SetupStack();
      KeptTrans(s0.mapping, s0.frames, s1.mapping, s1.frames, dir.Mapping(), frames);
      eip := Inode.WordAt(ehdr, 24);
      HeadersRead(file, s0.mapping.Keys);
      if ok {
        StillInMemory(s1.mapping, s1.frames, dir.Mapping(), frames, file, PhdrCount(file));
        SpentBoth(s0.left, PagesBefore(file, PhdrCount(file)), s1.left, {USER_PAGES - 1}, Left());
      } else if USER_PAGES - 1 !in s1.mapping {
        StackFails(file, s0.left, s1.left);
      }
    }
  }

  function Zeros(n: nat): (s: seq<byte>)
    ensures |s| == n && forall i | 0 <= i < n :: s[i] == 0
  {
    seq<byte>(n, _ => 0)
  }

  predicate InRange(upage: nat, n: nat, k: nat) { upage <= k < upage + n }

  ghost function PageRange(upage: nat, n: nat): set<nat> {
    set k: nat {:trigger InRange(upage, n, k)} | upage <= k < upage + n && InRange(upage, n, k)
  }

  lemma {:induction false} PageRangeGrows(upage: nat, n: nat)
    ensures PageRange(upage, n + 1) == PageRange(upage, n) + {upage + n} && upage + n !in PageRange(upage, n)
  {
  }

  lemma {:induction false} RangeInRange(upage: nat, i: nat, n: nat)
    requires i <= n
    ensures PageRange(upage, i) <= PageRange(upage, n)
  {
    forall k | k in PageRange(upage, i) ensures k in PageRange(upage, n) {
      InPageRange(upage, i, k);
      InPageRange(upage, n, k);
    }
  }

  /** When one turn of the loop of `load_segment` fails. */
  lemma {:induction false} PageFails(s: Space, s1: Space, upage: nat, i: nat, n: nat, writable: bool, file: seq<byte>,
                                     ofs: nat, readBytes: nat, limit: nat -> nat)
    requires i < n && UpTo(s, s1, upage, i, writable, file, ofs, readBytes)
    requires !Enough(s1.left, {upage + i}) || upage + i in s1.mapping || limit(upage + i) < PGSIZE
    ensures var pages := PageRange(upage, n);
            !Enough(s.left, pages) || !(s.mapping.Keys !! pages) || ShortRead(pages, limit)
  {
    hide PageRange, Enough, Spent, Kept, PagesLoaded;
    InPageRange(upage, n, upage + i);
    RangeInRange(upage, i, n);
    PageRangeGrows(upage, i);
    if !Enough(s1.left, {upage + i}) {
      NotEnough(s.left, PageRange(upage, i), s1.left, {upage + i}, PageRange(upage, n));
    }
  }

  /** What one page takes. */
  lemma {:induction false} OnePage(b: Budget, k: nat)
    ensures Enough(b, {k}) <==> b.users > 0 && (PdNo(k) in b.tables || b.kernels > 0)
    ensures forall b': Budget :: Spent(b, {k}, b') <==>
              && b'.users == b.users - 1 && b'.tables == b.tables + {PdNo(k)}
              && b'.kernels == b.kernels - if PdNo(k) in b.tables then 0 else 1
  {
    hide PdNo;
    assert TablesFor({k}) == {PdNo(k)};
    assert {PdNo(k)} - b.tables == if PdNo(k) in b.tables then {} else {PdNo(k)};
  }

  lemma {:induction false} KeptSame(m: map<nat, Frame>, f: Memory)
    requires Backed(m, f)
    ensures Kept(m, f, m, f)
  {
  }

  lemma {:induction false} Installed(m: map<nat, Frame>, f: Memory, k: nat, frame: Frame, bytes: seq<byte>)
    requires Backed(m, f) && k !in m && k < USER_PAGES && frame.page !in f && |bytes| == PGSIZE
    ensures Backed(m[k := frame], f[frame.page := bytes]) && Kept(m, f, m[k := frame], f[frame.page := bytes])
    ensures PageIs(m[k := frame], f[frame.page := bytes], k, frame.writable, bytes)
  {
  }

  /** The bytes read for a page and the zeros behind them are the segment's bytes. */
  lemma {:induction false} PageIsSegment(file: seq<byte>, ofs: nat, readBytes: nat, i: nat, pos: nat, n: nat)
    requires n <= PGSIZE && (n > 0 ==> pos == ofs + i * PGSIZE && pos + n <= |file|)
    requires n ==
             if i * PGSIZE + PGSIZE <= readBytes then PGSIZE
             else if i * PGSIZE < readBytes then readBytes - i * PGSIZE else 0
    ensures (if n == 0 then [] else file[pos..pos + n]) + Zeros(PGSIZE - n) == SegmentPage(file, ofs, readBytes, i)
  {
    hide Zeros;
    var lhs := (if n == 0 then [] else file[pos..pos + n]) + Zeros(PGSIZE - n);
    var rhs := SegmentPage(file, ofs, readBytes, i);
    assert |lhs| == |rhs| == PGSIZE;
    forall j | 0 <= j < PGSIZE ensures lhs[j] == rhs[j] {
      assert rhs[j] == SegmentByte(file, ofs, readBytes, i * PGSIZE + j);
      if j < n {
        assert lhs[j] == file[pos + j];
        assert ofs + (i * PGSIZE + j) == pos + j;
        assert i * PGSIZE + j < readBytes;
      } else {
        assert lhs[j] == 0;
        assert i * PGSIZE + j >= readBytes;
      }
    }
  }

  /** An address space: what is mapped, the contents, and the memory left. */
  datatype Space = Space(mapping: map<nat, Frame>, frames: Memory, left: Budget)

  /** The first `i` pages of a segment are loaded, and nothing else has happened. */
  ghost predicate UpTo(s: Space, s': Space, upage: nat, i: nat, writable: bool, file: seq<byte>, ofs: nat,
                       readBytes: nat)
  {
    && Kept(s.mapping, s.frames, s'.mapping, s'.frames)
    && PagesLoaded(s'.mapping, s'.frames, upage, i, writable, file, ofs, readBytes)
    && s'.mapping.Keys == s.mapping.Keys + PageRange(upage, i) && s.mapping.Keys !! PageRange(upage, i)
    && Spent(s.left, PageRange(upage, i), s'.left)
  }

  lemma {:induction false} NothingLoaded(s: Space, upage: nat, writable: bool, file: seq<byte>, ofs: nat,
                                         readBytes: nat)
    requires Backed(s.mapping, s.frames)
    ensures UpTo(s, s, upage, 0, writable, file, ofs, readBytes)
  {
    hide Spent, PageIs;
    KeptSame(s.mapping, s.frames);
    SpentNothing(s.left);
    assert PageRange(upage, 0) == {};
  }

  lemma {:induction false} UpToMeans(s: Space, s': Space, upage: nat, i: nat, writable: bool, file: seq<byte>,
                                     ofs: nat, readBytes: nat)
    requires UpTo(s, s', upage, i, writable, file, ofs, readBytes)
    ensures Kept(s.mapping, s.frames, s'.mapping, s'.frames)
    ensures PagesLoaded(s'.mapping, s'.frames, upage, i, writable, file, ofs, readBytes)
    ensures s'.mapping.Keys == s.mapping.Keys + PageRange(upage, i) && s.mapping.Keys !! PageRange(upage, i)
    ensures Spent(s.left, PageRange(upage, i), s'.left)
  {
    hide Spent, PageIs, PageRange, Kept, PagesLoaded;
  }

  lemma {:induction false} UpToKept(s: Space, s1: Space, s2: Space, upage: nat, i: nat, writable: bool,
                                    file: seq<byte>, ofs: nat, readBytes: nat)
    requires UpTo(s, s1, upage, i, writable, file, ofs, readBytes)
    requires Kept(s1.mapping, s1.frames, s2.mapping, s2.frames)
    ensures Kept(s.mapping, s.frames, s2.mapping, s2.frames)
    ensures s1.mapping.Keys == s.mapping.Keys + PageRange(upage, i)
  {
    hide Spent, PageIs, PageRange, Kept, PagesLoaded;
    KeptTrans(s.mapping, s.frames, s1.mapping, s1.frames, s2.mapping, s2.frames);
  }

  lemma {:induction false} OneMorePage(s: Space, s1: Space, s2: Space, upage: nat, i: nat, writable: bool,
                                       file: seq<byte>, ofs: nat, readBytes: nat)
    requires UpTo(s, s1, upage, i, writable, file, ofs, readBytes)
    requires Kept(s1.mapping, s1.frames, s2.mapping, s2.frames) && upage + i !in s1.mapping
    requires s2.mapping.Keys == s1.mapping.Keys + {upage + i} && Spent(s1.left, {upage + i}, s2.left)
    requires PageIs(s2.mapping, s2.frames, upage + i, writable, SegmentPage(file, ofs, readBytes, i))
    ensures UpTo(s, s2, upage, i + 1, writable, file, ofs, readBytes)
  {
    hide Spent, PageIs, PageRange, Kept, PagesLoaded, SegmentPage;
    KeptTrans(s.mapping, s.frames, s1.mapping, s1.frames, s2.mapping, s2.frames);
    StillLoaded(s1.mapping, s1.frames, s2.mapping, s2.frames, upage, i, writable, file, ofs, readBytes);
    PagesGrow(s2.mapping, s2.frames, upage, i, writable, file, ofs, readBytes);
    PageRangeGrows(upage, i);
    SpentBoth(s.left, PageRange(upage, i), s1.left, {upage + i}, s2.left);
  }

  lemma {:induction false} PagesGrow(m: map<nat, Frame>, f: Memory, upage: nat, i: nat, writable: bool, file: seq<byte>,
                                     ofs: nat, readBytes: nat)
    requires PagesLoaded(m, f, upage, i, writable, file, ofs, readBytes)
    requires PageIs(m, f, upage + i, writable, SegmentPage(file, ofs, readBytes, i))
    ensures PagesLoaded(m, f, upage, i + 1, writable, file, ofs, readBytes)
  {
    hide SegmentPage, PageIs;
  }

  lemma {:induction false} InPageRange(upage: nat, n: nat, k: nat)
    ensures k in PageRange(upage, n) <==> upage <= k < upage + n
  {
  }

  /** The first `n` pages of the pool were taken, and no others. */
  ghost predicate Taken(pages: seq<Phys>, rest: seq<Phys>, n: nat) {
    n <= |pages| && rest == pages[n..]
  }

  ghost predicate InMemory(m: map<nat, Frame>, f: Memory, segment: Segment, file: seq<byte>) {
    segment.Loadable? ==> SegmentInMemory(m, f, segment.phdr, file)
  }

  /** The loadable ones of the first `n` segments are in memory. */
  ghost predicate AllInMemory(m: map<nat, Frame>, f: Memory, file: seq<byte>, n: nat)
    requires EHDR <= |file| && TableFits(file, n)
  {
    forall i: nat | i < n :: InMemory(m, f, SegmentAt(file, PhdrOffset(file, i)), file)
  }

  /** Later loading leaves what was loaded in memory. */
  lemma {:induction false} StillInMemory(m: map<nat, Frame>, f: Memory, m': map<nat, Frame>, f': Memory,
                                         file: seq<byte>, n: nat)
    requires Kept(m, f, m', f') && EHDR <= |file| && TableFits(file, n) && AllInMemory(m, f, file, n)
    ensures AllInMemory(m', f', file, n)
  {
    hide Kept, SegmentInMemory, SegmentAt, Inode.WordAt;
    forall i: nat | i < n ensures InMemory(m', f', SegmentAt(file, PhdrOffset(file, i)), file) {
      var segment := SegmentAt(file, PhdrOffset(file, i));
      assert InMemory(m, f, segment, file);
      if segment.Loadable? { SegmentStays(m, f, m', f', segment.phdr, file); }
    }
  }

  /** The first `n` segments are loaded, and nothing else has happened. */
  ghost predicate Segments(s: Space, s': Space, file: seq<byte>, n: nat)
    requires EHDR <= |file| && TableFits(file, n)
  {
    && Kept(s.mapping, s.frames, s'.mapping, s'.frames)
    && AllAccepted(file, s.mapping.Keys, n) && AllInMemory(s'.mapping, s'.frames, file, n)
    && s'.mapping.Keys == s.mapping.Keys + PagesBefore(file, n) && Spent(s.left, PagesBefore(file, n), s'.left)
  }

  lemma {:induction false} NoSegments(s: Space, file: seq<byte>)
    requires EHDR <= |file| && Backed(s.mapping, s.frames)
    ensures Segments(s, s, file, 0)
  {
    hide Spent;
    KeptSame(s.mapping, s.frames);
    SpentNothing(s.left);
    assert PagesBefore(file, 0) == {};
  }

  lemma {:induction false} SegmentsMean(s: Space, s': Space, file: seq<byte>, n: nat)
    requires EHDR <= |file| && TableFits(file, n) && Segments(s, s', file, n)
    ensures Kept(s.mapping, s.frames, s'.mapping, s'.frames)
    ensures AllAccepted(file, s.mapping.Keys, n) && AllInMemory(s'.mapping, s'.frames, file, n)
    ensures s'.mapping.Keys == s.mapping.Keys + PagesBefore(file, n) && Spent(s.left, PagesBefore(file, n), s'.left)
  {
    hide Spent, Kept, AllAccepted, AllInMemory, PagesBefore;
  }

  lemma {:induction false} OneMoreSegment(s: Space, s1: Space, s2: Space, file: seq<byte>, n: nat)
    requires EHDR <= |file| && TableFits(file, n + 1) && TableFits(file, n) && Segments(s, s1, file, n)
    requires Kept(s1.mapping, s1.frames, s2.mapping, s2.frames)
    requires var segment := SegmentAt(file, PhdrOffset(file, n));
      && Accepted(segment, file, s1.mapping.Keys) && InMemory(s2.mapping, s2.frames, segment, file)
      && s2.mapping.Keys == s1.mapping.Keys + PagesFor(segment) && Spent(s1.left, PagesFor(segment), s2.left)
    ensures Segments(s, s2, file, n + 1)
  {
    hide SegmentAt, Inode.WordAt, Accepted, PagesFor, Kept, Spent, AllInMemory, InMemory, AllAccepted, PagesBefore;
    KeptTrans(s.mapping, s.frames, s1.mapping, s1.frames, s2.mapping, s2.frames);
    OneMoreAccepted(file, s.mapping.Keys, n);
    StillInMemory(s1.mapping, s1.frames, s2.mapping, s2.frames, file, n);
    OneMoreInMemory(s2.mapping, s2.frames, file, n);
    SegmentApart(file, s.mapping.Keys, n);
    SpentBoth(s.left, PagesBefore(file, n), s1.left, PagesFor(SegmentAt(file, PhdrOffset(file, n))), s2.left);
  }

  lemma {:induction false} OneMoreInMemory(m: map<nat, Frame>, f: Memory, file: seq<byte>, n: nat)
    requires EHDR <= |file| && TableFits(file, n + 1) && AllInMemory(m, f, file, n)
    requires InMemory(m, f, SegmentAt(file, PhdrOffset(file, n)), file)
    ensures AllInMemory(m, f, file, n + 1)
  {
    hide InMemory, SegmentAt, Inode.WordAt;
  }

  lemma {:induction false} OneMoreAccepted(file: seq<byte>, taken: set<nat>, n: nat)
    requires EHDR <= |file| && TableFits(file, n + 1) && AllAccepted(file, taken, n)
    requires Accepted(SegmentAt(file, PhdrOffset(file, n)), file, taken + PagesBefore(file, n))
    ensures AllAccepted(file, taken, n + 1)
    ensures PagesBefore(file, n + 1) == PagesBefore(file, n) + PagesFor(SegmentAt(file, PhdrOffset(file, n)))
  {
    hide SegmentAt, Inode.WordAt, Accepted, PagesFor;
  }

  lemma {:induction false} EachAccepted(file: seq<byte>, taken: set<nat>, n: nat, i: nat)
    requires EHDR <= |file| && TableFits(file, n) && AllAccepted(file, taken, n) && i < n
    ensures Accepted(SegmentAt(file, PhdrOffset(file, i)), file, taken + PagesBefore(file, i))
  {
    hide SegmentAt, Inode.WordAt, Accepted, PagesFor, PagesBefore;
    if i < n - 1 { EachAccepted(file, taken, n - 1, i); }
  }

  /** The pages of the segments of a file that fits are apart, and among those of the file. */
  lemma {:induction false} SegmentApart(file: seq<byte>, taken: set<nat>, i: nat)
    requires EHDR <= |file| && TableFits(file, i + 1)
    requires Accepted(SegmentAt(file, PhdrOffset(file, i)), file, taken + PagesBefore(file, i))
    ensures PagesBefore(file, i) !! PagesFor(SegmentAt(file, PhdrOffset(file, i)))
  {
    hide SegmentAt, Inode.WordAt, PagesBefore, ValidateSegment, PagesOf;
  }

  lemma {:induction false} PagesAmong(file: seq<byte>, i: nat, n: nat)
    requires EHDR <= |file| && i < n && TableFits(file, n)
    ensures TableFits(file, i + 1)
    ensures PagesBefore(file, i) + PagesFor(SegmentAt(file, PhdrOffset(file, i))) <= PagesBefore(file, n)
  {
    hide SegmentAt, Inode.WordAt, PagesFor;
    if i < n - 1 { PagesAmong(file, i, n - 1); }
  }

  /** When one turn of the loop fails, the file does not fit, there is not enough memory or the disk fails. */
  lemma {:induction false} HeaderFails(file: seq<byte>, s: Space, s1: Space, i: nat,
                                       ehdrLimit: nat, headerLimit: nat -> nat, limits: nat -> nat -> nat)
    requires EHDR <= |file| < OFF_LIMIT && i < PhdrCount(file) && TableFits(file, i) && Segments(s, s1, file, i)
    requires PhdrOffset(file, i) + PHDR > |file| || headerLimit(i) < PHDR
          || !Accepted(SegmentAt(file, PhdrOffset(file, i)), file, s1.mapping.Keys)
          || ShortRead(PagesFor(SegmentAt(file, PhdrOffset(file, i))), limits(i))
          || !Enough(s1.left, PagesFor(SegmentAt(file, PhdrOffset(file, i))))
    ensures !FileFits(file, s.mapping.Keys) || !Enough(s.left, NewPages(file))
            || DiskFails(file, ehdrLimit, headerLimit, limits)
  {
    hide SegmentAt, Inode.WordAt, Accepted, PagesFor, PagesBefore, AllAccepted, ShortRead, HeaderOk, Enough, Spent;
    hide Kept, AllInMemory;
    if FileFits(file, s.mapping.Keys) {
      EachAccepted(file, s.mapping.Keys, PhdrCount(file), i);
      PagesAmong(file, i, PhdrCount(file));
      var q := PagesFor(SegmentAt(file, PhdrOffset(file, i)));
      if Enough(s1.left, q) {
        assert PhdrFails(file, i, headerLimit(i), limits(i));
      } else {
        SegmentApart(file, s.mapping.Keys, i);
        NotEnough(s.left, PagesBefore(file, i), s1.left, q, NewPages(file));
      }
    }
  }

  lemma {:induction false} StackFails(file: seq<byte>, b: Budget, b1: Budget)
    requires EHDR <= |file| && TableFits(file, PhdrCount(file)) && Spent(b, PagesBefore(file, PhdrCount(file)), b1)
    requires USER_PAGES - 1 !in PagesBefore(file, PhdrCount(file)) && !Enough(b1, {USER_PAGES - 1})
    ensures !Enough(b, NewPages(file))
  {
    hide Inode.WordAt, PagesBefore, Enough, Spent;
    NotEnough(b, PagesBefore(file, PhdrCount(file)), b1, {USER_PAGES - 1}, NewPages(file));
  }

  lemma {:induction false} NoHeader(file: seq<byte>, taken: set<nat>)
    requires |file| < EHDR || !HeaderOk(file[..EHDR])
    ensures !FileFits(file, taken)
  {
  }

  /** When the loop is done, only the stack can be in the way. */
  lemma {:induction false} HeadersRead(file: seq<byte>, taken: set<nat>)
    requires EHDR <= |file| && HeaderOk(file[..EHDR]) && TableFits(file, PhdrCount(file))
    requires AllAccepted(file, taken, PhdrCount(file))
    ensures FileFits(file, taken) <==> USER_PAGES - 1 !in taken + PagesBefore(file, PhdrCount(file))
    ensures NewPages(file) == PagesBefore(file, PhdrCount(file)) + {USER_PAGES - 1}
  {
    hide HeaderOk, AllAccepted, PagesBefore, Inode.WordAt;
  }

  lemma {:induction false} ShortHeader(file: seq<byte>, ehdrLimit: nat, headerLimit: nat -> nat,
                                       limits: nat -> nat -> nat)
    requires ehdrLimit < EHDR
    ensures DiskFails(file, ehdrLimit, headerLimit, limits)
  {
  }

  lemma {:induction false} HeaderInFile(file: seq<byte>, h: seq<byte>)
    requires EHDR <= |file| && h == file[..EHDR]
    ensures HalfAt(h, 44) == PhdrCount(file) && Inode.WordAt(h, 24) == EntryPoint(file)
    ensures Inode.WordAt(h, 28) == PhdrOffset(file, 0) < WORD
  {
  }

  lemma {:induction false} SegmentStays(m: map<nat, Frame>, f: Memory, m': map<nat, Frame>, f': Memory, p: Phdr,
                                        file: seq<byte>)
    requires Kept(m, f, m', f') && SegmentInMemory(m, f, p, file)
    ensures SegmentInMemory(m', f', p, file)
  {
    hide Plus;
    forall i: nat | i < p.memsz
      ensures ByteIs(m', f', Plus(p.vaddr, i), p.writable, if i < p.filesz then file[p.offset + i] else 0)
    {
      assert ByteIs(m, f, Plus(p.vaddr, i), p.writable, if i < p.filesz then file[p.offset + i] else 0);
    }
  }
}
