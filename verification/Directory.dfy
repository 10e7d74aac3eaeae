/** Directories (filesys/directory.c): slots of 20 bytes in a file, the table of entries that they hold,
    and the map from names to inode sectors that it stands for.  Names are C strings without their
    terminator. */
module Directory {
  import opened Common
  import opened Inode

  const NAME_MAX: nat := 14
  const ENTRY: nat := 20

  // ----- a slot -----

  /** The string that starts at the beginning of `s`. */
  function CString(s: seq<byte>): (r: seq<byte>)
    ensures |r| <= |s| && r == s[..|r|] && 0 !in r && (|r| < |s| ==> s[|r|] == 0)
  {
    if s == [] || s[0] == 0 then [] else [s[0]] + CString(s[1..])
  }

  predicate IsName(name: seq<byte>) { 0 !in name }

  lemma {:induction false} CStringIs(s: seq<byte>, name: seq<byte>)
    requires IsName(name) && |name| < |s| && s[..|name|] == name && s[|name|] == 0
    ensures CString(s) == name
  {
    if name != [] {
      assert s[0] == s[..|name|][0] == name[0];
      assert name[0] in name;
      assert s[1..][..|name[1..]|] == s[..|name|][1..] == name[1..];
      CStringIs(s[1..], name[1..]);
    }
  }

  predicate InUse(e: seq<byte>)
    requires |e| == ENTRY
  {
    e[ENTRY - 1] != 0
  }

  function NameOf(e: seq<byte>): (name: seq<byte>)
    requires |e| == ENTRY
  {
    CString(e[4..4 + NAME_MAX + 1])
  }

  function SectorOf(e: seq<byte>): (sector: nat)
    requires |e| == ENTRY
  {
    WordAt(e, 0)
  }

  /** The entry `dir_add` writes: the fields are set in whatever the entry held before. */
  function MakeEntry(e: seq<byte>, name: seq<byte>, sector: nat): (r: seq<byte>)
    requires |e| == ENTRY && |name| <= NAME_MAX && sector < 0x1_0000_0000
    ensures |r| == ENTRY
  {
    Word(sector) + name + [0] + e[4 + |name| + 1..ENTRY - 1] + [1]
  }

  lemma {:induction false} EntryReadsBack(e: seq<byte>, name: seq<byte>, sector: nat)
    requires |e| == ENTRY && |name| <= NAME_MAX && sector < 0x1_0000_0000 && IsName(name)
    ensures var r := MakeEntry(e, name, sector); InUse(r) && NameOf(r) == name && SectorOf(r) == sector
  {
    hide Word, WordAt;
    var r := MakeEntry(e, name, sector);
    assert r[0..4] == Word(sector);
    WordReadsBack(r, 0, sector);
    var field := r[4..4 + NAME_MAX + 1];
    assert field[..|name|] == name && field[|name|] == 0;
    CStringIs(field, name);
  }

  /** `struct dir_entry`: a little-endian sector number, the name with its terminator in 15 bytes, and a flag. */
  ghost predicate EntryOnDisk(e: seq<byte>, name: seq<byte>, sector: nat) {
    && |e| == 20 && |name| <= 14 && Little(e[0..4]) == sector
    && e[4..4 + |name|] == name && e[4 + |name|] == 0 && e[19] != 0
  }

  /** An entry is written in this form, and exactly what has this form is an entry with that name and sector. */
  lemma {:induction false} EntryLayout(e: seq<byte>, name: seq<byte>, sector: nat)
    requires |e| == ENTRY && IsName(name) && |name| <= NAME_MAX && sector < 0x1_0000_0000
    ensures EntryOnDisk(MakeEntry(e, name, sector), name, sector)
    ensures EntryOnDisk(e, name, sector) <==> InUse(e) && NameOf(e) == name && SectorOf(e) == sector
  {
    hide Little, WordAt, Word;
    WordIsLittle(e, 0);
    NameHere(e, name);
    EntryReadsBack(e, name, sector);
    var r := MakeEntry(e, name, sector);
    WordIsLittle(r, 0);
    NameHere(r, name);
  }

  lemma {:induction false} NameHere(e: seq<byte>, name: seq<byte>)
    requires |e| == ENTRY && IsName(name) && |name| <= NAME_MAX
    ensures NameOf(e) == name <==> e[4..4 + |name|] == name && e[4 + |name|] == 0
  {
    var field := e[4..4 + NAME_MAX + 1];
    assert field[..|name|] == e[4..4 + |name|] && field[|name|] == e[4 + |name|];
    if field[..|name|] == name && field[|name|] == 0 { CStringIs(field, name); }
  }

  // ----- the slots of a directory -----

  function SlotCount(c: seq<byte>): (n: nat) { |c| / ENTRY }

  function Slot(c: seq<byte>, i: nat): (e: seq<byte>)
    requires i < SlotCount(c)
    ensures |e| == ENTRY
  {
    c[ENTRY * i..ENTRY * i + ENTRY]
  }

  datatype Entry = Entry(name: seq<byte>, sector: nat)

  /** The entries in use, by their slots. */
  type Table = map<nat, Entry>

  ghost function EntryOf(e: seq<byte>): (r: Entry)
    requires |e| == ENTRY
  {
    Entry(NameOf(e), SectorOf(e))
  }

  predicate Live(c: seq<byte>, i: nat) {
    i < SlotCount(c) && InUse(Slot(c, i))
  }

  ghost function Entries(c: seq<byte>): (t: Table)
    ensures InSlots(t, SlotCount(c))
  {
    map i: nat | i < SlotCount(c) && Live(c, i) :: EntryOf(Slot(c, i))
  }

  ghost predicate InSlots(t: Table, n: nat) {
    forall i | i in t :: i < n
  }

  /** Writing a slot changes its entry and no other. */
  lemma {:induction false} SlotWritten(c: seq<byte>, i: nat, e: seq<byte>)
    requires ENTRY * i + ENTRY <= |c| && |e| == ENTRY
    ensures var c' := Splice(c, ENTRY * i, e);
      && SlotCount(c') == SlotCount(c)
      && Entries(c') == if InUse(e) then Entries(c)[i := EntryOf(e)] else Entries(c) - {i}
  {
    hide InUse, EntryOf;
    var c' := Splice(c, ENTRY * i, e);
    forall j: nat | j < SlotCount(c) ensures Slot(c', j) == if j == i then e else Slot(c, j) {
      SlotAfter(c, i, e, j);
    }
  }

  lemma {:induction false} SlotAfter(c: seq<byte>, i: nat, e: seq<byte>, j: nat)
    requires ENTRY * i + ENTRY <= |c| && |e| == ENTRY && j < SlotCount(c)
    ensures SlotCount(Splice(c, ENTRY * i, e)) == SlotCount(c)
    ensures Slot(Splice(c, ENTRY * i, e), j) == if j == i then e else Slot(c, j)
  {
    var s, t := Slot(Splice(c, ENTRY * i, e), j), if j == i then e else Slot(c, j);
    forall k | 0 <= k < ENTRY ensures s[k] == t[k] {
      assert s[k] == Splice(c, ENTRY * i, e)[ENTRY * j + k];
    }
  }

  /** A write behind the last whole slot changes no entry. */
  lemma {:induction false} TailWritten(c: seq<byte>, ofs: nat, t: seq<byte>)
    requires ENTRY * SlotCount(c) <= ofs && ofs + |t| <= |c|
    ensures SlotCount(Splice(c, ofs, t)) == SlotCount(c) && Entries(Splice(c, ofs, t)) == Entries(c)
  {
    hide InUse, EntryOf;
    var c' := Splice(c, ofs, t);
    forall j: nat | j < SlotCount(c) ensures Slot(c', j) == Slot(c, j) {
      assert ENTRY * j + ENTRY <= ofs;
    }
  }

  // ----- the names -----

  ghost predicate HasName(t: Table, name: seq<byte>) {
    exists i :: i in t && t[i].name == name
  }

  /** No name is in use twice. */
  ghost predicate UniqueNames(t: Table) {
    forall i, j | i in t && j in t && i != j :: t[i].name != t[j].name
  }

  /** The directory as a partial map. */
  ghost function View(t: Table): (m: map<seq<byte>, nat>)
    requires UniqueNames(t)
    ensures forall name :: name in m <==> HasName(t, name)
    ensures forall i | i in t :: t[i].name in m && m[t[i].name] == t[i].sector
  {
    map i | i in t :: t[i].name := t[i].sector
  }

  /** Which names and sectors a map has decides it. */
  lemma {:induction false} ViewIs(t: Table, m: map<seq<byte>, nat>)
    requires UniqueNames(t) && (forall i | i in t :: t[i].name in m && m[t[i].name] == t[i].sector)
    requires forall name | name in m :: HasName(t, name)
    ensures View(t) == m
  {
    hide View;
    forall name | name in m ensures name in View(t) && View(t)[name] == m[name] {
      var i :| i in t && t[i].name == name;
    }
    forall name | name in View(t) ensures name in m {
      var i :| i in t && t[i].name == name;
    }
  }

  /** Filling a free slot with a new name adds it to the map. */
  lemma {:induction false} SlotFilled(t: Table, i: nat, e: Entry)
    requires UniqueNames(t) && i !in t && !HasName(t, e.name)
    ensures UniqueNames(t[i := e]) && View(t[i := e]) == View(t)[e.name := e.sector]
  {
    hide View;
    var t', m := t[i := e], View(t)[e.name := e.sector];
    forall name | name in m ensures HasName(t', name) {
      if name == e.name {
        assert i in t' && t'[i].name == name;
      } else {
        var j :| j in t && t[j].name == name;
        assert j in t' && t'[j].name == name;
      }
    }
    ViewIs(t', m);
  }

  /** Freeing a slot removes its name from the map. */
  lemma {:induction false} SlotFreed(t: Table, i: nat)
    requires UniqueNames(t) && i in t
    ensures UniqueNames(t - {i}) && View(t - {i}) == View(t) - {t[i].name}
  {
    hide View;
    var t', m := t - {i}, View(t) - {t[i].name};
    forall name | name in m ensures HasName(t', name) {
      var j :| j in t && t[j].name == name;
      assert j in t' && t'[j].name == name;
    }
    ViewIs(t', m);
  }

  /** The map has as many names as entries are in use. */
  lemma {:induction false} ViewSize(t: Table)
    requires UniqueNames(t)
    ensures |View(t)| == |t|
    decreases |t|
  {
    hide View, UniqueNames, HasName;
    if t == map[] {
      ViewIs(t, map[]);
    } else {
      var i :| i in t;
      SlotFreed(t, i);
      ViewSize(t - {i});
      Smaller(t, i);
      Smaller(View(t), t[i].name);
    }
  }

  lemma {:induction false} Smaller<K, V>(m: map<K, V>, k: K)
    requires k in m
    ensures |m - {k}| == |m| - 1
  {
    assert (m - {k}).Keys == m.Keys - {k};
    assert |m| == |m.Keys| && |m - {k}| == |(m - {k}).Keys|;
  }

  /** A slot is free exactly when there are fewer entries than slots. */
  lemma {:induction false} FreeSlotIff(t: Table, n: nat)
    requires InSlots(t, n)
    ensures (exists i: nat :: i < n && i !in t) <==> |t| < n
    ensures |t| <= n
  {
    if n == 0 {
      assert t == map[];
    } else if n - 1 !in t {
      FreeSlotIff(t, n - 1);
    } else {
      var t' := t - {n - 1};
      Smaller(t, n - 1);
      FreeSlotIff(t', n - 1);
      assert forall i: nat | i < n - 1 :: i in t' <==> i in t;
    }
  }

  // ----- listing a directory -----

  /** The names in use from slot `i` on, in slot order. */
  ghost function Listing(t: Table, n: nat, i: nat): (names: seq<seq<byte>>)
    requires i <= n
    decreases n - i
  {
    if i == n then [] else if i in t then [t[i].name] + Listing(t, n, i + 1) else Listing(t, n, i + 1)
  }

  /** Listing a directory gives the names in use, and none twice when they are unique. */
  lemma {:induction false} ListingExact(t: Table, n: nat, i: nat)
    requires InSlots(t, n) && i <= n
    ensures forall name :: name in Listing(t, n, i) <==> exists j :: i <= j && j in t && t[j].name == name
    ensures UniqueNames(t) ==>
            forall j, k | 0 <= j < k < |Listing(t, n, i)| :: Listing(t, n, i)[j] != Listing(t, n, i)[k]
    decreases n - i
  {
    if i < n {
      ListingExact(t, n, i + 1);
      var rest := Listing(t, n, i + 1);
      forall k | 0 <= k < |rest| && UniqueNames(t) ensures i in t ==> rest[k] != t[i].name {
        assert rest[k] in rest;
      }
    }
  }

  // ----- searching -----

  /** What a loop over the slots looks for: a name in use, or an unused slot. */
  datatype Wanted = Named(name: seq<byte>) | Unused

  predicate Hit(t: Table, w: Wanted, i: nat) {
    match w
    case Named(name) => i in t && t[i].name == name
    case Unused => i !in t
  }

  /** Where a search from slot `i` ends: at a hit, behind the last slot, or at a slot for whose reading
      memory is missing. */
  function SearchEnd(t: Table, n: nat, w: Wanted, readable: nat -> bool, i: nat): (e: nat)
    requires i <= n
    ensures i <= e <= n && (e < n ==> !readable(e) || Hit(t, w, e))
    ensures forall j: nat | i <= j < e :: readable(j) && !Hit(t, w, j)
    decreases n - i
  {
    if i == n || !readable(i) || Hit(t, w, i) then i else SearchEnd(t, n, w, readable, i + 1)
  }

  function Place(t: Table, n: nat, name: seq<byte>, readable: nat -> bool): (i: nat)
    ensures i <= n
  {
    SearchEnd(t, n, Named(name), readable, 0)
  }

  /** `lookup` finds the name. */
  predicate Found(t: Table, n: nat, name: seq<byte>, readable: nat -> bool)
    ensures Found(t, n, name, readable) ==>
            var i := Place(t, n, name, readable); i in t && t[i].name == name
  {
    var i := Place(t, n, name, readable);
    i < n && readable(i)
  }

  /** A name is found exactly when some slot has it, and that slot and those before can be read. */
  lemma {:induction false} FoundIff(t: Table, n: nat, name: seq<byte>, readable: nat -> bool)
    requires InSlots(t, n)
    ensures Found(t, n, name, readable) <==>
            exists i :: i in t && t[i].name == name && forall j: nat | j <= i :: readable(j)
    ensures Found(t, n, name, readable) ==> HasName(t, name)
    ensures HasName(t, name) && (forall j: nat | j < n :: readable(j)) ==> Found(t, n, name, readable)
  {
    hide SearchEnd;
    var e := Place(t, n, name, readable);
    if Found(t, n, name, readable) {
      assert e in t && t[e].name == name && forall j: nat | j <= e :: readable(j);
    }
    forall i | i in t && t[i].name == name && forall j: nat | j <= i :: readable(j)
      ensures Found(t, n, name, readable)
    {
      assert Hit(t, Named(name), i);
    }
    if HasName(t, name) {
      var i :| i in t && t[i].name == name;
      assert Hit(t, Named(name), i);
    }
  }

  // ----- `dir_add` -----

  /** For which slots the two searches of `dir_add` find memory, and whether the write does. */
  datatype AddMemory = AddMemory(look: nat -> bool, free: nat -> bool, write: bool)

  /** The slot that `dir_add` chooses. */
  function Target(t: Table, n: nat, mem: AddMemory): (i: nat)
    ensures i <= n
  {
    SearchEnd(t, n, Unused, mem.free, 0)
  }

  /** `dir_add` writes an entry. */
  predicate Writes(t: Table, n: nat, name: seq<byte>, mem: AddMemory) {
    0 < |name| <= NAME_MAX && !Found(t, n, name, mem.look) && mem.write && Target(t, n, mem) < n
  }

  function Added(t: Table, n: nat, name: seq<byte>, sector: nat, mem: AddMemory): (t': Table) {
    if Writes(t, n, name, mem) then t[Target(t, n, mem) := Entry(name, sector)] else t
  }

  /** What `dir_add` promises: the name is new and is added, or nothing changes. */
  ghost predicate Promised(t: Table, t': Table, name: seq<byte>, sector: nat, ok: bool)
    requires UniqueNames(t)
  {
    && UniqueNames(t') && (ok ==> !HasName(t, name))
    && View(t') == if ok then View(t)[name := sector] else View(t)
  }

  /** The short reads that do harm: the entry goes over one that is in use, or the name was missed. */
  ghost predicate Harmful(t: Table, n: nat, name: seq<byte>, mem: AddMemory) {
    Writes(t, n, name, mem) && (Target(t, n, mem) in t || HasName(t, name))
  }

  /** The promise of `dir_add` is kept exactly when no short read does harm. */
  lemma {:induction false} AddExact(t: Table, n: nat, name: seq<byte>, sector: nat, mem: AddMemory)
    requires UniqueNames(t)
    ensures Promised(t, Added(t, n, name, sector, mem), name, sector, Writes(t, n, name, mem)) <==>
            !Harmful(t, n, name, mem)
  {
    hide Target, Found;
    var i := Target(t, n, mem);
    if Writes(t, n, name, mem) && !HasName(t, name) {
      if i in t {
        NameLost(t, i, Entry(name, sector));
      } else {
        SlotFilled(t, i, Entry(name, sector));
      }
    }
  }

  /** An entry written over another takes that one's name out of the directory. */
  lemma {:induction false} NameLost(t: Table, i: nat, e: Entry)
    requires UniqueNames(t) && i in t && !HasName(t, e.name)
    ensures HasName(t, t[i].name) && !HasName(t[i := e], t[i].name)
  {
    assert t[i].name != e.name;
  }

  /** With memory for every read nothing is missed: `dir_add` writes exactly for a valid fresh name
      when a slot is free, and does no harm. */
  lemma {:induction false} AmpleMemory(t: Table, n: nat, name: seq<byte>, mem: AddMemory)
    requires InSlots(t, n) && mem.write && forall i: nat | i < n :: mem.look(i) && mem.free(i)
    ensures !Harmful(t, n, name, mem)
    ensures Writes(t, n, name, mem) <==>
            0 < |name| <= NAME_MAX && !HasName(t, name) && exists i: nat :: i < n && i !in t
  {
    hide SearchEnd, Found;
    FoundIff(t, n, name, mem.look);
    var e := Target(t, n, mem);
    assert e < n ==> Hit(t, Unused, e);
    forall i: nat | i < n && i !in t ensures e < n { assert Hit(t, Unused, i); }
  }

  /** A directory of two slots, the first in use by the file "a": when the free-slot search cannot read
      the first slot, adding "b" destroys the entry of "a"; when the lookup cannot, a second "a" is added. */
  lemma {:induction false} LowMemoryHarm(t: Table)
    requires t == map[0 := Entry([97], 2)]
    ensures Added(t, 2, [98], 3, AddMemory(_ => true, i => i != 0, true)) == map[0 := Entry([98], 3)]
    ensures Harmful(t, 2, [98], AddMemory(_ => true, i => i != 0, true))
    ensures var t' := Added(t, 2, [97], 3, AddMemory(i => i != 0, _ => true, true));
            t' == map[0 := Entry([97], 2), 1 := Entry([97], 3)] && !UniqueNames(t')
    ensures Harmful(t, 2, [97], AddMemory(i => i != 0, _ => true, true))
  {
    var a, b := AddMemory(_ => true, i => i != 0, true), AddMemory(i => i != 0, _ => true, true);
    assert Place(t, 2, [98], a.look) == 2 && Target(t, 2, a) == 0;
    assert Place(t, 2, [97], b.look) == 0 && Target(t, 2, b) == 1;
    assert 0 in t && t[0].name == [97];
    var t' := Added(t, 2, [97], 3, b);
    assert 0 in t' && 1 in t' && t'[0].name == t'[1].name;
  }

  // ----- the directory -----

  class Dir {
    const device: Device
    const inode: Data
    var pos: nat

    constructor (device: Device, inode: Data)
      ensures this.device == device && this.inode == inode && pos == 0
    {
      this.device, this.inode, pos := device, inode, 0;
    }

    ghost predicate Valid()
      reads this, device
    {
      OnDevice(device.sectors, inode)
    }

    /** The directory's bytes. */
    ghost function Bytes(): (c: seq<byte>)
      requires Valid()
      reads this, device
    {
      Contents(device.sectors, inode)
    }

    ghost function Slots(): (t: Table)
      requires Valid()
      reads this, device
      ensures InSlots(t, Count())
    {
      Entries(Bytes())
    }

    ghost function Count(): (n: nat)
      requires Valid()
      reads this, device
    {
      SlotCount(Bytes())
    }

    /** Reads the slot at `ofs`; there is none past the last whole slot, and a slot is never a whole
        sector, so that a bounce buffer is needed. */
    method ReadEntry(ofs: nat, bounceOk: bool) returns (e: Option<seq<byte>>)
      requires Valid()
      ensures e.Some? <==> ofs + ENTRY <= inode.length && bounceOk
      ensures e.Some? ==> |e.value| == ENTRY && e.value == Bytes()[ofs..ofs + ENTRY]
    {
      hide Contents;
      var buffer: array<byte> := new byte[ENTRY](_ => 0);
      var n := device.ReadAt(inode, buffer, ENTRY, ofs, bounceOk);
      if n != ENTRY { return None; }
      return Some(buffer[..]);
    }

    /** Writes the slot at `ofs`, which succeeds up to the end of the file. */
    method WriteEntry(ofs: nat, e: seq<byte>, bounceOk: bool) returns (ok: bool)
      requires Valid() && |e| == ENTRY
      modifies device
      ensures Valid() && ChangesOnly(old(device.sectors), device.sectors, inode)
      ensures ok <==> ofs + ENTRY <= inode.length && bounceOk
      ensures ok ==> Bytes() == Splice(old(Bytes()), ofs, e)
      ensures !ok ==> ShortWrite(old(Bytes()), Bytes(), ofs)
    {
      hide Contents, Flat, Splice;
      ghost var sectors := device.sectors;
      var n := device.WriteAt(inode, 0, e, ENTRY, ofs, bounceOk);
      ghost var t := e[..n];
      if n > 0 {
        WriteThenRead(sectors, device.sectors, inode, ofs, t);
      } else {
        SameFlat(sectors, device.sectors, inode);
      }
      assert n == ENTRY ==> t == e;
      return n == ENTRY;
    }

    /** `lookup`: the slot at which the search ends, if it holds the name. */
    method Lookup(name: seq<byte>, readable: nat -> bool) returns (entry: Option<seq<byte>>, ofs: nat)
      requires Valid() && IsName(name)
      ensures entry.Some? <==> Found(Slots(), Count(), name, readable)
      ensures entry.Some? ==> ofs == ENTRY * Place(Slots(), Count(), name, readable)
      ensures entry.Some? ==> |entry.value| == ENTRY && ofs / ENTRY in Slots() && ofs + ENTRY <= inode.length
      ensures entry.Some? ==> EntryOf(entry.value) == Slots()[ofs / ENTRY]
    {
      hide Contents, Flat, CString, NameOf, SectorOf, Entries, InUse;
      ghost var c, t, n := Bytes(), Slots(), Count();
      ofs := 0;
      var e := ReadEntry(ofs, readable(0));
      while e.Some?
        invariant ofs % ENTRY == 0 && ofs / ENTRY <= n
        invariant e.Some? <==> ofs / ENTRY < n && readable(ofs / ENTRY)
        invariant e.Some? ==> e.value == Slot(c, ofs / ENTRY)
        invariant Place(t, n, name, readable) == SearchEnd(t, n, Named(name), readable, ofs / ENTRY)
        decreases n - ofs / ENTRY
      {
        ghost var i := ofs / ENTRY;
        SlotKnown(c, i);
        if InUse(e.value) && name == NameOf(e.value) { return e, ofs; }
        ofs := ofs + ENTRY;
        NextSlot(i, ofs);
        e := ReadEntry(ofs, readable(ofs / ENTRY));
      }
      return None, ofs;
    }

    /** The search of `dir_add` for a free slot.  The entry read last stays in the buffer. */
    method FindFree(buffer: seq<byte>, readable: nat -> bool) returns (ofs: nat, e: seq<byte>)
      requires Valid() && |buffer| == ENTRY
      ensures ofs == ENTRY * SearchEnd(Slots(), Count(), Unused, readable, 0) && |e| == ENTRY
    {
      hide Contents, Flat, CString, NameOf, SectorOf, Entries, InUse;
      ghost var c, t, n := Bytes(), Slots(), Count();
      ofs, e := 0, buffer;
      var r := ReadEntry(ofs, readable(0));
      while r.Some?
        invariant ofs % ENTRY == 0 && ofs / ENTRY <= n && |e| == ENTRY
        invariant r.Some? <==> ofs / ENTRY < n && readable(ofs / ENTRY)
        invariant r.Some? ==> r.value == Slot(c, ofs / ENTRY)
        invariant SearchEnd(t, n, Unused, readable, 0) == SearchEnd(t, n, Unused, readable, ofs / ENTRY)
        decreases n - ofs / ENTRY
      {
        e := r.value;
        ghost var i := ofs / ENTRY;
        SlotKnown(c, i);
        if !InUse(e) { return; }
        ofs := ofs + ENTRY;
        NextSlot(i, ofs);
        r := ReadEntry(ofs, readable(ofs / ENTRY));
      }
    }

    /** `dir_add`, on any bytes: the entry goes to the slot where the search for a free one ends; when
        names are unique, the promise is kept exactly when no short read does harm. */
    method Add(name: seq<byte>, inodeSector: nat, buffer: seq<byte>, mem: AddMemory) returns (ok: bool)
      requires Valid() && IsName(name) && inodeSector < 0x1_0000_0000 && |buffer| == ENTRY
      modifies device
      ensures Valid() && ChangesOnly(old(device.sectors), device.sectors, inode)
      ensures ok <==> Writes(old(Slots()), old(Count()), name, mem)
      ensures Count() == old(Count()) && Slots() == Added(old(Slots()), Count(), name, inodeSector, mem)
      ensures UniqueNames(old(Slots())) ==>
              (Promised(old(Slots()), Slots(), name, inodeSector, ok) <==> !Harmful(old(Slots()), Count(), name, mem))
    {
      hide Contents, Flat, CString, NameOf, SectorOf, MakeEntry, Splice, SearchEnd, EntryOf, Entries, Found;
      hide Promised, Harmful, UniqueNames, ShortWrite;
      ghost var c, t := Bytes(), Slots();
      ok := false;
      if 0 < |name| <= NAME_MAX {
        var there, _ := Lookup(name, mem.look);
        if there.None? {
          var ofs, e := FindFree(buffer, mem.free);
          ok := WriteEntry(ofs, MakeEntry(e, name, inodeSector), mem.write);
          EntrySet(c, Bytes(), Target(t, Count(), mem), e, name, inodeSector, ok);
        }
      }
      if UniqueNames(t) { AddExact(t, Count(), name, inodeSector, mem); }
    }

    /** `dir_remove`, as far as the directory is concerned: it succeeds exactly when the name is
        found, its inode can be opened, and there is memory for the write; otherwise nothing changes. */
    method Remove(name: seq<byte>, openOk: bool, readable: nat -> bool, bounceOk: bool) returns (ok: bool)
      requires Valid() && IsName(name)
      modifies device
      ensures Valid() && ChangesOnly(old(device.sectors), device.sectors, inode)
      ensures ok <==> Found(old(Slots()), old(Count()), name, readable) && openOk && bounceOk
      ensures Count() == old(Count())
      ensures Slots() ==
              if ok then old(Slots()) - {Place(old(Slots()), Count(), name, readable)} else old(Slots())
    {
      hide Contents, Flat, CString, NameOf, SectorOf, Splice, SearchEnd, EntryOf, Entries, Found, ShortWrite;
      ghost var c := Bytes();
      var entry, ofs := Lookup(name, readable);
      if entry.None? { return false; }
      if !openOk { return false; }
      var e := entry.value[ENTRY - 1 := 0];
      ok := WriteEntry(ofs, e, bounceOk);
      EntryErased(c, Bytes(), ofs / ENTRY, e, ok);
    }

    /** `dir_readdir`: the next name in slot order; none at the end, or where memory is missing. */
    method Readdir(readable: nat -> bool) returns (name: Option<seq<byte>>)
      requires Valid() && pos % ENTRY == 0 && pos / ENTRY <= Count()
      modifies this
      ensures pos % ENTRY == 0 && old(pos) / ENTRY <= pos / ENTRY <= Count()
      ensures Listing(Slots(), Count(), old(pos) / ENTRY) ==
              (if name.Some? then [name.value] else []) + Listing(Slots(), Count(), pos / ENTRY)
      ensures name.Some? ==> old(pos) < pos
      ensures name.None? ==> pos / ENTRY == Count() || !readable(pos / ENTRY)
    {
      hide Contents, Flat, CString, NameOf, SectorOf, Entries, Listing, InUse;
      ghost var c, t, n, start := Bytes(), Slots(), Count(), pos / ENTRY;
      var e := ReadEntry(pos, readable(pos / ENTRY));
      while e.Some?
        invariant pos % ENTRY == 0 && start <= pos / ENTRY <= n
        invariant e.Some? <==> pos / ENTRY < n && readable(pos / ENTRY)
        invariant e.Some? ==> e.value == Slot(c, pos / ENTRY)
        invariant Listing(t, n, start) == Listing(t, n, pos / ENTRY)
        decreases n - pos / ENTRY
      {
        ghost var i := pos / ENTRY;
        SlotKnown(c, i);
        ListingStep(t, n, i);
        pos := pos + ENTRY;
        NextSlot(i, pos);
        if InUse(e.value) { return Some(NameOf(e.value)); }
        e := ReadEntry(pos, readable(pos / ENTRY));
      }
      return None;
    }

    /** Reading a directory from position 0 lists the names in slot order up to the first slot for
        which memory is missing; when none is, all of them, and none twice when they are unique. */
    method ReadAll(readable: nat -> bool) returns (names: seq<seq<byte>>)
      requires Valid() && pos == 0
      modifies this
      ensures pos / ENTRY <= Count()
      ensures Listing(Slots(), Count(), 0) == names + Listing(Slots(), Count(), pos / ENTRY)
      ensures pos / ENTRY == Count() || !readable(pos / ENTRY)
      ensures UniqueNames(Slots()) ==> forall i, j | 0 <= i < j < |names| :: names[i] != names[j]
      ensures pos / ENTRY == Count() ==> forall name :: name in names <==> HasName(Slots(), name)
    {
      hide Contents, Flat, CString, NameOf, Listing, Entries, UniqueNames;
      ghost var c, t, n := Bytes(), Slots(), Count();
      names := [];
      var name := Readdir(readable);
      while name.Some?
        invariant Valid() && Slots() == t && pos % ENTRY == 0 && pos / ENTRY <= n
        invariant Listing(t, n, 0) == names + (if name.Some? then [name.value] else []) + Listing(t, n, pos / ENTRY)
        invariant name.None? ==> pos / ENTRY == n || !readable(pos / ENTRY)
        decreases n - pos / ENTRY, if name.Some? then 1 else 0
      {
        names := names + [name.value];
        name := Readdir(readable);
      }
      ListingExact(t, n, 0);
      ListingEnd(t, n, names, pos / ENTRY);
    }
  }

  lemma {:induction false} SlotKnown(c: seq<byte>, i: nat)
    requires i < SlotCount(c)
    ensures i in Entries(c) <==> InUse(Slot(c, i))
    ensures i in Entries(c) ==> Entries(c)[i] == EntryOf(Slot(c, i))
  {
    hide InUse, EntryOf;
  }

  lemma {:induction false} ListingStep(t: Table, n: nat, i: nat)
    requires i < n
    ensures Listing(t, n, i) == (if i in t then [t[i].name] else []) + Listing(t, n, i + 1)
  {
  }

  lemma {:induction false} NextSlot(i: nat, ofs: nat)
    requires ofs == ENTRY * i + ENTRY
    ensures ofs % ENTRY == 0 && ofs / ENTRY == i + 1
  {
  }

  /** What a failed write of a slot leaves: everything, or a change behind the whole slots. */
  ghost predicate ShortWrite(c: seq<byte>, c': seq<byte>, ofs: nat) {
    c' == c || exists t :: ofs + |t| <= |c| < ofs + ENTRY && c' == Splice(c, ofs, t)
  }

  lemma {:induction false} ShortWriteKeeps(c: seq<byte>, c': seq<byte>, i: nat)
    requires ShortWrite(c, c', ENTRY * i)
    ensures SlotCount(c') == SlotCount(c) && Entries(c') == Entries(c)
  {
    hide Splice, Entries;
    if c' != c {
      var t :| ENTRY * i + |t| <= |c| < ENTRY * i + ENTRY && c' == Splice(c, ENTRY * i, t);
      TailWritten(c, ENTRY * i, t);
    }
  }

  lemma {:induction false} EntrySet(c: seq<byte>, c': seq<byte>, i: nat, e: seq<byte>, name: seq<byte>, sector: nat,
                                    ok: bool)
    requires |e| == ENTRY && IsName(name) && |name| <= NAME_MAX && sector < 0x1_0000_0000
    requires ok ==> ENTRY * i + ENTRY <= |c| && c' == Splice(c, ENTRY * i, MakeEntry(e, name, sector))
    requires !ok ==> ShortWrite(c, c', ENTRY * i)
    ensures SlotCount(c') == SlotCount(c)
    ensures Entries(c') == if ok then Entries(c)[i := Entry(name, sector)] else Entries(c)
  {
    hide CString, NameOf, SectorOf, Slot, MakeEntry, Splice, InUse, Entries, ShortWrite;
    if ok {
      EntryReadsBack(e, name, sector);
      SlotWritten(c, i, MakeEntry(e, name, sector));
    } else {
      ShortWriteKeeps(c, c', i);
    }
  }

  lemma {:induction false} EntryErased(c: seq<byte>, c': seq<byte>, i: nat, e: seq<byte>, ok: bool)
    requires |e| == ENTRY && !InUse(e)
    requires ok ==> ENTRY * i + ENTRY <= |c| && c' == Splice(c, ENTRY * i, e)
    requires !ok ==> ShortWrite(c, c', ENTRY * i)
    ensures SlotCount(c') == SlotCount(c) && Entries(c') == if ok then Entries(c) - {i} else Entries(c)
  {
    hide Slot, Splice, InUse, Entries, ShortWrite;
    if ok { SlotWritten(c, i, e); } else { ShortWriteKeeps(c, c', i); }
  }

  lemma {:induction false} ListingEnd(t: Table, n: nat, names: seq<seq<byte>>, i: nat)
    requires i <= n && Listing(t, n, 0) == names + Listing(t, n, i)
    ensures (forall j, k | 0 <= j < k < |Listing(t, n, 0)| :: Listing(t, n, 0)[j] != Listing(t, n, 0)[k]) ==>
            forall j, k | 0 <= j < k < |names| :: names[j] != names[k]
    ensures i == n ==> names == Listing(t, n, 0)
  {
    forall j | 0 <= j < |names| ensures names[j] == Listing(t, n, 0)[j] {}
  }

  lemma {:induction false} SameFlat(sectors: seq<seq<byte>>, sectors': seq<seq<byte>>, d: Data)
    requires OnDevice(sectors, d) && OnDevice(sectors', d) && Flat(sectors') == Flat(sectors)
    ensures Contents(sectors', d) == Contents(sectors, d)
  {
  }
}
