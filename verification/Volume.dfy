/** The file system on the bytes of its device: the inodes of module FileSys are what is written in
    their sectors, its directory is what the slots of the root directory's file say, and the contents of
    files are the bytes of their sectors. */
module Volume {
  import opened Common
  import opened FileSys
  import Bitmap
  import Inode
  import Directory

  /** The root directory's file holds the directory. */
  ghost predicate DirOnDevice(st: State, slots: nat, sectors: Sectors) {
    && ROOT_DIR_SECTOR in st.disk && Inode.OnDevice(sectors, st.disk[ROOT_DIR_SECTOR])
    && var c := Inode.Contents(sectors, st.disk[ROOT_DIR_SECTOR]);
       Directory.Entries(c) == st.dir && Directory.SlotCount(c) == slots
  }

  /** Every inode in use is written in its sector, and its data is on the device. */
  ghost predicate InodesOnDevice(st: State, sectors: Sectors) {
    && Inode.IsDevice(sectors) && |sectors| == |st.freeMap|
    && forall s: nat | IsNode(st, s) :: InodeAt(st, sectors, s)
  }

  ghost predicate InodeAt(st: State, sectors: Sectors, s: nat) {
    && s in st.disk && s < |sectors| && |sectors[s]| == Inode.SECTOR
    && Inode.Decode(sectors[s]) == st.disk[s] && Inode.OnDevice(sectors, st.disk[s])
  }

  ghost predicate Represents(st: State, slots: nat, sectors: Sectors) {
    InodesOnDevice(st, sectors) && DirOnDevice(st, slots, sectors)
  }

  predicate IsSystem(s: nat) { s == FREE_MAP_SECTOR || s == ROOT_DIR_SECTOR }

  /** Every inode in use but `s` and the system's has the same contents. */
  ghost predicate OthersSame(st: State, sectors: Sectors, sectors': Sectors, s: nat) {
    forall t: nat | IsNode(st, t) && t != s && !IsSystem(t) ::
      && InodeAt(st, sectors, t) && InodeAt(st, sectors', t)
      && Inode.Contents(sectors', st.disk[t]) == Inode.Contents(sectors, st.disk[t])
  }

  // ----- sectors that stay the same -----

  /** What is represented stays represented when no sector that it uses changes. */
  lemma {:induction false} Undisturbed(st: State, slots: nat, sectors: Sectors, sectors': Sectors)
    requires Represents(st, slots, sectors) && Inode.IsDevice(sectors') && |sectors'| == |sectors|
    requires forall s: nat, x: nat | Owns(st, s, x) && x < |sectors| :: sectors'[x] == sectors[x]
    ensures Represents(st, slots, sectors')
    ensures forall s: nat | IsNode(st, s) ::
      InodeAt(st, sectors, s) && InodeAt(st, sectors', s)
        && Inode.Contents(sectors', st.disk[s]) == Inode.Contents(sectors, st.disk[s])
  {
    hide Inode.Contents, Inode.Decode, Inode.BytesToSectors, Directory.Entries, Directory.SlotCount;
    forall s: nat | IsNode(st, s)
      ensures InodeAt(st, sectors, s) && InodeAt(st, sectors', s)
      ensures Inode.Contents(sectors', st.disk[s]) == Inode.Contents(sectors, st.disk[s])
    {
      assert InodeAt(st, sectors, s);
      assert Owns(st, s, s);
      var d := st.disk[s];
      forall x | d.start <= x < d.start + Inode.BytesToSectors(d.length) ensures sectors'[x] == sectors[x] {
        assert InData(d, x) && Owns(st, s, x);
      }
      Inode.ContentsSame(sectors, sectors', d);
    }
    assert IsNode(st, ROOT_DIR_SECTOR);
  }

  /** Fewer inodes in use need less. */
  lemma {:induction false} FewerNodes(st: State, st': State, slots: nat, sectors: Sectors)
    requires Represents(st, slots, sectors) && |st'.freeMap| == |st.freeMap| && st'.dir == st.dir && st'.disk == st.disk
    requires forall s: nat | IsNode(st', s) :: IsNode(st, s)
    ensures Represents(st', slots, sectors)
  {
    hide Inode.Contents, Inode.Decode, IsNode, Directory.Entries, Directory.SlotCount;
    forall s: nat | IsNode(st', s) ensures InodeAt(st', sectors, s) { assert InodeAt(st, sectors, s); }
  }

  /** Writing inside one file disturbs no other, and no inode. */
  lemma {:induction false} WriteKeeps(st: State, slots: nat, sectors: Sectors, sectors': Sectors, s: nat)
    requires Represents(st, slots, sectors) && SectorsApart(st) && IsNode(st, s) && s != ROOT_DIR_SECTOR
    requires s in st.disk && Inode.IsDevice(sectors') && Inode.ChangesOnly(sectors, sectors', st.disk[s])
    ensures Represents(st, slots, sectors')
    ensures OthersSame(st, sectors, sectors', s)
  {
    hide Inode.Contents, Inode.Decode, Inode.BytesToSectors, Directory.Entries, Directory.SlotCount;
    hide SectorsApart;
    NodesKept(st, sectors, sectors', s);
    assert IsNode(st, ROOT_DIR_SECTOR);
    assert InodeAt(st, sectors', ROOT_DIR_SECTOR);
  }

  lemma {:induction false} NodesKept(st: State, sectors: Sectors, sectors': Sectors, s: nat)
    requires InodesOnDevice(st, sectors) && SectorsApart(st) && IsNode(st, s)
    requires s in st.disk && Inode.IsDevice(sectors') && Inode.ChangesOnly(sectors, sectors', st.disk[s])
    ensures InodesOnDevice(st, sectors')
    ensures forall t: nat | IsNode(st, t) && t != s ::
      && InodeAt(st, sectors, t) && InodeAt(st, sectors', t)
      && Inode.Contents(sectors', st.disk[t]) == Inode.Contents(sectors, st.disk[t])
  {
    hide Inode.Contents, Inode.Decode, Inode.BytesToSectors, IsNode;
    var d := st.disk[s];
    forall t: nat | IsNode(st, t)
      ensures InodeAt(st, sectors, t) && InodeAt(st, sectors', t)
      ensures t != s ==> Inode.Contents(sectors', st.disk[t]) == Inode.Contents(sectors, st.disk[t])
    {
      assert InodeAt(st, sectors, t);
      assert Owns(st, t, t);
      assert InData(d, t) ==> Owns(st, s, t);
      assert !InData(d, t);
      if t != s {
        var e := st.disk[t];
        forall x: nat | e.start <= x < e.start + Inode.BytesToSectors(e.length) ensures sectors'[x] == sectors[x] {
          assert InData(e, x) && Owns(st, t, x);
          assert InData(d, x) ==> Owns(st, s, x);
        }
        Inode.ContentsSame(sectors, sectors', e);
      }
    }
  }

  /** Writing a file other than the free map's leaves that one as it is. */
  lemma {:induction false} MapKept(st: State, sectors: Sectors, sectors': Sectors, s: nat, bitCnt: nat)
    requires InodesOnDevice(st, sectors) && SectorsApart(st) && IsNode(st, s) && s != FREE_MAP_SECTOR
    requires s in st.disk && Inode.IsDevice(sectors') && Inode.ChangesOnly(sectors, sectors', st.disk[s])
    requires FREE_MAP_SECTOR in st.disk && st.disk[FREE_MAP_SECTOR].length == 4 * Bitmap.ElemCnt(bitCnt)
    requires Inode.OnDevice(sectors, st.disk[FREE_MAP_SECTOR])
    ensures Inode.OnDevice(sectors', st.disk[FREE_MAP_SECTOR])
    ensures SavedMap(sectors', st.disk[FREE_MAP_SECTOR], bitCnt) == SavedMap(sectors, st.disk[FREE_MAP_SECTOR], bitCnt)
  {
    hide Inode.Contents, Inode.Decode, Inode.BytesToSectors, IsNode, Bitmap.ElemCnt;
    FreeMapIsNode(st);
    NodesKept(st, sectors, sectors', s);
  }

  // ----- the volume -----

  class Volume {
    const fs: FileSystem

    ghost predicate Valid()
      reads this, fs, fs.freeMap, fs.freeMap.bits, fs.device
    {
      && fs.Valid() && Represents(fs.St(), fs.slots, fs.device.sectors) && |fs.device.sectors| < Inode.WORD
      && forall id | id in fs.files :: fs.files[id].sector != ROOT_DIR_SECTOR
    }

    /** An inode in use has bytes. */
    ghost predicate InUse(s: nat)
      requires fs.MapReady()
      reads this, fs, fs.freeMap, fs.freeMap.bits, fs.device
    {
      IsNode(fs.St(), s) && InodeAt(fs.St(), fs.device.sectors, s)
    }

    /** The bytes of a file. */
    ghost function FileBytes(s: nat): (c: seq<byte>)
      requires fs.MapReady() && InUse(s)
      reads this, fs, fs.freeMap, fs.freeMap.bits, fs.device
    {
      Inode.Contents(fs.device.sectors, fs.disk[s])
    }

    constructor (fs: FileSystem)
      requires fs.Valid() && Represents(fs.St(), fs.slots, fs.device.sectors) && |fs.device.sectors| < Inode.WORD
      requires forall id | id in fs.files :: fs.files[id].sector != ROOT_DIR_SECTOR
      ensures Valid() && this.fs == fs
    {
      this.fs := fs;
    }

    /** `file_write_at` (and `file_write` at its position) of a file other than the free map's: the bytes
        of this file change as `inode_write_at` says, and those of no other. */
    method Write(id: nat, buffer: seq<byte>, size: int, offset: nat, bounceOk: bool) returns (n: nat)
      requires Valid() && id in fs.files && fs.files[id].sector != FREE_MAP_SECTOR && size <= |buffer|
      modifies fs.device
      ensures Valid() && n <= |buffer| && fs.St() == old(fs.St())
      ensures var s := fs.files[id].sector;
        && InUse(s) && old(InUse(s))
        && n == (if exists i :: i in fs.files && fs.files[i] == File(s, true) then 0
                 else Inode.Moved(fs.disk[s].length, size, offset, bounceOk))
        && (n > 0 ==> offset + n <= |old(FileBytes(s))| &&
                      FileBytes(s) == Inode.Splice(old(FileBytes(s)), offset, buffer[..n]))
        && (n == 0 ==> FileBytes(s) == old(FileBytes(s)))
        && OthersSame(fs.St(), old(fs.device.sectors), fs.device.sectors, s)
    {
      hide Inode.Flat, Inode.Contents, Inode.Moved, Inv, CountsExact, Represents, Inode.BytesToSectors, SavedMap;
      hide Bitmap.ElemCnt, Bitmap.Bits;
      var s := fs.files[id].sector;
      ghost var st, sectors := fs.St(), fs.device.sectors;
      OpenFileFacts(fs.open, fs.files, fs.refs, st, fs.slots, sectors, id);
      n := fs.device.WriteAt(fs.open[s].data, fs.open[s].denyCnt, buffer, size, offset, bounceOk);
      Kept(st, fs.slots, sectors, fs.device.sectors, s, fs.freeMap.bitCnt);
      if n > 0 {
        Inode.WriteThenRead(sectors, fs.device.sectors, fs.disk[s], offset, buffer[..n]);
      } else {
        Directory.SameFlat(sectors, fs.device.sectors, fs.disk[s]);
      }
    }

    /** `file_read_at` (and `file_read` at its position), into a buffer of its own. */
    method Read(id: nat, size: nat, offset: nat, bounceOk: bool) returns (bytes: seq<byte>)
      requires Valid() && id in fs.files
      ensures var s := fs.files[id].sector;
        && InUse(s) && |bytes| == Inode.Moved(fs.disk[s].length, size, offset, bounceOk)
        && (bytes != [] ==> offset + |bytes| <= |FileBytes(s)| && bytes == FileBytes(s)[offset..offset + |bytes|])
    {
      hide Inode.Flat, Inode.Contents, Inode.Moved, Inv, CountsExact, Represents, Inode.BytesToSectors, SavedMap;
      var s := fs.files[id].sector;
      OpenFileFacts(fs.open, fs.files, fs.refs, fs.St(), fs.slots, fs.device.sectors, id);
      var buffer: array<byte> := new byte[size](_ => 0);
      var n := fs.device.ReadAt(fs.open[s].data, buffer, size, offset, bounceOk);
      bytes := buffer[..n];
    }

    /** `filesys_open`: the file's bytes, and all others, are as they were. */
    method Open(name: Name, id: nat, o: OpenOutcomes) returns (ok: bool)
      requires Valid() && id !in fs.files
      modifies fs, fs.freeMap.bits, fs.device
      ensures Valid() && fs.dir == old(fs.dir) && fs.disk == old(fs.disk)
      ensures ok <==> Opens(old(fs.St()), fs.slots, name, o) && o.fileStruct
      ensures fs.files ==
              if ok then old(fs.files)[id := File(Sector(fs.dir, fs.slots, name, o.readable), false)] else old(fs.files)
      ensures OthersSame(fs.St(), old(fs.device.sectors), fs.device.sectors, ROOT_DIR_SECTOR)
    {
      hide Inv, CountsExact, Represents, LeakedIs, IsNode, SavedMap, Opens, Sector, OthersSame, Directory.InSlots;
      ghost var st, sectors := fs.St(), fs.device.sectors;
      if Opens(st, fs.slots, name, o) { OpensFacts(st, fs.slots, name, o); }
      OpenIsCounted(fs.open, fs.files, fs.refs);
      ok := fs.Open(name, id, o);
      OpenIsCounted(fs.open, fs.files, fs.refs);
      MapWritten(st, fs.St(), fs.slots, sectors, fs.device.sectors);
    }

    /** `file_close`. */
    method Close(id: nat, r: Release)
      requires Valid() && id in fs.files
      modifies fs, fs.freeMap.bits, fs.device
      ensures Valid() && fs.files == old(fs.files) - {id} && fs.disk == old(fs.disk) && fs.dir == old(fs.dir)
      ensures OthersSame(fs.St(), old(fs.device.sectors), fs.device.sectors, ROOT_DIR_SECTOR)
    {
      hide Inv, CountsExact, Represents, LeakedIs, IsNode, SavedMap, OthersSame, Directory.InSlots;
      ghost var st, sectors := fs.St(), fs.device.sectors;
      OpenIsCounted(fs.open, fs.files, fs.refs);
      fs.FileClose(id, r);
      OpenIsCounted(fs.open, fs.files, fs.refs);
      MapWritten(st, fs.St(), fs.slots, sectors, fs.device.sectors);
    }

    /** `filesys_remove`: the slot in the root directory's bytes is erased, and the files that stay in
        use keep their bytes. */
    method Remove(name: Name, o: OpenOutcomes, bounceOk: bool) returns (ok: bool)
      requires Valid() && Directory.IsName(name)
      modifies fs, fs.freeMap.bits, fs.device
      ensures Valid() && fs.files == old(fs.files) && fs.disk == old(fs.disk)
      ensures ok <==> Opens(old(fs.St()), fs.slots, name, o) && bounceOk
      ensures fs.dir ==
              if ok then old(fs.dir) - {Directory.Place(old(fs.dir), fs.slots, name, o.readable)} else old(fs.dir)
      ensures OthersSame(fs.St(), old(fs.device.sectors), fs.device.sectors, ROOT_DIR_SECTOR)
    {
      hide Inv, CountsExact, LeakedIs, IsNode, Represents, Inode.BytesToSectors, Inode.Contents, SavedMap, OthersSame;
      hide Directory.Entries, Directory.InSlots, Directory.Place, Directory.Found, Gone, Bitmap.ElemCnt, Sector;
      hide Bitmap.Bits;
      ghost var st, sectors := fs.St(), fs.device.sectors;
      OpenIsCounted(fs.open, fs.files, fs.refs);
      ok := fs.Remove(name, o, bounceOk);
      OpenIsCounted(fs.open, fs.files, fs.refs);
      ghost var st', sectors1 := fs.St(), fs.device.sectors;
      NodesAfterRemove(st, st', Directory.Place(st.dir, fs.slots, name, o.readable), ok);
      MapChanged(st, fs.slots, sectors, sectors1);
      RootBytes(st, fs.slots, sectors1);
      if ok {
        var root := new Directory.Dir(fs.device, fs.disk[ROOT_DIR_SECTOR]);
        var erased := root.Remove(name, true, o.readable, true);
        RootKeepsMap(st, fs.slots, sectors1, fs.device.sectors, fs.freeMap.bitCnt);
      }
      RootChanged(st, st', fs.slots, sectors1, fs.device.sectors);
      OthersFewer(st, st', sectors, sectors1);
      OthersChain(st', sectors, sectors1, fs.device.sectors);
    }

    /** `filesys_create`: the inode and its zeros are written where the free map has room, and the entry
        goes where the searches of `dir_add` end; every other file in use keeps its bytes.  The directory's
        promise is kept exactly when no short read does harm. */
    method Create(name: Name, size: nat, o: Outcomes, mem: Directory.AddMemory, buffer: seq<byte>)
        returns (ok: bool, ghost lost: iset<nat>)
      requires Valid() && Directory.IsName(name) && size < Inode.OFF_LIMIT && |buffer| == Directory.ENTRY
      modifies fs, fs.freeMap.bits, fs.device
      ensures Valid() && fs.files == old(fs.files)
      ensures ok <==> Makes(old(fs.St()), fs.files, fs.mapData, size, o)
                      && Directory.Writes(old(fs.dir), fs.slots, name, mem)
      ensures !ok ==> fs.dir == old(fs.dir)
      ensures ok ==> exists s: nat ::
                && fs.dir == Directory.Added(old(fs.dir), fs.slots, name, s, mem) && !IsNode(old(fs.St()), s)
                && InUse(s) && FileBytes(s) == seq(size, _ => 0)
                && (Directory.UniqueNames(old(fs.dir)) ==>
                      (Directory.Promised(old(fs.dir), fs.dir, name, s, ok) <==>
                       !Directory.Harmful(old(fs.dir), fs.slots, name, mem)))
      ensures LeakedIs(old(fs.St()), fs.St(), lost, NONE)
      ensures lost != NONE <==>
              && Makes(old(fs.St()), fs.files, fs.mapData, size, o)
              && if Directory.Writes(old(fs.dir), fs.slots, name, mem)
                 then OverClosed(old(fs.St()), Directory.Target(old(fs.dir), fs.slots, mem))
                 else Inode.BytesToSectors(size) > 0
      ensures OthersSame(old(fs.St()), old(fs.device.sectors), fs.device.sectors, ROOT_DIR_SECTOR)
    {
      hide Inv, CountsExact, LeakedIs, IsNode, Represents, Inode.BytesToSectors, Inode.Contents, HasRoom, MadeAt;
      hide Inode.Decode, InodeAt, OthersSame, SavedMap, Directory.Writes, Directory.Target, Directory.Promised;
      hide Directory.Harmful, Directory.UniqueNames, Directory.Entries, Directory.InSlots, OverClosed, Forgotten, Range;
      hide Bitmap.ElemCnt, Bitmap.Bits, MarksMade;
      ghost var st, sectors := fs.St(), fs.device.sectors;
      var made;
      ok, made, lost := fs.Create(name, size, o, mem);
      ghost var st', sectors1 := fs.St(), fs.device.sectors;
      MapChanged(st, fs.slots, sectors, sectors1);
      if made.None? {
        Unchanged(st, st', fs.slots, sectors1);
        return;
      }
      var s, d := made.value.0, made.value.1;
      MadeFits(st, fs.slots, sectors1, size, s, d);
      fs.device.Create(s, d);
      ghost var sectors2 := fs.device.sectors;
      MadeElsewhere(st, fs.slots, sectors1, sectors2, size, s, d, fs.freeMap.bitCnt);
      RootBytes(st, fs.slots, sectors2);
      var root := new Directory.Dir(fs.device, fs.disk[ROOT_DIR_SECTOR]);
      var added := root.Add(name, s, buffer, mem);
      RootKeepsMap(st, fs.slots, sectors2, fs.device.sectors, fs.freeMap.bitCnt);
      Filled(st, st', fs.slots, sectors2, fs.device.sectors, Directory.Target(st.dir, fs.slots, mem),
             Directory.Entry(name, s), size, d, ok);
      OthersChain(st, sectors, sectors1, sectors2);
      OthersChain(st, sectors, sectors2, fs.device.sectors);
    }

    /** Mounting the device again, at any moment between calls and whatever failed before: the inodes with
        entries are in use with the same bytes, and no sector has two uses.  When nothing is open and the
        last write of the map was complete, nothing at all has changed. */
    method Remount() returns (v: Volume)
      requires Valid()
      ensures fresh(v) && v.fs.device == fs.device && v.Valid() && v.fs.files == map[]
      ensures v.fs.St() == State(fs.St().fileMap, fs.St().fileMap, fs.disk, fs.dir, map[])
      ensures forall s: nat | Placed(fs.St(), s) :: InUse(s) && v.InUse(s) && v.FileBytes(s) == FileBytes(s)
      ensures fs.open == map[] && fs.St().fileMap == fs.St().freeMap ==> v.fs.St() == fs.St()
    {
      hide Inv, CountsExact, SavedMap, Inode.Decode, Inode.Contents, DirOnDevice, Directory.InSlots, Bitmap.ElemCnt;
      hide Placed, Bitmap.Bits;
      ghost var st := fs.St();
      Remounted(st);
      MapsAgree(st);
      var fs' := new FileSystem.Mounted(fs);
      FewerNodes(st, fs'.St(), fs.slots, fs.device.sectors);
      v := new Volume(fs');
      ghost var st' := v.fs.St();
      forall s: nat | Placed(st, s) ensures InUse(s) && v.InUse(s) && v.FileBytes(s) == FileBytes(s) {
        assert IsNode(st, s) && IsNode(st', s);
      }
    }
  }

  /** `filesys_create` makes an inode. */
  ghost predicate Makes(st: State, files: map<nat, File>, mapData: Data, size: nat, o: Outcomes) {
    RootOpens(st.open, o) && MakesInode(files, mapData, o) && HasRoom(st.freeMap, Inode.BytesToSectors(size))
  }

  /** What is known about an open file. */
  lemma {:induction false} OpenFileFacts(open: map<nat, OpenInode>, files: map<nat, File>, refs: multiset<nat>,
                                         st: State, slots: nat, sectors: Sectors, id: nat)
    requires CountsExact(open, files, refs) && Inv(st) && st.open == open && Represents(st, slots, sectors)
    requires id in files
    ensures var s := files[id].sector;
      && s in open && IsNode(st, s) && InodeAt(st, sectors, s) && open[s].data == st.disk[s] && Inode.IsDevice(sectors)
      && (open[s].denyCnt > 0 <==> exists i :: i in files && files[i] == File(s, true))
  {
    hide FilesOn, DenyingOn, DirOnDevice, Inode.Decode;
    var s := files[id].sector;
    FileIsOpen(open, files, refs, id);
    DenyMeaning(open, files, refs, s);
    assert IsNode(st, s);
  }

  lemma {:induction false} Kept(st: State, slots: nat, sectors: Sectors, sectors': Sectors, s: nat, bitCnt: nat)
    requires Represents(st, slots, sectors) && Inv(st) && IsNode(st, s) && !IsSystem(s)
    requires s in st.disk && Inode.IsDevice(sectors') && Inode.ChangesOnly(sectors, sectors', st.disk[s])
    requires FREE_MAP_SECTOR in st.disk && st.disk[FREE_MAP_SECTOR].length == 4 * Bitmap.ElemCnt(bitCnt)
    requires Inode.OnDevice(sectors, st.disk[FREE_MAP_SECTOR])
    ensures Represents(st, slots, sectors') && OthersSame(st, sectors, sectors', s) && InodeAt(st, sectors', s)
    ensures Inode.OnDevice(sectors', st.disk[FREE_MAP_SECTOR])
    ensures SavedMap(sectors', st.disk[FREE_MAP_SECTOR], bitCnt) == SavedMap(sectors, st.disk[FREE_MAP_SECTOR], bitCnt)
  {
    hide Inode.Contents, Inode.Decode, DirOnDevice, SectorsApart, EntriesExact, SavedMap, Bitmap.ElemCnt;
    WriteKeeps(st, slots, sectors, sectors', s);
    MapKept(st, sectors, sectors', s, bitCnt);
  }

  // ----- which inodes are in use -----

  /** The open inodes are those with a pointer to them. */
  lemma {:induction false} OpenIsCounted(open: map<nat, OpenInode>, files: map<nat, File>, refs: multiset<nat>)
    requires CountsExact(open, files, refs)
    ensures forall s: nat :: s in open <==> refs[s] > 0
  {
    hide FilesOn, DenyingOn;
  }

  lemma {:induction false} OpensFacts(st: State, slots: nat, name: Name, o: OpenOutcomes)
    requires Inv(st) && Opens(st, slots, name, o)
    ensures var s := Sector(st.dir, slots, name, o.readable); IsNode(st, s) && s != ROOT_DIR_SECTOR
  {
    hide Sector, Directory.Found;
    SectorPlaced(st, slots, name, o.readable);
    SectorNotRoot(st, slots, name, o.readable);
  }

  lemma {:induction false} NodesAfterRemove(st: State, st': State, i: nat, ok: bool)
    requires (forall s: nat :: s in st'.open <==> s in st.open) && st'.dir == if ok then st.dir - {i} else st.dir
    ensures forall s: nat | IsNode(st', s) :: IsNode(st, s)
  {
  }

  /** Opening what was in use and closing keep everything represented, with the map written in between. */
  lemma {:induction false} MapWritten(st: State, st': State, slots: nat, sectors: Sectors, sectors': Sectors)
    requires Represents(st, slots, sectors) && Inv(st) && |st'.freeMap| == |st.freeMap|
    requires st'.dir == st.dir && st'.disk == st.disk && Inode.IsDevice(sectors')
    requires FREE_MAP_SECTOR in st.disk && Inode.ChangesOnly(sectors, sectors', st.disk[FREE_MAP_SECTOR])
    requires forall s: nat | s in st'.open :: s in st.open || IsNode(st, s)
    ensures Represents(st', slots, sectors') && OthersSame(st', sectors, sectors', ROOT_DIR_SECTOR)
  {
    hide Represents, Inode.Contents, InodeAt;
    MapChanged(st, slots, sectors, sectors');
    FewerNodes(st, st', slots, sectors');
    OthersFewer(st, st', sectors, sectors');
  }

  lemma {:induction false} OthersFewer(st: State, st': State, sectors: Sectors, sectors': Sectors)
    requires OthersSame(st, sectors, sectors', ROOT_DIR_SECTOR) && st'.disk == st.disk
    requires forall s: nat | IsNode(st', s) :: IsNode(st, s)
    ensures OthersSame(st', sectors, sectors', ROOT_DIR_SECTOR)
  {
    hide IsNode, Inode.Contents, Inode.Decode;
    forall t: nat | IsNode(st', t) && t != ROOT_DIR_SECTOR && !IsSystem(t)
      ensures InodeAt(st', sectors, t) && InodeAt(st', sectors', t)
      ensures Inode.Contents(sectors', st'.disk[t]) == Inode.Contents(sectors, st'.disk[t])
    {
      assert InodeAt(st, sectors, t) && InodeAt(st, sectors', t);
    }
  }

  lemma {:induction false} MapChanged(st: State, slots: nat, sectors: Sectors, sectors': Sectors)
    requires Represents(st, slots, sectors) && Inv(st) && Inode.IsDevice(sectors')
    requires FREE_MAP_SECTOR in st.disk && Inode.ChangesOnly(sectors, sectors', st.disk[FREE_MAP_SECTOR])
    ensures Represents(st, slots, sectors') && OthersSame(st, sectors, sectors', ROOT_DIR_SECTOR)
  {
    hide Represents, Inode.Contents, InodeAt, SectorsApart, EntriesExact, IsNode;
    FreeMapIsNode(st);
    WriteKeeps(st, slots, sectors, sectors', FREE_MAP_SECTOR);
  }

  // ----- the root directory's bytes -----

  lemma {:induction false} RootBytes(st: State, slots: nat, sectors: Sectors)
    requires Represents(st, slots, sectors)
    ensures DirOnDevice(st, slots, sectors) && Inode.IsDevice(sectors) && |sectors| == |st.freeMap|
  {
    hide Inode.Contents, Directory.Entries, Directory.SlotCount;
  }

  lemma {:induction false} RootKeepsMap(st: State, slots: nat, sectors: Sectors, sectors': Sectors, bitCnt: nat)
    requires Represents(st, slots, sectors) && Inv(st) && Inode.IsDevice(sectors')
    requires ROOT_DIR_SECTOR in st.disk && Inode.ChangesOnly(sectors, sectors', st.disk[ROOT_DIR_SECTOR])
    requires FREE_MAP_SECTOR in st.disk && st.disk[FREE_MAP_SECTOR].length == 4 * Bitmap.ElemCnt(bitCnt)
    requires Inode.OnDevice(sectors, st.disk[FREE_MAP_SECTOR])
    ensures Inode.OnDevice(sectors', st.disk[FREE_MAP_SECTOR])
    ensures SavedMap(sectors', st.disk[FREE_MAP_SECTOR], bitCnt) == SavedMap(sectors, st.disk[FREE_MAP_SECTOR], bitCnt)
  {
    hide SavedMap, Bitmap.ElemCnt, SectorsApart, EntriesExact, IsNode, InodesOnDevice;
    RootIsNode(st);
    MapKept(st, sectors, sectors', ROOT_DIR_SECTOR, bitCnt);
  }

  /** A change of the root directory's data that agrees with the change of the directory. */
  lemma {:induction false} RootChanged(st: State, st': State, slots: nat, sectors: Sectors, sectors': Sectors)
    requires Represents(st, slots, sectors) && Inv(st) && st'.disk == st.disk && |st'.freeMap| == |st.freeMap|
    requires forall s: nat | IsNode(st', s) :: IsNode(st, s)
    requires ROOT_DIR_SECTOR in st.disk && Inode.IsDevice(sectors')
    requires Inode.ChangesOnly(sectors, sectors', st.disk[ROOT_DIR_SECTOR])
    requires DirOnDevice(st', slots, sectors')
    ensures Represents(st', slots, sectors') && OthersSame(st', sectors, sectors', ROOT_DIR_SECTOR)
  {
    hide Inode.Contents, Inode.Decode, DirOnDevice, SectorsApart, EntriesExact, IsNode;
    RootIsNode(st);
    NodesKept(st, sectors, sectors', ROOT_DIR_SECTOR);
    forall s: nat | IsNode(st', s) ensures InodeAt(st', sectors', s) { assert InodeAt(st, sectors', s); }
  }

  // ----- creating a file -----

  lemma {:induction false} Unchanged(st: State, st': State, slots: nat, sectors: Sectors)
    requires Represents(st, slots, sectors) && |st'.freeMap| == |st.freeMap| && st'.dir == st.dir && st'.disk == st.disk
    requires st'.open.Keys == st.open.Keys
    ensures Represents(st', slots, sectors)
  {
    hide DirOnDevice, Inode.Decode, Inode.Contents;
    FewerNodes(st, st', slots, sectors);
  }

  /** Where first fit puts an inode and its data they fit on the device. */
  lemma {:induction false} MadeFits(st: State, slots: nat, sectors: Sectors, size: nat, s: nat, d: Data)
    requires Represents(st, slots, sectors) && MadeAt(st, size, s, d)
    requires |sectors| < Inode.WORD && size < Inode.OFF_LIMIT
    ensures Inode.IsDevice(sectors) && Inode.Fits(d) && Inode.OnDevice(sectors, d) && s < |sectors| && d.length == size
    ensures s < d.start || d.start + Inode.BytesToSectors(d.length) <= s
    ensures s != ROOT_DIR_SECTOR && !IsNode(st, s)
  {
    hide DirOnDevice, Inode.BytesToSectors, Bitmap.Fill;
    FirstFitFree(Bitmap.Fill(st.freeMap, s, 1, true), Inode.BytesToSectors(size), d.start);
  }

  /** Writing the new inode and its zeros touches nothing that is in use. */
  lemma {:induction false} MadeElsewhere(st: State, slots: nat, sectors: Sectors, sectors': Sectors, size: nat, s: nat,
                                         d: Data, bitCnt: nat)
    requires Represents(st, slots, sectors) && Inv(st) && MadeAt(st, size, s, d)
    requires Inode.IsDevice(sectors') && |sectors'| == |sectors|
    requires forall x | 0 <= x < |sectors| && x != s && !(d.start <= x < d.start + Inode.BytesToSectors(d.length)) ::
             sectors'[x] == sectors[x]
    requires FREE_MAP_SECTOR in st.disk && st.disk[FREE_MAP_SECTOR].length == 4 * Bitmap.ElemCnt(bitCnt)
    requires Inode.OnDevice(sectors, st.disk[FREE_MAP_SECTOR])
    ensures Represents(st, slots, sectors') && OthersSame(st, sectors, sectors', ROOT_DIR_SECTOR)
    ensures Inode.OnDevice(sectors', st.disk[FREE_MAP_SECTOR])
    ensures SavedMap(sectors', st.disk[FREE_MAP_SECTOR], bitCnt) == SavedMap(sectors, st.disk[FREE_MAP_SECTOR], bitCnt)
  {
    hide Represents, Inode.BytesToSectors, IsNode, Places, Inode.Contents, InodeAt, EntriesExact, Bitmap.ElemCnt;
    forall t: nat, x: nat | Owns(st, t, x) && x < |sectors| ensures sectors'[x] == sectors[x] {
      assert x < |st.freeMap| && st.freeMap[x];
    }
    Undisturbed(st, slots, sectors, sectors');
    FreeMapIsNode(st);
  }

  /** With the slot written the new state is represented, and the new file is all zeros. */
  lemma {:induction false} Filled(st: State, st': State, slots: nat, sectors: Sectors, sectors': Sectors,
                                  i: nat, e: Directory.Entry, size: nat, d: Data, ok: bool)
    requires Represents(st, slots, sectors) && Inv(st) && MadeAt(st, size, e.sector, d)
    requires st'.disk == st.disk[e.sector := d] && st'.open.Keys == st.open.Keys && |st'.freeMap| == |st.freeMap|
    requires st'.dir == if ok then st.dir[i := e] else st.dir
    requires e.sector < |sectors| && Inode.OnDevice(sectors, d) && Inode.Decode(sectors[e.sector]) == d
    requires Inode.Contents(sectors, d) == seq(size, _ => 0)
    requires Inode.IsDevice(sectors') && ROOT_DIR_SECTOR in st.disk
    requires Inode.ChangesOnly(sectors, sectors', st.disk[ROOT_DIR_SECTOR])
    requires ROOT_DIR_SECTOR in st'.disk && st'.disk[ROOT_DIR_SECTOR] == st.disk[ROOT_DIR_SECTOR]
    requires DirOnDevice(st', slots, sectors')
    ensures Represents(st', slots, sectors') && OthersSame(st, sectors, sectors', ROOT_DIR_SECTOR)
    ensures InodeAt(st', sectors', e.sector) && Inode.Contents(sectors', d) == seq(size, _ => 0)
    ensures ok ==> IsNode(st', e.sector)
  {
    hide Inode.Contents, Inode.Decode, DirOnDevice, Places, EntriesExact, IsNode, Inode.BytesToSectors;
    RootIsNode(st);
    NodesKept(st, sectors, sectors', ROOT_DIR_SECTOR);
    FreshData(st, size, e.sector, d);
    forall x: nat | d.start <= x < d.start + Inode.BytesToSectors(d.length) ensures sectors'[x] == sectors[x] {
      assert InData(d, x);
    }
    Inode.ContentsSame(sectors, sectors', d);
    NodesAfterCreate(st, st', i, e, ok);
    forall t: nat | IsNode(st', t) ensures InodeAt(st', sectors', t) {
      if t != e.sector { assert InodeAt(st, sectors', t); }
    }
  }

  /** The new inode and its data are clear of the root directory's data. */
  lemma {:induction false} FreshData(st: State, size: nat, s: nat, d: Data)
    requires Inv(st) && MadeAt(st, size, s, d)
    ensures ROOT_DIR_SECTOR in st.disk && !InData(st.disk[ROOT_DIR_SECTOR], s)
    ensures forall x: nat | InData(d, x) :: !InData(st.disk[ROOT_DIR_SECTOR], x)
  {
    hide Places, EntriesExact, Inode.BytesToSectors;
    var r := ROOT_DIR_SECTOR;
    assert IsNode(st, r);
    forall x: nat | x == s || InData(d, x) ensures !InData(st.disk[r], x) {
      assert InData(st.disk[r], x) ==> Owns(st, r, x);
    }
  }

  lemma {:induction false} NodesAfterCreate(st: State, st': State, i: nat, e: Directory.Entry, ok: bool)
    requires st'.open.Keys == st.open.Keys && st'.dir == if ok then st.dir[i := e] else st.dir
    ensures forall t: nat | IsNode(st', t) && t != e.sector :: IsNode(st, t)
    ensures ok ==> IsNode(st', e.sector)
    ensures !ok ==> forall t: nat | IsNode(st', t) :: IsNode(st, t)
  {
    if ok { assert i in st'.dir && st'.dir[i].sector == e.sector; }
    forall t: nat | IsNode(st', t) && t != e.sector ensures IsNode(st, t) {
      if j :| j in st'.dir && st'.dir[j].sector == t { assert j in st.dir && st.dir[j].sector == t; }
    }
  }

  lemma {:induction false} OthersChain(st: State, a: Sectors, b: Sectors, c: Sectors)
    requires OthersSame(st, a, b, ROOT_DIR_SECTOR) && OthersSame(st, b, c, ROOT_DIR_SECTOR)
    ensures OthersSame(st, a, c, ROOT_DIR_SECTOR)
  {
    hide IsNode, Inode.Contents, Inode.Decode;
  }

  // ----- formatting -----

  /** `do_format`: a device with the free map in its file and an empty root directory. */
  method Format(device: Inode.Device) returns (v: Volume)
    requires Inode.IsDevice(device.sectors) && 3 + FreeMapSectors(|device.sectors|) <= |device.sectors| < Inode.WORD
    modifies device
    ensures v.Valid() && v.fs.device == device && fresh(v) && v.fs.dir == map[] && v.fs.files == map[]
    ensures v.fs.slots == 16 && v.fs.St().fileMap == v.fs.St().freeMap
  {
    hide Inv, CountsExact, Inode.BytesToSectors, Bitmap.ElemCnt, Inode.Contents, Inode.Decode, Directory.Entries;
    hide Leaked, SavedMap;
    var fs := new FileSystem(device);
    EmptyDirectory(Inode.Contents(device.sectors, fs.disk[ROOT_DIR_SECTOR]));
    FormattedNodes(fs.St(), device.sectors);
    v := new Volume(fs);
  }

  lemma {:induction false} FormattedNodes(st: State, sectors: Sectors)
    requires st.dir == map[] && st.open == map[] && |sectors| == |st.freeMap| >= 2 && Inode.IsDevice(sectors)
    requires st.disk.Keys == {FREE_MAP_SECTOR, ROOT_DIR_SECTOR}
    requires forall s | s in st.disk :: Inode.OnDevice(sectors, st.disk[s]) && Inode.Decode(sectors[s]) == st.disk[s]
    ensures InodesOnDevice(st, sectors)
  {
    hide Inode.Decode, Inode.BytesToSectors;
    forall s: nat | IsNode(st, s) ensures InodeAt(st, sectors, s) {}
  }

  /** A file of zeros is an empty directory. */
  lemma {:induction false} EmptyDirectory(c: seq<byte>)
    requires |c| == ROOT_DIR_BYTES && forall i | 0 <= i < |c| :: c[i] == 0
    ensures Directory.Entries(c) == map[] && Directory.SlotCount(c) == 16
  {
    forall i: nat ensures !Directory.Live(c, i) {}
  }
}
