/** Which sectors of the disk belong to what, over every operation of the file system
    (filesys/filesys.c, free-map.c, inode.c, file.c).

    The directory is the table of entries that module Directory derives from its bytes.  The free map's
    file is on the device; the other bytes of the device are the subject of module Volume.  A call that
    may fail for want of memory takes the outcome as a parameter.  Calls do not overlap. */
module FileSys {
  import opened Common
  import opened Bitmap
  import Inode
  import Directory

  type Data = Inode.Data
  type Name = seq<byte>

  const FREE_MAP_SECTOR: nat := 0
  const ROOT_DIR_SECTOR: nat := 1

  /** Room for 16 entries. */
  const ROOT_DIR_BYTES: nat := 16 * Directory.ENTRY

  /** `struct inode`. */
  datatype OpenInode = OpenInode(data: Data, openCnt: nat, removed: bool, denyCnt: nat)

  /** What the free map in memory, the one in its file, the inodes, the root directory and the list of
      open inodes say. */
  datatype State = State(freeMap: seq<bool>, fileMap: seq<bool>, disk: map<nat, Data>, dir: Directory.Table,
                         open: map<nat, OpenInode>)

  /** Inode `s` is the system's, or an entry of the directory refers to it. */
  ghost predicate Placed(st: State, s: nat) {
    s == FREE_MAP_SECTOR || s == ROOT_DIR_SECTOR || exists i :: i in st.dir && st.dir[i].sector == s
  }

  /** The inodes in use: the placed ones and the open ones. */
  ghost predicate IsNode(st: State, s: nat) {
    Placed(st, s) || s in st.open
  }

  predicate InData(d: Data, x: nat) {
    d.start <= x < d.start + Inode.BytesToSectors(d.length)
  }

  /** Sector `x` holds inode `s` or some of its data. */
  ghost predicate Owns(st: State, s: nat, x: nat) {
    IsNode(st, s) && s in st.disk && (x == s || InData(st.disk[s], x))
  }

  ghost predicate Owned(st: State, x: nat) {
    exists s: nat :: Owns(st, s, x)
  }

  /** Marked in the free map, but part of no inode in use. */
  ghost predicate Leaked(st: State, x: nat) {
    x < |st.freeMap| && st.freeMap[x] && !Owned(st, x)
  }

  // ----- the invariant -----

  /** No sector has two uses, and all that are in use are marked, in memory and in the file. */
  ghost predicate SectorsApart(st: State) {
    && |st.fileMap| == |st.freeMap|
    && (forall s: nat | IsNode(st, s) :: s in st.disk && !InData(st.disk[s], s) && st.disk[s].start <= |st.freeMap|)
    && (forall s: nat, t: nat, x: nat | Owns(st, s, x) && Owns(st, t, x) :: s == t)
    && (forall s: nat, x: nat | Owns(st, s, x) :: x < |st.freeMap| && st.freeMap[x] && st.fileMap[x])
  }

  /** Entries refer to different inodes, none of them the system's; an inode that is removed has no
      entry and is not the system's. */
  ghost predicate EntriesExact(st: State) {
    && (forall i, j | i in st.dir && j in st.dir && i != j :: st.dir[i].sector != st.dir[j].sector)
    && (forall i | i in st.dir :: st.dir[i].sector != FREE_MAP_SECTOR && st.dir[i].sector != ROOT_DIR_SECTOR)
    && (forall i | i in st.dir && st.dir[i].sector in st.open :: !st.open[st.dir[i].sector].removed)
    && (forall s | s in st.open :: st.open[s].data == if s in st.disk then st.disk[s] else st.open[s].data)
    && (forall s | s in st.open && st.open[s].removed :: s != FREE_MAP_SECTOR && s != ROOT_DIR_SECTOR)
  }

  ghost predicate Inv(st: State) {
    SectorsApart(st) && EntriesExact(st)
  }

  /** The sectors of `st'` with no use are those of `st`, but for what is said. */
  ghost predicate LeakedIs(st: State, st': State, more: iset<nat>, less: iset<nat>) {
    && |st'.freeMap| == |st.freeMap|
    && forall x: nat :: Leaked(st', x) <==> (Leaked(st, x) || x in more) && x !in less
  }

  // ----- what the invariant means -----

  /** The data of two files never overlaps, nor does it touch an inode. */
  lemma {:induction false} FilesApart(st: State, s: nat, t: nat)
    requires SectorsApart(st) && IsNode(st, s) && IsNode(st, t) && s != t
    ensures s in st.disk && t in st.disk && !InData(st.disk[s], t)
    ensures var d, e := st.disk[s], st.disk[t];
      || d.length == 0 || e.length == 0
      || d.start + Inode.BytesToSectors(d.length) <= e.start || e.start + Inode.BytesToSectors(e.length) <= d.start
  {
    var d, e := st.disk[s], st.disk[t];
    assert Owns(st, t, t);
    forall x: nat ensures InData(d, x) ==> x != t && !InData(e, x) {
      assert InData(d, x) ==> Owns(st, s, x);
      assert InData(e, x) ==> Owns(st, t, x);
    }
    assert d.length > 0 ==> InData(d, d.start);
    assert e.length > 0 ==> InData(e, e.start);
  }

  /** Writing one file leaves every other file's contents as they are. */
  lemma {:induction false} WritesStayInside(st: State, s: nat, t: nat, sectors: seq<seq<byte>>,
                                            sectors': seq<seq<byte>>, offset: nat, bytes: seq<byte>)
    requires SectorsApart(st) && IsNode(st, s) && IsNode(st, t) && s != t && s in st.disk && t in st.disk
    requires Inode.OnDevice(sectors, st.disk[s]) && Inode.OnDevice(sectors, st.disk[t])
    requires Inode.OnDevice(sectors', st.disk[t])
    requires |sectors'| == |sectors| && offset + |bytes| <= st.disk[s].length
    requires st.disk[s].start * Inode.SECTOR + offset + |bytes| <= |Inode.Flat(sectors)|
    requires Inode.Flat(sectors') == Inode.Splice(Inode.Flat(sectors), st.disk[s].start * Inode.SECTOR + offset, bytes)
    ensures Inode.Contents(sectors', st.disk[t]) == Inode.Contents(sectors, st.disk[t])
  {
    hide Inode.Flat, Inode.Contents, Inode.Splice, Owns, IsNode, SectorsApart, Inode.BytesToSectors;
    FilesApart(st, s, t);
    var d, e := st.disk[s], st.disk[t];
    if e.length == 0 {
      assert Inode.Contents(sectors', e) == [] == Inode.Contents(sectors, e);
    } else if d.length == 0 {
      NothingWritten(Inode.Flat(sectors), d.start * Inode.SECTOR + offset, bytes);
      Directory.SameFlat(sectors, sectors', e);
    } else {
      Inode.WriteElsewhere(sectors, sectors', d, e, offset, bytes);
    }
  }

  lemma {:induction false} NothingWritten(s: seq<byte>, ofs: nat, t: seq<byte>)
    requires t == [] && ofs <= |s|
    ensures Inode.Splice(s, ofs, t) == s
  {
  }

  // ----- steps -----

  ghost function Range(i: nat, cnt: nat): iset<nat> { iset x: nat | InData2(i, cnt, x) }
  predicate InData2(i: nat, cnt: nat, x: nat) { i <= x < i + cnt }

  /** The sectors of an inode in sector `s`. */
  ghost function Extent(s: nat, d: Data): iset<nat> { iset x: nat | x == s || InData(d, x) }

  const NONE: iset<nat> := iset{}

  lemma {:induction false} SameOwners(st: State, st': State)
    requires st'.disk == st.disk && st'.dir == st.dir && st'.open.Keys == st.open.Keys
    ensures forall s: nat :: IsNode(st', s) <==> IsNode(st, s)
    ensures forall s: nat, x: nat :: Owns(st', s, x) <==> Owns(st, s, x)
    ensures forall x: nat :: Owned(st', x) <==> Owned(st, x)
  {
    assert forall s: nat :: Placed(st', s) <==> Placed(st, s);
    NodesDecide(st, st');
  }

  lemma {:induction false} NodesDecide(st: State, st': State)
    requires st'.disk == st.disk && forall s: nat :: IsNode(st', s) <==> IsNode(st, s)
    ensures forall s: nat, x: nat :: Owns(st', s, x) <==> Owns(st, s, x)
    ensures forall x: nat :: Owned(st', x) <==> Owned(st, x)
  {
    hide IsNode;
    assert forall s: nat, x: nat :: Owns(st', s, x) <==> Owns(st, s, x);
  }

  /** Writing some of the free map to its file: what is marked in both stays marked. */
  lemma {:induction false} MapSaved(st: State, f: seq<bool>)
    requires Inv(st) && |f| == |st.freeMap|
    requires forall x | 0 <= x < |f| && st.freeMap[x] && st.fileMap[x] :: f[x]
    ensures var st' := st.(fileMap := f); Inv(st') && LeakedIs(st, st', NONE, NONE)
  {
    hide Owned, IsNode, Owns;
    SameOwners(st, st.(fileMap := f));
  }

  /** Marking free sectors. */
  lemma {:induction false} Marked(st: State, i: nat, cnt: nat)
    requires Inv(st) && All(st.freeMap, i, cnt, false)
    ensures var st' := st.(freeMap := Fill(st.freeMap, i, cnt, true));
            Inv(st') && LeakedIs(st, st', Range(i, cnt), NONE)
  {
    hide Owned, IsNode, Owns;
    var st' := st.(freeMap := Fill(st.freeMap, i, cnt, true));
    SameOwners(st, st');
    OwnedIsMarked(st);
  }

  lemma {:induction false} OwnedIsMarked(st: State)
    requires SectorsApart(st)
    ensures forall x: nat | Owned(st, x) :: x < |st.freeMap| && st.freeMap[x]
  {
    forall x: nat | Owned(st, x) ensures x < |st.freeMap| && st.freeMap[x] {
      var s: nat :| Owns(st, s, x);
    }
  }

  /** Unmarking sectors that have no use. */
  lemma {:induction false} Unmarked(st: State, i: nat, cnt: nat)
    requires Inv(st) && i + cnt <= |st.freeMap| && forall x: nat | InData2(i, cnt, x) :: Leaked(st, x)
    ensures All(st.freeMap, i, cnt, true)
    ensures var st' := st.(freeMap := Fill(st.freeMap, i, cnt, false));
            Inv(st') && LeakedIs(st, st', NONE, Range(i, cnt))
  {
    hide Owned, IsNode, Owns;
    var st' := st.(freeMap := Fill(st.freeMap, i, cnt, false));
    SameOwners(st, st');
    forall x | i <= x < i + cnt ensures st.freeMap[x] { assert InData2(i, cnt, x); }
    NotOwned(st, i, cnt);
  }

  lemma {:induction false} NotOwned(st: State, i: nat, cnt: nat)
    requires forall x: nat | InData2(i, cnt, x) :: Leaked(st, x)
    ensures forall s: nat, x: nat | Owns(st, s, x) :: !InData2(i, cnt, x)
  {
    forall s: nat, x: nat | Owns(st, s, x) ensures !InData2(i, cnt, x) {
      assert Owned(st, x);
    }
  }

  /** Writing an inode that is not in use. */
  lemma {:induction false} InodeWritten(st: State, s: nat, d: Data)
    requires Inv(st) && !IsNode(st, s)
    ensures var st' := st.(disk := st.disk[s := d]); Inv(st') && LeakedIs(st, st', NONE, NONE) && !IsNode(st', s)
  {
    var st' := st.(disk := st.disk[s := d]);
    assert forall t: nat :: Placed(st', t) <==> Placed(st, t);
    assert forall t: nat, x: nat :: Owns(st', t, x) <==> Owns(st, t, x);
    assert forall x: nat :: Owned(st', x) <==> Owned(st, x);
  }

  /** Filling a free slot with an inode whose sectors are marked and have no other use. */
  lemma {:induction false} Entered(st: State, i: nat, e: Directory.Entry)
    requires var s := e.sector;
      && Inv(st) && i !in st.dir && !IsNode(st, s) && s in st.disk && !InData(st.disk[s], s)
      && st.disk[s].start <= |st.freeMap|
      && forall x: nat | x in Extent(s, st.disk[s]) :: Leaked(st, x) && st.fileMap[x]
    ensures var st' := st.(dir := st.dir[i := e]);
            Inv(st') && LeakedIs(st, st', NONE, Extent(e.sector, st.disk[e.sector]))
  {
    hide Owned;
    var st' := st.(dir := st.dir[i := e]);
    NodeEntered(st, i, e);
    NodeAdded(st, st', e.sector);
  }

  lemma {:induction false} NodeEntered(st: State, i: nat, e: Directory.Entry)
    requires i !in st.dir
    ensures forall t: nat :: Placed(st.(dir := st.dir[i := e]), t) <==> Placed(st, t) || t == e.sector
    ensures forall t: nat :: IsNode(st.(dir := st.dir[i := e]), t) <==> IsNode(st, t) || t == e.sector
  {
    var st' := st.(dir := st.dir[i := e]);
    forall t: nat ensures Placed(st', t) <==> Placed(st, t) || t == e.sector {
      if t == e.sector { assert i in st'.dir && st'.dir[i].sector == t; }
      if j :| j in st.dir && st.dir[j].sector == t { assert j in st'.dir && st'.dir[j].sector == t; }
      if j :| j in st'.dir && st'.dir[j].sector == t && j != i { assert j in st.dir && st.dir[j].sector == t; }
    }
  }

  /** Adding one inode to those in use. */
  lemma {:induction false} NodeAdded(st: State, st': State, s: nat)
    requires SectorsApart(st) && st'.disk == st.disk && st'.freeMap == st.freeMap && st'.fileMap == st.fileMap
    requires s in st.disk && !InData(st.disk[s], s) && st.disk[s].start <= |st.freeMap|
    requires forall t: nat :: IsNode(st', t) <==> IsNode(st, t) || t == s
    requires forall x: nat | x in Extent(s, st.disk[s]) :: Leaked(st, x) && st.fileMap[x]
    ensures SectorsApart(st') && LeakedIs(st, st', NONE, Extent(s, st.disk[s]))
  {
    hide IsNode;
    var d := st.disk[s];
    forall t: nat, x: nat ensures Owns(st', t, x) <==> Owns(st, t, x) || (t == s && x in Extent(s, d)) {}
    forall x: nat ensures Owned(st', x) <==> Owned(st, x) || x in Extent(s, d) {
      if x in Extent(s, d) { assert Owns(st', s, x); }
      if t: nat :| Owns(st, t, x) { assert Owns(st', t, x); }
      if t: nat :| Owns(st', t, x) && t != s { assert Owns(st, t, x); }
    }
    forall t: nat, x: nat | Owns(st, t, x) ensures x !in Extent(s, d) {
      assert Owned(st, x);
    }
  }

  /** `inode_open` of an inode that is not open yet. */
  lemma {:induction false} Opened(st: State, s: nat)
    requires Inv(st) && IsNode(st, s) && s !in st.open
    ensures s in st.disk
    ensures var st' := st.(open := st.open[s := OpenInode(st.disk[s], 1, false, 0)]);
            Inv(st') && LeakedIs(st, st', NONE, NONE)
  {
    hide Owned, Owns;
    var st' := st.(open := st.open[s := OpenInode(st.disk[s], 1, false, 0)]);
    assert forall t: nat :: Placed(st', t) <==> Placed(st, t);
    NodesDecide(st, st');
  }

  /** Changing the counters of an open inode. */
  lemma {:induction false} Counted(st: State, s: nat, openCnt: nat, denyCnt: nat)
    requires Inv(st) && s in st.open
    ensures var st' := st.(open := st.open[s := st.open[s].(openCnt := openCnt, denyCnt := denyCnt)]);
            Inv(st') && LeakedIs(st, st', NONE, NONE)
  {
    hide IsNode, Owns, Owned;
    var st' := st.(open := st.open[s := st.open[s].(openCnt := openCnt, denyCnt := denyCnt)]);
    SameOwners(st, st');
  }

  /** Erasing an entry and marking its inode, which is open, as removed. */
  lemma {:induction false} Unlinked(st: State, i: nat)
    requires Inv(st) && i in st.dir && st.dir[i].sector in st.open
    ensures var s := st.dir[i].sector;
            var st' := st.(dir := st.dir - {i}, open := st.open[s := st.open[s].(removed := true)]);
            Inv(st') && LeakedIs(st, st', NONE, NONE) && forall t: nat :: IsNode(st', t) <==> IsNode(st, t)
  {
    hide Owned, Owns;
    var s := st.dir[i].sector;
    var st' := st.(dir := st.dir - {i}, open := st.open[s := st.open[s].(removed := true)]);
    EntryLess(st, st', i);
    NodesDecide(st, st');
  }

  lemma {:induction false} EntryLess(st: State, st': State, i: nat)
    requires EntriesExact(st) && i in st.dir && st'.dir == st.dir - {i}
    ensures forall t: nat :: Placed(st', t) <==> Placed(st, t) && t != st.dir[i].sector
  {
    forall t: nat ensures Placed(st', t) <==> Placed(st, t) && t != st.dir[i].sector {
      if j :| j in st.dir && st.dir[j].sector == t && j != i { assert j in st'.dir && st'.dir[j].sector == t; }
      if j :| j in st'.dir && st'.dir[j].sector == t { assert j in st.dir && st.dir[j].sector == t; }
    }
  }

  /** The sectors that no use is left for when an entry is written over: its inode's, unless that is
      open. */
  ghost function Forgotten(st: State, i: nat): iset<nat> {
    if i in st.dir && st.dir[i].sector !in st.open && st.dir[i].sector in st.disk
    then Extent(st.dir[i].sector, st.disk[st.dir[i].sector])
    else NONE
  }

  /** An entry disappears and its inode stays as it is: open without a name, or part of nothing. */
  lemma {:induction false} EntryLost(st: State, i: nat)
    requires Inv(st) && i in st.dir
    ensures var st' := st.(dir := st.dir - {i}); Inv(st') && LeakedIs(st, st', Forgotten(st, i), NONE)
  {
    hide Owned, Owns;
    var st', v := st.(dir := st.dir - {i}), st.dir[i].sector;
    EntryLess(st, st', i);
    assert Placed(st, v);
    if v in st.open { NodesDecide(st, st'); } else { NodeGone(st, st', v); }
  }

  /** Taking an inode off the list of open ones: without an entry its sectors have no use any more. */
  lemma {:induction false} Closed(st: State, s: nat)
    requires Inv(st) && s in st.open
    ensures IsNode(st, s) && s in st.disk && st.open[s].data == st.disk[s] && s < |st.freeMap|
    ensures st.disk[s].start + Inode.BytesToSectors(st.disk[s].length) <= |st.freeMap| && !InData(st.disk[s], s)
    ensures st.open[s].removed ==> !Placed(st, s)
    ensures var st' := st.(open := st.open - {s});
            && Inv(st') && LeakedIs(st, st', if Placed(st, s) then NONE else Extent(s, st.disk[s]), NONE)
            && (IsNode(st', s) <==> Placed(st, s))
  {
    hide Owned;
    var st', d := st.(open := st.open - {s}), st.disk[s];
    assert IsNode(st, s) && Owns(st, s, s);
    assert d.length > 0 ==> Owns(st, s, d.start + Inode.BytesToSectors(d.length) - 1);
    assert forall t: nat :: Placed(st', t) <==> Placed(st, t);
    if Placed(st, s) { NodesDecide(st, st'); } else { NodeGone(st, st', s); }
  }

  /** One inode less in use. */
  lemma {:induction false} NodeGone(st: State, st': State, s: nat)
    requires SectorsApart(st) && st'.disk == st.disk && st'.freeMap == st.freeMap && st'.fileMap == st.fileMap
    requires IsNode(st, s) && s in st.disk && forall t: nat :: IsNode(st', t) <==> IsNode(st, t) && t != s
    ensures SectorsApart(st') && LeakedIs(st, st', Extent(s, st.disk[s]), NONE)
  {
    hide IsNode;
    var d := st.disk[s];
    forall t: nat, x: nat ensures Owns(st', t, x) <==> Owns(st, t, x) && t != s {}
    forall x: nat ensures Owned(st', x) <==> Owned(st, x) && x !in Extent(s, d) {
      if x in Extent(s, d) { assert Owns(st, s, x); }
      if t: nat :| Owns(st, t, x) && t != s { assert Owns(st', t, x); }
      if t: nat :| Owns(st', t, x) { assert Owns(st, t, x); }
    }
    assert forall x: nat | x in Extent(s, d) :: Owns(st, s, x);
  }

  /** Mounting the device again, with nothing open and the map that is in the file: the inodes with
      entries keep their sectors, and no sector has two uses. */
  lemma {:induction false} Remounted(st: State)
    requires Inv(st)
    ensures var st' := State(st.fileMap, st.fileMap, st.disk, st.dir, map[]);
      && Inv(st') && (forall s: nat :: IsNode(st', s) <==> Placed(st, s))
      && (st.open == map[] && st.fileMap == st.freeMap ==> st' == st)
  {
    var st' := State(st.fileMap, st.fileMap, st.disk, st.dir, map[]);
    assert forall s: nat :: Placed(st', s) <==> Placed(st, s);
    assert forall s: nat, x: nat | Owns(st', s, x) :: Owns(st, s, x);
  }

  // ----- open files -----

  /** `struct file`, but for its position. */
  datatype File = File(sector: nat, denyWrite: bool)

  function FilesOn(files: map<nat, File>, s: nat): set<nat> {
    set id | id in files && files[id].sector == s
  }

  function DenyingOn(files: map<nat, File>, s: nat): set<nat> {
    set id | id in files && files[id].sector == s && files[id].denyWrite
  }

  /** Each open inode counts the pointers to it and the files that deny writing it.  `refs` holds a
      sector once for every pointer that `inode_open` or `inode_reopen` gave out and that was not
      closed; every open file has one of them. */
  ghost predicate CountsExact(open: map<nat, OpenInode>, files: map<nat, File>, refs: multiset<nat>) {
    && (forall s | s in open :: open[s].openCnt == refs[s] > 0 && open[s].denyCnt == |DenyingOn(files, s)|)
    && (forall s | s in refs :: s in open)
    && (forall s: nat :: |FilesOn(files, s)| <= refs[s])
  }

  lemma {:induction false} Subset(a: set<nat>, b: set<nat>)
    requires a <= b
    ensures |a| <= |b|
  {
    assert b == a + (b - a);
  }

  /** Writes are denied exactly while some open file denies them, and no more files deny them than
      there are openers. */
  lemma {:induction false} DenyMeaning(open: map<nat, OpenInode>, files: map<nat, File>, refs: multiset<nat>, s: nat)
    requires CountsExact(open, files, refs) && s in open
    ensures open[s].denyCnt > 0 <==> exists id :: id in files && files[id] == File(s, true)
    ensures open[s].denyCnt <= open[s].openCnt
  {
    Subset(DenyingOn(files, s), FilesOn(files, s));
    if open[s].denyCnt > 0 {
      var id :| id in DenyingOn(files, s);
      assert id in files && files[id] == File(s, true);
    }
    if id :| id in files && files[id] == File(s, true) {
      assert id in DenyingOn(files, s);
    }
  }

  lemma {:induction false} FileAdded(files: map<nat, File>, id: nat, f: File, t: nat)
    requires id !in files
    ensures FilesOn(files[id := f], t) == FilesOn(files, t) + if f.sector == t then {id} else {}
    ensures DenyingOn(files[id := f], t) == DenyingOn(files, t) + if f == File(t, true) then {id} else {}
  {
  }

  lemma {:induction false} FileDropped(files: map<nat, File>, id: nat, t: nat)
    requires id in files
    ensures FilesOn(files - {id}, t) == FilesOn(files, t) - {id}
    ensures DenyingOn(files - {id}, t) == DenyingOn(files, t) - {id}
  {
  }

  lemma {:induction false} FlagSet(files: map<nat, File>, id: nat, deny: bool, t: nat)
    requires id in files
    ensures FilesOn(files[id := files[id].(denyWrite := deny)], t) == FilesOn(files, t)
    ensures DenyingOn(files[id := files[id].(denyWrite := deny)], t)
      == if files[id].sector != t then DenyingOn(files, t)
         else if deny then DenyingOn(files, t) + {id} else DenyingOn(files, t) - {id}
  {
  }

  /** One more pointer to an inode. */
  lemma {:induction false} RefAdded(open: map<nat, OpenInode>, files: map<nat, File>, refs: multiset<nat>, s: nat,
                                    d: Data)
    requires CountsExact(open, files, refs)
    ensures var o := if s in open then open[s].(openCnt := open[s].openCnt + 1) else OpenInode(d, 1, false, 0);
            CountsExact(open[s := o], files, refs + multiset{s})
  {
    hide FilesOn, DenyingOn;
    if s !in open {
      assert refs[s] == 0;
      NoFiles(files, s);
    }
  }

  lemma {:induction false} NoFiles(files: map<nat, File>, s: nat)
    requires |FilesOn(files, s)| == 0
    ensures DenyingOn(files, s) == {}
  {
    Subset(DenyingOn(files, s), FilesOn(files, s));
  }

  lemma {:induction false} CountIs(open: map<nat, OpenInode>, files: map<nat, File>, refs: multiset<nat>, s: nat)
    requires CountsExact(open, files, refs) && s in open
    ensures open[s].openCnt == refs[s] > 0
  {
  }

  lemma {:induction false} NotLeaked(st: State, s: nat)
    requires IsNode(st, s) && s in st.disk
    ensures forall x: nat | x in Extent(s, st.disk[s]) :: !Leaked(st, x)
  {
    forall x: nat | x in Extent(s, st.disk[s]) ensures !Leaked(st, x) { assert Owns(st, s, x); }
  }

  /** One pointer less, which no file holds. */
  lemma {:induction false} RefDropped(open: map<nat, OpenInode>, files: map<nat, File>, refs: multiset<nat>, s: nat)
    requires CountsExact(open, files, refs) && s in open && |FilesOn(files, s)| < refs[s]
    ensures var k := open[s].openCnt - 1;
            var open' := if k == 0 then open - {s} else open[s := open[s].(openCnt := k)];
            k >= 0 && CountsExact(open', files, refs - multiset{s})
  {
    hide FilesOn, DenyingOn;
  }

  // ----- the free map's file -----

  type Sectors = seq<seq<byte>>

  /** The map that the bytes of its file stand for. */
  ghost function SavedMap(sectors: Sectors, d: Data, bitCnt: nat): (m: seq<bool>)
    requires Inode.OnDevice(sectors, d) && d.length == 4 * ElemCnt(bitCnt)
    ensures |m| == bitCnt
  {
    Bits(WordsOf(Inode.Contents(sectors, d)), bitCnt)
  }

  /** A write of the whole map succeeds: no file denies it, and there is a bounce buffer for what is
      behind the last whole sector. */
  predicate MapWrites(files: map<nat, File>, length: nat, bounceOk: bool) {
    (forall id | id in files :: files[id] != File(FREE_MAP_SECTOR, true)) && (bounceOk || length % Inode.SECTOR == 0)
  }

  /** `bitmap_write`: the file holds the map up to where the write stopped, and what it held before from
      there on. */
  method BitmapWrite(freeMap: Map, device: Inode.Device, d: Data, denyCnt: nat, bounceOk: bool) returns (ok: bool)
    requires freeMap.Valid() && Inode.OnDevice(device.sectors, d) && d.length == 4 * ElemCnt(freeMap.bitCnt)
    modifies device
    ensures Inode.OnDevice(device.sectors, d) && Inode.ChangesOnly(old(device.sectors), device.sectors, d)
    ensures ok <==> d.length == 0 || (denyCnt == 0 && (bounceOk || d.length % Inode.SECTOR == 0))
    ensures exists n: nat :: SavedMap(device.sectors, d, freeMap.bitCnt) ==
              Mixed(freeMap.Value(), SavedMap(old(device.sectors), d, freeMap.bitCnt), n)
    ensures ok ==> SavedMap(device.sectors, d, freeMap.bitCnt) == freeMap.Value()
  {
    hide Inode.Flat, Inode.Contents, Inode.Splice, Bits, ElemCnt, Inode.BytesToSectors, WordsOf, MapBytes;
    var b := freeMap.Bytes();
    ghost var sectors, words := device.sectors, freeMap.bits[..];
    var n := device.WriteAt(d, denyCnt, b, d.length, 0, bounceOk);
    if n > 0 {
      Inode.WriteThenRead(sectors, device.sectors, d, 0, b[..n]);
      Overwritten(Inode.Contents(sectors, d), b, n);
    } else {
      Directory.SameFlat(sectors, device.sectors, d);
      assert b[..0] + Inode.Contents(sectors, d)[0..] == Inode.Contents(sectors, d);
    }
    WordBoundary(d.length, bounceOk);
    assert n % 4 == 0 && 4 * (n / 4) == n;
    WordsWritten(words, Inode.Contents(sectors, d), n / 4);
    BitsWritten(words, WordsOf(Inode.Contents(sectors, d)), freeMap.bitCnt, n / 4);
    assert SavedMap(device.sectors, d, freeMap.bitCnt) ==
           Mixed(freeMap.Value(), SavedMap(sectors, d, freeMap.bitCnt), n / 4 * ELEM_BITS);
    ok := n == d.length;
  }

  lemma {:induction false} Overwritten(c: seq<byte>, b: seq<byte>, n: nat)
    requires |b| == |c| && n <= |b|
    ensures Inode.Splice(c, 0, b[..n]) == b[..n] + c[n..]
  {
  }

  /** A write of whole words stops at a word boundary. */
  lemma {:induction false} WordBoundary(length: nat, bounceOk: bool)
    requires length % 4 == 0
    ensures var n := Inode.Moved(length, length, 0, bounceOk);
      n % 4 == 0 && n <= length && (n == length <==> bounceOk || length % Inode.SECTOR == 0)
  {
    var q := length / Inode.SECTOR;
    assert length - length % Inode.SECTOR == 4 * (128 * q);
  }

  // ----- the file system -----

  /** Everything but the open inodes. */
  ghost predicate SameDisk(st: State, st': State) {
    st'.freeMap == st.freeMap && st'.fileMap == st.fileMap && st'.disk == st.disk && st'.dir == st.dir
  }

  /** Everything but the counters of the open inodes and which inodes are open. */
  ghost predicate SameTree(st: State, st': State) {
    && SameDisk(st, st')
    && forall s | s in st.open && s in st'.open :: st'.open[s].removed == st.open[s].removed
  }

  /** A removed inode keeps its sectors while anyone has it open, and is out of use otherwise. */
  ghost predicate Gone(st: State, st': State, refs: multiset<nat>, s: nat) {
    if s in refs then s in st'.open && st'.open[s].removed && st'.freeMap == st.freeMap else !IsNode(st', s)
  }

  lemma {:induction false} GoneBefore(st: State, st1: State, st': State, refs: multiset<nat>, s: nat)
    requires Gone(st1, st', refs, s) && st1.freeMap == st.freeMap
    ensures Gone(st, st', refs, s)
  {
  }

  lemma {:induction false} FewerRefs(st: State, st': State, refs: multiset<nat>, s: nat)
    requires Gone(st, st', refs + multiset{ROOT_DIR_SECTOR}, s) && s != ROOT_DIR_SECTOR
    ensures Gone(st, st', refs, s)
  {
  }

  lemma {:induction false} GoneAfter(st: State, st1: State, st': State, refs: multiset<nat>, s: nat)
    requires Gone(st, st1, refs, s) && SameTree(st1, st') && s != ROOT_DIR_SECTOR
    requires st1.open.Keys - {ROOT_DIR_SECTOR} <= st'.open.Keys <= st1.open.Keys
    ensures Gone(st, st', refs, s)
  {
    SameTreeNodes(st1, st');
  }

  /** Whether there is memory for the writes of the map when an inode's sectors are released. */
  datatype Release = Release(inode: bool, data: bool)

  /** The sectors that no use is left for when a pointer to inode `s` is closed: its own, when it is the
      last, the inode is not removed, and no entry refers to it. */
  ghost function Dropped(st: State, refs: multiset<nat>, s: nat): iset<nat> {
    if refs[s] == 1 && s in st.open && !st.open[s].removed && !Placed(st, s) && s in st.disk
    then Extent(s, st.disk[s])
    else NONE
  }

  class FileSystem {
    const freeMap: Map
    const device: Inode.Device
    const mapData: Data
    const slots: nat
    var disk: map<nat, Data>
    var dir: Directory.Table
    var open: map<nat, OpenInode>
    var files: map<nat, File>
    ghost var refs: multiset<nat>

    ghost predicate MapReady()
      reads this, freeMap, device
    {
      && freeMap.Valid() && Inode.OnDevice(device.sectors, mapData) && |device.sectors| == freeMap.bitCnt
      && mapData.length == 4 * ElemCnt(freeMap.bitCnt)
    }

    ghost function St(): State
      requires MapReady()
      reads this, freeMap, freeMap.bits, device
    {
      State(freeMap.Value(), SavedMap(device.sectors, mapData, freeMap.bitCnt), disk, dir, open)
    }

    ghost predicate Valid()
      reads this, freeMap, freeMap.bits, device
    {
      && MapReady() && FREE_MAP_SECTOR in disk && disk[FREE_MAP_SECTOR] == mapData && Directory.InSlots(dir, slots)
      && Inv(St()) && CountsExact(open, files, refs)
    }

    /** `filesys_init` with formatting, short of `free_map_open`, on a device with enough sectors: two
        system inodes, no entries, nothing leaked, and the map in its file.  A failure is a panic. */
    constructor (device: Inode.Device)
      requires Inode.IsDevice(device.sectors) && 3 + FreeMapSectors(|device.sectors|) <= |device.sectors| < Inode.WORD
      modifies device
      ensures Valid() && this.device == device && freeMap.bitCnt == |device.sectors| == |old(device.sectors)|
      ensures fresh(freeMap) && fresh(freeMap.bits)
      ensures dir == map[] && open == map[] && files == map[] && refs == multiset{} && slots == 16
      ensures (forall x: nat :: !Leaked(St(), x)) && St().fileMap == St().freeMap
      ensures forall x | 0 <= x < freeMap.bitCnt :: St().freeMap[x] == (x < 3 + FreeMapSectors(freeMap.bitCnt))
      ensures disk == map[FREE_MAP_SECTOR := Inode.Data(2, 4 * ElemCnt(freeMap.bitCnt)),
                          ROOT_DIR_SECTOR := Inode.Data(2 + FreeMapSectors(freeMap.bitCnt), ROOT_DIR_BYTES)]
      ensures |device.sectors[0]| == |device.sectors[1]| == Inode.SECTOR
      ensures forall s | s in disk ::
                Inode.OnDevice(device.sectors, disk[s]) && Inode.Decode(device.sectors[s]) == disk[s]
      ensures Inode.Contents(device.sectors, disk[ROOT_DIR_SECTOR]) == seq(ROOT_DIR_BYTES, _ => 0)
    {
      hide Bits, IsNode, Owns, Owned, Inode.BytesToSectors, ElemCnt, Inv, Leaked, CountsExact, Fill, All, Inode.Decode;
      hide Inode.Contents;
      var bitCnt := |device.sectors|;
      var n := FreeMapSectors(bitCnt);
      FreeMapNotEmpty(bitCnt);
      RootDirSize();
      var m := new Map(bitCnt);
      m.Mark(FREE_MAP_SECTOR);
      m.Mark(ROOT_DIR_SECTOR);
      ghost var m0 := m.Value();
      FreshMap(m0, bitCnt, n);
      var a := m.ScanAndFlip(0, n, false);
      ghost var m1 := m.Value();
      RoomLeft(m0, m1, a.value, n);
      FirstBehind(m0, a.value, n);
      MapFits(bitCnt);
      var d0 := Inode.Data(a.value, 4 * ElemCnt(bitCnt));
      device.Create(FREE_MAP_SECTOR, d0);
      var saved := BitmapWrite(m, device, d0, 0, true);
      var b := m.ScanAndFlip(0, 1, false);
      PackedTight(m0, a.value, b.value, n);
      saved := BitmapWrite(m, device, d0, 0, true);
      var d1 := Inode.Data(b.value, ROOT_DIR_BYTES);
      ghost var sectors := device.sectors;
      device.Create(ROOT_DIR_SECTOR, d1);
      Inode.ContentsSame(sectors, device.sectors, d0);
      this.device, freeMap, mapData, slots := device, m, d0, 16;
      disk := map[FREE_MAP_SECTOR := d0, ROOT_DIR_SECTOR := d1];
      dir, open, files, refs := map[], map[], map[], multiset{};
      new;
      NothingOpen();
      Formatted(St(), m0, a.value, b.value, n);
    }

    /** `filesys_init` without formatting, on a device that another file system has left: nothing is open,
        and the free map is the one that its file holds. */
    constructor Mounted(other: FileSystem)
      requires other.Valid()
      ensures Valid() && device == other.device && mapData == other.mapData && slots == other.slots
      ensures fresh(freeMap) && fresh(freeMap.bits) && files == map[] && refs == multiset{}
      ensures St() == State(other.St().fileMap, other.St().fileMap, other.disk, other.dir, map[])
    {
      hide Bits, ElemCnt, Inv, CountsExact, WordsOf, Inode.BytesToSectors, Inode.Contents, MapBytes;
      ghost var st := other.St();
      MapNotEmpty(st, other.mapData);
      var m := new Map(|other.device.sectors|);
      var buffer: array<byte> := new byte[other.mapData.length](_ => 0);
      var n := other.device.ReadAt(other.mapData, buffer, other.mapData.length, 0, true);
      WordBoundary(other.mapData.length, true);
      assert buffer[..] == buffer[..n] == Inode.Contents(other.device.sectors, other.mapData);
      m.Load(buffer[..]);
      Remounted(st);
      NothingOpen();
      freeMap, device, mapData, slots := m, other.device, other.mapData, other.slots;
      disk, dir, open, files, refs := other.disk, other.dir, map[], map[], multiset{};
    }

    /** `bitmap_write` of the free map to its file. */
    method SaveMap(bounceOk: bool) returns (ok: bool)
      requires Valid()
      modifies device
      ensures Valid() && Inode.ChangesOnly(old(device.sectors), device.sectors, mapData)
      ensures ok <==> MapWrites(files, mapData.length, bounceOk)
      ensures St() == old(St()).(fileMap := St().fileMap) && LeakedIs(old(St()), St(), NONE, NONE)
      ensures ok ==> St().fileMap == St().freeMap
    {
      hide Bits, ElemCnt, Inv, CountsExact, LeakedIs, SavedMap;
      ghost var st := St();
      MapNotEmpty(st, mapData);
      MapDenied(open, files, refs);
      var denyCnt := if FREE_MAP_SECTOR in open then open[FREE_MAP_SECTOR].denyCnt else 0;
      ok := BitmapWrite(freeMap, device, mapData, denyCnt, bounceOk);
      ghost var f := SavedMap(device.sectors, mapData, freeMap.bitCnt);
      ghost var n: nat :| f == Mixed(freeMap.Value(), st.fileMap, n);
      MapsAgree(st);
      MapSaved(st, f);
    }

    /** `free_map_allocate`: the first group of free sectors, which therefore belong to nothing; none
        exactly when there is no group or the map could not be written.  On success the file holds the
        map. */
    method FreeMapAllocate(cnt: nat, bounceOk: bool) returns (sector: Option<nat>)
      requires Valid()
      modifies freeMap.bits, device
      ensures Valid() && Inode.ChangesOnly(old(device.sectors), device.sectors, mapData)
      ensures sector.None? ==> St() == old(St()).(fileMap := St().fileMap) && LeakedIs(old(St()), St(), NONE, NONE)
      ensures sector.Some? <==>
              MapWrites(files, mapData.length, bounceOk) && exists i: nat :: All(old(St()).freeMap, i, cnt, false)
      ensures sector.Some? ==> FirstFit(old(St()).freeMap, cnt, sector.value)
      ensures sector.Some? ==> var m := Fill(old(St()).freeMap, sector.value, cnt, true);
                               St() == old(St()).(freeMap := m, fileMap := m)
      ensures sector.Some? ==> LeakedIs(old(St()), St(), Range(sector.value, cnt), NONE)
    {
      hide Bits, ElemCnt, Inv, CountsExact, LeakedIs, Fill, SavedMap, MapWrites;
      ghost var st := St();
      LeakedSame(st);
      sector := freeMap.ScanAndFlip(0, cnt, false);
      if sector.Some? {
        Marked(st, sector.value, cnt);
        ghost var st1 := St();
        var written := SaveMap(bounceOk);
        LeakedThenSame(st, st1, St(), Range(sector.value, cnt), NONE);
        if !written {
          Refill(st.freeMap, sector.value, cnt);
          MapBack(st, St(), sector.value, cnt);
          freeMap.SetMultiple(sector.value, cnt, false);
          sector := None;
        }
      }
    }

    /** `free_map_release` of sectors that have no use: its assertion holds. */
    method FreeMapRelease(sector: nat, cnt: nat, bounceOk: bool)
      requires Valid() && sector + cnt <= freeMap.bitCnt && forall x: nat | InData2(sector, cnt, x) :: Leaked(St(), x)
      modifies freeMap.bits, device
      ensures Valid() && Inode.ChangesOnly(old(device.sectors), device.sectors, mapData)
      ensures LeakedIs(old(St()), St(), NONE, Range(sector, cnt))
      ensures St() == old(St()).(freeMap := Fill(old(St()).freeMap, sector, cnt, false), fileMap := St().fileMap)
      ensures MapWrites(files, mapData.length, bounceOk) ==> St().fileMap == St().freeMap
    {
      hide Bits, Inv, CountsExact, LeakedIs, Leaked, SavedMap, ElemCnt, MapWrites;
      ghost var st := St();
      Unmarked(st, sector, cnt);
      var other := freeMap.Contains(sector, cnt, false);
      assert !other;
      freeMap.SetMultiple(sector, cnt, false);
      ghost var st1 := St();
      var _ := SaveMap(bounceOk);
      LeakedThenSame(st, st1, St(), NONE, Range(sector, cnt));
    }

    /** `inode_create`: new data sectors and an inode that describes them. */
    method InodeCreate(s: nat, length: nat, callocOk: bool, bounceOk: bool) returns (ok: bool)
      requires Valid() && !IsNode(St(), s) && Leaked(St(), s)
      modifies this, freeMap.bits, device
      ensures Valid() && Inode.ChangesOnly(old(device.sectors), device.sectors, mapData)
      ensures refs == old(refs) && files == old(files) && dir == old(dir) && open == old(open)
      ensures !ok ==> St() == old(St()).(fileMap := St().fileMap) && LeakedIs(old(St()), St(), NONE, NONE)
      ensures ok <==> callocOk && MapWrites(files, mapData.length, bounceOk)
                      && exists i: nat :: All(old(St()).freeMap, i, Inode.BytesToSectors(length), false)
      ensures ok ==> s in disk && disk == old(disk)[s := disk[s]] && disk[s].length == length && !InData(disk[s], s)
      ensures ok ==> FirstFit(old(St()).freeMap, Inode.BytesToSectors(length), disk[s].start)
      ensures ok ==> LeakedIs(old(St()), St(), Range(disk[s].start, Inode.BytesToSectors(length)), NONE)
      ensures ok ==> !IsNode(St(), s) && St().fileMap == St().freeMap
      ensures ok ==> disk[s].start + Inode.BytesToSectors(length) <= |old(St()).freeMap|
                     && St().freeMap == Fill(old(St()).freeMap, disk[s].start, Inode.BytesToSectors(length), true)
    {
      hide Bits, Inv, CountsExact, LeakedIs, Inode.BytesToSectors, IsNode, SavedMap, ElemCnt, MapWrites;
      ghost var st := St();
      LeakedSame(st);
      FreeMapIsNode(st);
      if !callocOk { return false; }
      var start := FreeMapAllocate(Inode.BytesToSectors(length), bounceOk);
      if start.None? { return false; }
      ghost var st1 := St();
      SameOwners(st, st1);
      InodeWritten(st1, s, Inode.Data(start.value, length));
      disk := disk[s := Inode.Data(start.value, length)];
      LeakedThenSame(st, st1, St(), Range(start.value, Inode.BytesToSectors(length)), NONE);
      return true;
    }

    /** `inode_open`: one struct for each inode, however often it is opened. */
    method InodeOpen(s: nat, mallocOk: bool) returns (ok: bool)
      requires Valid() && IsNode(St(), s)
      modifies this
      ensures Valid() && SameTree(old(St()), St()) && files == old(files)
      ensures ok <==> s in old(open) || mallocOk
      ensures refs == if ok then old(refs) + multiset{s} else old(refs)
      ensures open.Keys == if ok then old(open).Keys + {s} else old(open).Keys
      ensures !ok ==> open == old(open)
      ensures LeakedIs(old(St()), St(), NONE, NONE)
    {
      hide Bits, Inv, CountsExact, LeakedIs, IsNode, SavedMap;
      ghost var st := St();
      LeakedSame(st);
      if s in open {
        InodeReopen(s);
        return true;
      }
      if !mallocOk { return false; }
      Opened(st, s);
      RefAdded(open, files, refs, s, disk[s]);
      open := open[s := OpenInode(disk[s], 1, false, 0)];
      refs := refs + multiset{s};
      return true;
    }

    /** `inode_reopen`. */
    method InodeReopen(s: nat)
      requires Valid() && s in open
      modifies this
      ensures Valid() && SameTree(old(St()), St()) && files == old(files)
      ensures refs == old(refs) + multiset{s} && open.Keys == old(open).Keys
      ensures LeakedIs(old(St()), St(), NONE, NONE)
    {
      hide Bits, Inv, CountsExact, LeakedIs, SavedMap;
      Counted(St(), s, open[s].openCnt + 1, open[s].denyCnt);
      RefAdded(open, files, refs, s, open[s].data);
      open := open[s := open[s].(openCnt := open[s].openCnt + 1)];
      refs := refs + multiset{s};
    }

    /** `inode_close`: the last close of a removed inode frees exactly its sectors, and no other close
        frees anything; the last close of an inode that is not removed and has no entry leaves its
        sectors without a use. */
    method InodeClose(s: nat, r: Release)
      requires Valid() && s in open && |FilesOn(files, s)| < refs[s]
      modifies this, freeMap.bits, device
      ensures Valid() && Inode.ChangesOnly(old(device.sectors), device.sectors, mapData)
      ensures files == old(files) && disk == old(disk) && dir == old(dir)
      ensures refs == old(refs) - multiset{s}
      ensures open.Keys == if old(refs)[s] == 1 then old(open).Keys - {s} else old(open).Keys
      ensures forall t | t in open :: open[t].removed == old(open)[t].removed && open[t].data == old(open)[t].data
      ensures LeakedIs(old(St()), St(), Dropped(old(St()), old(refs), s), NONE)
      ensures !(old(refs)[s] == 1 && old(open)[s].removed) ==>
              SameTree(old(St()), St()) && device.sectors == old(device.sectors)
      ensures old(refs)[s] == 1 && old(open)[s].removed ==>
        && s in disk && !IsNode(St(), s)
        && (MapWrites(files, mapData.length, r.data) ==> St().fileMap == St().freeMap)
        && forall x: nat | x < freeMap.bitCnt :: St().freeMap[x] == (old(St()).freeMap[x] && x !in Extent(s, disk[s]))
    {
      hide Bits, ElemCnt, Inv, LeakedIs, CountsExact, Inode.BytesToSectors, IsNode, FilesOn, DenyingOn, Leaked, Extent;
      hide SavedMap, MapWrites, Placed;
      ghost var st := St();
      CountIs(open, files, refs, s);
      RefDropped(open, files, refs, s);
      var inode := open[s].(openCnt := open[s].openCnt - 1);
      refs := refs - multiset{s};
      if inode.openCnt == 0 {
        Closed(st, s);
        open := open - {s};
        if inode.removed {
          NotLeaked(st, s);
          ReleaseInode(st, s, inode.data, r);
        }
      } else {
        Counted(st, s, inode.openCnt, inode.denyCnt);
        open := open[s := inode];
      }
    }

    /** The two releases of `inode_close`. */
    method ReleaseInode(ghost st: State, s: nat, d: Data, r: Release)
      requires Valid() && LeakedIs(st, St(), Extent(s, d), NONE) && !IsNode(St(), s) && |st.freeMap| == freeMap.bitCnt
      requires s < freeMap.bitCnt && d.start + Inode.BytesToSectors(d.length) <= freeMap.bitCnt && !InData(d, s)
      requires forall x: nat | x in Extent(s, d) :: !Leaked(st, x)
      modifies freeMap.bits, device
      ensures Valid() && Inode.ChangesOnly(old(device.sectors), device.sectors, mapData)
      ensures LeakedIs(st, St(), NONE, NONE) && !IsNode(St(), s)
      ensures MapWrites(files, mapData.length, r.data) ==> St().fileMap == St().freeMap
      ensures forall x: nat | x < freeMap.bitCnt :: St().freeMap[x] == (old(St()).freeMap[x] && x !in Extent(s, d))
    {
      hide Bits, Inv, CountsExact, Inode.BytesToSectors, IsNode, Leaked, SavedMap, MapWrites, ElemCnt;
      ghost var st1 := St();
      FreeMapRelease(s, 1, r.inode);
      ghost var st2 := St();
      FreeMapRelease(d.start, Inode.BytesToSectors(d.length), r.data);
      SameOwners(st1, St());
    }

    /** `file_open` of an inode pointer that it takes over, or closes when there is no memory. */
    method FileOpen(s: nat, id: nat, callocOk: bool, r: Release) returns (ok: bool)
      requires Valid() && s in open && |FilesOn(files, s)| < refs[s] && id !in files
      modifies this, freeMap.bits, device
      ensures Valid() && Inode.ChangesOnly(old(device.sectors), device.sectors, mapData)
      ensures ok == callocOk && disk == old(disk) && dir == old(dir)
      ensures files == if ok then old(files)[id := File(s, false)] else old(files)
      ensures refs == if ok then old(refs) else old(refs) - multiset{s}
      ensures LeakedIs(old(St()), St(), if ok then NONE else Dropped(old(St()), old(refs), s), NONE)
      ensures ok ==> St() == old(St()) && device.sectors == old(device.sectors)
      ensures open.Keys == if ok || old(refs)[s] > 1 then old(open).Keys else old(open).Keys - {s}
      ensures forall t | t in open :: open[t].removed == old(open)[t].removed
    {
      hide Bits, ElemCnt, Inv, LeakedIs, CountsExact, Inode.BytesToSectors, IsNode, FilesOn, DenyingOn, Leaked, Extent;
      hide SavedMap, Placed;
      LeakedSame(St());
      if callocOk {
        FileGiven(open, files, refs, id, s);
        files := files[id := File(s, false)];
        return true;
      } else {
        CountIs(open, files, refs, s);
        InodeClose(s, r);
        return false;
      }
    }

    /** `file_reopen`. */
    method FileReopen(id: nat, id': nat, callocOk: bool, r: Release) returns (ok: bool)
      requires Valid() && id in files && id' !in files
      modifies this, freeMap.bits, device
      ensures Valid() && Inode.ChangesOnly(old(device.sectors), device.sectors, mapData)
      ensures ok == callocOk && disk == old(disk) && dir == old(dir) && open.Keys == old(open).Keys
      ensures files == if ok then old(files)[id' := File(old(files)[id].sector, false)] else old(files)
      ensures refs == if ok then old(refs) + multiset{old(files)[id].sector} else old(refs)
      ensures LeakedIs(old(St()), St(), NONE, NONE)
    {
      hide Bits, ElemCnt, Inv, LeakedIs, CountsExact, Inode.BytesToSectors, IsNode, FilesOn, DenyingOn, Leaked, Extent;
      hide SavedMap, Placed;
      ghost var st := St();
      FileIsOpen(open, files, refs, id);
      var s := files[id].sector;
      InodeReopen(s);
      ghost var st1 := St();
      ok := FileOpen(s, id', callocOk, r);
      LeakedThenSame(st, st1, St(), NONE, NONE);
    }

    /** `file_close`: writes denied by the file are allowed again, and the inode is closed. */
    method FileClose(id: nat, r: Release)
      requires Valid() && id in files
      modifies this, freeMap.bits, device
      ensures Valid() && Inode.ChangesOnly(old(device.sectors), device.sectors, mapData)
      ensures files == old(files) - {id} && disk == old(disk) && dir == old(dir)
      ensures refs == old(refs) - multiset{old(files)[id].sector}
      ensures LeakedIs(old(St()), St(), Dropped(old(St()), old(refs), old(files)[id].sector), NONE)
      ensures old(refs)[old(files)[id].sector] > 1 ==> SameDisk(old(St()), St()) && open.Keys == old(open).Keys
      ensures forall t | t in open :: t in old(open) && open[t].removed == old(open)[t].removed
    {
      hide Bits, ElemCnt, Inv, LeakedIs, CountsExact, Inode.BytesToSectors, IsNode, FilesOn, DenyingOn, Leaked, Extent;
      hide SavedMap, Dropped, Placed, MapWrites, Directory.InSlots;
      ghost var st, s0 := St(), files[id].sector;
      FileAllowWrite(id);
      ghost var st1 := St();
      DroppedSame(st, st1, refs, s0);
      DropFile(id, r);
      SameThenLeaked(st, st1, St(), Dropped(st, old(refs), s0));
    }

    /** The end of `file_close`, when the file denies nothing. */
    method DropFile(id: nat, r: Release)
      requires Valid() && id in files && !files[id].denyWrite
      modifies this, freeMap.bits, device
      ensures Valid() && Inode.ChangesOnly(old(device.sectors), device.sectors, mapData)
      ensures files == old(files) - {id} && disk == old(disk) && dir == old(dir)
      ensures refs == old(refs) - multiset{old(files)[id].sector}
      ensures LeakedIs(old(St()), St(), Dropped(old(St()), old(refs), old(files)[id].sector), NONE)
      ensures old(refs)[old(files)[id].sector] > 1 ==> SameDisk(old(St()), St()) && open.Keys == old(open).Keys
      ensures forall t | t in open :: t in old(open) && open[t].removed == old(open)[t].removed
    {
      hide Bits, ElemCnt, Inv, LeakedIs, CountsExact, Inode.BytesToSectors, IsNode, FilesOn, DenyingOn, Leaked, Extent;
      hide SavedMap, Dropped, Placed, MapWrites, Directory.InSlots;
      var s := files[id].sector;
      FileIsOpen(open, files, refs, id);
      FileTaken(open, files, refs, id);
      files := files - {id};
      InodeClose(s, r);
    }

    /** `file_deny_write`. */
    method FileDenyWrite(id: nat)
      requires Valid() && id in files
      modifies this
      ensures Valid() && files == old(files)[id := old(files)[id].(denyWrite := true)]
      ensures refs == old(refs) && SameTree(old(St()), St()) && open.Keys == old(open).Keys
      ensures LeakedIs(old(St()), St(), NONE, NONE)
      ensures files[id].sector in open && 0 < open[files[id].sector].denyCnt <= open[files[id].sector].openCnt
    {
      hide Bits, ElemCnt, Inv, LeakedIs, CountsExact, Inode.BytesToSectors, IsNode, FilesOn, DenyingOn, Leaked, Extent;
      hide SavedMap;
      LeakedSame(St());
      FileIsOpen(open, files, refs, id);
      var s := files[id].sector;
      if !files[id].denyWrite {
        Counted(St(), s, open[s].openCnt, open[s].denyCnt + 1);
        FlagCounted(open, files, refs, id, true);
        files := files[id := files[id].(denyWrite := true)];
        open := open[s := open[s].(denyCnt := open[s].denyCnt + 1)];
      }
      assert files[id] == File(s, true);
      DenyMeaning(open, files, refs, s);
    }

    /** `file_allow_write`. */
    method FileAllowWrite(id: nat)
      requires Valid() && id in files
      modifies this
      ensures Valid() && files == old(files)[id := old(files)[id].(denyWrite := false)]
      ensures refs == old(refs) && SameTree(old(St()), St()) && open.Keys == old(open).Keys
      ensures LeakedIs(old(St()), St(), NONE, NONE)
    {
      hide Bits, ElemCnt, Inv, LeakedIs, CountsExact, Inode.BytesToSectors, IsNode, FilesOn, DenyingOn, Leaked, Extent;
      hide SavedMap;
      LeakedSame(St());
      FileIsOpen(open, files, refs, id);
      var s := files[id].sector;
      if files[id].denyWrite {
        DenyMeaning(open, files, refs, s);
        Counted(St(), s, open[s].openCnt, open[s].denyCnt - 1);
        FlagCounted(open, files, refs, id, false);
        files := files[id := files[id].(denyWrite := false)];
        open := open[s := open[s].(denyCnt := open[s].denyCnt - 1)];
      }
    }

    /** `free_map_open`: a file on the free map's inode, and the map that the file holds.  A failure is a
        panic. */
    method FreeMapOpen(id: nat, mallocOk: bool, callocOk: bool, bounceOk: bool) returns (ok: bool)
      requires Valid() && id !in files
      modifies this, freeMap.bits, device
      ensures ok <==> (FREE_MAP_SECTOR in old(open) || mallocOk) && callocOk
                      && (bounceOk || mapData.length % Inode.SECTOR == 0)
      ensures ok ==> Valid() && device.sectors == old(device.sectors) && disk == old(disk) && dir == old(dir)
      ensures ok ==> files == old(files)[id := File(FREE_MAP_SECTOR, false)]
      ensures ok ==> refs == old(refs) + multiset{FREE_MAP_SECTOR} && open.Keys == old(open).Keys + {FREE_MAP_SECTOR}
      ensures ok ==> St().freeMap == St().fileMap == old(St()).fileMap
    {
      hide Bits, ElemCnt, Inv, LeakedIs, CountsExact, Inode.BytesToSectors, IsNode, FilesOn, DenyingOn, Leaked, Extent;
      hide SavedMap;
      ghost var st := St();
      FilesCounted(open, files, refs, FREE_MAP_SECTOR);
      FreeMapIsNode(st);
      ok := InodeOpen(FREE_MAP_SECTOR, mallocOk);
      if !ok { return; }
      ok := FileOpen(FREE_MAP_SECTOR, id, callocOk, Release(true, true));
      if !ok { return; }
      ok := ReadMap(bounceOk);
    }

    /** `bitmap_read` of the free map from its file. */
    method ReadMap(bounceOk: bool) returns (ok: bool)
      requires Valid()
      modifies freeMap.bits
      ensures ok <==> bounceOk || mapData.length % Inode.SECTOR == 0
      ensures ok ==> Valid() && St() == old(St()).(freeMap := old(St()).fileMap)
    {
      hide Bits, ElemCnt, Inv, CountsExact, WordsOf, Inode.BytesToSectors, Inode.Contents, MapBytes;
      ghost var st := St();
      var buffer: array<byte> := new byte[mapData.length](_ => 0);
      var n := device.ReadAt(mapData, buffer, mapData.length, 0, bounceOk);
      WordBoundary(mapData.length, bounceOk);
      if n != mapData.length { return false; }
      MapNotEmpty(st, mapData);
      assert buffer[..] == buffer[..n] == Inode.Contents(device.sectors, mapData);
      MapLoaded(st);
      freeMap.Load(buffer[..]);
      return true;
    }

    /** `dir_open_root`. */
    method OpenRoot(mallocOk: bool, callocOk: bool) returns (ok: bool)
      requires Valid()
      modifies this, freeMap.bits, device
      ensures Valid() && SameTree(old(St()), St()) && files == old(files) && LeakedIs(old(St()), St(), NONE, NONE)
      ensures device.sectors == old(device.sectors)
      ensures refs == if ok then old(refs) + multiset{ROOT_DIR_SECTOR} else old(refs)
      ensures ok ==> ROOT_DIR_SECTOR in open && |FilesOn(files, ROOT_DIR_SECTOR)| < refs[ROOT_DIR_SECTOR]
      ensures open.Keys == if ok then old(open).Keys + {ROOT_DIR_SECTOR} else old(open).Keys
      ensures ok <==> (ROOT_DIR_SECTOR in old(open) || mallocOk) && callocOk
    {
      hide Bits, ElemCnt, Inv, LeakedIs, CountsExact, Inode.BytesToSectors, IsNode, FilesOn, DenyingOn, Leaked, Extent;
      hide SavedMap;
      ghost var st := St();
      FilesCounted(open, files, refs, ROOT_DIR_SECTOR);
      RootIsNode(st);
      ok := InodeOpen(ROOT_DIR_SECTOR, mallocOk);
      if !ok || callocOk { return; }
      ghost var st1 := St();
      CloseRoot();
      LeakedThenSame(st, st1, St(), NONE, NONE);
      ok := false;
    }

    /** `dir_close` of the root directory. */
    method CloseRoot()
      requires Valid() && ROOT_DIR_SECTOR in open && |FilesOn(files, ROOT_DIR_SECTOR)| < refs[ROOT_DIR_SECTOR]
      modifies this, freeMap.bits, device
      ensures Valid() && SameTree(old(St()), St()) && files == old(files) && LeakedIs(old(St()), St(), NONE, NONE)
      ensures device.sectors == old(device.sectors)
      ensures refs == old(refs) - multiset{ROOT_DIR_SECTOR}
      ensures open.Keys ==
              if old(refs)[ROOT_DIR_SECTOR] == 1 then old(open).Keys - {ROOT_DIR_SECTOR} else old(open).Keys
    {
      hide Bits, ElemCnt, Inv, LeakedIs, CountsExact, Inode.BytesToSectors, IsNode, FilesOn, DenyingOn, Leaked, Extent;
      hide SavedMap;
      RootKept(St());
      InodeClose(ROOT_DIR_SECTOR, Release(true, true));
    }

    /** `dir_add`, as module Directory proves it of the slots.  Memory may be missing: an entry that is
        written over takes its inode's place away. */
    method DirAdd(name: Name, s: nat, mem: Directory.AddMemory) returns (ok: bool)
      requires Valid() && !IsNode(St(), s) && s in disk && !InData(disk[s], s) && disk[s].start <= freeMap.bitCnt
      requires forall x: nat | x in Extent(s, disk[s]) :: Leaked(St(), x) && St().fileMap[x]
      modifies this
      ensures Valid() && ok == Directory.Writes(old(dir), slots, name, mem)
      ensures St() == old(St()).(dir := Directory.Added(old(dir), slots, name, s, mem))
      ensures refs == old(refs) && files == old(files)
      ensures ok ==> LeakedIs(old(St()), St(), Forgotten(old(St()), Directory.Target(old(dir), slots, mem)),
                              Extent(s, disk[s]))
    {
      hide Bits, ElemCnt, Inv, LeakedIs, CountsExact, IsNode, Leaked, SavedMap, Extent;
      hide Directory.SearchEnd, Directory.Found, Forgotten;
      ok := Directory.Writes(dir, slots, name, mem);
      if ok {
        Replaced(St(), Directory.Target(dir, slots, mem), Directory.Entry(name, s));
        dir := Directory.Added(dir, slots, name, s, mem);
      }
    }

    /** The part of `filesys_create` while the root directory is open. */
    method CreateIn(name: Name, size: nat, o: Outcomes, mem: Directory.AddMemory)
        returns (ok: bool, made: Option<(nat, Data)>, ghost lost: iset<nat>)
      requires Valid()
      modifies this, freeMap.bits, device
      ensures Valid() && Inode.ChangesOnly(old(device.sectors), device.sectors, mapData)
      ensures refs == old(refs) && files == old(files) && open == old(open)
      ensures made.Some? <==> MakesInode(files, mapData, o) && HasRoom(old(St()).freeMap, Inode.BytesToSectors(size))
      ensures ok <==> made.Some? && Directory.Writes(old(dir), slots, name, mem)
      ensures made.Some? ==> MadeAt(old(St()), size, made.value.0, made.value.1)
      ensures disk == if made.Some? then old(disk)[made.value.0 := made.value.1] else old(disk)
      ensures dir == if ok then Directory.Added(old(dir), slots, name, made.value.0, mem) else old(dir)
      ensures MarksMade(old(St()).freeMap, St().freeMap, made, ok)
      ensures LeakedIs(old(St()), St(), lost, NONE)
      ensures lost == if ok then Forgotten(old(St()), Directory.Target(old(dir), slots, mem))
                      else if made.Some? then Range(made.value.1.start, Inode.BytesToSectors(size)) else NONE
      ensures ok ==> St().fileMap == St().freeMap
    {
      hide Bits, ElemCnt, Inv, LeakedIs, CountsExact, IsNode, Leaked, Inode.BytesToSectors, Owned, Owns, Fill;
      hide HasRoom, FirstFit, Extent, Range, SavedMap, MapWrites, Directory.Writes, Directory.Target, Placed, Forgotten;
      hide MarksMade;
      ghost var st, n := St(), Inode.BytesToSectors(size);
      SameMarks(st.freeMap);
      lost := NONE;
      LeakedSame(st);
      var sector := FreeMapAllocate(1, o.sectorBounce);
      if sector.None? {
        if MapWrites(files, mapData.length, o.sectorBounce) { NoSectorNoRoom(st.freeMap, n); }
        return false, None, NONE;
      }
      var s := sector.value;
      FirstFitFree(st.freeMap, 1, s);
      RoomByFirstFit(st.freeMap, n, s);
      FreshSector(st, s);
      ghost var st1 := St();
      SameOwners(st, st1);
      NewlyLeaked(st, st1, s);
      var written := InodeCreate(s, size, o.inodeAllocated, o.dataBounce);
      ghost var st2 := St();
      if !written {
        LeakedThere(st1, st2, s);
        OneSector(st2, s);
        FreeMapRelease(s, 1, o.releaseBounce);
        LeakedThenSame(st, st1, st2, Range(s, 1), NONE);
        BothUndone(st, st2, St(), s);
        Refill(st.freeMap, s, 1);
        return false, None, NONE;
      }
      ghost var d := disk[s];
      FirstFitFree(st1.freeMap, n, d.start);
      InodeMarks(st.freeMap, st1.freeMap, st2.freeMap, s, d);
      assert Places(st.freeMap, n, s, d.start);
      ExtentLeaked(st, st1, st2, s, d);
      LeakedMarked(st2, s, d);
      FreshBefore(st, st1, s, d);
      made := Some((s, disk[s]));
      ok := DirAdd(name, s, mem);
      if ok {
        ghost var i := Directory.Target(st.dir, slots, mem);
        SameForgotten(st, st2, s, i);
        ForgottenMarked(st, i);
        AllUsed(st, st1, st2, St(), s, d, Forgotten(st, i));
        lost := Forgotten(st, i);
      } else {
        OneSector(st2, s);
        FreeMapRelease(s, 1, o.releaseBounce);
        DataLost(st, st1, st2, St(), s, d);
        lost := Range(d.start, n);
      }
    }

    /** `filesys_create`: exactly when it succeeds, and exactly which sectors are lost.  When the
        directory does not write the entry of an inode that was made, its data's sectors stay marked; when
        it writes over an entry in use, that one's sectors do, unless its inode is open. */
    method Create(name: Name, size: nat, o: Outcomes, mem: Directory.AddMemory)
        returns (ok: bool, made: Option<(nat, Data)>, ghost lost: iset<nat>)
      requires Valid()
      modifies this, freeMap.bits, device
      ensures Valid() && Inode.ChangesOnly(old(device.sectors), device.sectors, mapData)
      ensures refs == old(refs) && files == old(files) && open.Keys == old(open).Keys
      ensures made.Some? <==> RootOpens(old(open), o) && MakesInode(files, mapData, o)
                              && HasRoom(old(St()).freeMap, Inode.BytesToSectors(size))
      ensures ok <==> made.Some? && Directory.Writes(old(dir), slots, name, mem)
      ensures made.Some? ==> MadeAt(old(St()), size, made.value.0, made.value.1)
      ensures disk == if made.Some? then old(disk)[made.value.0 := made.value.1] else old(disk)
      ensures dir == if ok then Directory.Added(old(dir), slots, name, made.value.0, mem) else old(dir)
      ensures MarksMade(old(St()).freeMap, St().freeMap, made, ok)
      ensures LeakedIs(old(St()), St(), lost, NONE)
      ensures lost == if ok then Forgotten(old(St()), Directory.Target(old(dir), slots, mem))
                      else if made.Some? then Range(made.value.1.start, Inode.BytesToSectors(size)) else NONE
      ensures lost != NONE <==>
              && made.Some?
              && if Directory.Writes(old(dir), slots, name, mem)
                 then OverClosed(old(St()), Directory.Target(old(dir), slots, mem))
                 else Inode.BytesToSectors(size) > 0
      ensures ok ==> St().fileMap == St().freeMap
    {
      hide Bits, ElemCnt, Inv, LeakedIs, CountsExact, IsNode, Leaked, Inode.BytesToSectors, FilesOn, MadeAt;
      hide HasRoom, SavedMap, MapWrites, Directory.Writes, Directory.Target, Forgotten, OverClosed, Range, MarksMade;
      ghost var st := St();
      FilesCounted(open, files, refs, ROOT_DIR_SECTOR);
      ForgottenIff(st, Directory.Target(dir, slots, mem));
      SameMarks(st.freeMap);
      var root := OpenRoot(o.dirInode, o.dirStruct);
      if !root { return false, None, NONE; }
      ghost var st1 := St();
      RootForgets(st, st1, Directory.Target(dir, slots, mem));
      ok, made, lost := CreateIn(name, size, o, mem);
      ghost var st2 := St();
      CloseRoot();
      SameThenLeaked(st, st1, st2, lost);
      LeakedThenSame(st, st2, St(), lost, NONE);
      if made.Some? {
        RangeEmpty(made.value.1.start, Inode.BytesToSectors(size));
        MadeBefore(st, st1, size, made.value.0, made.value.1);
      }
    }

    /** `filesys_open`. */
    method Open(name: Name, id: nat, o: OpenOutcomes) returns (ok: bool)
      requires Valid() && id !in files
      modifies this, freeMap.bits, device
      ensures Valid() && Inode.ChangesOnly(old(device.sectors), device.sectors, mapData)
      ensures dir == old(dir) && disk == old(disk) && LeakedIs(old(St()), St(), NONE, NONE)
      ensures ok <==> Opens(old(St()), slots, name, o) && o.fileStruct
      ensures files == if ok then old(files)[id := File(Sector(dir, slots, name, o.readable), false)] else old(files)
      ensures refs == if ok then old(refs) + multiset{Sector(dir, slots, name, o.readable)} else old(refs)
    {
      hide Bits, ElemCnt, Inv, LeakedIs, CountsExact, IsNode, Leaked, FilesOn, DenyingOn, Inode.BytesToSectors, Extent;
      hide SavedMap, Directory.Found, Directory.Place, Sector;
      ghost var st := St();
      var found := LookupRoot(name, o);
      if !found { return false; }
      ghost var st1 := St();
      var s := Sector(dir, slots, name, o.readable);
      SectorPlaced(st1, slots, name, o.readable);
      ok := FileOpen(s, id, o.fileStruct, o.release);
      LeakedThenSame(st, st1, St(), NONE, NONE);
    }

    /** `dir_lookup` in the root directory, which is opened for it and closed again. */
    method LookupRoot(name: Name, o: OpenOutcomes) returns (found: bool)
      requires Valid()
      modifies this, freeMap.bits, device
      ensures Valid() && files == old(files) && LeakedIs(old(St()), St(), NONE, NONE)
      ensures SameDisk(old(St()), St()) && device.sectors == old(device.sectors)
      ensures found <==> Opens(old(St()), slots, name, o)
      ensures refs == if found then old(refs) + multiset{Sector(dir, slots, name, o.readable)} else old(refs)
      ensures found ==> var s := Sector(dir, slots, name, o.readable); s in open && |FilesOn(files, s)| < refs[s]
    {
      hide Bits, ElemCnt, Inv, LeakedIs, CountsExact, IsNode, Leaked, FilesOn, DenyingOn, Inode.BytesToSectors, Extent;
      hide SavedMap, Directory.Found, Directory.Place, Sector;
      hide Dropped, Directory.InSlots, Inode.OnDevice, MapWrites, Owned;
      ghost var st, refs0 := St(), refs;
      var root := OpenRoot(o.dirInode, o.dirStruct);
      if !root { return false; }
      ghost var st1 := St();
      found := DirLookup(name, o.readable, o.inode);
      ghost var st2 := St();
      CloseRoot();
      ghost var s := Sector(dir, slots, name, o.readable);
      RefsBack(refs0, ROOT_DIR_SECTOR, if found then multiset{s} else multiset{});
      LeakedThenSame(st, st1, st2, NONE, NONE);
      LeakedThenSame(st, st2, St(), NONE, NONE);
    }

    /** `dir_lookup`: opens the inode that the name stands for, when the search reaches its slot. */
    method DirLookup(name: Name, readable: nat -> bool, mallocOk: bool) returns (found: bool)
      requires Valid() && ROOT_DIR_SECTOR in open && |FilesOn(files, ROOT_DIR_SECTOR)| < refs[ROOT_DIR_SECTOR]
      modifies this
      ensures Valid() && files == old(files) && LeakedIs(old(St()), St(), NONE, NONE)
      ensures SameDisk(old(St()), St())
      ensures ROOT_DIR_SECTOR in open && |FilesOn(files, ROOT_DIR_SECTOR)| < refs[ROOT_DIR_SECTOR]
      ensures found <==> Directory.Found(dir, slots, name, readable)
                         && (Sector(dir, slots, name, readable) in old(open) || mallocOk)
      ensures refs == if found then old(refs) + multiset{Sector(dir, slots, name, readable)} else old(refs)
      ensures found ==> var s := Sector(dir, slots, name, readable);
                        s in open && |FilesOn(files, s)| < refs[s] && s != ROOT_DIR_SECTOR
    {
      hide Bits, ElemCnt, Inv, LeakedIs, CountsExact, IsNode, Leaked, FilesOn, DenyingOn, Inode.BytesToSectors, Extent;
      hide SavedMap, Directory.Found, Directory.Place, Sector;
      LeakedSame(St());
      if !Directory.Found(dir, slots, name, readable) { return false; }
      var s := Sector(dir, slots, name, readable);
      FilesCounted(open, files, refs, s);
      SectorPlaced(St(), slots, name, readable);
      SectorNotRoot(St(), slots, name, readable);
      found := InodeOpen(s, mallocOk);
    }

    /** `filesys_remove`: the entry goes at once, the sectors when nobody has the file open. */
    method Remove(name: Name, o: OpenOutcomes, bounceOk: bool) returns (ok: bool)
      requires Valid()
      modifies this, freeMap.bits, device
      ensures Valid() && Inode.ChangesOnly(old(device.sectors), device.sectors, mapData)
      ensures disk == old(disk) && files == old(files) && refs == old(refs) && LeakedIs(old(St()), St(), NONE, NONE)
      ensures ok <==> Opens(old(St()), slots, name, o) && bounceOk
      ensures dir == if ok then old(dir) - {Directory.Place(old(dir), slots, name, o.readable)} else old(dir)
      ensures ok ==> Gone(old(St()), St(), refs, Sector(old(dir), slots, name, o.readable))
    {
      hide Bits, ElemCnt, Inv, LeakedIs, CountsExact, IsNode, Leaked, FilesOn, DenyingOn, Inode.BytesToSectors, Extent;
      hide SavedMap, Directory.Found, Directory.Place, Sector;
      hide Gone, Dropped, Directory.InSlots, Inode.OnDevice, MapWrites, Owned;
      ghost var st := St();
      ghost var s := Sector(dir, slots, name, o.readable);
      if Directory.Found(dir, slots, name, o.readable) { SectorNotRoot(st, slots, name, o.readable); }
      var root := OpenRoot(o.dirInode, o.dirStruct);
      if !root { return false; }
      ghost var st1 := St();
      ok := RemoveIn(name, o, bounceOk);
      ghost var st2 := St();
      CloseRoot();
      if ok {
        GoneBefore(st, st1, st2, old(refs) + multiset{ROOT_DIR_SECTOR}, s);
        FewerRefs(st, st2, old(refs), s);
        GoneAfter(st, st2, St(), refs, s);
      }
      LeakedThenSame(st, st1, st2, NONE, NONE);
      LeakedThenSame(st, st2, St(), NONE, NONE);
    }

    /** `dir_remove` while the root directory is open. */
    method RemoveIn(name: Name, o: OpenOutcomes, bounceOk: bool) returns (ok: bool)
      requires Valid() && ROOT_DIR_SECTOR in open && |FilesOn(files, ROOT_DIR_SECTOR)| < refs[ROOT_DIR_SECTOR]
      modifies this, freeMap.bits, device
      ensures Valid() && Inode.ChangesOnly(old(device.sectors), device.sectors, mapData)
      ensures disk == old(disk) && files == old(files) && refs == old(refs) && LeakedIs(old(St()), St(), NONE, NONE)
      ensures ok <==> Directory.Found(old(dir), slots, name, o.readable) && bounceOk
                      && (Sector(old(dir), slots, name, o.readable) in old(open) || o.inode)
      ensures dir == if ok then old(dir) - {Directory.Place(old(dir), slots, name, o.readable)} else old(dir)
      ensures !ok ==> SameDisk(old(St()), St())
      ensures ROOT_DIR_SECTOR in open
      ensures ok ==> Gone(old(St()), St(), refs, Sector(old(dir), slots, name, o.readable))
    {
      hide Bits, ElemCnt, Inv, LeakedIs, CountsExact, IsNode, Leaked, FilesOn, DenyingOn, Inode.BytesToSectors, Extent;
      hide SavedMap, Directory.Found, Directory.Place, Placed, MapWrites;
      hide Gone, Dropped, Directory.InSlots, Inode.OnDevice, MapWrites, Owned;
      ghost var st := St();
      LeakedSame(st);
      if !Directory.Found(dir, slots, name, o.readable) { return false; }
      var i := Directory.Place(dir, slots, name, o.readable);
      var s := dir[i].sector;
      SectorPlaced(st, slots, name, o.readable);
      SectorNotRoot(st, slots, name, o.readable);
      FilesCounted(open, files, refs, s);
      ok := InodeOpen(s, o.inode);
      if !ok { return false; }
      ghost var st1 := St();
      RefsBack(old(refs), s, multiset{});
      if !bounceOk {
        SectorPlaced(st1, slots, name, o.readable);
        CloseAgain(s, o.release);
        LeakedThenSame(st, st1, St(), NONE, NONE);
        return false;
      }
      Unlink(i, s, o.release);
      LeakedThenSame(st, st1, St(), NONE, NONE);
      GoneBefore(st, st1, St(), refs, s);
    }

    /** `dir_remove` when its slot cannot be written: the inode, which still has its entry, is closed. */
    method CloseAgain(s: nat, r: Release)
      requires Valid() && Placed(St(), s) && s in open && |FilesOn(files, s)| < refs[s]
      modifies this, freeMap.bits, device
      ensures Valid() && device.sectors == old(device.sectors) && files == old(files)
      ensures SameTree(old(St()), St()) && LeakedIs(old(St()), St(), NONE, NONE) && refs == old(refs) - multiset{s}
      ensures open.Keys == if old(refs)[s] == 1 then old(open).Keys - {s} else old(open).Keys
    {
      hide Bits, ElemCnt, Inv, LeakedIs, CountsExact, IsNode, Leaked, FilesOn, DenyingOn, Inode.BytesToSectors, Extent;
      hide SavedMap, MapWrites;
      PlacedKept(St(), s);
      InodeClose(s, r);
    }

    /** The end of `dir_remove`: the entry is erased, and its inode marked as removed and closed. */
    method Unlink(i: nat, s: nat, r: Release)
      requires Valid() && i in dir && dir[i].sector == s && s in open && |FilesOn(files, s)| < refs[s]
      modifies this, freeMap.bits, device
      ensures Valid() && Inode.ChangesOnly(old(device.sectors), device.sectors, mapData)
      ensures disk == old(disk) && files == old(files) && dir == old(dir) - {i} && refs == old(refs) - multiset{s}
      ensures LeakedIs(old(St()), St(), NONE, NONE)
      ensures open.Keys == if old(refs)[s] == 1 then old(open).Keys - {s} else old(open).Keys
      ensures Gone(old(St()), St(), refs, s)
    {
      hide Bits, ElemCnt, Inv, LeakedIs, CountsExact, IsNode, Leaked, FilesOn, DenyingOn, Inode.BytesToSectors, Extent;
      hide SavedMap, Placed, MapWrites;
      ghost var st := St();
      FilesCounted(open, files, refs, s);
      Unlinked(st, i);
      RemovedCounted(open, files, refs, s);
      dir := dir - {i};
      open := open[s := open[s].(removed := true)];
      ghost var st1 := St();
      InodeClose(s, r);
      LeakedThenSame(st, st1, St(), NONE, NONE);
    }
  }

  /** Memory for opening by name: the root directory's inode and struct, which slots can be read, the
      inode, the file's struct, and the writes of the map should the inode be released. */
  datatype OpenOutcomes = OpenOutcomes(dirInode: bool, dirStruct: bool, readable: nat -> bool, inode: bool,
                                       fileStruct: bool, release: Release)

  /** The inode's sector in the entry at which the search for the name ends. */
  function Sector(dir: Directory.Table, slots: nat, name: Name, readable: nat -> bool): (s: nat) {
    var i := Directory.Place(dir, slots, name, readable);
    if i in dir then dir[i].sector else 0
  }

  /** The root directory opens, the name is found in it, and its inode opens. */
  ghost predicate Opens(st: State, slots: nat, name: Name, o: OpenOutcomes) {
    && (ROOT_DIR_SECTOR in st.open || o.dirInode) && o.dirStruct && Directory.Found(st.dir, slots, name, o.readable)
    && (Sector(st.dir, slots, name, o.readable) in st.open || o.inode)
  }

  lemma {:induction false} SectorPlaced(st: State, slots: nat, name: Name, readable: nat -> bool)
    requires Directory.Found(st.dir, slots, name, readable)
    ensures Placed(st, Sector(st.dir, slots, name, readable)) && IsNode(st, Sector(st.dir, slots, name, readable))
  {
  }

  lemma {:induction false} SectorNotRoot(st: State, slots: nat, name: Name, readable: nat -> bool)
    requires Inv(st) && Directory.Found(st.dir, slots, name, readable)
    ensures Sector(st.dir, slots, name, readable) != ROOT_DIR_SECTOR
  {
  }

  lemma {:induction false} RefsBack(refs: multiset<nat>, s: nat, more: multiset<nat>)
    ensures refs + multiset{s} + more - multiset{s} == refs + more
  {
  }

  lemma {:induction false} RemovedCounted(open: map<nat, OpenInode>, files: map<nat, File>, refs: multiset<nat>, s: nat)
    requires CountsExact(open, files, refs) && s in open
    ensures CountsExact(open[s := open[s].(removed := true)], files, refs)
  {
    hide FilesOn, DenyingOn;
  }

  /** Closing the root directory takes nothing else out of use. */
  lemma {:induction false} SameTreeNodes(st: State, st': State)
    requires st'.dir == st.dir && st'.open.Keys <= st.open.Keys
    ensures forall s: nat | !IsNode(st, s) :: !IsNode(st', s)
  {
  }

  lemma {:induction false} SameThenLeaked(st: State, st': State, st'': State, more: iset<nat>)
    requires LeakedIs(st, st', NONE, NONE) && LeakedIs(st', st'', more, NONE)
    ensures LeakedIs(st, st'', more, NONE)
  {
    hide Leaked;
  }

  lemma {:induction false} MadeBefore(st: State, st1: State, size: nat, s: nat, d: Data)
    requires MadeAt(st1, size, s, d) && SameTree(st, st1) && st.open.Keys <= st1.open.Keys
    ensures MadeAt(st, size, s, d)
  {
    hide Places;
    SameTreeNodes(st1, st);
  }

  /** Memory inside `filesys_create`: the root directory's inode and struct, the writes of the map for
      the two allocations and for a release, and the inode that is written. */
  datatype Outcomes = Outcomes(dirInode: bool, dirStruct: bool, sectorBounce: bool, inodeAllocated: bool,
                               dataBounce: bool, releaseBounce: bool)

  /** The allocations of the inode's sector and its data are written, and there is memory for it. */
  predicate MakesInode(files: map<nat, File>, mapData: Data, o: Outcomes) {
    && MapWrites(files, mapData.length, o.sectorBounce) && o.inodeAllocated
    && MapWrites(files, mapData.length, o.dataBounce)
  }

  /** The root directory's inode is open already or can be read in, and its struct is allocated. */
  predicate RootOpens(open: map<nat, OpenInode>, o: Outcomes) {
    (ROOT_DIR_SECTOR in open || o.dirInode) && o.dirStruct
  }

  /** Slot `i` has an entry whose inode is not open. */
  ghost predicate OverClosed(st: State, i: nat) {
    i in st.dir && st.dir[i].sector !in st.open
  }

  lemma {:induction false} ForgottenIff(st: State, i: nat)
    requires Inv(st)
    ensures Forgotten(st, i) != NONE <==> OverClosed(st, i)
  {
    if OverClosed(st, i) {
      var s := st.dir[i].sector;
      assert Placed(st, s) && IsNode(st, s);
      assert s in Extent(s, st.disk[s]);
    }
  }

  lemma {:induction false} SameForgotten(st: State, st2: State, s: nat, i: nat)
    requires Inv(st) && !IsNode(st, s) && s in st2.disk
    requires st2.dir == st.dir && st2.open == st.open && st2.disk == st.disk[s := st2.disk[s]]
    ensures Forgotten(st2, i) == Forgotten(st, i)
  {
    if i in st.dir { assert Placed(st, st.dir[i].sector); }
  }

  /** Opening the root directory makes no difference to what an overwritten entry leaves behind. */
  lemma {:induction false} RootForgets(st: State, st1: State, i: nat)
    requires Inv(st) && SameTree(st, st1) && st1.open.Keys == st.open.Keys + {ROOT_DIR_SECTOR}
    ensures Forgotten(st1, i) == Forgotten(st, i)
  {
  }

  lemma {:induction false} DroppedSame(st: State, st1: State, refs: multiset<nat>, s: nat)
    requires SameTree(st, st1) && st1.open.Keys == st.open.Keys
    ensures Dropped(st1, refs, s) == Dropped(st, refs, s)
  {
    assert Placed(st1, s) <==> Placed(st, s);
  }

  /** An entry takes the place of another, or of none. */
  lemma {:induction false} Replaced(st: State, i: nat, e: Directory.Entry)
    requires var s := e.sector;
      && Inv(st) && !IsNode(st, s) && s in st.disk && !InData(st.disk[s], s) && st.disk[s].start <= |st.freeMap|
      && forall x: nat | x in Extent(s, st.disk[s]) :: Leaked(st, x) && st.fileMap[x]
    ensures var st' := st.(dir := st.dir[i := e]);
            Inv(st') && LeakedIs(st, st', Forgotten(st, i), Extent(e.sector, st.disk[e.sector]))
  {
    hide Leaked, Inv, Extent;
    if i !in st.dir {
      Entered(st, i, e);
    } else {
      var st1 := st.(dir := st.dir - {i});
      EntryLost(st, i);
      FewerPlaced(st, st1, e.sector);
      Entered(st1, i, e);
      assert st1.dir[i := e] == st.dir[i := e];
    }
  }

  lemma {:induction false} FewerPlaced(st: State, st1: State, s: nat)
    requires !IsNode(st, s) && st1.open == st.open && forall i | i in st1.dir :: i in st.dir && st1.dir[i] == st.dir[i]
    ensures !IsNode(st1, s)
  {
  }

  /** `i` is where a scan finds the first `cnt` free sectors. */
  ghost predicate FirstFit(m: seq<bool>, cnt: nat, i: nat) {
    IsFirstGroup(m, 0, cnt, false, Some(i))
  }

  /** First fit puts an inode in sector `s` and then its `n` data sectors at `start`. */
  ghost predicate Places(m: seq<bool>, n: nat, s: nat, start: nat) {
    s < |m| && FirstFit(m, 1, s) && FirstFit(Fill(m, s, 1, true), n, start)
  }

  ghost predicate HasRoom(m: seq<bool>, n: nat) {
    exists s: nat, start: nat :: Places(m, n, s, start)
  }

  /** The sectors of an inode that was made are marked: its own if it has an entry, and its data's. */
  ghost predicate MarksMade(m: seq<bool>, m': seq<bool>, made: Option<(nat, Data)>, ok: bool) {
    && |m'| == |m|
    && forall x: nat | x < |m| ::
      m'[x] == (m[x] || (made.Some? && ((ok && x == made.value.0) || InData(made.value.1, x))))
  }

  lemma {:induction false} SameMarks(m: seq<bool>)
    ensures MarksMade(m, m, None, false)
  {
  }

  lemma {:induction false} InodeMarks(m: seq<bool>, m1: seq<bool>, m2: seq<bool>, s: nat, d: Data)
    requires var n := Inode.BytesToSectors(d.length);
      s < |m| && d.start + n <= |m| && m1 == Fill(m, s, 1, true) && m2 == Fill(m1, d.start, n, true)
    ensures MarksMade(m, m2, Some((s, d)), true)
    ensures !m[s] && !InData(d, s) ==> MarksMade(m, Fill(m2, s, 1, false), Some((s, d)), false)
  {
    hide Inode.BytesToSectors;
  }

  lemma {:induction false} FirstFitFree(m: seq<bool>, cnt: nat, i: nat)
    requires FirstFit(m, cnt, i)
    ensures All(m, i, cnt, false) && i + cnt <= |m|
  {
  }

  lemma {:induction false} RangeEmpty(i: nat, cnt: nat)
    ensures Range(i, cnt) == NONE <==> cnt == 0
  {
    assert cnt > 0 ==> i in Range(i, cnt);
  }

  /** First fit has one answer. */
  lemma {:induction false} FirstFitUnique(m: seq<bool>, cnt: nat, i: nat, j: nat)
    requires FirstFit(m, cnt, i) && FirstFit(m, cnt, j)
    ensures i == j
  {
  }

  /** Room for the inode and, with the first free sector taken, for its data. */
  lemma {:induction false} RoomByFirstFit(m: seq<bool>, n: nat, s: nat)
    requires s < |m| && FirstFit(m, 1, s)
    ensures HasRoom(m, n) <==> exists j: nat :: All(Fill(m, s, 1, true), j, n, false)
  {
    hide Fill;
    var m1 := Fill(m, s, 1, true);
    if HasRoom(m, n) {
      var s', start: nat :| Places(m, n, s', start);
      FirstFitUnique(m, 1, s, s');
      assert All(m1, start, n, false);
    }
    if j: nat :| All(m1, j, n, false) {
      var start := FirstOf(m1, n, j);
      assert Places(m, n, s, start);
    }
  }

  /** Where there is a group there is a first one. */
  lemma {:induction false} FirstOf(m: seq<bool>, cnt: nat, j: nat) returns (i: nat)
    requires All(m, j, cnt, false)
    ensures FirstFit(m, cnt, i) && i <= j
  {
    if k: nat :| k < j && All(m, k, cnt, false) {
      i := FirstOf(m, cnt, k);
    } else {
      i := j;
    }
  }

  lemma {:induction false} NoSectorNoRoom(m: seq<bool>, n: nat)
    requires forall i: nat :: !All(m, i, 1, false)
    ensures !HasRoom(m, n)
  {
    forall s: nat, start: nat ensures !Places(m, n, s, start) {
      assert !All(m, s, 1, false);
    }
  }

  /** On a device whose first `used` sectors are taken, the inode goes next and the data behind it. */
  lemma {:induction false} RoomBehind(m: seq<bool>, used: nat, n: nat)
    requires used + 1 + n <= |m| && forall x | 0 <= x < |m| :: m[x] == (x < used)
    ensures Places(m, n, used, if n == 0 then 0 else used + 1)
  {
    hide Fill;
    var m1 := Fill(m, used, 1, true);
    assert forall x: nat | x < |m| :: m1[x] == (x < used + 1);
    forall j: nat | j < used ensures !All(m, j, 1, false) { assert m[j]; }
    forall j: nat | n > 0 && j < used + 1 ensures !All(m1, j, n, false) { assert m1[j]; }
  }

  /** An inode of the given size goes where first fit puts it, into sectors that are all free. */
  ghost predicate MadeAt(st: State, size: nat, s: nat, d: Data) {
    && d.length == size && !IsNode(st, s) && !InData(d, s) && Places(st.freeMap, Inode.BytesToSectors(size), s, d.start)
    && forall x: nat | x == s || InData(d, x) :: x < |st.freeMap| && !st.freeMap[x]
  }

  lemma {:induction false} FreshSector(st: State, s: nat)
    requires Inv(st) && s < |st.freeMap| && !st.freeMap[s]
    ensures !IsNode(st, s) && s != 0 && !Owned(st, s)
  {
    assert IsNode(st, s) ==> Owns(st, s, s);
    assert Owns(st, 0, 0);
    OwnedIsMarked(st);
  }

  lemma {:induction false} NewlyLeaked(st: State, st1: State, s: nat)
    requires LeakedIs(st, st1, Range(s, 1), NONE)
    ensures Leaked(st1, s)
  {
    assert s in Range(s, 1);
  }

  lemma {:induction false} OneSector(st: State, s: nat)
    requires Leaked(st, s)
    ensures s + 1 <= |st.freeMap| && forall x: nat | InData2(s, 1, x) :: Leaked(st, x)
  {
  }

  lemma {:induction false} BothUndone(st: State, st1: State, st': State, s: nat)
    requires s < |st.freeMap| && !st.freeMap[s] && LeakedIs(st, st1, Range(s, 1), NONE)
    requires LeakedIs(st1, st', NONE, Range(s, 1))
    ensures LeakedIs(st, st', NONE, NONE)
  {
    forall x: nat ensures Leaked(st', x) <==> Leaked(st, x) { assert x in Range(s, 1) <==> x == s; }
  }

  lemma {:induction false} ExtentLeaked(st: State, st1: State, st2: State, s: nat, d: Data)
    requires LeakedIs(st, st1, Range(s, 1), NONE)
    requires LeakedIs(st1, st2, Range(d.start, Inode.BytesToSectors(d.length)), NONE)
    ensures Leaked(st2, s) && forall x: nat | x in Extent(s, d) :: Leaked(st2, x)
  {
    hide Leaked, Inode.BytesToSectors;
    assert s in Range(s, 1);
    forall x: nat | InData(d, x) ensures x in Range(d.start, Inode.BytesToSectors(d.length)) {}
  }

  lemma {:induction false} AllUsed(st: State, st1: State, st2: State, st': State, s: nat, d: Data, more: iset<nat>)
    requires s < |st.freeMap| && !st.freeMap[s] && All(st1.freeMap, d.start, Inode.BytesToSectors(d.length), false)
    requires forall x: nat | x in more :: x < |st.freeMap| && st.freeMap[x]
    requires st1.freeMap == Fill(st.freeMap, s, 1, true)
    requires LeakedIs(st, st1, Range(s, 1), NONE)
    requires LeakedIs(st1, st2, Range(d.start, Inode.BytesToSectors(d.length)), NONE)
    requires LeakedIs(st2, st', more, Extent(s, d))
    ensures LeakedIs(st, st', more, NONE)
  {
    hide Inode.BytesToSectors, Owned, Fill;
    forall x: nat ensures Leaked(st', x) <==> Leaked(st, x) || x in more {
      assert x in Range(s, 1) <==> x == s;
      assert x in Range(d.start, Inode.BytesToSectors(d.length)) <==> InData(d, x);
      assert x in Extent(s, d) <==> x == s || InData(d, x);
      assert InData(d, x) ==> !Leaked(st1, x);
    }
  }

  /** What an overwritten entry leaves behind is marked. */
  lemma {:induction false} ForgottenMarked(st: State, i: nat)
    requires Inv(st)
    ensures forall x: nat | x in Forgotten(st, i) :: x < |st.freeMap| && st.freeMap[x]
  {
    forall x: nat | x in Forgotten(st, i) ensures x < |st.freeMap| && st.freeMap[x] {
      var s := st.dir[i].sector;
      assert Placed(st, s);
      assert Owns(st, s, x);
    }
  }

  lemma {:induction false} LeakedThere(st: State, st': State, s: nat)
    requires Leaked(st, s) && LeakedIs(st, st', NONE, NONE)
    ensures Leaked(st', s)
  {
  }

  lemma {:induction false} LeakedMarked(st: State, s: nat, d: Data)
    requires (forall x: nat | x in Extent(s, d) :: Leaked(st, x)) && st.fileMap == st.freeMap
    ensures forall x: nat | x in Extent(s, d) :: Leaked(st, x) && st.fileMap[x]
  {
  }

  lemma {:induction false} DataLost(st: State, st1: State, st2: State, st': State, s: nat, d: Data)
    requires s < |st.freeMap| && !st.freeMap[s] && !InData(d, s)
    requires LeakedIs(st, st1, Range(s, 1), NONE)
    requires LeakedIs(st1, st2, Range(d.start, Inode.BytesToSectors(d.length)), NONE)
    requires LeakedIs(st2, st', NONE, Range(s, 1))
    ensures LeakedIs(st, st', Range(d.start, Inode.BytesToSectors(d.length)), NONE)
  {
    hide Inode.BytesToSectors, Owned;
    forall x: nat ensures Leaked(st', x) <==> Leaked(st, x) || x in Range(d.start, Inode.BytesToSectors(d.length)) {
      assert x in Range(s, 1) <==> x == s;
      assert x in Range(d.start, Inode.BytesToSectors(d.length)) <==> InData(d, x);
    }
  }

  lemma {:induction false} FreshBefore(st: State, st1: State, s: nat, d: Data)
    requires All(st.freeMap, s, 1, false) && st1.freeMap == Fill(st.freeMap, s, 1, true)
    requires All(st1.freeMap, d.start, Inode.BytesToSectors(d.length), false)
    ensures All(st.freeMap, d.start, Inode.BytesToSectors(d.length), false)
    ensures forall x: nat | x == s || InData(d, x) :: x < |st.freeMap| && !st.freeMap[x]
  {
    hide Inode.BytesToSectors, Fill;
    assert forall x: nat | x < |st.freeMap| :: st1.freeMap[x] == (st.freeMap[x] || x == s);
  }

  // ----- counting files -----

  lemma {:induction false} FileGiven(open: map<nat, OpenInode>, files: map<nat, File>, refs: multiset<nat>, id: nat,
                                     s: nat)
    requires CountsExact(open, files, refs) && id !in files && |FilesOn(files, s)| < refs[s]
    ensures CountsExact(open, files[id := File(s, false)], refs)
  {
    forall t: nat
      ensures |FilesOn(files[id := File(s, false)], t)| <= refs[t]
      ensures DenyingOn(files[id := File(s, false)], t) == DenyingOn(files, t)
    {
      FileAdded(files, id, File(s, false), t);
    }
  }

  lemma {:induction false} FileIsOpen(open: map<nat, OpenInode>, files: map<nat, File>, refs: multiset<nat>, id: nat)
    requires CountsExact(open, files, refs) && id in files
    ensures files[id].sector in open && 0 < |FilesOn(files, files[id].sector)| <= refs[files[id].sector]
  {
    var s := files[id].sector;
    assert id in FilesOn(files, s);
    Subset({id}, FilesOn(files, s));
  }

  lemma {:induction false} FileTaken(open: map<nat, OpenInode>, files: map<nat, File>, refs: multiset<nat>, id: nat)
    requires CountsExact(open, files, refs) && id in files && !files[id].denyWrite
    ensures CountsExact(open, files - {id}, refs) && |FilesOn(files - {id}, files[id].sector)| < refs[files[id].sector]
  {
    var files' := files - {id};
    assert id in FilesOn(files, files[id].sector);
    forall t: nat ensures |FilesOn(files', t)| <= refs[t] && DenyingOn(files', t) == DenyingOn(files, t) {
      FileDropped(files, id, t);
      Subset(FilesOn(files', t), FilesOn(files, t));
    }
    FileDropped(files, id, files[id].sector);
  }

  lemma {:induction false} FlagCounted(open: map<nat, OpenInode>, files: map<nat, File>, refs: multiset<nat>, id: nat,
                                       deny: bool)
    requires CountsExact(open, files, refs) && id in files && files[id].sector in open && files[id].denyWrite != deny
    requires !deny ==> open[files[id].sector].denyCnt > 0
    ensures var s := files[id].sector;
            var k := if deny then open[s].denyCnt + 1 else open[s].denyCnt - 1;
            CountsExact(open[s := open[s].(denyCnt := k)], files[id := files[id].(denyWrite := deny)], refs)
  {
    var s, files' := files[id].sector, files[id := files[id].(denyWrite := deny)];
    assert id in DenyingOn(files, s) <==> !deny;
    forall t: nat
      ensures FilesOn(files', t) == FilesOn(files, t) && (t != s ==> DenyingOn(files', t) == DenyingOn(files, t))
    {
      FlagSet(files, id, deny, t);
    }
    FlagSet(files, id, deny, s);
  }

  lemma {:induction false} FilesCounted(open: map<nat, OpenInode>, files: map<nat, File>, refs: multiset<nat>, s: nat)
    requires CountsExact(open, files, refs)
    ensures |FilesOn(files, s)| <= refs[s] && (s in open <==> refs[s] > 0)
  {
  }

  lemma {:induction false} FreeMapIsNode(st: State)
    ensures IsNode(st, FREE_MAP_SECTOR)
  {
  }

  lemma {:induction false} RootIsNode(st: State)
    ensures IsNode(st, ROOT_DIR_SECTOR)
  {
  }

  lemma {:induction false} PlacedKept(st: State, s: nat)
    requires Inv(st) && Placed(st, s) && s in st.open
    ensures !st.open[s].removed
  {
  }

  lemma {:induction false} RootKept(st: State)
    requires Inv(st) && ROOT_DIR_SECTOR in st.open
    ensures !st.open[ROOT_DIR_SECTOR].removed
  {
  }

  /** The sectors of the free map file. */
  function FreeMapSectors(bitCnt: nat): nat { Inode.BytesToSectors(4 * ElemCnt(bitCnt)) }

  lemma {:induction false} NothingOpen()
    ensures CountsExact(map[], map[], multiset{})
  {
    forall s: nat ensures |FilesOn(map[], s)| == 0 { assert FilesOn(map[], s) == {}; }
  }

  lemma {:induction false} FreshMap(m: seq<bool>, bitCnt: nat, n: nat)
    requires 3 + n <= bitCnt && m == seq(bitCnt, _ => false)[0 := true][1 := true]
    ensures |m| == bitCnt && m[0] && m[1] && (forall i | 2 <= i < |m| :: !m[i]) && All(m, 2, n, false)
  {
  }

  lemma {:induction false} RootDirSize()
    ensures Inode.BytesToSectors(ROOT_DIR_BYTES) == 1
  {
  }

  /** After a first allocation one more sector is free. */
  lemma {:induction false} RoomLeft(m0: seq<bool>, m1: seq<bool>, a: nat, n: nat)
    requires |m0| >= 3 + n && m0[0] && m0[1] && (forall i | 2 <= i < |m0| :: !m0[i])
    requires All(m0, a, n, false) && m1 == Fill(m0, a, n, true)
    ensures exists i: nat :: All(m1, i, 1, false)
  {
    if n == 0 || a > 2 {
      assert All(m1, 2, 1, false);
    } else {
      assert !m0[a];
      assert All(m1, a + n, 1, false);
    }
  }

  /** Creating a file with an empty name on a fresh device of 16 sectors loses the file's one data
      sector: sectors 0 to 3 are the system's, the inode goes to 4 and the data to 5. */
  method LeakOnFreshDevice(device: Inode.Device) returns (fs: FileSystem, ok: bool, ghost lost: iset<nat>)
    requires Inode.IsDevice(device.sectors) && |device.sectors| == 16
    modifies device
    ensures fs.Valid() && !ok && lost == Range(5, 1) && Leaked(fs.St(), 5)
  {
    fs, ok, lost := RefusedOnFresh(device, [], Directory.AddMemory(_ => true, _ => true, true));
  }

  /** So does a valid new name when there is no memory for the write of its slot. */
  method LeakWithoutBuffer(device: Inode.Device, name: Name) returns (fs: FileSystem, ok: bool, ghost lost: iset<nat>)
    requires Inode.IsDevice(device.sectors) && |device.sectors| == 16 && 0 < |name| <= Directory.NAME_MAX
    modifies device
    ensures fs.Valid() && !ok && lost == Range(5, 1) && Leaked(fs.St(), 5)
  {
    fs, ok, lost := RefusedOnFresh(device, name, Directory.AddMemory(_ => true, _ => true, false));
  }

  /** And when the search for a free slot cannot read the first, a second file's entry goes over the
      first's: its inode in sector 4 is lost, although the call succeeds. */
  method LeakByOverwriting(device: Inode.Device) returns (fs: FileSystem, ok: bool, ghost lost: iset<nat>)
    requires Inode.IsDevice(device.sectors) && |device.sectors| == 16
    modifies device
    ensures fs.Valid() && ok && fs.dir.Keys == {0} && fs.dir[0].name == [98] && 4 in lost && Leaked(fs.St(), 4)
  {
    hide Bits, Inv, CountsExact, Leaked, IsNode, Fill, FirstFit, SavedMap, Inode.Decode, Inode.Contents;
    hide Directory.SearchEnd, ElemCnt, Inode.BytesToSectors;
    SmallDevice();
    fs := new FileSystem(device);
    ghost var st := fs.St();
    RoomBehind(st.freeMap, 4, 0);
    assert HasRoom(st.freeMap, 0);
    var made;
    var mem := Directory.AddMemory(_ => true, _ => true, true);
    FirstEntry([97], mem);
    ok, made, lost := fs.Create([97], 0, Outcomes(true, true, true, true, true, true), mem);
    PlacesUnique(st.freeMap, 0, 4, 0, made.value.0, made.value.1.start);
    assert fs.dir == map[0 := Directory.Entry([97], 4)];
    ghost var st1 := fs.St();
    RoomBehind(st1.freeMap, 5, 0);
    assert HasRoom(st1.freeMap, 0);
    var low := Directory.AddMemory(_ => true, i => i != 0, true);
    OverFirst(fs.dir, low);
    ok, made, lost := fs.Create([98], 0, Outcomes(true, true, true, true, true, true), low);
  }

  lemma {:induction false} FirstEntry(name: Name, mem: Directory.AddMemory)
    requires 0 < |name| <= Directory.NAME_MAX && mem.write && forall i: nat :: mem.look(i) && mem.free(i)
    ensures Directory.Writes(map[], 16, name, mem) && Directory.Target(map[], 16, mem) == 0
  {
    hide Directory.SearchEnd;
    assert Directory.Hit(map[], Directory.Unused, 0);
  }

  lemma {:induction false} OverFirst(t: Directory.Table, mem: Directory.AddMemory)
    requires t.Keys == {0} && t[0].name == [97] && mem.write && !mem.free(0)
    ensures Directory.Writes(t, 16, [98], mem) && Directory.Target(t, 16, mem) == 0
  {
    hide Directory.SearchEnd;
    assert [97][0] != [98][0];
  }

  method RefusedOnFresh(device: Inode.Device, name: Name, mem: Directory.AddMemory)
      returns (fs: FileSystem, ok: bool, ghost lost: iset<nat>)
    requires Inode.IsDevice(device.sectors) && |device.sectors| == 16 && !Directory.Writes(map[], 16, name, mem)
    modifies device
    ensures fs.Valid() && !ok && lost == Range(5, 1) && Leaked(fs.St(), 5)
  {
    hide Bits, Inv, CountsExact, Leaked, IsNode, Fill, FirstFit, SavedMap, Inode.Decode, Inode.Contents;
    hide Directory.Writes, Directory.Target, Forgotten, ElemCnt, Inode.BytesToSectors;
    SmallDevice();
    fs := new FileSystem(device);
    ghost var st := fs.St();
    RoomBehind(st.freeMap, 4, 1);
    var made;
    ok, made, lost := fs.Create(name, 512, Outcomes(true, true, true, true, true, true), mem);
    assert HasRoom(st.freeMap, 1);
    PlacesUnique(st.freeMap, 1, 4, 5, made.value.0, made.value.1.start);
    assert 5 in Range(5, 1);
  }

  lemma {:induction false} SmallDevice()
    ensures FreeMapSectors(16) == 1 && Inode.BytesToSectors(512) == 1 && Inode.BytesToSectors(0) == 0
  {
  }

  lemma {:induction false} PlacesUnique(m: seq<bool>, n: nat, s: nat, start: nat, s': nat, start': nat)
    requires Places(m, n, s, start) && Places(m, n, s', start')
    ensures s == s' && start == start'
  {
    hide Fill, FirstFit;
    FirstFitUnique(m, 1, s, s');
    FirstFitUnique(Fill(m, s, 1, true), n, start, start');
  }

  lemma {:induction false} FreeMapNotEmpty(bitCnt: nat)
    requires bitCnt > 0
    ensures FreeMapSectors(bitCnt) > 0
  {
  }

  lemma {:induction false} FirstBehind(m0: seq<bool>, a: nat, n: nat)
    requires |m0| >= 3 + n && m0[0] && m0[1] && (forall i | 2 <= i < |m0| :: !m0[i]) && n > 0 && FirstFit(m0, n, a)
    ensures a == 2
  {
    assert All(m0, 2, n, false);
    assert a == 2 by { assert !m0[a]; }
  }

  lemma {:induction false} MapFits(bitCnt: nat)
    requires bitCnt < Inode.WORD
    ensures 4 * ElemCnt(bitCnt) < Inode.OFF_LIMIT && Inode.BytesToSectors(ROOT_DIR_BYTES) == 1
  {
  }

  /** On a fresh device the system files follow their inodes without a gap. */
  lemma {:induction false} PackedTight(m0: seq<bool>, a: nat, b: nat, n: nat)
    requires |m0| >= 3 + n && m0[0] && m0[1] && (forall i | 2 <= i < |m0| :: !m0[i])
    requires FirstFit(m0, n, a) && FirstFit(Fill(m0, a, n, true), 1, b)
    requires n > 0
    ensures a == 2 && b == 2 + n
    ensures forall x | 0 <= x < |m0| :: Fill(Fill(m0, a, n, true), b, 1, true)[x] == (x < 3 + n)
  {
    assert All(m0, 2, n, false);
    assert a == 2 by { assert !m0[a]; }
    var m1 := Fill(m0, a, n, true);
    assert forall x: nat | x < |m0| :: m1[x] == (x < 2 + n);
    assert All(m1, 2 + n, 1, false);
    assert b == 2 + n by { assert !m1[b]; }
  }

  lemma {:induction false} Formatted(st: State, m0: seq<bool>, a: nat, b: nat, n: nat)
    requires |m0| >= 3 + n && m0[0] && m0[1] && (forall i | 2 <= i < |m0| :: !m0[i])
    requires All(m0, a, n, false) && All(Fill(m0, a, n, true), b, 1, false)
    requires st.freeMap == Fill(Fill(m0, a, n, true), b, 1, true) && st.dir == map[] && st.open == map[]
    requires st.fileMap == st.freeMap
    requires st.disk.Keys == {FREE_MAP_SECTOR, ROOT_DIR_SECTOR}
    requires st.disk[0].start == a && Inode.BytesToSectors(st.disk[0].length) == n
    requires st.disk[1].start == b && Inode.BytesToSectors(st.disk[1].length) == 1
    ensures Inv(st) && forall x: nat :: !Leaked(st, x)
  {
    hide Inode.BytesToSectors, Fill;
    var m1 := Fill(m0, a, n, true);
    assert forall x | 0 <= x < |m0| :: m1[x] == (m0[x] || a <= x < a + n);
    assert forall x | 0 <= x < |m0| :: st.freeMap[x] == (m1[x] || x == b);
    assert !m1[b];
    assert forall x | a <= x < a + n :: !m0[x];
    assert forall s: nat :: IsNode(st, s) <==> s == 0 || s == 1;
    forall x: nat ensures !Leaked(st, x) {
      if x < |m0| && st.freeMap[x] {
        if x == 0 || a <= x < a + n { assert Owns(st, 0, x); } else { assert Owns(st, 1, x); }
      }
    }
  }

  lemma {:induction false} MapNotEmpty(st: State, d: Data)
    requires Inv(st) && FREE_MAP_SECTOR in st.disk && st.disk[FREE_MAP_SECTOR] == d
    requires d.length == 4 * ElemCnt(|st.freeMap|)
    ensures d.length > 0
  {
    assert Owns(st, FREE_MAP_SECTOR, FREE_MAP_SECTOR);
  }

  lemma {:induction false} MapsAgree(st: State)
    requires Inv(st)
    ensures |st.fileMap| == |st.freeMap|
  {
  }

  lemma {:induction false} MapDenied(open: map<nat, OpenInode>, files: map<nat, File>, refs: multiset<nat>)
    requires CountsExact(open, files, refs)
    ensures (FREE_MAP_SECTOR in open && open[FREE_MAP_SECTOR].denyCnt > 0) <==>
            exists id :: id in files && files[id] == File(FREE_MAP_SECTOR, true)
  {
    if FREE_MAP_SECTOR in open { DenyMeaning(open, files, refs, FREE_MAP_SECTOR); }
    forall id | id in files && files[id] == File(FREE_MAP_SECTOR, true) ensures FREE_MAP_SECTOR in open {
      FileIsOpen(open, files, refs, id);
    }
  }

  /** Taking the marks back when the map could not be written. */
  lemma {:induction false} MapBack(st: State, st': State, i: nat, cnt: nat)
    requires Inv(st) && Inv(st') && All(st.freeMap, i, cnt, false)
    requires st' == st.(freeMap := Fill(st.freeMap, i, cnt, true), fileMap := st'.fileMap)
    ensures var st2 := st'.(freeMap := st.freeMap); Inv(st2) && LeakedIs(st, st2, NONE, NONE)
  {
    hide IsNode, Owns, Owned, Fill;
    var st2 := st'.(freeMap := st.freeMap);
    SameOwners(st, st2);
    SameOwners(st', st2);
  }

  lemma {:induction false} MapLoaded(st: State)
    requires Inv(st)
    ensures Inv(st.(freeMap := st.fileMap))
  {
    hide Owned, Owns, IsNode;
    SameOwners(st, st.(freeMap := st.fileMap));
  }

  lemma {:induction false} LeakedSame(st: State)
    ensures LeakedIs(st, st, NONE, NONE)
  {
  }

  lemma {:induction false} LeakedThenSame(st: State, st': State, st'': State, more: iset<nat>, less: iset<nat>)
    requires LeakedIs(st, st', more, less) && LeakedIs(st', st'', NONE, NONE)
    ensures LeakedIs(st, st'', more, less)
  {
    hide Leaked;
  }

  lemma {:induction false} Refill(m: seq<bool>, i: nat, cnt: nat)
    requires All(m, i, cnt, false)
    ensures Fill(Fill(m, i, cnt, true), i, cnt, false) == m
  {
  }
}
