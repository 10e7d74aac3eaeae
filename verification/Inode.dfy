/** Files on the disk: the data of an inode as filesys/inode.c reads and writes it. */
module Inode {
  import opened Common

  const SECTOR: nat := 512

  // ----- the device as a flat array of bytes -----

  ghost predicate IsDevice(sectors: seq<seq<byte>>) {
    forall s | 0 <= s < |sectors| :: |sectors[s]| == SECTOR
  }

  /** Byte `a` of the device. */
  ghost function ByteAt(sectors: seq<seq<byte>>, a: nat): (b: byte)
    requires IsDevice(sectors) && a < |sectors| * SECTOR
  {
    sectors[a / SECTOR][a % SECTOR]
  }

  ghost function Flat(sectors: seq<seq<byte>>): (s: seq<byte>)
    requires IsDevice(sectors)
    ensures |s| == |sectors| * SECTOR
  {
    seq<byte>(|sectors| * SECTOR, a requires 0 <= a < |sectors| * SECTOR => ByteAt(sectors, a))
  }

  /** `s` with `t` written over it from `ofs` on. */
  ghost function Splice(s: seq<byte>, ofs: nat, t: seq<byte>): (r: seq<byte>)
    requires ofs + |t| <= |s|
    ensures |r| == |s|
  {
    s[..ofs] + t + s[ofs + |t|..]
  }

  /** A sector is a slice of the flat device. */
  lemma {:induction false} SectorIsSlice(sectors: seq<seq<byte>>, s: nat)
    requires IsDevice(sectors) && s < |sectors|
    ensures s * SECTOR + SECTOR <= |Flat(sectors)| && sectors[s] == Flat(sectors)[s * SECTOR..s * SECTOR + SECTOR]
  {
    assert s * SECTOR + SECTOR <= |sectors| * SECTOR;
    var slice := Flat(sectors)[s * SECTOR..s * SECTOR + SECTOR];
    forall i | 0 <= i < SECTOR ensures sectors[s][i] == slice[i] {
      assert (s * SECTOR + i) / SECTOR == s && (s * SECTOR + i) % SECTOR == i;
    }
  }

  /** Writing a sector splices it into the flat device. */
  lemma {:induction false} SectorWrite(sectors: seq<seq<byte>>, s: nat, data: seq<byte>)
    requires IsDevice(sectors) && s < |sectors| && |data| == SECTOR
    ensures IsDevice(sectors[s := data]) && s * SECTOR + SECTOR <= |Flat(sectors)|
    ensures Flat(sectors[s := data]) == Splice(Flat(sectors), s * SECTOR, data)
  {
    assert s * SECTOR + SECTOR <= |sectors| * SECTOR;
    var after, spliced := Flat(sectors[s := data]), Splice(Flat(sectors), s * SECTOR, data);
    forall a | 0 <= a < |sectors| * SECTOR ensures after[a] == spliced[a] {
      if s * SECTOR <= a < s * SECTOR + SECTOR {
        assert a / SECTOR == s && a % SECTOR == a - s * SECTOR;
      } else {
        assert a / SECTOR != s;
      }
    }
  }

  lemma {:induction false} SpliceWithin(s: seq<byte>, base: nat, sector: seq<byte>, ofs: nat, t: seq<byte>)
    requires base + |sector| <= |s| && sector == s[base..base + |sector|] && ofs + |t| <= |sector|
    ensures Splice(s, base, Splice(sector, ofs, t)) == Splice(s, base + ofs, t)
  {
    var l, r := Splice(s, base, Splice(sector, ofs, t)), Splice(s, base + ofs, t);
    forall a | 0 <= a < |s| ensures l[a] == r[a] {}
  }

  lemma {:induction false} SpliceTwice(s: seq<byte>, ofs: nat, t: seq<byte>, u: seq<byte>)
    requires ofs + |t| + |u| <= |s|
    ensures Splice(Splice(s, ofs, t), ofs + |t|, u) == Splice(s, ofs, t + u)
  {
    var l, r := Splice(Splice(s, ofs, t), ofs + |t|, u), Splice(s, ofs, t + u);
    forall a | 0 <= a < |s| ensures l[a] == r[a] {}
  }

  // ----- the data of an inode -----

  /** `start` and `length` of the on-disk inode. */
  datatype Data = Data(start: nat, length: nat)

  const OFF_LIMIT: nat := 0x8000_0000  // file offsets are signed 32-bit words
  const WORD: nat := 0x1_0000_0000

  /** `bytes_to_sectors`: the sum overflows for the last sizes below 2^31.  It wraps to a negative number,
      whose quotient is cut towards zero and becomes a huge unsigned one. */
  function BytesToSectors(size: nat): (n: nat)
    ensures size <= n * SECTOR
    ensures size <= OFF_LIMIT - SECTOR ==> n * SECTOR < size + SECTOR
    ensures OFF_LIMIT - SECTOR < size < OFF_LIMIT ==> n >= WORD - OFF_LIMIT / SECTOR
  {
    var sum := size + SECTOR - 1;
    if size < OFF_LIMIT <= sum then WORD - (WORD - sum) / SECTOR else sum / SECTOR
  }

  ghost predicate OnDevice(sectors: seq<seq<byte>>, d: Data) {
    IsDevice(sectors) && d.start + BytesToSectors(d.length) <= |sectors|
  }

  /** No sector outside the file's data has changed. */
  ghost predicate ChangesOnly(sectors: seq<seq<byte>>, sectors': seq<seq<byte>>, d: Data) {
    && |sectors'| == |sectors|
    && forall x | 0 <= x < |sectors| && !(d.start <= x < d.start + BytesToSectors(d.length)) ::
      sectors'[x] == sectors[x]
  }

  /** The bytes of the file. */
  ghost function Contents(sectors: seq<seq<byte>>, d: Data): (s: seq<byte>)
    requires OnDevice(sectors, d)
    ensures |s| == d.length
  {
    ExtentFits(sectors, d);
    Flat(sectors)[d.start * SECTOR..d.start * SECTOR + d.length]
  }

  lemma {:induction false} ExtentFits(sectors: seq<seq<byte>>, d: Data)
    requires OnDevice(sectors, d)
    ensures d.start * SECTOR + d.length <= |sectors| * SECTOR
  {
    assert d.length <= BytesToSectors(d.length) * SECTOR;
  }

  /** A file whose sectors stay the same keeps its contents. */
  lemma {:induction false} ContentsSame(sectors: seq<seq<byte>>, sectors': seq<seq<byte>>, d: Data)
    requires OnDevice(sectors, d) && OnDevice(sectors', d) && |sectors'| == |sectors|
    requires forall x | d.start <= x < d.start + BytesToSectors(d.length) :: sectors'[x] == sectors[x]
    ensures Contents(sectors', d) == Contents(sectors, d)
  {
    hide BytesToSectors;
    ExtentFits(sectors, d);
    forall i: nat | i < d.length ensures Contents(sectors', d)[i] == Contents(sectors, d)[i] {
      var a := d.start * SECTOR + i;
      SectorOfFile(d, i);
      assert a / SECTOR == d.start + i / SECTOR;
      assert sectors'[a / SECTOR] == sectors[a / SECTOR];
    }
  }

  /** How many bytes a transfer moves when memory for the bounce buffer is there. */
  function Available(length: nat, size: int, offset: nat): (n: nat) {
    if size <= 0 || offset >= length then 0 else if size <= length - offset then size else length - offset
  }

  /** Without a bounce buffer only whole sectors are moved. */
  function Moved(length: nat, size: int, offset: nat, bounceOk: bool): (n: nat) {
    var n := Available(length, size, offset);
    if bounceOk then n else if offset % SECTOR != 0 then 0 else n - n % SECTOR
  }

  /** The piece of a transfer that lies in one sector. */
  function Chunk(length: nat, size: int, offset: nat): (n: int) {
    var sectorOfs := offset % SECTOR;
    var inodeLeft, sectorLeft := length - offset, SECTOR - sectorOfs;
    var minLeft := if inodeLeft < sectorLeft then inodeLeft else sectorLeft;
    if size < minLeft then size else minLeft
  }

  /** Moving a chunk and then the rest moves as much as the whole. */
  lemma {:induction false} ChunkSplits(length: nat, size: int, offset: nat, bounceOk: bool)
    requires size > 0 && Chunk(length, size, offset) > 0
    requires bounceOk || (offset % SECTOR == 0 && Chunk(length, size, offset) == SECTOR)
    ensures var c := Chunk(length, size, offset);
            Moved(length, size, offset, bounceOk) == c + Moved(length, size - c, offset + c, bounceOk)
  {
    var c := Chunk(length, size, offset);
    assert Available(length, size, offset) == c + Available(length, size - c, offset + c);
    if !bounceOk {
      assert (offset + SECTOR) % SECTOR == 0;
    }
  }

  lemma {:induction false} ChunkStops(length: nat, size: int, offset: nat, bounceOk: bool)
    requires size <= 0 || Chunk(length, size, offset) <= 0
          || (!bounceOk && !(offset % SECTOR == 0 && Chunk(length, size, offset) == SECTOR))
    ensures Moved(length, size, offset, bounceOk) == 0
  {
  }

  /** `byte_to_sector` gives a sector of the file, and the chunk lies inside it. */
  lemma {:induction false} ChunkInSector(sectors: seq<seq<byte>>, d: Data, size: int, offset: nat)
    requires OnDevice(sectors, d) && Chunk(d.length, size, offset) > 0
    ensures offset < d.length && d.start + offset / SECTOR < |sectors|
    ensures offset % SECTOR + Chunk(d.length, size, offset) <= SECTOR
    ensures offset + Chunk(d.length, size, offset) <= d.length
    ensures (d.start + offset / SECTOR) * SECTOR + offset % SECTOR == d.start * SECTOR + offset
  {
    assert offset / SECTOR < BytesToSectors(d.length);
  }

  // ----- the on-disk inode -----

  const INODE_MAGIC: nat := 0x494e_4f44

  /** A 32-bit word, least significant byte first. */
  function Word(x: nat): (s: seq<byte>)
    requires x < 0x1_0000_0000
    ensures |s| == 4
  {
    [x % 256, x / 256 % 256, x / 65536 % 256, x / 16777216]
  }

  function WordAt(s: seq<byte>, i: nat): (x: nat)
    requires i + 4 <= |s|
  {
    var a: int, b: int, c: int, d: int := s[i], s[i + 1], s[i + 2], s[i + 3];
    a + 256 * b + 65536 * c + 16777216 * d
  }

  predicate Fits(d: Data) { d.start < 0x1_0000_0000 && d.length < 0x8000_0000 }

  /** `struct inode_disk` as it lies in its sector. */
  function Encode(d: Data): (s: seq<byte>)
    requires Fits(d)
    ensures |s| == SECTOR
  {
    Word(d.start) + Word(d.length) + Word(INODE_MAGIC) + seq<byte>(500, _ => 0)
  }

  function Decode(s: seq<byte>): (d: Data)
    requires |s| == SECTOR
  {
    Data(WordAt(s, 0), WordAt(s, 4))
  }

  /** What `inode_create` writes is what `inode_open` reads. */
  lemma {:induction false} DecodeEncode(d: Data)
    requires Fits(d)
    ensures Decode(Encode(d)) == d && WordAt(Encode(d), 8) == INODE_MAGIC
  {
    var s := Encode(d);
    assert s[0..4] == Word(d.start) && s[4..8] == Word(d.length) && s[8..12] == Word(INODE_MAGIC);
    WordReadsBack(s, 0, d.start);
    WordReadsBack(s, 4, d.length);
    WordReadsBack(s, 8, INODE_MAGIC);
  }

  lemma {:induction false} WordReadsBack(s: seq<byte>, i: nat, x: nat)
    requires x < 0x1_0000_0000 && i + 4 <= |s| && s[i..i + 4] == Word(x)
    ensures WordAt(s, i) == x
  {
    assert s[i] == s[i..i + 4][0] && s[i + 1] == s[i..i + 4][1] && s[i + 2] == s[i..i + 4][2]
      && s[i + 3] == s[i..i + 4][3];
    assert x / 65536 == x / 256 / 256 && x / 16777216 == x / 65536 / 256;
  }

  /** The number that bytes stand for, the least significant first. */
  ghost function Little(s: seq<byte>): (x: nat) {
    if s == [] then 0 else (s[0] as int) + 256 * Little(s[1..])
  }

  lemma {:induction false} LittleStep(s: seq<byte>, i: nat, j: nat)
    requires i < j <= |s|
    ensures Little(s[i..j]) == (s[i] as int) + 256 * if i + 1 == j then 0 else Little(s[i + 1..j])
  {
    assert s[i..j][1..] == s[i + 1..j];
  }

  lemma {:induction false} WordIsLittle(s: seq<byte>, i: nat)
    requires i + 4 <= |s|
    ensures WordAt(s, i) == Little(s[i..i + 4])
  {
    LittleStep(s, i, i + 4);
    LittleStep(s, i + 1, i + 4);
    LittleStep(s, i + 2, i + 4);
    LittleStep(s, i + 3, i + 4);
  }

  /** `struct inode_disk`: the first sector, the length, the magic number and unused space, in little-endian
      words. */
  ghost predicate InodeOnDisk(s: seq<byte>, d: Data) {
    && |s| == 512 && Little(s[0..4]) == d.start && Little(s[4..8]) == d.length && Little(s[8..12]) == 0x494e4f44
    && forall i | 12 <= i < 512 :: s[i] == 0
  }

  /** An inode is written in this form and read from it. */
  lemma {:induction false} InodeLayout(d: Data, s: seq<byte>)
    requires Fits(d)
    ensures InodeOnDisk(Encode(d), d)
    ensures InodeOnDisk(s, d) ==> Decode(s) == d
  {
    hide Little, WordAt, Word;
    DecodeEncode(d);
    var e := Encode(d);
    WordIsLittle(e, 0);
    WordIsLittle(e, 4);
    WordIsLittle(e, 8);
    if InodeOnDisk(s, d) {
      WordIsLittle(s, 0);
      WordIsLittle(s, 4);
    }
  }

  /** A transfer without a bounce buffer moves whole sectors. */
  ghost predicate WholeSectors(offset: nat, n: nat) { n > 0 ==> offset % 512 == 0 && n % 512 == 0 }

  /** How much is moved: all that is asked for and there; without a bounce buffer, the most of it that is
      whole sectors. */
  lemma {:induction false} MovedExact(length: nat, size: int, offset: nat, bounceOk: bool)
    ensures var n, m := Moved(length, size, offset, true), Moved(length, size, offset, bounceOk);
      && (size <= 0 || length <= offset ==> n == 0)
      && (size > 0 && offset < length ==> n <= size && offset + n <= length && (n == size || offset + n == length))
      && m <= n && (!bounceOk ==> WholeSectors(offset, m))
      && (forall m': nat | m < m' <= n :: !bounceOk && !WholeSectors(offset, m'))
  {
    var n, m := Moved(length, size, offset, true), Moved(length, size, offset, bounceOk);
    if !bounceOk && offset % SECTOR == 0 {
      assert n - m == n % SECTOR;
      forall m': nat | m < m' <= n ensures m' % SECTOR != 0 { assert m' / SECTOR == m / SECTOR; }
    }
  }

  // ----- the device -----

  class Device {
    var sectors: seq<seq<byte>>

    ghost predicate Valid()
      reads this
    {
      IsDevice(sectors)
    }

    constructor (sectors: seq<seq<byte>>)
      requires IsDevice(sectors)
      ensures Valid() && this.sectors == sectors
    {
      this.sectors := sectors;
    }

    method BlockRead(sector: nat) returns (data: seq<byte>)
      requires Valid() && sector < |sectors|
      ensures |data| == SECTOR && data == sectors[sector]
    {
      return sectors[sector];
    }

    method BlockWrite(sector: nat, data: seq<byte>)
      requires Valid() && sector < |sectors| && |data| == SECTOR
      modifies this
      ensures Valid() && sectors == old(sectors)[sector := data]
    {
      sectors := sectors[sector := data];
    }

    /** `inode_read_at`: the bytes of the file from `offset` on, up to its end. */
    method ReadAt(d: Data, buffer: array<byte>, size: int, offset: nat, bounceOk: bool) returns (bytesRead: nat)
      requires Valid() && OnDevice(sectors, d) && size <= buffer.Length
      modifies buffer
      ensures bytesRead == Moved(d.length, size, offset, bounceOk) <= buffer.Length
      ensures bytesRead > 0 ==>
              offset + bytesRead <= d.length && buffer[..bytesRead] == Contents(sectors, d)[offset..offset + bytesRead]
      ensures buffer[bytesRead..] == old(buffer[bytesRead..])
    {
      hide Flat, Moved, Chunk, Contents, Available, Splice, IsDevice, BytesToSectors;
      bytesRead := 0;
      var left, pos := size, offset;
      while left > 0
        invariant pos == offset + bytesRead && (left == size - bytesRead)
        invariant bytesRead <= buffer.Length
        invariant Moved(d.length, size, offset, bounceOk) == bytesRead + Moved(d.length, left, pos, bounceOk)
        invariant bytesRead > 0 ==> pos <= d.length && buffer[..bytesRead] == Contents(sectors, d)[offset..pos]
        invariant buffer[bytesRead..] == old(buffer[bytesRead..])
        decreases left
      {
        var chunk := Chunk(d.length, left, pos);
        if chunk <= 0 { break; }
        ChunkInSector(sectors, d, left, pos);
        ChunkAtMost(d.length, left, pos);
        if !bounceOk && !(pos % SECTOR == 0 && chunk == SECTOR) { break; }
        var data := ReadChunk(d.start + pos / SECTOR, pos % SECTOR, chunk);
        ChunkContents(sectors, d, left, pos);
        ChunkSplits(d.length, left, pos, bounceOk);
        ghost var before, contents := buffer[..], Contents(sectors, d);
        CopyOut(buffer, bytesRead, data);
        CopiedOut(before, buffer[..], old(buffer[..]), bytesRead, data, contents, offset, pos);
        left, pos, bytesRead := left - chunk, pos + chunk, bytesRead + chunk;
      }
      ChunkStops(d.length, left, pos, bounceOk);
    }

    /** The body of the loop of `inode_read_at`, for a chunk inside one sector. */
    method ReadChunk(sector: nat, sectorOfs: nat, chunkSize: nat) returns (data: seq<byte>)
      requires Valid() && sector < |sectors| && 0 < chunkSize && sectorOfs + chunkSize <= SECTOR
      ensures sectorOfs + chunkSize <= |sectors[sector]| && data == sectors[sector][sectorOfs..sectorOfs + chunkSize]
    {
      if sectorOfs == 0 && chunkSize == SECTOR {
        data := BlockRead(sector);
      } else {
        var bounce := BlockRead(sector);
        data := bounce[sectorOfs..sectorOfs + chunkSize];
      }
    }

    /** `memcpy` into the caller's buffer. */
    static method CopyOut(buffer: array<byte>, at: nat, data: seq<byte>)
      requires at + |data| <= buffer.Length
      modifies buffer
      ensures buffer[..] == Splice(old(buffer[..]), at, data)
    {
      forall i | 0 <= i < |data| {
        buffer[at + i] := data[i];
      }
    }

    /** `inode_write_at`: the bytes replace those of the file from `offset` on, up to its end; every
        other byte of the device stays as it is. */
    method WriteAt(d: Data, denyWriteCnt: nat, buffer: seq<byte>, size: int, offset: nat, bounceOk: bool)
        returns (bytesWritten: nat)
      requires OnDevice(sectors, d) && size <= |buffer|
      modifies this
      ensures bytesWritten == (if denyWriteCnt > 0 then 0 else Moved(d.length, size, offset, bounceOk)) <= |buffer|
      ensures IsDevice(sectors) && |sectors| == |old(sectors)|
      ensures bytesWritten > 0 ==>
              offset + bytesWritten <= d.length && d.start * SECTOR + offset + bytesWritten <= |Flat(old(sectors))|
      ensures ChangesOnly(old(sectors), sectors, d)
      ensures Flat(sectors) == if bytesWritten == 0 then Flat(old(sectors))
                               else Splice(Flat(old(sectors)), d.start * SECTOR + offset, buffer[..bytesWritten])
    {
      hide Flat, Moved, Chunk, Contents, Available, Splice;
      bytesWritten := 0;
      if denyWriteCnt > 0 { return; }
      var left, pos := size, offset;
      while left > 0
        invariant pos == offset + bytesWritten && (left == size - bytesWritten)
        invariant bytesWritten <= |buffer|
        invariant Moved(d.length, size, offset, bounceOk) == bytesWritten + Moved(d.length, left, pos, bounceOk)
        invariant OnDevice(sectors, d) && |sectors| == |old(sectors)|
        invariant bytesWritten > 0 ==> pos <= d.length && d.start * SECTOR + pos <= |Flat(old(sectors))|
        invariant bytesWritten == 0 ==> sectors == old(sectors)
        invariant ChangesOnly(old(sectors), sectors, d)
        invariant bytesWritten > 0 ==>
                  Flat(sectors) == Splice(Flat(old(sectors)), d.start * SECTOR + offset, buffer[..bytesWritten])
        decreases left
      {
        var chunk := Chunk(d.length, left, pos);
        if chunk <= 0 { break; }
        ChunkInSector(sectors, d, left, pos);
        ChunkAtMost(d.length, left, pos);
        if !bounceOk && !(pos % SECTOR == 0 && chunk == SECTOR) { break; }
        ghost var before := sectors;
        SectorOfFile(d, pos);
        WriteChunk(d.start + pos / SECTOR, pos % SECTOR, buffer[bytesWritten..bytesWritten + chunk]);
        ExtentFits(before, d);
        ChunkSplits(d.length, left, pos, bounceOk);
        Written(Flat(old(sectors)), Flat(before), Flat(sectors), d.start * SECTOR + offset, buffer, bytesWritten,
                chunk);
        left, pos, bytesWritten := left - chunk, pos + chunk, bytesWritten + chunk;
      }
      ChunkStops(d.length, left, pos, bounceOk);
    }

    /** The body of the loop of `inode_write_at`, for a chunk inside one sector: a whole sector goes
        straight to the disk, a part of one through the bounce buffer. */
    method WriteChunk(sector: nat, sectorOfs: nat, chunk: seq<byte>)
      requires Valid() && sector < |sectors| && 0 < |chunk| && sectorOfs + |chunk| <= SECTOR
      modifies this
      ensures Valid() && |sectors| == |old(sectors)|
      ensures forall x | 0 <= x < |sectors| && x != sector :: sectors[x] == old(sectors)[x]
      ensures sector * SECTOR + sectorOfs + |chunk| <= |Flat(old(sectors))|
      ensures Flat(sectors) == Splice(Flat(old(sectors)), sector * SECTOR + sectorOfs, chunk)
    {
      hide Flat;
      SectorIsSlice(sectors, sector);
      var sectorLeft := SECTOR - sectorOfs;
      if sectorOfs == 0 && |chunk| == SECTOR {
        SectorWrite(sectors, sector, chunk);
        BlockWrite(sector, chunk);
      } else {
        var bounce := Zeros();
        if sectorOfs > 0 || |chunk| < sectorLeft {
          bounce := BlockRead(sector);
        }
        var data := bounce[..sectorOfs] + chunk + bounce[sectorOfs + |chunk|..];
        SpliceWithin(Flat(sectors), sector * SECTOR, sectors[sector], sectorOfs, chunk);
        SectorWrite(sectors, sector, data);
        BlockWrite(sector, data);
      }
    }

    /** `inode_create` once the free map has given it `start`: the inode's sector describes the
        data, the file is all zeros, and no other sector changes. */
    method Create(sector: nat, d: Data)
      requires Valid() && Fits(d) && OnDevice(sectors, d) && sector < |sectors|
      requires sector < d.start || d.start + BytesToSectors(d.length) <= sector
      modifies this
      ensures OnDevice(sectors, d) && |sectors| == |old(sectors)|
      ensures Decode(sectors[sector]) == d
      ensures Contents(sectors, d) == seq(d.length, _ => 0)
      ensures forall s | 0 <= s < |sectors| && s != sector && !(d.start <= s < d.start + BytesToSectors(d.length)) ::
              sectors[s] == old(sectors)[s]
    {
      hide Flat, Encode, Decode, Contents, BytesToSectors;
      DecodeEncode(d);
      BlockWrite(sector, Encode(d));
      var cnt := BytesToSectors(d.length);
      for i := 0 to cnt
        invariant Valid() && |sectors| == |old(sectors)| && sectors[sector] == Encode(d)
        invariant forall s | d.start <= s < d.start + i :: sectors[s] == Zeros()
        invariant forall s | 0 <= s < |sectors| && s != sector && !(d.start <= s < d.start + i) ::
                  sectors[s] == old(sectors)[s]
      {
        BlockWrite(d.start + i, Zeros());
      }
      ZeroFile(sectors, d);
    }
  }

  function Zeros(): (s: seq<byte>)
    ensures |s| == SECTOR && forall i | 0 <= i < SECTOR :: s[i] == 0
  {
    seq<byte>(SECTOR, _ => 0)
  }

  lemma {:induction false} ZeroFile(sectors: seq<seq<byte>>, d: Data)
    requires OnDevice(sectors, d)
    requires forall s | d.start <= s < d.start + BytesToSectors(d.length) :: sectors[s] == Zeros()
    ensures Contents(sectors, d) == seq(d.length, _ => 0)
  {
    hide Zeros, BytesToSectors;
    ExtentFits(sectors, d);
    forall i: nat | i < d.length ensures Contents(sectors, d)[i] == 0 {
      var a := d.start * SECTOR + i;
      SectorOfFile(d, i);
      assert a / SECTOR == d.start + i / SECTOR;
      assert sectors[a / SECTOR] == Zeros();
    }
  }

  lemma {:induction false} SectorOfFile(d: Data, pos: nat)
    requires pos < d.length
    ensures d.start <= d.start + pos / SECTOR < d.start + BytesToSectors(d.length)
  {
  }

  lemma {:induction false} ChunkAtMost(length: nat, size: int, offset: nat)
    ensures Chunk(length, size, offset) <= size
  {
  }

  lemma {:induction false} ChunkContents(sectors: seq<seq<byte>>, d: Data, size: int, offset: nat)
    requires OnDevice(sectors, d) && Chunk(d.length, size, offset) > 0
    ensures var s, o, c := d.start + offset / SECTOR, offset % SECTOR, Chunk(d.length, size, offset);
      s < |sectors| && o + c <= SECTOR && offset + c <= d.length
        && sectors[s][o..o + c] == Contents(sectors, d)[offset..offset + c]
  {
    hide Flat, Chunk;
    ChunkInSector(sectors, d, size, offset);
    ExtentFits(sectors, d);
    SectorIsSlice(sectors, d.start + offset / SECTOR);
    SliceOfSlice(Flat(sectors), (d.start + offset / SECTOR) * SECTOR, SECTOR, offset % SECTOR,
                 Chunk(d.length, size, offset));
    SliceOfSlice(Flat(sectors), d.start * SECTOR, d.length, offset, Chunk(d.length, size, offset));
  }

  lemma {:induction false} SliceOfSlice(s: seq<byte>, a: nat, n: nat, i: nat, c: nat)
    requires a + n <= |s| && i + c <= n
    ensures s[a..a + n][i..i + c] == s[a + i..a + i + c]
  {
    var l, r := s[a..a + n][i..i + c], s[a + i..a + i + c];
    assert |l| == |r| == c;
    assert forall j | 0 <= j < c :: l[j] == s[a + i + j] == r[j];
  }

  lemma {:induction false} CopiedOut(before: seq<byte>, after: seq<byte>, orig: seq<byte>, n: nat, data: seq<byte>,
                                     contents: seq<byte>, offset: nat, pos: nat)
    requires |before| == |orig| && n + |data| <= |before| && after == Splice(before, n, data)
    requires pos == offset + n && pos + |data| <= |contents| && data == contents[pos..pos + |data|]
    requires n > 0 ==> before[..n] == contents[offset..pos]
    requires before[n..] == orig[n..]
    ensures after[..n + |data|] == contents[offset..pos + |data|]
    ensures after[n + |data|..] == orig[n + |data|..]
  {
    assert after[..n + |data|] == before[..n] + data;
    assert contents[offset..pos + |data|] == contents[offset..pos] + data;
    assert n == 0 ==> before[..n] == contents[offset..pos];
    assert after[n + |data|..] == before[n + |data|..] == before[n..][|data|..];
    assert orig[n + |data|..] == orig[n..][|data|..];
  }

  lemma {:induction false} Written(orig: seq<byte>, before: seq<byte>, after: seq<byte>, at: nat, buffer: seq<byte>,
                                   n: nat, c: nat)
    requires |before| == |orig| && n + c <= |buffer| && at + n + c <= |orig|
    requires if n == 0 then before == orig else before == Splice(orig, at, buffer[..n])
    requires after == Splice(before, at + n, buffer[n..n + c])
    ensures after == Splice(orig, at, buffer[..n + c])
  {
    assert buffer[..n + c] == buffer[..n] + buffer[n..n + c];
    if n == 0 {
      assert buffer[..n + c] == buffer[n..n + c];
    } else {
      SpliceTwice(orig, at, buffer[..n], buffer[n..n + c]);
    }
  }

  // ----- reading back and keeping apart -----

  /** What was written is read back, and the rest of the file is unchanged. */
  lemma {:induction false} WriteThenRead(sectors: seq<seq<byte>>, sectors': seq<seq<byte>>, d: Data, offset: nat,
                                         t: seq<byte>)
    requires OnDevice(sectors, d) && OnDevice(sectors', d) && |sectors'| == |sectors| && offset + |t| <= d.length
    requires d.start * SECTOR + offset + |t| <= |Flat(sectors)|
    requires Flat(sectors') == Splice(Flat(sectors), d.start * SECTOR + offset, t)
    ensures Contents(sectors', d) == Splice(Contents(sectors, d), offset, t)
  {
    hide Flat;
    var base := d.start * SECTOR;
    ExtentFits(sectors, d);
    var f, f' := Flat(sectors), Flat(sectors');
    forall i | 0 <= i < d.length ensures Contents(sectors', d)[i] == Splice(Contents(sectors, d), offset, t)[i] {
      assert f'[base + i] == Splice(f, base + offset, t)[base + i];
    }
  }

  /** Writing one file leaves a file in other sectors unchanged. */
  lemma {:induction false} WriteElsewhere(sectors: seq<seq<byte>>, sectors': seq<seq<byte>>, d: Data, e: Data,
                                          offset: nat, t: seq<byte>)
    requires OnDevice(sectors, d) && OnDevice(sectors, e) && OnDevice(sectors', e) && |sectors'| == |sectors|
    requires offset + |t| <= d.length
    requires d.start * SECTOR + offset + |t| <= |Flat(sectors)|
    requires Flat(sectors') == Splice(Flat(sectors), d.start * SECTOR + offset, t)
    requires d.start + BytesToSectors(d.length) <= e.start || e.start + BytesToSectors(e.length) <= d.start
    ensures Contents(sectors', e) == Contents(sectors, e)
  {
    hide Flat;
    ExtentFits(sectors, e);
    assert d.length <= BytesToSectors(d.length) * SECTOR && e.length <= BytesToSectors(e.length) * SECTOR;
    var f, f' := Flat(sectors), Flat(sectors');
    forall i | 0 <= i < e.length ensures Contents(sectors', e)[i] == Contents(sectors, e)[i] {
      assert f'[e.start * SECTOR + i] == f[e.start * SECTOR + i];
    }
  }
}
