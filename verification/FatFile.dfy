/**
 Files of a FAT16 volume, src/objects/File.cpp: a run of consecutive sectors and
 a chain of clusters, both read byte by byte through a cache of one sector.  The
 disk is an unchanging function from sector number to 512 bytes.
 */
module FatFile {
  import opened Words

  const SECTOR: nat := 512
  const CLUSTER_END: nat := 0xFFF8
  const NO_SECTOR: int := -1
  const EOF: int := -1

  type Sector = s: seq<Byte> | |s| == SECTOR witness seq(512, i => 0)

  datatype Disk = Disk(sector: nat -> Sector)

  datatype Whence = SeekSet | SeekCur | SeekEnd | Unknown

  method ReadSector(disk: Disk, ind: nat, buffer: array<Byte>)
    requires buffer.Length == SECTOR
    modifies buffer
    ensures buffer[..] == disk.sector(ind)
  {
    var s := disk.sector(ind);
    for i := 0 to SECTOR
      invariant forall j | 0 <= j < i :: buffer[j] == s[j]
    {
      buffer[i] := s[i];
    }
  }

  // ----- a file seen from outside: its bytes and a cursor

  /** The bytes a read of `size` delivers at `cursor`. */
  ghost function Slice(content: seq<Byte>, cursor: nat, size: nat): seq<Byte>
  {
    if cursor >= |content| then [] else content[cursor..if cursor + size <= |content| then cursor + size else |content|]
  }

  /** `seek` on a 32-bit cursor. */
  function Seeked(cursor: nat, length: nat, pos: int, whence: Whence): (c: nat)
    requires cursor < W32
    ensures c < W32
  {
    match whence
    case SeekSet => pos % W32
    case SeekCur => (cursor + pos) % W32
    case SeekEnd => (length + pos) % W32
    case Unknown => cursor
  }

  lemma SliceGrows(content: seq<Byte>, from: nat, i: nat)
    requires from + i < |content|
    ensures Slice(content, from, i) + [content[from + i]] == Slice(content, from, i + 1)
  {
  }

  // ----- consecutive sectors

  ghost function Flatten(bs: seq<seq<Byte>>): seq<Byte>
  {
    if bs == [] then [] else bs[0] + Flatten(bs[1..])
  }

  ghost predicate Blocks(bs: seq<seq<Byte>>, n: nat) { forall b | b in bs :: |b| == n }

  lemma MulPeel(k: nat, n: nat)
    requires k > 0
    ensures Mul(k, n) == n + Mul(k - 1, n)
  {
  }

  lemma DivPeel(i: nat, n: nat)
    requires 0 < n <= i
    ensures Quot(i, n) == Quot(i - n, n) + 1 && Rem(i, n) == Rem(i - n, n)
  {
    DivModUnique(i, n, (i - n) / n + 1, (i - n) % n);
  }

  lemma DivSmall(i: nat, n: nat)
    requires i < n
    ensures Quot(i, n) == 0 && Rem(i, n) == i
  {
    DivModUnique(i, n, 0, i);
  }

  /** Indexing a concatenation of equal blocks. */
  lemma {:induction false} FlattenAt(bs: seq<seq<Byte>>, n: nat, i: nat)
    requires n > 0 && Blocks(bs, n)
    ensures |Flatten(bs)| == Mul(|bs|, n)
    ensures i < |Flatten(bs)| ==> Quot(i, n) < |bs| && Rem(i, n) < n && Flatten(bs)[i] == bs[Quot(i, n)][Rem(i, n)]
  {
    if bs == [] {
      assert Mul(0, n) == 0;
    } else {
      hide Mul, Quot, Rem;
      MulPeel(|bs|, n);
      assert bs[0] in bs;
      if i < n {
        DivSmall(i, n);
        FlattenAt(bs[1..], n, 0);
      } else {
        DivPeel(i, n);
        FlattenAt(bs[1..], n, i - n);
      }
    }
  }

  /** The bytes of `count` sectors from `begin`. */
  ghost function Extent(disk: Disk, begin: nat, count: nat): seq<Byte>
  {
    Flatten(seq(count, (j: nat) => disk.sector(begin + j)))
  }

  lemma ExtentAt(disk: Disk, begin: nat, count: nat, i: nat)
    ensures |Extent(disk, begin, count)| == count * SECTOR
    ensures i < count * SECTOR ==> Extent(disk, begin, count)[i] == disk.sector(begin + i / SECTOR)[i % SECTOR]
  {
    var bs := seq(count, (j: nat) => disk.sector(begin + j));
    FlattenAt(bs, SECTOR, i);
  }

  class SequentialFile {
    const disk: Disk
    const begin: nat
    const end: nat
    const filesize: nat
    const buffer: array<Byte>
    var cursor: nat
    var bufferPos: int

    ghost predicate Valid()
      reads this, buffer
    {
      && begin <= end && filesize == (end - begin) * SECTOR < W32 && cursor < W32
      && buffer.Length == SECTOR
      && (bufferPos != NO_SECTOR ==> bufferPos >= 0 && buffer[..] == disk.sector(begin + bufferPos))
    }

    ghost function Content(): seq<Byte>
    {
      if begin <= end then Extent(disk, begin, end - begin) else []
    }

    constructor (disk: Disk, begin: nat, end: nat)
      requires begin <= end && (end - begin) * SECTOR < W32
      ensures Valid() && cursor == 0 && this.disk == disk && this.begin == begin && this.end == end && fresh(buffer)
    {
      this.disk, this.begin, this.end := disk, begin, end;
      filesize := (end - begin) * SECTOR;
      cursor, bufferPos := 0, NO_SECTOR;
      buffer := new Byte[SECTOR];
    }

    method EnsureCursorInBuffer()
      requires Valid() && cursor < filesize
      modifies this`bufferPos, buffer
      ensures Valid() && buffer[..] == disk.sector(begin + cursor / SECTOR)
    {
      var cursorSector := cursor / SECTOR;
      if cursorSector != bufferPos {
        ReadSector(disk, cursorSector + begin, buffer);
        bufferPos := cursorSector;
      }
    }

    method Getc() returns (ch: int)
      requires Valid()
      modifies this`bufferPos, this`cursor, buffer
      ensures Valid()
      ensures if old(cursor) < |Content()| then ch == Content()[old(cursor)] && cursor == old(cursor) + 1
              else ch == EOF && cursor == old(cursor)
    {
      ExtentAt(disk, begin, end - begin, cursor);
      if cursor >= filesize {
        return EOF;
      }
      EnsureCursorInBuffer();
      ch := buffer[cursor % SECTOR];
      cursor := (cursor + 1) % W32;
    }

    /** `read`: the bytes at the cursor, as many as there are up to `size`. */
    method Read(size: nat) returns (data: seq<Byte>)
      requires Valid()
      modifies this`bufferPos, this`cursor, buffer
      ensures Valid() && data == Slice(Content(), old(cursor), size) && cursor == old(cursor) + |data|
    {
      hide Extent;
      data := [];
      var i := 0;
      while i < size
        invariant Valid() && |data| == i <= size && cursor == old(cursor) + i
        invariant data == Slice(Content(), old(cursor), i)
      {
        var ch := Getc();
        if ch == EOF {
          break;
        }
        SliceGrows(Content(), old(cursor), i);
        data := data + [ch];
        i := i + 1;
      }
    }

    method Seek(pos: int, whence: Whence) returns (ret: int)
      requires Valid()
      modifies this`cursor
      ensures Valid() && cursor == Seeked(old(cursor), filesize, pos, whence)
      ensures ret == if whence == Unknown then -1 else 0
    {
      ret := 0;
      match whence
      case SeekCur => cursor := (cursor + pos) % W32;
      case SeekSet => cursor := pos % W32;
      case SeekEnd => cursor := (filesize + pos) % W32;
      case Unknown => ret := -1;
    }
  }

  // ----- cluster chains

  /** The layout facts a cluster file uses. */
  datatype Volume = Volume(disk: Disk, sectorsPerCluster: nat, firstDataSector: nat, fatBegin: nat, fatEnd: nat)

  ghost function FatBytes(v: Volume): seq<Byte>
  {
    if v.fatBegin <= v.fatEnd then Extent(v.disk, v.fatBegin, v.fatEnd - v.fatBegin) else []
  }

  function Little(low: nat, high: nat): nat { low + 256 * high }

  /** The 16-bit little-endian entry for cluster `c`. */
  ghost function FatEntry(v: Volume, c: nat): nat
    requires 2 * c + 1 < |FatBytes(v)|
  {
    Little(FatBytes(v)[2 * c], FatBytes(v)[2 * c + 1])
  }

  /** Low byte first. */
  lemma EntryBytes(v: Volume, c: nat)
    requires 2 * c + 1 < |FatBytes(v)|
    ensures FatEntry(v, c) % 256 == FatBytes(v)[2 * c] && FatEntry(v, c) / 256 == FatBytes(v)[2 * c + 1]
  {
  }

  /** The data area starts with cluster 2, and the clusters follow one another. */
  lemma ClusterLayout(v: Volume, c: nat)
    requires c >= 2
    ensures ClusterStart(v, 2) == v.firstDataSector
    ensures ClusterStart(v, c + 1) == ClusterStart(v, c) + v.sectorsPerCluster
  {
    MulAdd(c - 2, 1, v.sectorsPerCluster);
  }

  /** The chain from `c` visits exactly the clusters of `chain`, each within the volume, and ends. */
  ghost predicate IsChain(v: Volume, c: nat, chain: seq<nat>)
    decreases |chain|
  {
    if chain == [] then c >= CLUSTER_END
    else
      && c == chain[0] && 2 <= c < CLUSTER_END && 2 * c + 1 < |FatBytes(v)|
      && c * v.sectorsPerCluster + v.firstDataSector < W32
      && IsChain(v, FatEntry(v, c), chain[1..])
  }

  function ClusterStart(v: Volume, c: nat): (s: nat)
    requires c >= 2
  {
    Mul(c - 2, v.sectorsPerCluster) + v.firstDataSector
  }

  ghost function ClusterBytes(v: Volume, c: nat): seq<Byte>
    requires c >= 2
  {
    Extent(v.disk, ClusterStart(v, c), v.sectorsPerCluster)
  }

  ghost predicate DataClusters(chain: seq<nat>) { forall k | 0 <= k < |chain| :: chain[k] >= 2 }

  /** The concatenation of the clusters of a chain. */
  ghost function ChainBytes(v: Volume, chain: seq<nat>): seq<Byte>
    requires DataClusters(chain)
  {
    Flatten(seq(|chain|, i requires 0 <= i < |chain| => ClusterBytes(v, chain[i])))
  }

  function ClusterSize(v: Volume): nat { v.sectorsPerCluster * SECTOR }

  /** Byte `i` of the chain, found the way the code finds it. */
  lemma ChainByteAt(v: Volume, chain: seq<nat>, i: nat)
    requires v.sectorsPerCluster > 0 && DataClusters(chain)
    ensures |ChainBytes(v, chain)| == Mul(|chain|, ClusterSize(v))
    ensures i < |ChainBytes(v, chain)| ==>
              var sector := i / SECTOR; var k := Quot(sector, v.sectorsPerCluster);
              && k < |chain|
              && ChainBytes(v, chain)[i]
                 == v.disk.sector(ClusterStart(v, chain[k]) + Rem(sector, v.sectorsPerCluster))[i % SECTOR]
  {
    var bs := seq(|chain|, j requires 0 <= j < |chain| => ClusterBytes(v, chain[j]));
    var n := ClusterSize(v);
    forall b | b in bs ensures |b| == n {
      var j :| 0 <= j < |bs| && bs[j] == b;
      ExtentAt(v.disk, ClusterStart(v, chain[j]), v.sectorsPerCluster, 0);
    }
    FlattenAt(bs, n, i);
    hide Quot, Rem, Mul, Flatten, Extent, ClusterStart;
    if i < |ChainBytes(v, chain)| {
      SectorInCluster(i, v.sectorsPerCluster);
      var k, off := Quot(i, n), Rem(i, n);
      ExtentAt(v.disk, ClusterStart(v, chain[k]), v.sectorsPerCluster, off);
    }
  }

  /** Splitting a byte offset by clusters, and by sectors then clusters, is the same. */
  lemma SectorInCluster(i: nat, spc: nat)
    requires spc > 0
    ensures var n := spc * SECTOR; var off := Rem(i, n);
            && Quot(i, n) == Quot(i / SECTOR, spc)
            && off / SECTOR == Rem(i / SECTOR, spc) && off % SECTOR == i % SECTOR && off < spc * SECTOR
  {
    var s, low := i / SECTOR, i % SECTOR;
    var k, r := Quot(s, spc), Rem(s, spc);
    assert s == k * spc + r;
    assert i == k * (spc * SECTOR) + (r * SECTOR + low) by {
      assert (k * spc) * SECTOR == k * (spc * SECTOR);
    }
    DivModUnique(i, spc * SECTOR, k, r * SECTOR + low);
    hide Quot, Rem;
    DivModUnique(r * SECTOR + low, SECTOR, r, low);
  }

  lemma {:induction false} ChainInRange(v: Volume, c: nat, chain: seq<nat>, k: nat)
    requires IsChain(v, c, chain) && k < |chain|
    ensures 2 <= chain[k] < CLUSTER_END && 2 * chain[k] + 1 < |FatBytes(v)|
    ensures chain[k] * v.sectorsPerCluster + v.firstDataSector < W32
    decreases |chain|
  {
    if k > 0 {
      ChainInRange(v, FatEntry(v, c), chain[1..], k - 1);
    }
  }

  lemma {:induction false} ChainFrom(v: Volume, c: nat, chain: seq<nat>, k: nat)
    requires IsChain(v, c, chain) && k < |chain|
    ensures IsChain(v, chain[k], chain[k..])
    decreases |chain|
  {
    if k == 0 {
      assert chain[0..] == chain;
    } else {
      ChainFrom(v, FatEntry(v, c), chain[1..], k - 1);
      assert chain[1..][k - 1..] == chain[k..];
    }
  }

  /** The table determines the chain. */
  lemma {:induction false} ChainUnique(v: Volume, c: nat, one: seq<nat>, other: seq<nat>)
    requires IsChain(v, c, one) && IsChain(v, c, other)
    ensures one == other
    decreases |one|
  {
    if one != [] && other != [] {
      ChainUnique(v, FatEntry(v, c), one[1..], other[1..]);
      assert one == [c] + one[1..] && other == [c] + other[1..];
    }
  }

  /** A chain that ends visits no cluster twice. */
  lemma ChainAcyclic(v: Volume, c: nat, chain: seq<nat>, i: nat, j: nat)
    requires IsChain(v, c, chain) && i < j < |chain|
    ensures chain[i] != chain[j]
  {
    ChainFrom(v, c, chain, i);
    ChainFrom(v, c, chain, j);
    if chain[i] == chain[j] {
      ChainUnique(v, chain[i], chain[i..], chain[j..]);
      assert false;
    }
  }

  lemma ChainOfData(v: Volume, c: nat, chain: seq<nat>)
    requires IsChain(v, c, chain)
    ensures DataClusters(chain)
  {
    forall k | 0 <= k < |chain| ensures chain[k] >= 2 {
      ChainInRange(v, c, chain, k);
    }
  }

  /** The sector of any byte of the chain is a 32-bit sector number. */
  lemma SectorFits(v: Volume, c: nat, r: nat)
    requires 2 <= c && c * v.sectorsPerCluster + v.firstDataSector < W32 && r < v.sectorsPerCluster
    ensures ClusterStart(v, c) + r < W32
  {
    assert c * v.sectorsPerCluster == Mul(c - 2, v.sectorsPerCluster) + 2 * v.sectorsPerCluster;
  }

  /** The sector the code computes for a byte holds that byte of the chain. */
  lemma SectorOfByte(v: Volume, start: nat, chain: seq<nat>, i: nat)
    requires v.sectorsPerCluster > 0 && IsChain(v, start, chain) && DataClusters(chain)
    requires i < |ChainBytes(v, chain)|
    ensures var k, within := Quot(i / SECTOR, v.sectorsPerCluster), Rem(i / SECTOR, v.sectorsPerCluster);
            && k < |chain|
            && v.disk.sector((within + ClusterStart(v, chain[k])) % W32)[i % SECTOR] == ChainBytes(v, chain)[i]
  {
    hide ChainBytes, Quot, Rem, ClusterStart, IsChain;
    ChainByteAt(v, chain, i);
    var k := Quot(i / SECTOR, v.sectorsPerCluster);
    ChainInRange(v, start, chain, k);
    SectorFits(v, chain[k], Rem(i / SECTOR, v.sectorsPerCluster));
  }

  // ----- the cluster file

  /** The two-byte read of a table entry through the file of the allocation table. */
  method NextCluster(v: Volume, fat: SequentialFile, c: nat) returns (next: nat)
    requires fat.Valid() && fat.disk == v.disk && fat.begin == v.fatBegin && fat.end == v.fatEnd
    requires c < 0x1_0000 && 2 * c + 1 < |FatBytes(v)|
    modifies fat, fat.buffer
    ensures fat.Valid() && next == FatEntry(v, c)
  {
    hide Extent;
    var ret := fat.Seek(2 * c, SeekSet);
    var entry := fat.Read(2);
    assert entry == FatBytes(v)[2 * c..2 * c + 2];
    next := Little(entry[0], entry[1]);
  }

  /** How many clusters: the first walk along the chain. */
  method CountClusters(v: Volume, fat: SequentialFile, start: nat, ghost chain: seq<nat>) returns (count: nat)
    requires fat.Valid() && fat.disk == v.disk && fat.begin == v.fatBegin && fat.end == v.fatEnd
    requires IsChain(v, start, chain)
    modifies fat, fat.buffer
    ensures fat.Valid() && count == |chain|
  {
    hide Extent;
    count := 0;
    var now: nat := start;
    assert chain[0..] == chain;
    while now < CLUSTER_END
      invariant fat.Valid() && count <= |chain| && IsChain(v, now, chain[count..])
      decreases |chain| - count
    {
      assert chain[count..][1..] == chain[count + 1..];
      now := NextCluster(v, fat, now);
      count := count + 1;
    }
  }

  /** The table: the second walk, bounded by the file size. */
  method FillTable(v: Volume, fat: SequentialFile, start: nat, count: nat, size: nat, ghost chain: seq<nat>)
    returns (clusters: array<nat>)
    requires fat.Valid() && fat.disk == v.disk && fat.begin == v.fatBegin && fat.end == v.fatEnd
    requires IsChain(v, start, chain) && count == |chain| && v.sectorsPerCluster > 0
    requires size >= Mul(count, ClusterSize(v))
    modifies fat, fat.buffer
    ensures fat.Valid() && fresh(clusters) && clusters[..] == chain
  {
    hide Extent, Mul;
    clusters := new nat[count];
    var i: nat := 0;
    var now: nat := start;
    assert chain[0..] == chain;
    assert Mul(0, ClusterSize(v)) < size || count == 0 by { MoreClusters(0, count, ClusterSize(v)); }
    while now < CLUSTER_END && Mul(i, ClusterSize(v)) < size
      invariant fat.Valid() && i <= count && IsChain(v, now, chain[i..])
      invariant forall j | 0 <= j < i :: clusters[j] == chain[j]
      invariant i < count ==> Mul(i, ClusterSize(v)) < size
      decreases count - i
    {
      assert chain[i..][0] == chain[i] && chain[i..][1..] == chain[i + 1..];
      clusters[i] := now;
      now := NextCluster(v, fat, now);
      i := i + 1;
      MoreClusters(i, count, ClusterSize(v));
    }
  }

  lemma MoreClusters(i: nat, count: nat, n: nat)
    ensures i < count && n > 0 ==> Mul(i, n) < Mul(count, n)
  {
    if i < count && n > 0 {
      MulStrict(i, count, n);
    }
  }

  datatype FileOp = Seek(pos: int, whence: Whence) | Read(size: nat)

  /** What a sequence of operations delivers, on the plain bytes and a cursor. */
  ghost function Deliveries(content: seq<Byte>, cursor: nat, ops: seq<FileOp>): seq<seq<Byte>>
    requires cursor < W32
    decreases |ops|
  {
    if ops == [] then []
    else match ops[0]
      case Seek(pos, whence) => Deliveries(content, Seeked(cursor, |content|, pos, whence), ops[1..])
      case Read(size) =>
        var data := Slice(content, cursor, size);
        [data] + Deliveries(content, (cursor + |data|) % W32, ops[1..])
  }

  class ClusterFile {
    const v: Volume
    const clusters: array<nat>
    const buffer: array<Byte>
    const size: nat
    ghost const chain: seq<nat>
    ghost const start: nat
    var cursor: nat
    var bufferPos: int

    ghost predicate Valid()
      reads this, clusters, buffer
    {
      && v.sectorsPerCluster > 0 && IsChain(v, start, chain) && DataClusters(chain)
      && clusters[..] == chain && |ChainBytes(v, chain)| <= size < W32 && cursor < W32
      && buffer.Length == SECTOR
      && (bufferPos != NO_SECTOR ==> bufferPos >= 0 && buffer[..] == v.disk.sector(bufferPos))
    }

    ghost function Content(): seq<Byte>
      requires DataClusters(chain)
    {
      ChainBytes(v, chain)
    }

    /** Nothing is promised beyond the chain. */
    ghost predicate Covered()
    {
      DataClusters(chain) && size == |Content()|
    }

    /**
     Two walks along the chain: count, then record.  A regular file's size is never
     below the capacity of its chain afterwards; a directory's is exactly that.
     */
    constructor (v: Volume, fat: SequentialFile, startCluster: nat, entrySize: nat, isDir: bool, ghost chain: seq<nat>)
      requires v.sectorsPerCluster > 0 && fat.Valid()
      requires fat.disk == v.disk && fat.begin == v.fatBegin && fat.end == v.fatEnd
      requires IsChain(v, startCluster % 0x1_0000, chain)
      requires Mul(|chain|, ClusterSize(v)) < W32 && entrySize < W32
      modifies fat, fat.buffer
      ensures Valid() && fat.Valid() && cursor == 0 && this.v == v && this.chain == chain
      ensures fresh(clusters) && fresh(buffer)
      ensures |Content()| == Mul(|chain|, ClusterSize(v))
      ensures size == if !isDir && entrySize > |Content()| then entrySize else |Content()|
      ensures Covered() <==> isDir || entrySize <= |Content()|
    {
      var first := startCluster % 0x1_0000;
      var count := CountClusters(v, fat, first, chain);
      var length := if isDir then Mul(count, ClusterSize(v)) else entrySize;
      if Mul(count, ClusterSize(v)) > length {
        length := Mul(count, ClusterSize(v));
      }
      ChainOfData(v, first, chain);
      ChainByteAt(v, chain, 0);
      this.v, this.chain, this.start := v, chain, first;
      cursor, bufferPos, size := 0, NO_SECTOR, length;
      buffer := new Byte[SECTOR];
      var table := FillTable(v, fat, first, count, length, chain);
      clusters := table;
    }

    method EnsureCursorInBuffer()
      requires Valid() && cursor < |Content()|
      modifies this`bufferPos, buffer
      ensures Valid() && buffer[cursor % SECTOR] == Content()[cursor]
    {
      hide ChainBytes, Quot, Rem, ClusterStart, IsChain;
      SectorOfByte(v, start, chain, cursor);
      var cursorSector := cursor / SECTOR;
      var ind := Quot(cursorSector, v.sectorsPerCluster);
      var within := Rem(cursorSector, v.sectorsPerCluster);
      var cluster := clusters[ind];
      assert cluster == chain[ind];
      var sector := (within + ClusterStart(v, cluster)) % W32;
      if sector != bufferPos {
        ReadSector(v.disk, sector, buffer);
        bufferPos := sector;
      }
      assert buffer[..][cursor % SECTOR] == buffer[cursor % SECTOR];
    }

    method Getc() returns (ch: int)
      requires Valid() && (cursor < size ==> cursor < |Content()|)
      modifies this`bufferPos, this`cursor, buffer
      ensures Valid()
      ensures if old(cursor) < |Content()| then ch == Content()[old(cursor)] && cursor == old(cursor) + 1
              else ch == EOF && cursor == old(cursor)
    {
      hide ChainBytes, IsChain;
      if cursor >= size {
        return EOF;
      }
      EnsureCursorInBuffer();
      ch := buffer[cursor % SECTOR];
      cursor := (cursor + 1) % W32;
    }

    /** `read`: exactly the bytes of the concatenated chain at the cursor. */
    method DoRead(n: nat) returns (data: seq<Byte>)
      requires Valid() && (Covered() || cursor + n <= |Content()| || cursor >= size)
      modifies this`bufferPos, this`cursor, buffer
      ensures Valid() && data == Slice(Content(), old(cursor), n) && cursor == old(cursor) + |data|
    {
      hide ChainBytes, IsChain;
      data := [];
      var i := 0;
      while i < n
        invariant Valid() && |data| == i <= n && cursor == old(cursor) + i
        invariant data == Slice(Content(), old(cursor), i)
      {
        var ch := Getc();
        if ch == EOF {
          break;
        }
        SliceGrows(Content(), old(cursor), i);
        data := data + [ch];
        i := i + 1;
      }
    }

    method DoSeek(pos: int, whence: Whence) returns (ret: int)
      requires Valid()
      modifies this`cursor
      ensures Valid() && cursor == Seeked(old(cursor), size, pos, whence)
      ensures ret == if whence == Unknown then -1 else 0
    {
      ret := 0;
      match whence
      case SeekCur => cursor := (cursor + pos) % W32;
      case SeekSet => cursor := pos % W32;
      case SeekEnd => cursor := (size + pos) % W32;
      case Unknown => ret := -1;
    }

    /** Any sequence of seeks and reads delivers what the plain bytes would. */
    method Run(ops: seq<FileOp>) returns (out: seq<seq<Byte>>)
      requires Valid() && Covered()
      modifies this`bufferPos, this`cursor, buffer
      ensures Valid() && out == Deliveries(Content(), old(cursor), ops)
      decreases |ops|
    {
      hide ChainBytes, IsChain, Slice;
      if ops == [] {
        return [];
      }
      match ops[0] {
        case Seek(pos, whence) =>
          var ret := DoSeek(pos, whence);
          out := Run(ops[1..]);
        case Read(n) =>
          var data := DoRead(n);
          var rest := Run(ops[1..]);
          out := [data] + rest;
      }
    }
  }

  // ----- the size of the directory entry

  /** The table's index for a byte is in range exactly for the bytes of the chain. */
  lemma IndexInRange(v: Volume, chain: seq<nat>, i: nat)
    requires v.sectorsPerCluster > 0 && DataClusters(chain)
    ensures Quot(i / SECTOR, v.sectorsPerCluster) < |chain| <==> i < |ChainBytes(v, chain)|
  {
    ChainByteAt(v, chain, i);
    SectorInCluster(i, v.sectorsPerCluster);
    QuotBelow(i, ClusterSize(v), |chain|);
  }

  lemma QuotBelow(i: nat, n: nat, k: nat)
    requires n > 0
    ensures Quot(i, n) < k <==> i < Mul(k, n)
  {
    DivBounds(i, n);
    if i / n < k {
      MulMono(i / n + 1, k, n);
    } else {
      MulMono(k, i / n, n);
    }
  }

  /**
   Opening a regular file and reading it to the end delivers all of its chain, and so the
   size its entry gives if and only if that is the capacity of the chain.
   */
  method ReadWhole(v: Volume, fat: SequentialFile, startCluster: nat, entrySize: nat, ghost chain: seq<nat>)
    returns (data: seq<Byte>)
    requires v.sectorsPerCluster > 0 && fat.Valid()
    requires fat.disk == v.disk && fat.begin == v.fatBegin && fat.end == v.fatEnd
    requires IsChain(v, startCluster % 0x1_0000, chain) && DataClusters(chain)
    requires entrySize <= Mul(|chain|, ClusterSize(v)) < W32
    modifies fat, fat.buffer
    ensures data == ChainBytes(v, chain)
    ensures |data| == entrySize <==> entrySize == Mul(|chain|, ClusterSize(v))
  {
    hide ChainBytes, IsChain, Mul;
    var file := new ClusterFile(v, fat, startCluster, entrySize, false, chain);
    data := file.DoRead(file.size);
    assert data == file.Content()[0..|file.Content()|];
  }

  /** Reading a file of some size stays within the cluster table if and only if the chain covers the size. */
  lemma ReadsStayInTable(v: Volume, chain: seq<nat>, size: nat)
    requires v.sectorsPerCluster > 0 && DataClusters(chain)
    ensures (forall i: nat | i < size :: Quot(i / SECTOR, v.sectorsPerCluster) < |chain|)
            <==> size <= |ChainBytes(v, chain)|
  {
    hide ChainBytes, Quot;
    forall i: nat | i < size
      ensures Quot(i / SECTOR, v.sectorsPerCluster) < |chain| <==> i < |ChainBytes(v, chain)|
    {
      IndexInRange(v, chain, i);
    }
    if size > |ChainBytes(v, chain)| {
      var i := |ChainBytes(v, chain)|;
      assert !(Quot(i / SECTOR, v.sectorsPerCluster) < |chain|);
    }
  }

  // ----- seeking

  /** From the start, from the end and from where the cursor is. */
  lemma SeekThenRead(content: seq<Byte>, cursor: nat, k: nat, n: nat)
    requires cursor < W32 && |content| < W32 && k <= |content|
    ensures Deliveries(content, cursor, [Seek(k, SeekSet), Read(n)]) == [content[k..Min(k + n, |content|)]]
    ensures Deliveries(content, cursor, [Seek(0 - k, SeekEnd), Read(n)])
            == [content[|content| - k..Min(|content| - k + n, |content|)]]
  {
    hide Deliveries;
    SeekFirst(content, cursor, k, SeekSet, [Read(n)]);
    SeekFirst(content, cursor, 0 - k, SeekEnd, [Read(n)]);
    ReadOnly(content, k, n);
    ReadOnly(content, |content| - k, n);
    assert [Seek(k, SeekSet)] + [Read(n)] == [Seek(k, SeekSet), Read(n)];
    assert [Seek(0 - k, SeekEnd)] + [Read(n)] == [Seek(0 - k, SeekEnd), Read(n)];
  }

  lemma SeekFirst(content: seq<Byte>, cursor: nat, pos: int, whence: Whence, rest: seq<FileOp>)
    requires cursor < W32
    ensures Deliveries(content, cursor, [Seek(pos, whence)] + rest)
            == Deliveries(content, Seeked(cursor, |content|, pos, whence), rest)
  {
    assert ([Seek(pos, whence)] + rest)[1..] == rest;
  }

  lemma ReadFirst(content: seq<Byte>, cursor: nat, n: nat, rest: seq<FileOp>)
    requires cursor < W32 && |content| < W32 && cursor <= |content|
    ensures var data := content[cursor..Min(cursor + n, |content|)];
            Deliveries(content, cursor, [Read(n)] + rest) == [data] + Deliveries(content, cursor + |data|, rest)
  {
    var data := content[cursor..Min(cursor + n, |content|)];
    assert Slice(content, cursor, n) == data;
    assert ([Read(n)] + rest)[1..] == rest;
    assert (cursor + |data|) % W32 == cursor + |data|;
  }

  lemma ReadOnly(content: seq<Byte>, cursor: nat, n: nat)
    requires cursor < W32 && |content| < W32 && cursor <= |content|
    ensures Deliveries(content, cursor, [Read(n)]) == [content[cursor..Min(cursor + n, |content|)]]
  {
    var data := content[cursor..Min(cursor + n, |content|)];
    ReadFirst(content, cursor, n, []);
    assert Deliveries(content, cursor + |data|, []) == [];
    hide Deliveries;
    assert [Read(n)] + [] == [Read(n)] && [data] + [] == [data];
  }

  /** After a read, going back by what it delivered and reading again delivers the same. */
  lemma SeekBack(content: seq<Byte>, k: nat, n: nat)
    requires |content| < W32 && k <= |content|
    ensures var part := content[k..Min(k + n, |content|)];
            Deliveries(content, k, [Read(n), Seek(0 - |part|, SeekCur), Read(n)]) == [part, part]
  {
    var part := content[k..Min(k + n, |content|)];
    hide Deliveries, Seeked;
    var back := Seek(0 - |part|, SeekCur);
    ReadOnly(content, k, n);
    BackAgain(k, |part|, |content|);
    SeekFirst(content, k + |part|, 0 - |part|, SeekCur, [Read(n)]);
    ReadFirst(content, k, n, [back] + [Read(n)]);
    ThreeOps(Read(n), back, Read(n));
    assert [part] + [part] == [part, part];
  }

  lemma BackAgain(k: nat, n: nat, length: nat)
    requires k + n < W32
    ensures Seeked(k + n, length, 0 - n, SeekCur) == k
  {
  }

  lemma ThreeOps(a: FileOp, b: FileOp, c: FileOp)
    ensures [a] + ([b] + [c]) == [a, b, c]
  {
  }

  // ----- a volume of one-sector clusters whose table ends every chain at once

  const ONES: Sector := seq(512, i => 255)

  const TINY: Volume := Volume(Disk((k: nat) => ONES), 1, 2, 1, 2)

  lemma TinyChain()
    ensures IsChain(TINY, 2, [2]) && DataClusters([2])
    ensures Mul(|[2]|, ClusterSize(TINY)) == SECTOR == |ChainBytes(TINY, [2])|
  {
    ExtentAt(TINY.disk, 1, 1, 4);
    ExtentAt(TINY.disk, 1, 1, 5);
    assert FatEntry(TINY, 2) == 0xFFFF && [2][1..] == [];
    assert IsChain(TINY, 0xFFFF, []);
    ChainByteAt(TINY, [2], 0);
  }

  /** A file of one cluster reads as 512 bytes whatever smaller size its entry gives, 5 for one. */
  method ReadTiny(entrySize: nat) returns (data: seq<Byte>)
    requires entrySize <= SECTOR
    ensures |data| == SECTOR
  {
    TinyChain();
    hide IsChain, ChainBytes, Mul;
    var fat := new SequentialFile(TINY.disk, TINY.fatBegin, TINY.fatEnd);
    data := ReadWhole(TINY, fat, 2, entrySize, [2]);
  }

  /** With an entry above the capacity, here any above 512, the byte at 512 has no cluster in the table. */
  lemma LongEntryLeavesTable(size: nat)
    requires size > SECTOR
    ensures exists i: nat :: i < size && Quot(i / SECTOR, TINY.sectorsPerCluster) >= |[2]|
  {
    TinyChain();
    IndexInRange(TINY, [2], SECTOR);
  }

  // ----- a volume with a file of two clusters

  function Filled(b: Byte): Sector { seq(512, i => b) }

  /** Cluster 2 goes on to cluster 3, which is the last. */
  const LINKS: Sector := seq(512, i => if i == 4 then 3 else if i == 6 || i == 7 then 255 else 0)

  const LINKED: Volume := Volume(Disk((k: nat) => if k == 1 then LINKS else Filled(k % 256)), 1, 2, 1, 2)

  lemma LinkedChain()
    ensures IsChain(LINKED, 2, [2, 3]) && DataClusters([2, 3])
  {
    LinkedEntries();
    hide FatBytes, FatEntry;
    assert [2, 3][1..] == [3] && [3][1..] == [];
    assert IsChain(LINKED, 0xFFFF, []);
    assert IsChain(LINKED, 3, [3]);
  }

  lemma LinkedEntries()
    ensures |FatBytes(LINKED)| == SECTOR && FatEntry(LINKED, 2) == 3 && FatEntry(LINKED, 3) == 0xFFFF
  {
    OneSector(LINKED.disk, 1);
    hide Extent;
    assert FatBytes(LINKED) == LINKS;
  }

  lemma LinkedBytes()
    ensures ChainBytes(LINKED, [2, 3]) == Filled(2) + Filled(3) && Mul(|[2, 3]|, ClusterSize(LINKED)) == 2 * SECTOR
  {
    hide ChainBytes, ClusterBytes, Filled;
    LinkedCluster(2);
    LinkedCluster(3);
    TwoClusters(LINKED, 2, 3);
  }

  lemma LinkedCluster(c: nat)
    requires 2 <= c < 256
    ensures ClusterBytes(LINKED, c) == Filled(c)
  {
    hide Extent, Filled, ClusterStart;
    OneSector(LINKED.disk, c);
    LinkedStart(c);
    LinkedSector(c);
  }

  lemma LinkedStart(c: nat)
    requires 2 <= c
    ensures ClusterStart(LINKED, c) == c
  {
  }

  lemma LinkedSector(c: nat)
    requires 2 <= c < 256
    ensures LINKED.disk.sector(c) == Filled(c)
  {
    hide Filled;
  }

  lemma TwoClusters(v: Volume, a: nat, b: nat)
    requires a >= 2 && b >= 2
    ensures DataClusters([a, b]) && ChainBytes(v, [a, b]) == ClusterBytes(v, a) + ClusterBytes(v, b)
  {
    hide ClusterBytes;
    var blocks := seq(|[a, b]|, i requires 0 <= i < |[a, b]| => ClusterBytes(v, [a, b][i]));
    assert blocks == [ClusterBytes(v, a), ClusterBytes(v, b)];
    TwoBlocks(ClusterBytes(v, a), ClusterBytes(v, b));
  }

  lemma OneSector(disk: Disk, k: nat)
    ensures Extent(disk, k, 1) == disk.sector(k)
  {
    var bs := seq(1, (j: nat) => disk.sector(k + j));
    assert bs == [disk.sector(k)] && bs[1..] == [];
    assert Flatten(bs) == disk.sector(k) + [];
  }

  lemma TwoBlocks(a: seq<Byte>, b: seq<Byte>)
    ensures Flatten([a, b]) == a + b
  {
    assert [a, b][1..] == [b] && [b][1..] == [];
    assert Flatten([b]) == b + [];
  }

  /** Opened and read to its end, the file is the first cluster's sector and then the second's. */
  method ReadLinked() returns (data: seq<Byte>)
    ensures data == Filled(2) + Filled(3)
  {
    LinkedChain();
    LinkedBytes();
    hide IsChain, ChainBytes, Mul;
    var fat := new SequentialFile(LINKED.disk, LINKED.fatBegin, LINKED.fatEnd);
    data := ReadWhole(LINKED, fat, 2, 2 * SECTOR, [2, 3]);
  }
}
