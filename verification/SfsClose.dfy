// Making and writing out an image: create_sfs and close_sfs of tools/mksfs.c.
module SfsClose {
  import opened DiskWords
  import opened SfsImage
  import opened MkSfs
  import opened SfsDisk

  // ---------- create_sfs ----------

  /** The number of blocks used of an image file, as a 32-bit number and at most the largest size. */
  function Blocks(fileSize: nat): nat {
    var n := fileSize / BLKSIZE % U32;
    if n > MAX_NBLKS then MAX_NBLKS else n
  }

  /** The end of create_sfs: an image without files but for the root directory. */
  method MakeSfs(ninos: nat, next: nat, disk: Disk) returns (sfs: Sfs, root: CacheInode)
    requires 0 < ninos && next == BLKN_FREEMAP + MapBlocks(ninos) && next <= ninos <= MAX_NBLKS
    ensures fresh(sfs) && fresh(root) && sfs.Valid() && sfs.HasFile(root) && |sfs.entryName| == NAME_BYTES
    ensures sfs.ninos == ninos && sfs.nextIno == next && sfs.disk == disk
    ensures root.ino == BLKN_ROOT && root.kind == TYPE_DIR && sfs.contents == map[BLKN_ROOT := []]
    ensures root.size == 0 && root.nblks == 0 && root.nlinks == 0 && sfs.fileAt == map[BLKN_ROOT := root]
    ensures sfs.recent == map[0 := root] && sfs.data == map[] && sfs.blockAt == map[]
  {
    hide Linked, FilesOk;
    sfs := new Sfs(ninos, next, disk);
    ghost var b := sfs.State();
    sfs.ValidIsShaped();
    var ci := sfs.AllocCacheInode(0, BLKN_ROOT, TYPE_DIR);
    root := ci;
    assert sfs.State().img.files[BLKN_ROOT] == root.Value();
  }

  /** create_sfs on an image file of the given size; without a result where it is too small. */
  method CreateSfs(fileSize: nat, disk: Disk) returns (sfs: Sfs?, root: CacheInode?)
    ensures sfs == null <==> Blocks(fileSize) <= BLKN_FREEMAP + MapBlocks(Blocks(fileSize))
    ensures sfs != null ==> fresh(sfs) && root != null && fresh(root) && sfs.Valid() && sfs.HasFile(root)
    ensures sfs != null ==> sfs.ninos == Blocks(fileSize) && sfs.nextIno == BLKN_FREEMAP + MapBlocks(sfs.ninos)
    ensures sfs != null ==>
              var n := fileSize / 4096 % 0x1_0000_0000;
              sfs.ninos == (if n > 524288 then 524288 else n) && sfs.nextIno == 2 + (sfs.ninos + 32767) / 32768
    ensures sfs != null ==> sfs.disk == disk && sfs.contents == map[BLKN_ROOT := []] && sfs.recent == map[0 := root]
    ensures sfs != null ==> root.ino == BLKN_ROOT && root.kind == TYPE_DIR && |sfs.entryName| == NAME_BYTES
    ensures sfs != null ==> root.size == 0 && root.nblks == 0 && root.nlinks == 0
    ensures sfs != null ==> sfs.fileAt == map[BLKN_ROOT := root] && sfs.blockAt == map[]
  {
    hide Linked, FilesOk, MapBlocks;
    var ninos := fileSize / BLKSIZE % U32;
    if ninos > MAX_NBLKS {
      ninos := MAX_NBLKS;
    }
    var next := BLKN_FREEMAP + MapBlocks(ninos);
    MapBlocksIs(ninos);
    if next >= ninos {
      return null, null;
    }
    sfs, root := MakeSfs(ninos, next, disk);
  }

  lemma MapBlocksIs(n: nat)
    ensures MapBlocks(n) == (n + 32767) / 32768
  {
  }

  // ---------- the bitmap of free blocks ----------

  predicate WordBit(words: seq<nat>, q: nat) {
    q / WORD_BITS < |words| && Bit(words[q / WORD_BITS], q % WORD_BITS)
  }

  lemma SetWordBit(words: seq<nat>, j: nat, q: nat)
    requires j / WORD_BITS < |words|
    ensures var w := SetBit(words[j / WORD_BITS], j % WORD_BITS);
            WordBit(words[j / WORD_BITS := w], q) <==> q == j || WordBit(words, q)
  {
    SetBitIs(words[j / WORD_BITS], j % WORD_BITS, q % WORD_BITS);
    if q / WORD_BITS == j / WORD_BITS && q % WORD_BITS == j % WORD_BITS {
      assert q == WORD_BITS * (q / WORD_BITS) + q % WORD_BITS;
      assert j == WORD_BITS * (j / WORD_BITS) + j % WORD_BITS;
    }
  }

  lemma BitInBytes(words: seq<nat>, q: nat)
    requires q / WORD_BITS < |words| && words[q / WORD_BITS] < U32
    ensures BitAt(BytesOf(words), q) <==> WordBit(words, q)
  {
    assert BytesOf(words) == BytesOf(words) + [];
    WordReadsBack(words, [], q / WORD_BITS);
  }

  lemma SetWordSmall(w: nat, j: nat)
    requires w < U32
    ensures SetBit(w, j % WORD_BITS) < U32
  {
    PowersMeet();
    SetBitBound(w, j % WORD_BITS, 32);
  }

  ghost predicate BitsSet(words: seq<nat>, start: nat, j: nat) {
    forall q: nat :: WordBit(words, q) <==> start <= q < j
  }

  lemma OneMoreBit(words: seq<nat>, start: nat, j: nat)
    requires BitsSet(words, start, j) && start <= j && j / WORD_BITS < |words|
    ensures BitsSet(words[j / WORD_BITS := SetBit(words[j / WORD_BITS], j % WORD_BITS)], start, j + 1)
  {
    var words' := words[j / WORD_BITS := SetBit(words[j / WORD_BITS], j % WORD_BITS)];
    forall q: nat ensures WordBit(words', q) <==> start <= q < j + 1 {
      SetWordBit(words, j, q);
    }
  }

  lemma NoBits(n: nat, start: nat)
    ensures BitsSet(Zeros(n), start, start)
  {
    forall q: nat ensures !WordBit(Zeros(n), q) {
      ZeroHasNoBit(q % WORD_BITS);
    }
  }

  lemma BitsInBytes(words: seq<nat>, start: nat, end: nat)
    requires BitsSet(words, start, end) && |words| == NENTRY && WordsBelow(words, U32)
    ensures forall q: nat | q < BLKBITS :: BitAt(BytesOf(words), q) <==> start <= q < end
  {
    forall q: nat | q < BLKBITS ensures BitAt(BytesOf(words), q) <==> start <= q < end {
      BitInBytes(words, q);
      assert WordBit(words, q) <==> start <= q < end;
    }
  }

  /** The loop that sets the bits from start to end in one block of the bitmap. */
  method SetBits(data: array<nat>, start: nat, end: nat)
    requires data.Length == NENTRY && start <= end <= BLKBITS && data[..] == Zeros(NENTRY)
    modifies data
    ensures forall q: nat | q < BLKBITS :: BitAt(BytesOf(data[..]), q) <==> start <= q < end
  {
    hide BitsSet, BitAt, SetBit;
    NoBits(NENTRY, start);
    var j := start;
    while j < end
      invariant start <= j <= end && WordsBelow(data[..], U32) && BitsSet(data[..], start, j)
    {
      ghost var words := data[..];
      OneMoreBit(words, start, j);
      SetWordSmall(words[j / WORD_BITS], j);
      data[j / WORD_BITS] := SetBit(data[j / WORD_BITS], j % WORD_BITS);
      assert data[..] == words[j / WORD_BITS := SetBit(words[j / WORD_BITS], j % WORD_BITS)];
      j := j + 1;
    }
    BitsInBytes(data[..], start, end);
  }

  /** One block of the bitmap, for the blocks from i on. */
  method MapBytes(i: nat, next: nat, ninos: nat) returns (bytes: seq<nat>)
    requires next <= ninos && i < ninos
    ensures |bytes| == BLKSIZE && forall q: nat | q < BLKBITS :: BitAt(bytes, q) <==> next <= i + q < ninos
    ensures forall k | 0 <= k < |bytes| :: bytes[k] < 256
  {
    var data := new nat[NENTRY](_ => 0);
    assert data[..] == Zeros(NENTRY);
    var start, end := 0, 0;
    if i + BLKBITS > next {
      start, end := 0, BLKBITS;
      if i < next {
        start := next - i;
      }
      if i + BLKBITS > ninos {
        end := ninos - i;
      }
    }
    SetBits(data, start, end);
    bytes := BytesOf(data[..]);
  }

  ghost predicate FreeRight(disk: Disk, next: nat, ninos: nat, m: nat) {
    && (forall k: nat | k < m * BLKBITS :: FreeBit(disk, k) <==> next <= k < ninos)
    && (forall n: nat | BLKN_FREEMAP <= n < BLKN_FREEMAP + m :: BlockOfBytes(disk, n))
  }

  lemma MapStep(disk: Disk, next: nat, ninos: nat, m: nat, bytes: seq<nat>)
    requires FreeRight(disk, next, ninos, m)
    requires forall q: nat | q < BLKBITS :: BitAt(bytes, q) <==> next <= m * BLKBITS + q < ninos
    requires |bytes| == BLKSIZE && forall i | 0 <= i < |bytes| :: bytes[i] < 256
    ensures FreeRight(disk[BLKN_FREEMAP + m := bytes], next, ninos, m + 1)
  {
    var disk' := disk[BLKN_FREEMAP + m := bytes];
    forall n: nat | BLKN_FREEMAP <= n < BLKN_FREEMAP + m + 1 ensures BlockOfBytes(disk', n) {
      if n < BLKN_FREEMAP + m { assert BlockOfBytes(disk, n); }
    }
    forall k: nat | k < (m + 1) * BLKBITS ensures FreeBit(disk', k) <==> next <= k < ninos {
      if k < m * BLKBITS {
        assert k / BLKBITS < m;
        assert FreeBit(disk, k) <==> next <= k < ninos;
      } else {
        assert MapBlock(k) == BLKN_FREEMAP + m && MapBit(k) == k - m * BLKBITS;
        assert BitAt(bytes, MapBit(k)) <==> next <= m * BLKBITS + MapBit(k) < ninos;
      }
    }
  }

  lemma MapNeeds(ninos: nat, m: nat)
    ensures m * BLKBITS < ninos <==> m < MapBlocks(ninos)
  {
  }

  predicate SameAt(disk: Disk, disk': Disk, n: nat) {
    (n in disk <==> n in disk') && (n in disk ==> disk'[n] == disk[n])
  }

  lemma WholeBlock(bytes: seq<nat>)
    requires |bytes| == BLKSIZE
    ensures Padded(bytes) == bytes
  {
  }

  /** The first loop of close_sfs. */
  method WriteFreemap(sfs: Sfs)
    requires CountsOk(sfs.ninos, sfs.nextIno, sfs.unused)
    modifies sfs`disk
    ensures FreeRight(sfs.disk, sfs.nextIno, sfs.ninos, MapBlocks(sfs.ninos))
    ensures forall n: nat | n < BLKN_FREEMAP || BLKN_FREEMAP + MapBlocks(sfs.ninos) <= n ::
            SameAt(old(sfs.disk), sfs.disk, n)
  {
    hide FreeRight, MapBlocks, BitAt;
    var ninos, next := sfs.ninos, sfs.nextIno;
    var i, ino := 0, BLKN_FREEMAP;
    MapNeeds(ninos, 0);
    assert FreeRight(sfs.disk, next, ninos, 0) by { NoneYet(sfs.disk, next, ninos); }
    while i < ninos
      invariant BLKN_FREEMAP <= ino && i == (ino - BLKN_FREEMAP) * BLKBITS && ino <= BLKN_FREEMAP + MapBlocks(ninos)
      invariant FreeRight(sfs.disk, next, ninos, ino - BLKN_FREEMAP)
      invariant forall n: nat | n < BLKN_FREEMAP || ino <= n :: SameAt(old(sfs.disk), sfs.disk, n)
    {
      MapNeeds(ninos, ino - BLKN_FREEMAP);
      var bytes := MapBytes(i, next, ninos);
      MapStep(sfs.disk, next, ninos, ino - BLKN_FREEMAP, bytes);
      WholeBlock(bytes);
      ghost var before := sfs.disk;
      sfs.WriteBlock(bytes, ino);
      forall n: nat | n < BLKN_FREEMAP || ino < n ensures SameAt(old(sfs.disk), sfs.disk, n) {
        assert SameAt(old(sfs.disk), before, n);
      }
      ino, i := ino + 1, i + BLKBITS;
    }
    MapNeeds(ninos, ino - BLKN_FREEMAP);
  }

  lemma NoneYet(disk: Disk, next: nat, ninos: nat)
    ensures FreeRight(disk, next, ninos, 0)
  {
  }

  // ---------- flushing the caches ----------

  predicate BlockFlushed(disk: Disk, n: nat, words: seq<nat>) {
    n in disk && disk[n] == BytesOf(words)
  }

  predicate InodeFlushed(disk: Disk, n: nat, node: Node) {
    |node.direct| == L0 && n in disk && disk[n] == Padded(InodeBytes(node))
  }

  /** The inner loop over a chain of cached blocks. */
  method FlushBlocks(sfs: Sfs, chain: seq<CacheBlock>)
    requires forall k | 0 <= k < |chain| :: KeptBlock(sfs.blockAt, chain[k])
    requires forall n | n in sfs.blockAt :: sfs.blockAt[n].ino == n && |sfs.blockAt[n].cache| == NENTRY && n < sfs.ninos
    modifies sfs`disk
    ensures forall n | n in sfs.blockAt && sfs.blockAt[n] in chain :: BlockFlushed(sfs.disk, n, sfs.blockAt[n].cache)
    ensures forall n | n in sfs.blockAt && BlockFlushed(old(sfs.disk), n, sfs.blockAt[n].cache) ::
              BlockFlushed(sfs.disk, n, sfs.blockAt[n].cache)
    ensures forall n | n !in sfs.blockAt :: SameAt(old(sfs.disk), sfs.disk, n)
  {
    var k := 0;
    while k < |chain|
      invariant 0 <= k <= |chain|
      invariant forall j | 0 <= j < k :: BlockFlushed(sfs.disk, chain[j].ino, chain[j].cache)
      invariant forall n | n in sfs.blockAt && BlockFlushed(old(sfs.disk), n, sfs.blockAt[n].cache) ::
                  BlockFlushed(sfs.disk, n, sfs.blockAt[n].cache)
      invariant forall n | n !in sfs.blockAt :: SameAt(old(sfs.disk), sfs.disk, n)
    {
      var cb := chain[k];
      assert KeptBlock(sfs.blockAt, cb);
      WholeBlock(BytesOf(cb.cache));
      forall j | 0 <= j < k ensures chain[j].ino == cb.ino ==> chain[j] == cb {
        assert KeptBlock(sfs.blockAt, chain[j]);
      }
      sfs.WriteBlock(BytesOf(cb.cache), cb.ino);
      k := k + 1;
    }
    forall n | n in sfs.blockAt && sfs.blockAt[n] in chain ensures BlockFlushed(sfs.disk, n, sfs.blockAt[n].cache) {
      var j :| 0 <= j < |chain| && chain[j] == sfs.blockAt[n];
      assert BlockFlushed(sfs.disk, chain[j].ino, chain[j].cache);
    }
  }

  /** One inode goes out. */
  method FlushInode(sfs: Sfs, ci: CacheInode)
    requires |ci.direct| == L0 && ci.ino < sfs.ninos
    modifies sfs`disk
    ensures sfs.disk == old(sfs.disk)[ci.ino := Padded(InodeBytes(ci.Value()))]
  {
    var words := StructInode(ci.size, ci.kind, ci.nlinks, ci.blocks, ci.direct, ci.indirect, ci.dbIndirect);
    sfs.WriteBlock(BytesOf(words), ci.ino);
  }

  /** The inner loop over a chain of cached inodes. */
  method FlushInodes(sfs: Sfs, chain: seq<CacheInode>)
    requires forall k | 0 <= k < |chain| :: KeptInode(sfs.fileAt, chain[k])
    requires forall f | f in sfs.fileAt :: sfs.fileAt[f].ino == f && |sfs.fileAt[f].direct| == L0 && f < sfs.ninos
    modifies sfs`disk
    ensures forall f | f in sfs.fileAt && sfs.fileAt[f] in chain :: InodeFlushed(sfs.disk, f, sfs.fileAt[f].Value())
    ensures forall f | f in sfs.fileAt && InodeFlushed(old(sfs.disk), f, sfs.fileAt[f].Value()) ::
              InodeFlushed(sfs.disk, f, sfs.fileAt[f].Value())
    ensures forall n | n !in sfs.fileAt :: SameAt(old(sfs.disk), sfs.disk, n)
  {
    hide InodeBytes;
    var k := 0;
    while k < |chain|
      invariant 0 <= k <= |chain|
      invariant forall j | 0 <= j < k :: InodeFlushed(sfs.disk, chain[j].ino, chain[j].Value())
      invariant forall f | f in sfs.fileAt && InodeFlushed(old(sfs.disk), f, sfs.fileAt[f].Value()) ::
                  InodeFlushed(sfs.disk, f, sfs.fileAt[f].Value())
      invariant forall n | n !in sfs.fileAt :: SameAt(old(sfs.disk), sfs.disk, n)
    {
      var ci := chain[k];
      assert KeptInode(sfs.fileAt, ci);
      forall j | 0 <= j < k ensures chain[j].ino == ci.ino ==> chain[j] == ci {
        assert KeptInode(sfs.fileAt, chain[j]);
      }
      FlushInode(sfs, ci);
      k := k + 1;
    }
    forall f | f in sfs.fileAt && sfs.fileAt[f] in chain ensures InodeFlushed(sfs.disk, f, sfs.fileAt[f].Value()) {
      var j :| 0 <= j < |chain| && chain[j] == sfs.fileAt[f];
      assert InodeFlushed(sfs.disk, chain[j].ino, chain[j].Value());
    }
  }

  // ---------- close_sfs ----------

  /** Everything that flushing needs; it does not depend on the disk. */
  ghost predicate Closable(sfs: Sfs)
    reads sfs`ninos, sfs`nextIno, sfs`unused, sfs`blocks, sfs`inodes, sfs`blockAt, sfs`fileAt, sfs`recent
    reads sfs.blockAt.Values, sfs.fileAt.Values
  {
    && CountsOk(sfs.ninos, sfs.nextIno, sfs.unused)
    && BlocksChained(sfs.blocks, sfs.blockAt) && InodesChained(sfs.inodes, sfs.fileAt, sfs.recent)
    && (forall n | n in sfs.blockAt :: sfs.blockAt[n].ino == n && |sfs.blockAt[n].cache| == NENTRY && n < sfs.ninos)
    && (forall f | f in sfs.fileAt ::
        sfs.fileAt[f].ino == f && |sfs.fileAt[f].direct| == L0 && f < sfs.ninos && f !in sfs.blockAt)
    && (forall n: nat | n < BLKN_FREEMAP + MapBlocks(sfs.ninos) && n != BLKN_ROOT ::
        n !in sfs.blockAt && n !in sfs.fileAt)
  }

  lemma ValidIsClosable(sfs: Sfs)
    requires sfs.Valid()
    ensures Closable(sfs)
  {
    assert sfs.Cached().Keys == sfs.blockAt.Keys && sfs.Files().Keys == sfs.fileAt.Keys;
    forall f | f in sfs.fileAt ensures |sfs.fileAt[f].direct| == L0 && f < sfs.ninos && f !in sfs.blockAt {
      assert sfs.Img().files[f] == sfs.fileAt[f].Value();
      assert UsedAs(sfs.uses, f, Inode);
    }
    forall n: nat | n < BLKN_FREEMAP + MapBlocks(sfs.ninos) && n != BLKN_ROOT
      ensures n !in sfs.blockAt && n !in sfs.fileAt
    {
      assert UsedAs(sfs.uses, n, Reserved);
    }
  }

  ghost predicate AllFlushed(sfs: Sfs, i: nat)
    reads sfs`disk, sfs`blockAt, sfs`fileAt, sfs.blockAt.Values, sfs.fileAt.Values
  {
    && (i > 0 ==> forall n | n in sfs.blockAt :: BlockFlushed(sfs.disk, n, sfs.blockAt[n].cache))
    && (forall f | f in sfs.fileAt && Hash64(sfs.fileAt[f].host) < i ::
        InodeFlushed(sfs.disk, f, sfs.fileAt[f].Value()))
  }

  /** One round of the last loop of close_sfs. */
  method FlushBucket(sfs: Sfs, i: nat)
    requires Closable(sfs) && i < BUCKETS && AllFlushed(sfs, i)
    modifies sfs`disk
    ensures AllFlushed(sfs, i + 1)
    ensures forall n | n !in sfs.blockAt && n !in sfs.fileAt :: SameAt(old(sfs.disk), sfs.disk, n)
  {
    hide Hash64, BlockFlushed;
    FlushBlocks(sfs, sfs.blocks[i]);
    ghost var disk1 := sfs.disk;
    forall f | f in sfs.fileAt && InodeFlushed(old(sfs.disk), f, sfs.fileAt[f].Value())
      ensures InodeFlushed(disk1, f, sfs.fileAt[f].Value())
    {
      assert SameAt(old(sfs.disk), disk1, f);
    }
    FlushInodes(sfs, sfs.inodes[i]);
    forall n | n in sfs.blockAt && BlockFlushed(disk1, n, sfs.blockAt[n].cache)
      ensures BlockFlushed(sfs.disk, n, sfs.blockAt[n].cache)
    {
      SameFlushed(disk1, sfs.disk, n, sfs.blockAt[n].cache);
    }
    forall n | n !in sfs.blockAt && n !in sfs.fileAt ensures SameAt(old(sfs.disk), sfs.disk, n) {
      assert SameAt(old(sfs.disk), disk1, n) && SameAt(disk1, sfs.disk, n);
    }
  }

  lemma SameFlushed(disk: Disk, disk': Disk, n: nat, words: seq<nat>)
    requires SameAt(disk, disk', n) && BlockFlushed(disk, n, words)
    ensures BlockFlushed(disk', n, words)
  {
  }

  /** All cached blocks and inodes are on the disk, and nothing else has changed. */
  method FlushCaches(sfs: Sfs)
    requires Closable(sfs)
    modifies sfs`disk
    ensures AllFlushed(sfs, BUCKETS)
    ensures forall n: nat | n !in sfs.blockAt && n !in sfs.fileAt :: SameAt(old(sfs.disk), sfs.disk, n)
  {
    hide Closable, Hash64, BlockFlushed;
    NoneFlushed(sfs);
    var i := 0;
    while i < BUCKETS
      invariant 0 <= i <= BUCKETS && AllFlushed(sfs, i) && Closable(sfs)
      invariant forall n: nat | n !in sfs.blockAt && n !in sfs.fileAt :: SameAt(old(sfs.disk), sfs.disk, n)
    {
      ghost var before := sfs.disk;
      FlushBucket(sfs, i);
      forall n: nat | n !in sfs.blockAt && n !in sfs.fileAt ensures SameAt(old(sfs.disk), sfs.disk, n) {
        assert SameAt(old(sfs.disk), before, n) && SameAt(before, sfs.disk, n);
      }
      i := i + 1;
    }
  }

  lemma NoneFlushed(sfs: Sfs)
    ensures AllFlushed(sfs, 0)
  {
  }

  /** The bitmap is not touched by what is flushed later. */
  lemma FreeStaysRight(disk: Disk, disk': Disk, next: nat, ninos: nat)
    requires FreeRight(disk, next, ninos, MapBlocks(ninos))
    requires forall n: nat | BLKN_FREEMAP <= n < BLKN_FREEMAP + MapBlocks(ninos) :: SameAt(disk, disk', n)
    ensures FreemapRight(disk', next, ninos)
  {
    forall n: nat | BLKN_FREEMAP <= n < BLKN_FREEMAP + MapBlocks(ninos) ensures BlockOfBytes(disk', n) {
      assert BlockOfBytes(disk, n) && SameAt(disk, disk', n);
    }
    forall k: nat | k < MapBlocks(ninos) * BLKBITS ensures FreeBit(disk', k) <==> next <= k < ninos {
      assert FreeBit(disk, k) <==> next <= k < ninos;
      assert k / BLKBITS < MapBlocks(ninos);
      assert SameAt(disk, disk', MapBlock(k));
    }
  }

  /** The caches go out after the bitmap disk1 and the superblock, and spoil neither. */
  method FlushAfter(sfs: Sfs, ghost disk1: Disk)
    requires Closable(sfs) && FreeRight(disk1, sfs.nextIno, sfs.ninos, MapBlocks(sfs.ninos))
    requires forall n: nat | n != 0 :: SameAt(disk1, sfs.disk, n)
    modifies sfs`disk
    ensures AllFlushed(sfs, BUCKETS) && FreemapRight(sfs.disk, sfs.nextIno, sfs.ninos)
    ensures SameAt(old(sfs.disk), sfs.disk, 0)
    ensures forall n: nat | n !in sfs.blockAt && n !in sfs.fileAt :: SameAt(old(sfs.disk), sfs.disk, n)
  {
    hide AllFlushed, FreeRight, FreemapRight, BlocksChained, InodesChained;
    ghost var disk2 := sfs.disk;
    FlushCaches(sfs);
    forall n: nat | BLKN_FREEMAP <= n < BLKN_FREEMAP + MapBlocks(sfs.ninos) ensures SameAt(disk1, sfs.disk, n) {
      assert SameAt(disk1, disk2, n) && SameAt(disk2, sfs.disk, n);
    }
    FreeStaysRight(disk1, sfs.disk, sfs.nextIno, sfs.ninos);
  }

  /** The writes of close_sfs in their order; disk1 and disk2 are the disk after the first two. */
  method WriteAll(sfs: Sfs, info: seq<nat>) returns (ghost disk1: Disk, ghost disk2: Disk)
    requires Closable(sfs) && |info| == 32
    modifies sfs`disk
    ensures AllFlushed(sfs, BUCKETS) && FreemapRight(sfs.disk, sfs.nextIno, sfs.ninos)
    ensures 0 in sfs.disk && sfs.disk[0] == Padded(SuperBytes(sfs.ninos, sfs.unused, info))
    ensures forall n: nat | n < BLKN_FREEMAP || BLKN_FREEMAP + MapBlocks(sfs.ninos) <= n ::
            SameAt(old(sfs.disk), disk1, n)
    ensures forall n: nat | n != 0 :: SameAt(disk1, disk2, n)
    ensures forall n: nat | n !in sfs.blockAt && n !in sfs.fileAt :: SameAt(disk2, sfs.disk, n)
  {
    hide AllFlushed, FreeRight, FreemapRight, BlocksChained, InodesChained;
    WriteFreemap(sfs);
    disk1 := sfs.disk;
    sfs.WriteBlock(SuperBytes(sfs.ninos, sfs.unused, info), 0);
    disk2 := sfs.disk;
    FlushAfter(sfs, disk1);
  }

  /** close_sfs: afterwards the bitmap, the superblock, every index block, every inode and every data
      block are on the disk as the reader expects them. */
  method CloseSfs(sfs: Sfs, info: seq<nat>)
    requires sfs.Valid() && |info| == 32
    modifies sfs`disk
    ensures OnDisk(sfs.disk, old(sfs.State())) && FreemapRight(sfs.disk, sfs.nextIno, sfs.ninos)
    ensures forall f | f in sfs.fileAt :: TypeAndLinks(sfs.disk, f, sfs.fileAt[f].kind, sfs.fileAt[f].nlinks)
    ensures 0 in sfs.disk && sfs.disk[0] == Padded(SuperBytes(sfs.ninos, sfs.unused, info))
  {
    hide Linked, FilesOk, NumbersOk, Closable, AllFlushed, FreemapRight, Flushed, OnDisk;
    ghost var b := sfs.State();
    assert sfs.Cached().Keys == sfs.blockAt.Keys && sfs.Files().Keys == sfs.fileAt.Keys;
    ValidIsClosable(sfs);
    NumbersOfLinked(b);
    ghost var disk1, disk2 := WriteAll(sfs, info);
    CachesOnDisk(sfs);
    InodesOnDisk(sfs);
    DataStays(b, disk1, disk2, sfs.disk);
  }

  lemma NumbersOfLinked(b: Builder)
    requires Linked(b)
    ensures NumbersOk(b.img)
  {
  }

  lemma InodesOnDisk(sfs: Sfs)
    requires Flushed(sfs.disk, sfs.Img()) && NumbersOk(sfs.Img())
    ensures forall f | f in sfs.fileAt :: TypeAndLinks(sfs.disk, f, sfs.fileAt[f].kind, sfs.fileAt[f].nlinks)
  {
    hide TypeAndLinks, Flushed, NumbersOk;
    forall f | f in sfs.fileAt ensures TypeAndLinks(sfs.disk, f, sfs.fileAt[f].kind, sfs.fileAt[f].nlinks) {
      assert sfs.Img().files[f] == sfs.fileAt[f].Value();
      TypeAndLinksOnDisk(sfs.disk, sfs.Img(), f);
    }
  }

  lemma CachesOnDisk(sfs: Sfs)
    requires AllFlushed(sfs, BUCKETS)
    ensures Flushed(sfs.disk, sfs.Img())
  {
    forall f | f in sfs.fileAt ensures InodeFlushed(sfs.disk, f, sfs.Files()[f]) {
      assert Hash64(sfs.fileAt[f].host) < BUCKETS;
    }
    forall n | n in sfs.blockAt ensures BlockFlushed(sfs.disk, n, sfs.Cached()[n]) {
    }
  }

  lemma DataStays(b: Builder, disk1: Disk, disk2: Disk, disk': Disk)
    requires Linked(b) && FilesOk(b.img)
    requires forall n: nat | n < BLKN_FREEMAP || BLKN_FREEMAP + MapBlocks(b.ninos) <= n :: SameAt(b.disk, disk1, n)
    requires forall n: nat | n != 0 :: SameAt(disk1, disk2, n)
    requires forall n: nat | n !in b.img.cached && n !in b.img.files :: SameAt(disk2, disk', n)
    requires Flushed(disk', b.img)
    ensures OnDisk(disk', b)
  {
    hide Padded, Flushed;
    forall n | n in b.data ensures n in disk' && |b.data[n]| <= BLKSIZE && disk'[n] == Padded(b.data[n]) {
      assert n in b.img.uses && b.img.uses[n].Data?;
      assert BLKN_FREEMAP <= n < BLKN_FREEMAP + MapBlocks(b.ninos) ==> UsedAs(b.img.uses, n, Reserved);
      assert n in b.img.files ==> UsedAs(b.img.uses, n, Inode);
      assert SameAt(b.disk, disk1, n) && SameAt(disk1, disk2, n) && SameAt(disk2, disk', n);
    }
  }
}
