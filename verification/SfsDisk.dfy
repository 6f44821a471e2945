// What a reader of the image finds: the builder's own format, read by following pointers on the disk,
// and the kernel's way of reading it (kern/fs/sfs/sfs_inode.c and sfs_fs.c).
module SfsDisk {
  import opened DiskWords
  import opened Powers
  import opened SfsImage
  import opened MkSfs
  import opened SfsBuild

  type Disk = map<nat, seq<nat>>

  function DiskWord(disk: Disk, n: nat, k: nat): nat {
    if n in disk then WordAt(disk[n], k) else 0
  }

  /** struct inode as 17 words; type and nlinks share one. */
  function StructInode(size: nat, kind: nat, nlinks: nat, blocks: nat, direct: seq<nat>, indirect: nat,
                       dbIndirect: nat): seq<nat> {
    [size, kind + U16 * nlinks, blocks] + direct + [indirect, dbIndirect]
  }

  function InodeWords(node: Node): seq<nat> {
    StructInode(node.size, node.kind, node.nlinks, node.blocks, node.direct, node.indirect, node.dbIndirect)
  }

  function InodeBytes(node: Node): (r: seq<nat>)
    requires |node.direct| == L0
    ensures |r| == 68
  {
    BytesOf(InodeWords(node))
  }

  /** The cached blocks and inodes are on the disk. */
  ghost predicate Flushed(disk: Disk, img: Image) {
    && (forall n | n in img.cached :: n in disk && disk[n] == BytesOf(img.cached[n]))
    && (forall f | f in img.files ::
        |img.files[f].direct| == L0 && f in disk && disk[f] == Padded(InodeBytes(img.files[f])))
  }

  /** The i-th block number of the file f, by the pointers on the disk. */
  function DiskEntry(disk: Disk, f: nat, i: nat): nat {
    if i < L0 then DiskWord(disk, f, 3 + i)
    else if i < L1 then DiskWord(disk, DiskWord(disk, f, 15), i - L0)
    else DiskWord(disk, DiskWord(disk, DiskWord(disk, f, 16), (i - L1) / NENTRY), (i - L1) % NENTRY)
  }

  lemma CachedWordOnDisk(disk: Disk, img: Image, n: nat, k: nat)
    requires Flushed(disk, img) && NumbersOk(img) && n in img.cached && k < |img.cached[n]|
    ensures DiskWord(disk, n, k) == CachedWord(img.cached, n, k)
  {
    assert BytesOf(img.cached[n]) == BytesOf(img.cached[n]) + [];
    WordReadsBack(img.cached[n], [], k);
  }

  lemma InodeOnDisk(disk: Disk, img: Image, f: nat, k: nat)
    requires Flushed(disk, img) && NumbersOk(img) && f in img.files && k < 17
    ensures DiskWord(disk, f, k) == InodeWords(img.files[f])[k]
  {
    var words := InodeWords(img.files[f]);
    assert words[k] < U32 by {
      if 3 <= k < 15 { assert words[k] == img.files[f].direct[k - 3]; }
    }
    WordReadsBack(words, Zeros(BLKSIZE - 68), k);
  }

  /** The second word of an inode is its type and, in the upper half, its link count. */
  predicate TypeAndLinks(disk: Disk, f: nat, kind: nat, nlinks: nat) {
    DiskWord(disk, f, 1) % 0x1_0000 == kind && DiskWord(disk, f, 1) / 0x1_0000 == nlinks
  }

  lemma TypeAndLinksOnDisk(disk: Disk, img: Image, f: nat)
    requires Flushed(disk, img) && NumbersOk(img) && f in img.files
    ensures TypeAndLinks(disk, f, img.files[f].kind, img.files[f].nlinks)
  {
    hide Flushed, DiskWord;
    var node := img.files[f];
    assert node.kind < 0x1_0000 && InodeWords(node)[1] == node.kind + 0x1_0000 * node.nlinks;
    InodeOnDisk(disk, img, f, 1);
  }

  /** The image round trip: from the inode on the disk, through direct, indirect and double-indirect
      blocks, come exactly the block numbers appended to the file, in order. */
  lemma BlocksReadBack(disk: Disk, img: Image, f: nat, i: nat)
    requires Flushed(disk, img) && NumbersOk(img) && FilesOk(img) && f in img.files && i < |img.contents[f]|
    ensures DiskEntry(disk, f, i) == img.contents[f][i]
  {
    var node, blocks := img.files[f], img.contents[f];
    assert FileRep(img.cached, img.uses, f, node, blocks);
    assert Entry(img.cached, node, i) == blocks[i];
    if i < L0 {
      InodeOnDisk(disk, img, f, 3 + i);
      assert InodeWords(node)[3 + i] == node.direct[i];
    } else if i < L1 {
      InodeOnDisk(disk, img, f, 15);
      CachedWordOnDisk(disk, img, node.indirect, i - L0);
    } else {
      DoubleReadsBack(disk, img, f, i);
    }
  }

  lemma DoubleReadsBack(disk: Disk, img: Image, f: nat, i: nat)
    requires Flushed(disk, img) && NumbersOk(img) && FilesOk(img) && f in img.files && L1 <= i < |img.contents[f]|
    ensures DiskEntry(disk, f, i) == Entry(img.cached, img.files[f], i)
  {
    var node, blocks := img.files[f], img.contents[f];
    var k := TableIndex(i);
    InodeOnDisk(disk, img, f, 16);
    assert InodeWords(node)[16] == node.dbIndirect;
    CachedWordOnDisk(disk, img, node.dbIndirect, k);
    assert k < Tables(node.nblks);
    assert IsTable(img.cached, img.uses, CachedWord(img.cached, node.dbIndirect, k), Table(f, k));
    CachedWordOnDisk(disk, img, CachedWord(img.cached, node.dbIndirect, k), TableOffset(i));
  }

  /** No two blocks of files share a number, and none is an inode's or an index block's. */
  lemma LiveBlocksDistinct(img: Image, f: nat, i: nat, g: nat, j: nat)
    requires NumbersOk(img) && FilesOk(img) && f in img.files && g in img.files
    requires i < |img.contents[f]| && j < |img.contents[g]|
    ensures img.contents[f][i] == img.contents[g][j] ==> f == g && i == j
    ensures img.contents[f][i] !in img.files && img.contents[f][i] !in img.cached && img.contents[f][i] < img.next
  {
    assert FileRep(img.cached, img.uses, f, img.files[f], img.contents[f]);
    assert UsedAs(img.uses, img.contents[f][i], Data(f, i));
    assert UsedAs(img.uses, img.contents[g][j], Data(g, j));
  }

  // ---------- the kernel's reader ----------

  datatype Found = Block(ino: nat) | Panic

  /** sfs_bmap_get_nolock without create. It knows no double-indirect block. */
  function KernelBmap(disk: Disk, f: nat, index: nat): Found {
    if index < L0 then Block(DiskWord(disk, f, 3 + index))
    else if index - L0 < NENTRY then
      var ent := DiskWord(disk, f, 15);
      Block(if ent != 0 then DiskWord(disk, ent, index - L0) else 0)
    else Panic
  }

  /** The kernel reads all blocks of a file that the builder made exactly if the file needs no
      double-indirect block, that is, has at most 1036 blocks. */
  lemma KernelReadsFile(disk: Disk, img: Image, f: nat)
    requires Flushed(disk, img) && NumbersOk(img) && FilesOk(img) && f in img.files
    ensures (forall i: nat | i < |img.contents[f]| :: KernelBmap(disk, f, i) == Block(img.contents[f][i]))
            <==> |img.contents[f]| <= L1
  {
    forall i: nat | i < |img.contents[f]| && i < L1 ensures KernelBmap(disk, f, i) == Block(img.contents[f][i]) {
      BlocksReadBack(disk, img, f, i);
      if L0 <= i {
        InodeOnDisk(disk, img, f, 15);
        assert FileRep(img.cached, img.uses, f, img.files[f], img.contents[f]);
      }
    }
    if L1 < |img.contents[f]| { assert KernelBmap(disk, f, L1) == Panic; }
  }

  // ---------- file contents ----------

  /** The first n blocks of a file, one after the other. */
  function DiskBytes(disk: Disk, f: nat, n: nat): seq<nat> {
    if n == 0 then []
    else DiskBytes(disk, f, n - 1) + (var e := DiskEntry(disk, f, n - 1); if e in disk then disk[e] else [])
  }

  function Concat(pieces: seq<seq<nat>>): seq<nat> {
    if pieces == [] then [] else Concat(pieces[..|pieces| - 1]) + pieces[|pieces| - 1]
  }

  ghost predicate OnDisk(disk: Disk, b: Builder) {
    && Flushed(disk, b.img) && NumbersOk(b.img) && FilesOk(b.img)
    && (forall n | n in b.data :: n in disk && |b.data[n]| <= BLKSIZE && disk[n] == Padded(b.data[n]))
  }

  lemma PieceOnDisk(disk: Disk, b: Builder, f: nat, pieces: seq<seq<nat>>, i: nat)
    requires OnDisk(disk, b) && Holds(b, f, pieces) && i < |pieces|
    ensures DiskEntry(disk, f, i) in disk && |pieces[i]| <= BLKSIZE && disk[DiskEntry(disk, f, i)] == Padded(pieces[i])
  {
    BlocksReadBack(disk, b.img, f, i);
    assert BlockIs(b.data, b.img.contents[f][i], pieces[i]);
  }

  lemma {:induction false} PiecesOnDisk(disk: Disk, b: Builder, f: nat, pieces: seq<seq<nat>>, n: nat)
    requires OnDisk(disk, b) && Holds(b, f, pieces) && FullButLast(pieces) && n <= |pieces|
    ensures |DiskBytes(disk, f, n)| == BLKSIZE * n
    ensures n < |pieces| || n == 0 ==> DiskBytes(disk, f, n) == Concat(pieces[..n])
    ensures 0 < n ==> DiskBytes(disk, f, n) == Concat(pieces[..n - 1]) + Padded(pieces[n - 1])
  {
    hide OnDisk, Holds;
    if n > 0 {
      PiecesOnDisk(disk, b, f, pieces, n - 1);
      PieceOnDisk(disk, b, f, pieces, n - 1);
      assert pieces[..n][..n - 1] == pieces[..n - 1];
    }
  }

  lemma {:induction false} ConcatSize(pieces: seq<seq<nat>>)
    ensures |Concat(pieces)| == TotalSize(pieces)
  {
    if pieces != [] { ConcatSize(pieces[..|pieces| - 1]); }
  }

  lemma {:induction false} TotalBound(pieces: seq<seq<nat>>)
    requires |pieces| <= LN && forall i | 0 <= i < |pieces| :: |pieces[i]| <= BLKSIZE
    ensures TotalSize(pieces) <= BLKSIZE * |pieces| < U32
  {
    if pieces != [] { TotalBound(pieces[..|pieces| - 1]); }
  }

  lemma InodeSizes(disk: Disk, img: Image, f: nat)
    requires Flushed(disk, img) && NumbersOk(img) && FilesOk(img) && f in img.files
    ensures DiskWord(disk, f, 0) == img.files[f].size && DiskWord(disk, f, 2) == img.files[f].nblks
  {
    InodeOnDisk(disk, img, f, 0);
    InodeOnDisk(disk, img, f, 2);
    assert FileRep(img.cached, img.uses, f, img.files[f], img.contents[f]);
  }

  lemma SizeReadsBack(disk: Disk, b: Builder, f: nat, pieces: seq<seq<nat>>)
    requires OnDisk(disk, b) && Holds(b, f, pieces)
    requires |pieces| <= LN && forall i | 0 <= i < |pieces| :: |pieces[i]| <= BLKSIZE
    ensures DiskWord(disk, f, 0) == TotalSize(pieces) && DiskWord(disk, f, 2) == |pieces|
  {
    hide FilesOk, NumbersOk, Flushed;
    InodeSizes(disk, b.img, f);
    TotalBound(pieces);
  }

  /** A file that open_file read in is on the disk byte for byte: the first size bytes of its blocks are
      what read returned. */
  lemma FileReadsBack(disk: Disk, b: Builder, f: nat, pieces: seq<seq<nat>>)
    requires OnDisk(disk, b) && Holds(b, f, pieces) && FullButLast(pieces) && |pieces| <= LN
    requires forall i | 0 <= i < |pieces| :: 0 < |pieces[i]| <= BLKSIZE
    ensures var size, blocks := DiskWord(disk, f, 0), DiskWord(disk, f, 2);
            && blocks == |pieces| && size <= |DiskBytes(disk, f, blocks)|
            && DiskBytes(disk, f, blocks)[..size] == Concat(pieces)
  {
    hide OnDisk, Holds;
    var n := |pieces|;
    PiecesOnDisk(disk, b, f, pieces, n);
    SizeReadsBack(disk, b, f, pieces);
    ConcatSize(pieces);
    if n > 0 { assert Concat(pieces) == Concat(pieces[..n - 1]) + pieces[n - 1]; }
  }

  // ---------- directory entries ----------

  function CString(s: seq<nat>): seq<nat> {
    if s == [] || s[0] == 0 then [] else [s[0]] + CString(s[1..])
  }

  lemma {:induction false} CStringOf(name: seq<nat>, rest: seq<nat>)
    requires forall i | 0 <= i < |name| :: name[i] != 0
    ensures CString(name + [0] + rest) == name
  {
    var s := name + [0] + rest;
    if name == [] {
      assert s[0] == 0;
    } else {
      assert s[1..] == name[1..] + [0] + rest;
      CStringOf(name[1..], rest);
    }
  }

  /** sfs_dirent_read_nolock: the number and the name in a block of a directory; the kernel reads all
      256 bytes of the name and ends it itself. */
  function DirentIno(block: seq<nat>): nat {
    WordAt(block, 0)
  }

  function DirentName(block: seq<nat>): seq<nat>
    requires |block| == BLKSIZE
  {
    CString(block[4..4 + MAX_FNAME_LEN] + [0])
  }

  /** add_entry writes 256 bytes of the 260 of an entry. So the number always reads back, and of the name
      the first 252 bytes do: the name reads back if and only if it has at most 252. */
  lemma EntryReadsBack(ino: nat, name: seq<nat>, buffer: seq<nat>)
    requires ino < U32 && IsName(name) && |buffer| == NAME_BYTES
    ensures var block := Padded(EntryBytes(ino, Copied(name, buffer)));
            && DirentIno(block) == ino
            && DirentName(block) == name[..if |name| <= 252 then |name| else 252]
            && (DirentName(block) == name <==> |name| <= 252)
  {
    var kept, tail := Copied(name, buffer)[..252], Zeros(BLKSIZE - NAME_BYTES);
    var block := Padded(EntryBytes(ino, Copied(name, buffer)));
    assert block == BytesOf([ino]) + (kept + tail);
    WordReadsBack([ino], kept + tail, 0);
    var shown := block[4..4 + MAX_FNAME_LEN] + [0];
    assert shown == kept + [0, 0, 0] + [0];
    if |name| <= 251 {
      assert kept == name + [0] + buffer[|name| + 1..252];
      assert shown == name + [0] + (buffer[|name| + 1..252] + [0, 0, 0, 0]);
      CStringOf(name, buffer[|name| + 1..252] + [0, 0, 0, 0]);
    } else {
      assert kept == name[..252];
      assert shown == name[..252] + [0] + [0, 0, 0];
      CStringOf(name[..252], [0, 0, 0]);
    }
  }

  // ---------- the superblock and the bitmap of free blocks ----------

  function MapBlock(k: nat): nat { BLKN_FREEMAP + k / BLKBITS }

  function MapBit(k: nat): nat { k % BLKBITS }

  /** bitmap_test on the bitmap as sfs_init_freemap loads it: a set bit means a free block. */
  predicate FreeBit(disk: Disk, k: nat) {
    MapBlock(k) in disk && BitAt(disk[MapBlock(k)], MapBit(k))
  }

  ghost predicate FreemapRight(disk: Disk, next: nat, ninos: nat) {
    && (forall k: nat | k < MapBlocks(ninos) * BLKBITS :: FreeBit(disk, k) <==> next <= k < ninos)
    && (forall n: nat | BLKN_FREEMAP <= n < BLKN_FREEMAP + MapBlocks(ninos) :: BlockOfBytes(disk, n))
  }

  /** A whole block of bytes is there. */
  predicate BlockOfBytes(disk: Disk, n: nat) {
    n in disk && |disk[n]| == 4096 && forall i | 0 <= i < 4096 :: disk[n][i] < 256
  }

  /** The bitmap as it lies on the disk: from block 2 on, one bit for a block of the image, the lowest bit of a
      byte first, set exactly for the blocks from next on. */
  lemma FreemapInBytes(disk: Disk, next: nat, ninos: nat, k: nat)
    requires FreemapRight(disk, next, ninos) && k < ninos
    ensures BlockOfBytes(disk, 2 + k / 32768)
    ensures disk[2 + k / 32768][k % 32768 / 8] / Pow2(k % 8) % 2 == 1 <==> next <= k
  {
    var m, q := k / BLKBITS, k % BLKBITS;
    MapCovers(ninos);
    assert m < MapBlocks(ninos);
    assert BlockOfBytes(disk, BLKN_FREEMAP + m);
    assert FreeBit(disk, k) <==> next <= k < ninos;
    assert q % 8 == k % 8;
    BitInByte(disk[BLKN_FREEMAP + m], q);
  }

  /** The loop of sfs_do_mount that counts the free blocks. */
  function CountFree(disk: Disk, n: nat): nat {
    if n == 0 then 0 else CountFree(disk, n - 1) + if FreeBit(disk, n - 1) then 1 else 0
  }

  lemma {:induction false} CountFreeIs(disk: Disk, next: nat, ninos: nat, n: nat)
    requires FreemapRight(disk, next, ninos) && next <= ninos && n <= MapBlocks(ninos) * BLKBITS
    ensures CountFree(disk, n) == if n <= next then 0 else if n <= ninos then n - next else ninos - next
  {
    if n > 0 {
      CountFreeIs(disk, next, ninos, n - 1);
      assert FreeBit(disk, n - 1) <==> next <= n - 1 < ninos;
    }
  }

  lemma MapCovers(ninos: nat)
    ensures ninos <= MapBlocks(ninos) * BLKBITS
  {
  }

  function SuperBytes(ninos: nat, unused: nat, info: seq<nat>): seq<nat> {
    BytesOf([MAGIC, ninos, unused]) + info
  }

  /** The first four bytes of the image: numbers are written with the lowest byte first. */
  lemma FirstBytes(ninos: nat, unused: nat, info: seq<nat>)
    requires |info| == 32
    ensures Padded(SuperBytes(ninos, unused, info))[..4] == [0x2a, 0xbe, 0x8d, 0x2f]
  {
    var words := [MAGIC, ninos, unused];
    assert Padded(SuperBytes(ninos, unused, info))[..4] == BytesOf(words)[..4];
    assert BytesOf(words)[..4] == [ByteOf(MAGIC, 0), ByteOf(MAGIC, 1), ByteOf(MAGIC, 2), ByteOf(MAGIC, 3)];
  }

  /** Mounting the image: the magic number and the sizes are those of the builder, the count of free
      blocks that sfs_do_mount takes agrees with the superblock, and every block of a file is in use. */
  lemma KernelMounts(disk: Disk, b: Builder, info: seq<nat>)
    requires Linked(b) && FilesOk(b.img) && FreemapRight(disk, b.img.next, b.ninos) && |info| == 32
    requires 0 in disk && disk[0] == Padded(SuperBytes(b.ninos, b.unused, info))
    ensures DiskWord(disk, 0, 0) == 0x2f8d_be2a && DiskWord(disk, 0, 1) == b.ninos && DiskWord(disk, 0, 2) == b.unused
    ensures CountFree(disk, MapBlocks(b.ninos) * BLKBITS) == DiskWord(disk, 0, 2)
    ensures forall n | n in b.img.uses :: !FreeBit(disk, n)
  {
    var words, rest := [MAGIC, b.ninos, b.unused], info + Zeros(BLKSIZE - 44);
    assert disk[0] == BytesOf(words) + rest;
    WordReadsBack(words, rest, 0);
    WordReadsBack(words, rest, 1);
    WordReadsBack(words, rest, 2);
    MapCovers(b.ninos);
    CountFreeIs(disk, b.img.next, b.ninos, MapBlocks(b.ninos) * BLKBITS);
  }
}
