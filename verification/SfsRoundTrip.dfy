// From an empty image to what the kernel reads: one file put into a new image by tools/mksfs.c.
module SfsRoundTrip {
  import opened DiskWords
  import opened SfsImage
  import opened MkSfs
  import opened SfsBuild
  import opened SfsDisk
  import opened SfsClose
  import opened SfsLinks

  /** The numbers taken in a new image of n blocks. */
  function Taken(n: nat): nat {
    BLKN_FREEMAP + MapBlocks(n)
  }

  /** The image is large enough for the file and for the block of the root directory with its entry. */
  predicate HasRoom(n: nat, blocks: nat) {
    blocks <= LN && Taken(n) + 1 + BlocksFor(blocks) + 1 <= n
  }

  /** The disk holds the file f: an inode of type 1 with one link, all its bytes, and an entry for it in the
      root directory, which is block 1 and of type 2. The kernel reads its blocks if and only if there are at
      most 1036 of them. */
  ghost predicate FileThere(disk: Disk, f: nat, name: seq<nat>, pieces: seq<seq<nat>>) {
    && DiskWord(disk, f, 2) == |pieces| && DiskWord(disk, f, 0) <= |DiskBytes(disk, f, |pieces|)|
    && DiskBytes(disk, f, |pieces|)[..DiskWord(disk, f, 0)] == Concat(pieces)
    && ((forall i: nat | i < |pieces| :: KernelBmap(disk, f, i) == Block(DiskEntry(disk, f, i))) <==> |pieces| <= 1036)
    && DiskWord(disk, 1, 2) == 1 && KernelBmap(disk, 1, 0) == Block(DiskEntry(disk, 1, 0))
    && EntryThere(disk, DiskEntry(disk, 1, 0), f, name)
    && DiskWord(disk, 1, 0) == 256 && DiskWord(disk, f, 1) == 1 + 0x1_0000 * 1 && DiskWord(disk, 1, 1) % 0x1_0000 == 2
  }

  ghost predicate EntryThere(disk: Disk, n: nat, f: nat, name: seq<nat>) {
    && n in disk && |disk[n]| == BLKSIZE && DirentIno(disk[n]) == f
    && (DirentName(disk[n]) == name <==> |name| <= 252)
  }

  // ---------- what add_file leaves ----------

  lemma HeldAfterLink(b1: Builder, dir: nat, size: nat, bytes: seq<nat>, b2: Builder, f: nat, pieces: seq<seq<nat>>,
                      b': Builder)
    requires Linked(b1) && Put(b1, dir, size, bytes, b2) && Holds(b1, f, pieces) && f != dir
    requires f in b2.img.files && b' == WithFile(b2, f, OneMoreLink(b2.img.files[f]))
    ensures Holds(b', f, pieces)
  {
    PutKept(b1, dir, size, bytes, b2);
    forall i | 0 <= i < |pieces| ensures BlockIs(b'.data, b'.img.contents[f][i], pieces[i]) {
      assert BlockIs(b1.data, b1.img.contents[f][i], pieces[i]);
      assert BlockIs(b2.data, b1.img.contents[f][i], b1.data[b1.img.contents[f][i]]);
    }
  }

  lemma EntryHeld(b1: Builder, dir: nat, bytes: seq<nat>, b2: Builder, f: nat, b': Builder)
    requires b1.img.next !in b1.data && Put(b1, dir, |bytes|, bytes, b2) && Holds(b1, dir, []) && f != dir
    requires f in b2.img.files && b' == WithFile(b2, f, OneMoreLink(b2.img.files[f]))
    ensures Holds(b', dir, [bytes])
  {
    PutHolds(b1, dir, [], bytes, b2);
    assert [] + [bytes] == [bytes];
  }

  /** After add_file into a new image both the file and the directory have their contents. */
  lemma AddedHeld(b: Builder, name: seq<nat>, buffer: seq<nat>, host: nat, pieces: seq<seq<nat>>, file: CacheInode,
                  b1: Builder, b2: Builder, b': Builder)
    requires IsName(name) && |buffer| == NAME_BYTES && Linked(b) && Holds(b, BLKN_ROOT, []) && host !in b.recent
    requires Added(b, BLKN_ROOT, name, buffer, host, pieces, file, b1, b2, b')
    ensures file.ino != BLKN_ROOT && file.ino < U32 && Holds(b', file.ino, pieces)
    ensures Holds(b', BLKN_ROOT, [EntryBytes(file.ino, Copied(name, buffer))])
  {
    hide EntryBytes, Copied, Put;
    var entry := EntryBytes(file.ino, Copied(name, buffer));
    FoundKeepsRoot(b, host, pieces, file, b1);
    NextUnwritten(b1);
    HeldAfterLink(b1, BLKN_ROOT, NAME_BYTES, entry, b2, file.ino, pieces, b');
    EntryHeld(b1, BLKN_ROOT, entry, b2, file.ino, b');
  }

  /** The one file has one link, and the root is still a directory. */
  lemma AddedLinks(b: Builder, name: seq<nat>, buffer: seq<nat>, host: nat, pieces: seq<seq<nat>>, file: CacheInode,
                   b1: Builder, b2: Builder, b': Builder)
    requires IsName(name) && |buffer| == NAME_BYTES && host !in b.recent && FilesOk(b.img)
    requires b.img.files.Keys == b.fileAt.Keys == {BLKN_ROOT} && b.img.contents == map[BLKN_ROOT := []]
    requires b.img.files[BLKN_ROOT].nlinks == 0 && b.img.files[BLKN_ROOT].kind == 2
    requires Added(b, BLKN_ROOT, name, buffer, host, pieces, file, b1, b2, b') && file.ino < 0x1_0000_0000
    ensures LinksRight(b') && file.ino in b'.img.files && b'.img.files[file.ino].nlinks == 1
            && b'.img.files[file.ino].kind == 1
    ensures BLKN_ROOT in b'.img.files && b'.img.files[BLKN_ROOT].kind == 2
  {
    hide Added, FilesOk, LinksRight;
    NewImageLinks(b);
    AddedKeepsLinks(b, BLKN_ROOT, name, buffer, host, pieces, file, b1, b2, b');
  }

  lemma KindOf(sfs: Sfs, f: nat)
    requires f in sfs.State().img.files
    ensures f in sfs.fileAt && sfs.State().img.files[f].kind == sfs.fileAt[f].kind
    ensures sfs.State().img.files[f].nlinks == sfs.fileAt[f].nlinks
  {
  }

  lemma NothingHeld(b: Builder, f: nat)
    requires f in b.img.files && f in b.img.contents && b.img.contents[f] == []
    requires b.img.files[f].nblks == 0 && b.img.files[f].size == 0
    ensures Holds(b, f, [])
  {
  }

  lemma FoundKeepsRoot(b: Builder, host: nat, pieces: seq<seq<nat>>, file: CacheInode, b1: Builder)
    requires Linked(b) && Holds(b, BLKN_ROOT, []) && host !in b.recent && FileFound(b, host, pieces, file, b1)
    ensures Holds(b1, BLKN_ROOT, []) && Holds(b1, file.ino, pieces) && file.ino != BLKN_ROOT && file.ino < U32
  {
  }

  lemma NextUnwritten(b: Builder)
    requires Linked(b)
    ensures b.img.next !in b.data
  {
  }

  // ---------- what close_sfs writes of it ----------

  lemma KernelReadsEntries(disk: Disk, b: Builder, f: nat, pieces: seq<seq<nat>>)
    requires OnDisk(disk, b) && Holds(b, f, pieces)
    ensures (forall i: nat | i < |pieces| :: KernelBmap(disk, f, i) == Block(DiskEntry(disk, f, i))) <==> |pieces| <= L1
  {
    hide KernelBmap, DiskEntry;
    KernelReadsFile(disk, b.img, f);
    forall i: nat | i < |pieces| ensures DiskEntry(disk, f, i) == b.img.contents[f][i] {
      BlocksReadBack(disk, b.img, f, i);
    }
  }

  lemma EntryOnDisk(disk: Disk, b: Builder, f: nat, name: seq<nat>, buffer: seq<nat>)
    requires OnDisk(disk, b) && f < U32 && IsName(name) && |buffer| == NAME_BYTES
    requires Holds(b, BLKN_ROOT, [EntryBytes(f, Copied(name, buffer))])
    ensures DiskWord(disk, BLKN_ROOT, 0) == 256
    ensures DiskWord(disk, BLKN_ROOT, 2) == 1 && KernelBmap(disk, BLKN_ROOT, 0) == Block(DiskEntry(disk, BLKN_ROOT, 0))
    ensures EntryThere(disk, DiskEntry(disk, BLKN_ROOT, 0), f, name)
  {
    hide OnDisk, Holds, KernelBmap, DiskEntry, EntryBytes, Copied, DirentName;
    var entry := [EntryBytes(f, Copied(name, buffer))];
    KernelReadsEntries(disk, b, BLKN_ROOT, entry);
    assert KernelBmap(disk, BLKN_ROOT, 0) == Block(DiskEntry(disk, BLKN_ROOT, 0));
    PieceOnDisk(disk, b, BLKN_ROOT, entry, 0);
    SizeReadsBack(disk, b, BLKN_ROOT, entry);
    OnePiece(entry);
    EntryReadsBack(f, name, buffer);
  }

  lemma OnePiece(pieces: seq<seq<nat>>)
    requires |pieces| == 1
    ensures TotalSize(pieces) == |pieces[0]|
  {
    assert TotalSize(pieces[..0]) == 0;
  }

  lemma ThereOnDisk(disk: Disk, b: Builder, f: nat, name: seq<nat>, buffer: seq<nat>, pieces: seq<seq<nat>>,
                    rootLinks: nat)
    requires OnDisk(disk, b) && f < U32 && IsName(name) && |buffer| == NAME_BYTES
    requires Holds(b, BLKN_ROOT, [EntryBytes(f, Copied(name, buffer))])
    requires Holds(b, f, pieces) && FullButLast(pieces) && |pieces| <= LN
    requires forall i | 0 <= i < |pieces| :: 0 < |pieces[i]| <= BLKSIZE
    requires TypeAndLinks(disk, f, 1, 1) && TypeAndLinks(disk, 1, 2, rootLinks)
    ensures FileThere(disk, f, name, pieces)
  {
    hide OnDisk, Holds, KernelBmap, DiskEntry, EntryBytes, Copied, EntryThere;
    FileReadsBack(disk, b, f, pieces);
    KernelReadsEntries(disk, b, f, pieces);
    EntryOnDisk(disk, b, f, name, buffer);
  }

  /** create_sfs, add_file and close_sfs: whatever read returns for the file, the image has it, under its
      name; and it fails only for want of room or where a piece but the last is short. */
  method PutFile(fileSize: nat, disk: Disk, name: seq<nat>, host: nat, pieces: seq<seq<nat>>, info: seq<nat>)
    returns (sfs: Sfs?, ghost f: nat)
    requires host != 0 && IsName(name) && |info| == 32 && forall i | 0 <= i < |pieces| :: 0 < |pieces[i]| <= BLKSIZE
    ensures sfs != null <==> FullButLast(pieces) && HasRoom(Blocks(fileSize), |pieces|)
    ensures sfs != null ==> f != BLKN_ROOT && FileThere(sfs.disk, f, name, pieces)
  {
    hide Linked, FilesOk, Added, FileThere, FullButLast, BlocksFor, Holds, OnDisk, MapBlocks, LinksRight, TypeAndLinks;
    f := 0;
    var root;
    sfs, root := CreateSfs(fileSize, disk);
    if sfs == null {
      return;
    }
    ghost var b, buffer := sfs.State(), sfs.entryName;
    assert b.img.files[BLKN_ROOT] == root.Value();
    NothingHeld(b, BLKN_ROOT);
    var ok;
    ghost var file, b1, b2;
    ok, file, b1, b2 := AddFile(sfs, root, name, host, pieces);
    if !ok {
      return null, 0;
    }
    f := file.ino;
    AddedHeld(b, name, buffer, host, pieces, file, b1, b2, sfs.State());
    AddedLinks(b, name, buffer, host, pieces, file, b1, b2, sfs.State());
    KindOf(sfs, f);
    KindOf(sfs, BLKN_ROOT);
    CloseWith(sfs, f, name, buffer, pieces, info);
  }

  /** close_sfs where the file and the directory are complete. */
  method CloseWith(sfs: Sfs, ghost f: nat, ghost name: seq<nat>, ghost buffer: seq<nat>, ghost pieces: seq<seq<nat>>,
                   info: seq<nat>)
    requires sfs.Valid() && |info| == 32 && f < U32 && IsName(name) && |buffer| == NAME_BYTES
    requires Holds(sfs.State(), BLKN_ROOT, [EntryBytes(f, Copied(name, buffer))])
    requires Holds(sfs.State(), f, pieces) && FullButLast(pieces) && |pieces| <= LN
    requires forall i | 0 <= i < |pieces| :: 0 < |pieces[i]| <= BLKSIZE
    requires f in sfs.fileAt && sfs.fileAt[f].kind == 1 && sfs.fileAt[f].nlinks == 1
    requires BLKN_ROOT in sfs.fileAt && sfs.fileAt[BLKN_ROOT].kind == 2
    modifies sfs`disk
    ensures FileThere(sfs.disk, f, name, pieces)
  {
    hide Linked, FilesOk, FileThere, FullButLast, Holds, OnDisk, MapBlocks, TypeAndLinks, EntryBytes, Copied,
      FreemapRight;
    ghost var b, links := sfs.State(), sfs.fileAt[BLKN_ROOT].nlinks;
    CloseSfs(sfs, info);
    assert f in sfs.fileAt && sfs.fileAt[f].kind == 1 && sfs.fileAt[f].nlinks == 1;
    assert BLKN_ROOT in sfs.fileAt && sfs.fileAt[BLKN_ROOT].kind == 2 && sfs.fileAt[BLKN_ROOT].nlinks == links;
    ThereOnDisk(sfs.disk, b, f, name, buffer, pieces, links);
  }

  // ---------- a file that the kernel cannot read ----------

  lemma {:induction false} BlocksForIs(n: nat)
    requires n <= L1
    ensures BlocksFor(n) == if n <= L0 then n else n + 1
  {
    if n > 0 { BlocksForIs(n - 1); }
  }

  /** An image of 2000 blocks has room for a file of 1037 blocks. */
  lemma LongFileFits()
    ensures HasRoom(2000, L1 + 1)
  {
    BlocksForIs(L1);
    assert BlocksFor(L1 + 1) == BlocksFor(L1) + 1 + IndexBlocks(L1);
  }

  /** The builder makes a file that the kernel does not read, although the image has all its bytes. */
  method LongFile(disk: Disk, name: seq<nat>, info: seq<nat>) returns (sfs: Sfs, ghost f: nat, pieces: seq<seq<nat>>)
    requires IsName(name) && |info| == 32
    ensures FileThere(sfs.disk, f, name, pieces) && |pieces| == L1 + 1
    ensures KernelBmap(sfs.disk, f, L1) == Panic
  {
    hide FileThere, BlocksFor, HasRoom;
    LongFileFits();
    pieces := seq(L1 + 1, _ => Zeros(BLKSIZE));
    var made;
    made, f := PutFile(2000 * BLKSIZE, disk, name, 1, pieces, info);
    sfs := made;
  }
}
