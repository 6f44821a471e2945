// Files and directories of the image builder: open_file, add_entry and add_file of tools/mksfs.c.
module SfsBuild {
  import opened DiskWords
  import opened SfsImage
  import opened MkSfs

  /** A block of bytes gets the next number, goes to the disk and to the end of the file f. */
  ghost predicate Put(b: Builder, f: nat, size: nat, bytes: seq<nat>, b': Builder) {
    && f in b.img.files && |bytes| <= BLKSIZE && b.img.next < b.ninos
    && var b1 := WithNumber(b, Data(f, b.img.files[f].nblks));
       && Appended(b1.img, f, size, b.img.next, b'.img)
       && BuilderKept(WithData(b1, b.img.next, bytes), b')
  }

  /** sfs_alloc_ino, write_block and append_block, as open_file, open_link and add_entry call them. */
  method PutBlock(sfs: Sfs, file: CacheInode, bytes: seq<nat>, size: nat) returns (ok: bool)
    requires sfs.Valid() && sfs.HasFile(file) && |bytes| <= BLKSIZE && size <= BLKSIZE
    modifies sfs`nextIno, sfs`unused, sfs`uses, sfs`blocks, sfs`blockAt, sfs`contents, sfs`disk, sfs`data
    modifies file, sfs.blockAt.Values
    ensures forall c | c in sfs.blockAt.Values :: c in old(sfs.blockAt.Values) || fresh(c)
    ensures ok <==> old(file.nblks) < LN && old(sfs.nextIno) + 1 + IndexBlocks(old(file.nblks)) <= sfs.ninos
    ensures ok ==> sfs.Valid() && Put(old(sfs.State()), file.ino, size, bytes, sfs.State())
  {
    hide Linked, FilesOk, BuilderKept, Appended;
    ghost var f, b := file.ino, sfs.State();
    assert b.img.files[f] == file.Value();
    var n;
    ok, n := sfs.DataNumber(f, file.nblks);
    if !ok {
      return;
    }
    ghost var b1 := sfs.State();
    assert b1.img.uses[n] == Data(f, file.nblks);
    sfs.WriteData(bytes, n);
    assert sfs.HasFile(file);
    ok := sfs.AppendBlock(file, size, n);
  }

  // ---------- open_file ----------

  function TotalSize(pieces: seq<seq<nat>>): nat {
    if pieces == [] then 0 else TotalSize(pieces[..|pieces| - 1]) + |pieces[|pieces| - 1]|
  }

  /** The numbers that a file of n blocks takes, its inode's not counted. */
  function BlocksFor(n: nat): nat {
    if n == 0 then 0 else BlocksFor(n - 1) + 1 + IndexBlocks(n - 1)
  }

  lemma {:induction false} BlocksForGrows(m: nat, n: nat)
    requires m <= n
    ensures BlocksFor(m) <= BlocksFor(n)
  {
    if m < n { BlocksForGrows(m, n - 1); }
  }

  predicate FullButLast(pieces: seq<seq<nat>>) {
    forall i | 0 <= i < |pieces| - 1 :: |pieces[i]| == BLKSIZE
  }

  predicate BlockIs(data: map<nat, seq<nat>>, n: nat, bytes: seq<nat>) {
    n in data && data[n] == bytes
  }

  /** The file f consists of the given pieces, one to a block. */
  ghost predicate Holds(b: Builder, f: nat, pieces: seq<seq<nat>>) {
    && f in b.img.files && f in b.img.contents && |b.img.contents[f]| == |pieces| == b.img.files[f].nblks
    && (forall i | 0 <= i < |pieces| :: BlockIs(b.data, b.img.contents[f][i], pieces[i]))
    && b.img.files[f].size == TotalSize(pieces) % U32
  }

  /** Nothing that was there is lost: other files, data blocks and cached inodes are as before. */
  ghost predicate Kept(b: Builder, f: nat, b': Builder) {
    && b'.ninos == b.ninos && b'.fileAt == b.fileAt && b'.recent == b.recent
    && (forall g | g in b.img.files && g in b.img.contents && g != f ::
          g in b'.img.files && b'.img.files[g] == b.img.files[g]
          && g in b'.img.contents && b'.img.contents[g] == b.img.contents[g])
    && (forall n | n in b.data :: BlockIs(b'.data, n, b.data[n]))
    && (f in b.img.files ==> f in b'.img.files && b'.img.files[f].kind == b.img.files[f].kind
                             && b'.img.files[f].nlinks == b.img.files[f].nlinks)
  }

  lemma PutKept(b: Builder, f: nat, size: nat, bytes: seq<nat>, b': Builder)
    requires Linked(b) && Put(b, f, size, bytes, b')
    ensures Kept(b, f, b')
  {
  }

  lemma KeptTwice(b: Builder, f: nat, b1: Builder, b': Builder)
    requires Kept(b, f, b1) && Kept(b1, f, b')
    ensures Kept(b, f, b')
  {
    forall n | n in b.data ensures BlockIs(b'.data, n, b.data[n]) {
      assert BlockIs(b1.data, n, b.data[n]);
    }
  }

  lemma PutHolds(b: Builder, f: nat, pieces: seq<seq<nat>>, bytes: seq<nat>, b': Builder)
    requires b.img.next !in b.data && Put(b, f, |bytes|, bytes, b') && Holds(b, f, pieces)
    ensures Holds(b', f, pieces + [bytes])
  {
    var all, n := pieces + [bytes], b.img.next;
    assert all[..|all| - 1] == pieces;
    assert b'.img.contents[f] == b.img.contents[f] + [n];
    assert b'.data == b.data[n := bytes];
    forall i | 0 <= i < |all| ensures BlockIs(b'.data, b'.img.contents[f][i], all[i]) {
      if i < |pieces| { assert BlockIs(b.data, b.img.contents[f][i], pieces[i]); }
    }
    TotalIsMod(b.img.files[f].size, TotalSize(pieces), |bytes|);
  }

  lemma PutTakes(b: Builder, f: nat, size: nat, bytes: seq<nat>, b': Builder)
    requires Put(b, f, size, bytes, b')
    ensures b'.img.next == b.img.next + 1 + IndexBlocks(b.img.files[f].nblks)
  {
  }

  lemma TotalIsMod(size: nat, total: nat, more: nat)
    requires size == total % U32
    ensures (size + more) % U32 == (total + more) % U32
  {
    assert total == total / U32 * U32 + size;
    assert (total + more) == (size + more) + total / U32 * U32;
  }

  /** After b0, the file f has been given the pieces so far. */
  ghost predicate Reading(b0: Builder, f: nat, pieces: seq<seq<nat>>, b: Builder) {
    Holds(b, f, pieces) && Kept(b0, f, b) && b.img.next == b0.img.next + BlocksFor(|pieces|)
  }

  lemma ReadingStarts(b0: Builder, f: nat)
    requires Holds(b0, f, [])
    ensures Reading(b0, f, [], b0) && BlocksFor(0) == 0 && FullButLast([])
  {
  }

  lemma ReadingEnds(b0: Builder, f: nat, pieces: seq<seq<nat>>, b: Builder)
    requires Reading(b0, f, pieces, b)
    ensures Holds(b, f, pieces) && Kept(b0, f, b) && b.img.next == b0.img.next + BlocksFor(|pieces|)
  {
  }

  /** One round of the loop of open_file. */
  method ReadPiece(sfs: Sfs, file: CacheInode, ghost b0: Builder, ghost pieces: seq<seq<nat>>, piece: seq<nat>)
    returns (ok: bool)
    requires sfs.Valid() && sfs.HasFile(file) && Reading(b0, file.ino, pieces, sfs.State()) && |piece| <= BLKSIZE
    modifies sfs`nextIno, sfs`unused, sfs`uses, sfs`blocks, sfs`blockAt, sfs`contents, sfs`disk, sfs`data
    modifies file, sfs.blockAt.Values
    ensures forall c | c in sfs.blockAt.Values :: c in old(sfs.blockAt.Values) || fresh(c)
    ensures ok <==> |pieces| < LN && b0.img.next + BlocksFor(|pieces| + 1) <= sfs.ninos
    ensures ok ==> sfs.Valid() && Reading(b0, file.ino, pieces + [piece], sfs.State())
  {
    ghost var f, b := file.ino, sfs.State();
    assert b.img.files[f] == file.Value();
    assert b.img.next !in b.data;
    assert BlocksFor(|pieces| + 1) == BlocksFor(|pieces|) + 1 + IndexBlocks(|pieces|);
    ok := PutBlock(sfs, file, piece, |piece|);
    if ok {
      ghost var b' := sfs.State();
      PutHolds(b, f, pieces, piece, b');
      PutKept(b, f, |piece|, piece, b');
      KeptTwice(b0, f, b, b');
      PutTakes(b, f, |piece|, piece, b');
    }
  }

  /** open_file on a new file, where read returns the given pieces in turn. It fails where a piece
      that is not the last is short, where the file is too big, or where the disk is full. */
  method OpenFile(sfs: Sfs, file: CacheInode, pieces: seq<seq<nat>>) returns (ok: bool)
    requires sfs.Valid() && sfs.HasFile(file) && Holds(sfs.State(), file.ino, [])
    requires forall i | 0 <= i < |pieces| :: 0 < |pieces[i]| <= BLKSIZE
    modifies sfs`nextIno, sfs`unused, sfs`uses, sfs`blocks, sfs`blockAt, sfs`contents, sfs`disk, sfs`data
    modifies file, sfs.blockAt.Values
    ensures forall c | c in sfs.blockAt.Values :: c in old(sfs.blockAt.Values) || fresh(c)
    ensures ok <==> FullButLast(pieces) && |pieces| <= 32768 && old(sfs.nextIno) + BlocksFor(|pieces|) <= sfs.ninos
    ensures ok ==> sfs.Valid() && Holds(sfs.State(), file.ino, pieces) && Kept(old(sfs.State()), file.ino, sfs.State())
    ensures ok ==> sfs.nextIno == old(sfs.nextIno) + BlocksFor(|pieces|)
  {
    hide Linked, FilesOk, Sfs.PointersOk, Reading, Holds, Kept, BlocksFor;
    sfs.NextInRange();
    var i, last := 0, BLKSIZE;
    ghost var f, b0 := file.ino, sfs.State();
    ReadingStarts(b0, f);
    assert pieces[..0] == [];
    while i < |pieces|
      invariant 0 <= i <= |pieces| && sfs.Valid() && Reading(b0, f, pieces[..i], sfs.State())
      invariant (forall j | 0 <= j < i - 1 :: |pieces[j]| == BLKSIZE) && i <= LN
                && b0.img.next + BlocksFor(i) <= sfs.ninos == b0.ninos
      invariant last == if i == 0 then BLKSIZE else |pieces[i - 1]|
      invariant forall c | c in sfs.blockAt.Values :: c in old(sfs.blockAt.Values) || fresh(c)
    {
      BlocksForGrows(i + 1, |pieces|);
      if last != BLKSIZE {
        return false;
      }
      ok := ReadPiece(sfs, file, b0, pieces[..i], pieces[i]);
      if !ok {
        return;
      }
      assert pieces[..i + 1] == pieces[..i] + [pieces[i]];
      last := |pieces[i]|;
      i := i + 1;
    }
    assert pieces[..i] == pieces;
    ReadingEnds(b0, f, pieces, sfs.State());
    ok := true;
  }

  // ---------- directory entries ----------

  const MAX_FNAME_LEN: nat := 255

  /** A name as a C string: no zero byte, at most 255 bytes. */
  predicate IsName(name: seq<nat>) {
    |name| <= MAX_FNAME_LEN && forall i | 0 <= i < |name| :: 0 < name[i] < 256
  }

  /** strcpy(entry->name, name): what stood behind the end of the name stays. */
  function Copied(name: seq<nat>, buffer: seq<nat>): (r: seq<nat>)
    requires |name| < |buffer|
    ensures |r| == |buffer|
  {
    name + [0] + buffer[|name| + 1..]
  }

  /** The sizeof(entry->name) bytes from the start of the entry: the number and 252 bytes of the name. */
  function EntryBytes(ino: nat, buffer: seq<nat>): (r: seq<nat>)
    requires |buffer| == NAME_BYTES
    ensures |r| == NAME_BYTES
  {
    BytesOf([ino]) + buffer[..NAME_BYTES - 4]
  }

  /** add_entry: the directory gets a block with the entry, the file one more link. */
  method AddEntry(sfs: Sfs, current: CacheInode, file: CacheInode, name: seq<nat>) returns (ok: bool, ghost b: Builder)
    requires sfs.Valid() && sfs.HasFile(current) && sfs.HasFile(file) && IsName(name) && |sfs.entryName| == NAME_BYTES
    modifies sfs`nextIno, sfs`unused, sfs`uses, sfs`blocks, sfs`blockAt, sfs`contents, sfs`disk, sfs`data, sfs`entryName
    modifies current, file, sfs.blockAt.Values
    ensures |sfs.entryName| == NAME_BYTES
    ensures forall c | c in sfs.blockAt.Values :: c in old(sfs.blockAt.Values) || fresh(c)
    ensures ok <==> old(current.nblks) < LN && old(sfs.nextIno) + 1 + IndexBlocks(old(current.nblks)) <= sfs.ninos
    ensures ok ==>
            Put(old(sfs.State()), current.ino, NAME_BYTES, EntryBytes(file.ino, Copied(name, old(sfs.entryName))), b)
    ensures ok ==> sfs.Valid() && file.ino in b.img.files
    ensures ok ==> sfs.State() == WithFile(b, file.ino, OneMoreLink(b.img.files[file.ino]))
  {
    hide Linked, FilesOk, Put, Copied, EntryBytes;
    ghost var b0 := sfs.State();
    sfs.entryName := Copied(name, sfs.entryName);
    var bytes := EntryBytes(file.ino, sfs.entryName);
    ok := PutBlock(sfs, current, bytes, NAME_BYTES);
    b := sfs.State();
    if ok {
      PutKeepsFiles(b0, current.ino, NAME_BYTES, bytes, b);
      sfs.LinkFile(file);
    }
  }

  lemma PutKeepsFiles(b: Builder, f: nat, size: nat, bytes: seq<nat>, b': Builder)
    requires Put(b, f, size, bytes, b')
    ensures b'.fileAt == b.fileAt
  {
  }

  // ---------- add_file ----------

  /** What add_file makes of the state before the entry is added: a host inode seen before is the
      file it was, a new one becomes a file that holds the pieces. */
  ghost predicate FileFound(b: Builder, host: nat, pieces: seq<seq<nat>>, file: CacheInode, b': Builder) {
    if host in b.recent then file == b.recent[host] && b' == b
    else
      && file.ino == b.img.next && b'.recent == b.recent[host := file] && b'.fileAt == b.fileAt[file.ino := file]
      && Holds(b', file.ino, pieces) && b'.img.files[file.ino].kind == TYPE_FILE && b'.img.files[file.ino].nlinks == 0
      && KeptBut(b, file.ino, b')
  }

  /** Files and data are as before; f is new. */
  ghost predicate KeptBut(b: Builder, f: nat, b': Builder) {
    && f !in b.img.files && b'.ninos == b.ninos
    && (forall g | g in b.img.files && g in b.img.contents ::
          g in b'.img.files && b'.img.files[g] == b.img.files[g]
          && g in b'.img.contents && b'.img.contents[g] == b.img.contents[g])
    && (forall n | n in b.data :: BlockIs(b'.data, n, b.data[n]))
  }

  lemma NewFileKept(b: Builder, c: CacheInode, b1: Builder, pieces: seq<seq<nat>>, b': Builder)
    requires |b.inodes| == BUCKETS && b.img.next == c.ino && c.ino !in b.img.files && c.kind == TYPE_FILE
             && c.host !in b.recent
    requires b1 == WithInode(WithNumber(b, Inode), c) && Kept(b1, c.ino, b') && Holds(b', c.ino, pieces)
    ensures FileFound(b, c.host, pieces, c, b')
  {
    forall n | n in b.data ensures BlockIs(b'.data, n, b.data[n]) {
      assert BlockIs(b'.data, n, b1.data[n]);
    }
  }

  /** The new file starts out empty. */
  lemma NewFileHolds(b: Builder, c: CacheInode)
    requires |b.inodes| == BUCKETS
    ensures Holds(WithInode(b, c), c.ino, [])
  {
  }

  predicate CanRead(b: Builder, pieces: seq<seq<nat>>) {
    FullButLast(pieces) && |pieces| <= LN && b.img.next + 1 + BlocksFor(|pieces|) <= b.ninos
  }

  lemma FoundBefore(b: Builder, host: nat, pieces: seq<seq<nat>>)
    requires host in b.recent
    ensures FileFound(b, host, pieces, b.recent[host], b)
  {
  }

  ghost predicate FilesStay(fileAt: map<nat, CacheInode>, fileAt': map<nat, CacheInode>) {
    forall f | f in fileAt :: f in fileAt' && fileAt'[f] == fileAt[f]
  }

  /** alloc_cache_inode and open_file, for a host inode not seen before. */
  method ReadNewFile(sfs: Sfs, host: nat, pieces: seq<seq<nat>>) returns (file: CacheInode?)
    requires sfs.Valid() && host !in sfs.recent && forall i | 0 <= i < |pieces| :: 0 < |pieces[i]| <= BLKSIZE
    modifies sfs`nextIno, sfs`unused, sfs`uses, sfs`blocks, sfs`blockAt, sfs`contents, sfs`disk, sfs`data
    modifies sfs`inodes, sfs`fileAt, sfs`recent, sfs.blockAt.Values
    ensures forall c | c in sfs.blockAt.Values :: c in old(sfs.blockAt.Values) || fresh(c)
    ensures file != null ==> (file in old(sfs.fileAt.Values) || fresh(file)) && FilesStay(old(sfs.fileAt), sfs.fileAt)
    ensures file != null ==>
            sfs.Valid() && sfs.HasFile(file) && FileFound(old(sfs.State()), host, pieces, file, sfs.State())
    ensures file != null <==> CanRead(old(sfs.State()), pieces)
    ensures file != null ==> sfs.nextIno == old(sfs.nextIno) + 1 + BlocksFor(|pieces|)
  {
    hide Linked, FilesOk, Holds, Kept, FullButLast, BlocksFor, FileFound;
    ghost var b := sfs.State();
    sfs.ValidIsShaped();
    sfs.FreshIsNoFile();
    BlocksForGrows(0, |pieces|);
    file := sfs.AllocCacheInode(host, 0, TYPE_FILE);
    if file != null {
      ghost var b1 := sfs.State();
      NewFileHolds(WithNumber(b, Inode), file);
      var ok := OpenFile(sfs, file, pieces);
      if !ok {
        return null;
      }
      NewFileKept(b, file, b1, pieces, sfs.State());
      assert sfs.fileAt == b1.fileAt;
    }
  }

  /** The first half of add_file: the file of the host inode, read in if it is new. */
  method FindFile(sfs: Sfs, host: nat, pieces: seq<seq<nat>>) returns (file: CacheInode?)
    requires sfs.Valid() && forall i | 0 <= i < |pieces| :: 0 < |pieces[i]| <= BLKSIZE
    modifies sfs`nextIno, sfs`unused, sfs`uses, sfs`blocks, sfs`blockAt, sfs`contents, sfs`disk, sfs`data
    modifies sfs`inodes, sfs`fileAt, sfs`recent, sfs.blockAt.Values
    ensures forall c | c in sfs.blockAt.Values :: c in old(sfs.blockAt.Values) || fresh(c)
    ensures file != null ==> (file in old(sfs.fileAt.Values) || fresh(file)) && FilesStay(old(sfs.fileAt), sfs.fileAt)
    ensures file != null ==>
            sfs.Valid() && sfs.HasFile(file) && FileFound(old(sfs.State()), host, pieces, file, sfs.State())
    ensures file != null <==> old(host in sfs.recent) || CanRead(old(sfs.State()), pieces)
    ensures file != null ==>
            sfs.nextIno == old(sfs.nextIno) + if old(host in sfs.recent) then 0 else 1 + BlocksFor(|pieces|)
  {
    hide FilesOk, Holds, CanRead, NumbersOk, BlocksChained, KeptBut, FileFound;
    ghost var b := sfs.State();
    file := sfs.SearchCacheInode(host);
    if file == null {
      file := ReadNewFile(sfs, host, pieces);
    } else {
      sfs.RecentIsFile(host);
      FoundBefore(b, host, pieces);
    }
  }

  lemma FileKeys(sfs: Sfs)
    ensures sfs.State().img.files.Keys == sfs.fileAt.Keys
  {
  }

  lemma FileHasContents(img: Image, f: nat)
    requires FilesOk(img) && f in img.files
    ensures f in img.contents
  {
  }

  lemma FoundKeeps(b: Builder, host: nat, pieces: seq<seq<nat>>, file: CacheInode, b': Builder, f: nat)
    requires FileFound(b, host, pieces, file, b') && f in b.img.files && f in b.img.contents
    ensures f in b'.img.files && b'.img.files[f] == b.img.files[f]
  {
  }

  /** What add_file does in two steps: the file is found, giving b1; the directory dir gets its entry, giving
      b2, and the file one more link. */
  ghost predicate Added(b: Builder, dir: nat, name: seq<nat>, buffer: seq<nat>, host: nat, pieces: seq<seq<nat>>,
                        file: CacheInode, b1: Builder, b2: Builder, b': Builder)
    requires |name| < |buffer| == NAME_BYTES
  {
    && FileFound(b, host, pieces, file, b1) && Linked(b1) && b1.img.files.Keys == b1.fileAt.Keys
    && Put(b1, dir, NAME_BYTES, EntryBytes(file.ino, Copied(name, buffer)), b2)
    && file.ino in b2.img.files && b' == WithFile(b2, file.ino, OneMoreLink(b2.img.files[file.ino]))
  }

  lemma IsAdded(b: Builder, dir: nat, name: seq<nat>, buffer: seq<nat>, host: nat, pieces: seq<seq<nat>>,
                file: CacheInode, b1: Builder, b2: Builder, b': Builder)
    requires |name| < |buffer| == NAME_BYTES
    requires FileFound(b, host, pieces, file, b1) && Linked(b1) && b1.img.files.Keys == b1.fileAt.Keys
    requires Put(b1, dir, NAME_BYTES, EntryBytes(file.ino, Copied(name, buffer)), b2)
    requires file.ino in b2.img.files && b' == WithFile(b2, file.ino, OneMoreLink(b2.img.files[file.ino]))
    ensures Added(b, dir, name, buffer, host, pieces, file, b1, b2, b')
  {
  }

  /** add_file succeeds: the file is known or can be read in, and then there is room for one more block of
      the directory f, with the index blocks that it brings. */
  predicate CanAdd(b: Builder, f: nat, host: nat, pieces: seq<seq<nat>>)
    requires f in b.img.files
  {
    var nblks := b.img.files[f].nblks;
    && (host in b.recent || CanRead(b, pieces))
    && nblks < LN
    && b.img.next + (if host in b.recent then 0 else 1 + BlocksFor(|pieces|)) + 1 + IndexBlocks(nblks) <= b.ninos
  }

  /** The second half of add_file: the entry for the file that was found. */
  method AddFound(sfs: Sfs, current: CacheInode, file: CacheInode, name: seq<nat>, ghost b: Builder, ghost host: nat,
                  ghost pieces: seq<seq<nat>>)
    returns (ok: bool, ghost b2: Builder)
    requires sfs.Valid() && sfs.HasFile(current) && sfs.HasFile(file) && IsName(name) && |sfs.entryName| == NAME_BYTES
    requires FileFound(b, host, pieces, file, sfs.State())
    modifies sfs`nextIno, sfs`unused, sfs`uses, sfs`blocks, sfs`blockAt, sfs`contents, sfs`disk, sfs`data, sfs`entryName
    modifies current, file, sfs.blockAt.Values
    ensures ok <==> old(current.nblks) < LN && old(sfs.nextIno) + 1 + IndexBlocks(old(current.nblks)) <= sfs.ninos
    ensures ok ==> sfs.Valid() && sfs.HasFile(file)
    ensures ok ==>
            Added(b, current.ino, name, old(sfs.entryName), host, pieces, file, old(sfs.State()), b2, sfs.State())
  {
    hide FilesOk, Put, Copied, EntryBytes, FileFound, Added, IndexBlocks, Linked, Sfs.PointersOk;
    ghost var b1, buffer := sfs.State(), sfs.entryName;
    FileKeys(sfs);
    ok, b2 := AddEntry(sfs, current, file, name);
    if ok { IsAdded(b, current.ino, name, buffer, host, pieces, file, b1, b2, sfs.State()); }
  }

  /** add_file: an entry for the file of the host inode, which is read in if it is new. */
  method AddFile(sfs: Sfs, current: CacheInode, name: seq<nat>, host: nat, pieces: seq<seq<nat>>)
    returns (ok: bool, ghost file: CacheInode?, ghost b1: Builder, ghost b2: Builder)
    requires sfs.Valid() && sfs.HasFile(current) && IsName(name) && |sfs.entryName| == NAME_BYTES
    requires forall i | 0 <= i < |pieces| :: 0 < |pieces[i]| <= BLKSIZE
    modifies sfs`nextIno, sfs`unused, sfs`uses, sfs`blocks, sfs`blockAt, sfs`contents, sfs`disk, sfs`data, sfs`entryName
    modifies sfs`inodes, sfs`fileAt, sfs`recent, sfs.blockAt.Values, sfs.fileAt.Values
    ensures ok <==> CanAdd(old(sfs.State()), current.ino, host, pieces)
    ensures ok ==> sfs.Valid() && file != null && sfs.HasFile(file)
    ensures ok ==>
            Added(old(sfs.State()), current.ino, name, old(sfs.entryName), host, pieces, file, b1, b2, sfs.State())
  {
    hide Linked, FilesOk, Holds, CanRead, Put, Copied, EntryBytes, KeptBut, FileFound, BlocksFor, Added, IndexBlocks;
    hide Sfs.PointersOk;
    ghost var b := sfs.State();
    assert b.img.files[current.ino] == current.Value();
    FileHasContents(b.img, current.ino);
    var found := FindFile(sfs, host, pieces);
    file := found;
    b1 := sfs.State();
    b2 := b1;
    if found == null {
      return false, null, b1, b1;
    }
    FoundKeeps(b, host, pieces, found, b1, current.ino);
    assert b1.img.files[current.ino] == current.Value();
    ok, b2 := AddFound(sfs, current, found, name, b, host, pieces);
  }
}
