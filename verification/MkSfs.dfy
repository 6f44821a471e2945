// The image builder: tools/mksfs.c.
module MkSfs {
  import opened DiskWords
  import opened SfsImage

  const BUCKETS: nat := 1024
  const BLKN_ROOT: nat := 1
  const BLKN_FREEMAP: nat := 2
  const NAME_BYTES: nat := 256
  const MAGIC: nat := 0x2f8d_be2a
  const TYPE_FILE: nat := 1
  const TYPE_DIR: nat := 2

  function Hash32(val: nat): (h: nat)
    ensures h < BUCKETS
  {
    val * 0x9e37_0001 % U32 / 0x40_0000
  }

  /** Values of the hash function, the factor being 0x9e370001 and the ten highest of 32 bits the result. */
  lemma HashValues()
    ensures Hash32(0) == 0 && Hash32(1) == 632 && Hash32(3) == 874 && Hash32(0x1234_5678) == 727
    ensures Hash64(0x1_0000_0003) == 874
  {
  }

  function Hash64(val: nat): (h: nat)
    ensures h < BUCKETS
  {
    Hash32(val % U32)
  }

  class CacheBlock {
    const ino: nat
    var cache: seq<nat>

    constructor (ino: nat)
      ensures this.ino == ino && cache == Zeros(NENTRY)
    {
      this.ino := ino;
      cache := Zeros(NENTRY);
    }
  }

  class CacheInode {
    const host: nat
    const ino: nat
    const kind: nat
    var size: nat
    var nlinks: nat
    var blocks: nat
    var direct: seq<nat>
    var indirect: nat
    var dbIndirect: nat
    var nblks: nat
    var l1: CacheBlock?
    var l2: CacheBlock?

    constructor (host: nat, ino: nat, kind: nat)
      ensures this.host == host && this.ino == ino && this.kind == kind && l1 == null && l2 == null
      ensures Value() == Node(0, kind, 0, 0, Zeros(L0), 0, 0, 0, 0, 0)
    {
      this.host, this.ino, this.kind := host, ino, kind;
      size, nlinks, blocks, direct, indirect, dbIndirect := 0, 0, 0, Zeros(L0), 0, 0;
      nblks, l1, l2 := 0, null, null;
    }

    ghost function Value(): Node
      reads this
    {
      Node(size, kind, nlinks, blocks, direct, indirect, dbIndirect, nblks,
           if l1 == null then 0 else l1.ino, if l2 == null then 0 else l2.ino)
    }
  }

  /** The block of a chain with the given number, and the first inode for the given host inode. */
  function BlockIn(chain: seq<CacheBlock>, ino: nat): (cb: CacheBlock?)
    ensures cb != null ==> cb in chain && cb.ino == ino
    ensures cb == null ==> forall d | d in chain :: d.ino != ino
  {
    if chain == [] then null else if chain[0].ino == ino then chain[0] else BlockIn(chain[1..], ino)
  }

  function FirstOf(chain: seq<CacheInode>, host: nat): (c: CacheInode?)
    ensures c != null ==> c in chain && c.host == host
    ensures c == null ==> forall d | d in chain :: d.host != host
  {
    if chain == [] then null else if chain[0].host == host then chain[0] else FirstOf(chain[1..], host)
  }

  // ---------- the state as a value ----------

  datatype Builder = Builder(ninos: nat, unused: nat, inodes: seq<seq<CacheInode>>, blocks: seq<seq<CacheBlock>>,
                             disk: map<nat, seq<nat>>, data: map<nat, seq<nat>>,
                             blockAt: map<nat, CacheBlock>, fileAt: map<nat, CacheInode>, recent: map<nat, CacheInode>,
                             img: Image)

  /** The cached blocks and inodes are kept by the number of the disk block they are written to. */
  ghost predicate Keyed(blockAt: map<nat, CacheBlock>, fileAt: map<nat, CacheInode>) {
    && (forall n | n in blockAt :: blockAt[n].ino == n)
    && (forall f | f in fileAt :: fileAt[f].ino == f && fileAt[f].kind < U16)
  }

  predicate KeptBlock(blockAt: map<nat, CacheBlock>, cb: CacheBlock) {
    cb.ino in blockAt && blockAt[cb.ino] == cb
  }

  predicate KeptInode(fileAt: map<nat, CacheInode>, c: CacheInode) {
    c.ino in fileAt && fileAt[c.ino] == c
  }

  /** The chains hold exactly the cached blocks, every one of them in the chain of 0. */
  ghost predicate BlocksChained(blocks: seq<seq<CacheBlock>>, blockAt: map<nat, CacheBlock>) {
    && |blocks| == BUCKETS
    && (forall n | n in blockAt :: blockAt[n] in blocks[0])
    && (forall i | 0 <= i < |blocks[0]| :: KeptBlock(blockAt, blocks[0][i]))
       && (forall h | 0 < h < BUCKETS :: blocks[h] == [])
  }

  ghost predicate InodesChained(inodes: seq<seq<CacheInode>>, fileAt: map<nat, CacheInode>,
                                recent: map<nat, CacheInode>) {
    && |inodes| == BUCKETS
    && (forall f | f in fileAt :: fileAt[f] in inodes[Hash64(fileAt[f].host)])
    && (forall h, i | 0 <= h < BUCKETS && 0 <= i < |inodes[h]| ::
        h == Hash64(inodes[h][i].host) && KeptInode(fileAt, inodes[h][i]))
    && (forall host: nat :: IsRecent(inodes, recent, host))
  }

  ghost predicate IsRecent(inodes: seq<seq<CacheInode>>, recent: map<nat, CacheInode>, host: nat)
    requires |inodes| == BUCKETS
  {
    FirstOf(inodes[Hash64(host)], host) == if host in recent then recent[host] else null
  }

  ghost predicate DataWritten(data: map<nat, seq<nat>>, disk: map<nat, seq<nat>>, uses: Uses) {
    forall n | n in data ::
      n in uses && uses[n].Data? && n in disk && |data[n]| <= BLKSIZE && disk[n] == Padded(data[n])
  }

  /** The blocks that the bitmap of free blocks takes. */
  function MapBlocks(ninos: nat): nat {
    (ninos + BLKBITS - 1) / BLKBITS
  }

  ghost predicate CountsOk(ninos: nat, next: nat, unused: nat) {
    BLKN_FREEMAP < next && BLKN_FREEMAP + MapBlocks(ninos) <= next <= ninos <= MAX_NBLKS && unused + next == ninos
  }

  ghost predicate MapReserved(ninos: nat, uses: Uses) {
    forall n | BLKN_FREEMAP <= n < BLKN_FREEMAP + MapBlocks(ninos) :: UsedAs(uses, n, Reserved)
  }

  /** Everything but the index structure of the files. */
  ghost predicate Linked(b: Builder) {
    && CountsOk(b.ninos, b.img.next, b.unused) && Keyed(b.blockAt, b.fileAt)
    && BlocksChained(b.blocks, b.blockAt) && InodesChained(b.inodes, b.fileAt, b.recent)
    && DataWritten(b.data, b.disk, b.img.uses) && NumbersOk(b.img) && MapReserved(b.ninos, b.img.uses)
  }

  function FirstUse(n: nat): Use {
    if n == BLKN_ROOT then Inode else Reserved
  }

  class Sfs {
    var ninos: nat
    var nextIno: nat
    var unused: nat
    var inodes: seq<seq<CacheInode>>
    var blocks: seq<seq<CacheBlock>>
    var disk: map<nat, seq<nat>>

    /** The name part of the static directory entry in add_entry. */
    var entryName: seq<nat>

    ghost var uses: Uses
    ghost var contents: map<nat, seq<nat>>
    ghost var blockAt: map<nat, CacheBlock>
    ghost var fileAt: map<nat, CacheInode>
    /** The bytes written to the data blocks. */
    ghost var data: map<nat, seq<nat>>
    /** The inode most recently cached for each host inode. */
    ghost var recent: map<nat, CacheInode>

    ghost function Cached(): Cached
      reads `blockAt, blockAt.Values
    {
      map n | n in blockAt :: blockAt[n].cache
    }

    ghost function Files(): map<nat, Node>
      reads `fileAt, fileAt.Values
    {
      map f | f in fileAt :: fileAt[f].Value()
    }

    ghost function Img(): Image
      reads `nextIno, `uses, `contents, `blockAt, `fileAt, blockAt.Values, fileAt.Values
    {
      Image(nextIno, uses, Files(), Cached(), contents)
    }

    ghost function State(): Builder
      reads `ninos, `nextIno, `unused, `inodes, `blocks, `disk, `uses, `contents, `blockAt, `fileAt, `data, `recent
      reads blockAt.Values, fileAt.Values
    {
      Builder(ninos, unused, inodes, blocks, disk, data, blockAt, fileAt, recent, Img())
    }

    ghost predicate PointsAt(cb: CacheBlock?)
      reads `blockAt
    {
      cb != null ==> cb.ino in blockAt && blockAt[cb.ino] == cb
    }

    ghost predicate PointersOk()
      reads `blockAt, `fileAt, blockAt.Values, fileAt.Values
    {
      && (forall n | n in blockAt :: |blockAt[n].cache| == NENTRY)
      && (forall f | f in fileAt :: PointsAt(fileAt[f].l1) && PointsAt(fileAt[f].l2))
    }

    ghost predicate Valid()
      reads `ninos, `nextIno, `unused, `inodes, `blocks, `disk, `uses, `contents, `blockAt, `fileAt, `data, `recent
      reads blockAt.Values, fileAt.Values
    {
      Linked(State()) && FilesOk(Img()) && PointersOk()
    }

    /** What single steps need of the state; between the steps of append_block it holds too. */
    ghost predicate Shaped()
      reads this, blockAt.Values, fileAt.Values
    {
      && CountsOk(ninos, nextIno, unused) && |blocks| == BUCKETS && Keyed(blockAt, fileAt) && PointersOk()
      && (forall n | n in blockAt :: 0 < n < nextIno) && (forall n | n in uses :: n < nextIno)
    }

    ghost predicate HasFile(file: CacheInode)
      reads `fileAt
    {
      file.ino in fileAt && fileAt[file.ino] == file
    }

    /** The start of create_sfs: the superblock, the root's inode and the bitmap have their numbers. */
    constructor (ninos: nat, next: nat, disk: map<nat, seq<nat>>)
      requires 0 < ninos && next == BLKN_FREEMAP + MapBlocks(ninos) && next <= ninos <= MAX_NBLKS
      ensures Valid() && this.ninos == ninos && nextIno == next && this.disk == disk && |entryName| == NAME_BYTES
      ensures blockAt == map[] && fileAt == map[] && data == map[] && recent == map[] && contents == map[]
      ensures UsedAs(uses, BLKN_ROOT, Inode)
    {
      this.ninos, nextIno, unused, this.disk := ninos, next, ninos - next, disk;
      entryName := Zeros(NAME_BYTES);
      inodes, blocks := seq(BUCKETS, _ => []), seq(BUCKETS, _ => []);
      uses := map n: nat | n < next :: FirstUse(n);
      contents, blockAt, fileAt, data, recent := map[], map[], map[], map[], map[];
    }

    /** sfs_alloc_ino; without a result where it reports that the disk is full. */
    method AllocIno(ghost u: Use) returns (ok: bool, ino: nat)
      requires Shaped()
      modifies this`nextIno, this`unused, this`uses
      ensures ok <==> old(nextIno) < ninos
      ensures ok ==> ino == old(nextIno) && State() == WithNumber(old(State()), u)
      ensures !ok ==> State() == old(State())
      ensures Shaped()
    {
      if nextIno < ninos {
        unused := unused - 1;
        ok, ino := true, nextIno;
        nextIno := nextIno + 1;
        uses := uses[ino := u];
        assert Files() == old(Files()) && Cached() == old(Cached());
      } else {
        ok, ino := false, 0;
      }
    }

    /** The end of alloc_cache_block: a zeroed block of the given number at the head of chain h. */
    method EnlistBlock(n: nat, h: nat) returns (cb: CacheBlock)
      requires Shaped() && n !in blockAt && 0 < n < nextIno && h < BUCKETS
      modifies this`blocks, this`blockAt
      ensures fresh(cb) && cb.ino == n && State() == WithBlock(old(State()), h, cb)
      ensures Shaped() && PointsAt(cb)
    {
      cb := new CacheBlock(n);
      blocks := blocks[h := [cb] + blocks[h]];
      blockAt := blockAt[n := cb];
      assert Cached() == old(Cached())[n := Zeros(NENTRY)];
      assert Files() == old(Files());
    }

    /** alloc_cache_block: the block goes to the chain of the number asked for, not of its own number. */
    method AllocCacheBlock(ino: nat, ghost u: Use) returns (cb: CacheBlock?)
      requires Shaped() && ino !in blockAt && ino < nextIno
      modifies this`nextIno, this`unused, this`uses, this`blocks, this`blockAt
      ensures cb == null <==> ino == 0 && old(nextIno) >= ninos
      ensures cb == null ==> State() == old(State())
      ensures cb != null ==> fresh(cb) && cb.ino == if ino == 0 then old(nextIno) else ino
      ensures cb != null ==>
                State() == WithBlock(if ino == 0 then WithNumber(old(State()), u) else old(State()), Hash32(ino), cb)
      ensures Shaped() && PointsAt(cb)
    {
      var n := ino;
      if ino == 0 {
        var ok;
        ok, n := AllocIno(u);
        if !ok {
          return null;
        }
      }
      cb := EnlistBlock(n, Hash32(ino));
    }

    /** search_cache_block */
    method SearchCacheBlock(ino: nat) returns (cb: CacheBlock?)
      requires |blocks| == BUCKETS
      ensures cb == BlockIn(blocks[Hash32(ino)], ino)
    {
      var chain := blocks[Hash32(ino)];
      while chain != [] && chain[0].ino != ino
        invariant BlockIn(chain, ino) == BlockIn(blocks[Hash32(ino)], ino)
        decreases |chain|
      {
        chain := chain[1..];
      }
      cb := if chain == [] then null else chain[0];
    }

    /** update_cache, on the pointer cb and a slot that holds ino; without a result where the disk is
        full. Its assertion needs that the search, if it comes to one, finds the block. */
    method UpdateCache(cb: CacheBlock?, ino: nat, ghost u: Use) returns (cb': CacheBlock?)
      requires Shaped() && PointsAt(cb)
      requires ino != 0 && !(cb != null && cb.ino == ino) ==>
                 BlockIn(blocks[Hash32(ino)], ino) != null && PointsAt(BlockIn(blocks[Hash32(ino)], ino))
      modifies this`nextIno, this`unused, this`uses, this`blocks, this`blockAt
      ensures Shaped() && PointsAt(cb')
      ensures cb' == null <==> ino == 0 && old(nextIno) >= ninos
      ensures cb' == null || ino != 0 ==> State() == old(State())
      ensures cb' != null && ino == 0 ==>
                fresh(cb') && cb'.ino == old(nextIno)
                && State() == WithBlock(WithNumber(old(State()), u), Hash32(0), cb')
      ensures ino != 0 ==>
              cb'.ino == ino && cb' == if cb != null && cb.ino == ino then cb else BlockIn(blocks[Hash32(ino)], ino)
    {
      cb' := cb;
      if ino == 0 {
        cb' := AllocCacheBlock(0, u);
      } else if cb == null || cb.ino != ino {
        cb' := SearchCacheBlock(ino);
      }
    }

    // ---------- append_block ----------

    /** A word of a cached index block is written. */
    method StoreWord(cb: CacheBlock, k: nat, n: nat)
      requires Shaped() && PointsAt(cb) && k < NENTRY
      modifies cb
      ensures Shaped() && State() == WithCached(old(State()), Stored(old(Cached()), cb.ino, k, n))
    {
      ghost var cached := Cached();
      cb.cache := cb.cache[k := n];
      forall m | m in blockAt ensures blockAt[m].cache == Stored(cached, cb.ino, k, n)[m] {
        assert blockAt[m].ino == m;
      }
      assert Cached() == Stored(cached, cb.ino, k, n);
      assert Files() == old(Files());
    }

    /** The fields of an inode are set; the object is known to be file. */
    lemma FileWritten(file: CacheInode, files: map<nat, Node>)
      requires HasFile(file) && Keyed(blockAt, fileAt) && files.Keys == fileAt.Keys
      requires forall f | f in fileAt && fileAt[f] != file :: files[f] == fileAt[f].Value()
      ensures Files() == files[file.ino := file.Value()]
    {
      forall f | f in fileAt ensures Files()[f] == files[file.ino := file.Value()][f] {
        assert fileAt[f].ino == f;
      }
    }

    method SetIndirect(file: CacheInode, cb: CacheBlock)
      requires Shaped() && HasFile(file) && PointsAt(cb)
      modifies file
      ensures Shaped() && State() == WithFile(old(State()), file.ino,
                                              old(file.Value()).(indirect := cb.ino, l1 := cb.ino))
      ensures file.l1 == cb && file.nblks == old(file.nblks)
    {
      file.l1, file.indirect := cb, cb.ino;
      FileWritten(file, old(Files()));
      assert Cached() == old(Cached());
    }

    method SetDouble(file: CacheInode, cb: CacheBlock)
      requires Shaped() && HasFile(file) && PointsAt(cb)
      modifies file
      ensures Shaped() && BuilderKept(old(State()), State()) && Img() == EnteredDouble(old(Img()), file.ino, cb.ino)
      ensures file.l2 == cb && file.dbIndirect == cb.ino && file.l1 == old(file.l1) && file.nblks == old(file.nblks)
    {
      file.l2, file.dbIndirect := cb, cb.ino;
      FileWritten(file, old(Files()));
      assert Cached() == old(Cached());
    }

    method SetTable(file: CacheInode, cb: CacheBlock)
      requires Shaped() && HasFile(file) && PointsAt(cb)
      modifies file
      ensures Shaped() && State() == WithFile(old(State()), file.ino, old(file.Value()).(l1 := cb.ino))
      ensures file.l1 == cb && file.l2 == old(file.l2) && file.nblks == old(file.nblks)
    {
      file.l1 := cb;
      FileWritten(file, old(Files()));
      assert Cached() == old(Cached());
    }

    method SetDirect(file: CacheInode, ino: nat)
      requires Shaped() && HasFile(file) && file.nblks < |file.direct|
      modifies file
      ensures Shaped() && Cached() == old(Cached())
      ensures Files() == old(Files())[file.ino := old(file.Value()).(direct := old(file.direct[file.nblks := ino]))]
    {
      file.direct := file.direct[file.nblks := ino];
      FileWritten(file, old(Files()));
      assert Cached() == old(Cached());
    }

    method PlaceDirect(file: CacheInode, ino: nat)
      requires Shaped() && HasFile(file) && file.nblks < |file.direct|
      modifies file
      ensures Shaped() && BuilderKept(old(State()), State()) && Img() == PlacedDirect(old(Img()), file.ino, ino)
    {
      assert Img().files[file.ino] == file.Value();
      SetDirect(file, ino);
    }

    /** The end of append_block. */
    method CountBlock(file: CacheInode, size: nat)
      requires Shaped() && HasFile(file)
      modifies file
      ensures Shaped() && Cached() == old(Cached())
      ensures Files() == old(Files())[file.ino := Grown(old(Files())[file.ino], size)]
    {
      assert Files()[file.ino] == file.Value();
      file.nblks := file.nblks + 1;
      file.size := (file.size + size) % U32;
      file.blocks := (file.blocks + 1) % U32;
      assert file.Value() == Grown(old(file.Value()), size);
      FileWritten(file, old(Files()));
      assert Cached() == old(Cached());
    }

    /** update_cache where it does not have to search. */
    method FillSlot(cb: CacheBlock?, ino: nat, ghost u: Use) returns (cb': CacheBlock?)
      requires Shaped() && PointsAt(cb) && (ino != 0 ==> cb != null && cb.ino == ino)
      modifies this`nextIno, this`unused, this`uses, this`blocks, this`blockAt
      ensures forall c | c in blockAt.Values :: c in old(blockAt.Values) || fresh(c)
      ensures Shaped() && PointsAt(cb') && (cb' == null <==> ino == 0 && old(nextIno) >= ninos)
      ensures cb' != null ==> cb'.ino == FilledSlot(old(Img()), ino) && Img() == SlotFilled(old(Img()), ino, u)
      ensures BuilderKept(old(State()), State())
      ensures cb' != null ==> cb' == cb || fresh(cb')
    {
      hide BlocksChained;
      ghost var b := State();
      cb' := UpdateCache(cb, ino, u);
      if ino == 0 && cb' != null {
        ChainsGrow(b, u, cb');
      }
    }

    /** The single-indirect case of append_block, once update_cache has found the block. */
    method EnterIndirect(file: CacheInode, cb: CacheBlock, ino: nat)
      requires Shaped() && HasFile(file) && PointsAt(cb) && L0 <= file.nblks < L1
      modifies file, cb
      ensures Shaped() && BuilderKept(old(State()), State()) && file.nblks == old(file.nblks)
      ensures Img() == EnteredIndirect(old(Img()), file.ino, cb.ino, ino)
    {
      ghost var img, node := Img(), file.Value();
      SetIndirect(file, cb);
      assert Img() == img.(files := img.files[file.ino := node.(indirect := cb.ino, l1 := cb.ino)]);
      ghost var img2 := Img();
      StoreWord(file.l1, file.nblks - L0, ino);
      assert Img() == img2.(cached := Stored(img2.cached, cb.ino, node.nblks - L0, ino));
    }

    method PlaceIndirect(file: CacheInode, ino: nat) returns (ok: bool)
      requires Shaped() && HasFile(file) && L0 <= file.nblks < L1
      requires file.indirect != 0 ==> file.l1 != null && file.l1.ino == file.indirect
      modifies this`nextIno, this`unused, this`uses, this`blocks, this`blockAt, file, blockAt.Values
      ensures forall c | c in blockAt.Values :: c in old(blockAt.Values) || fresh(c)
      ensures ok <==> old(file.indirect) != 0 || old(nextIno) < ninos
      ensures BuilderKept(old(State()), State())
      ensures ok ==> Shaped() && file.nblks == old(file.nblks)
      ensures ok ==> Img() == PlacedIndirect(old(Img()), file.ino, ino)
    {
      hide BuilderKept;
      ghost var img, node, b := Img(), file.Value(), State();
      var cb := FillSlot(file.l1, file.indirect, Indirect(file.ino));
      if cb == null {
        return false;
      }
      ghost var b1 := State();
      EnterIndirect(file, cb, ino);
      BuilderKeptTwice(b, b1, State());
      assert img.files[file.ino] == node;
      ok := true;
    }

    /** The first update_cache of the double-indirect case. */
    method PlaceDouble(file: CacheInode) returns (ok: bool)
      requires Shaped() && HasFile(file)
      requires file.dbIndirect != 0 ==> file.l2 != null && file.l2.ino == file.dbIndirect
      modifies this`nextIno, this`unused, this`uses, this`blocks, this`blockAt, file
      ensures forall c | c in blockAt.Values :: c in old(blockAt.Values) || fresh(c)
      ensures ok <==> old(file.dbIndirect) != 0 || old(nextIno) < ninos
      ensures BuilderKept(old(State()), State())
      ensures ok ==>
              Shaped() && HasFile(file) && file.nblks == old(file.nblks) && file.l1 == old(file.l1) && file.l2 != null
      ensures ok ==> Img() == WithDouble(old(Img()), file.ino) && file.l2.ino == file.dbIndirect
      ensures ok ==> nextIno == old(nextIno) + if old(file.dbIndirect) == 0 then 1 else 0
      ensures ok ==> file.l2 == old(file.l2) || fresh(file.l2)
    {
      hide BlocksChained;
      var cb := FillSlot(file.l2, file.dbIndirect, Double(file.ino));
      if cb == null {
        return false;
      }
      SetDouble(file, cb);
      ok := true;
    }

    /** update_cache's stores through its two pointers, into l1 and the double-indirect block. */
    method EnterTable(file: CacheInode, cb: CacheBlock, k: nat)
      requires Shaped() && HasFile(file) && PointsAt(cb) && file.l2 != null && file.l2.ino == file.dbIndirect
               && k < NENTRY
      modifies file, file.l2
      ensures Shaped() && BuilderKept(old(State()), State()) && file.nblks == old(file.nblks) && file.l1 == cb
      ensures Img() == EnteredTable(old(Img()), file.ino, k, cb.ino)
    {
      ghost var img := Img();
      SetTable(file, cb);
      ghost var img2 := Img();
      assert img2 == img.(files := img.files[file.ino := img.files[file.ino].(l1 := cb.ino)]);
      StoreWord(file.l2, k, cb.ino);
      assert Img() == img2.(cached := Stored(img2.cached, file.dbIndirect, k, cb.ino));
    }

    /** The second update_cache of the double-indirect case. */
    method PlaceTable(file: CacheInode, k: nat) returns (ok: bool)
      requires Shaped() && HasFile(file) && k < NENTRY && file.l2 != null && file.l2.ino == file.dbIndirect
      requires file.l2.cache[k] != 0 ==> file.l1 != null && file.l1.ino == file.l2.cache[k]
      modifies this`nextIno, this`unused, this`uses, this`blocks, this`blockAt, file, file.l2
      ensures forall c | c in blockAt.Values :: c in old(blockAt.Values) || fresh(c)
      ensures ok <==> old(file.l2.cache[k]) != 0 || old(nextIno) < ninos
      ensures BuilderKept(old(State()), State())
      ensures ok ==> Shaped() && HasFile(file) && file.nblks == old(file.nblks) && file.l1 != null
      ensures ok ==> Img() == WithTable(old(Img()), file.ino, k)
      ensures ok ==> file.l1 == old(file.l1) || fresh(file.l1)
    {
      hide BlocksChained;
      ghost var slot := CachedWord(Cached(), file.dbIndirect, k);
      assert Cached()[file.dbIndirect] == file.l2.cache;
      var cb := FillSlot(file.l1, file.l2.cache[k], Table(file.ino, k));
      if cb == null {
        return false;
      }
      EnterTable(file, cb, k);
      ok := true;
    }

    /** Both update_caches of the double-indirect case. */
    method PlaceTables(file: CacheInode, k: nat) returns (ok: bool)
      requires Shaped() && HasFile(file) && k < NENTRY
      requires file.dbIndirect != 0 ==> file.l2 != null && file.l2.ino == file.dbIndirect
      requires TableSlotOf(Img(), file.ino, k) != 0 ==>
               file.l1 != null && file.l1.ino == TableSlotOf(Img(), file.ino, k)
      modifies this`nextIno, this`unused, this`uses, this`blocks, this`blockAt, file, blockAt.Values
      ensures forall c | c in blockAt.Values :: c in old(blockAt.Values) || fresh(c)
      ensures ok <==> old(nextIno) + (if old(file.dbIndirect) == 0 then 1 else 0)
                      + (if old(TableSlotOf(Img(), file.ino, k)) == 0 then 1 else 0) <= ninos
      ensures BuilderKept(old(State()), State())
      ensures ok ==> Shaped() && HasFile(file) && file.nblks == old(file.nblks) && file.l1 != null
      ensures ok ==> file.l1 in old(blockAt.Values) || fresh(file.l1)
      ensures ok ==> Img() == WithTable(WithDouble(old(Img()), file.ino), file.ino, k)
    {
      hide BuilderKept, WithDouble, WithTable;
      ghost var slot, b := TableSlotOf(Img(), file.ino, k), State();
      ok := PlaceDouble(file);
      if ok {
        SlotSeen(file, k);
        assert slot == file.l2.cache[k];
        ghost var b1 := State();
        ok := PlaceTable(file, k);
        BuilderKeptTwice(b, b1, State());
      }
    }

    lemma SlotSeen(file: CacheInode, k: nat)
      requires Shaped() && HasFile(file) && file.l2 != null && file.l2.ino == file.dbIndirect && k < NENTRY
      ensures CachedWord(Img().cached, Img().files[file.ino].dbIndirect, k) == file.l2.cache[k]
    {
      assert Cached()[file.dbIndirect] == file.l2.cache;
    }

    /** A block number goes to the table that l1 points at. */
    method EnterBlock(file: CacheInode, r: nat, ino: nat)
      requires Shaped() && HasFile(file) && file.l1 != null && r < NENTRY
      modifies file.l1
      ensures Shaped() && BuilderKept(old(State()), State())
      ensures Img() == EnteredBlock(old(Img()), file.ino, r, ino)
    {
      assert Img().files[file.ino] == file.Value();
      StoreWord(file.l1, r, ino);
    }

    method PlaceInTable(file: CacheInode, k: nat, r: nat, ino: nat) returns (ok: bool)
      requires Shaped() && HasFile(file) && k < NENTRY && r < NENTRY
      requires file.dbIndirect != 0 ==> file.l2 != null && file.l2.ino == file.dbIndirect
      requires TableSlotOf(Img(), file.ino, k) != 0 ==>
               file.l1 != null && file.l1.ino == TableSlotOf(Img(), file.ino, k)
      modifies this`nextIno, this`unused, this`uses, this`blocks, this`blockAt, file, blockAt.Values
      ensures forall c | c in blockAt.Values :: c in old(blockAt.Values) || fresh(c)
      ensures ok <==> old(nextIno) + (if old(file.dbIndirect) == 0 then 1 else 0)
                      + (if old(TableSlotOf(Img(), file.ino, k)) == 0 then 1 else 0) <= ninos
      ensures BuilderKept(old(State()), State())
      ensures ok ==> Shaped() && Img() == PlacedDouble(old(Img()), file.ino, k, r, ino)
    {
      hide BuilderKept, TableSlotOf, WithDouble, WithTable;
      ghost var b := State();
      ok := PlaceTables(file, k);
      if ok {
        ghost var b1 := State();
        EnterBlock(file, r, ino);
        BuilderKeptTwice(b, b1, State());
      }
    }

    /** The three cases of append_block. */
    method PlaceBlock(file: CacheInode, ino: nat) returns (ok: bool)
      requires Shaped() && HasFile(file) && CursorsFit(Img(), file.ino)
      modifies this`nextIno, this`unused, this`uses, this`blocks, this`blockAt, file, blockAt.Values
      ensures forall c | c in blockAt.Values :: c in old(blockAt.Values) || fresh(c)
      ensures ok <==> old(nextIno) + EmptySlots(old(Img()), file.ino) <= ninos
      ensures BuilderKept(old(State()), State())
      ensures ok ==> Shaped() && Img() == Placed(old(Img()), file.ino, ino)
    {
      hide BlocksChained, PlacedDirect, PlacedIndirect, PlacedDouble;
      ghost var img, f := Img(), file.ino;
      assert img.files[f] == file.Value();
      var nblks := file.nblks;
      if nblks < L0 {
        PlaceDirect(file, ino);
        ok := true;
      } else if nblks < L1 {
        ok := PlaceIndirect(file, ino);
      } else {
        ok := PlaceInTable(file, TableIndex(nblks), TableOffset(nblks), ino);
      }
    }

    lemma NextInRange()
      requires Valid()
      ensures nextIno <= ninos
    {
    }

    lemma ValidIsShaped()
      requires Valid()
      ensures Shaped() && NumbersOk(Img()) && fileAt.Keys <= contents.Keys && |inodes| == BUCKETS
    {
      assert forall f | f in fileAt :: f in Img().files;
      forall n | n in blockAt ensures 0 < n < nextIno {
        assert n in Cached();
      }
    }

    ghost method NoteBlock(f: nat, n: nat)
      requires Shaped() && f in contents
      modifies this`contents
      ensures Shaped() && BuilderKept(old(State()), State())
      ensures Img() == old(Img()).(contents := old(contents)[f := old(contents)[f] + [n]])
    {
      contents := contents[f := contents[f] + [n]];
      assert Files() == old(Files()) && Cached() == old(Cached());
    }

    /** The end of append_block. */
    method FinishAppend(file: CacheInode, size: nat, ghost n: nat)
      requires Shaped() && HasFile(file) && file.ino in contents
      modifies file, this`contents
      ensures Shaped() && BuilderKept(old(State()), State())
      ensures Img() == Counted(old(Img()), file.ino, size, n)
    {
      CountBlock(file, size);
      NoteBlock(file.ino, n);
    }

    /** append_block on a file that may still grow. */
    method GrowFile(file: CacheInode, size: nat, ino: nat) returns (ok: bool)
      requires Shaped() && HasFile(file) && CursorsFit(Img(), file.ino) && file.ino in contents
      modifies this`nextIno, this`unused, this`uses, this`blocks, this`blockAt, this`contents, file, blockAt.Values
      ensures forall c | c in blockAt.Values :: c in old(blockAt.Values) || fresh(c)
      ensures ok <==> old(nextIno) + EmptySlots(old(Img()), file.ino) <= ninos
      ensures BuilderKept(old(State()), State())
      ensures ok ==> Shaped() && Img() == Counted(Placed(old(Img()), file.ino, ino), file.ino, size, ino)
      ensures ok ==> nextIno == old(nextIno) + EmptySlots(old(Img()), file.ino)
    {
      hide Placed, EmptySlots, PointersOk, BuilderKept;
      ghost var b := State();
      PlacedNext(Img(), file.ino, ino);
      ok := PlaceBlock(file, ino);
      if ok {
        ghost var b1 := State();
        FinishAppend(file, size, ino);
        BuilderKeptTwice(b, b1, State());
      }
    }

    /** append_block; it fails where the file is as long as a file may be, or the disk is full. */
    method AppendBlock(file: CacheInode, size: nat, ino: nat) returns (ok: bool)
      requires Valid() && HasFile(file) && size <= BLKSIZE && UsedAs(uses, ino, Data(file.ino, file.nblks))
      modifies this`nextIno, this`unused, this`uses, this`blocks, this`blockAt, this`contents, file, blockAt.Values
      ensures forall c | c in blockAt.Values :: c in old(blockAt.Values) || fresh(c)
      ensures ok <==> old(file.nblks) < LN && old(nextIno) + IndexBlocks(old(file.nblks)) <= ninos
      ensures ok ==> Valid() && BuilderKept(old(State()), State())
      ensures ok ==> Appended(old(Img()), file.ino, size, ino, Img())
    {
      if file.nblks >= LN {
        return false;
      }
      hide Linked, FilesOk, Appended, Placed, Counted, BuilderKept, EmptySlots;
      ghost var b := State();
      assert b.img.files[file.ino] == file.Value();
      ValidIsShaped();
      NeverSearches(b.img, file.ino);
      ok := GrowFile(file, size, ino);
      if ok {
        GrownLinked(b, file.ino, size, ino, State());
      }
    }

    // ---------- the disk and the inode cache ----------

    /** write_block */
    method WriteBlock(bytes: seq<nat>, ino: nat)
      requires |bytes| <= BLKSIZE && ino < ninos
      modifies this`disk
      ensures disk == old(disk)[ino := Padded(bytes)]
    {
      disk := disk[ino := Padded(bytes)];
    }

    /** search_cache_inode: the chains behave like one map from host inodes to what was cached last. */
    method SearchCacheInode(host: nat) returns (ci: CacheInode?)
      requires InodesChained(inodes, fileAt, recent)
      ensures ci == if host in recent then recent[host] else null
    {
      var chain := inodes[Hash64(host)];
      assert IsRecent(inodes, recent, host);
      while chain != [] && chain[0].host != host
        invariant FirstOf(chain, host) == FirstOf(inodes[Hash64(host)], host)
        decreases |chain|
      {
        chain := chain[1..];
      }
      ci := if chain == [] then null else chain[0];
    }

    method NewInode(host: nat, n: nat, kind: nat) returns (ci: CacheInode)
      requires Shaped() && n !in fileAt && kind < U16
      modifies this`fileAt
      ensures fresh(ci) && ci.ino == n && ci.host == host && ci.kind == kind && ci.nblks == 0
      ensures Shaped() && HasFile(ci) && fileAt == old(fileAt)[n := ci]
      ensures Files() == old(Files())[n := EmptyNode(kind)] && Cached() == old(Cached())
    {
      ci := new CacheInode(host, n, kind);
      fileAt := fileAt[n := ci];
      assert Files() == old(Files())[n := EmptyNode(kind)];
      assert Cached() == old(Cached());
    }

    /** The inode goes to the head of its chain. */
    method LinkInode(ci: CacheInode)
      requires Shaped() && |inodes| == BUCKETS
      modifies this`inodes, this`recent, this`contents
      ensures Shaped() && Files() == old(Files()) && Cached() == old(Cached())
              && contents == old(contents)[ci.ino := []]
      ensures inodes == old(inodes)[Hash64(ci.host) := [ci] + old(inodes)[Hash64(ci.host)]]
              && recent == old(recent)[ci.host := ci]
    {
      inodes := inodes[Hash64(ci.host) := [ci] + inodes[Hash64(ci.host)]];
      recent := recent[ci.host := ci];
      contents := contents[ci.ino := []];
    }

    lemma RecentIsFile(host: nat)
      requires InodesChained(inodes, fileAt, recent) && host in recent
      ensures HasFile(recent[host])
    {
      assert IsRecent(inodes, recent, host);
      var chain := inodes[Hash64(host)];
      var i :| 0 <= i < |chain| && chain[i] == recent[host];
      assert KeptInode(fileAt, chain[i]);
    }

    /** The end of alloc_cache_inode. */
    method EnlistInode(host: nat, n: nat, kind: nat) returns (ci: CacheInode)
      requires Shaped() && |inodes| == BUCKETS && n !in fileAt && kind < U16
      modifies this`inodes, this`fileAt, this`recent, this`contents
      ensures fresh(ci) && ci.ino == n && ci.host == host && ci.kind == kind && ci.nblks == 0
      ensures Shaped() && HasFile(ci) && Img() == WithEmptyFile(old(Img()), n, kind)
      ensures inodes == old(inodes)[Hash64(host) := [ci] + old(inodes)[Hash64(host)]]
      ensures fileAt == old(fileAt)[n := ci] && recent == old(recent)[host := ci]
    {
      ci := NewInode(host, n, kind);
      LinkInode(ci);
    }

    method CacheInodeAs(host: nat, n: nat, kind: nat) returns (ci: CacheInode)
      requires Valid() && kind < U16 && n !in fileAt && UsedAs(uses, n, Inode)
      modifies this`inodes, this`fileAt, this`recent, this`contents
      ensures fresh(ci) && ci.ino == n && ci.host == host && ci.kind == kind && ci.nblks == 0
      ensures Valid() && HasFile(ci) && State() == WithInode(old(State()), ci)
    {
      ghost var b := State();
      ValidIsShaped();
      ci := EnlistInode(host, n, kind);
      assert State() == WithInode(b, ci);
      InodeEnlisted(b, ci);
    }

    /** The number of a new inode: the one asked for, or a fresh one. */
    method InodeNumber(ino: nat) returns (ok: bool, n: nat)
      requires Valid() && (ino != 0 ==> UsedAs(uses, ino, Inode))
      modifies this`nextIno, this`unused, this`uses
      ensures ok <==> ino != 0 || old(nextIno) < ninos
      ensures State() == if ok && ino == 0 then WithNumber(old(State()), Inode) else old(State())
      ensures Valid() && (ok ==> UsedAs(uses, n, Inode) && n == if ino == 0 then old(nextIno) else ino)
    {
      ghost var b := State();
      ok, n := true, ino;
      if ino == 0 {
        ValidIsShaped();
        NumberTakenKeepsFiles(Img(), Inode);
        ok, n := AllocIno(Inode);
        if ok {
          WithNumberLinked(b, Inode);
        }
      }
    }

    /** alloc_cache_inode; without a result where the disk is full. */
    method AllocCacheInode(host: nat, ino: nat, kind: nat) returns (ci: CacheInode?)
      requires Valid() && kind < U16 && (ino != 0 ==> ino !in fileAt && UsedAs(uses, ino, Inode))
      modifies this`nextIno, this`unused, this`uses, this`inodes, this`fileAt, this`recent, this`contents
      ensures ci == null <==> ino == 0 && old(nextIno) >= ninos
      ensures ci != null ==> Valid() && HasFile(ci) && fresh(ci) && ci.ino == if ino == 0 then old(nextIno) else ino
      ensures ci != null ==> ci.host == host && ci.kind == kind && ci.nblks == 0
      ensures ci != null ==>
                State() == WithInode(if ino == 0 then WithNumber(old(State()), Inode) else old(State()), ci)
    {
      FreshIsNoFile();
      var ok, n := InodeNumber(ino);
      ci := null;
      if ok {
        ci := CacheInodeAs(host, n, kind);
      }
    }

    lemma FreshIsNoFile()
      requires Valid()
      ensures nextIno !in fileAt
    {
      if nextIno in fileAt {
        assert UsedAs(Img().uses, nextIno, Inode) by { assert nextIno in Img().files; }
      }
    }

    /** write_block of a data block. */
    method WriteData(bytes: seq<nat>, n: nat)
      requires Valid() && |bytes| <= BLKSIZE && n in uses && uses[n].Data?
      modifies this`disk, this`data
      ensures Valid() && State() == WithData(old(State()), n, bytes)
    {
      DataLinked(State(), n, bytes);
      StoreData(bytes, n);
    }

    method StoreData(bytes: seq<nat>, n: nat)
      requires |bytes| <= BLKSIZE && n < ninos
      modifies this`disk, this`data
      ensures disk == old(disk)[n := Padded(bytes)] && data == old(data)[n := bytes]
      ensures Img() == old(Img()) && (old(PointersOk()) ==> PointersOk())
    {
      WriteBlock(bytes, n);
      data := data[n := bytes];
    }

    /** sfs_alloc_ino, for a data block. */
    method DataNumber(ghost f: nat, ghost i: nat) returns (ok: bool, n: nat)
      requires Valid()
      modifies this`nextIno, this`unused, this`uses
      ensures Valid() && (ok <==> old(nextIno) < ninos)
      ensures ok ==> n == old(nextIno) && State() == WithNumber(old(State()), Data(f, i))
      ensures !ok ==> State() == old(State())
    {
      ghost var b := State();
      ValidIsShaped();
      NumberTakenKeepsFiles(Img(), Data(f, i));
      ok, n := AllocIno(Data(f, i));
      if ok {
        WithNumberLinked(b, Data(f, i));
      }
    }

    /** One more link to a file. */
    method Link(file: CacheInode)
      requires Shaped() && HasFile(file)
      modifies file
      ensures Shaped() && Cached() == old(Cached())
      ensures Files() == old(Files())[file.ino := OneMoreLink(old(Files())[file.ino])]
    {
      assert Files()[file.ino] == file.Value();
      file.nlinks := (file.nlinks + 1) % U16;
      assert file.Value() == OneMoreLink(old(file.Value()));
      FileWritten(file, old(Files()));
      assert Cached() == old(Cached());
    }

    method LinkFile(file: CacheInode)
      requires Valid() && HasFile(file)
      modifies file
      ensures Valid() && State() == WithFile(old(State()), file.ino, OneMoreLink(old(Files())[file.ino]))
    {
      hide Linked, FilesOk, OneMoreLink;
      ghost var b := State();
      ValidIsShaped();
      Link(file);
      LinkKeeps(b, file.ino);
      assert State() == WithFile(b, file.ino, OneMoreLink(b.img.files[file.ino]));
    }
  }

  /** One more number is in use. */
  ghost function NumberTaken(img: Image, u: Use): Image {
    img.(next := img.next + 1, uses := img.uses[img.next := u])
  }

  ghost function WithNumber(b: Builder, u: Use): Builder {
    b.(unused := if b.unused > 0 then b.unused - 1 else 0, img := NumberTaken(b.img, u))
  }

  ghost function WithBlock(b: Builder, h: nat, cb: CacheBlock): Builder
    requires h < |b.blocks|
  {
    b.(blocks := b.blocks[h := [cb] + b.blocks[h]], blockAt := b.blockAt[cb.ino := cb],
       img := b.img.(cached := b.img.cached[cb.ino := Zeros(NENTRY)]))
  }

  ghost function WithCached(b: Builder, cached: Cached): Builder {
    b.(img := b.img.(cached := cached))
  }

  ghost function WithFile(b: Builder, f: nat, node: Node): Builder {
    b.(img := b.img.(files := b.img.files[f := node]))
  }

  /** Everything but the cached blocks and the image is as before, and the chains are still right. */
  ghost predicate BuilderKept(b: Builder, b': Builder) {
    && b'.ninos == b.ninos && b'.inodes == b.inodes && b'.disk == b.disk && b'.data == b.data
    && b'.fileAt == b.fileAt && b'.recent == b.recent && b'.unused + b'.img.next == b.unused + b.img.next
    && (BlocksChained(b.blocks, b.blockAt) ==> BlocksChained(b'.blocks, b'.blockAt))
  }

  /** Appending a block keeps everything linked, and the files right. */
  lemma GrownLinked(b: Builder, f: nat, size: nat, n: nat, b': Builder)
    requires Linked(b) && FilesOk(b.img) && BuilderKept(b, b') && CountsOk(b'.ninos, b'.img.next, b'.unused)
    requires Keyed(b'.blockAt, b'.fileAt) && f in b.img.files && f in b.img.contents && |b.img.files[f].direct| == L0
    requires b.img.files[f].nblks < LN && UsedAs(b.img.uses, n, Data(f, b.img.files[f].nblks))
    requires b'.img == Counted(Placed(b.img, f, n), f, size, n) && b'.img.next == b.img.next + EmptySlots(b.img, f)
    ensures Linked(b') && FilesOk(b'.img) && Appended(b.img, f, size, n, b'.img)
  {
    hide Placed, Counted, FileRep;
    AppendDone(b.img, f, size, n, b'.img);
    forall m | m in b'.data
      ensures m in b'.img.uses && b'.img.uses[m].Data? && m in b'.disk && |b'.data[m]| <= BLKSIZE
              && b'.disk[m] == Padded(b'.data[m])
    {
      assert UsedAs(b'.img.uses, m, b.img.uses[m]);
    }
    forall n | BLKN_FREEMAP <= n < BLKN_FREEMAP + MapBlocks(b'.ninos) ensures UsedAs(b'.img.uses, n, Reserved) {
      assert UsedAs(b.img.uses, n, Reserved);
    }
  }

  lemma BuilderKeptTwice(b: Builder, b1: Builder, b': Builder)
    requires BuilderKept(b, b1) && BuilderKept(b1, b')
    ensures BuilderKept(b, b')
  {
  }

  lemma ChainsGrow(b: Builder, u: Use, cb: CacheBlock)
    requires |b.blocks| == BUCKETS && cb.ino !in b.blockAt && b.unused > 0
    ensures BuilderKept(b, WithBlock(WithNumber(b, u), Hash32(0), cb))
  {
    if BlocksChained(b.blocks, b.blockAt) { BlocksChainedMore(b.blocks, b.blockAt, cb); }
  }

  lemma BlocksChainedMore(blocks: seq<seq<CacheBlock>>, blockAt: map<nat, CacheBlock>, cb: CacheBlock)
    requires BlocksChained(blocks, blockAt) && cb.ino !in blockAt
    ensures BlocksChained(blocks[0 := [cb] + blocks[0]], blockAt[cb.ino := cb])
  {
    var blocks', blockAt' := blocks[0 := [cb] + blocks[0]], blockAt[cb.ino := cb];
    assert blocks'[0][0] == cb;
    forall n | n in blockAt' ensures blockAt'[n] in blocks'[0] {
      if n != cb.ino {
        var i :| 0 <= i < |blocks[0]| && blocks[0][i] == blockAt[n];
        assert blocks'[0][i + 1] == blockAt[n];
      }
    }
    forall i | 0 < i < |blocks'[0]| ensures KeptBlock(blockAt', blocks'[0][i]) {
      assert KeptBlock(blockAt, blocks[0][i - 1]);
    }
  }

  ghost function WithInode(b: Builder, c: CacheInode): Builder
    requires |b.inodes| == BUCKETS
  {
    var h := Hash64(c.host);
    b.(inodes := b.inodes[h := [c] + b.inodes[h]], fileAt := b.fileAt[c.ino := c], recent := b.recent[c.host := c],
       img := WithEmptyFile(b.img, c.ino, c.kind))
  }

  lemma InodeEnlisted(b: Builder, c: CacheInode)
    requires Linked(b) && FilesOk(b.img) && c.ino !in b.fileAt && c.ino !in b.img.files && c.kind < U16
    requires UsedAs(b.img.uses, c.ino, Inode)
    ensures Linked(WithInode(b, c)) && FilesOk(WithInode(b, c).img)
  {
    InodesChainedMore(b.inodes, b.fileAt, b.recent, c);
    FileAdded(b.img, c.ino, c.kind);
    var b' := WithInode(b, c);
    assert Keyed(b'.blockAt, b'.fileAt);
  }

  lemma InodesChainedMore(inodes: seq<seq<CacheInode>>, fileAt: map<nat, CacheInode>, recent: map<nat, CacheInode>,
                          c: CacheInode)
    requires InodesChained(inodes, fileAt, recent) && c.ino !in fileAt
    ensures var h := Hash64(c.host);
            InodesChained(inodes[h := [c] + inodes[h]], fileAt[c.ino := c], recent[c.host := c])
  {
    var z := Hash64(c.host);
    var inodes', fileAt', recent' := inodes[z := [c] + inodes[z]], fileAt[c.ino := c], recent[c.host := c];
    forall f | f in fileAt' ensures fileAt'[f] in inodes'[Hash64(fileAt'[f].host)] {
      if f == c.ino {
        assert inodes'[z][0] == c;
      } else {
        var h := Hash64(fileAt[f].host);
        var i :| 0 <= i < |inodes[h]| && inodes[h][i] == fileAt[f];
        assert inodes'[h][if h == z then i + 1 else i] == fileAt[f];
      }
    }
    forall h, i | 0 <= h < BUCKETS && 0 <= i < |inodes'[h]|
      ensures h == Hash64(inodes'[h][i].host) && KeptInode(fileAt', inodes'[h][i])
    {
      if h != z || i > 0 {
        assert KeptInode(fileAt, inodes[h][if h == z then i - 1 else i]);
      }
    }
    forall host: nat ensures IsRecent(inodes', recent', host) {
      assert IsRecent(inodes, recent, host);
      if Hash64(host) == z && host != c.host { assert inodes'[z][1..] == inodes[z]; }
    }
  }

  ghost function WithData(b: Builder, n: nat, bytes: seq<nat>): Builder
    requires |bytes| <= BLKSIZE
  {
    b.(disk := b.disk[n := Padded(bytes)], data := b.data[n := bytes])
  }

  lemma DataLinked(b: Builder, n: nat, bytes: seq<nat>)
    requires Linked(b) && |bytes| <= BLKSIZE && n in b.img.uses && b.img.uses[n].Data?
    ensures Linked(WithData(b, n, bytes))
  {
  }

  lemma LinkKeeps(b: Builder, f: nat)
    requires Linked(b) && FilesOk(b.img) && f in b.img.files
    ensures Linked(WithFile(b, f, OneMoreLink(b.img.files[f])))
            && FilesOk(WithFile(b, f, OneMoreLink(b.img.files[f])).img)
  {
    LinkKeepsFiles(b.img, f);
  }

  /** A cached block is found again exactly if its number hashes to 0: alloc_cache_block puts it into the
      chain of its parameter, which is 0, and not of its number. */
  lemma FoundOnlyInChain0(blocks: seq<seq<CacheBlock>>, blockAt: map<nat, CacheBlock>, n: nat)
    requires BlocksChained(blocks, blockAt) && forall m | m in blockAt :: blockAt[m].ino == m
    ensures BlockIn(blocks[Hash32(n)], n) != null <==> n in blockAt && Hash32(n) == 0
  {
    var cb := BlockIn(blocks[Hash32(n)], n);
    if cb != null {
      var h := Hash32(n);
      var i :| 0 <= i < |blocks[h]| && blocks[h][i] == cb;
      assert h == 0 && KeptBlock(blockAt, blocks[0][i]);
    }
  }

  lemma SomeNumberIsLost()
    ensures Hash32(3) != 0
  {
  }

  lemma NumberTakenKeepsFiles(img: Image, u: Use)
    requires NumbersOk(img) && FilesOk(img)
    ensures FilesOk(NumberTaken(img, u))
  {
    var img' := NumberTaken(img, u);
    forall g | g in img'.files
      ensures && g in img'.contents && UsedAs(img'.uses, g, Inode)
              && FileRep(img'.cached, img'.uses, g, img'.files[g], img'.contents[g])
                 && CursorsRight(img'.cached, img'.files[g])
    {
      OtherFileKept(img.cached, img.uses, img'.cached, img'.uses, g, img.files[g], img.contents[g]);
    }
  }

  lemma WithNumberLinked(b: Builder, u: Use)
    requires Linked(b) && b.img.next < b.ninos
    ensures Linked(WithNumber(b, u))
  {
    var uses' := WithNumber(b, u).img.uses;
    forall n | BLKN_FREEMAP <= n < BLKN_FREEMAP + MapBlocks(b.ninos) ensures UsedAs(uses', n, Reserved) {
      assert UsedAs(b.img.uses, n, Reserved);
    }
  }
}
