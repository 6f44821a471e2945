// What the image builder tools/mksfs.c has in memory, as values: inodes, cached index blocks, and
// what every allocated block number is used for.
module SfsImage {
  import opened DiskWords

  const L0: nat := 12
  const L1: nat := L0 + NENTRY
  const LN: nat := 32768
  const MAX_NBLKS: nat := 524288
  const U16: nat := 0x1_0000

  /** A cached inode; cursors are the numbers of the blocks that l1 and l2 point at, 0 for NULL. */
  datatype Node = Node(size: nat, kind: nat, nlinks: nat, blocks: nat, direct: seq<nat>, indirect: nat, dbIndirect: nat,
                       nblks: nat, l1: nat, l2: nat)

  /** The one thing that a block number is used for; f is the number of a file's inode. */
  datatype Use =
    | Reserved
    | Inode
    | Data(f: nat, i: nat)
    | Indirect(f: nat)
    | Double(f: nat)
    | Table(f: nat, k: nat)

  predicate IsIndex(u: Use) {
    u.Indirect? || u.Double? || u.Table?
  }

  type Uses = map<nat, Use>
  type Cached = map<nat, seq<nat>>

  function CachedWord(cached: Cached, n: nat, k: nat): nat {
    if n in cached && k < |cached[n]| then cached[n][k] else 0
  }

  /** The i-th block number of a file, found through the cached index blocks. */
  function Entry(cached: Cached, node: Node, i: nat): nat {
    if i < L0 then (if i < |node.direct| then node.direct[i] else 0)
    else if i < L1 then CachedWord(cached, node.indirect, i - L0)
    else CachedWord(cached, CachedWord(cached, node.dbIndirect, (i - L1) / NENTRY), (i - L1) % NENTRY)
  }

  predicate IsTable(cached: Cached, uses: Uses, n: nat, u: Use) {
    n in cached && |cached[n]| == NENTRY && n in uses && uses[n] == u && n != 0
  }

  predicate UsedAs(uses: Uses, n: nat, u: Use) {
    n in uses && uses[n] == u
  }

  /** The second-level tables that a file of nblks blocks has. */
  function Tables(nblks: nat): nat {
    if nblks <= L1 then 0 else (nblks - L1 + NENTRY - 1) / NENTRY
  }

  ghost predicate TablesAre(cached: Cached, uses: Uses, f: nat, db: nat, count: nat) {
    forall k: nat | k < NENTRY ::
      if k < count then IsTable(cached, uses, CachedWord(cached, db, k), Table(f, k))
        else CachedWord(cached, db, k) == 0
  }

  ghost predicate EntriesAre(cached: Cached, uses: Uses, f: nat, node: Node, blocks: seq<nat>) {
    forall i: nat | i < |blocks| :: Entry(cached, node, i) == blocks[i] && UsedAs(uses, blocks[i], Data(f, i))
  }

  /** The inode and its index blocks hold exactly the given block numbers, in order. */
  ghost predicate FileRep(cached: Cached, uses: Uses, f: nat, node: Node, blocks: seq<nat>) {
    && |blocks| == node.nblks == node.blocks <= LN && |node.direct| == L0
    && EntriesAre(cached, uses, f, node, blocks)
    && (if node.nblks <= L0 then node.indirect == 0 else IsTable(cached, uses, node.indirect, Indirect(f)))
    && (if node.nblks <= L1 then node.dbIndirect == 0
        else
          && IsTable(cached, uses, node.dbIndirect, Double(f))
          && TablesAre(cached, uses, f, node.dbIndirect, Tables(node.nblks)))
  }

  /** The cached l1 and l2 blocks are the ones the last appended entry went into. */
  predicate CursorsRight(cached: Cached, node: Node) {
    && (node.nblks > L0 ==> node.l1 == if node.nblks <= L1 then node.indirect
                                       else CachedWord(cached, node.dbIndirect, (node.nblks - 1 - L1) / NENTRY))
    && (node.nblks > L1 ==> node.l2 == node.dbIndirect)
  }

  // ---------- update_cache ----------

  /** What update_cache does to a slot: an index block with number t is used as u. A slot holding 0
      gets a fresh, zeroed one. */
  ghost predicate SlotHas(cached: Cached, uses: Uses, slot: nat, u: Use, t: nat, cached': Cached, uses': Uses) {
    if slot == 0 then t !in cached && t !in uses && t != 0 && cached' == cached[t := Zeros(NENTRY)]
      && uses' == uses[t := u]
    else t == slot && cached' == cached && uses' == uses
  }

  /** The slot that the next block needs first: the indirect or double-indirect slot of the inode. */
  lemma InodeSlot(cached: Cached, uses: Uses, f: nat, node: Node, blocks: seq<nat>)
    requires FileRep(cached, uses, f, node, blocks) && CursorsRight(cached, node)
    ensures L0 <= node.nblks < L1 && node.indirect != 0 ==> node.l1 == node.indirect
    ensures L1 <= node.nblks && node.dbIndirect != 0 ==> node.l2 == node.dbIndirect
  {
  }

  /** update_cache never has to search: the slot in the double-indirect block is 0, or the cached l1
      is the block that it names. */
  lemma TableSlot(cached: Cached, uses: Uses, f: nat, node: Node, blocks: seq<nat>)
    requires FileRep(cached, uses, f, node, blocks) && CursorsRight(cached, node) && L1 < node.nblks < LN
    ensures var s := CachedWord(cached, node.dbIndirect, (node.nblks - L1) / NENTRY); s == 0 || node.l1 == s
  {
    var k := (node.nblks - L1) / NENTRY;
    assert k < NENTRY;
    if k < Tables(node.nblks) {
      assert (node.nblks - 1 - L1) / NENTRY == k;
    }
  }

  // ---------- append_block, by the level the block goes to ----------

  function Grown(node: Node, size: nat): Node {
    node.(size := (node.size + size) % U32, blocks := (node.blocks + 1) % U32, nblks := node.nblks + 1)
  }

  function Stored(cached: Cached, t: nat, k: nat, n: nat): Cached {
    if t in cached && k < |cached[t]| then
      var words: seq<nat> := cached[t][k := n];
      cached[t := words]
    else cached
  }

  lemma DirectAppended(cached: Cached, uses: Uses, f: nat, node: Node, blocks: seq<nat>, size: nat, n: nat)
    requires FileRep(cached, uses, f, node, blocks) && node.nblks < L0 && UsedAs(uses, n, Data(f, node.nblks))
    ensures var node' := Grown(node.(direct := node.direct[node.nblks := n]), size);
            FileRep(cached, uses, f, node', blocks + [n]) && CursorsRight(cached, node')
  {
    var node' := Grown(node.(direct := node.direct[node.nblks := n]), size);
    forall i: nat | i < |blocks| + 1
      ensures Entry(cached, node', i) == (blocks + [n])[i] && UsedAs(uses, (blocks + [n])[i], Data(f, i))
    {
      if i < |blocks| { assert Entry(cached, node, i) == blocks[i]; }
    }
  }

  lemma IndirectAppended(cached: Cached, uses: Uses, f: nat, node: Node, blocks: seq<nat>, size: nat, n: nat,
                         t: nat, cached1: Cached, uses1: Uses)
    requires FileRep(cached, uses, f, node, blocks) && L0 <= node.nblks < L1
    requires SlotHas(cached, uses, node.indirect, Indirect(f), t, cached1, uses1)
             && UsedAs(uses, n, Data(f, node.nblks))
    ensures var node' := Grown(node.(indirect := t, l1 := t), size);
            var cached' := Stored(cached1, t, node.nblks - L0, n);
            FileRep(cached', uses1, f, node', blocks + [n]) && CursorsRight(cached', node')
  {
    var node' := Grown(node.(indirect := t, l1 := t), size);
    var cached' := Stored(cached1, t, node.nblks - L0, n);
    assert IsTable(cached1, uses1, t, Indirect(f));
    forall i: nat | i < |blocks| + 1
      ensures Entry(cached', node', i) == (blocks + [n])[i] && UsedAs(uses1, (blocks + [n])[i], Data(f, i))
    {
      if i < |blocks| {
        assert Entry(cached, node, i) == blocks[i] && UsedAs(uses, blocks[i], Data(f, i));
      } else {
        assert CachedWord(cached', t, i - L0) == n;
      }
    }
  }

  /** Like FileRep, for a file that has its double-indirect block and room for count tables in use. */
  ghost predicate DoubleRep(cached: Cached, uses: Uses, f: nat, node: Node, blocks: seq<nat>, count: nat) {
    && |blocks| == node.nblks == node.blocks < LN && |node.direct| == L0 && L1 <= node.nblks
    && EntriesAre(cached, uses, f, node, blocks)
    && IsTable(cached, uses, node.indirect, Indirect(f))
    && IsTable(cached, uses, node.dbIndirect, Double(f)) && TablesAre(cached, uses, f, node.dbIndirect, count)
  }

  lemma DoubleReady(cached: Cached, uses: Uses, f: nat, node: Node, blocks: seq<nat>,
                    d: nat, cached1: Cached, uses1: Uses)
    requires FileRep(cached, uses, f, node, blocks) && L1 <= node.nblks < LN
    requires SlotHas(cached, uses, node.dbIndirect, Double(f), d, cached1, uses1)
    ensures DoubleRep(cached1, uses1, f, node.(dbIndirect := d, l2 := d), blocks, Tables(node.nblks))
  {
    var node1 := node.(dbIndirect := d, l2 := d);
    forall i: nat | i < |blocks| ensures Entry(cached1, node1, i) == blocks[i] && UsedAs(uses1, blocks[i], Data(f, i)) {
      assert Entry(cached, node, i) == blocks[i] && UsedAs(uses, blocks[i], Data(f, i));
    }
  }

  /** A table is used by one slot only. */
  lemma TablesDiffer(cached: Cached, uses: Uses, f: nat, db: nat, count: nat, j: nat, k: nat)
    requires TablesAre(cached, uses, f, db, count) && j < count && k < count && count <= NENTRY
    requires CachedWord(cached, db, j) == CachedWord(cached, db, k)
    ensures j == k
  {
    assert IsTable(cached, uses, CachedWord(cached, db, j), Table(f, j));
    assert IsTable(cached, uses, CachedWord(cached, db, k), Table(f, k));
  }

  /** The second update_cache: the table that the next block belongs to. */
  lemma TableReady(cached: Cached, uses: Uses, f: nat, node: Node, blocks: seq<nat>,
                   t: nat, cached1: Cached, uses1: Uses)
    requires DoubleRep(cached, uses, f, node, blocks, Tables(node.nblks))
    requires var k := (node.nblks - L1) / NENTRY;
             SlotHas(cached, uses, CachedWord(cached, node.dbIndirect, k), Table(f, k), t, cached1, uses1)
    ensures var k := (node.nblks - L1) / NENTRY;
            var cached' := Stored(cached1, node.dbIndirect, k, t);
            && DoubleRep(cached', uses1, f, node, blocks, k + 1) && k + 1 == Tables(node.nblks + 1)
            && CachedWord(cached', node.dbIndirect, k) == t
  {
    var d, k := node.dbIndirect, (node.nblks - L1) / NENTRY;
    var cached' := Stored(cached1, d, k, t);
    assert k < NENTRY;
    assert d in cached1 && cached1[d] == cached[d];
    forall j: nat | j < NENTRY
      ensures if j < k + 1 then IsTable(cached', uses1, CachedWord(cached', d, j), Table(f, j))
              else CachedWord(cached', d, j) == 0
    {
      TableReadyAt(cached, uses, f, node, blocks, t, cached1, uses1, j);
    }
    forall i: nat | i < |blocks| ensures Entry(cached', node, i) == blocks[i] && UsedAs(uses1, blocks[i], Data(f, i)) {
      assert Entry(cached, node, i) == blocks[i] && UsedAs(uses, blocks[i], Data(f, i));
      if L1 <= i {
        var j := (i - L1) / NENTRY;
        assert j < Tables(node.nblks);
        assert IsTable(cached, uses, CachedWord(cached, d, j), Table(f, j));
        assert CachedWord(cached', d, j) == CachedWord(cached, d, j);
      }
    }
  }

  lemma TableReadyAt(cached: Cached, uses: Uses, f: nat, node: Node, blocks: seq<nat>,
                     t: nat, cached1: Cached, uses1: Uses, j: nat)
    requires DoubleRep(cached, uses, f, node, blocks, Tables(node.nblks)) && j < NENTRY
    requires var k := (node.nblks - L1) / NENTRY;
             SlotHas(cached, uses, CachedWord(cached, node.dbIndirect, k), Table(f, k), t, cached1, uses1)
    ensures var k := (node.nblks - L1) / NENTRY;
            var cached' := Stored(cached1, node.dbIndirect, k, t);
            if j < k + 1 then IsTable(cached', uses1, CachedWord(cached', node.dbIndirect, j), Table(f, j))
            else CachedWord(cached', node.dbIndirect, j) == 0
  {
    var k := (node.nblks - L1) / NENTRY;
    assert k < NENTRY && Tables(node.nblks) <= k + 1;
    assert j < Tables(node.nblks) ==> IsTable(cached, uses, CachedWord(cached, node.dbIndirect, j), Table(f, j));
    assert k < Tables(node.nblks) ==> IsTable(cached, uses, CachedWord(cached, node.dbIndirect, k), Table(f, k));
  }

  lemma TableAppended(cached: Cached, uses: Uses, f: nat, node: Node, blocks: seq<nat>, size: nat, n: nat, t: nat)
    requires L1 <= node.nblks
    requires var k: nat := (node.nblks - L1) / NENTRY;
             && DoubleRep(cached, uses, f, node, blocks, k + 1) && CachedWord(cached, node.dbIndirect, k) == t
             && node.l2 == node.dbIndirect && k + 1 == Tables(node.nblks + 1)
    requires UsedAs(uses, n, Data(f, node.nblks))
    ensures var node' := Grown(node.(l1 := t), size);
            var cached' := Stored(cached, t, (node.nblks - L1) % NENTRY, n);
            FileRep(cached', uses, f, node', blocks + [n]) && CursorsRight(cached', node')
  {
    var k, d := (node.nblks - L1) / NENTRY, node.dbIndirect;
    var node' := Grown(node.(l1 := t), size);
    var cached' := Stored(cached, t, (node.nblks - L1) % NENTRY, n);
    assert IsTable(cached, uses, t, Table(f, k));
    forall j: nat | j < NENTRY
      ensures CachedWord(cached', d, j) == CachedWord(cached, d, j)
      ensures if j < k + 1 then IsTable(cached', uses, CachedWord(cached', d, j), Table(f, j))
              else CachedWord(cached', d, j) == 0
    {
      assert j < k + 1 ==> IsTable(cached, uses, CachedWord(cached, d, j), Table(f, j));
    }
    forall i: nat | i < |blocks| + 1
      ensures Entry(cached', node', i) == (blocks + [n])[i] && UsedAs(uses, (blocks + [n])[i], Data(f, i))
    {
      if i < |blocks| {
        assert Entry(cached, node, i) == blocks[i] && UsedAs(uses, blocks[i], Data(f, i));
        if L1 <= i {
          var j := (i - L1) / NENTRY;
          assert j <= k;
          if CachedWord(cached, d, j) == t { TablesDiffer(cached, uses, f, d, k + 1, j, k); }
        }
      }
    }
  }

  /** What happens to one file's index blocks leaves every other file as it was. */
  lemma OtherFileKept(cached: Cached, uses: Uses, cached': Cached, uses': Uses, g: nat, node: Node, blocks: seq<nat>)
    requires FileRep(cached, uses, g, node, blocks)
    requires forall n | n in uses :: n in uses' && uses'[n] == uses[n]
    requires forall n | && n in cached && n in uses
                        && (uses[n] == Indirect(g) || uses[n] == Double(g) || (uses[n].Table? && uses[n].f == g)) ::
               n in cached' && cached'[n] == cached[n]
    ensures FileRep(cached', uses', g, node, blocks)
    ensures CursorsRight(cached, node) ==> CursorsRight(cached', node)
  {
    if node.nblks > L1 {
      var d := node.dbIndirect;
      forall k: nat | k < NENTRY
        ensures CachedWord(cached', d, k) == CachedWord(cached, d, k)
        ensures k < Tables(node.nblks) ==> IsTable(cached', uses', CachedWord(cached', d, k), Table(g, k))
      {
        assert k < Tables(node.nblks) ==> IsTable(cached, uses, CachedWord(cached, d, k), Table(g, k));
      }
      assert (node.nblks - 1 - L1) / NENTRY < NENTRY;
    }
    forall i: nat | i < |blocks| ensures Entry(cached', node, i) == blocks[i] && UsedAs(uses', blocks[i], Data(g, i)) {
      assert Entry(cached, node, i) == blocks[i] && UsedAs(uses, blocks[i], Data(g, i));
      if L1 <= i {
        var j := (i - L1) / NENTRY;
        assert j < Tables(node.nblks);
        assert IsTable(cached, uses, CachedWord(cached, node.dbIndirect, j), Table(g, j));
      }
    }
  }

  // ---------- the whole image ----------

  /** next is the first number not handed out; contents gives every file's block numbers in order. */
  datatype Image = Image(next: nat, uses: Uses, files: map<nat, Node>, cached: Cached, contents: map<nat, seq<nat>>)

  ghost predicate FilesOk(img: Image) {
    forall f | f in img.files ::
      && f in img.contents && UsedAs(img.uses, f, Inode)
      && FileRep(img.cached, img.uses, f, img.files[f], img.contents[f]) && CursorsRight(img.cached, img.files[f])
  }

  /** Every number below next has its one use, and no number at or above it occurs anywhere. */
  ghost predicate NumbersOk(img: Image) {
    && 0 < img.next <= MAX_NBLKS
    && (forall n: nat :: n in img.uses <==> n < img.next) && img.uses[0] == Reserved
    && (forall n | n in img.cached :: n in img.uses && IsIndex(img.uses[n]) && WordsBelow(img.cached[n], img.next))
    && (forall f | f in img.files :: WordsBelow(img.files[f].direct, img.next) && SmallNode(img.files[f], img.next))
  }

  predicate WordsBelow(words: seq<nat>, bound: nat) {
    forall k | 0 <= k < |words| :: words[k] < bound
  }

  predicate SmallNode(node: Node, next: nat) {
    node.size < U32 && node.kind < U16 && node.nlinks < U16 && node.blocks < U32 && node.indirect < next
      && node.dbIndirect < next
  }

  /** What append_block does to the image: the file f, and nothing else, gets the block n at its end. */
  ghost predicate Appended(img: Image, f: nat, size: nat, n: nat, img': Image) {
    && f in img.files && f in img.contents && img'.files.Keys == img.files.Keys
    && img'.contents == img.contents[f := img.contents[f] + [n]]
    && (forall g | g in img.files && g != f :: img'.files[g] == img.files[g])
    && img'.files[f].size == (img.files[f].size + size) % U32 && img'.files[f].kind == img.files[f].kind
    && img'.files[f].nlinks == img.files[f].nlinks && img'.files[f].nblks == img.files[f].nblks + 1
    && img'.next == img.next + IndexBlocks(img.files[f].nblks)
    && (forall m | m in img.uses :: UsedAs(img'.uses, m, img.uses[m]))
    && (forall m | m in img'.uses && m !in img.uses :: IsIndex(img'.uses[m]) && img'.uses[m].f == f)
    && (forall m | m in img.cached && m in img.uses && IsIndex(img.uses[m]) && img.uses[m].f != f ::
          m in img'.cached && img'.cached[m] == img.cached[m])
  }

  /** The index blocks that must be made when a file of nblks blocks grows by one. */
  function IndexBlocks(nblks: nat): nat {
    if nblks == L0 then 1
    else if nblks < L1 then 0
    else (if nblks == L1 then 1 else 0) + (if (nblks - L1) % NENTRY == 0 then 1 else 0)
  }

  lemma AppendedFilesOk(img: Image, f: nat, size: nat, n: nat, img': Image)
    requires FilesOk(img) && Appended(img, f, size, n, img')
    requires FileRep(img'.cached, img'.uses, f, img'.files[f], img'.contents[f])
             && CursorsRight(img'.cached, img'.files[f])
    ensures FilesOk(img')
  {
    forall g | g in img'.files
      ensures && g in img'.contents && UsedAs(img'.uses, g, Inode)
              && FileRep(img'.cached, img'.uses, g, img'.files[g], img'.contents[g])
                 && CursorsRight(img'.cached, img'.files[g])
    {
      if g != f {
        OtherFileKept(img.cached, img.uses, img'.cached, img'.uses, g, img.files[g], img.contents[g]);
      }
    }
  }

  // ---------- append_block as a function on images ----------

  /** The number of the index block that update_cache finds or makes for a slot. */
  function FilledSlot(img: Image, slot: nat): nat {
    if slot == 0 then img.next else slot
  }

  function SlotFilled(img: Image, slot: nat, u: Use): Image {
    if slot == 0 then
      img.(next := img.next + 1, uses := img.uses[img.next := u], cached := img.cached[img.next := Zeros(NENTRY)])
    else img
  }

  function PlacedDirect(img: Image, f: nat, n: nat): Image
    requires f in img.files && img.files[f].nblks < |img.files[f].direct|
  {
    var node := img.files[f];
    img.(files := img.files[f := node.(direct := node.direct[node.nblks := n])])
  }

  function EnteredIndirect(img: Image, f: nat, t: nat, n: nat): Image
    requires f in img.files && L0 <= img.files[f].nblks
  {
    var node := img.files[f];
    img.(files := img.files[f := node.(indirect := t, l1 := t)], cached := Stored(img.cached, t, node.nblks - L0, n))
  }

  function PlacedIndirect(img: Image, f: nat, n: nat): Image
    requires f in img.files && L0 <= img.files[f].nblks
  {
    var slot := img.files[f].indirect;
    EnteredIndirect(SlotFilled(img, slot, Indirect(f)), f, FilledSlot(img, slot), n)
  }

  function EnteredDouble(img: Image, f: nat, d: nat): Image
    requires f in img.files
  {
    img.(files := img.files[f := img.files[f].(dbIndirect := d, l2 := d)])
  }

  function EnteredTable(img: Image, f: nat, k: nat, t: nat): Image
    requires f in img.files
  {
    img.(files := img.files[f := img.files[f].(l1 := t)], cached := Stored(img.cached, img.files[f].dbIndirect, k, t))
  }

  function WithDouble(img: Image, f: nat): Image
    requires f in img.files
  {
    var slot := img.files[f].dbIndirect;
    EnteredDouble(SlotFilled(img, slot, Double(f)), f, FilledSlot(img, slot))
  }

  function WithTable(img: Image, f: nat, k: nat): Image
    requires f in img.files
  {
    var slot := CachedWord(img.cached, img.files[f].dbIndirect, k);
    EnteredTable(SlotFilled(img, slot, Table(f, k)), f, k, FilledSlot(img, slot))
  }

  function EnteredBlock(img: Image, f: nat, r: nat, n: nat): Image
    requires f in img.files
  {
    img.(cached := Stored(img.cached, img.files[f].l1, r, n))
  }

  function PlacedDouble(img: Image, f: nat, k: nat, r: nat, n: nat): Image
    requires f in img.files
  {
    EnteredBlock(WithTable(WithDouble(img, f), f, k), f, r, n)
  }

  function Placed(img: Image, f: nat, n: nat): Image
    requires f in img.files && |img.files[f].direct| == L0
  {
    var i := img.files[f].nblks;
    if i < L0 then PlacedDirect(img, f, n) else if i < L1 then PlacedIndirect(img, f, n)
      else PlacedDouble(img, f, TableIndex(i), TableOffset(i), n)
  }

  function Counted(img: Image, f: nat, size: nat, n: nat): Image
    requires f in img.files && f in img.contents
  {
    img.(files := img.files[f := Grown(img.files[f], size)], contents := img.contents[f := img.contents[f] + [n]])
  }

  /** The table of a file's block i beyond the single-indirect ones, and the place in it. */
  function TableIndex(i: nat): (k: nat)
    requires L1 <= i
    ensures i < LN ==> k < NENTRY
  {
    (i - L1) / NENTRY
  }

  function TableOffset(i: nat): (r: nat)
    requires L1 <= i
    ensures r < NENTRY
  {
    (i - L1) % NENTRY
  }

  /** What the second update_cache of the double-indirect case finds in its slot. */
  function TableSlotOf(img: Image, f: nat, k: nat): nat
    requires f in img.files
  {
    var img1 := WithDouble(img, f);
    CachedWord(img1.cached, img1.files[f].dbIndirect, k)
  }

  /** The number of update_cache's slots that are empty when the file f grows. */
  function EmptySlots(img: Image, f: nat): nat
    requires f in img.files
  {
    var node := img.files[f];
    if node.nblks < L0 then 0
    else if node.nblks < L1 then (if node.indirect == 0 then 1 else 0)
    else (if node.dbIndirect == 0 then 1 else 0) + if TableSlotOf(img, f, TableIndex(node.nblks)) == 0 then 1 else 0
  }

  /** Where update_cache finds a slot filled, the cached pointer names that very block. */
  ghost predicate CursorsFit(img: Image, f: nat)
    requires f in img.files
  {
    var node := img.files[f];
    && |node.direct| == L0 && node.nblks < LN
    && (L0 <= node.nblks < L1 && node.indirect != 0 ==> node.l1 == node.indirect)
    && (L1 <= node.nblks && node.dbIndirect != 0 ==> node.l2 == node.dbIndirect)
    && (L1 <= node.nblks ==> var s := TableSlotOf(img, f, TableIndex(node.nblks)); s != 0 ==> node.l1 == s)
  }

  /** So append-only use never makes update_cache search, and the empty slots are those at the edges. */
  lemma NeverSearches(img: Image, f: nat)
    requires NumbersOk(img) && FilesOk(img) && f in img.files && img.files[f].nblks < LN
    ensures CursorsFit(img, f) && EmptySlots(img, f) == IndexBlocks(img.files[f].nblks)
  {
    var node, blocks := img.files[f], img.contents[f];
    assert FileRep(img.cached, img.uses, f, node, blocks);
    InodeSlot(img.cached, img.uses, f, node, blocks);
    if node.nblks > L1 {
      TableSlot(img.cached, img.uses, f, node, blocks);
      var k := (node.nblks - L1) / NENTRY;
      assert k < NENTRY;
      assert k < Tables(node.nblks) ==>
             IsTable(img.cached, img.uses, CachedWord(img.cached, node.dbIndirect, k), Table(f, k));
      assert k < Tables(node.nblks) <==> (node.nblks - L1) % NENTRY != 0;
    }
  }

  ghost predicate Growing(img: Image, f: nat, n: nat) {
    && NumbersOk(img) && FilesOk(img) && f in img.files && img.files[f].nblks < LN
    && UsedAs(img.uses, n, Data(f, img.files[f].nblks))
  }

  /** The file f of img' is right, and holds the block n after its former ones. */
  ghost predicate GrownRight(img: Image, f: nat, n: nat, img': Image)
    requires f in img.contents
  {
    && f in img'.files
    && FileRep(img'.cached, img'.uses, f, img'.files[f], img.contents[f] + [n])
       && CursorsRight(img'.cached, img'.files[f])
  }

  lemma DirectDone(img: Image, f: nat, size: nat, n: nat)
    requires Growing(img, f, n) && img.files[f].nblks < L0 && |img.files[f].direct| == L0
    ensures GrownRight(img, f, n, Counted(PlacedDirect(img, f, n), f, size, n))
  {
    DirectAppended(img.cached, img.uses, f, img.files[f], img.contents[f], size, n);
  }

  lemma IndirectDone(img: Image, f: nat, size: nat, n: nat)
    requires Growing(img, f, n) && L0 <= img.files[f].nblks < L1
    ensures GrownRight(img, f, n, Counted(PlacedIndirect(img, f, n), f, size, n))
  {
    var slot := img.files[f].indirect;
    var t, img1 := FilledSlot(img, slot), SlotFilled(img, slot, Indirect(f));
    FreshSlot(img, slot, Indirect(f));
    IndirectAppended(img.cached, img.uses, f, img.files[f], img.contents[f], size, n, t, img1.cached, img1.uses);
  }

  /** The next number is not in use anywhere. */
  ghost predicate NextUnused(img: Image) {
    img.next > 0 && img.next !in img.cached && img.next !in img.uses
  }

  lemma FreshSlot(img: Image, slot: nat, u: Use)
    requires NextUnused(img)
    ensures SlotHas(img.cached, img.uses, slot, u, FilledSlot(img, slot), SlotFilled(img, slot, u).cached,
                    SlotFilled(img, slot, u).uses)
  {
  }

  lemma DoubleHere(img: Image, f: nat, n: nat)
    requires Growing(img, f, n) && L1 <= img.files[f].nblks
    ensures var img1 := WithDouble(img, f);
            && DoubleRep(img1.cached, img1.uses, f, img1.files[f], img.contents[f], Tables(img.files[f].nblks))
            && UsedAs(img1.uses, n, Data(f, img.files[f].nblks)) && NextUnused(img1)
  {
    var node, blocks := img.files[f], img.contents[f];
    var img1 := WithDouble(img, f);
    FreshSlot(img, node.dbIndirect, Double(f));
    DoubleReady(img.cached, img.uses, f, node, blocks, FilledSlot(img, node.dbIndirect), img1.cached, img1.uses);
  }

  lemma TableHere(img: Image, f: nat, blocks: seq<nat>, n: nat)
    requires NextUnused(img) && f in img.files && L1 <= img.files[f].nblks
    requires DoubleRep(img.cached, img.uses, f, img.files[f], blocks, Tables(img.files[f].nblks))
    requires UsedAs(img.uses, n, Data(f, img.files[f].nblks))
    ensures var k := TableIndex(img.files[f].nblks);
            var img' := WithTable(img, f, k);
            && DoubleRep(img'.cached, img'.uses, f, img.files[f], blocks, k + 1)
               && k + 1 == Tables(img.files[f].nblks + 1)
            && CachedWord(img'.cached, img.files[f].dbIndirect, k) == img'.files[f].l1
            && UsedAs(img'.uses, n, Data(f, img.files[f].nblks))
  {
    var node := img.files[f];
    var k := TableIndex(node.nblks);
    var slot := CachedWord(img.cached, node.dbIndirect, k);
    var t, img1 := FilledSlot(img, slot), SlotFilled(img, slot, Table(f, k));
    FreshSlot(img, slot, Table(f, k));
    TableReady(img.cached, img.uses, f, node, blocks, t, img1.cached, img1.uses);
  }

  lemma TableDone(img: Image, f: nat, node: Node, blocks: seq<nat>, size: nat, n: nat)
    requires f in img.files && f in img.contents && img.files[f] == node.(l1 := img.files[f].l1) && L1 <= node.nblks
    requires var k := TableIndex(node.nblks);
             && DoubleRep(img.cached, img.uses, f, node, blocks, k + 1) && k + 1 == Tables(node.nblks + 1)
             && CachedWord(img.cached, node.dbIndirect, k) == img.files[f].l1 && node.l2 == node.dbIndirect
    requires UsedAs(img.uses, n, Data(f, node.nblks))
    ensures var img' := Counted(EnteredBlock(img, f, TableOffset(node.nblks), n), f, size, n);
            && FileRep(img'.cached, img'.uses, f, img'.files[f], blocks + [n])
               && CursorsRight(img'.cached, img'.files[f])
  {
    var t := img.files[f].l1;
    TableAppended(img.cached, img.uses, f, node, blocks, size, n, t);
    var img' := Counted(EnteredBlock(img, f, TableOffset(node.nblks), n), f, size, n);
    assert img'.files[f] == Grown(node.(l1 := t), size);
    assert img'.cached == Stored(img.cached, t, (node.nblks - L1) % NENTRY, n);
  }

  lemma DoubleDone(img: Image, f: nat, size: nat, n: nat)
    requires Growing(img, f, n) && L1 <= img.files[f].nblks
    ensures var i := img.files[f].nblks;
            GrownRight(img, f, n, Counted(PlacedDouble(img, f, TableIndex(i), TableOffset(i), n), f, size, n))
  {
    var nblks := img.files[f].nblks;
    DoubleHere(img, f, n);
    var img1 := WithDouble(img, f);
    TableHere(img1, f, img.contents[f], n);
    TableDone(WithTable(img1, f, TableIndex(nblks)), f, img1.files[f], img.contents[f], size, n);
  }

  // ---------- what append_block leaves alone ----------

  /** Uses only grow, by index blocks of f, and no index block of another file changes. */
  ghost predicate OnlyIndex(img: Image, f: nat, img': Image) {
    && img'.files.Keys == img.files.Keys && img'.contents == img.contents
    && (forall g | g in img.files && g != f :: img'.files[g] == img.files[g])
    && (forall m | m in img.uses :: UsedAs(img'.uses, m, img.uses[m]))
    && (forall m | m in img'.uses && m !in img.uses :: IsIndex(img'.uses[m]) && img'.uses[m].f == f)
    && (forall m | m in img.cached && m in img.uses && IsIndex(img.uses[m]) && img.uses[m].f != f ::
          m in img'.cached && img'.cached[m] == img.cached[m])
  }

  lemma OnlyIndexTwice(img: Image, f: nat, img1: Image, img': Image)
    requires OnlyIndex(img, f, img1) && OnlyIndex(img1, f, img')
    ensures OnlyIndex(img, f, img')
  {
    forall m | m in img.uses ensures UsedAs(img'.uses, m, img.uses[m]) {
      assert UsedAs(img1.uses, m, img.uses[m]);
    }
    forall m | m in img.cached && m in img.uses && IsIndex(img.uses[m]) && img.uses[m].f != f
      ensures m in img'.cached && img'.cached[m] == img.cached[m]
    {
      assert UsedAs(img1.uses, m, img.uses[m]);
    }
  }

  ghost predicate Step(img: Image, f: nat, img': Image) {
    NumbersOk(img') && OnlyIndex(img, f, img')
  }

  lemma SlotStep(img: Image, f: nat, slot: nat, u: Use)
    requires NumbersOk(img) && IsIndex(u) && u.f == f && (slot == 0 ==> img.next < MAX_NBLKS)
    ensures Step(img, f, SlotFilled(img, slot, u))
  {
  }

  lemma FileStep(img: Image, f: nat, node: Node)
    requires NumbersOk(img) && f in img.files && WordsBelow(node.direct, img.next) && SmallNode(node, img.next)
    ensures Step(img, f, img.(files := img.files[f := node]))
  {
  }

  /** The block t is an index block of the file f. */
  predicate OwnIndex(img: Image, f: nat, t: nat) {
    t in img.uses && IsIndex(img.uses[t]) && img.uses[t].f == f
  }

  lemma StoreStep(img: Image, f: nat, t: nat, k: nat, n: nat)
    requires NumbersOk(img) && OwnIndex(img, f, t) && n < img.next
    ensures Step(img, f, img.(cached := Stored(img.cached, t, k, n)))
  {
    forall m | m in Stored(img.cached, t, k, n) ensures WordsBelow(Stored(img.cached, t, k, n)[m], img.next) {
      assert WordsBelow(img.cached[m], img.next);
    }
  }

  lemma DirectStep(img: Image, f: nat, n: nat)
    requires Growing(img, f, n) && img.files[f].nblks < |img.files[f].direct|
    ensures Step(img, f, PlacedDirect(img, f, n))
  {
    var node := img.files[f];
    FileStep(img, f, node.(direct := node.direct[node.nblks := n]));
  }

  lemma EnteredStep(img: Image, f: nat, t: nat, n: nat)
    requires NumbersOk(img) && f in img.files && L0 <= img.files[f].nblks && OwnIndex(img, f, t) && n < img.next
    ensures Step(img, f, EnteredIndirect(img, f, t, n))
  {
    var node := img.files[f];
    var img2 := img.(files := img.files[f := node.(indirect := t, l1 := t)]);
    FileStep(img, f, node.(indirect := t, l1 := t));
    StoreStep(img2, f, t, node.nblks - L0, n);
    assert EnteredIndirect(img, f, t, n) == img2.(cached := Stored(img2.cached, t, node.nblks - L0, n));
    OnlyIndexTwice(img, f, img2, EnteredIndirect(img, f, t, n));
  }

  lemma IndirectStep(img: Image, f: nat, n: nat)
    requires Growing(img, f, n) && L0 <= img.files[f].nblks < L1
             && (img.files[f].indirect == 0 ==> img.next < MAX_NBLKS)
    ensures Step(img, f, PlacedIndirect(img, f, n))
  {
    var slot := img.files[f].indirect;
    var t, img1 := FilledSlot(img, slot), SlotFilled(img, slot, Indirect(f));
    SlotStep(img, f, slot, Indirect(f));
    assert OwnIndex(img1, f, t) by {
      assert FileRep(img.cached, img.uses, f, img.files[f], img.contents[f]);
    }
    EnteredStep(img1, f, t, n);
    OnlyIndexTwice(img, f, img1, PlacedIndirect(img, f, n));
  }

  lemma DoubleStep(img: Image, f: nat, n: nat)
    requires Growing(img, f, n) && L1 <= img.files[f].nblks && (img.files[f].dbIndirect == 0 ==> img.next < MAX_NBLKS)
    ensures Step(img, f, WithDouble(img, f)) && OwnIndex(WithDouble(img, f), f, WithDouble(img, f).files[f].dbIndirect)
  {
    var node := img.files[f];
    assert FileRep(img.cached, img.uses, f, node, img.contents[f]);
    var d, img1 := FilledSlot(img, node.dbIndirect), SlotFilled(img, node.dbIndirect, Double(f));
    SlotStep(img, f, node.dbIndirect, Double(f));
    FileStep(img1, f, node.(dbIndirect := d, l2 := d));
    OnlyIndexTwice(img, f, img1, WithDouble(img, f));
  }

  lemma TableStep(img: Image, f: nat, k: nat)
    requires NumbersOk(img) && f in img.files && OwnIndex(img, f, img.files[f].dbIndirect)
    requires var s := CachedWord(img.cached, img.files[f].dbIndirect, k); if s == 0 then img.next < MAX_NBLKS
             else OwnIndex(img, f, s)
    ensures Step(img, f, WithTable(img, f, k)) && OwnIndex(WithTable(img, f, k), f, WithTable(img, f, k).files[f].l1)
  {
    var node := img.files[f];
    var slot := CachedWord(img.cached, node.dbIndirect, k);
    var t, img1 := FilledSlot(img, slot), SlotFilled(img, slot, Table(f, k));
    SlotStep(img, f, slot, Table(f, k));
    var img2 := img1.(files := img1.files[f := node.(l1 := t)]);
    FileStep(img1, f, node.(l1 := t));
    assert OwnIndex(img2, f, t) && OwnIndex(img2, f, node.dbIndirect);
    StoreStep(img2, f, node.dbIndirect, k, t);
    OnlyIndexTwice(img, f, img1, img2);
    OnlyIndexTwice(img, f, img2, WithTable(img, f, k));
  }

  /** The table that the second update_cache meets is one of f's own. */
  lemma TableOwned(img: Image, f: nat, n: nat)
    requires Growing(img, f, n) && L1 <= img.files[f].nblks
    ensures var s := TableSlotOf(img, f, TableIndex(img.files[f].nblks)); s == 0 || OwnIndex(WithDouble(img, f), f, s)
  {
    var k := TableIndex(img.files[f].nblks);
    DoubleHere(img, f, n);
    var img1 := WithDouble(img, f);
    var s := CachedWord(img1.cached, img1.files[f].dbIndirect, k);
    assert k < Tables(img.files[f].nblks) ==> IsTable(img1.cached, img1.uses, s, Table(f, k));
  }

  lemma PlacedStep(img: Image, f: nat, n: nat)
    requires Growing(img, f, n) && |img.files[f].direct| == L0 && img.next + EmptySlots(img, f) <= MAX_NBLKS
    ensures Step(img, f, Placed(img, f, n))
  {
    var i := img.files[f].nblks;
    if i < L0 {
      DirectStep(img, f, n);
    } else if i < L1 {
      IndirectStep(img, f, n);
    } else {
      DoubleStep(img, f, n);
      TableOwned(img, f, n);
      var img1, k := WithDouble(img, f), TableIndex(i);
      TableStep(img1, f, k);
      var img2 := WithTable(img1, f, k);
      OnlyIndexTwice(img, f, img1, img2);
      StoreStep(img2, f, img2.files[f].l1, TableOffset(i), n);
      OnlyIndexTwice(img, f, img2, Placed(img, f, n));
    }
  }

  /** Numbers taken by append_block are exactly those of the index blocks it makes. */
  lemma PlacedNext(img: Image, f: nat, n: nat)
    requires f in img.files && |img.files[f].direct| == L0
    ensures Placed(img, f, n).next == img.next + EmptySlots(img, f)
    ensures var node, node' := img.files[f], Placed(img, f, n).files[f];
            && node'.size == node.size && node'.kind == node.kind && node'.nlinks == node.nlinks
               && node'.nblks == node.nblks
            && node'.blocks == node.blocks
  {
  }

  lemma CountedStep(img: Image, f: nat, size: nat, n: nat, p: Image)
    requires f in img.files && f in img.contents && NumbersOk(p) && OnlyIndex(img, f, p)
    requires var node, node' := img.files[f], p.files[f];
             && node'.size == node.size && node'.kind == node.kind && node'.nlinks == node.nlinks
                && node'.nblks == node.nblks
    requires p.next == img.next + IndexBlocks(img.files[f].nblks)
    ensures Appended(img, f, size, n, Counted(p, f, size, n)) && NumbersOk(Counted(p, f, size, n))
  {
    FileStep(p, f, Grown(p.files[f], size));
  }

  lemma PlacedRight(img: Image, f: nat, size: nat, n: nat)
    requires Growing(img, f, n) && |img.files[f].direct| == L0
    ensures GrownRight(img, f, n, Counted(Placed(img, f, n), f, size, n))
  {
    if img.files[f].nblks < L0 {
      DirectDone(img, f, size, n);
    } else if img.files[f].nblks < L1 {
      IndirectDone(img, f, size, n);
    } else {
      DoubleDone(img, f, size, n);
    }
  }

  /** append_block: the file f gets the block n at its end, in the image and in the index blocks. */
  lemma AppendDone(img: Image, f: nat, size: nat, n: nat, img': Image)
    requires Growing(img, f, n) && |img.files[f].direct| == L0 && img.next + EmptySlots(img, f) <= MAX_NBLKS
    requires img' == Counted(Placed(img, f, n), f, size, n)
    ensures Appended(img, f, size, n, img') && FilesOk(img') && NumbersOk(img')
  {
    NeverSearches(img, f);
    PlacedStep(img, f, n);
    PlacedNext(img, f, n);
    CountedStep(img, f, size, n, Placed(img, f, n));
    PlacedRight(img, f, size, n);
    AppendedFilesOk(img, f, size, n, img');
  }

  // ---------- new files ----------

  function EmptyNode(kind: nat): Node {
    Node(0, kind, 0, 0, Zeros(L0), 0, 0, 0, 0, 0)
  }

  function WithEmptyFile(img: Image, f: nat, kind: nat): Image {
    img.(files := img.files[f := EmptyNode(kind)], contents := img.contents[f := []])
  }

  lemma FileAdded(img: Image, f: nat, kind: nat)
    requires NumbersOk(img) && FilesOk(img) && f !in img.files && UsedAs(img.uses, f, Inode) && kind < U16
    ensures NumbersOk(WithEmptyFile(img, f, kind)) && FilesOk(WithEmptyFile(img, f, kind))
  {
    var img' := WithEmptyFile(img, f, kind);
    forall g | g in img'.files
      ensures && g in img'.contents && UsedAs(img'.uses, g, Inode)
              && FileRep(img'.cached, img'.uses, g, img'.files[g], img'.contents[g])
                 && CursorsRight(img'.cached, img'.files[g])
    {
      if g == f { assert EntriesAre(img.cached, img.uses, f, EmptyNode(kind), []); }
    }
  }

  function OneMoreLink(node: Node): Node {
    node.(nlinks := (node.nlinks + 1) % U16)
  }

  lemma LinkKeepsRep(cached: Cached, uses: Uses, f: nat, node: Node, blocks: seq<nat>)
    requires FileRep(cached, uses, f, node, blocks)
    ensures FileRep(cached, uses, f, OneMoreLink(node), blocks)
  {
    forall i: nat | i < |blocks|
      ensures Entry(cached, OneMoreLink(node), i) == blocks[i] && UsedAs(uses, blocks[i], Data(f, i))
    {
      assert Entry(cached, node, i) == blocks[i];
    }
  }

  lemma LinkKeepsFiles(img: Image, f: nat)
    requires NumbersOk(img) && FilesOk(img) && f in img.files
    ensures NumbersOk(img.(files := img.files[f := OneMoreLink(img.files[f])]))
    ensures FilesOk(img.(files := img.files[f := OneMoreLink(img.files[f])]))
  {
    FileStep(img, f, OneMoreLink(img.files[f]));
    LinkKeepsRep(img.cached, img.uses, f, img.files[f], img.contents[f]);
  }
}
