// kmalloc and kfree (kern/mm/kmalloc.c) over the SLOB heap.
module Kmalloc {
  import opened Powers
  import opened Options
  import opened FreeRuns
  import opened SlobList
  import opened Slob
  import opened HeapBooks

  // ---------- headers and records in memory ----------

  ghost predicate IsRecord(r: Run, bigs: seq<Big>) {
    exists i | 0 <= i < |bigs| :: r == bigs[i].Record()
  }

  /** Every live block that is not a record carries its own length in its header. */
  ghost predicate Headers(units: Field, live: set<Run>, bigs: seq<Big>) {
    forall r | r in live && !IsRecord(r, bigs) :: r.base in units && units[r.base] == r.len
  }

  ghost function RecAt(bigs: seq<Big>, i: nat): int {
    if i < |bigs| then bigs[i].rec else 0
  }

  /** The fields of a bigblock_t lie over those of its first slob_t: order over units, pages over
      next; the third field needs a second unit. */
  ghost predicate RecordAt(units: Field, next: Field, bigNext: Field, bigs: seq<Big>, i: nat)
    requires i < |bigs|
  {
    var rec := bigs[i].rec;
    && rec in units && units[rec] == bigs[i].order
    && rec in next && next[rec] == bigs[i].pages
    && rec in bigNext && bigNext[rec] == RecAt(bigs, i + 1)
  }

  ghost predicate Chain(units: Field, next: Field, bigNext: Field, bigs: seq<Big>) {
    forall i: nat | i < |bigs| :: RecordAt(units, next, bigNext, bigs, i)
  }

  lemma LiveKept(units: Field, units': Field, touched: set<int>, live: set<Run>, bigs: seq<Big>)
    requires KeptOutside(units, units', touched) && Headers(units, live, bigs)
    requires Cover(live) !! touched && forall r | r in live :: r.len > 0
    ensures Headers(units', live, bigs)
  {
    forall r | r in live && !IsRecord(r, bigs) ensures r.base in units' && units'[r.base] == r.len {
      RangeInCover(live, r);
      InRange(r, r.base);
    }
  }

  lemma ChainKept(units: Field, units': Field, next: Field, next': Field, bigNext: Field, touched: set<int>,
                  live: set<Run>, bigs: seq<Big>)
    requires KeptOutside(units, units', touched) && KeptOutside(next, next', touched)
             && Chain(units, next, bigNext, bigs)
    requires Cover(live) !! touched && forall i | 0 <= i < |bigs| :: bigs[i].Record() in live
    ensures Chain(units', next', bigNext, bigs)
  {
    forall i: nat | i < |bigs| ensures RecordAt(units', next', bigNext, bigs, i) {
      assert RecordAt(units, next, bigNext, bigs, i);
      RangeInCover(live, bigs[i].Record());
      InRange(bigs[i].Record(), bigs[i].rec);
    }
  }

  // ---------- sizes ----------

  /** The conversion of a size_t to the int parameter of find_order. */
  function ToInt(size: nat): int {
    (size + 0x8000_0000) % 0x1_0000_0000 - 0x8000_0000
  }

  function OrderOf(size: int): nat {
    if size > 4096 then 1 + OrderOf(size / 2) else 0
  }

  method FindOrder(n: int) returns (order: nat)
    ensures order == OrderOf(n)
  {
    order := 0;
    var size := n;
    while size > 4096
      invariant OrderOf(n) == order + OrderOf(size)
      decreases size
    {
      size := size / 2;
      order := order + 1;
    }
  }

  /** find_order rounds down: the order it finds is one short exactly for the sizes in these gaps. */
  ghost predicate InGap(size: nat) {
    exists k: nat :: k > 0 && BetweenOrders(size, k)
  }

  ghost predicate BetweenOrders(size: nat, k: nat) {
    4096 * Pow2(k) < size < 4097 * Pow2(k)
  }

  lemma {:induction false} OrderBound(size: int)
    ensures size < 4097 * Pow2(OrderOf(size))
  {
    if size > 4096 {
      OrderBound(size / 2);
    }
  }

  lemma {:induction false} OrderAtGap(size: nat, k: nat)
    requires 4096 * Pow2(k) <= size < 4097 * Pow2(k)
    ensures OrderOf(size) == k
  {
    if k > 0 {
      OrderAtGap(size / 2, k - 1);
    }
  }

  lemma {:induction false} OrderCapped(size: int, k: nat)
    requires size < 4097 * Pow2(k)
    ensures OrderOf(size) <= k
  {
    if size > 4096 && k > 0 {
      OrderCapped(size / 2, k - 1);
    }
  }

  lemma {:induction false} Pow2Monotone(m: nat, n: nat)
    requires m <= n
    ensures Pow2(m) <= Pow2(n)
  {
    if m < n {
      Pow2Monotone(m, n - 1);
    }
  }

  lemma Pow2Of19()
    ensures Pow2(19) == 524288
  {
    assert Pow2(4) == 16;
    assert Pow2(8) == 256;
    assert Pow2(12) == 4096;
    assert Pow2(16) == 65536;
  }

  /** The pages that kmalloc asks for hold the request exactly if the size survives the conversion
      to int and is not in a gap of the rounding. */
  lemma BigEnough(size: nat)
    ensures size <= 4096 * Pow2(OrderOf(ToInt(size))) <==> size < 0x8000_0000 && !InGap(size)
  {
    if size < 0x8000_0000 {
      var k := OrderOf(size);
      OrderBound(size);
      if size > 4096 * Pow2(k) {
        assert k > 0 && BetweenOrders(size, k);
      } else if InGap(size) {
        var g: nat :| g > 0 && BetweenOrders(size, g);
        OrderAtGap(size, g);
        assert false;
      }
    } else {
      Pow2Of19();
      OrderCapped(ToInt(size), 19);
      Pow2Monotone(OrderOf(ToInt(size)), 19);
      assert size == 0x8000_0000 ==> ToInt(size) == -0x8000_0000;
    }
  }

  /** 8193 bytes are given two pages, 8192 bytes. */
  lemma GapExample(size: nat)
    requires size == 8193
    ensures 4096 * Pow2(OrderOf(ToInt(size))) == 8192
  {
    assert Pow2(1) == 2;
    OrderAtGap(size, 1);
    assert ToInt(size) == size;
  }

  // ---------- kmalloc and kfree ----------

  class KernelHeap {
    const slob: SlobHeap
    var bigblocks: int
    var bigNext: Field

    ghost var live: set<Run>
    ghost var pages: set<Run>
    ghost var bigs: seq<Big>

    ghost predicate Valid()
      reads this, slob
    {
      && slob.ListOk() && Kept(slob.arena, slob.ListState(), Book())
      && bigblocks == RecAt(bigs, 0)
    }

    constructor (arena: nat)
      requires arena > 0
      ensures Valid() && fresh(slob) && slob.arena == arena && slob.runs == [Run(arena, 1)]
      ensures live == {} && pages == {} && bigs == []
    {
      slob := new SlobHeap(arena);
      bigblocks, bigNext := 0, map[];
      live, pages, bigs := {}, {}, [];
      new;
      SingleCells(Run(arena, 1));
      assert Cover(live) == {} && Cover(pages) == {};
      assert Run(arena, 1).Has(arena);
      assert Run(arena, 1).Range() == {arena as int};
    }

    ghost function Book(): HeapBook
      reads this
    {
      HeapBook(live, pages, bigs, bigNext)
    }

    /** slob_alloc with the books kept. */
    method AllocBlock(size: nat, page: Option<nat>) returns (r: AllocResult, grew: bool)
      requires Valid() && size > 0
      requires page.Some? ==> PageOffer(slob.arena, Run(page.value, PAGE_UNITS), pages, bigs)
      modifies this`live, this`pages, slob
      ensures BlockAllocated(slob.arena, old(slob.ListState()), old(Book()), size, page, r, grew, slob.ListState(),
                             Book())
      ensures r != Block(slob.arena) ==> Valid()
    {
      ghost var s0 := slob.ListState();
      if page.Some? { PageIsFresh(slob.arena, slob.runs, live, pages, Run(page.value, PAGE_UNITS)); }
      ghost var mid, j;
      r, grew, mid, j := slob.SlobAlloc(size, page);
      ghost var b := AllocDone(slob.arena, s0, Book(), size, page, r, grew, mid, j, slob.ListState());
      live, pages := b.live, b.pages;
    }

    /** slob_free with the books kept. */
    method FreeBlock(block: nat, size: nat)
      requires slob.ListOk() && bigblocks == RecAt(bigs, 0)
      requires size > 0 || (block in slob.units && slob.units[block] > 0)
      requires KeptBut(slob.arena, slob.ListState(), Book(), slob.Freed(block, size))
      modifies this`live, slob
      ensures Valid() && BlockFreed(old(slob.ListState()), old(Book()), old(slob.Freed(block, size)),
                                    slob.ListState(), Book())
    {
      ghost var r, s := slob.Freed(block, size), slob.ListState();
      LiveAboveArena(slob.arena, slob.runs, live, pages, r);
      RangeInCover(live, r);
      ghost var i := slob.SlobFree(block, size);
      FreedKept(slob.arena, s, Book(), r, i, slob.ListState());
      live := live - {r};
    }

    /** __kmalloc. page and area are what alloc_pages would answer if asked for one page, and for
        the pages of a big block. */
    method KMalloc(size: nat, page: Option<nat>, area: Option<nat>) returns (r: AllocResult, ghost grew: bool)
      requires Valid()
      requires page.Some? ==> PageOffer(slob.arena, Run(page.value, PAGE_UNITS), pages, bigs)
      requires area.Some? ==> AreaOffer(slob.arena, BigArea(size, area.value), page, Book())
      modifies this, slob
      ensures Kmalloced(slob.arena, old(slob.ListState()), old(Book()), size, page, area, r, grew, slob.ListState(),
                        Book())
      ensures size > 0 || r != Block(slob.arena + 1) ==> Valid()
      ensures size == 0 ==> bigblocks == old(bigblocks)
    {
      if size < PAGE_SIZE - UNIT {
        var m, g := AllocBlock(size + UNIT, page);
        match m
        case Block(at) => return Block(at + 1), g;
        case _ => return m, g;
      }
      r, grew := KMallocBig(size, page, area);
    }

    /** Two fresh units for a bigblock_t, or null. */
    method AllocRecord(page: Option<nat>) returns (rec: nat, ghost grew: bool)
      requires Valid()
      requires page.Some? ==> PageOffer(slob.arena, Run(page.value, PAGE_UNITS), pages, bigs)
      modifies this`live, this`pages, slob
      ensures Valid() && (grew ==> page.Some?)
      ensures rec == 0 ==> Book() == old(Book()) && page.None? && !grew
      ensures rec != 0 ==>
                && Run(rec, 2) !in old(live) && live == old(live) + {Run(rec, 2)} && !IsRecord(Run(rec, 2), bigs)
                && pages == if grew then old(pages) + {Run(page.value, PAGE_UNITS)} else old(pages)
    {
      var bb, g := AllocBlock(BIGBLOCK_SIZE, page);
      grew := g;
      if !bb.Block? {
        return 0, grew;
      }
      RecordsNonNull(slob.arena, slob.ListState(), Book());
      LiveAboveArena(slob.arena, slob.runs, live, pages, Run(bb.at, 2));
      rec := bb.at;
    }

    /** The second half of __kmalloc: a record from the heap, an area from the page allocator. */
    method KMallocBig(size: nat, page: Option<nat>, area: Option<nat>) returns (r: AllocResult, ghost grew: bool)
      requires Valid() && size >= PAGE_SIZE - UNIT
      requires page.Some? ==> PageOffer(slob.arena, Run(page.value, PAGE_UNITS), pages, bigs)
      requires area.Some? ==> AreaOffer(slob.arena, BigArea(size, area.value), page, Book())
      modifies this, slob
      ensures Valid() && !r.Panic? && (grew ==> page.Some?)
      ensures BigOutcome(old(Book()), size, page, area,
                         if grew then old(pages) + {Run(page.value, PAGE_UNITS)} else old(pages), r, Book())
    {
      ghost var b0 := Book();
      var bb, g := AllocRecord(page);
      grew := g;
      if bb == 0 {
        return Null, grew;
      }
      var order := FindOrder(ToInt(size));
      if area.Some? {
        AreaStaysOutside(slob.arena, BigArea(size, area.value), page, grew, b0, Book());
        EnlistBig(bb, order, area.value);
        return Block(area.value), grew;
      }
      AbandonRecord(bb, order);
      assert live == b0.live;
      r := Null;
    }

    /** The record is written and becomes the head of the list of big blocks. */
    method EnlistBig(rec: nat, order: nat, p: nat)
      requires Valid() && Run(rec, 2) in live && !IsRecord(Run(rec, 2), bigs)
      requires PageOffer(slob.arena, Big(rec, p, order).Area(), pages, bigs)
      modifies this`bigNext, this`bigblocks, this`bigs, slob
      ensures Valid() && bigs == [Big(rec, p, order)] + old(bigs)
    {
      WriteRecord(rec, order, p);
      BigKept(slob.arena, slob.ListState(), Book(), Big(rec, p, order), bigblocks);
      bigNext := bigNext[rec := bigblocks];
      bigblocks := rec;
      bigs := [Big(rec, p, order)] + bigs;
    }

    /** No area could be had: the record, its area pointer null, is freed again. */
    method AbandonRecord(rec: nat, order: nat)
      requires Valid() && Run(rec, 2) in live && !IsRecord(Run(rec, 2), bigs)
      modifies this`live, slob
      ensures Valid() && live == old(live) - {Run(rec, 2)}
    {
      WriteRecord(rec, order, 0);
      FreeBlock(rec, BIGBLOCK_SIZE);
    }

    /** The search of kfree through the list of big blocks; bb is null if it finds nothing. */
    method FindBig(block: nat) returns (last: int, bb: int, ghost i: nat)
      requires Chain(slob.units, slob.next, bigNext, bigs) && bigblocks == RecAt(bigs, 0)
      requires forall j | 0 <= j < |bigs| :: bigs[j].rec > 0
      ensures i <= |bigs| && bb == RecAt(bigs, i) && last == (if i > 0 then bigs[i - 1].rec else 0)
      ensures if i < |bigs| then bb != 0 && bigs[i].pages == block else bb == 0 && NoBigAt(bigs, block)
    {
      last, bb, i := 0, bigblocks, 0;
      while bb != 0
        invariant i <= |bigs| && bb == RecAt(bigs, i) && last == (if i > 0 then bigs[i - 1].rec else 0)
        invariant NoBigAt(bigs[..i], block)
        decreases |bigs| - i
      {
        assert RecordAt(slob.units, slob.next, bigNext, bigs, i);
        if slob.next[bb] == block {
          return;
        }
        last, bb := bb, bigNext[bb];
        i := i + 1;
      }
    }

    /** kfree. The return value is what goes back to the page allocator. */
    method KFree(block: nat) returns (freed: Option<Run>)
      requires Valid() && (block == 0 || Payload(Book(), block))
      modifies this, slob
      ensures Valid() && Kfreed(old(Book()), block, freed, Book())
    {
      freed := None;
      if block == 0 {
        return;
      }
      assert BigsAligned(bigs);
      if block % PAGE_UNITS == 0 {
        RecordsNonNull(slob.arena, slob.ListState(), Book());
        var last, bb, i := FindBig(block);
        if bb != 0 {
          freed := ReleaseBig(last, bb, i);
          return;
        }
      }
      FreeSmall(block);
    }

    method FreeSmall(block: nat)
      requires Valid() && exists r :: SmallAt(Book(), block, r)
      modifies this`live, slob
      ensures Valid() && exists r :: SmallAt(old(Book()), block, r) && Book() == old(Book()).(live := old(live) - {r})
    {
      ghost var r: Run :| SmallAt(Book(), block, r);
      FreeBlock(block - 1, 0);
    }

    /** The big block at index i leaves the list, and its record is freed. */
    method ReleaseBig(last: int, bb: int, ghost i: nat) returns (freed: Option<Run>)
      requires Valid() && i < |bigs| && bb == bigs[i].rec && last == (if i > 0 then bigs[i - 1].rec else 0)
      modifies this, slob
      ensures Valid() && freed == Some(old(bigs)[i].Area())
      ensures bigs == old(bigs)[..i] + old(bigs)[i + 1..] && live == old(live) - {old(bigs)[i].Record()}
              && pages == old(pages)
    {
      ghost var b0 := Book();
      RecordsNonNull(slob.arena, slob.ListState(), b0);
      assert RecordAt(slob.units, slob.next, bigNext, bigs, i);
      if last == 0 {
        bigblocks := bigNext[bb];
      } else {
        bigNext := bigNext[last := bigNext[bb]];
      }
      var order, p := slob.units[bb], slob.next[bb];
      freed := Some(Run(p, PAGE_UNITS * Pow2(order)));
      UnlinkedBig(slob.arena, slob.ListState(), b0, i, bigNext);
      bigs := bigs[..i] + bigs[i + 1..];
      FreeBlock(bb, BIGBLOCK_SIZE);
    }

    /** The first two fields of a fresh record are written. */
    method WriteRecord(rec: nat, order: nat, p: nat)
      requires Valid() && Run(rec, 2) in live && !IsRecord(Run(rec, 2), bigs)
      modifies slob
      ensures slob.ListOk() && KeptBut(slob.arena, slob.ListState(), Book(), Run(rec, 2))
      ensures slob.units == old(slob.units)[rec := order] && slob.next == old(slob.next)[rec := p]
    {
      RecordWrites(slob.arena, slob.ListState(), Book(), rec, order, p);
      slob.units := slob.units[rec := order];
      slob.next := slob.next[rec := p];
    }
  }

  lemma RecordsNonNull(arena: nat, s: SlobState, b: HeapBook)
    requires Kept(arena, s, b) && s.runs != [] && s.runs[0] == Run(arena, 1)
    ensures forall i | 0 <= i < |b.bigs| :: b.bigs[i].rec > arena
  {
    forall i | 0 <= i < |b.bigs| ensures b.bigs[i].rec > arena {
      LiveAboveArena(arena, s.runs, b.live, b.pages, b.bigs[i].Record());
    }
  }

  lemma UnlinkedBig(arena: nat, s: SlobState, b: HeapBook, i: nat, bigNext': Field)
    requires Kept(arena, s, b) && i < |b.bigs|
    requires bigNext' == if i > 0 then b.bigNext[b.bigs[i - 1].rec := RecAt(b.bigs, i + 1)] else b.bigNext
    ensures KeptBut(arena, s, b.(bigs := b.bigs[..i] + b.bigs[i + 1..], bigNext := bigNext'), b.bigs[i].Record())
  {
    BigsWithout(arena, b, i);
    ChainWithout(s, b, i, bigNext');
    HeadersWithout(s.units, b.live, b.bigs, i);
  }

  lemma BigsWithout(arena: nat, b: HeapBook, i: nat)
    requires BigBooks(arena, b.live, b.pages, b.bigs) && i < |b.bigs|
    ensures BigBooks(arena, b.live, b.pages, b.bigs[..i] + b.bigs[i + 1..])
    ensures !IsRecord(b.bigs[i].Record(), b.bigs[..i] + b.bigs[i + 1..])
  {
    WithoutOne(b.bigs, i);
  }

  ghost function Dropped(i: nat, j: nat): nat {
    if j < i then j else j + 1
  }

  lemma WithoutOne(bigs: seq<Big>, i: nat)
    requires i < |bigs|
    ensures forall j: nat | j < |bigs| - 1 :: (bigs[..i] + bigs[i + 1..])[j] == bigs[Dropped(i, j)]
  {
  }

  lemma ChainWithout(s: SlobState, b: HeapBook, i: nat, bigNext': Field)
    requires Chain(s.units, s.next, b.bigNext, b.bigs) && i < |b.bigs| && BigsApart(b.bigs)
    requires bigNext' == if i > 0 then b.bigNext[b.bigs[i - 1].rec := RecAt(b.bigs, i + 1)] else b.bigNext
    ensures Chain(s.units, s.next, bigNext', b.bigs[..i] + b.bigs[i + 1..])
  {
    var bigs' := b.bigs[..i] + b.bigs[i + 1..];
    WithoutOne(b.bigs, i);
    forall j: nat | j < |bigs'| ensures RecordAt(s.units, s.next, bigNext', bigs', j) {
      assert RecordAt(s.units, s.next, b.bigNext, b.bigs, Dropped(i, j));
      assert RecAt(bigs', j + 1) == if j + 1 == i then RecAt(b.bigs, i + 1) else RecAt(b.bigs, Dropped(i, j) + 1);
    }
  }

  lemma HeadersWithout(units: Field, live: set<Run>, bigs: seq<Big>, i: nat)
    requires Headers(units, live, bigs) && i < |bigs|
    ensures Headers(units, live - {bigs[i].Record()}, bigs[..i] + bigs[i + 1..])
  {
    var bigs' := bigs[..i] + bigs[i + 1..];
    forall r | r in live - {bigs[i].Record()} && !IsRecord(r, bigs') ensures r.base in units && units[r.base] == r.len {
      assert forall j | 0 <= j < |bigs| && j != i :: bigs[j] == bigs'[if j < i then j else j - 1];
      assert !IsRecord(r, bigs);
    }
  }

  lemma AreaStaysOutside(arena: nat, a: Run, page: Option<nat>, grew: bool, b: HeapBook, b': HeapBook)
    requires AreaOffer(arena, a, page, b) && b'.bigs == b.bigs && (grew ==> page.Some?)
    requires b'.pages == if grew then b.pages + {Run(page.value, PAGE_UNITS)} else b.pages
    ensures PageOffer(arena, a, b'.pages, b'.bigs)
  {
    if grew {
      CoverAdd(b.pages, Run(page.value, PAGE_UNITS));
    }
  }

  /** A live block that is no record yet can be written as one: the free list does not notice. */
  lemma RecordWrites(arena: nat, s: SlobState, b: HeapBook, rec: nat, order: nat, p: nat)
    requires Kept(arena, s, b) && OkState(s) && Run(rec, 2) in b.live && !IsRecord(Run(rec, 2), b.bigs)
    ensures Linked(s.units[rec := order], s.next[rec := p], s.runs)
    ensures KeptBut(arena, s.(units := s.units[rec := order], next := s.next[rec := p]), b, Run(rec, 2))
  {
    var r := Run(rec, 2);
    RangeInCover(b.live, r);
    InRange(r, rec);
    var units', next' := s.units[rec := order], s.next[rec := p];
    forall j: nat | j < |s.runs| ensures LinkedAt(units', next', s.runs, j) {
      assert LinkedAt(s.units, s.next, s.runs, j);
      assert s.runs[j].Has(s.runs[j].base) && s.runs[j].base in Cells(s.runs);
    }
    RecordsStay(b.live, b.bigs, r);
    CoverRemove(b.live, r);
    LiveKept(s.units, s.units[rec := order], {rec as int}, b.live - {r}, b.bigs);
    ChainKept(s.units, s.units[rec := order], s.next, s.next[rec := p], b.bigNext, {rec as int}, b.live - {r}, b.bigs);
  }

  /** The record goes to the front of the list of big blocks. */
  lemma BigKept(arena: nat, s: SlobState, b: HeapBook, big: Big, head: int)
    requires KeptBut(arena, s, b, big.Record()) && head == RecAt(b.bigs, 0)
    requires big.rec in s.units && s.units[big.rec] == big.order && big.rec in s.next && s.next[big.rec] == big.pages
    requires PageOffer(arena, big.Area(), b.pages, b.bigs)
    ensures Kept(arena, s, b.(bigs := [big] + b.bigs, bigNext := b.bigNext[big.rec := head]))
  {
    OneMoreChained(s, b, big, head);
    OneMoreHeader(s.units, b.live, b.bigs, big);
    OneMoreBig(arena, b, big);
  }

  lemma OneMoreChained(s: SlobState, b: HeapBook, big: Big, head: int)
    requires Chain(s.units, s.next, b.bigNext, b.bigs) && !IsRecord(big.Record(), b.bigs) && head == RecAt(b.bigs, 0)
    requires big.rec in s.units && s.units[big.rec] == big.order && big.rec in s.next && s.next[big.rec] == big.pages
    ensures Chain(s.units, s.next, b.bigNext[big.rec := head], [big] + b.bigs)
  {
    var bigs', bigNext' := [big] + b.bigs, b.bigNext[big.rec := head];
    forall i: nat | i < |bigs'| ensures RecordAt(s.units, s.next, bigNext', bigs', i) {
      if i > 0 {
        assert bigs'[i] == b.bigs[i - 1] && RecordAt(s.units, s.next, b.bigNext, b.bigs, i - 1);
        assert b.bigs[i - 1].Record() != big.Record();
      }
    }
  }

  lemma OneMoreHeader(units: Field, live: set<Run>, bigs: seq<Big>, big: Big)
    requires Headers(units, live - {big.Record()}, bigs)
    ensures Headers(units, live, [big] + bigs)
  {
    var bigs' := [big] + bigs;
    forall r | r in live && !IsRecord(r, bigs') ensures r.base in units && units[r.base] == r.len {
      assert bigs'[0].Record() == big.Record();
      assert forall i | 0 <= i < |bigs| :: bigs'[i + 1] == bigs[i];
    }
  }

  lemma OneMoreBig(arena: nat, b: HeapBook, big: Big)
    requires BigBooks(arena, b.live, b.pages, b.bigs) && big.Record() in b.live && !IsRecord(big.Record(), b.bigs)
    requires PageOffer(arena, big.Area(), b.pages, b.bigs)
    ensures BigBooks(arena, b.live, b.pages, [big] + b.bigs)
  {
    var bigs' := [big] + b.bigs;
    assert forall i | 0 <= i < |b.bigs| :: bigs'[i + 1] == b.bigs[i] && b.bigs[i].Record() != big.Record();
    assert forall i | 0 < i < |bigs'| :: bigs'[i] == b.bigs[i - 1];
  }

  const BIGBLOCK_SIZE: nat := 24

  function BigArea(size: nat, at: nat): Run {
    Run(at, PAGE_UNITS * Pow2(OrderOf(ToInt(size))))
  }

  ghost predicate AreaOffer(arena: nat, a: Run, page: Option<nat>, b: HeapBook) {
    PageOffer(arena, a, b.pages, b.bigs) && (page.Some? ==> a.Range() !! Run(page.value, PAGE_UNITS).Range())
  }

  ghost predicate BigsAligned(bigs: seq<Big>) {
    forall i | 0 <= i < |bigs| :: bigs[i].pages % PAGE_UNITS == 0
  }

  ghost predicate NoBigAt(bigs: seq<Big>, p: nat) {
    forall i | 0 <= i < |bigs| :: bigs[i].pages != p
  }

  ghost predicate SmallAt(b: HeapBook, p: nat, r: Run) {
    r in b.live && !IsRecord(r, b.bigs) && r.base + 1 == p
  }

  /** p is a pointer that kmalloc has returned and that has not been freed since. */
  ghost predicate Payload(b: HeapBook, p: nat) {
    !NoBigAt(b.bigs, p) || exists r :: SmallAt(b, p, r)
  }

  /** What kfree promises: a big block's area goes back with all its pages and its record is freed;
      any other block is freed with the length in its header. */
  ghost predicate Kfreed(b: HeapBook, p: nat, freed: Option<Run>, b': HeapBook) {
    if p == 0 then freed.None? && b' == b
    else if NoBigAt(b.bigs, p) then
      freed.None? && exists r :: SmallAt(b, p, r) && b' == b.(live := b.live - {r})
    else
      exists i :: 0 <= i < |b.bigs| && b.bigs[i].pages == p
        && freed == Some(Run(p, 256 * Pow2(b.bigs[i].order))) && b'.bigs == b.bigs[..i] + b.bigs[i + 1..]
        && b'.live == b.live - {b.bigs[i].Record()} && b'.pages == b.pages
  }

  /** What kmalloc promises. Sizes from 4064 to 4079 run into the assertion of slob_alloc. A small
      block is its header and, behind it, room for the request; the block for an empty request is
      the header alone, and may be the arena. A big block is an area of its own with a record on
      the heap. */
  ghost predicate Kmalloced(arena: nat, s: SlobState, b: HeapBook, size: nat, page: Option<nat>, area: Option<nat>,
                            r: AllocResult, grew: bool, s': SlobState, b': HeapBook)
  {
    var pages' := if grew && page.Some? then b.pages + {Run(page.value, PAGE_UNITS)} else b.pages;
    && (r.Panic? <==> 4064 <= size < 4080)
    && (if size < 4080 then SmallOutcome(arena, s, b, size, page, pages', r, s', b')
        else BigOutcome(b, size, page, area, pages', r, b'))
  }

  ghost predicate SmallOutcome(arena: nat, s: SlobState, b: HeapBook, size: nat, page: Option<nat>, pages': set<Run>,
                               r: AllocResult, s': SlobState, b': HeapBook)
  {
    && (!r.Block? ==> s' == s && b' == b)
    && (r.Null? ==> page.None?)
    && (r.Block? && (size > 0 || r.at != arena + 1) ==>
          && r.at > 0
          && var block := Run(r.at - 1, SlobUnits(size + UNIT));
             && block !in b.live && b' == b.(live := b.live + {block}, pages := pages')
             && size <= 16 * (block.len - 1) < size + 16)
    && (size == 0 ==>
          && s.slobfree in s.next && s.next[s.slobfree] >= 0 && r == Block(s.next[s.slobfree] + 1)
          && (r.at == arena + 1 ==> b' == b && (|s.runs| == 1 ==> s' == s)))
  }

  ghost predicate BigOutcome(b: HeapBook, size: nat, page: Option<nat>, area: Option<nat>, pages': set<Run>,
                             r: AllocResult, b': HeapBook)
  {
    && (r.Null? ==> b'.live == b.live && b'.bigs == b.bigs && b'.pages == pages' && (page.None? || area.None?))
    && (r.Block? ==>
          && area == Some(r.at) && |b'.bigs| > 0
          && var big := b'.bigs[0];
             && big.Area() == Run(r.at, 256 * Pow2(OrderOf(ToInt(size)))) && big.Record() !in b.live
             && b'.bigs == [big] + b.bigs && b'.live == b.live + {big.Record()} && b'.pages == pages')
  }

  /** The books fit, except that the header of r, which is about to be freed, need not. */
  ghost predicate KeptBut(arena: nat, s: SlobState, b: HeapBook, r: Run) {
    && Books(arena, s.runs, b.live, b.pages) && BigBooks(arena, b.live, b.pages, b.bigs)
    && Headers(s.units, b.live - {r}, b.bigs) && Chain(s.units, s.next, b.bigNext, b.bigs)
    && r in b.live && !IsRecord(r, b.bigs)
  }

  ghost predicate BlockFreed(s: SlobState, b: HeapBook, r: Run, s': SlobState, b': HeapBook) {
    b' == b.(live := b.live - {r}) && Cells(s'.runs) == Cells(s.runs) + r.Range()
  }

  lemma FreedKept(arena: nat, s: SlobState, b: HeapBook, r: Run, i: nat, s': SlobState)
    requires KeptBut(arena, s, b, r) && Canonical(s.runs) && BelongsAt(s.runs, i, r.base)
    requires s'.runs == Joined(s.runs, i, r)
    requires KeptOutside(s.units, s'.units, Cells(s.runs) + {r.base})
             && KeptOutside(s.next, s'.next, Cells(s.runs) + {r.base})
    ensures Kept(arena, s', b.(live := b.live - {r}))
    ensures Cells(s'.runs) == Cells(s.runs) + r.Range()
  {
    var live' := b.live - {r};
    RangeInCover(b.live, r);
    CoverRemove(b.live, r);
    InRange(r, r.base);
    JoinedIsCanonical(s.runs, i, r);
    BooksFree(arena, s.runs, b.live, b.pages, r, s'.runs);
    RecordsStay(b.live, b.bigs, r);
    LiveKept(s.units, s'.units, Cells(s.runs) + {r.base}, live', b.bigs);
    ChainKept(s.units, s'.units, s.next, s'.next, b.bigNext, Cells(s.runs) + {r.base}, live', b.bigs);
  }

  lemma RecordsStay(live: set<Run>, bigs: seq<Big>, r: Run)
    requires !IsRecord(r, bigs) && forall i | 0 <= i < |bigs| :: bigs[i].Record() in live
    ensures forall i | 0 <= i < |bigs| :: bigs[i].Record() in live - {r}
  {
  }

  datatype HeapBook = HeapBook(live: set<Run>, pages: set<Run>, bigs: seq<Big>, bigNext: Field)

  /** What slob_alloc does to the heap and its books. Only a one-unit request can get the arena. */
  ghost predicate BlockAllocated(arena: nat, s: SlobState, b: HeapBook, size: nat, page: Option<nat>,
                                 r: AllocResult, grew: bool, s': SlobState, b': HeapBook)
  {
    && (r.Panic? <==> size + UNIT >= PAGE_SIZE)
    && (!r.Block? ==> s' == s && b' == b)
    && (r.Null? ==> page.None?)
    && (grew ==> r.Block? && page.Some?)
    && (SlobUnits(size) == 1 ==>
        s.slobfree in s.next && s.next[s.slobfree] >= 0 && r == Block(s.next[s.slobfree]) && !grew)
    && (r == Block(arena) ==> SlobUnits(size) <= 1 && b' == b && (|s.runs| == 1 ==> s' == s))
    && (r.Block? && r.at != arena ==>
          && Run(r.at, SlobUnits(size)) !in b.live
          && b' == b.(live := b.live + {Run(r.at, SlobUnits(size))},
                      pages := if grew then b.pages + {Run(page.value, PAGE_UNITS)} else b.pages)
          && Kept(arena, s', b'))
  }

  lemma AllocDone(arena: nat, s: SlobState, b: HeapBook, size: nat, page: Option<nat>, r: AllocResult, grew: bool,
                  mid: SlobState, j: nat, s': SlobState) returns (b': HeapBook)
    requires Allocated(arena, s, size, page, r, grew, mid, j, s') && size > 0 && OkState(s)
    requires Kept(arena, s, b)
    requires page.Some? ==> PageOffer(arena, Run(page.value, PAGE_UNITS), b.pages, b.bigs)
    ensures BlockAllocated(arena, s, b, size, page, r, grew, s', b') && b'.bigs == b.bigs && b'.bigNext == b.bigNext
  {
    AllocCases(arena, s, size, page, r, grew, mid, j, s');
    if SlobUnits(size) == 1 { OneUnitCase(arena, s, size, page, r, grew, mid, j, s'); }
    b' := b;
    if r.Block? && r.at != arena {
      AllocKept(arena, s, size, page, r.at, grew, mid, j, s', b);
      b' := b.(live := b.live + {Run(r.at, SlobUnits(size))},
               pages := if grew then b.pages + {Run(page.value, PAGE_UNITS)} else b.pages);
    }
  }

  lemma PageIsFresh(arena: nat, runs: seq<Run>, live: set<Run>, pages: set<Run>, page: Run)
    requires Books(arena, runs, live, pages) && page.base > arena + 1 && page.Range() !! Cover(pages)
    ensures page.Range() !! Cells(runs)
  {
    InRange(page, arena);
  }

  lemma AllocCases(arena: nat, s: SlobState, size: nat, page: Option<nat>, r: AllocResult, grew: bool,
                   mid: SlobState, j: nat, s': SlobState)
    requires Allocated(arena, s, size, page, r, grew, mid, j, s')
    ensures r.Panic? <==> size + UNIT >= PAGE_SIZE
    ensures !r.Block? ==> s' == s
    ensures r.Null? ==> page.None?
    ensures grew ==> r.Block? && page.Some?
    ensures r.Block? && r.at == arena ==> SlobUnits(size) <= 1
    ensures r == Block(arena) && |s.runs| == 1 && !grew ==> s' == s
  {
    if r.Block? {
      var k := ScanIndex(|mid.runs|, mid.rover, j);
      ScanIndexed(mid.runs, mid.rover, j);
      BasesAscend(mid.runs, 0, k);
    }
  }

  /** A one-unit request is met by whatever run comes after slobfree. */
  lemma OneUnitCase(arena: nat, s: SlobState, size: nat, page: Option<nat>, r: AllocResult, grew: bool,
                    mid: SlobState, j: nat, s': SlobState)
    requires Allocated(arena, s, size, page, r, grew, mid, j, s') && OkState(s) && SlobUnits(size) == 1
    ensures s.slobfree in s.next && s.next[s.slobfree] >= 0 && r == Block(s.next[s.slobfree]) && !grew
  {
    assert s.runs[0].len > 0 && !NoFit(s.runs, 1);
    ScanIndexed(s.runs, s.rover, 0);
    assert LinkedAt(s.units, s.next, s.runs, s.rover);
    FirstFitsAtOnce(ScanFrom(s.runs, s.rover), j);
    ScanIndexed(s.runs, s.rover, j);
  }

  lemma FirstFitsAtOnce(s: seq<Run>, j: nat)
    requires s != [] && s[0].len > 0
    ensures FirstFit(s, 1, j) ==> j == 0
  {
    if 0 < j < |s| { assert s[..j][0] == s[0]; }
  }

  /** The books b fit the heap in the state s. */
  ghost predicate Kept(arena: nat, s: SlobState, b: HeapBook) {
    && Books(arena, s.runs, b.live, b.pages) && BigBooks(arena, b.live, b.pages, b.bigs)
    && Headers(s.units, b.live, b.bigs) && Chain(s.units, s.next, b.bigNext, b.bigs)
  }

  /** Pages that alloc_pages may hand out: nothing of the heap or of the big areas lies in them. */
  ghost predicate PageOffer(arena: nat, p: Run, pages: set<Run>, bigs: seq<Big>) {
    && p.base % PAGE_UNITS == 0 && p.base > arena + 1 && p.Range() !! Cover(pages)
    && forall i | 0 <= i < |bigs| :: p.Range() !! bigs[i].Area().Range()
  }

  lemma GrownKept(arena: nat, s: SlobState, page: nat, s': SlobState, b: HeapBook)
    requires Kept(arena, s, b) && Grown(s, page, s')
    requires PageOffer(arena, Run(page, PAGE_UNITS), b.pages, b.bigs)
    ensures Kept(arena, s', b.(pages := b.pages + {Run(page, PAGE_UNITS)}))
  {
    var p := Run(page, PAGE_UNITS);
    BooksGrow(arena, s.runs, b.live, b.pages, p, s'.runs);
    CoverAdd(b.pages, p);
    LiveKept(s.units, s'.units, Cells(s'.runs), b.live, b.bigs);
    ChainKept(s.units, s'.units, s.next, s'.next, b.bigNext, Cells(s'.runs), b.live, b.bigs);
  }

  lemma CarvedKept(arena: nat, s: SlobState, k: nat, need: nat, at: nat, s': SlobState, b: HeapBook)
    requires Kept(arena, s, b) && Canonical(s.runs)
    requires 0 < k < |s.runs| && need > 0 && Carved(s, k, need, at, s')
    ensures Run(at, need) !in b.live
    ensures Kept(arena, s', b.(live := b.live + {Run(at, need)}))
  {
    BooksTake(arena, s.runs, b.live, b.pages, k, need);
    LiveKept(s.units, s'.units, Cells(s.runs), b.live, b.bigs);
    ChainKept(s.units, s'.units, s.next, s'.next, b.bigNext, Cells(s.runs), b.live, b.bigs);
  }

  /** A successful slob_alloc, in the books. */
  lemma AllocKept(arena: nat, s: SlobState, size: nat, page: Option<nat>, at: nat, grew: bool, mid: SlobState, j: nat,
                  s': SlobState, b: HeapBook)
    requires Allocated(arena, s, size, page, Block(at), grew, mid, j, s') && at != arena && size > 0
    requires Kept(arena, s, b)
    requires page.Some? ==> PageOffer(arena, Run(page.value, PAGE_UNITS), b.pages, b.bigs)
    ensures Run(at, SlobUnits(size)) !in b.live
    ensures Kept(arena, s', b.(live := b.live + {Run(at, SlobUnits(size))},
                               pages := if grew then b.pages + {Run(page.value, PAGE_UNITS)} else b.pages))
  {
    var k := ScanIndex(|mid.runs|, mid.rover, j);
    ScanIndexed(mid.runs, mid.rover, j);
    if grew {
      GrownKept(arena, s, page.value, mid, b);
      CarvedKept(arena, mid, k, SlobUnits(size), at, s', b.(pages := b.pages + {Run(page.value, PAGE_UNITS)}));
    } else {
      CarvedKept(arena, mid, k, SlobUnits(size), at, s', b);
    }
  }

  /** A small block with a payload, page-aligned or not, never has the address of a big area, so
      kfree does not take it for one. */
  lemma SmallIsNotBig(arena: nat, s: SlobState, b: HeapBook, p: nat, r: Run)
    requires Kept(arena, s, b) && s.runs != [] && s.runs[0] == Run(arena, 1)
    requires SmallAt(b, p, r) && r.len >= 2
    ensures NoBigAt(b.bigs, p)
  {
    LiveAboveArena(arena, s.runs, b.live, b.pages, r);
    InRange(r, p);
    forall i | 0 <= i < |b.bigs| ensures b.bigs[i].pages != p {
      InRange(b.bigs[i].Area(), b.bigs[i].pages);
      assert BigAt(arena, b.live, b.pages, b.bigs[i]);
    }
  }

  /** The units that two live blocks hold, and those that big areas hold, are all different, and none of
      them is on the free list. */
  lemma LiveBlocksDisjoint(arena: nat, s: SlobState, b: HeapBook, r: Run, q: Run)
    requires Kept(arena, s, b) && s.runs != [] && s.runs[0] == Run(arena, 1)
    requires r in b.live && q in b.live && r != q
    ensures r.Range() !! q.Range() && r.Range() !! Cells(s.runs)
    ensures forall i | 0 <= i < |b.bigs| :: r.Range() !! b.bigs[i].Area().Range()
    ensures forall i | 0 <= i < |b.bigs| :: b.bigs[i].Area().Range() !! Cells(s.runs)
    ensures forall i, j | 0 <= i < j < |b.bigs| :: b.bigs[i].Area().Range() !! b.bigs[j].Area().Range()
  {
    RangeInCover(b.live, r);
    LiveAboveArena(arena, s.runs, b.live, b.pages, r);
    InRange(r, arena);
    forall i | 0 <= i < |b.bigs|
      ensures r.Range() !! b.bigs[i].Area().Range() && b.bigs[i].Area().Range() !! Cells(s.runs)
    {
      assert BigAt(arena, b.live, b.pages, b.bigs[i]);
      InRange(b.bigs[i].Area(), arena);
    }
  }

  // ---------- the blocks of empty requests ----------

  /** kfree gives a small block back if and only if no big area starts at its payload. That can happen
      only to the block of an empty request, whose payload is the unit behind it. Then the area is
      freed in its place, and the block stays live. */
  lemma WhenFreedRight(arena: nat, s: SlobState, b: HeapBook, p: nat, r: Run, freed: Option<Run>, b': HeapBook)
    requires Kept(arena, s, b) && s.runs != [] && s.runs[0] == Run(arena, 1)
    requires SmallAt(b, p, r) && Kfreed(b, p, freed, b')
    ensures freed.None? && b' == b.(live := b.live - {r}) <==> NoBigAt(b.bigs, p)
    ensures r.len >= 2 ==> NoBigAt(b.bigs, p)
    ensures !NoBigAt(b.bigs, p) ==> freed.Some? && freed.value.base == p && r in b'.live
  {
    if r.len >= 2 { SmallIsNotBig(arena, s, b, p, r); }
    if NoBigAt(b.bigs, p) {
      var q :| SmallAt(b, p, q) && b' == b.(live := b.live - {q});
      assert r.Has(r.base) && r.base in r.Range();
      assert q.Has(q.base) && q.base in q.Range();
      assert q == r;
    }
  }

  /** A heap on which that happens: the page at unit 256 is full, its last unit being the block of an
      empty request, and the page behind it is a big area. */
  lemma EmptyBlockTakenForBig() returns (s: SlobState, b: HeapBook)
    ensures Kept(1, s, b) && OkState(s) && s.runs == [Run(1, 1)]
    ensures SmallAt(b, 512, Run(511, 1)) && Payload(b, 512)
    ensures forall freed, b' :: Kfreed(b, 512, freed, b') ==> freed == Some(Run(512, 256)) && Run(511, 1) in b'.live
  {
    var big := Big(768, 512, 0);
    b := HeapBook({Run(256, 255), Run(511, 1), Run(768, 2), Run(770, 254)}, {Run(256, 256), Run(768, 256)}, [big],
                  map[768 := 0]);
    s := SlobState(map[1 := 1, 256 := 255, 511 := 1, 768 := 0, 770 := 254], map[1 := 1, 768 := 512], 1, [Run(1, 1)], 0);
    assert Pow2(0) == 1 && big.Area() == Run(512, 256);
    FullPages(b, [Run(1, 1)]);
    assert big.Area().Range() !! Cover(b.pages) by {
      forall x | x in Cover(b.pages) ensures x !in big.Area().Range() {
        var q :| q in b.pages && q.Has(x);
      }
    }
    assert BigAt(1, b.live, b.pages, big);
    assert LinkedAt(s.units, s.next, s.runs, 0);
    assert RecordAt(s.units, s.next, b.bigNext, b.bigs, 0);
    assert b.bigs[0] == big && IsRecord(Run(768, 2), b.bigs);
    assert !IsRecord(Run(511, 1), b.bigs) && !NoBigAt(b.bigs, 512);
  }

  lemma FullPages(b: HeapBook, runs: seq<Run>)
    requires b.live == {Run(256, 255), Run(511, 1), Run(768, 2), Run(770, 254)}
             && b.pages == {Run(256, 256), Run(768, 256)}
    requires runs == [Run(1, 1)]
    ensures Books(1, runs, b.live, b.pages)
  {
    SingleCells(Run(1, 1));
    assert Run(1, 1).Has(1);
    assert Cells(runs) == {1};
    forall x ensures x in Cover(b.live) <==> x in Cover(b.pages) {
      if x in Cover(b.live) {
        var q :| q in b.live && q.Has(x);
        assert (if x < 512 then Run(256, 256) else Run(768, 256)).Has(x);
      }
      if x in Cover(b.pages) {
        var q :| q in b.pages && q.Has(x);
        assert (if x < 511 then Run(256, 255) else if x < 512 then Run(511, 1)
                else if x < 770 then Run(768, 2) else Run(770, 254)).Has(x);
      }
    }
    forall x | x in Cover(b.live) ensures x != 1 {
      var q :| q in b.live && q.Has(x);
    }
  }

  /** Why an empty request is outside all this: on a fresh heap the one free unit is the arena, it
      is handed out without leaving the free list, and the next empty request gets it again. */
  method EmptyRequestTwice(arena: nat) returns (p: AllocResult, q: AllocResult)
    requires arena > 0
    ensures p == q == Block(arena + 1)
  {
    var heap := new KernelHeap(arena);
    assert LinkedAt(heap.slob.units, heap.slob.next, heap.slob.runs, 0);
    ghost var s0, b0 := heap.slob.ListState(), heap.Book();
    ghost var g;
    p, g := heap.KMalloc(0, None, None);
    assert heap.slob.ListState() == s0 && heap.Book() == b0;
    q, g := heap.KMalloc(0, None, None);
  }
}
