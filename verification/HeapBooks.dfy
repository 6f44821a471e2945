// Who owns which unit of the kernel heap: the free list, the live blocks, the pages obtained from
// the page allocator, and the separate areas of big blocks.
module HeapBooks {
  import opened Powers
  import opened FreeRuns
  import opened SlobList

  /** One bigblock_t: its record is itself a live block of the heap, its area is not part of the heap. */
  datatype Big = Big(rec: nat, pages: nat, order: nat) {
    function Record(): Run { Run(rec, 2) }
    function Area(): Run { Run(pages, PAGE_UNITS * Pow2(order)) }
  }

  ghost function Cover(rs: set<Run>): set<int> {
    set r, x | r in rs && r.base <= x < r.End() && r.Has(x) :: x
  }

  ghost predicate Apart(rs: set<Run>) {
    forall r, q | r in rs && q in rs && r != q :: r.Range() !! q.Range()
  }

  ghost predicate IsPage(arena: nat, r: Run) {
    r.len == PAGE_UNITS && r.base % PAGE_UNITS == 0 && r.base > arena + 1
  }

  /** Every unit of the arena and of the obtained pages is either free or in exactly one live block. */
  ghost predicate Books(arena: nat, runs: seq<Run>, live: set<Run>, pages: set<Run>) {
    && Apart(live) && Apart(pages)
    && (forall r | r in live :: r.len > 0)
    && (forall q | q in pages :: IsPage(arena, q))
    && Cover(live) !! Cells(runs)
    && Cells(runs) + Cover(live) == {arena as int} + Cover(pages)
  }

  ghost predicate BigAt(arena: nat, live: set<Run>, pages: set<Run>, b: Big) {
    && b.Record() in live
    && b.pages % PAGE_UNITS == 0 && b.pages > arena + 1
    && b.Area().Range() !! Cover(pages)
  }

  ghost predicate BigsApart(bigs: seq<Big>) {
    forall i, j | 0 <= i < j < |bigs| :: bigs[i].rec != bigs[j].rec && bigs[i].Area().Range() !! bigs[j].Area().Range()
  }

  ghost predicate BigBooks(arena: nat, live: set<Run>, pages: set<Run>, bigs: seq<Big>) {
    && BigsApart(bigs)
    && forall i | 0 <= i < |bigs| :: BigAt(arena, live, pages, bigs[i])
  }

  // ---------- covers ----------

  lemma CoverAdd(rs: set<Run>, r: Run)
    ensures Cover(rs + {r}) == Cover(rs) + r.Range()
  {
    assert forall x | x in r.Range() :: r.Has(x);
    assert forall q | q in rs + {r} :: q in rs || q == r;
    forall x | x in Cover(rs) ensures x in Cover(rs + {r}) {
      var q :| q in rs && q.Has(x);
      assert q in rs + {r};
    }
  }

  lemma RangeInCover(rs: set<Run>, r: Run)
    requires r in rs
    ensures r.Range() <= Cover(rs)
  {
    assert forall x | x in r.Range() :: r.Has(x);
  }

  lemma CoverRemove(rs: set<Run>, r: Run)
    requires Apart(rs) && r in rs
    ensures Cover(rs - {r}) == Cover(rs) - r.Range()
  {
    assert rs == (rs - {r}) + {r};
    CoverAdd(rs - {r}, r);
    forall x | x in Cover(rs - {r}) ensures x !in r.Range() {
      var q :| q in rs - {r} && q.Has(x);
      InRange(q, x);
      assert q.Range() !! r.Range();
    }
  }

  // ---------- how the books change ----------

  /** A block is carved from the start of a free run. */
  lemma BooksTake(arena: nat, runs: seq<Run>, live: set<Run>, pages: set<Run>, k: nat, need: nat)
    requires Books(arena, runs, live, pages) && Canonical(runs) && k < |runs| && 0 < need <= runs[k].len
    ensures Books(arena, Taken(runs, k, need), live + {Run(runs[k].base, need)}, pages)
    ensures Run(runs[k].base, need) !in live
  {
    var b := Run(runs[k].base, need);
    TakenCells(runs, k, need);
    CoverAdd(live, b);
    FreshIsApart(live, b);
  }

  lemma FreshIsApart(live: set<Run>, b: Run)
    requires Apart(live) && b.len > 0 && b.Range() !! Cover(live)
    ensures Apart(live + {b}) && b !in live
  {
    forall r | r in live ensures r.Range() !! b.Range() {
      RangeInCover(live, r);
    }
    assert b.Has(b.base) && b.base in b.Range();
  }

  /** A page joins the free list. */
  lemma BooksGrow(arena: nat, runs: seq<Run>, live: set<Run>, pages: set<Run>, page: Run, runs': seq<Run>)
    requires Books(arena, runs, live, pages) && IsPage(arena, page) && page.Range() !! Cover(pages)
    requires Cells(runs') == Cells(runs) + page.Range()
    ensures Books(arena, runs', live, pages + {page})
  {
    CoverAdd(pages, page);
    FreshIsApart(pages, page);
    assert !page.Has(arena);
  }

  /** A block is given back. */
  lemma BooksFree(arena: nat, runs: seq<Run>, live: set<Run>, pages: set<Run>, b: Run, runs': seq<Run>)
    requires Books(arena, runs, live, pages) && b in live
    requires Cells(runs') == Cells(runs) + b.Range()
    ensures Books(arena, runs', live - {b}, pages)
  {
    CoverRemove(live, b);
    RangeInCover(live, b);
  }

  /** A live block lies above the arena unit and does not even touch it. */
  lemma LiveAboveArena(arena: nat, runs: seq<Run>, live: set<Run>, pages: set<Run>, b: Run)
    requires Books(arena, runs, live, pages) && b in live && runs != [] && runs[0] == Run(arena, 1)
    ensures b.base > arena + 1 && b.Range() <= Cover(pages)
  {
    RangeInCover(live, b);
    assert runs[0].Has(arena) && (arena as int) in Cells(runs);
    assert b.Has(b.base) && b.base in b.Range();
    var q :| q in pages && q.Has(b.base);
  }

  /** The free list is determined by the live blocks and the pages: no history shows in it. */
  lemma FreeListDetermined(arena: nat, runs: seq<Run>, runs': seq<Run>, live: set<Run>, pages: set<Run>)
    requires Books(arena, runs, live, pages) && Canonical(runs)
    requires Books(arena, runs', live, pages) && Canonical(runs')
    ensures runs == runs'
  {
    assert Cells(runs) == ({arena as int} + Cover(pages)) - Cover(live);
    assert Cells(runs') == ({arena as int} + Cover(pages)) - Cover(live);
    CanonicalIsUnique(runs, runs');
  }

  // ---------- conservation ----------

  lemma {:induction false} PagesCount(pages: set<Run>)
    requires Apart(pages) && forall q | q in pages :: q.len == PAGE_UNITS
    ensures |Cover(pages)| == PAGE_UNITS * |pages|
    decreases |pages|
  {
    if pages == {} {
      assert Cover(pages) == {};
    } else {
      var q :| q in pages;
      PagesCount(pages - {q});
      CoverRemove(pages, q);
      RangeInCover(pages, q);
      RangeSize(q);
      assert Cover(pages) == Cover(pages - {q}) + q.Range();
    }
  }

  /** Free units and live units together are 256 for every page ever obtained, plus the arena's one. */
  lemma Conservation(arena: nat, runs: seq<Run>, live: set<Run>, pages: set<Run>)
    requires Books(arena, runs, live, pages) && Canonical(runs)
    ensures Total(runs) + |Cover(live)| == PAGE_UNITS * |pages| + 1
  {
    TotalIsCount(runs);
    PagesCount(pages);
    forall q | q in pages ensures !q.Has(arena) { assert IsPage(arena, q); }
    assert (arena as int) !in Cover(pages);
    assert |Cells(runs) + Cover(live)| == |Cells(runs)| + |Cover(live)|;
    assert |{arena as int} + Cover(pages)| == 1 + |Cover(pages)|;
  }
}
