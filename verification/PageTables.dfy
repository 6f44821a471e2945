// The page-table operations of kern/mm/pmm.c, with swapping off. Page tables are named by the
// physical page number of their root, and pointers into tables by page and index.
module PageTables {
  import opened Options
  import opened Sv39
  import opened PageTree
  import opened FrameCounts

  const E_NO_MEM: int := 4

  /** get_pte may add tables taken from the free pages; it changes no mapping and no frame. */
  ghost predicate Extended(m: Machine, kind: map<nat, Kind>, m': Machine, kind': map<nat, Kind>) {
    && SameMaps(m.mem, m'.mem, kind)
    && (forall p | p in kind :: p in kind' && kind'[p] == kind[p])
    && (forall p | p in kind' && p !in kind :: p in m.free && (kind'[p].Mid? || kind'[p].Leafs?))
    && m'.free <= m.free && m'.mem.Keys == m.mem.Keys
    && (forall p | IsFrame(kind, p) && p in m.refs && p in m.mem ::
          p in m'.refs && m'.refs[p] == m.refs[p] && p in m'.mem && m'.mem[p] == m.mem[p])
  }

  lemma ExtendedTwice(m: Machine, kind: map<nat, Kind>, m1: Machine, kind1: map<nat, Kind>, m': Machine,
                      kind': map<nat, Kind>)
    requires Extended(m, kind, m1, kind1) && Extended(m1, kind1, m', kind')
    ensures Extended(m, kind, m', kind')
  {
    forall q: nat, w: nat | IsRoot(kind, q) && w < VPNS ensures Lookup(m'.mem, q, w) == Lookup(m.mem, q, w) {
      assert IsRoot(kind1, q);
    }
    forall p | IsFrame(kind, p) ensures IsFrame(kind1, p) {
    }
  }

  /** One level of get_pte, as a state change: the page t becomes the table below entry i of p. */
  ghost predicate TableAdded(m: Machine, kind: map<nat, Kind>, p: nat, i: nat, t: nat, m': Machine,
                             kind': map<nat, Kind>)
    requires p in kind && (kind[p].Root? || kind[p].Mid?)
  {
    && t in m.free && t in m.mem && p in m.mem && i < |m.mem[p]| && p != t
    && m' == Machine(Store(m.mem[t := Zeros()], p, i, PteCreate(t, 17)), m.refs[t := 1], m.free - {t})
    && kind' == kind[t := if kind[p].Root? then Mid(p, i) else Leafs(kind[p].root, kind[p].i, i)]
  }

  /** All words of the tables in use are as before, except possibly entry i of p. */
  ghost predicate WordsKept(mem: Mem, kind: map<nat, Kind>, p: nat, i: nat, mem': Mem) {
    forall q, k: nat | q in kind && !(q == p && k == i) :: Word(mem', q, k) == Word(mem, q, k)
  }

  lemma TableAddedDone(m: Machine, kind: map<nat, Kind>, roots: set<nat>, extra: Option<nat>,
                       p: nat, i: nat, t: nat, m': Machine, kind': map<nat, Kind>)
    requires Consistent(m, kind, roots, extra) && p in kind && (kind[p].Root? || kind[p].Mid?) && i < 512
    requires !IsV(Word(m.mem, p, i)) && TableAdded(m, kind, p, i, t, m', kind')
    ensures Consistent(m', kind', roots, extra) && Extended(m, kind, m', kind')
    ensures IsV(Word(m'.mem, p, i)) && WordsKept(m.mem, kind, p, i, m'.mem)
  {
    PteRoundTrip(t, 17);
    HungConsistent(m, kind, roots, extra, p, i, t, m', kind');
  }

  lemma ExtendedSelf(m: Machine, kind: map<nat, Kind>)
    ensures Extended(m, kind, m, kind)
  {
  }

  class Mmu {
    var mem: Mem
    var refs: map<nat, int>
    var free: set<nat>

    ghost var kind: map<nat, Kind>
    /** The roots of the tables whose entries are counted in the ref fields. */
    ghost var roots: set<nat>

    /** All the given pages are free. */
    constructor (pages: set<nat>, contents: Mem)
      requires contents.Keys == pages && forall p | p in pages :: p < 0x10_0000_0000_0000 && |contents[p]| == 512
      ensures Valid() && free == pages && kind == map[] && roots == {}
    {
      mem := contents;
      refs := map p | p in pages :: 0;
      free := pages;
      kind, roots := map[], {};
    }

    ghost function State(): Machine
      reads this
    {
      Machine(mem, refs, free)
    }

    ghost predicate ValidBut(extra: Option<nat>)
      reads this
    {
      Consistent(State(), kind, roots, extra)
    }

    ghost predicate Valid()
      reads this
    {
      ValidBut(None)
    }

    /** alloc_pages(1): with swapping off it fails exactly when no page is free. */
    method AllocPage() returns (page: Option<nat>)
      modifies this`free
      ensures page.None? <==> old(free) == {}
      ensures page.None? ==> free == old(free)
      ensures page.Some? ==> page.value in old(free) && free == old(free) - {page.value}
    {
      if free == {} {
        return None;
      }
      var p :| p in free;
      free := free - {p};
      page := Some(p);
    }

    /** One level of get_pte: an invalid entry gets a fresh, zeroed table if that is asked for. */
    method Descend(p: nat, i: nat, create: bool, ghost extra: Option<nat>) returns (ok: bool)
      requires ValidBut(extra) && p in kind && i < 512 && (kind[p].Root? || kind[p].Mid?)
      modifies this`mem, this`refs, this`free, this`kind
      ensures ValidBut(extra) && Extended(old(State()), old(kind), State(), kind)
      ensures ok <==> IsV(Word(mem, p, i))
      ensures !create || !ok || old(IsV(Word(mem, p, i))) ==> State() == old(State()) && kind == old(kind)
      ensures create && !ok ==> free == {}
      ensures WordsKept(old(mem), old(kind), p, i, mem)
    {
      ExtendedSelf(State(), kind);
      ok := IsV(Word(mem, p, i));
      if !ok && create {
        var page := AllocPage();
        if page.Some? {
          AddTable(p, i, page.value, extra);
          ok := true;
        }
      }
    }

    method AddTable(p: nat, i: nat, t: nat, ghost extra: Option<nat>)
      requires t !in free && Consistent(State().(free := free + {t}), kind, roots, extra)
      requires p in kind && i < 512 && (kind[p].Root? || kind[p].Mid?) && !IsV(Word(mem, p, i))
      modifies this`mem, this`refs, this`kind
      ensures ValidBut(extra) && Extended(old(State().(free := free + {t})), old(kind), State(), kind)
      ensures IsV(Word(mem, p, i)) && WordsKept(old(mem), old(kind), p, i, mem)
    {
      ghost var m := State().(free := free + {t});
      refs := refs[t := 1];
      mem := mem[t := Zeros()];
      mem := Store(mem, p, i, PteCreate(t, 17));
      kind := kind[t := if kind[p].Root? then Mid(p, i) else Leafs(kind[p].root, kind[p].i, i)];
      assert m.free - {t} == free;
      TableAddedDone(m, old(kind), roots, extra, p, i, t, State(), kind);
    }

    /** get_pte */
    method GetPte(r: nat, la: nat, create: bool, ghost extra: Option<nat>) returns (s: Option<Slot>)
      requires ValidBut(extra) && IsRoot(kind, r)
      modifies this`mem, this`refs, this`free, this`kind
      ensures ValidBut(extra) && Extended(old(State()), old(kind), State(), kind)
      ensures s == SlotOf(mem, r, Vpn(la))
      ensures !create || old(SlotOf(mem, r, Vpn(la))).Some? ==> State() == old(State()) && kind == old(kind)
      ensures create && s.None? ==> free == {}
    {
      IndicesOfVpn(la);
      IndexBounds(Vpn(la));
      var i1, i0 := Pdx1(la), Pdx0(la);
      var ok := Descend(r, i1, create, extra);
      if !ok {
        return None;
      }
      ghost var m1, kind1 := State(), kind;
      assert PointsDown(mem, kind, r, i1);
      var mid := Ppn(Word(mem, r, i1));
      ok := Descend(mid, i0, create, extra);
      ExtendedTwice(old(State()), old(kind), m1, kind1, State(), kind);
      if !ok {
        return None;
      }
      s := Some(Slot(Ppn(Word(mem, mid, i0)), Ptx(la)));
    }

    /** get_page */
    method GetPage(r: nat, la: nat) returns (page: Option<nat>)
      requires Valid() && IsRoot(kind, r)
      modifies this`mem, this`refs, this`free, this`kind
      ensures State() == old(State()) && kind == old(kind)
      ensures page == match Lookup(mem, r, Vpn(la)) case None => None case Some(e) => Some(Ppn(e))
      ensures page.Some? && r in roots ==> IsFrame(kind, page.value) && page.value !in free
    {
      var s := GetPte(r, la, false, None);
      if s.Some? && IsV(Word(mem, s.value.page, s.value.index)) {
        return Some(Ppn(Word(mem, s.value.page, s.value.index)));
      }
      page := None;
    }

    /** page_remove_pte on a valid entry e. */
    method DropMapping(e: nat, s: Slot, ghost r: nat, ghost v: nat)
      requires SlotOf(mem, r, v) == Some(s) && Lookup(mem, r, v) == Some(e)
      requires s.page in mem && s.index < |mem[s.page]| && Ppn(e) in refs && IsFrame(kind, Ppn(e))
      modifies this`mem, this`refs, this`free, this`kind
      ensures Unmapped(old(State()), old(kind), r, v, State(), kind)
    {
      var page := Ppn(e);
      refs := refs[page := refs[page] - 1];
      if refs[page] == 0 {
        free := free + {page};
        kind := kind - {page};
      }
      mem := Store(mem, s.page, s.index, 0);
    }

    /** page_remove_pte: a frame is freed exactly when its last mapping goes. */
    method PageRemovePte(r: nat, la: nat, s: Slot, ghost extra: Option<nat>)
      requires ValidBut(extra) && r in roots && SlotOf(mem, r, Vpn(la)) == Some(s)
      modifies this`mem, this`refs, this`free, this`kind
      ensures ValidBut(extra)
      ensures OneChanged(old(mem), mem, old(kind), r, Vpn(la), None) && SlotOf(mem, r, Vpn(la)) == Some(s)
      ensures RemoveOutcome(old(State()), old(kind), r, Vpn(la), State(), kind)
    {
      SlotKind(mem, kind, r, Vpn(la));
      var e := Word(mem, s.page, s.index);
      if IsV(e) {
        EntryIsFrame(State(), kind, roots, extra, r, Vpn(la));
        DropMapping(e, s, r, Vpn(la));
        RemovedDone(old(State()), old(kind), roots, extra, r, Vpn(la), State(), kind);
      } else {
        assert OneChanged(mem, mem, kind, r, Vpn(la), None);
      }
    }

    /** page_remove */
    method PageRemove(r: nat, la: nat)
      requires Valid() && r in roots
      modifies this`mem, this`refs, this`free, this`kind
      ensures Valid() && OneChanged(old(mem), mem, old(kind), r, Vpn(la), None)
      ensures RemoveOutcome(old(State()), old(kind), r, Vpn(la), State(), kind)
    {
      var s := GetPte(r, la, false, None);
      if s.Some? {
        PageRemovePte(r, la, s.value, None);
      }
    }

    /** The end of page_insert where the slot is invalid and the new mapping already counted. */
    method EnterMapping(r: nat, page: nat, v: nat, perm: nat, s: Slot)
      requires ValidBut(Some(page)) && r in roots && v < VPNS && perm < 1024
      requires SlotOf(mem, r, v) == Some(s) && Lookup(mem, r, v).None?
      modifies this`mem
      ensures Valid() && OneChanged(old(mem), mem, kind, r, v, Some(PteCreate(page, perm)))
      ensures FramesKept(old(State()), kind, State(), kind)
    {
      SlotKind(mem, kind, r, v);
      mem := Store(mem, s.page, s.index, PteCreate(page, perm));
      MappedConsistent(old(State()), kind, roots, r, v, page, perm, State());
    }

    /** The end of page_insert where the slot names the page already. */
    method RenewMapping(r: nat, page: nat, v: nat, perm: nat, s: Slot)
      requires Valid() && r in roots && v < VPNS && perm < 1024 && IsFrame(kind, page)
      requires SlotOf(mem, r, v) == Some(s) && Maps(mem, r, v, page)
      modifies this`mem
      ensures Valid() && OneChanged(old(mem), mem, kind, r, v, Some(PteCreate(page, perm)))
      ensures FramesKept(old(State()), kind, State(), kind)
    {
      SlotKind(mem, kind, r, v);
      mem := Store(mem, s.page, s.index, PteCreate(page, perm));
      RemappedConsistent(old(State()), kind, roots, r, v, page, perm, State());
    }

    /** The rest of page_insert, once get_pte has found the slot. */
    method MapSlot(r: nat, page: nat, la: nat, perm: nat, s: Slot)
      requires Valid() && r in roots && IsFrame(kind, page) && perm < 1024 && SlotOf(mem, r, Vpn(la)) == Some(s)
      modifies this`mem, this`refs, this`free, this`kind
      ensures Valid() && IsFrame(kind, page)
      ensures OneChanged(old(mem), mem, old(kind), r, Vpn(la), Some(PteCreate(page, perm)))
      ensures OnlyFreed(old(State()), r, Vpn(la), State())
      ensures FramesKept(old(State()), old(kind), State(), kind)
    {
      refs := refs[page := refs[page] + 1];
      var e := Word(mem, s.page, s.index);
      if IsV(e) && Ppn(e) == page {
        refs := refs[page := refs[page] - 1];
        assert refs == old(refs);
        RenewMapping(r, page, Vpn(la), perm, s);
        return;
      }
      CountAhead(old(State()), kind, roots, page, State());
      ReplaceMapping(r, page, la, perm, s);
    }

    /** The page is counted already, and the slot names another one or none. */
    method ReplaceMapping(r: nat, page: nat, la: nat, perm: nat, s: Slot)
      requires ValidBut(Some(page)) && r in roots && perm < 1024 && SlotOf(mem, r, Vpn(la)) == Some(s)
      requires !Maps(mem, r, Vpn(la), page)
      modifies this`mem, this`refs, this`free, this`kind
      ensures Valid() && IsFrame(kind, page)
      ensures OneChanged(old(mem), mem, old(kind), r, Vpn(la), Some(PteCreate(page, perm)))
      ensures OnlyFreed(old(State()), r, Vpn(la), State())
      ensures FramesKept(old(State()), old(kind), State(), kind)
    {
      hide Tree, Mappers, PteCreate, Counted, Backed;
      if IsV(Word(mem, s.page, s.index)) {
        PageRemovePte(r, la, s, Some(page));
      } else {
        assert OneChanged(mem, mem, kind, r, Vpn(la), None);
      }
      ghost var m1, kind1 := State(), kind;
      RemovedKeeps(old(State()), old(kind), roots, page, r, Vpn(la), m1, kind1);
      EnterMapping(r, page, Vpn(la), perm, s);
      ChangedTwice(old(mem), m1.mem, mem, old(kind), kind1, r, Vpn(la), PteCreate(page, perm));
    }

    /** page_insert, for a page that alloc_page has handed out. */
    method PageInsert(r: nat, page: nat, la: nat, perm: nat) returns (ret: int)
      requires Valid() && r in roots && IsFrame(kind, page) && perm < 1024
      modifies this`mem, this`refs, this`free, this`kind
      ensures Valid() && IsFrame(kind, page)
      ensures ret == 0 || ret == -4
      ensures old(SlotOf(mem, r, Vpn(la))).Some? ==> ret == 0
      ensures ret != 0 ==> free == {} && Extended(old(State()), old(kind), State(), kind)
      ensures OnlyFreed(old(State()), r, Vpn(la), State())
      ensures FramesKept(old(State()), old(kind), State(), kind)
      ensures ret == 0 ==> OneChanged(old(mem), mem, old(kind), r, Vpn(la), Some(PteCreate(page, perm)))
      ensures ret == 0 ==> EntryAt(mem, r, Vpn(la), page, perm)
    {
      var s := GetPte(r, la, true, None);
      ghost var m1, kind1 := State(), kind;
      ExtendedKeeps(old(State()), old(kind), m1, kind1, roots);
      if s.None? {
        return -E_NO_MEM;
      }
      MapSlot(r, page, la, perm, s.value);
      ExtendedThenChanged(old(State()), old(kind), m1, kind1, mem, r, Vpn(la), Some(PteCreate(page, perm)));
      KeptTwice(old(State()), old(kind), m1, kind1, State(), kind);
      EntryMade(old(mem), mem, old(kind), r, Vpn(la), page, perm);
      ret := 0;
    }

    /** One round of the loop of unmap_range: a page, or the rest of a block without a table. */
    method UnmapStep(r: nat, cur: nat, ghost end: nat) returns (next: nat)
      requires Valid() && r in roots && cur % PGSIZE == 0 && cur < end <= USERTOP && end % PGSIZE == 0
      modifies this`mem, this`refs, this`free, this`kind
      ensures Valid() && RootsKept(old(kind), kind)
      ensures cur < next && next % PGSIZE == 0
      ensures Cleared(old(mem), mem, old(kind), r, cur / PGSIZE, (if next < end then next else end) / PGSIZE)
    {
      VpnOfUser(cur);
      var s := GetPte(r, cur, false, None);
      if s.None? {
        NextTablePage(cur);
        next := NextTable(cur);
        SkipClears(mem, kind, r, cur / PGSIZE, (if next < end then next else end) / PGSIZE);
      } else {
        ClearSlot(r, cur, s.value);
        next := cur + PGSIZE;
      }
    }

    method ClearSlot(r: nat, la: nat, s: Slot)
      requires Valid() && r in roots && SlotOf(mem, r, Vpn(la)) == Some(s)
      modifies this`mem, this`refs, this`free, this`kind
      ensures Valid() && RootsKept(old(kind), kind)
      ensures Cleared(old(mem), mem, old(kind), r, Vpn(la), Vpn(la) + 1)
    {
      if Word(mem, s.page, s.index) != 0 {
        PageRemovePte(r, la, s, None);
        RemovedRoots(old(State()), old(kind), roots, r, Vpn(la), State(), kind);
      }
    }

    /** unmap_range */
    method UnmapRange(r: nat, start: nat, end: nat)
      requires Valid() && r in roots && UserRange(start, end)
      modifies this`mem, this`refs, this`free, this`kind
      ensures Valid() && RootsKept(old(kind), kind)
      ensures Cleared(old(mem), mem, old(kind), r, start / PGSIZE, end / PGSIZE)
    {
      var cur := start;
      ghost var done := start;
      while true
        invariant Valid() && RootsKept(old(kind), kind)
        invariant start <= cur < end && cur % PGSIZE == 0 && done == cur
        invariant Cleared(old(mem), mem, old(kind), r, start / PGSIZE, done / PGSIZE)
        decreases end - cur
      {
        ghost var mem0, kind0 := mem, kind;
        var next := UnmapStep(r, cur, end);
        done := if next < end then next else end;
        ClearedTwice(old(mem), mem0, mem, old(kind), kind0, r, start / PGSIZE, cur / PGSIZE, done / PGSIZE);
        cur := next;
        if !(cur != 0 && cur < end) {
          break;
        }
      }
    }
  }

  // ---------- ranges of user addresses ----------

  /** The assertions at the head of unmap_range and copy_range. */
  predicate UserRange(start: nat, end: nat) {
    start % PGSIZE == 0 && end % PGSIZE == 0 && USERBASE <= start < end <= USERTOP
  }

  /** What the assertions of unmap_range and copy_range ask for, in figures. */
  lemma UserRangeIs(start: nat, end: nat)
    ensures UserRange(start, end) <==>
            start % 4096 == 0 && end % 4096 == 0 && 0x20_0000 <= start < end <= 0x8000_0000
  {
  }

  /** ROUNDDOWN(start + PTSIZE, PTSIZE) */
  function NextTable(start: nat): nat {
    start + PTSIZE - (start + PTSIZE) % PTSIZE
  }

  lemma VpnOfUser(la: nat)
    requires la < 0x80_0000_0000
    ensures Vpn(la) == la / PGSIZE
  {
  }

  /** The table r maps nothing at the pages from lo up to hi, and else all is as before. */
  ghost predicate Cleared(mem: Mem, mem': Mem, kind: map<nat, Kind>, r: nat, lo: nat, hi: nat) {
    forall q: nat, w: nat | IsRoot(kind, q) && w < VPNS ::
      Lookup(mem', q, w) == if q == r && lo <= w < hi then None else Lookup(mem, q, w)
  }

  /** Where no table covers a page, none covers the rest of its 2 MiB block. */
  lemma EmptyBlock(mem: Mem, r: nat, v: nat, w: nat)
    requires SlotOf(mem, r, v).None? && v / 512 == w / 512
    ensures Lookup(mem, r, w).None?
  {
    assert v / 512 / 512 == v / 0x4_0000 && w / 512 / 512 == w / 0x4_0000;
  }

  lemma NextTablePage(start: nat)
    requires start % PGSIZE == 0
    ensures start < NextTable(start) && NextTable(start) % PGSIZE == 0
    ensures NextTable(start) / PGSIZE == (start / PGSIZE / 512 + 1) * 512
  {
    var v := start / PGSIZE;
    var b, o := v / 512, v % 512;
    assert start + PTSIZE == (b + 1) * PTSIZE + o * PGSIZE;
    PartOfTable(b + 1, o * PGSIZE);
    assert NextTable(start) == ((b + 1) * 512) * PGSIZE;
    WholePages((b + 1) * 512);
  }

  lemma PartOfTable(n: nat, r: nat)
    requires r < PTSIZE
    ensures (n * PTSIZE + r) % PTSIZE == r
  {
  }

  lemma WholePages(n: nat)
    ensures n * PGSIZE % PGSIZE == 0 && n * PGSIZE / PGSIZE == n
  {
  }

  lemma SkipClears(mem: Mem, kind: map<nat, Kind>, r: nat, v: nat, hi: nat)
    requires SlotOf(mem, r, v).None? && hi <= (v / 512 + 1) * 512
    ensures Cleared(mem, mem, kind, r, v, hi)
  {
    forall w: nat | v <= w < hi ensures Lookup(mem, r, w).None? {
      EmptyBlock(mem, r, v, w);
    }
  }

  ghost predicate RootsKept(kind: map<nat, Kind>, kind': map<nat, Kind>) {
    forall q | IsRoot(kind, q) :: IsRoot(kind', q)
  }

  lemma RemovedRoots(m: Machine, kind: map<nat, Kind>, roots: set<nat>, r: nat, v: nat, m': Machine,
                     kind': map<nat, Kind>)
    requires Consistent(m, kind, roots, None) && r in roots && v < VPNS && RemoveOutcome(m, kind, r, v, m', kind')
    ensures RootsKept(kind, kind')
  {
    if Lookup(m.mem, r, v).Some? {
      EntryIsFrame(m, kind, roots, None, r, v);
    }
  }

  lemma ClearedTwice(mem0: Mem, mem: Mem, mem': Mem, kind0: map<nat, Kind>, kind: map<nat, Kind>, r: nat, lo: nat,
                     v: nat, hi: nat)
    requires Cleared(mem0, mem, kind0, r, lo, v) && Cleared(mem, mem', kind, r, v, hi) && lo <= v <= hi
    requires RootsKept(kind0, kind)
    ensures Cleared(mem0, mem', kind0, r, lo, hi)
  {
    forall q: nat, w: nat | IsRoot(kind0, q) && w < VPNS
      ensures Lookup(mem', q, w) == if q == r && lo <= w < hi then None else Lookup(mem0, q, w)
    {
      assert IsRoot(kind, q);
    }
  }

  /** What page_remove_pte does: nothing to an invalid entry. */
  ghost predicate RemoveOutcome(m: Machine, kind: map<nat, Kind>, r: nat, v: nat, m': Machine, kind': map<nat, Kind>) {
    if Lookup(m.mem, r, v).None? then m' == m && kind' == kind else Unmapped(m, kind, r, v, m', kind')
  }

  lemma ChangedTwice(mem: Mem, mem1: Mem, mem': Mem, kind: map<nat, Kind>, kind1: map<nat, Kind>, r: nat, v: nat,
                     e: nat)
    requires OneChanged(mem, mem1, kind, r, v, None) && OneChanged(mem1, mem', kind1, r, v, Some(e))
    requires forall q | IsRoot(kind, q) :: IsRoot(kind1, q)
    ensures OneChanged(mem, mem', kind, r, v, Some(e))
  {
    forall q: nat, w: nat | IsRoot(kind, q) && w < VPNS
      ensures Lookup(mem', q, w) == if q == r && w == v then Some(e) else Lookup(mem, q, w)
    {
      assert IsRoot(kind1, q);
    }
  }

  lemma ExtendedThenChanged(m: Machine, kind: map<nat, Kind>, m1: Machine, kind1: map<nat, Kind>, mem': Mem, r: nat,
                            v: nat, e: Option<nat>)
    requires Extended(m, kind, m1, kind1) && OneChanged(m1.mem, mem', kind1, r, v, e)
    ensures OneChanged(m.mem, mem', kind, r, v, e)
  {
    forall q: nat, w: nat | IsRoot(kind, q) && w < VPNS
      ensures Lookup(mem', q, w) == if q == r && w == v then e else Lookup(m.mem, q, w)
    {
      assert IsRoot(kind1, q);
    }
  }

  lemma RemovedDone(m: Machine, kind: map<nat, Kind>, roots: set<nat>, extra: Option<nat>, r: nat, v: nat,
                    m': Machine, kind': map<nat, Kind>)
    requires Consistent(m, kind, roots, extra) && r in roots && v < VPNS && Unmapped(m, kind, r, v, m', kind')
    ensures Consistent(m', kind', roots, extra) && OneChanged(m.mem, m'.mem, kind, r, v, None)
    ensures SlotOf(m'.mem, r, v) == SlotOf(m.mem, r, v)
  {
    UnmappedConsistent(m, kind, roots, extra, r, v, m', kind');
    LeafStoredLookup(m.mem, kind, r, v, 0, r, v);
  }

  lemma EntryIsFrame(m: Machine, kind: map<nat, Kind>, roots: set<nat>, extra: Option<nat>, r: nat, v: nat)
    requires Consistent(m, kind, roots, extra) && r in roots && v < VPNS && Lookup(m.mem, r, v).Some?
    ensures IsFrame(kind, Ppn(Lookup(m.mem, r, v).value)) && Ppn(Lookup(m.mem, r, v).value) in m.refs
  {
  }

  lemma RemovedKeeps(m: Machine, kind: map<nat, Kind>, roots: set<nat>, page: nat, r: nat, v: nat,
                     m': Machine, kind': map<nat, Kind>)
    requires Consistent(m, kind, roots, Some(page)) && r in roots && v < VPNS && !Maps(m.mem, r, v, page)
    requires RemoveOutcome(m, kind, r, v, m', kind')
    ensures FramesKept(m, kind, m', kind') && IsFrame(kind', page)
  {
    if Lookup(m.mem, r, v).Some? {
      EntryIsFrame(m, kind, roots, Some(page), r, v);
      SlotKind(m.mem, kind, r, v);
    }
  }

  /** The frames that stay allocated keep their bytes, and the roots stay roots. */
  ghost predicate FramesKept(m: Machine, kind: map<nat, Kind>, m': Machine, kind': map<nat, Kind>) {
    && (forall f | IsFrame(kind, f) && IsFrame(kind', f) && f in m.mem :: f in m'.mem && m'.mem[f] == m.mem[f])
    && (forall q | IsRoot(kind, q) :: IsRoot(kind', q))
  }

  /** The page v of r is mapped to the page number with the permissions, field by field. */
  ghost predicate EntryAt(mem: Mem, r: nat, v: nat, ppn: nat, perm: nat) {
    Lookup(mem, r, v).Some? && IsEntry(Lookup(mem, r, v).value, ppn, perm)
  }

  lemma EntryMade(mem: Mem, mem': Mem, kind: map<nat, Kind>, r: nat, v: nat, ppn: nat, perm: nat)
    requires IsRoot(kind, r) && v < VPNS && perm < 1024
    requires OneChanged(mem, mem', kind, r, v, Some(PteCreate(ppn, perm)))
    ensures EntryAt(mem', r, v, ppn, perm)
  {
    EntryOfPte(ppn, perm);
  }

  /** No page is freed but one that v of r has named. */
  ghost predicate OnlyFreed(m: Machine, r: nat, v: nat, m': Machine) {
    forall p | p in m'.free && p !in m.free :: Maps(m.mem, r, v, p)
  }

  lemma ExtendedKeeps(m: Machine, kind: map<nat, Kind>, m': Machine, kind': map<nat, Kind>, roots: set<nat>)
    requires Consistent(m, kind, roots, None) && Extended(m, kind, m', kind')
    ensures FramesKept(m, kind, m', kind')
  {
    forall f | IsFrame(kind, f) && f in m.mem ensures f in m'.mem && m'.mem[f] == m.mem[f] {
      assert f in m.refs;
    }
  }

  /** m1 has all the frames that m has, so nothing is lost on the way. */
  lemma KeptTwice(m: Machine, kind: map<nat, Kind>, m1: Machine, kind1: map<nat, Kind>, m': Machine,
                  kind': map<nat, Kind>)
    requires FramesKept(m, kind, m1, kind1) && FramesKept(m1, kind1, m', kind')
    requires forall p | p in kind :: p in kind1 && kind1[p] == kind[p]
    ensures FramesKept(m, kind, m', kind')
  {
    forall f | IsFrame(kind, f) && IsFrame(kind', f) && f in m.mem ensures f in m'.mem && m'.mem[f] == m.mem[f] {
      assert IsFrame(kind1, f);
    }
    forall q | IsRoot(kind, q) ensures IsRoot(kind', q) {
      assert IsRoot(kind1, q);
    }
  }

  lemma CountAhead(m: Machine, kind: map<nat, Kind>, roots: set<nat>, page: nat, m': Machine)
    requires Consistent(m, kind, roots, None) && IsFrame(kind, page)
    requires m' == m.(refs := m.refs[page := m.refs[page] + 1])
    ensures Consistent(m', kind, roots, Some(page))
  {
  }
}
