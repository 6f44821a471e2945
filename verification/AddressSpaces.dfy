// Making tables, giving pages to address spaces, and the boot-time linear mapping (kern/mm/pmm.c).
module AddressSpaces {
  import opened Options
  import opened Sv39
  import opened PageTree
  import opened FrameCounts
  import opened PageTables
  import opened CopyRange

  /** A zeroed page becomes the root of a new, empty table. */
  ghost predicate RootAdded(m: Machine, kind: map<nat, Kind>, t: nat, m': Machine, kind': map<nat, Kind>) {
    && t in m.free && t !in kind
    && m' == m.(mem := m.mem[t := Zeros()], free := m.free - {t}) && kind' == kind[t := Root]
  }

  lemma RootAddedMaps(m: Machine, kind: map<nat, Kind>, roots: set<nat>, t: nat, m': Machine, kind': map<nat, Kind>)
    requires Consistent(m, kind, roots, None) && RootAdded(m, kind, t, m', kind')
    ensures SameMaps(m.mem, m'.mem, kind) && Tree(m'.mem, kind')
    ensures forall v: nat | v < VPNS :: Lookup(m'.mem, t, v).None?
  {
    forall q: nat, w: nat | IsRoot(kind, q) && w < VPNS ensures Lookup(m'.mem, q, w) == Lookup(m.mem, q, w) {
      IndexBounds(w);
      assert PointsDown(m.mem, kind, q, Index1(w));
      if SlotOf(m.mem, q, w).Some? { SlotKind(m.mem, kind, q, w); }
    }
    forall p, i: nat | p in kind' && i < 512 ensures PointsDown(m'.mem, kind', p, i) {
      if p != t { assert PointsDown(m.mem, kind, p, i); }
    }
  }

  lemma RootAddedConsistent(m: Machine, kind: map<nat, Kind>, roots: set<nat>, t: nat, m': Machine,
                            kind': map<nat, Kind>)
    requires Consistent(m, kind, roots, None) && RootAdded(m, kind, t, m', kind')
    ensures Consistent(m', kind', roots, None) && Consistent(m', kind', roots + {t}, None)
  {
    RootAddedMaps(m, kind, roots, t, m', kind');
    forall p | p in kind' && kind'[p].Frame?
      ensures Mappers(m'.mem, roots, p) == Mappers(m.mem, roots, p)
              && Mappers(m'.mem, roots + {t}, p) == Mappers(m.mem, roots, p)
    {
      SameMappers(m.mem, m'.mem, kind, roots, p);
    }
    forall q: nat, w: nat | q in roots && w < VPNS && Lookup(m'.mem, q, w).Some?
      ensures IsFrame(kind', Ppn(Lookup(m'.mem, q, w).value))
    {
      assert IsRoot(kind, q);
    }
  }

  /** alloc_page and memset: a new table, counted in the ref fields or not. */
  method NewTable(mmu: Mmu, counted: bool) returns (root: Option<nat>)
    requires mmu.Valid()
    modifies mmu
    ensures mmu.Valid() && SameMaps(old(mmu.mem), mmu.mem, old(mmu.kind))
    ensures root.None? ==> mmu.State() == old(mmu.State()) && mmu.kind == old(mmu.kind) && mmu.roots == old(mmu.roots)
    ensures root.Some? ==>
              && IsRoot(mmu.kind, root.value) && root.value !in old(mmu.kind) && RootsKept(old(mmu.kind), mmu.kind)
              && (forall v: nat | v < VPNS :: Lookup(mmu.mem, root.value, v).None?)
              && mmu.roots == if counted then old(mmu.roots) + {root.value} else old(mmu.roots)
  {
    root := mmu.AllocPage();
    if root.Some? {
      var t := root.value;
      mmu.mem := mmu.mem[t := Zeros()];
      mmu.kind := mmu.kind[t := Root];
      RootAddedMaps(old(mmu.State()), old(mmu.kind), mmu.roots, t, mmu.State(), mmu.kind);
      RootAddedConsistent(old(mmu.State()), old(mmu.kind), mmu.roots, t, mmu.State(), mmu.kind);
      if counted { mmu.roots := mmu.roots + {t}; }
    }
  }

  // ---------- pgdir_alloc_page ----------

  /** A frame that nothing maps goes back to the allocator. */
  lemma FrameReturned(m: Machine, kind: map<nat, Kind>, roots: set<nat>, f: nat, m': Machine, kind': map<nat, Kind>)
    requires Consistent(m, kind, roots, None) && IsFrame(kind, f) && Mappers(m.mem, roots, f) == {}
    requires m' == m.(refs := m.refs[f := 0], free := m.free + {f}) && kind' == kind - {f}
    ensures Consistent(m', kind', roots, None)
  {
    WithoutFrame(m.mem, kind, f);
    forall q: nat, w: nat | q in roots && w < VPNS && Lookup(m.mem, q, w).Some?
      ensures IsFrame(kind', Ppn(Lookup(m.mem, q, w).value))
    {
      assert (q, w) !in Mappers(m.mem, roots, f);
    }
  }

  /** alloc_page for a frame: nothing maps it yet. */
  method TakeFrame(mmu: Mmu) returns (page: Option<nat>)
    requires mmu.Valid()
    modifies mmu`free, mmu`kind
    ensures mmu.Valid() && SameMaps(old(mmu.mem), mmu.mem, old(mmu.kind)) && RootsKept(old(mmu.kind), mmu.kind)
    ensures page.None? <==> old(mmu.free) == {}
    ensures page.None? ==> mmu.free == {}
    ensures page.Some? ==> page.value in old(mmu.free) && IsFrame(mmu.kind, page.value)
    ensures page.Some? ==> mmu.free == old(mmu.free) - {page.value}
    ensures page.Some? ==> page.value < 0x10_0000_0000_0000 && Mappers(mmu.mem, mmu.roots, page.value) == {}
  {
    ghost var m0, kind0 := mmu.State(), mmu.kind;
    page := mmu.AllocPage();
    if page.Some? {
      mmu.kind := mmu.kind[page.value := Frame];
      FrameTaken(m0, kind0, mmu.roots, page.value, mmu.State(), mmu.kind);
    }
  }

  lemma FrameTaken(m: Machine, kind: map<nat, Kind>, roots: set<nat>, f: nat, m': Machine, kind': map<nat, Kind>)
    requires Consistent(m, kind, roots, None) && f in m.free
    requires m' == m.(free := m.free - {f}) && kind' == kind[f := Frame]
    ensures Consistent(m', kind', roots, None) && Mappers(m'.mem, roots, f) == {} && f < 0x10_0000_0000_0000
  {
    assert m'.mem == m.mem[f := m.mem[f]];
    FilledMaps(m, kind, roots, f, m.mem[f], m', kind');
    FilledConsistent(m, kind, roots, f, m.mem[f], m', kind');
    FreshIsUnmapped(m, kind, roots, f);
  }

  /** free_page of a frame that nothing maps. */
  method ReturnFrame(mmu: Mmu, f: nat)
    requires mmu.Valid() && IsFrame(mmu.kind, f) && Mappers(mmu.mem, mmu.roots, f) == {}
    modifies mmu`refs, mmu`free, mmu`kind
    ensures mmu.Valid() && mmu.free == old(mmu.free) + {f} && mmu.kind == old(mmu.kind) - {f}
  {
    ghost var m, kind := mmu.State(), mmu.kind;
    mmu.refs := mmu.refs[f := 0];
    mmu.free := mmu.free + {f};
    mmu.kind := mmu.kind - {f};
    FrameReturned(m, kind, mmu.roots, f, mmu.State(), mmu.kind);
  }

  /** pgdir_alloc_page: a fresh frame at la, or, if a page is missing anywhere, no mapping changed and the
      frame, the only page then free, given back. */
  method PgdirAllocPage(mmu: Mmu, r: nat, la: nat, perm: nat) returns (page: Option<nat>)
    requires mmu.Valid() && r in mmu.roots && perm < 1024
    modifies mmu
    ensures mmu.Valid() && mmu.roots == old(mmu.roots)
    ensures page.None? ==> SameMaps(old(mmu.mem), mmu.mem, old(mmu.kind))
    ensures page.None? ==>
            if old(mmu.free) == {} then mmu.free == {} else exists f | f in old(mmu.free) :: mmu.free == {f}
    ensures page.Some? ==>
              && page.value in old(mmu.free) && IsFrame(mmu.kind, page.value)
              && OneChanged(old(mmu.mem), mmu.mem, old(mmu.kind), r, Vpn(la), Some(PteCreate(page.value, perm)))
              && Mappers(mmu.mem, mmu.roots, page.value) == {(r, Vpn(la))}
              && EntryAt(mmu.mem, r, Vpn(la), page.value, perm)
  {
    ghost var mem0, kind0, roots := mmu.mem, mmu.kind, mmu.roots;
    page := TakeFrame(mmu);
    if page.None? {
      return;
    }
    var f := page.value;
    ghost var m1, kind1 := mmu.State(), mmu.kind;
    var ret := mmu.PageInsert(r, f, la, perm);
    if ret != 0 {
      SameMappers(m1.mem, mmu.mem, kind1, roots, f);
      SameMapsTwice(mem0, m1.mem, mmu.mem, kind0, kind1);
      ReturnFrame(mmu, f);
      return None;
    }
    OnlyMapper(m1, mmu.mem, kind1, roots, r, Vpn(la), f, perm);
    ChangedLater(mem0, m1.mem, mmu.mem, kind0, kind1, r, Vpn(la), Some(PteCreate(f, perm)));
  }

  lemma ChangedLater(mem: Mem, mem1: Mem, mem': Mem, kind: map<nat, Kind>, kind1: map<nat, Kind>, r: nat, v: nat,
                     e: Option<nat>)
    requires SameMaps(mem, mem1, kind) && OneChanged(mem1, mem', kind1, r, v, e) && RootsKept(kind, kind1)
    ensures OneChanged(mem, mem', kind, r, v, e)
  {
    forall q: nat, w: nat | IsRoot(kind, q) && w < VPNS
      ensures Lookup(mem', q, w) == if q == r && w == v then e else Lookup(mem, q, w)
    {
      assert IsRoot(kind1, q);
    }
  }

  lemma SameMapsTwice(mem: Mem, mem1: Mem, mem': Mem, kind: map<nat, Kind>, kind1: map<nat, Kind>)
    requires SameMaps(mem, mem1, kind) && SameMaps(mem1, mem', kind1) && RootsKept(kind, kind1)
    ensures SameMaps(mem, mem', kind)
  {
    forall q: nat, w: nat | IsRoot(kind, q) && w < VPNS ensures Lookup(mem', q, w) == Lookup(mem, q, w) {
      assert IsRoot(kind1, q);
    }
  }

  lemma OnlyMapper(m: Machine, mem': Mem, kind: map<nat, Kind>, roots: set<nat>, r: nat, v: nat, f: nat, perm: nat)
    requires Consistent(m, kind, roots, None) && Mappers(m.mem, roots, f) == {} && f < 0x10_0000_0000_0000
             && perm < 1024
    requires r in roots && v < VPNS && OneChanged(m.mem, mem', kind, r, v, Some(PteCreate(f, perm)))
    ensures Mappers(mem', roots, f) == {(r, v)}
  {
    PteRoundTrip(f, perm);
    forall q: nat, w: nat | q in roots && w < VPNS ensures Maps(mem', q, w, f) == (q == r && w == v) {
      assert IsRoot(kind, q) && (q, w) !in Mappers(m.mem, roots, f);
    }
  }

  // ---------- boot_map_segment ----------

  /** The table r maps the n pages from v on to the frames from ppn on; all else is as before. */
  ghost predicate Segment(mem: Mem, mem': Mem, kind: map<nat, Kind>, r: nat, v: nat, n: nat, ppn: nat, perm: nat) {
    forall q: nat, w: nat | IsRoot(kind, q) && w < VPNS ::
      Lookup(mem', q, w) == if q == r && v <= w < v + n then Some(PteCreate(ppn + (w - v), perm)) else Lookup(mem, q, w)
  }

  /** An entry of a table that is not counted is rewritten. */
  lemma UncountedStore(m: Machine, kind: map<nat, Kind>, roots: set<nat>, r: nat, v: nat, e: nat, m': Machine)
    requires Consistent(m, kind, roots, None) && IsRoot(kind, r) && r !in roots && v < VPNS && IsV(e)
    requires SlotOf(m.mem, r, v).Some?
    requires var s := SlotOf(m.mem, r, v).value;
             && s.page in m.mem && s.index < |m.mem[s.page]| && m' == m.(mem := Store(m.mem, s.page, s.index, e))
    ensures Consistent(m', kind, roots, None) && OneChanged(m.mem, m'.mem, kind, r, v, Some(e))
  {
    StoredMaps(m.mem, kind, r, v, SlotOf(m.mem, r, v).value, e);
    forall p | p in kind && kind[p].Frame? ensures Mappers(m'.mem, roots, p) == Mappers(m.mem, roots, p) {
      forall q: nat, w: nat | q in roots && w < VPNS ensures Maps(m'.mem, q, w, p) == Maps(m.mem, q, w, p) {
        assert IsRoot(kind, q);
      }
    }
    forall q: nat, w: nat | q in roots && w < VPNS && Lookup(m'.mem, q, w).Some?
      ensures IsFrame(kind, Ppn(Lookup(m'.mem, q, w).value))
    {
      assert IsRoot(kind, q);
    }
  }

  lemma SegmentGrows(mem: Mem, mem1: Mem, mem': Mem, kind: map<nat, Kind>, kind1: map<nat, Kind>, r: nat, v: nat,
                     k: nat, ppn: nat, perm: nat)
    requires Segment(mem, mem1, kind, r, v, k, ppn, perm) && RootsKept(kind, kind1)
    requires OneChanged(mem1, mem', kind1, r, v + k, Some(PteCreate(ppn + k, perm)))
    ensures Segment(mem, mem', kind, r, v, k + 1, ppn, perm)
  {
    forall q: nat, w: nat | IsRoot(kind, q) && w < VPNS
      ensures Lookup(mem', q, w) == if q == r && v <= w < v + k + 1 then Some(PteCreate(ppn + (w - v), perm))
              else Lookup(mem, q, w)
    {
      assert IsRoot(kind1, q);
    }
  }

  lemma MadeValid(ppn: nat, perm: nat)
    requires perm < 1024
    ensures IsV(PteCreate(ppn, perm))
  {
    var w := WithV(perm);
    assert w == 2 * (w / 2) + 1;
    assert PteCreate(ppn, perm) == 2 * (512 * ppn + w / 2) + 1;
  }

  /** One page of boot_map_segment. */
  method MapBootPage(mmu: Mmu, r: nat, la: nat, ppn: nat, perm: nat) returns (ok: bool)
    requires mmu.Valid() && IsRoot(mmu.kind, r) && r !in mmu.roots && perm < 1024
    modifies mmu
    ensures mmu.Valid() && mmu.roots == old(mmu.roots) && RootsKept(old(mmu.kind), mmu.kind)
    ensures ok ==> OneChanged(old(mmu.mem), mmu.mem, old(mmu.kind), r, Vpn(la), Some(PteCreate(ppn, perm)))
    ensures !ok ==> mmu.free == {} && SameMaps(old(mmu.mem), mmu.mem, old(mmu.kind))
  {
    hide Backed, Counted, OneChanged, PteCreate, IsV;
    var s := mmu.GetPte(r, la, true, None);
    if s.None? {
      return false;
    }
    ghost var m1, kind1 := mmu.State(), mmu.kind;
    SlotKind(mmu.mem, mmu.kind, r, Vpn(la));
    MadeValid(ppn, perm);
    mmu.mem := Store(mmu.mem, s.value.page, s.value.index, PteCreate(ppn, perm));
    UncountedStore(m1, kind1, mmu.roots, r, Vpn(la), PteCreate(ppn, perm), mmu.State());
    ExtendedThenChanged(old(mmu.State()), old(mmu.kind), m1, kind1, mmu.mem, r, Vpn(la), Some(PteCreate(ppn, perm)));
    ok := true;
  }

  /** boot_map_segment, for a segment that does not wrap around the top of the address space. The
      result is false where its assertion that a table could be had fails. */
  method BootMapSegment(mmu: Mmu, r: nat, la: nat, size: nat, pa: nat, perm: nat) returns (ok: bool)
    requires mmu.Valid() && IsRoot(mmu.kind, r) && r !in mmu.roots && perm < 1024
    requires la % PGSIZE == pa % PGSIZE && Vpn(la) + SegmentPages(la, size) <= VPNS
    modifies mmu
    ensures mmu.Valid() && mmu.roots == old(mmu.roots)
    ensures ok ==> Segment(old(mmu.mem), mmu.mem, old(mmu.kind), r, Vpn(la), SegmentPages(la, size), pa / PGSIZE, perm)
    ensures ok ==> forall w: nat | Vpn(la) <= w < Vpn(la) + SegmentPages(la, size) ::
              SegmentEntry(mmu.mem, r, Vpn(la), pa / 4096, perm, w)
    ensures !ok ==> mmu.free == {}
  {
    hide Segment, OneChanged;
    SegmentStarts(mmu.mem, mmu.kind, r, Vpn(la), pa / PGSIZE, perm);
    var n := SegmentPages(la, size);
    var cur, ppn := la - la % PGSIZE, pa / PGSIZE;
    ghost var k := 0;
    while n > 0
      invariant mmu.Valid() && mmu.roots == old(mmu.roots) && RootsKept(old(mmu.kind), mmu.kind) && IsRoot(mmu.kind, r)
      invariant k + n == SegmentPages(la, size) && ppn == pa / PGSIZE + k && cur == (la / PGSIZE + k) * PGSIZE
      invariant Segment(old(mmu.mem), mmu.mem, old(mmu.kind), r, Vpn(la), k, pa / PGSIZE, perm)
    {
      ghost var mem1, kind1 := mmu.mem, mmu.kind;
      NextVpn(la, k);
      ok := MapBootPage(mmu, r, cur, ppn, perm);
      if !ok {
        return;
      }
      SegmentGrows(old(mmu.mem), mem1, mmu.mem, old(mmu.kind), kind1, r, Vpn(la), k, pa / PGSIZE, perm);
      n, cur, ppn := n - 1, cur + PGSIZE, ppn + 1;
      k := k + 1;
    }
    SegmentEntries(old(mmu.mem), mmu.mem, old(mmu.kind), r, Vpn(la), k, pa / PGSIZE, perm);
    ok := true;
  }

  /** The page w of a segment that begins at v is mapped to its page number, field by field. */
  ghost predicate SegmentEntry(mem: Mem, r: nat, v: nat, ppn: nat, perm: nat, w: nat)
    requires v <= w
  {
    EntryAt(mem, r, w, ppn + (w - v), perm)
  }

  lemma SegmentEntries(mem: Mem, mem': Mem, kind: map<nat, Kind>, r: nat, v: nat, n: nat, ppn: nat, perm: nat)
    requires Segment(mem, mem', kind, r, v, n, ppn, perm) && IsRoot(kind, r) && v + n <= VPNS && perm < 1024
    ensures forall w: nat | v <= w < v + n :: SegmentEntry(mem', r, v, ppn, perm, w)
  {
    hide IsEntry;
    forall w: nat | v <= w < v + n ensures SegmentEntry(mem', r, v, ppn, perm, w) {
      EntryOfPte(ppn + (w - v), perm);
    }
  }

  lemma SegmentStarts(mem: Mem, kind: map<nat, Kind>, r: nat, v: nat, ppn: nat, perm: nat)
    ensures Segment(mem, mem, kind, r, v, 0, ppn, perm) && RootsKept(kind, kind)
  {
  }

  /** ROUNDUP(size + PGOFF(la), PGSIZE) / PGSIZE */
  function SegmentPages(la: nat, size: nat): nat {
    (size + la % PGSIZE + PGSIZE - 1) / PGSIZE
  }

  /** The pages of a segment hold all its bytes, and the last of them at least one. */
  lemma SegmentPagesHold(la: nat, size: nat)
    ensures la - la % 4096 + 4096 * SegmentPages(la, size) >= la + size
    ensures size > 0 ==> la - la % 4096 + 4096 * SegmentPages(la, size) < la + size + 4096
  {
  }

  lemma NextVpn(la: nat, k: nat)
    requires Vpn(la) + k < VPNS
    ensures Vpn((la / PGSIZE + k) * PGSIZE) == Vpn(la) + k
  {
    var p := la / PGSIZE;
    assert (p + k) * PGSIZE / PGSIZE == p + k;
    assert p == p / VPNS * VPNS + p % VPNS;
    assert p + k == p / VPNS * VPNS + (p % VPNS + k);
  }
}
