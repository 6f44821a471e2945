// Reference counts of page frames against the page tables that map them.
module FrameCounts {
  import opened Options
  import opened Sv39
  import opened PageTree

  /** Physical memory, the ref fields of the page descriptors, and the pages the allocator holds. */
  datatype Machine = Machine(mem: Mem, refs: map<nat, int>, free: set<nat>)

  /** Some valid leaf entry of the table r, at page v, names the frame p. */
  predicate Maps(mem: Mem, r: nat, v: nat, p: nat) {
    Lookup(mem, r, v).Some? && Ppn(Lookup(mem, r, v).value) == p
  }

  ghost function Mappers(mem: Mem, roots: set<nat>, p: nat): set<(nat, nat)> {
    set r: nat, v: nat | r in roots && v < VPNS && Maps(mem, r, v, p) :: (r, v)
  }

  /** Each frame's ref is the number of valid leaf entries that name it, plus one for the frame, if
      any, that an insertion in progress already counts. */
  ghost predicate Counted(m: Machine, kind: map<nat, Kind>, roots: set<nat>, extra: Option<nat>) {
    forall p | p in kind && kind[p].Frame? ::
      p in m.refs && m.refs[p] == |Mappers(m.mem, roots, p)| + if extra == Some(p) then 1 else 0
  }

  /** What valid leaf entries name is an allocated frame, never a free page or a table. */
  ghost predicate Backed(mem: Mem, kind: map<nat, Kind>, roots: set<nat>) {
    forall r: nat, v: nat | r in roots && v < VPNS && Lookup(mem, r, v).Some? ::
      IsFrame(kind, Ppn(Lookup(mem, r, v).value))
  }

  predicate IsFrame(kind: map<nat, Kind>, p: nat) {
    p in kind && kind[p].Frame?
  }

  ghost predicate Pages(m: Machine, kind: map<nat, Kind>) {
    && m.free <= m.mem.Keys && kind.Keys <= m.mem.Keys && m.free !! kind.Keys
    && (forall p | p in m.mem :: |m.mem[p]| == 512 && p < 0x10_0000_0000_0000 && p in m.refs)
    && (forall p | p in m.free :: m.refs[p] == 0)
    && (forall p | p in kind && (kind[p].Mid? || kind[p].Leafs?) :: m.refs[p] == 1)
  }

  ghost predicate Consistent(m: Machine, kind: map<nat, Kind>, roots: set<nat>, extra: Option<nat>) {
    && Pages(m, kind) && Tree(m.mem, kind)
    && (forall r | r in roots :: IsRoot(kind, r))
    && Backed(m.mem, kind, roots) && Counted(m, kind, roots, extra)
    && (extra.Some? ==> IsFrame(kind, extra.value))
  }

  /** All abstract maps below the given roots are the same. */
  ghost predicate SameMaps(mem: Mem, mem': Mem, kind: map<nat, Kind>) {
    forall q: nat, w: nat | IsRoot(kind, q) && w < VPNS :: Lookup(mem', q, w) == Lookup(mem, q, w)
  }

  /** All abstract maps are the same except that r maps v to e. */
  ghost predicate OneChanged(mem: Mem, mem': Mem, kind: map<nat, Kind>, r: nat, v: nat, e: Option<nat>) {
    forall q: nat, w: nat | IsRoot(kind, q) && w < VPNS ::
      Lookup(mem', q, w) == if q == r && w == v then e else Lookup(mem, q, w)
  }

  lemma SameMappers(mem: Mem, mem': Mem, kind: map<nat, Kind>, roots: set<nat>, p: nat)
    requires SameMaps(mem, mem', kind) && forall r | r in roots :: IsRoot(kind, r)
    ensures Mappers(mem', roots, p) == Mappers(mem, roots, p)
  {
    forall r: nat, v: nat | r in roots && v < VPNS ensures Maps(mem', r, v, p) == Maps(mem, r, v, p) {
      assert IsRoot(kind, r);
    }
  }

  /** A fresh table is hung into a tree: get_pte's two allocations. */
  lemma HungConsistent(m: Machine, kind: map<nat, Kind>, roots: set<nat>, extra: Option<nat>,
                       p: nat, i: nat, t: nat, m': Machine, kind': map<nat, Kind>)
    requires Consistent(m, kind, roots, extra) && t in m.free
    requires TableHung(m.mem, kind, p, i, t, m'.mem, kind')
    requires m'.refs == m.refs[t := 1] && m'.free == m.free - {t}
    ensures Consistent(m', kind', roots, extra) && SameMaps(m.mem, m'.mem, kind)
  {
    HungTree(m.mem, kind, p, i, t, m'.mem, kind');
    forall q: nat, w: nat | IsRoot(kind, q) && w < VPNS ensures Lookup(m'.mem, q, w) == Lookup(m.mem, q, w) {
      HungLookup(m.mem, kind, p, i, t, m'.mem, kind', q, w);
    }
    forall f | f in kind' && kind'[f].Frame? ensures Mappers(m'.mem, roots, f) == Mappers(m.mem, roots, f) {
      SameMappers(m.mem, m'.mem, kind, roots, f);
    }
  }

  /** A leaf entry is rewritten. */
  lemma StoredMaps(mem: Mem, kind: map<nat, Kind>, r: nat, v: nat, s: Slot, e: nat)
    requires Tree(mem, kind) && IsRoot(kind, r) && v < VPNS && SlotOf(mem, r, v) == Some(s)
    ensures s.page in mem && s.index < |mem[s.page]|
    ensures Tree(Store(mem, s.page, s.index, e), kind)
    ensures OneChanged(mem, Store(mem, s.page, s.index, e), kind, r, v, if IsV(e) then Some(e) else None)
  {
    SlotKind(mem, kind, r, v);
    LeafStored(mem, kind, s, e);
    forall q: nat, w: nat | IsRoot(kind, q) && w < VPNS
      ensures Lookup(Store(mem, s.page, s.index, e), q, w) ==
              if q == r && w == v then (if IsV(e) then Some(e) else None) else Lookup(mem, q, w)
    {
      LeafStoredLookup(mem, kind, r, v, e, q, w);
    }
  }

  lemma OneMapperLess(mem: Mem, mem': Mem, kind: map<nat, Kind>, roots: set<nat>, r: nat, v: nat, p: nat)
    requires OneChanged(mem, mem', kind, r, v, None) && r in roots && v < VPNS
    requires forall q | q in roots :: IsRoot(kind, q)
    ensures Mappers(mem', roots, p) == Mappers(mem, roots, p) - {(r, v)}
    ensures (r, v) in Mappers(mem, roots, p) <==> Maps(mem, r, v, p)
  {
    forall q: nat, w: nat | q in roots && w < VPNS
      ensures Maps(mem', q, w, p) == (Maps(mem, q, w, p) && !(q == r && w == v))
    {
      assert IsRoot(kind, q);
    }
  }

  lemma OneMapperMore(mem: Mem, mem': Mem, kind: map<nat, Kind>, roots: set<nat>, r: nat, v: nat, e: nat, p: nat)
    requires OneChanged(mem, mem', kind, r, v, Some(e)) && r in roots && v < VPNS
    requires forall q | q in roots :: IsRoot(kind, q)
    requires Lookup(mem, r, v).None?
    ensures Mappers(mem', roots, p) == if Ppn(e) == p then Mappers(mem, roots, p) + {(r, v)} else Mappers(mem, roots, p)
    ensures (r, v) !in Mappers(mem, roots, p)
  {
    forall q: nat, w: nat | q in roots && w < VPNS
      ensures Maps(mem', q, w, p) == if q == r && w == v then Ppn(e) == p else Maps(mem, q, w, p)
    {
      assert IsRoot(kind, q);
    }
  }

  /** page_remove_pte on a valid entry: the frame loses one reference, and goes when it was the last. */
  ghost predicate Unmapped(m: Machine, kind: map<nat, Kind>, r: nat, v: nat, m': Machine, kind': map<nat, Kind>) {
    && SlotOf(m.mem, r, v).Some? && Lookup(m.mem, r, v).Some?
    && var s, p := SlotOf(m.mem, r, v).value, Ppn(Lookup(m.mem, r, v).value);
       && s.page in m.mem && s.index < |m.mem[s.page]| && p in m.refs
       && m'.mem == Store(m.mem, s.page, s.index, 0)
       && m'.refs == m.refs[p := m.refs[p] - 1]
       && if m.refs[p] == 1 then m'.free == m.free + {p} && kind' == kind - {p} else m'.free == m.free && kind' == kind
  }

  lemma UnmappedConsistent(m: Machine, kind: map<nat, Kind>, roots: set<nat>, extra: Option<nat>, r: nat, v: nat,
                           m': Machine, kind': map<nat, Kind>)
    requires Consistent(m, kind, roots, extra) && r in roots && v < VPNS && Unmapped(m, kind, r, v, m', kind')
    ensures Consistent(m', kind', roots, extra)
    ensures OneChanged(m.mem, m'.mem, kind, r, v, None)
    ensures m.refs[Ppn(Lookup(m.mem, r, v).value)] == 1 <==> Ppn(Lookup(m.mem, r, v).value) in m'.free
  {
    var s, p := SlotOf(m.mem, r, v).value, Ppn(Lookup(m.mem, r, v).value);
    StoredMaps(m.mem, kind, r, v, s, 0);
    assert IsFrame(kind, p);
    UnmappedCounted(m, kind, roots, extra, r, v, m', kind');
    UnmappedBacked(m, kind, roots, extra, r, v, m', kind');
    UnmappedPages(m, kind, r, v, m', kind');
    if m.refs[p] == 1 { WithoutFrame(m'.mem, kind, p); }
    assert forall q | q in roots :: IsRoot(kind', q);
  }

  lemma UnmappedPages(m: Machine, kind: map<nat, Kind>, r: nat, v: nat, m': Machine, kind': map<nat, Kind>)
    requires Pages(m, kind) && Unmapped(m, kind, r, v, m', kind') && IsFrame(kind, Ppn(Lookup(m.mem, r, v).value))
    ensures Pages(m', kind')
  {
  }

  lemma WithoutFrame(mem: Mem, kind: map<nat, Kind>, p: nat)
    requires Tree(mem, kind) && IsFrame(kind, p)
    ensures Tree(mem, kind - {p})
  {
    forall q, i: nat | q in kind - {p} && i < 512 ensures PointsDown(mem, kind - {p}, q, i) {
      assert PointsDown(mem, kind, q, i);
    }
  }

  lemma UnmappedCounted(m: Machine, kind: map<nat, Kind>, roots: set<nat>, extra: Option<nat>, r: nat, v: nat,
                        m': Machine, kind': map<nat, Kind>)
    requires Consistent(m, kind, roots, extra) && r in roots && v < VPNS && Unmapped(m, kind, r, v, m', kind')
    requires OneChanged(m.mem, m'.mem, kind, r, v, None)
    ensures Counted(m', kind', roots, extra)
    ensures m.refs[Ppn(Lookup(m.mem, r, v).value)] == 1 ==>
              extra != Some(Ppn(Lookup(m.mem, r, v).value))
              && Mappers(m'.mem, roots, Ppn(Lookup(m.mem, r, v).value)) == {}
    ensures m.refs[Ppn(Lookup(m.mem, r, v).value)] >= 1
  {
    var p := Ppn(Lookup(m.mem, r, v).value);
    assert IsFrame(kind, p);
    OneMapperLess(m.mem, m'.mem, kind, roots, r, v, p);
    assert |Mappers(m'.mem, roots, p)| == |Mappers(m.mem, roots, p)| - 1;
    forall f | f in kind' && kind'[f].Frame?
      ensures f in m'.refs && m'.refs[f] == |Mappers(m'.mem, roots, f)| + if extra == Some(f) then 1 else 0
    {
      assert f in kind && kind[f].Frame?;
      if f != p { OneMapperLess(m.mem, m'.mem, kind, roots, r, v, f); }
    }
  }

  lemma UnmappedBacked(m: Machine, kind: map<nat, Kind>, roots: set<nat>, extra: Option<nat>, r: nat, v: nat,
                       m': Machine, kind': map<nat, Kind>)
    requires Consistent(m, kind, roots, extra) && r in roots && v < VPNS && Unmapped(m, kind, r, v, m', kind')
    requires OneChanged(m.mem, m'.mem, kind, r, v, None)
    ensures Backed(m'.mem, kind', roots)
  {
    UnmappedCounted(m, kind, roots, extra, r, v, m', kind');
    var p := Ppn(Lookup(m.mem, r, v).value);
    forall q: nat, w: nat | q in roots && w < VPNS && Lookup(m'.mem, q, w).Some?
      ensures IsFrame(kind', Ppn(Lookup(m'.mem, q, w).value))
    {
      assert IsRoot(kind, q);
      assert Lookup(m'.mem, q, w) == Lookup(m.mem, q, w);
      if m.refs[p] == 1 {
        assert (q, w) !in Mappers(m'.mem, roots, p);
      }
    }
  }

  /** A frame whose new mapping is already counted gets its entry: the end of page_insert. */
  lemma MappedConsistent(m: Machine, kind: map<nat, Kind>, roots: set<nat>, r: nat, v: nat, p: nat, perm: nat,
                         m': Machine)
    requires Consistent(m, kind, roots, Some(p)) && r in roots && v < VPNS && perm < 1024
    requires SlotOf(m.mem, r, v).Some? && Lookup(m.mem, r, v).None?
    requires var s := SlotOf(m.mem, r, v).value;
             && s.page in m.mem && s.index < |m.mem[s.page]|
             && m' == m.(mem := Store(m.mem, s.page, s.index, PteCreate(p, perm)))
    ensures Consistent(m', kind, roots, None)
    ensures OneChanged(m.mem, m'.mem, kind, r, v, Some(PteCreate(p, perm)))
  {
    var s, e := SlotOf(m.mem, r, v).value, PteCreate(p, perm);
    PteRoundTrip(p, perm);
    StoredMaps(m.mem, kind, r, v, s, e);
    forall f | f in kind && kind[f].Frame?
      ensures f in m'.refs && m'.refs[f] == |Mappers(m'.mem, roots, f)|
    {
      OneMapperMore(m.mem, m'.mem, kind, roots, r, v, e, f);
    }
    forall q: nat, w: nat | q in roots && w < VPNS && Lookup(m'.mem, q, w).Some?
      ensures IsFrame(kind, Ppn(Lookup(m'.mem, q, w).value))
    {
      assert IsRoot(kind, q);
    }
  }

  /** Rewriting an entry with the frame it already names changes no count. */
  lemma RemappedConsistent(m: Machine, kind: map<nat, Kind>, roots: set<nat>, r: nat, v: nat, p: nat, perm: nat,
                           m': Machine)
    requires Consistent(m, kind, roots, None) && r in roots && v < VPNS && perm < 1024 && IsFrame(kind, p)
    requires SlotOf(m.mem, r, v).Some? && Maps(m.mem, r, v, p)
    requires var s := SlotOf(m.mem, r, v).value;
             && s.page in m.mem && s.index < |m.mem[s.page]|
             && m' == m.(mem := Store(m.mem, s.page, s.index, PteCreate(p, perm)))
    ensures Consistent(m', kind, roots, None)
    ensures OneChanged(m.mem, m'.mem, kind, r, v, Some(PteCreate(p, perm)))
  {
    var s, e := SlotOf(m.mem, r, v).value, PteCreate(p, perm);
    PteRoundTrip(p, perm);
    StoredMaps(m.mem, kind, r, v, s, e);
    forall f | f in kind && kind[f].Frame?
      ensures Mappers(m'.mem, roots, f) == Mappers(m.mem, roots, f)
    {
      forall q: nat, w: nat | q in roots && w < VPNS ensures Maps(m'.mem, q, w, f) == Maps(m.mem, q, w, f) {
        assert IsRoot(kind, q);
      }
    }
    forall q: nat, w: nat | q in roots && w < VPNS && Lookup(m'.mem, q, w).Some?
      ensures IsFrame(kind, Ppn(Lookup(m'.mem, q, w).value))
    {
      assert IsRoot(kind, q);
    }
  }
}
