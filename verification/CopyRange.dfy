// copy_range (kern/mm/pmm.c): the pages of one address space duplicated into another.
module CopyRange {
  import opened Options
  import opened Sv39
  import opened PageTree
  import opened FrameCounts
  import opened PageTables

  /** NoMem is the return value -E_NO_MEM, OutOfPages the failed assertion that a frame was found. */
  datatype Result = Done | NoMem | OutOfPages

  // ---------- what one page's copy means ----------

  /** At page v the child has its own frame, mapped nowhere else, with the parent's bytes and the
      parent's user bits; where the parent has nothing the child is as it was. */
  ghost predicate CopiedPage(m0: Machine, mem: Mem, roots: set<nat>, to: nat, from: nat, lo: nat, v: nat) {
    match Lookup(m0.mem, from, v)
    case None => Lookup(mem, to, v) == Lookup(m0.mem, to, v)
    case Some(e) => exists f: nat :: CopyIn(m0, mem, roots, to, lo, v, e, f)
  }

  ghost predicate CopyIn(m0: Machine, mem: Mem, roots: set<nat>, to: nat, lo: nat, v: nat, e: nat, f: nat) {
    && f < 0x10_0000_0000_0000 && Available(m0, roots, to, lo, v, f)
    && Lookup(mem, to, v) == Some(PteCreate(f, UserBits(e)))
    && Mappers(mem, roots, f) == {(to, v)}
    && f in mem && Ppn(e) in m0.mem && mem[f] == m0.mem[Ppn(e)]
  }

  /** A page that can be free when the pages from lo up to v have been copied: it was free at the start, or
      it was mapped at some of those pages of the child, which have been given others, and nowhere else. */
  ghost predicate Available(m0: Machine, roots: set<nat>, to: nat, lo: nat, v: nat, f: nat) {
    || f in m0.free
    || ((exists w: nat :: w < VPNS && Maps(m0.mem, to, w, f)) && MappedWithin(m0, roots, to, lo, v, f))
  }

  ghost predicate MappedWithin(m0: Machine, roots: set<nat>, to: nat, lo: nat, v: nat, f: nat) {
    forall q: nat, w: nat | q in roots && w < VPNS && Maps(m0.mem, q, w, f) :: q == to && lo <= w < v
  }

  /** The pages from lo up to hi are copied, everything else is mapped as before, the frames of the
      parent keep their bytes, and no page is free that should not be. */
  ghost predicate Copied(m0: Machine, m: Machine, kind0: map<nat, Kind>, roots: set<nat>, to: nat, from: nat, lo: nat,
                         hi: nat) {
    && (forall v: nat | lo <= v < hi && v < VPNS :: CopiedPage(m0, m.mem, roots, to, from, lo, v))
    && (forall q: nat, w: nat | IsRoot(kind0, q) && w < VPNS && !(q == to && lo <= w < hi) ::
          Lookup(m.mem, q, w) == Lookup(m0.mem, q, w))
    && (forall w: nat | w < VPNS :: ParentFrameKept(m0.mem, m.mem, from, w))
    && (forall f | f in m.free :: Available(m0, roots, to, lo, hi, f))
  }

  ghost predicate ParentFrameKept(mem0: Mem, mem: Mem, from: nat, w: nat) {
    match Lookup(mem0, from, w)
    case None => true
    case Some(e) => Ppn(e) in mem0 && Ppn(e) in mem && mem[Ppn(e)] == mem0[Ppn(e)]
  }

  /** The effect of one round that copies: the fresh frame f, filled from the parent's, is mapped at v. */
  ghost predicate PageCopied(m: Machine, kind: map<nat, Kind>, roots: set<nat>, to: nat, from: nat, v: nat, f: nat,
                             m': Machine, kind': map<nat, Kind>)
  {
    && v < VPNS && Lookup(m.mem, from, v).Some? && f < 0x10_0000_0000_0000 && f !in kind && f in m.free
    && var e := Lookup(m.mem, from, v).value;
       && OneChanged(m.mem, m'.mem, kind, to, v, Some(PteCreate(f, UserBits(e))))
       && f in m'.mem && Ppn(e) in m.mem && m'.mem[f] == m.mem[Ppn(e)]
       && FramesKept(m, kind, m', kind') && OnlyFreed(m, to, v, m')
  }

  lemma FreshIsUnmapped(m: Machine, kind: map<nat, Kind>, roots: set<nat>, f: nat)
    requires Consistent(m, kind, roots, None) && f !in kind
    ensures Mappers(m.mem, roots, f) == {}
  {
    forall r: nat, v: nat | r in roots && v < VPNS ensures !Maps(m.mem, r, v, f) {
    }
  }

  /** A mapped frame survives a round unless the round itself replaced its mapping. */
  lemma StillMapped(m: Machine, kind: map<nat, Kind>, roots: set<nat>, to: nat, from: nat, v: nat, f: nat,
                    m': Machine, kind': map<nat, Kind>, q: nat, w: nat)
    requires Consistent(m, kind, roots, None) && Consistent(m', kind', roots, None)
    requires PageCopied(m, kind, roots, to, from, v, f, m', kind')
    requires q in roots && w < VPNS && !(q == to && w == v) && Lookup(m.mem, q, w).Some?
    ensures Lookup(m'.mem, q, w) == Lookup(m.mem, q, w)
    ensures var p := Ppn(Lookup(m.mem, q, w).value); p in m.mem && p in m'.mem && m'.mem[p] == m.mem[p]
  {
    assert IsRoot(kind, q);
    var p := Ppn(Lookup(m.mem, q, w).value);
    assert IsFrame(kind, p);
    assert Lookup(m'.mem, q, w).Some? && IsFrame(kind', p);
  }

  lemma MappersAfter(m: Machine, kind: map<nat, Kind>, roots: set<nat>, to: nat, from: nat, v: nat, f: nat,
                     m': Machine, kind': map<nat, Kind>, g: nat)
    requires Consistent(m, kind, roots, None) && to in roots && PageCopied(m, kind, roots, to, from, v, f, m', kind')
    requires (to, v) !in Mappers(m.mem, roots, g)
    ensures Mappers(m'.mem, roots, g) == if g == f then Mappers(m.mem, roots, g) + {(to, v)}
            else Mappers(m.mem, roots, g)
  {
    var e := PteCreate(f, UserBits(Lookup(m.mem, from, v).value));
    PteRoundTrip(f, UserBits(Lookup(m.mem, from, v).value));
    forall q: nat, w: nat | q in roots && w < VPNS
      ensures Maps(m'.mem, q, w, g) == if q == to && w == v then f == g else Maps(m.mem, q, w, g)
    {
      assert IsRoot(kind, q);
    }
  }

  lemma OldCopyKept(m0: Machine, m: Machine, kind: map<nat, Kind>, roots: set<nat>, to: nat, from: nat,
                    lo: nat, v: nat, f: nat, m': Machine, kind': map<nat, Kind>, w: nat)
    requires Consistent(m, kind, roots, None) && Consistent(m', kind', roots, None)
    requires to in roots && PageCopied(m, kind, roots, to, from, v, f, m', kind')
    requires w < VPNS && w != v && CopiedPage(m0, m.mem, roots, to, from, lo, w)
    ensures CopiedPage(m0, m'.mem, roots, to, from, lo, w)
  {
    assert IsRoot(kind, to);
    if Lookup(m0.mem, from, w).Some? {
      var e := Lookup(m0.mem, from, w).value;
      var g: nat :| CopyIn(m0, m.mem, roots, to, lo, w, e, g);
      assert UserBits(e) < 1024;
      PteRoundTrip(g, UserBits(e));
      StillMapped(m, kind, roots, to, from, v, f, m', kind', to, w);
      assert (to, v) !in Mappers(m.mem, roots, g);
      MappersAfter(m, kind, roots, to, from, v, f, m', kind', g);
      assert IsFrame(kind, g);
      assert CopyIn(m0, m'.mem, roots, to, lo, w, e, g);
    }
  }

  lemma NewCopy(m0: Machine, m: Machine, kind: map<nat, Kind>, roots: set<nat>, to: nat, from: nat,
                lo: nat, v: nat, f: nat, m': Machine, kind': map<nat, Kind>)
    requires Consistent(m, kind, roots, None) && to in roots
    requires PageCopied(m, kind, roots, to, from, v, f, m', kind')
    requires Lookup(m.mem, from, v) == Lookup(m0.mem, from, v) && ParentFrameKept(m0.mem, m.mem, from, v)
    requires Available(m0, roots, to, lo, v, f)
    ensures CopiedPage(m0, m'.mem, roots, to, from, lo, v)
  {
    assert IsRoot(kind, to);
    FreshIsUnmapped(m, kind, roots, f);
    MappersAfter(m, kind, roots, to, from, v, f, m', kind', f);
    assert CopyIn(m0, m'.mem, roots, to, lo, v, Lookup(m0.mem, from, v).value, f);
  }

  lemma StillAvailable(m0: Machine, roots: set<nat>, to: nat, lo: nat, v: nat, hi: nat, f: nat)
    requires Available(m0, roots, to, lo, v, f) && v <= hi
    ensures Available(m0, roots, to, lo, hi, f)
  {
  }

  lemma FreeIsUnmapped(m: Machine, kind: map<nat, Kind>, roots: set<nat>, p: nat)
    requires Consistent(m, kind, roots, None) && p in m.free
    ensures Mappers(m.mem, roots, p) == {}
  {
    FreshIsUnmapped(m, kind, roots, p);
  }

  /** A frame that the round has freed had no mapping outside the pages copied so far. */
  lemma FreedAvailable(m0: Machine, kind0: map<nat, Kind>, m: Machine, kind: map<nat, Kind>, roots: set<nat>, to: nat,
                       from: nat, lo: nat, v: nat, f: nat, m': Machine, kind': map<nat, Kind>, p: nat)
    requires Consistent(m, kind, roots, None) && Consistent(m', kind', roots, None)
    requires to in roots && (forall r | r in roots :: IsRoot(kind0, r)) && RootsKept(kind0, kind)
    requires Copied(m0, m, kind0, roots, to, from, lo, v) && lo <= v
    requires PageCopied(m, kind, roots, to, from, v, f, m', kind') && p in m'.free && p !in m.free
    ensures Available(m0, roots, to, lo, v + 1, p)
  {
    assert Maps(m.mem, to, v, p);
    assert IsRoot(kind0, to) && Maps(m0.mem, to, v, p);
    FreeIsUnmapped(m', kind', roots, p);
    forall q: nat, w: nat | q in roots && w < VPNS && Maps(m0.mem, q, w, p) ensures q == to && lo <= w < v + 1 {
      assert IsRoot(kind0, q) && IsRoot(kind, q);
      assert (q, w) !in Mappers(m'.mem, roots, p);
    }
  }

  lemma CopyAdvances(m0: Machine, kind0: map<nat, Kind>, m: Machine, kind: map<nat, Kind>, roots: set<nat>, to: nat,
                     from: nat, lo: nat, v: nat, f: nat, m': Machine, kind': map<nat, Kind>)
    requires Consistent(m, kind, roots, None) && Consistent(m', kind', roots, None)
    requires to in roots && from in roots && to != from && (forall r | r in roots :: IsRoot(kind0, r))
             && RootsKept(kind0, kind)
    requires Copied(m0, m, kind0, roots, to, from, lo, v) && lo <= v
    requires PageCopied(m, kind, roots, to, from, v, f, m', kind')
    ensures Copied(m0, m', kind0, roots, to, from, lo, v + 1)
  {
    forall w: nat | lo <= w < v + 1 && w < VPNS ensures CopiedPage(m0, m'.mem, roots, to, from, lo, w) {
      if w < v {
        OldCopyKept(m0, m, kind, roots, to, from, lo, v, f, m', kind', w);
      } else {
        assert Lookup(m.mem, from, v) == Lookup(m0.mem, from, v) && ParentFrameKept(m0.mem, m.mem, from, v);
        NewCopy(m0, m, kind, roots, to, from, lo, v, f, m', kind');
      }
    }
    forall q: nat, w: nat | IsRoot(kind0, q) && w < VPNS && !(q == to && lo <= w < v + 1)
      ensures Lookup(m'.mem, q, w) == Lookup(m0.mem, q, w)
    {
      assert IsRoot(kind, q);
    }
    forall w: nat | w < VPNS ensures ParentFrameKept(m0.mem, m'.mem, from, w) {
      assert ParentFrameKept(m0.mem, m.mem, from, w);
      assert Lookup(m.mem, from, w) == Lookup(m0.mem, from, w);
      if Lookup(m0.mem, from, w).Some? {
        StillMapped(m, kind, roots, to, from, v, f, m', kind', from, w);
      }
    }
    forall p | p in m'.free ensures Available(m0, roots, to, lo, v + 1, p) {
      if p in m.free {
        StillAvailable(m0, roots, to, lo, v, v + 1, p);
      } else {
        FreedAvailable(m0, kind0, m, kind, roots, to, from, lo, v, f, m', kind', p);
      }
    }
  }

  // ---------- a frame for the child ----------

  /** alloc_page and memcpy: a free page becomes a frame with the given bytes. */
  ghost predicate FrameFilled(m: Machine, kind: map<nat, Kind>, f: nat, words: seq<nat>, m': Machine,
                              kind': map<nat, Kind>) {
    && f in m.free && |words| == 512
    && m' == m.(mem := m.mem[f := words], free := m.free - {f}) && kind' == kind[f := Frame]
  }

  lemma FilledMaps(m: Machine, kind: map<nat, Kind>, roots: set<nat>, f: nat, words: seq<nat>, m': Machine,
                   kind': map<nat, Kind>)
    requires Consistent(m, kind, roots, None) && FrameFilled(m, kind, f, words, m', kind')
    ensures SameMaps(m.mem, m'.mem, kind) && SameMaps(m.mem, m'.mem, kind') && Tree(m'.mem, kind')
    ensures forall q: nat, w: nat | IsRoot(kind, q) && w < VPNS :: SlotOf(m'.mem, q, w) == SlotOf(m.mem, q, w)
  {
    forall q: nat, w: nat | IsRoot(kind, q) && w < VPNS
      ensures SlotOf(m'.mem, q, w) == SlotOf(m.mem, q, w) && Lookup(m'.mem, q, w) == Lookup(m.mem, q, w)
    {
      IndexBounds(w);
      assert PointsDown(m.mem, kind, q, Index1(w));
      if SlotOf(m.mem, q, w).Some? { SlotKind(m.mem, kind, q, w); }
    }
    forall p, i: nat | p in kind' && i < 512 ensures PointsDown(m'.mem, kind', p, i) {
      if p != f { assert PointsDown(m.mem, kind, p, i); }
    }
  }

  lemma FilledConsistent(m: Machine, kind: map<nat, Kind>, roots: set<nat>, f: nat, words: seq<nat>, m': Machine,
                         kind': map<nat, Kind>)
    requires Consistent(m, kind, roots, None) && FrameFilled(m, kind, f, words, m', kind')
    ensures Consistent(m', kind', roots, None)
  {
    FilledMaps(m, kind, roots, f, words, m', kind');
    forall p | p in kind' && kind'[p].Frame? ensures p in m'.refs && m'.refs[p] == |Mappers(m'.mem, roots, p)| {
      SameMappers(m.mem, m'.mem, kind, roots, p);
      if p == f { FreshIsUnmapped(m, kind, roots, f); }
    }
    forall q: nat, w: nat | q in roots && w < VPNS && Lookup(m'.mem, q, w).Some?
      ensures IsFrame(kind', Ppn(Lookup(m'.mem, q, w).value))
    {
      assert IsRoot(kind, q);
    }
  }

  /** The three steps of a round put together. */
  lemma RoundDone(m: Machine, kind: map<nat, Kind>, roots: set<nat>, to: nat, from: nat, v: nat, f: nat,
                  m1: Machine, kind1: map<nat, Kind>, m2: Machine, kind2: map<nat, Kind>, m': Machine,
                    kind': map<nat, Kind>)
    requires Consistent(m, kind, roots, None) && from in roots && v < VPNS && Lookup(m.mem, from, v).Some?
    requires Extended(m, kind, m1, kind1) && Consistent(m1, kind1, roots, None)
    requires var p := Ppn(Lookup(m.mem, from, v).value);
             p in m1.mem && FrameFilled(m1, kind1, f, m1.mem[p], m2, kind2)
    requires OneChanged(m2.mem, m'.mem, kind2, to, v, Some(PteCreate(f, UserBits(Lookup(m.mem, from, v).value))))
    requires FramesKept(m2, kind2, m', kind') && IsFrame(kind', f) && OnlyFreed(m2, to, v, m') && to in roots
    ensures PageCopied(m, kind, roots, to, from, v, f, m', kind')
  {
    var e := Lookup(m.mem, from, v).value;
    ExtendedKeeps(m, kind, m1, kind1, roots);
    EntryIsFrame(m, kind, roots, None, from, v);
    RoundMaps(m, kind, roots, f, m1, kind1, m1.mem[Ppn(e)], m2, kind2, m'.mem, to, v, PteCreate(f, UserBits(e)));
    RoundKeeps(m, kind, roots, f, m1, kind1, m2, kind2, m', kind');
    RoundFrees(m, kind, roots, to, v, f, m1, kind1, m1.mem[Ppn(e)], m2, kind2, m');
    assert IsFrame(kind2, f);
  }

  lemma RoundFrees(m: Machine, kind: map<nat, Kind>, roots: set<nat>, to: nat, v: nat, f: nat,
                   m1: Machine, kind1: map<nat, Kind>, words: seq<nat>, m2: Machine, kind2: map<nat, Kind>, m': Machine)
    requires IsRoot(kind, to) && v < VPNS && Extended(m, kind, m1, kind1) && Consistent(m1, kind1, roots, None)
    requires FrameFilled(m1, kind1, f, words, m2, kind2) && OnlyFreed(m2, to, v, m')
    ensures OnlyFreed(m, to, v, m')
  {
    FilledMaps(m1, kind1, roots, f, words, m2, kind2);
    assert IsRoot(kind1, to);
    assert Lookup(m2.mem, to, v) == Lookup(m.mem, to, v);
    forall p | p in m'.free && p !in m.free ensures Maps(m.mem, to, v, p) {
      assert Maps(m2.mem, to, v, p);
    }
  }

  lemma RoundMaps(m: Machine, kind: map<nat, Kind>, roots: set<nat>, f: nat, m1: Machine, kind1: map<nat, Kind>,
                  words: seq<nat>, m2: Machine, kind2: map<nat, Kind>, mem': Mem, r: nat, v: nat, e: nat)
    requires Extended(m, kind, m1, kind1) && Consistent(m1, kind1, roots, None)
    requires FrameFilled(m1, kind1, f, words, m2, kind2) && OneChanged(m2.mem, mem', kind2, r, v, Some(e))
    ensures OneChanged(m.mem, mem', kind, r, v, Some(e))
  {
    FilledMaps(m1, kind1, roots, f, words, m2, kind2);
    forall q: nat, w: nat | IsRoot(kind, q) && w < VPNS
      ensures Lookup(mem', q, w) == if q == r && w == v then Some(e) else Lookup(m.mem, q, w)
    {
      assert IsRoot(kind1, q) && IsRoot(kind2, q);
    }
  }

  lemma RoundKeeps(m: Machine, kind: map<nat, Kind>, roots: set<nat>, f: nat,
                   m1: Machine, kind1: map<nat, Kind>, m2: Machine, kind2: map<nat, Kind>, m': Machine,
                     kind': map<nat, Kind>)
    requires Consistent(m, kind, roots, None) && Extended(m, kind, m1, kind1)
    requires f in m1.free && kind2 == kind1[f := Frame] && m2.mem.Keys == m1.mem.Keys
    requires forall p | p in m1.mem && p != f :: p in m2.mem && m2.mem[p] == m1.mem[p]
    requires FramesKept(m2, kind2, m', kind')
    ensures FramesKept(m, kind, m', kind')
  {
    forall g | IsFrame(kind, g) && IsFrame(kind', g) && g in m.mem ensures g in m'.mem && m'.mem[g] == m.mem[g] {
      assert IsFrame(kind2, g) && g in m.refs && g != f;
    }
    forall q | IsRoot(kind, q) ensures IsRoot(kind', q) {
      assert IsRoot(kind2, q);
    }
  }

  // ---------- copy_range ----------

  /** alloc_page and memcpy: a frame with the bytes of the page. */
  method FillFrame(mmu: Mmu, page: nat) returns (frame: Option<nat>)
    requires mmu.Valid() && page in mmu.mem
    modifies mmu
    ensures mmu.Valid() && mmu.roots == old(mmu.roots)
    ensures frame.None? ==> mmu.free == {} && mmu.State() == old(mmu.State()) && mmu.kind == old(mmu.kind)
    ensures frame.Some? ==>
              FrameFilled(old(mmu.State()), old(mmu.kind), frame.value, old(mmu.mem)[page], mmu.State(), mmu.kind)
  {
    frame := mmu.AllocPage();
    if frame.Some? {
      mmu.mem := mmu.mem[frame.value := mmu.mem[page]];
      mmu.kind := mmu.kind[frame.value := Frame];
      FilledConsistent(old(mmu.State()), old(mmu.kind), mmu.roots, frame.value, old(mmu.mem)[page], mmu.State(),
                       mmu.kind);
    }
  }

  /** The part behind get_pte: the copy is made and entered in the slot that exists by now. */
  method CopyFrame(mmu: Mmu, to: nat, la: nat, page: nat, perm: nat)
    returns (frame: Option<nat>, ghost m2: Machine, ghost kind2: map<nat, Kind>)
    requires mmu.Valid() && to in mmu.roots && page in mmu.mem && perm < 1024
    requires SlotOf(mmu.mem, to, Vpn(la)).Some?
    modifies mmu
    ensures mmu.Valid() && mmu.roots == old(mmu.roots)
    ensures frame.None? ==> mmu.free == {} && mmu.State() == old(mmu.State()) && mmu.kind == old(mmu.kind)
    ensures frame.Some? ==>
              && FrameFilled(old(mmu.State()), old(mmu.kind), frame.value, old(mmu.mem)[page], m2, kind2)
              && OneChanged(m2.mem, mmu.mem, kind2, to, Vpn(la), Some(PteCreate(frame.value, perm)))
              && FramesKept(m2, kind2, mmu.State(), mmu.kind) && IsFrame(mmu.kind, frame.value)
              && OnlyFreed(m2, to, Vpn(la), mmu.State())
  {
    ghost var m1, kind1 := mmu.State(), mmu.kind;
    frame := FillFrame(mmu, page);
    m2, kind2 := mmu.State(), mmu.kind;
    if frame.Some? {
      FilledMaps(m1, kind1, mmu.roots, frame.value, m1.mem[page], m2, kind2);
      assert IsRoot(kind1, to);
      var ret := mmu.PageInsert(to, frame.value, la, perm);
      assert ret == 0;
    }
  }

  /** The body of the loop for a valid entry e of the parent. */
  method CopyPage(mmu: Mmu, to: nat, from: nat, la: nat, e: nat) returns (result: Result, ghost f: nat)
    requires mmu.Valid() && to in mmu.roots && from in mmu.roots && Lookup(mmu.mem, from, Vpn(la)) == Some(e)
    modifies mmu
    ensures mmu.Valid() && mmu.roots == old(mmu.roots)
    ensures result.Done? ==>
            PageCopied(old(mmu.State()), old(mmu.kind), mmu.roots, to, from, Vpn(la), f, mmu.State(), mmu.kind)
    ensures !result.Done? ==> mmu.free == {} && Extended(old(mmu.State()), old(mmu.kind), mmu.State(), mmu.kind)
  {
    f := 0;
    ghost var m0, kind0 := mmu.State(), mmu.kind;
    EntryIsFrame(m0, kind0, mmu.roots, None, from, Vpn(la));
    var s := mmu.GetPte(to, la, true, None);
    if s.None? {
      return NoMem, f;
    }
    ghost var m1, kind1 := mmu.State(), mmu.kind;
    var npage, m2, kind2 := CopyFrame(mmu, to, la, Ppn(e), UserBits(e));
    if npage.None? {
      return OutOfPages, f;
    }
    f := npage.value;
    RoundDone(m0, kind0, mmu.roots, to, from, Vpn(la), f, m1, kind1, m2, kind2, mmu.State(), mmu.kind);
    result := Done;
  }

  /** Nothing is copied yet. */
  lemma CopyStarts(m: Machine, kind: map<nat, Kind>, roots: set<nat>, to: nat, from: nat, lo: nat)
    requires Consistent(m, kind, roots, None) && from in roots
    ensures Copied(m, m, kind, roots, to, from, lo, lo)
  {
    forall w: nat | w < VPNS ensures ParentFrameKept(m.mem, m.mem, from, w) {
      if Lookup(m.mem, from, w).Some? { EntryIsFrame(m, kind, roots, None, from, w); }
    }
  }

  /** Where the parent maps nothing, the child is left alone: the 2 MiB skip loses nothing. */
  lemma CopySkips(m0: Machine, m: Machine, kind0: map<nat, Kind>, roots: set<nat>, to: nat, from: nat, lo: nat,
                  v: nat, hi: nat)
    requires Copied(m0, m, kind0, roots, to, from, lo, v) && lo <= v <= hi
    requires IsRoot(kind0, to) && IsRoot(kind0, from) && to != from
    requires forall w: nat | v <= w < hi && w < VPNS :: Lookup(m.mem, from, w).None?
    ensures Copied(m0, m, kind0, roots, to, from, lo, hi)
  {
    forall w: nat | lo <= w < hi && w < VPNS ensures CopiedPage(m0, m.mem, roots, to, from, lo, w) {
      if w >= v {
        assert Lookup(m.mem, from, w) == Lookup(m0.mem, from, w);
      }
    }
    forall p | p in m.free ensures Available(m0, roots, to, lo, hi, p) {
      StillAvailable(m0, roots, to, lo, v, hi, p);
    }
  }

  lemma CopyKeptByExtension(m0: Machine, m: Machine, kind: map<nat, Kind>, roots: set<nat>, to: nat, from: nat,
                            lo: nat, m': Machine, kind': map<nat, Kind>, w: nat)
    requires Consistent(m, kind, roots, None) && to in roots && w < VPNS
    requires CopiedPage(m0, m.mem, roots, to, from, lo, w) && Extended(m, kind, m', kind')
    ensures CopiedPage(m0, m'.mem, roots, to, from, lo, w)
  {
    assert IsRoot(kind, to);
    if Lookup(m0.mem, from, w).Some? {
      var e := Lookup(m0.mem, from, w).value;
      var g: nat :| CopyIn(m0, m.mem, roots, to, lo, w, e, g);
      SameMappers(m.mem, m'.mem, kind, roots, g);
      PteRoundTrip(g, UserBits(e));
      EntryIsFrame(m, kind, roots, None, to, w);
      assert CopyIn(m0, m'.mem, roots, to, lo, w, e, g);
    }
  }

  /** Tables added to the child on the way to a failure change nothing of this. */
  lemma CopyExtended(m0: Machine, kind0: map<nat, Kind>, m: Machine, kind: map<nat, Kind>, roots: set<nat>, to: nat,
                     from: nat, lo: nat, v: nat, m': Machine, kind': map<nat, Kind>)
    requires Consistent(m, kind, roots, None) && to in roots && from in roots && to != from
    requires RootsKept(kind0, kind) && IsRoot(kind0, from)
    requires Copied(m0, m, kind0, roots, to, from, lo, v) && Extended(m, kind, m', kind')
    ensures Copied(m0, m', kind0, roots, to, from, lo, v)
  {
    forall w: nat | lo <= w < v && w < VPNS ensures CopiedPage(m0, m'.mem, roots, to, from, lo, w) {
      CopyKeptByExtension(m0, m, kind, roots, to, from, lo, m', kind', w);
    }
    forall q: nat, w: nat | IsRoot(kind0, q) && w < VPNS && !(q == to && lo <= w < v)
      ensures Lookup(m'.mem, q, w) == Lookup(m0.mem, q, w)
    {
      assert IsRoot(kind, q);
    }
    forall w: nat | w < VPNS ensures ParentFrameKept(m0.mem, m'.mem, from, w) {
      assert ParentFrameKept(m0.mem, m.mem, from, w) && Lookup(m.mem, from, w) == Lookup(m0.mem, from, w);
      if Lookup(m0.mem, from, w).Some? { EntryIsFrame(m, kind, roots, None, from, w); }
    }
  }

  /** The round for a valid entry, seen as a part of the whole copy. */
  method CopyValid(mmu: Mmu, to: nat, from: nat, cur: nat, e: nat, ghost lo: nat, ghost m0: Machine,
                   ghost kind0: map<nat, Kind>)
    returns (result: Result)
    requires mmu.Valid() && to in mmu.roots && from in mmu.roots && to != from
             && Lookup(mmu.mem, from, Vpn(cur)) == Some(e)
    requires (forall r | r in mmu.roots :: IsRoot(kind0, r)) && RootsKept(kind0, mmu.kind) && lo <= Vpn(cur)
    requires Copied(m0, mmu.State(), kind0, mmu.roots, to, from, lo, Vpn(cur))
    modifies mmu
    ensures mmu.Valid() && mmu.roots == old(mmu.roots) && RootsKept(kind0, mmu.kind)
    ensures Copied(m0, mmu.State(), kind0, mmu.roots, to, from, lo, Vpn(cur) + if result.Done? then 1 else 0)
    ensures !result.Done? ==> mmu.free == {}
  {
    hide Copied, Consistent;
    ghost var m1, kind1, f := mmu.State(), mmu.kind, 0;
    result, f := CopyPage(mmu, to, from, cur, e);
    if result.Done? {
      CopyAdvances(m0, kind0, m1, kind1, mmu.roots, to, from, lo, Vpn(cur), f, mmu.State(), mmu.kind);
    } else {
      CopyExtended(m0, kind0, m1, kind1, mmu.roots, to, from, lo, Vpn(cur), mmu.State(), mmu.kind);
    }
  }

  /** One round of copy_range: a page, or the rest of a block without a table. */
  method CopyStep(mmu: Mmu, to: nat, from: nat, cur: nat, ghost start: nat, ghost end: nat,
                  ghost m0: Machine, ghost kind0: map<nat, Kind>)
    returns (result: Result, next: nat)
    requires mmu.Valid() && to in mmu.roots && from in mmu.roots && to != from
    requires cur % PGSIZE == 0 && start <= cur < end <= USERTOP && end % PGSIZE == 0
    requires (forall r | r in mmu.roots :: IsRoot(kind0, r)) && RootsKept(kind0, mmu.kind)
    requires Copied(m0, mmu.State(), kind0, mmu.roots, to, from, start / PGSIZE, cur / PGSIZE)
    modifies mmu
    ensures mmu.Valid() && mmu.roots == old(mmu.roots) && RootsKept(kind0, mmu.kind)
    ensures cur < next && next % PGSIZE == 0
    ensures var done := if !result.Done? then cur else if next < end then next else end;
            Copied(m0, mmu.State(), kind0, mmu.roots, to, from, start / PGSIZE, done / PGSIZE)
    ensures !result.Done? ==> mmu.free == {}
  {
    hide Copied;
    VpnOfUser(cur);
    ghost var v := cur / PGSIZE;
    var s := mmu.GetPte(from, cur, false, None);
    if s.None? {
      NextTablePage(cur);
      next := NextTable(cur);
      ghost var hi := (if next < end then next else end) / PGSIZE;
      SkipClears(mmu.mem, mmu.kind, from, v, hi);
      assert IsRoot(mmu.kind, from);
      CopySkips(m0, mmu.State(), kind0, mmu.roots, to, from, start / PGSIZE, v, hi);
      return Done, next;
    }
    next := cur + PGSIZE;
    var e := Word(mmu.mem, s.value.page, s.value.index);
    if IsV(e) {
      result := CopyValid(mmu, to, from, cur, e, start / PGSIZE, m0, kind0);
    } else {
      CopySkips(m0, mmu.State(), kind0, mmu.roots, to, from, start / PGSIZE, v, v + 1);
      result := Done;
    }
  }

  /** Where the parent maps a page, the child has an entry for a page with the same bytes, and of the ten low
      bits of the parent's entry V, R, W, X and U are in the child's and the other five are not. */
  ghost predicate ChildEntry(mem0: Mem, mem: Mem, to: nat, from: nat, v: nat) {
    match Lookup(mem0, from, v)
    case None => true
    case Some(e) =>
      && Lookup(mem, to, v).Some?
      && var c := Lookup(mem, to, v).value;
         && UserBitsOnly(c, e)
         && c / 1024 in mem && e / 1024 % 0x10_0000_0000_0000 in mem0
         && mem[c / 1024] == mem0[e / 1024 % 0x10_0000_0000_0000]
  }

  lemma ChildEntries(m0: Machine, m: Machine, kind0: map<nat, Kind>, roots: set<nat>, to: nat, from: nat, lo: nat,
                     hi: nat)
    requires Copied(m0, m, kind0, roots, to, from, lo, hi)
    ensures forall v: nat | lo <= v < hi && v < VPNS :: ChildEntry(m0.mem, m.mem, to, from, v)
  {
    hide Mappers, Available, UserBitsOnly, PteCreate;
    forall v: nat | lo <= v < hi && v < VPNS ensures ChildEntry(m0.mem, m.mem, to, from, v) {
      assert CopiedPage(m0, m.mem, roots, to, from, lo, v);
      if Lookup(m0.mem, from, v).Some? {
        var e := Lookup(m0.mem, from, v).value;
        var f: nat :| CopyIn(m0, m.mem, roots, to, lo, v, e, f);
        UserEntry(f, e);
      }
    }
  }

  /** copy_range, into an address space other than the one copied from. If it stops early, because
      no page is left, the pages below cut are copied and the rest is untouched. */
  method CopyRange(mmu: Mmu, to: nat, from: nat, start: nat, end: nat) returns (result: Result, ghost cut: nat)
    requires mmu.Valid() && to in mmu.roots && from in mmu.roots && to != from && UserRange(start, end)
    modifies mmu
    ensures mmu.Valid() && mmu.roots == old(mmu.roots)
    ensures Copied(old(mmu.State()), mmu.State(), old(mmu.kind), mmu.roots, to, from, start / PGSIZE, cut / PGSIZE)
    ensures forall v: nat | start / 4096 <= v < cut / 4096 && v < VPNS :: ChildEntry(old(mmu.mem), mmu.mem, to, from, v)
    ensures if result.Done? then cut == end else mmu.free == {} && start <= cut < end
  {
    ghost var m0, kind0 := mmu.State(), mmu.kind;
    var cur := start;
    cut := start;
    CopyStarts(mmu.State(), mmu.kind, mmu.roots, to, from, start / PGSIZE);
    while true
      invariant mmu.Valid() && mmu.roots == old(mmu.roots) && RootsKept(kind0, mmu.kind)
      invariant forall r | r in mmu.roots :: IsRoot(kind0, r)
      invariant start <= cur < end && cur % PGSIZE == 0 && cut == cur
      invariant Copied(m0, mmu.State(), kind0, mmu.roots, to, from, start / PGSIZE, cut / PGSIZE)
      decreases end - cur
    {
      var next;
      result, next := CopyStep(mmu, to, from, cur, start, end, m0, kind0);
      if !result.Done? {
        ChildEntries(old(mmu.State()), mmu.State(), kind0, mmu.roots, to, from, start / PGSIZE, cut / PGSIZE);
        return result, cut;
      }
      cut := if next < end then next else end;
      cur := next;
      if !(cur != 0 && cur < end) {
        break;
      }
    }
    ChildEntries(old(mmu.State()), mmu.State(), kind0, mmu.roots, to, from, start / PGSIZE, cut / PGSIZE);
    result := Done;
  }
}
