// The three-level page tables as words in memory, and why they behave like one flat map.
module PageTree {
  import opened Options
  import opened Sv39

  /** Physical memory: 512 words for every page. */
  type Mem = map<nat, seq<nat>>

  function Word(mem: Mem, p: nat, i: nat): nat {
    if p in mem && i < |mem[p]| then mem[p][i] else 0
  }

  function Store(mem: Mem, p: nat, i: nat, w: nat): Mem
    requires p in mem && i < |mem[p]|
  {
    var words: seq<nat> := mem[p][i := w];
    mem[p := words]
  }

  function Zeros(): seq<nat> {
    seq(512, _ => 0)
  }

  /** A pointer into a page table. */
  datatype Slot = Slot(page: nat, index: nat)

  /** Where get_pte without create ends up: the slot of the virtual page v below the root r. */
  function SlotOf(mem: Mem, r: nat, v: nat): Option<Slot> {
    var e1 := Word(mem, r, Index1(v));
    if !IsV(e1) then None
    else
      var e0 := Word(mem, Ppn(e1), Index0(v));
      if !IsV(e0) then None else Some(Slot(Ppn(e0), IndexT(v)))
  }

  /** The abstract map of a table: the valid entry that a virtual page has, if any. */
  function Lookup(mem: Mem, r: nat, v: nat): Option<nat> {
    match SlotOf(mem, r, v)
    case None => None
    case Some(s) => var e := Word(mem, s.page, s.index); if IsV(e) then Some(e) else None
  }

  // ---------- what the pages are used for ----------

  datatype Kind =
    | Root
    | Mid(root: nat, i: nat)
    | Leafs(root: nat, i: nat, j: nat)
    | Frame

  /** The page that an entry of a table names is the table of the next level below that very entry, and the
      ten low bits of such an entry are V and U: neither R, W nor X makes it a leaf. */
  ghost predicate PointsDown(mem: Mem, kind: map<nat, Kind>, p: nat, i: nat)
    requires p in kind
  {
    var e := Word(mem, p, i);
    IsV(e) ==>
      match kind[p]
      case Root => Ppn(e) in kind && kind[Ppn(e)] == Mid(p, i) && e % 1024 == 0x001 + 0x010
      case Mid(r, k) => Ppn(e) in kind && kind[Ppn(e)] == Leafs(r, k, i) && e % 1024 == 0x001 + 0x010
      case _ => true
  }

  /** Tables form trees: no table has two entries leading to it. */
  ghost predicate Tree(mem: Mem, kind: map<nat, Kind>) {
    && (forall p | p in kind :: p in mem && |mem[p]| == 512)
    && (forall p, i: nat | p in kind && i < 512 :: PointsDown(mem, kind, p, i))
  }

  ghost predicate IsRoot(kind: map<nat, Kind>, r: nat) {
    r in kind && kind[r] == Root
  }

  lemma IndexBounds(v: nat)
    requires v < VPNS
    ensures Index1(v) < 512 && Index0(v) < 512 && IndexT(v) < 512
  {
  }

  /** A slot lies in the leaf table that belongs to the two upper indices. */
  lemma SlotKind(mem: Mem, kind: map<nat, Kind>, r: nat, v: nat)
    requires Tree(mem, kind) && IsRoot(kind, r) && v < VPNS && SlotOf(mem, r, v).Some?
    ensures var s := SlotOf(mem, r, v).value;
            && s.index == IndexT(v) && s.index < 512
            && s.page in kind && kind[s.page] == Leafs(r, Index1(v), Index0(v))
    ensures var m := Ppn(Word(mem, r, Index1(v))); m in kind && kind[m] == Mid(r, Index1(v))
  {
    IndexBounds(v);
    assert PointsDown(mem, kind, r, Index1(v));
    var m := Ppn(Word(mem, r, Index1(v)));
    assert PointsDown(mem, kind, m, Index0(v));
  }

  /** Different virtual pages, in one table or in two, have different slots. */
  lemma SlotsDiffer(mem: Mem, kind: map<nat, Kind>, r: nat, v: nat, q: nat, w: nat)
    requires Tree(mem, kind) && IsRoot(kind, r) && IsRoot(kind, q) && v < VPNS && w < VPNS
    requires SlotOf(mem, r, v).Some? && SlotOf(mem, r, v) == SlotOf(mem, q, w)
    ensures r == q && v == w
  {
    SlotKind(mem, kind, r, v);
    SlotKind(mem, kind, q, w);
    VpnOfIndices(v, w);
  }

  // ---------- the writes that operations make ----------

  /** Writing a leaf entry: the trees stay, and of all the slots' contents just one changes. */
  lemma LeafStored(mem: Mem, kind: map<nat, Kind>, s: Slot, e: nat)
    requires Tree(mem, kind) && s.page in kind && kind[s.page].Leafs? && s.index < 512
    ensures Tree(Store(mem, s.page, s.index, e), kind)
  {
    var mem' := Store(mem, s.page, s.index, e);
    forall p, i: nat | p in kind && i < 512 ensures PointsDown(mem', kind, p, i) {
      assert PointsDown(mem, kind, p, i);
    }
  }

  lemma LeafStoredLookup(mem: Mem, kind: map<nat, Kind>, r: nat, v: nat, e: nat, q: nat, w: nat)
    requires Tree(mem, kind) && IsRoot(kind, r) && IsRoot(kind, q) && v < VPNS && w < VPNS
    requires SlotOf(mem, r, v).Some? && SlotOf(mem, r, v).value.page in mem
             && IndexT(v) < |mem[SlotOf(mem, r, v).value.page]|
    ensures var s := SlotOf(mem, r, v).value;
            var mem' := Store(mem, s.page, s.index, e);
            && SlotOf(mem', q, w) == SlotOf(mem, q, w)
            && Lookup(mem', q, w) == if q == r && w == v then (if IsV(e) then Some(e) else None) else Lookup(mem, q, w)
  {
    SlotKind(mem, kind, r, v);
    var s := SlotOf(mem, r, v).value;
    var mem' := Store(mem, s.page, s.index, e);
    IndexBounds(w);
    assert PointsDown(mem, kind, q, Index1(w));
    if SlotOf(mem, q, w).Some? {
      SlotKind(mem, kind, q, w);
      if SlotOf(mem, q, w) == SlotOf(mem, r, v) { SlotsDiffer(mem, kind, r, v, q, w); }
    }
  }

  /** Hanging a fresh, zeroed table below an invalid entry of a root or middle table. */
  ghost predicate TableHung(mem: Mem, kind: map<nat, Kind>, p: nat, i: nat, t: nat, mem': Mem,
                            kind': map<nat, Kind>) {
    && p in kind && i < 512 && (kind[p].Root? || kind[p].Mid?) && !IsV(Word(mem, p, i))
    && t !in kind && t in mem && t < 0x10_0000_0000_0000
    && p in mem && |mem[p]| == 512
    && mem' == Store(mem[t := Zeros()], p, i, PteCreate(t, 17))
    && kind' == kind[t := if kind[p].Root? then Mid(p, i) else Leafs(kind[p].root, kind[p].i, i)]
  }

  lemma HungTree(mem: Mem, kind: map<nat, Kind>, p: nat, i: nat, t: nat, mem': Mem, kind': map<nat, Kind>)
    requires Tree(mem, kind) && TableHung(mem, kind, p, i, t, mem', kind')
    ensures Tree(mem', kind')
  {
    PteRoundTrip(t, 17);
    forall q, k: nat | q in kind' && k < 512 ensures PointsDown(mem', kind', q, k) {
      if q != t { assert PointsDown(mem, kind, q, k); }
    }
  }

  lemma HungLookup(mem: Mem, kind: map<nat, Kind>, p: nat, i: nat, t: nat, mem': Mem,
                   kind': map<nat, Kind>, q: nat, w: nat)
    requires Tree(mem, kind) && TableHung(mem, kind, p, i, t, mem', kind') && IsRoot(kind, q) && w < VPNS
    ensures Lookup(mem', q, w) == Lookup(mem, q, w)
    ensures SlotOf(mem, q, w).Some? ==> SlotOf(mem', q, w) == SlotOf(mem, q, w)
  {
    PteRoundTrip(t, 17);
    IndexBounds(w);
    assert PointsDown(mem, kind, q, Index1(w));
    var e1 := Word(mem, q, Index1(w));
    if IsV(e1) {
      assert PointsDown(mem, kind, Ppn(e1), Index0(w));
    }
  }
}
