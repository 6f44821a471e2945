// The SLOB half of kern/mm/kmalloc.c: slob_alloc and slob_free. Addresses count slob_t units of
// 16 bytes; unit address 0 is the null pointer.
module Slob {
  import opened Options
  import opened FreeRuns
  import opened SlobList

  const UNIT: nat := 16
  const PAGE_SIZE: nat := 4096

  datatype AllocResult = Panic | Null | Block(at: nat)

  /** SLOB_UNITS */
  function SlobUnits(size: nat): nat {
    (size + UNIT - 1) / UNIT
  }

  /** The fewest units of 16 bytes that hold the size. */
  lemma UnitsHold(size: nat)
    ensures 16 * SlobUnits(size) >= size && 16 * SlobUnits(size) < size + 16
  {
  }

  class SlobHeap {
    /** Address of the one statically allocated unit. */
    const arena: nat
    /** The two fields of slob_t, at every address. */
    var units: Field
    var next: Field
    var slobfree: int

    ghost var runs: seq<Run>
    ghost var rover: nat

    /** The free list is one cycle over the maximal free runs in address order, with its only wrap
        behind the last of them; the arena unit is the first run, and slobfree is on the cycle. */
    ghost predicate ListOk()
      reads this
    {
      && Canonical(runs) && Linked(units, next, runs)
      && runs != [] && runs[0] == Run(arena, 1) && arena > 0
      && rover < |runs| && slobfree == runs[rover].base
    }

    constructor (arenaUnit: nat)
      requires arenaUnit > 0
      ensures ListOk() && arena == arenaUnit && runs == [Run(arena, 1)]
    {
      arena := arenaUnit;
      units, next := map[arenaUnit := 1], map[arenaUnit := arenaUnit];
      slobfree := arenaUnit;
      runs, rover := [Run(arenaUnit, 1)], 0;
    }

    /** The run a call of SlobFree gives back: size 0 means that the block's own header counts. */
    ghost function Freed(block: nat, size: nat): Run
      requires size > 0 || (block in units && units[block] >= 0)
      reads this
    {
      Run(block, if size > 0 then SlobUnits(size) else units[block])
    }

    /** The search loop of slob_free: it ends at the run before the place of block, wherever on the
        cycle it starts. */
    method FindPredecessor(block: nat, ghost i: nat) returns (cur: int)
      requires ListOk() && 0 < i && BelongsAt(runs, i, block)
      ensures cur == runs[i - 1].base
    {
      cur := slobfree;
      ghost var k: nat := rover;
      assert LinkedAt(units, next, runs, k);
      while !(block > cur && block < next[cur])
        invariant k < |runs| && cur == runs[k].base && LinkedAt(units, next, runs, k)
        decreases if k <= i - 1 then i - 1 - k else i - 1 + |runs| - k
      {
        if cur >= next[cur] && (block > cur || block < next[cur]) {
          break;
        }
        cur := next[cur];
        k := if k + 1 < |runs| then k + 1 else 0;
        assert LinkedAt(units, next, runs, k);
      }
    }

    /** The second half of slob_free: block, whose units are set, is joined with the run behind it,
        then with the run at cur before it. */
    method LinkFreed(block: nat, cur: int, ghost i: nat)
      requires ListOk() && 0 < i && BelongsAt(runs, i, block) && cur == runs[i - 1].base
      requires block in units && units[block] > 0 && Run(block, units[block]).Range() !! Cells(runs)
      modifies this`units, this`next
      ensures FreeWrites(old(units), old(next), runs, i, Run(block, old(units[block])), units, next)
    {
      assert LinkedAt(units, next, runs, i - 1);
      if i < |runs| { assert LinkedAt(units, next, runs, i); }
      RoomFor(runs, i, Run(block, units[block]));
      BasesAscend(runs, 0, i - 1);
      if block + units[block] == next[cur] {
        units := units[block := units[block] + units[next[cur]]];
        next := next[block := next[next[cur]]];
      } else {
        next := next[block := next[cur]];
      }
      if cur + units[cur] == block {
        units := units[cur := units[cur] + units[block]];
        next := next[cur := next[block]];
      } else {
        next := next[cur := block];
      }
    }

    /** slob_free */
    method SlobFree(block: nat, size: nat) returns (ghost i: nat)
      requires ListOk()
      requires size > 0 || (block in units && units[block] > 0)
      requires block > arena + 1 && Freed(block, size).Range() !! Cells(runs)
      modifies this`units, this`next, this`slobfree, this`runs, this`rover
      ensures ListOk()
      ensures 0 < i && BelongsAt(old(runs), i, block)
      ensures runs == Joined(old(runs), i, old(Freed(block, size))) && rover == i - 1
      ensures KeptOutside(old(units), units, Cells(old(runs)) + {block})
      ensures KeptOutside(old(next), next, Cells(old(runs)) + {block})
    {
      ghost var r, s := Freed(block, size), runs;
      i := PlaceFor(s, r);
      assert s[0].base < r.base && 0 < i;
      var cur := FindPredecessor(block, i);
      if size > 0 {
        LinkedElsewhere(units, next, s, r, units[block := r.len]);
        units := units[block := SlobUnits(size)];
      }
      ghost var before := units;
      LinkFreed(block, cur, i);
      slobfree := cur;
      FreeDone(before, old(next), s, i, r, units, next);
      runs, rover := Joined(s, i, r), i - 1;
    }

    // ---------- allocation ----------

    /** The end of slob_alloc: the first need units of the run at cur leave the list. */
    method TakeUnits(prev: int, cur: int, need: nat, ghost k: nat)
      requires ListOk() && k < |runs| && cur == runs[k].base && prev == PredecessorIn(runs, k)
      requires 0 < need <= runs[k].len
      modifies this`units, this`next, this`slobfree, this`runs, this`rover
      ensures Carved(old(ListState()), k, need, cur, ListState())
      ensures k > 0 || |old(runs)| == 1 ==> ListOk()
    {
      ghost var s := runs;
      assert LinkedAt(units, next, s, k);
      if k > 0 { BasesAscend(s, k - 1, k); } else { BasesAscend(s, 0, |s| - 1); }
      if units[cur] == need {
        next := next[prev := next[cur]];
      } else {
        next := next[prev := cur + need];
        units := units[next[prev] := units[cur] - need];
        next := next[next[prev] := next[cur]];
        units := units[cur := need];
      }
      slobfree := prev;
      TakeWritesKeep(old(units), old(next), s, k, need, units, next);
      if k > 0 {
        TakeLinks(old(units), old(next), s, k, need, units, next);
        TakenIsCanonical(s, k, need);
        runs, rover := Taken(s, k, need), k - 1;
      }
    }

    /** A page that the page allocator may hand to the heap. */
    ghost predicate FreshPage(page: nat)
      reads this
    {
      page % PAGE_UNITS == 0 && page > arena + 1 && Run(page, PAGE_UNITS).Range() !! Cells(runs)
    }

    /** The free-list state as a value. */
    ghost function ListState(): SlobState
      reads this
    {
      SlobState(units, next, slobfree, runs, rover)
    }

    /** The growth step of slob_alloc: the page becomes a freed block, and the scan starts afresh. */
    method Grow(page: nat)
      requires ListOk() && FreshPage(page)
      modifies this`units, this`next, this`slobfree, this`runs, this`rover
      ensures ListOk() && Grown(old(ListState()), page, ListState())
    {
      ghost var r := Run(page, PAGE_UNITS);
      assert SlobUnits(PAGE_SIZE) == PAGE_UNITS;
      ghost var s := runs;
      ghost var i := SlobFree(page, PAGE_SIZE);
      JoinedIsCanonical(s, i, r);
      assert r.Has(page) && page in r.Range();
      JoinedHasRoom(s, i, r);
      assert Cells(s) + {page} <= Cells(runs);
    }

    /** slob_alloc, page being what alloc_pages(1) would answer if asked: it is asked at most once. */
    method SlobAlloc(size: nat, page: Option<nat>) returns (r: AllocResult, grew: bool, ghost mid: SlobState,
                                                            ghost j: nat)
      requires ListOk() && size > 0
      requires page.Some? ==> FreshPage(page.value)
      modifies this`units, this`next, this`slobfree, this`runs, this`rover
      ensures Allocated(arena, old(ListState()), size, page, r, grew, mid, j, ListState())
      ensures r.Block? && r.at != arena ==> ListOk()
    {
      hide Cells, Joined, Linked, ScanFrom;
      grew, mid, j := false, ListState(), 0;
      if size + UNIT >= PAGE_SIZE {
        return Panic, grew, mid, j;
      }
      var need := SlobUnits(size);
      var prev := slobfree;
      ScanStart(ListState(), need);
      var cur := next[prev];
      while true
        invariant ListOk() && mid == ListState() && ScanAt(mid, need, prev, cur, j)
        invariant Reached(old(ListState()), need, page, grew, mid)
        decreases !grew, |runs| - j
      {
        ScanFacts(mid, need, prev, cur, j);
        if units[cur] >= need {
          TakeUnits(prev, cur, need, ScanIndex(|runs|, rover, j));
          return Block(cur), grew, mid, j;
        }
        if cur == slobfree {
          ScanOver(mid, need, prev, cur, j);
          if page.None? {
            return Null, grew, mid, j;
          }
          if grew {
            assert false;
          }
          Grow(page.value);
          mid, grew, j := ListState(), true, 0;
          ScanStart(mid, need);
          cur := slobfree;
        } else {
          ScanNext(mid, need, prev, cur, j);
          j := j + 1;
        }
        prev := cur;
        cur := next[cur];
      }
    }
  }

  ghost function PredecessorIn(s: seq<Run>, k: nat): int
    requires k < |s|
  {
    if k > 0 then s[k - 1].base else s[|s| - 1].base
  }

  /** The scan of slob_alloc stands at position j: cur is the run there, prev the one before it on
      the cycle, and nothing before j fits. */
  ghost predicate ScanAt(s: SlobState, need: nat, prev: int, cur: int, j: nat) {
    && s.rover < |s.runs| && j < |s.runs|
    && cur == ScanFrom(s.runs, s.rover)[j].base
    && prev == PredecessorIn(s.runs, ScanIndex(|s.runs|, s.rover, j))
    && NoFit(ScanFrom(s.runs, s.rover)[..j], need)
  }

  ghost predicate OkState(s: SlobState) {
    && Canonical(s.runs) && Linked(s.units, s.next, s.runs)
    && s.rover < |s.runs| && s.slobfree == s.runs[s.rover].base
  }

  lemma ScanStart(s: SlobState, need: nat)
    requires OkState(s)
    ensures s.slobfree in s.next && ScanAt(s, need, s.slobfree, s.next[s.slobfree], 0)
  {
    ScanIndexed(s.runs, s.rover, 0);
    assert LinkedAt(s.units, s.next, s.runs, s.rover);
  }

  lemma ScanFacts(s: SlobState, need: nat, prev: int, cur: int, j: nat)
    requires OkState(s) && ScanAt(s, need, prev, cur, j)
    ensures var k := ScanIndex(|s.runs|, s.rover, j);
            && k < |s.runs| && cur == s.runs[k].base && prev == PredecessorIn(s.runs, k)
            && cur in s.units && s.units[cur] == s.runs[k].len && cur in s.next
            && s.runs[k] == ScanFrom(s.runs, s.rover)[j]
    ensures s.units[cur] >= need ==> FirstFit(ScanFrom(s.runs, s.rover), need, j)
  {
    ScanIndexed(s.runs, s.rover, j);
    assert LinkedAt(s.units, s.next, s.runs, ScanIndex(|s.runs|, s.rover, j));
  }

  /** Back at slobfree with nothing found: no run of the whole list fits. */
  lemma ScanOver(s: SlobState, need: nat, prev: int, cur: int, j: nat)
    requires OkState(s) && ScanAt(s, need, prev, cur, j) && cur == s.slobfree
    requires cur in s.units && s.units[cur] < need
    ensures NoFit(s.runs, need)
  {
    ScanFacts(s, need, prev, cur, j);
    var k := ScanIndex(|s.runs|, s.rover, j);
    BasesAscend(s.runs, k, s.rover);
    ScanIndexed(s.runs, s.rover, j);
    forall i | 0 <= i < |s.runs| ensures s.runs[i].len < need {
      var t := if i <= s.rover then i + (|s.runs| - s.rover - 1) else i - s.rover - 1;
      assert s.runs[i] == ScanFrom(s.runs, s.rover)[t];
      if t < j { assert ScanFrom(s.runs, s.rover)[..j][t] == s.runs[i]; }
    }
  }

  lemma ScanNext(s: SlobState, need: nat, prev: int, cur: int, j: nat)
    requires OkState(s) && ScanAt(s, need, prev, cur, j) && cur != s.slobfree
    requires cur in s.units && s.units[cur] < need && cur in s.next
    ensures ScanAt(s, need, cur, s.next[cur], j + 1)
  {
    hide Canonical;
    ScanFacts(s, need, prev, cur, j);
    ScanIndexed(s.runs, s.rover, j);
    ScanIndexed(s.runs, s.rover, j + 1);
    assert LinkedAt(s.units, s.next, s.runs, ScanIndex(|s.runs|, s.rover, j));
    assert ScanFrom(s.runs, s.rover)[..j + 1] == ScanFrom(s.runs, s.rover)[..j] + [ScanFrom(s.runs, s.rover)[j]];
  }

  datatype SlobState = SlobState(units: Field, next: Field, slobfree: int, runs: seq<Run>, rover: nat)

  /** s' is s after the fresh page has been freed into it; the scan restarts right before it. */
  ghost predicate Grown(s: SlobState, page: nat, s': SlobState) {
    var r := Run(page, PAGE_UNITS);
    && BelongsAt(s.runs, s'.rover + 1, page) && s'.runs == Joined(s.runs, s'.rover + 1, r)
    && Cells(s'.runs) == Cells(s.runs) + r.Range()
    && KeptOutside(s.units, s'.units, Cells(s'.runs)) && KeptOutside(s.next, s'.next, Cells(s'.runs))
    && exists i | 0 <= i < |s'.runs| :: s'.runs[i].len >= PAGE_UNITS
  }

  /** After one page, joined with its neighbours or not, the scan from slobfree meets a run that fits
      before it comes round again. */
  lemma GrownFits(s: SlobState, page: nat, s': SlobState, need: nat)
    requires Canonical(s.runs) && page > 0 && Run(page, PAGE_UNITS).Range() !! Cells(s.runs) && need <= PAGE_UNITS
    requires BelongsAt(s.runs, s'.rover + 1, page) && s'.runs == Joined(s.runs, s'.rover + 1, Run(page, PAGE_UNITS))
    requires s'.rover < |s'.runs|
    ensures exists j: nat :: FirstFit(ScanFrom(s'.runs, s'.rover), need, j)
  {
    JoinedHasRoom(s.runs, s'.rover + 1, Run(page, PAGE_UNITS));
    var k :| 0 <= k < |s'.runs| && s'.runs[k].len >= PAGE_UNITS;
    var t := if k <= s'.rover then k + (|s'.runs| - s'.rover - 1) else k - s'.rover - 1;
    assert ScanFrom(s'.runs, s'.rover)[t] == s'.runs[k];
    FirstFitExists(ScanFrom(s'.runs, s'.rover), need, t);
  }

  lemma {:induction false} FirstFitExists(s: seq<Run>, need: nat, t: nat)
    requires t < |s| && s[t].len >= need
    ensures exists j: nat :: FirstFit(s, need, j)
    decreases t
  {
    if NoFit(s[..t], need) {
      assert FirstFit(s, need, t);
    } else {
      var u :| 0 <= u < t && s[..t][u].len >= need;
      FirstFitExists(s, need, u);
    }
  }

  /** The list that slob_alloc scans: the one it found, or, if nothing there fits, that one grown by a page. */
  ghost predicate Reached(s: SlobState, need: nat, page: Option<nat>, grew: bool, mid: SlobState) {
    if grew then page.Some? && NoFit(s.runs, need) && Grown(s, page.value, mid) else mid == s
  }

  /** What slob_alloc promises: it panics on too large a size; it fails only when no free run fits
      and no page can be had, and then changes nothing; otherwise it takes the start of the first
      run that fits, in the order of the scan, from the list it reached. */
  ghost predicate Allocated(arena: nat, s: SlobState, size: nat, page: Option<nat>, r: AllocResult, grew: bool,
                            mid: SlobState, j: nat, s': SlobState)
  {
    var need := SlobUnits(size);
    match r
    case Panic => size + UNIT >= PAGE_SIZE && !grew && s' == s
    case Null => size + UNIT < PAGE_SIZE && !grew && page.None? && NoFit(s.runs, need) && s' == s
    case Block(at) =>
      && size + UNIT < PAGE_SIZE && Reached(s, need, page, grew, mid)
      && OkState(mid) && mid.runs[0] == Run(arena, 1)
      && FirstFit(ScanFrom(mid.runs, mid.rover), need, j)
      && Carved(mid, ScanIndex(|mid.runs|, mid.rover, j), need, at, s')
  }

  /** The first need units of the run at index k of s are handed out as the block at. The run at
      index 0 is the arena: handing that out does not take it off a list it is alone on. */
  ghost predicate Carved(s: SlobState, k: nat, need: nat, at: int, s': SlobState)
    requires k < |s.runs|
  {
    && at == s.runs[k].base && need <= s.runs[k].len
    && at in s'.units && s'.units[at] == need
    && KeptOutside(s.units, s'.units, Cells(s.runs)) && KeptOutside(s.next, s'.next, Cells(s.runs))
    && (k > 0 ==> s'.runs == Taken(s.runs, k, need) && s'.rover == k - 1)
    && (k == 0 && |s.runs| == 1 ==> s' == s)
  }

  /** A page-sized run stays together when it is joined with its neighbours. */
  lemma JoinedHasRoom(s: seq<Run>, i: nat, r: Run)
    requires Canonical(s) && BelongsAt(s, i, r.base) && r.len > 0 && r.Range() !! Cells(s)
    ensures exists k | 0 <= k < |Joined(s, i, r)| :: Joined(s, i, r)[k].len >= r.len
  {
    RoomFor(s, i, r);
    var t := Joined(s, i, r);
    var k := if TouchesLeft(s, i, r) then i - 1 else i;
    assert t[k].len >= r.len;
  }

  /** What the end of slob_alloc writes when it takes need units from the run at index k. */
  ghost predicate TakeWrites(units: Field, next: Field, s: seq<Run>, k: nat, need: nat, units': Field, next': Field)
    requires k < |s|
  {
    var prev := s[if k > 0 then k - 1 else |s| - 1].base;
    var rest := s[k].base + need;
    if s[k].len == need then units' == units && next' == next[prev := Successor(s, k)]
    else
      && units' == units[rest := s[k].len - need][s[k].base := need]
      && next' == next[prev := rest][rest := Successor(s, k)]
  }

  lemma TakeWritesKeep(units: Field, next: Field, s: seq<Run>, k: nat, need: nat, units': Field, next': Field)
    requires Canonical(s) && k < |s| && 0 < need <= s[k].len && TakeWrites(units, next, s, k, need, units', next')
    ensures KeptOutside(units, units', Cells(s)) && KeptOutside(next, next', Cells(s))
  {
    var p := if k > 0 then k - 1 else |s| - 1;
    assert s[p].Has(s[p].base) && s[p].base in Cells(s);
    assert s[k].Has(s[k].base) && s[k].base in Cells(s);
    assert need < s[k].len ==> s[k].Has(s[k].base + need);
  }

  lemma TakeLinks(units: Field, next: Field, s: seq<Run>, k: nat, need: nat, units': Field, next': Field)
    requires Canonical(s) && Linked(units, next, s) && 0 < k < |s| && 0 < need <= s[k].len
    requires TakeWrites(units, next, s, k, need, units', next')
    ensures Linked(units', next', Taken(s, k, need))
  {
    if s[k].len == need {
      Unlinked(units, next, s, k, next');
    } else {
      var rest := Run(s[k].base + need, s[k].len - need);
      Fragmented(units, next, s, k, rest, units[rest.base := rest.len], next');
      TakenIsCanonical(s, k, need);
      TakenCells(s, k, need);
      LinkedElsewhere(units[rest.base := rest.len], next', Taken(s, k, need), Run(s[k].base, need), units');
    }
  }

  /** The writes to a field of slob_t left every address outside a set alone. */
  ghost predicate KeptOutside(f: Field, f': Field, touched: set<int>) {
    forall a | a in f && a !in touched :: a in f' && f'[a] == f[a]
  }

  lemma FreeDone(units: Field, next: Field, s: seq<Run>, i: nat, r: Run, units': Field, next': Field)
    requires Canonical(s) && Linked(units, next, s) && 0 < i <= |s| && s[0].End() < r.base
    requires BelongsAt(s, i, r.base) && r.len > 0 && r.Range() !! Cells(s)
    requires FreeWrites(units, next, s, i, r, units', next')
    ensures Canonical(Joined(s, i, r)) && Linked(units', next', Joined(s, i, r))
    ensures Joined(s, i, r)[0] == s[0] && |Joined(s, i, r)| >= i && Joined(s, i, r)[i - 1].base == s[i - 1].base
    ensures KeptOutside(units, units', Cells(s) + {r.base}) && KeptOutside(next, next', Cells(s) + {r.base})
  {
    FreeLinks(units, next, s, i, r, units', next');
    JoinedIsCanonical(s, i, r);
    JoinedHead(s, i, r);
    FreeWritesKeep(units, next, s, i, r, units', next');
  }

  lemma FreeWritesKeep(units: Field, next: Field, s: seq<Run>, i: nat, r: Run, units': Field, next': Field)
    requires Canonical(s) && 0 < i <= |s| && FreeWrites(units, next, s, i, r, units', next')
    ensures KeptOutside(units, units', Cells(s) + {r.base}) && KeptOutside(next, next', Cells(s) + {r.base})
  {
    assert s[i - 1].Has(s[i - 1].base) && s[i - 1].base in Cells(s);
  }

  /** Writing the header of a block outside the list leaves the list as it is. */
  lemma LinkedElsewhere(units: Field, next: Field, s: seq<Run>, r: Run, units': Field)
    requires Linked(units, next, s) && Canonical(s) && r.len > 0 && r.Range() !! Cells(s)
    requires units' == units[r.base := r.len]
    ensures Linked(units', next, s)
  {
    assert r.Has(r.base) && r.base in r.Range();
    forall j: nat | j < |s| ensures LinkedAt(units', next, s, j) {
      assert LinkedAt(units, next, s, j);
      assert s[j].Has(s[j].base) && s[j].base in Cells(s);
    }
  }

  /** The first run and the one before the gap keep their place. */
  lemma JoinedHead(s: seq<Run>, i: nat, r: Run)
    requires Canonical(s) && 0 < i && BelongsAt(s, i, r.base) && r.len > 0 && s[0].End() < r.base
    ensures Joined(s, i, r)[0] == s[0] && |Joined(s, i, r)| >= i && Joined(s, i, r)[i - 1].base == s[i - 1].base
  {
  }
}
