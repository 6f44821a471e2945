// kern/mm/default_pmm.c: the first-fit page allocator, its free list kept with libs/list.h.
module PageAllocator {
  import opened Options
  import opened FreeRuns
  import opened PageList

  /** The fields of all page descriptors and of the free area, as a value. */
  datatype PageState = PageState(next: seq<int>, prev: seq<int>, property: seq<int>, isHead: seq<bool>,
                                 reserved: seq<bool>, nrFree: int)

  /** st holds the free list s: circularly linked both ways, lengths in the property fields of the
      run heads, PG_property set exactly on the run heads, nr_free the number of free pages. */
  ghost predicate Represents(st: PageState, s: seq<Run>, n: nat) {
    && |st.property| == |st.isHead| == |st.reserved| == n
    && Sorted(s) && Circle(st.next, st.prev, s, n)
    && (forall i: nat | i < |s| :: s[i].End() <= n && st.property[s[i].base] == s[i].len)
    && (forall p: nat | p < n :: st.isHead[p] <==> IsBase(s, p))
    && (forall p: nat | p < n && st.reserved[p] :: p !in Cells(s))
    && st.nrFree == Total(s)
  }

  ghost predicate IsBase(s: seq<Run>, p: nat) {
    exists i: nat :: i < |s| && s[i].base == p
  }

  /** The free list is in canonical form: some list of maximal runs is what the fields say. */
  ghost predicate IsCanonical(st: PageState, n: nat) {
    exists s :: Represents(st, s, n) && Canonical(s)
  }

  lemma RepresentsOne(st: PageState, s: seq<Run>, t: seq<Run>, n: nat)
    requires Represents(st, s, n) && Represents(st, t, n)
    ensures s == t
  {
    CircleDeterminesLength(st.next, st.prev, s, t, n);
    assert forall i: nat | i < |s| :: s[i] == t[i];
  }

  class PageArea {
    const n: nat
    const next: array<int>
    const prev: array<int>
    const property: array<int>
    const isHead: array<bool>
    const reserved: array<bool>
    const refs: array<int>
    var nrFree: int

    ghost var runs: seq<Run>

    ghost predicate Shape()
      reads this
    {
      && next.Length == prev.Length == n + 1
      && property.Length == isHead.Length == reserved.Length == refs.Length == n
      && next != prev && next != property && next != refs && prev != property && prev != refs && property != refs
      && isHead != reserved
    }

    ghost function State(): PageState
      reads this, next, prev, property, isHead, reserved
    {
      PageState(next[..], prev[..], property[..], isHead[..], reserved[..], nrFree)
    }

    ghost function Fields(): set<object>
      reads this
    {
      {this, next, prev, property, isHead, reserved, refs}
    }

    ghost predicate Valid()
      reads this, next, prev, property, isHead, reserved
    {
      Shape() && Represents(State(), runs, n) && Canonical(runs)
    }

    /** default_init, on descriptors that page_init has marked reserved. */
    constructor (size: nat)
      ensures Valid() && n == size && runs == [] && nrFree == 0
      ensures fresh(next) && fresh(prev) && fresh(property) && fresh(isHead) && fresh(reserved) && fresh(refs)
      ensures forall p | 0 <= p < n :: reserved[p]
    {
      n := size;
      next := new int[size + 1](_ => size);
      prev := new int[size + 1](_ => size);
      property := new int[size](_ => 0);
      isHead := new bool[size](_ => false);
      reserved := new bool[size](_ => true);
      refs := new int[size](_ => 0);
      nrFree := 0;
      runs := [];
    }

    /** __list_add */
    method ListAdd(elm: int, before: int, after: int)
      requires Shape() && 0 <= elm <= n && 0 <= before <= n && 0 <= after <= n
      modifies next, prev
      ensures prev[..] == old(prev[..])[after := elm][elm := before]
      ensures next[..] == old(next[..])[before := elm][elm := after]
    {
      prev[after] := elm;
      next[before] := elm;
      next[elm] := after;
      prev[elm] := before;
    }

    /** list_del */
    method ListDel(elm: int)
      requires Shape() && 0 <= elm <= n && 0 <= next[elm] <= n && 0 <= prev[elm] <= n
      modifies next, prev
      ensures next[..] == old(next[..])[old(prev[elm]) := old(next[elm])]
      ensures prev[..] == old(prev[..])[old(next[elm]) := old(prev[elm])]
    {
      var p, q := prev[elm], next[elm];
      next[p] := q;
      prev[q] := p;
    }

    /** The insertion loop that default_init_memmap and default_free_pages share. It has no break
        behind the append at the tail, so one more round follows in which the new entry is added
        behind itself. */
    method LinkInOrder(base: nat, ghost i: nat)
      requires Shape() && Circle(next[..], prev[..], runs, n) && Sorted(runs) && base < n && BelongsAt(runs, i, base)
      modifies next, prev
      ensures i < |runs| || runs == [] ==>
                && next[..] == old(next[..])[Stop(runs, n, i) := base][base := Stop(runs, n, i + 1)]
                && prev[..] == old(prev[..])[Stop(runs, n, i + 1) := base][base := Stop(runs, n, i)]
      ensures !(i < |runs| || runs == []) ==>
                && next[..] == old(next[..])[runs[i - 1].base := base][base := n]
                && prev[..] == old(prev[..])[n := base][base := base]
    {
      assert Hop(next[..], prev[..], Stop(runs, n, 0), Stop(runs, n, 1));
      if next[n] == n {
        assert runs == [];
        ListAdd(base, n, next[n]);
      } else {
        var le := n;
        ghost var k: nat, appended: nat := 0, 0;
        while true
          invariant appended == 0 ==>
                    k < |runs| && k <= i && le == Stop(runs, n, k) && next[..] == old(next[..])
                    && prev[..] == old(prev[..])
          invariant appended == 1 ==>
                    i == |runs| && Appended(old(next[..]), old(prev[..]), next[..], prev[..], runs, base)
                      && le == runs[i - 1].base
          invariant appended == 2 ==>
                    i == |runs| && SelfLinked(old(next[..]), old(prev[..]), next[..], prev[..], runs, base)
                      && le == base
          invariant appended <= 2
          decreases 2 - appended, |runs| - k
        {
          assert appended == 0 ==> Hop(next[..], prev[..], Stop(runs, n, k), Stop(runs, n, k + 1));
          assert appended == 0 ==> Hop(next[..], prev[..], Stop(runs, n, k + 1), Stop(runs, n, k + 2));
          le := next[le];
          if le == n {
            break;
          }
          if base < le {
            ListAdd(base, prev[le], le);
            break;
          } else if next[le] == n {
            ListAdd(base, le, next[le]);
            appended := appended + 1;
          }
          k := k + 1;
        }
      }
    }

    ghost predicate Appended(next0: seq<int>, prev0: seq<int>, next1: seq<int>, prev1: seq<int>, s: seq<Run>, base: nat)
      requires s != [] && |next0| == |prev0| == n + 1 && base < n && s[|s| - 1].base < n
    {
      var last := s[|s| - 1].base;
      next1 == next0[last := base][base := n] && prev1 == prev0[n := base][base := last]
    }

    /** What the extra round makes of it: the new entry's prev pointer is itself. */
    ghost predicate SelfLinked(next0: seq<int>, prev0: seq<int>, next1: seq<int>, prev1: seq<int>, s: seq<Run>,
                               base: nat)
      requires s != [] && |next0| == |prev0| == n + 1 && base < n && s[|s| - 1].base < n
    {
      next1 == next0[s[|s| - 1].base := base][base := n] && prev1 == prev0[n := base][base := base]
    }

    /** The loop over the descriptors of a block: flags and reference count to 0; for fresh memory
        also the property field. */
    method ClearPages(base: nat, m: nat, zeroProperty: bool)
      requires Shape() && base + m <= n
      modifies property, isHead, reserved, refs
      ensures forall p | 0 <= p < n ::
                && isHead[p] == (if base <= p < base + m then false else old(isHead[p]))
                && reserved[p] == (if base <= p < base + m then false else old(reserved[p]))
                && property[p] == (if zeroProperty && base <= p < base + m then 0 else old(property[p]))
                && refs[p] == (if base <= p < base + m then 0 else old(refs[p]))
    {
      var p := base;
      while p != base + m
        invariant base <= p <= base + m
        invariant forall q | 0 <= q < n ::
                    && isHead[q] == (if base <= q < p then false else old(isHead[q]))
                    && reserved[q] == (if base <= q < p then false else old(reserved[q]))
                    && property[q] == (if zeroProperty && base <= q < p then 0 else old(property[q]))
                    && refs[q] == (if base <= q < p then 0 else old(refs[q]))
        decreases base + m - p
      {
        isHead[p], reserved[p] := false, false;
        if zeroProperty { property[p] := 0; }
        refs[p] := 0;
        p := p + 1;
      }
    }

    /** The entry at base is at the tail and its own predecessor. */
    ghost predicate Stray(base: nat)
      requires Shape() && base < n
      reads this, next, prev, property
    {
      next[base] == n && prev[base] == base && property[base] > 0
    }

    /** What default_init_memmap and the first half of default_free_pages do: the block becomes one
        more run of the list, in its place and not joined with anything. */
    method PutIn(base: nat, m: nat, zeroProperty: bool, ghost i: nat)
      requires Shape() && Represents(State(), runs, n)
      requires m > 0 && base + m <= n && Run(base, m).Range() !! Cells(runs) && BelongsAt(runs, i, base)
      modifies Fields()
      ensures if TailSafe(old(runs), base)
              then Represents(State(), runs, n) && runs == old(runs)[..i] + [Run(base, m)] + old(runs)[i..]
              else runs == old(runs) && (forall s :: !Represents(State(), s, n)) && Stray(base)
      ensures forall p | 0 <= p < n :: reserved[p] == (if base <= p < base + m then false else old(reserved[p]))
      ensures forall p | 0 <= p < n :: refs[p] == (if base <= p < base + m then 0 else old(refs[p]))
      ensures nrFree == old(nrFree) + m
      ensures !TailSafe(old(runs), base) ==>
                && old(runs) != [] && old(runs)[|old(runs)| - 1].base < n
                && SelfLinked(old(next[..]), old(prev[..]), next[..], prev[..], old(runs), base)
                && property[base] == m && isHead[base]
    {
      ghost var st0, s := State(), runs;
      ClearPages(base, m, zeroProperty);
      property[base] := m;
      isHead[base] := true;
      nrFree := nrFree + m;
      LinkInOrder(base, i);
      ghost var r := Run(base, m);
      assert DescribesRun(st0, r, State(), n);
      if TailSafe(s, base) {
        TailSafePlace(s, i, base);
        PutInRepresents(st0, s, n, i, r, State());
        runs := s[..i] + [r] + s[i..];
      } else {
        TailSafePlace(s, i, base);
        forall t ensures !Represents(State(), t, n) {
          SelfLinkedIsNoList(State(), t, base, n);
        }
      }
    }

    /** Either merge of default_free_pages: the run at lo swallows the one at hi that it touches. */
    method MergePair(lo: int, hi: int, ghost k: nat)
      requires Shape() && Represents(State(), runs, n) && k + 1 < |runs|
      requires lo == runs[k].base && hi == runs[k + 1].base && runs[k].End() == hi
      modifies this`runs, next, prev, property, isHead
      ensures Represents(State(), runs, n) && runs == Fused(old(runs), k)
    {
      ghost var st0 := State();
      assert Hop(next[..], prev[..], Stop(runs, n, k + 1), Stop(runs, n, k + 2));
      assert Hop(next[..], prev[..], Stop(runs, n, k + 2), Stop(runs, n, k + 3));
      property[lo] := property[lo] + property[hi];
      isHead[hi] := false;
      ListDel(hi);
      FusedRepresents(st0, runs, n, k, State());
      runs := Fused(runs, k);
    }

    /** default_free_pages. The list stays canonical exactly if the block is not appended at the
        tail of a list that holds runs; then the freed block is joined with what it touches. */
    method FreePages(base: nat, m: nat)
      requires Valid() && m > 0 && base + m <= n && Run(base, m).Range() !! Cells(runs)
      requires forall p | base <= p < base + m :: !reserved[p] && !isHead[p]
      modifies Fields()
      ensures IsCanonical(State(), n) <==> TailSafe(old(runs), base)
      ensures TailSafe(old(runs), base) ==>
                && Valid() && Cells(runs) == old(Cells(runs)) + Run(base, m).Range()
                && exists i: nat :: BelongsAt(old(runs), i, base) && runs == Joined(old(runs), i, Run(base, m))
      ensures forall p | 0 <= p < n :: reserved[p] == old(reserved[p])
      ensures forall p | 0 <= p < n :: refs[p] == (if base <= p < base + m then 0 else old(refs[p]))
      ensures nrFree == old(nrFree) + m
      ensures !TailSafe(old(runs), base) ==>
                && old(runs) != [] && old(runs)[|old(runs)| - 1].base < n
                && SelfLinked(old(next[..]), old(prev[..]), next[..], prev[..], old(runs), base)
                && property[base] == m && isHead[base]
    {
      ghost var r, s := Run(base, m), runs;
      ghost var i := PlaceFor(s, r);
      PutIn(base, m, false, i);
      MergeBoth(base, s, i);
      JoinedIsCanonical(s, i, r);
    }

    /** default_init_memmap, which joins nothing: the list stays canonical exactly if, besides, the new
        block touches no free run. */
    method InitMemmap(base: nat, m: nat)
      requires Valid() && m > 0 && base + m <= n
      requires forall p | base <= p < base + m :: reserved[p]
      modifies Fields()
      ensures exists i: nat :: BelongsAt(old(runs), i, base) &&
                (IsCanonical(State(), n) <==>
                   TailSafe(old(runs), base) && !TouchesLeft(old(runs), i, Run(base, m))
                     && !TouchesRight(old(runs), i, Run(base, m)))
      ensures IsCanonical(State(), n) ==> Valid() && Cells(runs) == old(Cells(runs)) + Run(base, m).Range()
      ensures forall p | 0 <= p < n :: reserved[p] == (if base <= p < base + m then false else old(reserved[p]))
      ensures forall p | 0 <= p < n :: refs[p] == (if base <= p < base + m then 0 else old(refs[p]))
      ensures nrFree == old(nrFree) + m
      ensures !TailSafe(old(runs), base) ==>
                && old(runs) != [] && old(runs)[|old(runs)| - 1].base < n
                && SelfLinked(old(next[..]), old(prev[..]), next[..], prev[..], old(runs), base)
                && property[base] == m && isHead[base]
    {
      ghost var r, s := Run(base, m), runs;
      assert forall p | p in r.Range() :: r.Has(p);
      ghost var i := PlaceFor(s, r);
      RoomFor(s, i, r);
      PutIn(base, m, true, i);
      if TailSafe(s, base) {
        PutInCanonical(s, i, r);
        CellsAround(s, i, r);
        forall t | Represents(State(), t, n) ensures t == runs { RepresentsOne(State(), t, runs, n); }
        assert Canonical(runs) ==> IsCanonical(State(), n);
      }
    }

    /** The first merge of default_free_pages; b is the base of the run that holds the freed block. A
        stray entry is merged with nothing. */
    method MergeLeft(base: nat, ghost s: seq<Run>, ghost i: nat) returns (b: int)
      requires Shape() && base < n && BelongsAt(s, i, base)
      requires TailSafe(s, base) ==>
                 && Represents(State(), runs, n) && |runs| == |s| + 1 && runs[i].base == base
                 && runs == s[..i] + [runs[i]] + s[i..]
      requires !TailSafe(s, base) ==> Stray(base)
      modifies this`runs, next, prev, property, isHead
      ensures TailSafe(s, base) ==>
                && Represents(State(), runs, n) && runs == JoinedLeft(s, i, old(runs[i]))
                && var k := LeftIndex(s, i, old(runs[i])); k < |runs| && runs[k].base == b
      ensures !TailSafe(s, base) ==> State() == old(State()) && runs == old(runs) && b == base
      ensures Shape() && 0 <= b < n && (!TailSafe(s, base) ==> next[b] == n)
    {
      ghost var safe, r := TailSafe(s, base), if i < |runs| then runs[i] else Run(0, 0);
      if safe { Before(State(), runs, n, i); }
      b := base;
      var le := prev[b];
      if le != n {
        var p := le;
        if p + property[p] == b {
          MergePair(p, b, i - 1);
          b := p;
        }
      }
    }

    /** Both merges: the freed block ends up joined with what it touches. */
    method MergeBoth(base: nat, ghost s: seq<Run>, ghost i: nat)
      requires Shape() && base < n && BelongsAt(s, i, base)
      requires TailSafe(s, base) ==>
                 && Represents(State(), runs, n) && |runs| == |s| + 1 && runs[i].base == base
                 && runs == s[..i] + [runs[i]] + s[i..]
      requires !TailSafe(s, base) ==> Stray(base)
      modifies this`runs, next, prev, property, isHead
      ensures TailSafe(s, base) ==> Represents(State(), runs, n) && runs == Joined(s, i, old(runs[i]))
      ensures !TailSafe(s, base) ==> State() == old(State()) && runs == old(runs)
    {
      hide Represents, JoinedLeft, LeftIndex, Joined;
      ghost var r := if i < |runs| then runs[i] else Run(0, 0);
      var b := MergeLeft(base, s, i);
      JoinedFromLeft(s, i, r);
      MergeRight(b, TailSafe(s, base), LeftIndex(s, i, r));
    }

    /** The second merge, with the run behind. */
    method MergeRight(b: int, ghost safe: bool, ghost k: nat)
      requires Shape() && 0 <= b < n
      requires safe ==> Represents(State(), runs, n) && k < |runs| && runs[k].base == b
      requires !safe ==> next[b] == n
      modifies this`runs, next, prev, property, isHead
      ensures safe ==>
                && Represents(State(), runs, n)
                && runs == if k + 1 < |old(runs)| && old(runs)[k].End() == old(runs)[k + 1].base
                   then Fused(old(runs), k) else old(runs)
      ensures !safe ==> State() == old(State()) && runs == old(runs)
    {
      if safe { Behind(State(), runs, n, k); }
      var le := next[b];
      if le != n {
        if b + property[b] == le {
          MergePair(b, le, k);
        }
      }
    }

    /** default_alloc_pages: first fit, from the front of the run. */
    method AllocPages(m: nat) returns (page: Option<nat>)
      requires Valid() && m > 0
      modifies Fields()
      ensures Valid()
      ensures page.None? ==> NoFit(old(runs), m) && runs == old(runs)
      ensures page.Some? ==>
                && (exists k: nat ::
                    FirstFit(old(runs), m, k) && page.value == old(runs)[k].base && runs == Taken(old(runs), k, m))
                && Cells(runs) == old(Cells(runs)) - Run(page.value, m).Range()
                && page.value + m <= n && forall p | page.value <= p < page.value + m :: !reserved[p] && !isHead[p]
      ensures forall p | 0 <= p < n :: reserved[p] == old(reserved[p]) && refs[p] == old(refs[p])
      ensures nrFree == old(nrFree) - if page.Some? then m else 0
    {
      if m > nrFree {
        TotalBoundsRuns(runs, m);
        return None;
      }
      var le := n;
      ghost var k: nat := 0;
      page := None;
      while true
        invariant k <= |runs| && le == Stop(runs, n, k) && NoFit(runs[..k], m) && page.None?
        decreases |runs| - k
      {
        assert Hop(next[..], prev[..], Stop(runs, n, k), Stop(runs, n, k + 1));
        le := next[le];
        if le == n {
          break;
        }
        if property[le] >= m {
          page := Some(le);
          break;
        }
        assert runs[..k + 1] == runs[..k] + [runs[k]];
        k := k + 1;
      }
      if page.Some? {
        CarvePages(page.value, m, k);
      }
    }

    /** The end of default_alloc_pages: the run at index k leaves the list, and its rest comes back. */
    method WriteCarve(page: nat, m: nat, ghost k: nat)
      requires Shape() && Represents(State(), runs, n) && k < |runs| && page == runs[k].base && 0 < m <= runs[k].len
      modifies this`nrFree, next, prev, property, isHead
      ensures CarveWrites(old(State()), runs, n, k, m, State())
    {
      Before(State(), runs, n, k);
      Behind(State(), runs, n, k);
      var before := prev[page];
      ListDel(page);
      if property[page] > m {
        var p := page + m;
        property[p] := property[page] - m;
        isHead[p] := true;
        ListAdd(p, before, next[before]);
      }
      nrFree := nrFree - m;
      isHead[page] := false;
    }

    method CarvePages(page: nat, m: nat, ghost k: nat)
      requires Valid() && k < |runs| && page == runs[k].base && 0 < m <= runs[k].len
      modifies this, next, prev, property, isHead
      ensures Valid() && runs == Taken(old(runs), k, m) && nrFree == old(nrFree) - m
      ensures Cells(runs) == old(Cells(runs)) - Run(page, m).Range()
      ensures page + m <= n && forall p | page <= p < page + m :: !reserved[p] && !isHead[p]
    {
      ghost var st0, s := State(), runs;
      WriteCarve(page, m, k);
      CarvedRepresents(st0, s, n, k, m, State());
      CarvedIsClear(st0, s, n, k, m, State());
      TakenIsCanonical(s, k, m);
      TakenCells(s, k, m);
      runs := Taken(s, k, m);
    }
  }

  // ---------- carving ----------

  /** What the end of default_alloc_pages writes. */
  ghost predicate CarveWrites(st: PageState, s: seq<Run>, n: nat, k: nat, m: nat, st': PageState)
    requires Represents(st, s, n) && k < |s| && 0 < m <= s[k].len
  {
    var page, p := s[k].base, s[k].base + m;
    var before, behind := Stop(s, n, k), Stop(s, n, k + 2);
    && st'.reserved == st.reserved && st'.nrFree == st.nrFree - m
    && if s[k].len == m then
         && st'.next == st.next[before := behind] && st'.prev == st.prev[behind := before]
         && st'.property == st.property && st'.isHead == st.isHead[page := false]
       else
         && st'.next == st.next[before := behind][before := p][p := behind]
         && st'.prev == st.prev[behind := before][behind := p][p := before]
         && st'.property == st.property[p := s[k].len - m]
         && st'.isHead == st.isHead[p := true][page := false]
  }

  lemma CarvedCircle(next: seq<int>, prev: seq<int>, s: seq<Run>, n: nat, k: nat, rest: Run, next': seq<int>,
                     prev': seq<int>)
    requires Circle(next, prev, s, n) && Canonical(s) && k < |s|
    requires s[k].base < rest.base && rest.End() == s[k].End() && rest.len > 0 && rest.base < n
    requires var before, behind := Stop(s, n, k), Stop(s, n, k + 2);
             && next' == next[before := behind][before := rest.base][rest.base := behind]
             && prev' == prev[behind := before][behind := rest.base][rest.base := before]
    ensures Circle(next', prev', s[k := rest], n)
  {
    var before, behind := Stop(s, n, k), Stop(s, n, k + 2);
    var s1 := s[..k] + s[k + 1..];
    var next1, prev1 := next[before := behind], prev[behind := before];
    hide Circle, Canonical;
    Deleted(next, prev, s, n, k, next1, prev1);
    WithoutIsCanonical(s, k);
    RestBelongs(s, k, rest);
    StopsWithout(s, n, k);
    Added(next1, prev1, s1, n, k, rest, next', prev');
    OutAndIn(s, k, rest);
  }

  lemma OutAndIn(s: seq<Run>, k: nat, rest: Run)
    requires k < |s|
    ensures var s1 := s[..k] + s[k + 1..]; s1[..k] + [rest] + s1[k..] == s[k := rest]
  {
  }

  lemma StopsWithout(s: seq<Run>, n: nat, k: nat)
    requires k < |s|
    ensures Stop(s[..k] + s[k + 1..], n, k) == Stop(s, n, k)
    ensures Stop(s[..k] + s[k + 1..], n, k + 1) == Stop(s, n, k + 2)
  {
  }

  lemma WithoutIsCanonical(s: seq<Run>, k: nat)
    requires Canonical(s) && k < |s|
    ensures Canonical(s[..k] + s[k + 1..])
  {
    TakenIsCanonical(s, k, s[k].len);
  }

  lemma RestBelongs(s: seq<Run>, k: nat, rest: Run)
    requires Canonical(s) && k < |s| && s[k].base < rest.base < s[k].End()
    ensures BelongsAt(s[..k] + s[k + 1..], k, rest.base)
  {
    assert forall j: nat | j < k :: s[j].End() < s[k].base;
    assert forall j: nat | k < j < |s| :: s[k].End() < s[j].base;
  }

  lemma CarvedTotal(s: seq<Run>, k: nat, m: nat)
    requires Canonical(s) && k < |s| && 0 < m <= s[k].len
    ensures Total(Taken(s, k, m)) == Total(s) - m
  {
    var r := Run(s[k].base, m);
    TakenIsCanonical(s, k, m);
    TakenCells(s, k, m);
    RangeSize(r);
    CountMinus(Cells(s), r.Range());
    TotalIsCount(s);
    TotalIsCount(Taken(s, k, m));
  }

  lemma CountMinus(a: set<int>, b: set<int>)
    requires b <= a
    ensures |a - b| == |a| - |b|
  {
    assert a == (a - b) + b;
  }

  lemma CarvedBase(s: seq<Run>, k: nat, m: nat, p: nat)
    requires Canonical(s) && k < |s| && 0 < m <= s[k].len
    ensures IsBase(Taken(s, k, m), p) <==> (IsBase(s, p) && p != s[k].base) || (m < s[k].len && p == s[k].base + m)
  {
    var t := Taken(s, k, m);
    if m < s[k].len { assert t[k].base == s[k].base + m; }
    if IsBase(s, p) && p != s[k].base { KeptBase(s, k, m, p); }
    if IsBase(t, p) && !(m < s[k].len && p == s[k].base + m) { OldBase(s, k, m, p); }
  }

  lemma KeptBase(s: seq<Run>, k: nat, m: nat, p: nat)
    requires k < |s| && 0 < m <= s[k].len && IsBase(s, p) && p != s[k].base
    ensures IsBase(Taken(s, k, m), p)
  {
    var j: nat :| j < |s| && s[j].base == p;
    assert Taken(s, k, m)[if m < s[k].len || j < k then j else j - 1] == s[j];
  }

  lemma OldBase(s: seq<Run>, k: nat, m: nat, p: nat)
    requires Canonical(s) && k < |s| && 0 < m <= s[k].len
    requires IsBase(Taken(s, k, m), p) && !(m < s[k].len && p == s[k].base + m)
    ensures IsBase(s, p) && p != s[k].base
  {
    var j: nat :| j < |Taken(s, k, m)| && Taken(s, k, m)[j].base == p;
    var i: nat := if m < s[k].len || j < k then j else j + 1;
    assert Taken(s, k, m)[j] == s[i] && i != k;
    DistinctBases(s, i, k);
  }

  lemma CarvedRun(st: PageState, s: seq<Run>, n: nat, k: nat, m: nat, st': PageState, j: nat)
    requires Represents(st, s, n) && Canonical(s) && k < |s| && 0 < m <= s[k].len && CarveWrites(st, s, n, k, m, st')
    requires j < |Taken(s, k, m)|
    ensures var q := Taken(s, k, m)[j]; q.End() <= n && st'.property[q.base] == q.len
  {
    if m < s[k].len && j != k {
      assert j < k ==> s[j].End() < s[k].base;
      assert k < j ==> s[k].End() < s[j].base;
    }
  }

  lemma CarvedRepresents(st: PageState, s: seq<Run>, n: nat, k: nat, m: nat, st': PageState)
    requires Represents(st, s, n) && Canonical(s) && k < |s| && 0 < m <= s[k].len && CarveWrites(st, s, n, k, m, st')
    ensures Represents(st', Taken(s, k, m), n)
  {
    var t := Taken(s, k, m);
    if s[k].len == m {
      Deleted(st.next, st.prev, s, n, k, st'.next, st'.prev);
    } else {
      CarvedCircle(st.next, st.prev, s, n, k, Run(s[k].base + m, s[k].len - m), st'.next, st'.prev);
    }
    CarvedTotal(s, k, m);
    TakenIsCanonical(s, k, m);
    TakenCells(s, k, m);
    forall j: nat | j < |t| ensures t[j].End() <= n && st'.property[t[j].base] == t[j].len {
      CarvedRun(st, s, n, k, m, st', j);
    }
    forall p: nat | p < n ensures st'.isHead[p] <==> IsBase(t, p) {
      CarvedBase(s, k, m, p);
    }
  }

  /** The pages handed out are not run heads, and, having been free, not reserved. */
  lemma CarvedIsClear(st: PageState, s: seq<Run>, n: nat, k: nat, m: nat, st': PageState)
    requires Represents(st, s, n) && Canonical(s) && k < |s| && 0 < m <= s[k].len && CarveWrites(st, s, n, k, m, st')
    ensures forall p: nat | s[k].base <= p < s[k].base + m :: !st'.reserved[p] && !st'.isHead[p]
  {
    forall p: nat | s[k].base <= p < s[k].base + m ensures !st'.reserved[p] && !st'.isHead[p] {
      assert s[k].Has(p) && p in Cells(s);
      if p != s[k].base {
        forall j: nat | j < |s| ensures s[j].base != p {
          if j != k {
            assert j < k ==> s[j].End() < s[k].base;
            assert k < j ==> s[k].End() < s[j].base;
          }
        }
      }
    }
  }

  lemma {:induction false} TotalBoundsRuns(s: seq<Run>, m: nat)
    requires Total(s) < m
    ensures NoFit(s, m)
  {
    if s != [] {
      TotalBoundsRuns(s[..|s| - 1], m);
      assert s == s[..|s| - 1] + [s[|s| - 1]];
    }
  }

  lemma PutInCanonical(s: seq<Run>, i: nat, r: Run)
    requires Canonical(s) && i <= |s| && r.len > 0
    requires i > 0 ==> s[i - 1].End() <= r.base
    requires i < |s| ==> r.End() <= s[i].base
    ensures Canonical(s[..i] + [r] + s[i..]) <==> !TouchesLeft(s, i, r) && !TouchesRight(s, i, r)
  {
    var t := s[..i] + [r] + s[i..];
    assert t[i] == r && (i > 0 ==> t[i - 1] == s[i - 1]) && (i < |s| ==> t[i + 1] == s[i]);
    if Canonical(t) {
      assert i > 0 ==> t[i - 1].End() < t[i].base;
      assert i < |s| ==> t[i].End() < t[i + 1].base;
    }
    if !TouchesLeft(s, i, r) && !TouchesRight(s, i, r) {
      Glue(s[..i], r, s[i..]);
    }
  }

  lemma Before(st: PageState, s: seq<Run>, n: nat, i: nat)
    requires Represents(st, s, n) && i < |s|
    ensures if i == 0 then st.prev[s[i].base] == n
            else st.prev[s[i].base] == s[i - 1].base && st.property[s[i - 1].base] == s[i - 1].len
  {
    assert Hop(st.next, st.prev, Stop(s, n, i), Stop(s, n, i + 1));
  }

  lemma Behind(st: PageState, s: seq<Run>, n: nat, i: nat)
    requires Represents(st, s, n) && i < |s|
    ensures st.property[s[i].base] == s[i].len
    ensures st.next[s[i].base] == if i + 1 < |s| then s[i + 1].base else n
  {
    assert Hop(st.next, st.prev, Stop(s, n, i + 1), Stop(s, n, i + 2));
  }

  ghost function LeftIndex(s: seq<Run>, i: nat, r: Run): nat
    requires i <= |s|
  {
    if TouchesLeft(s, i, r) then i - 1 else i
  }

  /** r put in at index i and joined with the run before it if the two touch. */
  ghost function JoinedLeft(s: seq<Run>, i: nat, r: Run): seq<Run>
    requires i <= |s|
  {
    if TouchesLeft(s, i, r) then s[..i - 1] + [Run(s[i - 1].base, s[i - 1].len + r.len)] + s[i..]
      else s[..i] + [r] + s[i..]
  }

  lemma JoinedFromLeft(s: seq<Run>, i: nat, r: Run)
    requires i <= |s|
    ensures var t, k := JoinedLeft(s, i, r), LeftIndex(s, i, r);
            && k < |t| && t[k].End() == r.End()
            && (k + 1 < |t| <==> i < |s|) && (i < |s| ==> t[k + 1] == s[i])
            && Joined(s, i, r) == if TouchesRight(s, i, r) then Fused(t, k) else t
  {
    var t, k := JoinedLeft(s, i, r), LeftIndex(s, i, r);
    assert t[..k] == s[..k];
    if TouchesRight(s, i, r) {
      assert t[k + 1] == s[i] && t[k + 2..] == s[i + 1..];
      assert Joined(s, i, r) == s[..k] + [Run(t[k].base, t[k].len + s[i].len)] + s[i + 1..];
    } else {
      assert t[k + 1..] == s[i..];
    }
  }

  /** Runs k and k + 1 as one. */
  ghost function Fused(s: seq<Run>, k: nat): seq<Run>
    requires k + 1 < |s|
  {
    s[..k] + [Run(s[k].base, s[k].len + s[k + 1].len)] + s[k + 2..]
  }

  ghost function FusedIndex(k: nat, j: nat): nat {
    if j <= k then j else j + 1
  }

  lemma FusedRuns(s: seq<Run>, k: nat)
    requires Sorted(s) && k + 1 < |s| && s[k].End() == s[k + 1].base
    ensures |Fused(s, k)| == |s| - 1
    ensures forall j: nat | j < |s| - 1 && j != k :: Fused(s, k)[j] == s[FusedIndex(k, j)]
    ensures Fused(s, k)[k] == Run(s[k].base, s[k].len + s[k + 1].len)
    ensures Sorted(Fused(s, k))
  {
    var t := Fused(s, k);
    assert forall j: nat | j < |t| :: t[j].base == s[FusedIndex(k, j)].base;
    assert forall j: nat | j < |t| :: t[j].End() == s[if j < k then j else j + 1].End();
  }

  lemma FusedCells(s: seq<Run>, k: nat)
    requires Sorted(s) && k + 1 < |s| && s[k].End() == s[k + 1].base
    ensures Cells(Fused(s, k)) == Cells(s) && Total(Fused(s, k)) == Total(s)
  {
    FusedRuns(s, k);
    var both := Run(s[k].base, s[k].len + s[k + 1].len);
    assert s == s[..k] + ([s[k]] + [s[k + 1]]) + s[k + 2..];
    ConcatCells(s[..k], [s[k]] + [s[k + 1]], s[k + 2..]);
    ConcatCells(s[..k], [both], s[k + 2..]);
    TwoAsOne(s[k], s[k + 1], both);
    TotalIsCount(s);
    TotalIsCount(Fused(s, k));
  }

  lemma TwoAsOne(a: Run, b: Run, both: Run)
    requires a.End() == b.base && both == Run(a.base, a.len + b.len)
    ensures Cells([a] + [b]) == Cells([both])
  {
    SplitCells([a], [b]);
    SingleCells(a);
    SingleCells(b);
    SingleCells(both);
    ThreePieces(a, b, Run(both.End(), 0), both);
    assert Run(both.End(), 0).Range() == {};
  }

  lemma FusedBases(s: seq<Run>, k: nat, p: nat)
    requires Sorted(s) && k + 1 < |s| && s[k].End() == s[k + 1].base
    ensures IsBase(Fused(s, k), p) <==> IsBase(s, p) && p != s[k + 1].base
  {
    if IsBase(Fused(s, k), p) { FusedBaseWasBase(s, k, p); }
    if IsBase(s, p) && p != s[k + 1].base { BaseStaysBase(s, k, p); }
  }

  lemma FusedBaseWasBase(s: seq<Run>, k: nat, p: nat)
    requires Sorted(s) && k + 1 < |s| && s[k].End() == s[k + 1].base && IsBase(Fused(s, k), p)
    ensures IsBase(s, p) && p != s[k + 1].base
  {
    FusedRuns(s, k);
    var j: nat :| j < |s| - 1 && Fused(s, k)[j].base == p;
    DistinctBases(s, FusedIndex(k, j), k + 1);
  }

  lemma BaseStaysBase(s: seq<Run>, k: nat, p: nat)
    requires Sorted(s) && k + 1 < |s| && s[k].End() == s[k + 1].base && IsBase(s, p) && p != s[k + 1].base
    ensures IsBase(Fused(s, k), p)
  {
    FusedRuns(s, k);
    var j: nat :| j < |s| && s[j].base == p;
    var i: nat := if j <= k then j else j - 1;
    assert i < |s| - 1 && Fused(s, k)[i].base == p;
  }

  lemma DistinctBases(s: seq<Run>, i: nat, j: nat)
    requires Sorted(s) && i < |s| && j < |s| && i != j
    ensures s[i].base != s[j].base
  {
    assert i < j ==> s[i].End() <= s[j].base;
    assert j < i ==> s[j].End() <= s[i].base;
  }

  lemma FusedCircle(next: seq<int>, prev: seq<int>, s: seq<Run>, n: nat, k: nat)
    requires Sorted(s) && k + 1 < |s| && s[k].End() == s[k + 1].base
    requires Circle(next, prev, s[..k + 1] + s[k + 2..], n)
    ensures Circle(next, prev, Fused(s, k), n)
  {
    FusedRuns(s, k);
    var u, t := s[..k + 1] + s[k + 2..], Fused(s, k);
    assert forall j: nat | j < |t| :: t[j].base == u[j].base;
    forall j: nat | j <= |t| ensures Hop(next, prev, Stop(t, n, j), Stop(t, n, j + 1)) {
      assert Hop(next, prev, Stop(u, n, j), Stop(u, n, j + 1));
    }
  }

  lemma FusedRepresents(st: PageState, s: seq<Run>, n: nat, k: nat, st': PageState)
    requires Represents(st, s, n) && k + 1 < |s| && s[k].End() == s[k + 1].base
    requires st' == st.(next := st.next[s[k].base := Stop(s, n, k + 3)],
                        prev := st.prev[Stop(s, n, k + 3) := s[k].base],
                        property := st.property[s[k].base := s[k].len + s[k + 1].len],
                        isHead := st.isHead[s[k + 1].base := false])
    ensures Represents(st', Fused(s, k), n)
  {
    var t := Fused(s, k);
    Deleted(st.next, st.prev, s, n, k + 1, st'.next, st'.prev);
    FusedCircle(st'.next, st'.prev, s, n, k);
    FusedRuns(s, k);
    FusedCells(s, k);
    forall p: nat | p < n ensures st'.isHead[p] <==> IsBase(t, p) {
      FusedBases(s, k, p);
    }
    forall j: nat | j < |t| ensures t[j].End() <= n && st'.property[t[j].base] == t[j].len {
      if j < k { StopsDiffer(s, n, j + 1, k + 1); }
      if j > k { StopsDiffer(s, n, k + 1, j + 2); }
    }
  }

  /** The guard of the faulty branch: nothing is appended at the tail of a list that holds runs. */
  predicate TailSafe(s: seq<Run>, base: nat) {
    s == [] || base < s[|s| - 1].base
  }

  // ---------- representation ----------

  /** The descriptors of the pages of r have been set up as a run of its own. */
  ghost predicate DescribesRun(st: PageState, r: Run, st': PageState, n: nat) {
    && |st'.property| == |st'.isHead| == |st'.reserved| == n == |st.property| == |st.isHead| == |st.reserved|
    && r.End() <= n && st'.nrFree == st.nrFree + r.len
    && forall p: nat | p < n ::
         if r.Has(p) then (st'.isHead[p] <==> p == r.base) && !st'.reserved[p]
           && (p == r.base ==> st'.property[p] == r.len)
         else st'.isHead[p] == st.isHead[p] && st'.reserved[p] == st.reserved[p] && st'.property[p] == st.property[p]
  }

  lemma PutInRepresents(st: PageState, s: seq<Run>, n: nat, i: nat, r: Run, st': PageState)
    requires Represents(st, s, n) && BelongsAt(s, i, r.base) && r.len > 0 && r.Range() !! Cells(s)
    requires DescribesRun(st, r, st', n)
    requires st'.next == st.next[Stop(s, n, i) := r.base][r.base := Stop(s, n, i + 1)]
    requires st'.prev == st.prev[Stop(s, n, i + 1) := r.base][r.base := Stop(s, n, i)]
    ensures Represents(st', s[..i] + [r] + s[i..], n)
  {
    var t := s[..i] + [r] + s[i..];
    Added(st.next, st.prev, s, n, i, r, st'.next, st'.prev);
    PutInSorted(s, i, r);
    PutInCells(s, i, r);
    forall j: nat | j < |t| ensures t[j].End() <= n && st'.property[t[j].base] == t[j].len {
      PutInProperty(st, s, n, i, r, st', j);
    }
    forall p: nat | p < n ensures st'.isHead[p] <==> IsBase(t, p) {
      PutInBases(s, i, r, p);
      if r.Has(p) { NoBaseInside(s, r, p); }
    }
    forall p: nat | p < n && st'.reserved[p] ensures p !in Cells(t) {
      InRange(r, p);
    }
  }

  lemma PutInProperty(st: PageState, s: seq<Run>, n: nat, i: nat, r: Run, st': PageState, j: nat)
    requires Represents(st, s, n) && i <= |s| && r.len > 0 && r.Range() !! Cells(s)
    requires DescribesRun(st, r, st', n) && j <= |s|
    ensures var q := (s[..i] + [r] + s[i..])[j]; q.End() <= n && st'.property[q.base] == q.len
  {
    var t := s[..i] + [r] + s[i..];
    if j != i {
      var k := if j < i then j else j - 1;
      assert t[j] == s[k];
      OtherBase(s, k, r);
    } else {
      assert t[j] == r && r.Has(r.base);
    }
  }

  lemma PutInSorted(s: seq<Run>, i: nat, r: Run)
    requires Sorted(s) && BelongsAt(s, i, r.base) && r.len > 0 && r.Range() !! Cells(s)
    ensures Sorted(s[..i] + [r] + s[i..])
  {
    RoomFor(s, i, r);
    var t := s[..i] + [r] + s[i..];
    forall j: nat | j < |s| ensures if j < i then s[j].End() <= r.base else r.End() <= s[j].base {
      assert j < i - 1 ==> s[j].End() <= s[i - 1].base;
      assert i < j ==> s[i].End() <= s[j].base;
    }
    forall j, k | 0 <= j < k < |t| ensures t[j].End() <= t[k].base {
      assert t[j] == if j < i then s[j] else if j == i then r else s[j - 1];
      assert t[k] == if k < i then s[k] else if k == i then r else s[k - 1];
    }
  }

  lemma PutInCells(s: seq<Run>, i: nat, r: Run)
    requires i <= |s| && Sorted(s) && Sorted(s[..i] + [r] + s[i..]) && r.Range() !! Cells(s)
    ensures Cells(s[..i] + [r] + s[i..]) == Cells(s) + r.Range()
    ensures Total(s[..i] + [r] + s[i..]) == Total(s) + r.len
  {
    CellsAround(s, i, r);
    TotalIsCount(s);
    TotalIsCount(s[..i] + [r] + s[i..]);
    RangeSize(r);
  }

  lemma CellsAround(s: seq<Run>, i: nat, r: Run)
    requires i <= |s|
    ensures Cells(s[..i] + [r] + s[i..]) == Cells(s) + r.Range()
  {
    ConcatCells(s[..i], [r], s[i..]);
    SingleCells(r);
    assert s == s[..i] + s[i..];
    SplitCells(s[..i], s[i..]);
  }

  lemma ConcatCells(a: seq<Run>, b: seq<Run>, c: seq<Run>)
    ensures Cells(a + b + c) == Cells(a) + Cells(b) + Cells(c)
  {
    SplitCells(a + b, c);
    SplitCells(a, b);
  }

  lemma PutInBases(s: seq<Run>, i: nat, r: Run, p: nat)
    requires i <= |s|
    ensures IsBase(s[..i] + [r] + s[i..], p) <==> IsBase(s, p) || p == r.base
  {
    assert s == s[..i] + s[i..];
    SplitBase(s[..i], s[i..], p);
    SplitBase(s[..i] + [r], s[i..], p);
    SplitBase(s[..i], [r], p);
    assert [r][0] == r;
  }

  lemma SplitBase(a: seq<Run>, b: seq<Run>, p: nat)
    ensures IsBase(a + b, p) <==> IsBase(a, p) || IsBase(b, p)
  {
    if IsBase(a, p) {
      var j: nat :| j < |a| && a[j].base == p;
      assert (a + b)[j] == a[j];
    }
    if IsBase(b, p) {
      var j: nat :| j < |b| && b[j].base == p;
      assert (a + b)[|a| + j] == b[j];
    }
  }

  lemma OtherBase(s: seq<Run>, j: nat, r: Run)
    requires Sorted(s) && j < |s| && r.Range() !! Cells(s)
    ensures !r.Has(s[j].base)
  {
    assert s[j].Has(s[j].base) && s[j].base in Cells(s);
    InRange(r, s[j].base);
  }

  lemma NoBaseInside(s: seq<Run>, r: Run, p: nat)
    requires Sorted(s) && r.Range() !! Cells(s) && r.Has(p)
    ensures !IsBase(s, p)
  {
    forall j: nat | j < |s| ensures s[j].base != p {
      OtherBase(s, j, r);
    }
  }

  lemma TailSafePlace(s: seq<Run>, i: nat, base: nat)
    requires BelongsAt(s, i, base)
    ensures TailSafe(s, base) <==> i < |s| || s == []
  {
  }

  lemma LastStop(st: PageState, s: seq<Run>, n: nat)
    requires Represents(st, s, n)
    ensures st.prev[n] == Stop(s, n, |s|)
    ensures s != [] ==> st.prev[Stop(s, n, |s|)] != Stop(s, n, |s|)
  {
    assert Hop(st.next, st.prev, Stop(s, n, |s|), Stop(s, n, |s| + 1));
    if s != [] {
      assert Hop(st.next, st.prev, Stop(s, n, |s| - 1), Stop(s, n, |s|));
      StopsDiffer(s, n, |s| - 1, |s|);
    }
  }

  /** Links whose last entry points back at itself are no list at all. */
  lemma SelfLinkedIsNoList(st: PageState, s: seq<Run>, base: nat, n: nat)
    requires |st.prev| == n + 1 && base < n && st.prev[n] == base && st.prev[base] == base
    ensures !Represents(st, s, n)
  {
    if Represents(st, s, n) {
      LastStop(st, s, n);
    }
  }

  // ---------- consequences ----------

  /** What a caller can check before default_free_pages: the list is empty, or the block goes before the
      last run. */
  method IsTailSafe(area: PageArea, base: nat) returns (safe: bool)
    requires area.Valid()
    ensures safe == TailSafe(area.runs, base)
  {
    ghost var s, n := area.runs, area.n;
    assert Hop(area.next[..], area.prev[..], Stop(s, n, |s|), Stop(s, n, |s| + 1));
    assert s != [] ==> s[|s| - 1].base < n;
    var last := area.prev[area.n];
    safe := last == area.n || base < last;
  }

  /** On lists of runs the order of two joins does not show. */
  lemma JoinsCommute(s: seq<Run>, a: Run, b: Run, t: seq<Run>, u: seq<Run>)
    requires Canonical(t) && Canonical(u)
    requires Cells(t) == (Cells(s) + a.Range()) + b.Range() && Cells(u) == (Cells(s) + b.Range()) + a.Range()
    ensures t == u
  {
    assert Cells(t) == Cells(u);
    CanonicalIsUnique(t, u);
  }

  /** On lists of runs, joining what was taken gives the list back. */
  lemma JoinUndoesTake(s: seq<Run>, k: nat, m: nat, i: nat)
    requires Canonical(s) && k < |s| && 0 < m <= s[k].len
    requires BelongsAt(Taken(s, k, m), i, s[k].base)
    ensures Joined(Taken(s, k, m), i, Run(s[k].base, m)) == s
  {
    var r := Run(s[k].base, m);
    TakenIsCanonical(s, k, m);
    TakenCells(s, k, m);
    JoinedIsCanonical(Taken(s, k, m), i, r);
    assert (Cells(s) - r.Range()) + r.Range() == Cells(s);
    CanonicalIsUnique(Joined(Taken(s, k, m), i, r), s);
  }

  /** A block taken from the run at index k can be given back, except if it was the whole of the last of
      several runs. */
  predicate GivesBack(s: seq<Run>, k: nat, m: nat) {
    k < |s| && (m < s[k].len || k < |s| - 1 || k == 0)
  }

  lemma WhenGivenBack(s: seq<Run>, k: nat, m: nat)
    requires Canonical(s) && k < |s| && 0 < m <= s[k].len
    ensures TailSafe(Taken(s, k, m), s[k].base) <==> GivesBack(s, k, m)
  {
    var t := Taken(s, k, m);
    if t != [] {
      var last := if k < |s| - 1 then s[|s| - 1].base else if m < s[k].len then s[k].base + m else s[|s| - 2].base;
      assert t[|t| - 1].base == last;
    }
  }

  /** default_alloc_pages and at once default_free_pages: the free list is again what it was, unless the
      block was all of the last of several runs. Then the list is broken. */
  method FreeUndoesAlloc(area: PageArea, m: nat) returns (page: Option<nat>, ghost k: nat)
    requires area.Valid() && m > 0
    modifies area.Fields()
    ensures page.None? <==> NoFit(old(area.runs), m)
    ensures page.None? ==> area.Valid() && area.runs == old(area.runs)
    ensures page.Some? ==> FirstFit(old(area.runs), m, k) && page.value == old(area.runs)[k].base
    ensures page.Some? ==> (IsCanonical(area.State(), area.n) <==> GivesBack(old(area.runs), k, m))
    ensures page.Some? && GivesBack(old(area.runs), k, m) ==> area.Valid() && area.runs == old(area.runs)
  {
    ghost var s := area.runs;
    k := 0;
    page := area.AllocPages(m);
    if page.Some? {
      k :| FirstFit(s, m, k) && page.value == s[k].base && area.runs == Taken(s, k, m);
      WhenGivenBack(s, k, m);
      area.FreePages(page.value, m);
      if GivesBack(s, k, m) {
        ghost var i: nat :| BelongsAt(Taken(s, k, m), i, page.value)
                            && area.runs == Joined(Taken(s, k, m), i, Run(page.value, m));
        JoinUndoesTake(s, k, m, i);
      }
    }
  }

  /** Both frees, in this order, go before the last run of a list that holds runs. */
  ghost predicate SafeInOrder(s: seq<Run>, first: Run, second: Run) {
    TailSafe(s, first.base) && forall i: nat | BelongsAt(s, i, first.base) :: TailSafe(Joined(s, i, first), second.base)
  }

  /** Two used blocks, away from the free runs and from each other. */
  ghost predicate UsedBlocks(s: seq<Run>, a: Run, b: Run) {
    a.len > 0 && b.len > 0 && a.Range() !! Cells(s) && b.Range() !! Cells(s) && a.Range() !! b.Range()
  }

  /** The last run after a join. */
  lemma LastAfterJoin(s: seq<Run>, i: nat, r: Run)
    requires Sorted(s) && BelongsAt(s, i, r.base) && r.len > 0
    ensures var t := Joined(s, i, r);
            t != [] && t[|t| - 1].base ==
              if i < |s| - 1 || (i == |s| - 1 && !TouchesRight(s, i, r)) then s[|s| - 1].base
              else if TouchesLeft(s, i, r) then s[i - 1].base else r.base
  {
  }

  lemma PlaceIsUnique(s: seq<Run>, i: nat, j: nat, base: nat)
    requires BelongsAt(s, i, base) && BelongsAt(s, j, base)
    ensures i == j
  {
    var atI := if i < |s| then s[i].base else 0;
    var atJ := if j < |s| then s[j].base else 0;
    assert (i < |s| ==> base < atI) && (j < |s| ==> base < atJ);
  }

  /** Exactly when two frees go well, the lower block first or the higher one first. The order shows
      exactly on an empty list. */
  lemma WhenOrderShows(s: seq<Run>, low: Run, high: Run)
    requires Canonical(s) && UsedBlocks(s, low, high) && low.base < high.base
    ensures SafeInOrder(s, low, high) <==> s != [] && high.base < s[|s| - 1].base
    ensures SafeInOrder(s, high, low) <==> s == [] || high.base < s[|s| - 1].base
    ensures (SafeInOrder(s, low, high) <==> SafeInOrder(s, high, low)) <==> s != []
  {
    var i := PlaceFor(s, low);
    var j := PlaceFor(s, high);
    LowFirst(s, low, high, i);
    HighFirst(s, low, high, j);
    forall k: nat | BelongsAt(s, k, low.base) ensures k == i { PlaceIsUnique(s, k, i, low.base); }
    forall k: nat | BelongsAt(s, k, high.base) ensures k == j { PlaceIsUnique(s, k, j, high.base); }
  }

  lemma LowFirst(s: seq<Run>, low: Run, high: Run, i: nat)
    requires Canonical(s) && UsedBlocks(s, low, high) && low.base < high.base && BelongsAt(s, i, low.base)
    ensures TailSafe(s, low.base) && TailSafe(Joined(s, i, low), high.base) <==> s != [] && high.base < s[|s| - 1].base
  {
    LastAfterJoin(s, i, low);
    RoomFor(s, i, low);
    Ends(low, high);
  }

  lemma HighFirst(s: seq<Run>, low: Run, high: Run, j: nat)
    requires Canonical(s) && UsedBlocks(s, low, high) && low.base < high.base && BelongsAt(s, j, high.base)
    ensures TailSafe(s, high.base) && TailSafe(Joined(s, j, high), low.base) <==> s == [] || high.base < s[|s| - 1].base
  {
    LastAfterJoin(s, j, high);
    RoomFor(s, j, high);
    assert low.Has(low.base) && low.base in low.Range();
    if j > 0 { assert !s[j - 1].Has(low.base); }
  }

  /** Two frees one after the other; the second is not tried on a list that the first has broken. */
  method FreeInOrder(area: PageArea, first: Run, second: Run)
    requires area.Valid() && UsedBlocks(area.runs, first, second) && first.End() <= area.n && second.End() <= area.n
    requires forall p | (first.base <= p < first.End() || second.base <= p < second.End()) && 0 <= p < area.n ::
               !area.reserved[p] && !area.isHead[p]
    modifies area.Fields()
    ensures IsCanonical(area.State(), area.n) <==> SafeInOrder(old(area.runs), first, second)
    ensures IsCanonical(area.State(), area.n) ==>
              area.Valid() && Cells(area.runs) == old(Cells(area.runs)) + first.Range() + second.Range()
  {
    hide Represents, Canonical, Joined, Cells, TailSafe;
    ghost var s := area.runs;
    var safe := IsTailSafe(area, first.base);
    area.FreePages(first.base, first.len);
    if safe {
      ghost var i: nat :| BelongsAt(s, i, first.base) && area.runs == Joined(s, i, first);
      forall k: nat | BelongsAt(s, k, first.base) ensures k == i { PlaceIsUnique(s, k, i, first.base); }
      NotHeads(area, second);
      area.FreePages(second.base, second.len);
    }
  }

  /** No run of the free list starts in a block that is away from all free pages. */
  lemma NotHeads(area: PageArea, r: Run)
    requires area.Valid() && r.End() <= area.n && r.Range() !! Cells(area.runs)
    ensures forall p | r.base <= p < r.End() :: !area.isHead[p]
  {
    forall p: nat | r.base <= p < r.End() ensures !area.isHead[p] {
      assert r.Has(p);
      NoBaseInside(area.runs, r, p);
      assert area.State().isHead[p] <==> IsBase(area.runs, p);
    }
  }

  /** Two allocators with the same free pages give back the same two blocks in opposite orders. The one
      that starts with the lower block ends well exactly if the higher one goes before the last free run;
      the other one also if nothing was free. Where both end well, their lists are the same. */
  method FreesCommute(x: PageArea, y: PageArea, low: Run, high: Run)
    requires x.Valid() && y.Valid() && x.Fields() !! y.Fields() && x.n == y.n && x.runs == y.runs
    requires UsedBlocks(x.runs, low, high) && low.base < high.base && high.End() <= x.n
    requires forall p | (low.base <= p < low.End() || high.base <= p < high.End()) && 0 <= p < x.n ::
               !x.reserved[p] && !x.isHead[p] && !y.reserved[p] && !y.isHead[p]
    modifies x.Fields(), y.Fields()
    ensures var s := old(x.runs);
            && (IsCanonical(x.State(), x.n) <==> s != [] && high.base < s[|s| - 1].base)
            && (IsCanonical(y.State(), y.n) <==> s == [] || high.base < s[|s| - 1].base)
    ensures IsCanonical(x.State(), x.n) ==> x.Valid() && y.Valid() && x.runs == y.runs
  {
    ghost var s := x.runs;
    Ends(low, high);
    WhenOrderShows(s, low, high);
    FreeInOrder(x, low, high);
    FreeInOrder(y, high, low);
    if IsCanonical(x.State(), x.n) {
      JoinsCommute(s, low, high, x.runs, y.runs);
    }
  }

  lemma Ends(low: Run, high: Run)
    requires low.len > 0 && high.len > 0 && low.Range() !! high.Range() && low.base < high.base
    ensures low.End() <= high.base
  {
    assert high.Has(high.base) && high.base in high.Range();
    assert !low.Has(high.base);
  }

  // ---------- what a broken list leads to ----------

  /** Where k steps along the next links lead. */
  function Follow(next: seq<int>, from: int, k: nat): int
    decreases k
  {
    if k == 0 || !(0 <= from < |next|) then from else Follow(next, next[from], k - 1)
  }

  /** The next links run from the head over the list s and then over a stray entry. */
  ghost predicate StrayBehind(next: seq<int>, n: nat, s: seq<Run>, base: nat) {
    && |next| == n + 1 && base < n && (forall i: nat | i < |s| :: s[i].base < n)
    && (forall i: nat | i < |s| :: next[Stop(s, n, i)] == Stop(s, n, i + 1))
    && next[Stop(s, n, |s|)] == base && next[base] == n
  }

  /** What a stray entry leads to: list_del, which default_alloc_pages uses to take a block off the
      list, changes no next pointer when applied to it, so that a walk from the head still comes to the
      block after it has been handed out. */
  lemma StrayCannotBeDeleted(next: seq<int>, prev: seq<int>, n: nat, base: nat, s: seq<Run>)
    requires StrayBehind(next, n, s, base) && |prev| == n + 1 && prev[base] == base
    ensures var next' := next[prev[base] := next[base]];
            next' == next && Follow(next', n, |s| + 1) == base && Follow(next', n, |s| + 2) == n
  {
    WalkToStray(next, n, base, s, 0);
  }

  lemma {:induction false} WalkToStray(next: seq<int>, n: nat, base: nat, s: seq<Run>, i: nat)
    requires StrayBehind(next, n, s, base) && i <= |s|
    ensures Follow(next, Stop(s, n, i), |s| - i + 1) == base && Follow(next, Stop(s, n, i), |s| - i + 2) == n
    decreases |s| - i
  {
    if i < |s| {
      WalkToStray(next, n, base, s, i + 1);
    } else {
      assert Follow(next, base, 1) == Follow(next, n, 0);
    }
  }

  /** A run of calls in which every free obeys its contract and that corrupts the list: all three
      pages are allocated, then a low page and after it a high one are freed. */
  method TailFreeCorrupts() returns (area: PageArea)
    ensures !IsCanonical(area.State(), area.n)
  {
    hide Represents, Sorted;
    area := new PageArea(3);
    Fill(area, 3);
    assert FirstFit([Run(0, 3)], 3, 0);
    var page := area.AllocPages(3);
    area.FreePages(0, 1);
    OnlyRun(area.runs, Run(0, 1));
    NotHeads(area, Run(2, 1));
    area.FreePages(2, 1);
  }

  /** A run of calls that corrupts the list by giving back just what was allocated: of four pages the
      first two are taken and the first is freed; then the last two are taken and freed again. */
  method AllocFreeCorrupts() returns (area: PageArea)
    ensures !IsCanonical(area.State(), area.n)
  {
    hide Represents, Sorted, Cells, Canonical;
    area := TwoHoles();
    assert FirstFit([Run(0, 1), Run(2, 2)], 2, 1);
    var page;
    ghost var k;
    page, k := FreeUndoesAlloc(area, 2);
  }

  method TwoHoles() returns (area: PageArea)
    ensures fresh(area) && fresh(area.Fields()) && area.Valid() && area.n == 4 && area.runs == [Run(0, 1), Run(2, 2)]
  {
    hide Represents, Sorted;
    area := new PageArea(4);
    Fill(area, 4);
    assert FirstFit([Run(0, 4)], 2, 0);
    var page := area.AllocPages(2);
    assert area.runs == [Run(2, 2)];
    area.FreePages(0, 1);
    TwoRuns(area.runs);
  }

  /** All pages of a new allocator become free. */
  method Fill(area: PageArea, n: nat)
    requires area.Valid() && area.n == n > 0 && area.runs == [] && forall p | 0 <= p < n :: area.reserved[p]
    modifies area.Fields()
    ensures area.Valid() && area.runs == [Run(0, n)]
  {
    area.InitMemmap(0, n);
    OnlyRun(area.runs, Run(0, n));
  }

  lemma OnlyRun(s: seq<Run>, r: Run)
    requires Canonical(s) && Cells(s) == r.Range() && r.len > 0
    ensures s == [r]
  {
    SingleCells(r);
    CanonicalIsUnique(s, [r]);
  }

  lemma TwoRuns(s: seq<Run>)
    requires Canonical(s) && Cells(s) == Cells([Run(2, 2)]) + Run(0, 1).Range()
    ensures s == [Run(0, 1), Run(2, 2)]
  {
    var t := [Run(0, 1), Run(2, 2)];
    assert t == [Run(0, 1)] + [Run(2, 2)];
    SplitCells([Run(0, 1)], [Run(2, 2)]);
    SingleCells(Run(0, 1));
    CanonicalIsUnique(s, t);
  }
}
