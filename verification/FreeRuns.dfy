// Address-ordered lists of free runs: the abstract view shared by the page allocator
// (default_pmm.c) and the SLOB heap (kmalloc.c).
module FreeRuns {

  datatype Run = Run(base: nat, len: nat) {
    function End(): nat { base + len }

    predicate Has(x: int) { base <= x < End() }

    ghost function Range(): set<int> {
      set x | base <= x < End() && Has(x) :: x
    }
  }

  /** The cells that a list of runs covers. */
  ghost function Cells(s: seq<Run>): set<int> {
    set i, x | 0 <= i < |s| && s[i].base <= x < s[i].End() && s[i].Has(x) :: x
  }

  function Total(s: seq<Run>): nat {
    if s == [] then 0 else Total(s[..|s| - 1]) + s[|s| - 1].len
  }

  /** Ascending and disjoint; neighbours may touch. */
  ghost predicate Sorted(s: seq<Run>) {
    && (forall i | 0 <= i < |s| :: s[i].len > 0)
    && (forall i, j | 0 <= i < j < |s| :: s[i].End() <= s[j].base)
  }

  /** Ascending, and no two runs touch: the runs are the maximal ones. */
  ghost predicate Canonical(s: seq<Run>) {
    && (forall i | 0 <= i < |s| :: s[i].len > 0)
    && (forall i, j | 0 <= i < j < |s| :: s[i].End() < s[j].base)
  }

  // ---------- a canonical list is determined by the cells it covers ----------

  lemma FirstRun(s: seq<Run>, x: int)
    requires Canonical(s) && s != []
    ensures x in Cells(s) ==> s[0].base <= x
    ensures s[0].Has(x) ==> x in Cells(s)
    ensures s[0].End() !in Cells(s)
  {
  }

  lemma FirstCell(s: seq<Run>)
    requires Sorted(s) && s != []
    ensures s[0].base in Cells(s)
  {
    assert s[0].Has(s[0].base);
  }

  lemma TailCells(s: seq<Run>)
    requires Sorted(s) && s != []
    ensures Sorted(s[1..])
    ensures Cells(s[1..]) == Cells(s) - s[0].Range()
  {
    assert s == [s[0]] + s[1..];
    SplitCells([s[0]], s[1..]);
    SplitSorted([s[0]], s[1..]);
    SingleCells(s[0]);
  }

  /** Cells of a concatenation. */
  lemma SplitCells(s: seq<Run>, t: seq<Run>)
    ensures Cells(s + t) == Cells(s) + Cells(t)
  {
    forall x ensures x in Cells(s + t) <==> x in Cells(s) || x in Cells(t) {
      CellOfSplit(s, t, x);
    }
  }

  lemma CellOfSplit(s: seq<Run>, t: seq<Run>, x: int)
    ensures x in Cells(s + t) <==> x in Cells(s) || x in Cells(t)
  {
    var u := s + t;
    if x in Cells(u) {
      var i :| 0 <= i < |u| && u[i].Has(x);
      if i < |s| { assert s[i].Has(x); } else { assert t[i - |s|].Has(x); }
    }
    if x in Cells(s) {
      var i :| 0 <= i < |s| && s[i].Has(x);
      assert u[i].Has(x);
    }
    if x in Cells(t) {
      var i :| 0 <= i < |t| && t[i].Has(x);
      assert u[|s| + i].Has(x);
    }
  }

  lemma SplitSorted(s: seq<Run>, t: seq<Run>)
    requires Sorted(s + t)
    ensures Sorted(s) && Sorted(t) && Cells(s) !! Cells(t)
  {
    var u := s + t;
    assert forall i | 0 <= i < |s| :: u[i] == s[i];
    assert forall i | 0 <= i < |t| :: u[|s| + i] == t[i];
    forall x | x in Cells(s) ensures x !in Cells(t) {
      var i :| 0 <= i < |s| && s[i].Has(x);
      forall j | 0 <= j < |t| ensures !t[j].Has(x) {
        assert u[i].End() <= u[|s| + j].base;
      }
    }
  }

  lemma {:induction false} CanonicalIsUnique(s: seq<Run>, t: seq<Run>)
    requires Canonical(s) && Canonical(t) && Cells(s) == Cells(t)
    ensures s == t
    decreases |s|
  {
    if s == [] || t == [] {
      if s != [] { FirstCell(s); }
      if t != [] { FirstCell(t); }
    } else {
      FirstRun(s, t[0].base);
      FirstRun(t, s[0].base);
      FirstRun(s, t[0].End());
      FirstRun(t, s[0].End());
      assert s[0].Has(s[0].base) && t[0].Has(t[0].base);
      assert s[0] == t[0];
      TailCells(s);
      TailCells(t);
      CanonicalIsUnique(s[1..], t[1..]);
      assert s == [s[0]] + s[1..] && t == [t[0]] + t[1..];
    }
  }

  lemma InRange(r: Run, x: int)
    ensures x in r.Range() <==> r.Has(x)
  {
  }

  lemma OneLonger(q: Run, r: Run)
    requires r == Run(q.base, q.len + 1)
    ensures r.Range() == q.Range() + {q.End()} && q.End() !in q.Range()
  {
    ThreePieces(q, Run(q.End(), 1), Run(r.End(), 0), r);
    var one, none := Run(q.End(), 1), Run(r.End(), 0);
    assert one.Has(q.End());
    assert one.Range() == {q.End()};
    assert none.Range() == {};
  }

  lemma {:induction false} RangeSize(r: Run)
    ensures |r.Range()| == r.len
    decreases r.len
  {
    if r.len > 0 {
      var q := Run(r.base, r.len - 1);
      RangeSize(q);
      OneLonger(q, r);
    } else {
      assert r.Range() == {};
    }
  }

  lemma {:induction false} TotalIsCount(s: seq<Run>)
    requires Sorted(s)
    ensures Total(s) == |Cells(s)|
  {
    if s != [] {
      var r := s[|s| - 1];
      assert s == s[..|s| - 1] + [r];
      SplitCells(s[..|s| - 1], [r]);
      SplitSorted(s[..|s| - 1], [r]);
      SingleCells(r);
      TotalIsCount(s[..|s| - 1]);
      RangeSize(r);
    } else {
      assert Cells(s) == {};
    }
  }

  // ---------- giving a run back ----------

  /** Where a run starting at base belongs: after every run that starts below it. */
  ghost predicate BelongsAt(s: seq<Run>, i: nat, base: nat) {
    && i <= |s|
    && (forall j | 0 <= j < i :: s[j].base < base)
    && (forall j | i <= j < |s| :: base < s[j].base)
  }

  /** A run disjoint from the list has a place in it. */
  lemma PlaceFor(s: seq<Run>, r: Run) returns (i: nat)
    requires Sorted(s) && r.len > 0 && r.Range() !! Cells(s)
    ensures BelongsAt(s, i, r.base)
  {
    i := |s|;
    while i > 0 && r.base < s[i - 1].base
      invariant i <= |s| && forall j | i <= j < |s| :: r.base < s[j].base
    {
      i := i - 1;
    }
    if i > 0 {
      assert s[i - 1].Has(s[i - 1].base) && s[i - 1].base in Cells(s) && r.Has(r.base);
      assert s[i - 1].base < r.base;
      assert forall j: nat | j < i - 1 :: s[j].End() <= s[i - 1].base;
    }
  }

  predicate TouchesLeft(s: seq<Run>, i: nat, r: Run)
    requires i <= |s|
  {
    i > 0 && s[i - 1].End() == r.base
  }

  predicate TouchesRight(s: seq<Run>, i: nat, r: Run)
    requires i <= |s|
  {
    i < |s| && r.End() == s[i].base
  }

  /** r put in at index i and joined with the neighbours it touches. */
  function Joined(s: seq<Run>, i: nat, r: Run): seq<Run>
    requires i <= |s|
  {
    var lo := if TouchesLeft(s, i, r) then i - 1 else i;
    var hi := if TouchesRight(s, i, r) then i + 1 else i;
    var base := if TouchesLeft(s, i, r) then s[i - 1].base else r.base;
    var end := if TouchesRight(s, i, r) then s[i].End() else r.End();
    s[..lo] + [Run(base, if base <= end then end - base else 0)] + s[hi..]
  }

  lemma JoinedIsCanonical(s: seq<Run>, i: nat, r: Run)
    requires Canonical(s) && BelongsAt(s, i, r.base) && r.len > 0 && r.Range() !! Cells(s)
    ensures Canonical(Joined(s, i, r))
    ensures Cells(Joined(s, i, r)) == Cells(s) + r.Range()
  {
    RoomFor(s, i, r);
    JoinedCells(s, i, r);
    JoinedStaysApart(s, i, r);
  }

  lemma JoinedStaysApart(s: seq<Run>, i: nat, r: Run)
    requires Canonical(s) && i <= |s| && r.len > 0
    requires i > 0 ==> s[i - 1].End() <= r.base
    requires i < |s| ==> r.End() <= s[i].base
    ensures Canonical(Joined(s, i, r))
  {
    var t := Joined(s, i, r);
    var lo := if TouchesLeft(s, i, r) then i - 1 else i;
    var hi := if TouchesRight(s, i, r) then i + 1 else i;
    assert i < |s| && hi < |s| && hi == i + 1 ==> s[i].End() < s[hi].base;
    assert lo > 0 && lo + 1 == i ==> s[lo - 1].End() < s[lo].base;
    assert hi < |s| ==> t[lo].End() < s[hi].base;
    Glue(s[..lo], t[lo], s[hi..]);
  }

  lemma Glue(a: seq<Run>, m: Run, c: seq<Run>)
    requires Canonical(a) && Canonical(c) && m.len > 0
    requires a != [] ==> a[|a| - 1].End() < m.base
    requires c != [] ==> m.End() < c[0].base
    ensures Canonical(a + [m] + c)
  {
    assert forall i | 0 <= i < |a| :: a[i].End() < m.base;
    assert forall i | 0 <= i < |c| :: m.End() < c[i].base;
    var t := a + [m] + c;
    forall i, j | 0 <= i < j < |t| ensures t[i].End() < t[j].base {
      if j < |a| {
      } else if i < |a| && j > |a| {
        assert t[j] == c[j - |a| - 1];
      } else if i > |a| {
        assert t[i] == c[i - |a| - 1] && t[j] == c[j - |a| - 1];
      }
    }
  }

  lemma JoinedCells(s: seq<Run>, i: nat, r: Run)
    requires i <= |s| && r.len > 0
    requires i > 0 ==> s[i - 1].End() <= r.base
    requires i < |s| ==> r.End() <= s[i].base
    ensures Cells(Joined(s, i, r)) == Cells(s) + r.Range()
  {
    var t := Joined(s, i, r);
    var lo := if TouchesLeft(s, i, r) then i - 1 else i;
    var hi := if TouchesRight(s, i, r) then i + 1 else i;
    assert s == s[..lo] + (s[lo..i] + s[i..hi]) + s[hi..];
    SplitCells(s[..lo] + (s[lo..i] + s[i..hi]), s[hi..]);
    SplitCells(s[..lo], s[lo..i] + s[i..hi]);
    SplitCells(s[lo..i], s[i..hi]);
    SplitCells(s[..lo] + [t[lo]], s[hi..]);
    SplitCells(s[..lo], [t[lo]]);
    SingleCells(t[lo]);
    var before, after := Run(t[lo].base, r.base - t[lo].base), Run(r.End(), t[lo].End() - r.End());
    PieceCells(s, lo, i, before);
    PieceCells(s, i, hi, after);
    ThreePieces(before, r, after, t[lo]);
  }

  lemma PieceCells(s: seq<Run>, lo: nat, hi: nat, r: Run)
    requires lo <= hi <= |s|
    requires (lo == hi && r.len == 0) || (lo + 1 == hi && s[lo] == r)
    ensures Cells(s[lo..hi]) == r.Range()
  {
    if lo < hi {
      assert s[lo..hi] == [r];
      SingleCells(r);
    }
  }

  lemma ThreePieces(a: Run, b: Run, c: Run, all: Run)
    requires a.base == all.base && a.End() == b.base && b.End() == c.base && c.End() == all.End()
    ensures all.Range() == a.Range() + b.Range() + c.Range()
  {
    assert forall x :: all.Has(x) <==> a.Has(x) || b.Has(x) || c.Has(x);
  }

  lemma SingleCells(r: Run)
    ensures Cells([r]) == r.Range()
  {
    assert [r][0] == r;
  }

  /** A run disjoint from the list fits between its neighbours. */
  lemma RoomFor(s: seq<Run>, i: nat, r: Run)
    requires Sorted(s) && BelongsAt(s, i, r.base) && r.len > 0 && r.Range() !! Cells(s)
    ensures i > 0 ==> s[i - 1].End() <= r.base
    ensures i < |s| ==> r.End() <= s[i].base
  {
    assert r.Has(r.base) && r.base in r.Range();
    if i > 0 {
      assert !s[i - 1].Has(r.base);
    }
    if i < |s| {
      assert s[i].Has(s[i].base) && s[i].base in Cells(s);
      assert !r.Has(s[i].base);
    }
  }

  // ---------- taking cells from the front of a run ----------

  /** The run at index i loses its first n cells, and goes if that is all of it. */
  function Taken(s: seq<Run>, i: nat, n: nat): seq<Run>
    requires i < |s| && n <= s[i].len
  {
    if s[i].len == n then s[..i] + s[i + 1..]
    else s[i := Run(s[i].base + n, s[i].len - n)]
  }

  lemma TakenCells(s: seq<Run>, i: nat, n: nat)
    requires Sorted(s) && i < |s| && 0 < n <= s[i].len
    ensures Run(s[i].base, n).Range() <= Cells(s)
    ensures Cells(Taken(s, i, n)) == Cells(s) - Run(s[i].base, n).Range()
  {
    var taken, rest := Run(s[i].base, n), Run(s[i].base + n, s[i].len - n);
    assert s == s[..i] + ([s[i]] + s[i + 1..]);
    SplitCells(s[..i], [s[i]] + s[i + 1..]);
    SplitSorted(s[..i], [s[i]] + s[i + 1..]);
    SplitCells([s[i]], s[i + 1..]);
    SplitSorted([s[i]], s[i + 1..]);
    SingleCells(s[i]);
    ThreePieces(taken, rest, Run(s[i].End(), 0), s[i]);
    assert Run(s[i].End(), 0).Range() == {};
    assert taken.Range() !! rest.Range();
    if s[i].len == n {
      SplitCells(s[..i], s[i + 1..]);
      assert rest.Range() == {};
    } else {
      assert Taken(s, i, n) == s[..i] + ([rest] + s[i + 1..]);
      SplitCells(s[..i], [rest] + s[i + 1..]);
      SplitCells([rest], s[i + 1..]);
      SingleCells(rest);
    }
  }

  lemma TakenIsCanonical(s: seq<Run>, i: nat, n: nat)
    requires Canonical(s) && i < |s| && 0 < n <= s[i].len
    ensures Canonical(Taken(s, i, n))
  {
    var t := Taken(s, i, n);
    if s[i].len == n {
      assert forall j | 0 <= j < |t| :: t[j] == s[if j < i then j else j + 1];
    } else {
      assert forall j | 0 <= j < |t| :: s[j].base <= t[j].base && t[j].End() == s[j].End();
    }
  }

  // ---------- first fit ----------

  predicate FirstFit(s: seq<Run>, need: nat, j: nat) {
    j < |s| && need <= s[j].len && NoFit(s[..j], need)
  }

  predicate NoFit(s: seq<Run>, need: nat) {
    forall i | 0 <= i < |s| :: s[i].len < need
  }
}
