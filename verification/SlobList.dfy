// The free list of the SLOB heap as the two fields of slob_t hold it: a circular chain over an
// address-ordered list of runs. Addresses count slob_t units (16 bytes).
module SlobList {
  import opened FreeRuns

  const PAGE_UNITS: nat := 256

  type Field = map<int, int>

  ghost function Successor(s: seq<Run>, i: nat): nat
    requires i < |s|
  {
    if i + 1 < |s| then s[i + 1].base else s[0].base
  }

  ghost predicate LinkedAt(units: Field, next: Field, s: seq<Run>, i: nat)
    requires i < |s|
  {
    && s[i].base in units && units[s[i].base] == s[i].len
    && s[i].base in next && next[s[i].base] == Successor(s, i)
  }

  /** units and next, at the first unit of every free run, describe the circular list s. */
  ghost predicate Linked(units: Field, next: Field, s: seq<Run>) {
    forall i: nat | i < |s| :: LinkedAt(units, next, s, i)
  }

  /** The list as a scan meets it that starts behind the run at index m and ends with it. */
  ghost function ScanFrom(s: seq<Run>, m: nat): (r: seq<Run>)
    requires m < |s|
    ensures |r| == |s|
  {
    s[m + 1..] + s[..m + 1]
  }

  /** Where the scan position j sits in the list itself. */
  ghost function ScanIndex(n: nat, m: nat, j: nat): nat
    requires m < n && j < n
  {
    if j < n - m - 1 then m + 1 + j else j - (n - m - 1)
  }

  lemma ScanIndexed(s: seq<Run>, m: nat, j: nat)
    requires m < |s| && j < |s|
    ensures ScanIndex(|s|, m, j) < |s|
    ensures ScanFrom(s, m)[j] == s[ScanIndex(|s|, m, j)]
    ensures j + 1 < |s| ==> Successor(s, ScanIndex(|s|, m, j)) == ScanFrom(s, m)[j + 1].base
    ensures j + 1 == |s| ==> ScanIndex(|s|, m, j) == m
    ensures Successor(s, m) == ScanFrom(s, m)[0].base
  {
  }

  lemma BasesAscend(s: seq<Run>, i: nat, j: nat)
    requires Canonical(s) && i < |s| && j < |s|
    ensures i < j ==> s[i].base < s[i].End() < s[j].base
    ensures j < i ==> s[j].base < s[j].End() < s[i].base
  {
  }

  // ---------- unlinking ----------

  /** Exact fit: the predecessor skips the run. */
  lemma Unlinked(units: Field, next: Field, s: seq<Run>, i: nat, next': Field)
    requires Canonical(s) && Linked(units, next, s) && 0 < i < |s|
    requires next' == next[s[i - 1].base := Successor(s, i)]
    ensures Linked(units, next', s[..i] + s[i + 1..])
  {
    var t := s[..i] + s[i + 1..];
    forall j: nat | j < |t| ensures LinkedAt(units, next', t, j) {
      var k := if j < i then j else j + 1;
      BasesAscend(s, i - 1, k);
      assert t[j] == s[k] && LinkedAt(units, next, s, k);
    }
  }

  /** Fragmentation: the run keeps its end, its start is handed out, the predecessor points past it. */
  lemma Fragmented(units: Field, next: Field, s: seq<Run>, i: nat, rest: Run, units': Field, next': Field)
    requires Canonical(s) && Linked(units, next, s) && 0 < i < |s|
    requires s[i].base < rest.base && rest.End() == s[i].End() && rest.len > 0
    requires units' == units[rest.base := rest.len]
    requires next' == next[s[i - 1].base := rest.base][rest.base := Successor(s, i)]
    ensures Linked(units', next', s[i := rest])
  {
    var t := s[i := rest];
    forall j: nat | j < |t| ensures LinkedAt(units', next', t, j) {
      BasesAscend(s, i, j);
      BasesAscend(s, i - 1, j);
      assert LinkedAt(units, next, s, j);
    }
  }

  // ---------- linking in ----------

  /** A run put in behind the run before it. */
  lemma LinkedIn(units: Field, next: Field, s: seq<Run>, i: nat, r: Run, units': Field, next': Field)
    requires Canonical(s) && Linked(units, next, s) && 0 < i <= |s| && BelongsAt(s, i, r.base)
    requires units' == units[r.base := r.len]
    requires next' == next[r.base := Successor(s, i - 1)][s[i - 1].base := r.base]
    ensures Linked(units', next', s[..i] + [r] + s[i..])
  {
    var t := s[..i] + [r] + s[i..];
    forall j: nat | j < |t| ensures LinkedAt(units', next', t, j) {
      if j < i {
        BasesAscend(s, i - 1, j);
        assert t[j] == s[j] && LinkedAt(units, next, s, j);
      } else if i < j {
        BasesAscend(s, i - 1, j - 1);
        assert t[j] == s[j - 1] && LinkedAt(units, next, s, j - 1);
      }
    }
  }

  ghost predicate Ascending(s: seq<Run>) {
    forall j, k | 0 <= j < k < |s| :: s[j].base < s[k].base
  }

  /** The run at index i swallows the one after it. */
  lemma Swallowed(units: Field, next: Field, s: seq<Run>, i: nat, units': Field, next': Field)
    requires Linked(units, next, s) && i + 1 < |s|
    requires Ascending(s)
    requires units' == units[s[i].base := s[i].len + s[i + 1].len]
    requires next' == next[s[i].base := Successor(s, i + 1)]
    ensures Linked(units', next', s[..i] + [Run(s[i].base, s[i].len + s[i + 1].len)] + s[i + 2..])
  {
    var t := s[..i] + [Run(s[i].base, s[i].len + s[i + 1].len)] + s[i + 2..];
    forall j: nat | j < |t| ensures LinkedAt(units', next', t, j) {
      var k := if j <= i then j else j + 1;
      assert j != i ==> t[j] == s[k];
      assert LinkedAt(units, next, s, k);
    }
  }

  /** What slob_free writes, in its own order: first the freed block, then the run before it. */
  ghost predicate FreeWrites(units: Field, next: Field, s: seq<Run>, i: nat, r: Run, units': Field, next': Field)
    requires 0 < i <= |s|
  {
    var len := if TouchesRight(s, i, r) then r.len + s[i].len else r.len;
    var succ := if TouchesRight(s, i, r) then Successor(s, i) else Successor(s, i - 1);
    var cur := s[i - 1].base;
    if TouchesLeft(s, i, r)
    then units' == units[r.base := len][cur := s[i - 1].len + len] && next' == next[r.base := succ][cur := succ]
    else units' == units[r.base := len] && next' == next[r.base := succ][cur := r.base]
  }

  lemma FreeLinks(units: Field, next: Field, s: seq<Run>, i: nat, r: Run, units': Field, next': Field)
    requires Canonical(s) && Linked(units, next, s) && 0 < i <= |s|
    requires BelongsAt(s, i, r.base) && r.len > 0 && r.Range() !! Cells(s)
    requires FreeWrites(units, next, s, i, r, units', next')
    ensures Linked(units', next', Joined(s, i, r))
  {
    RoomFor(s, i, r);
    var u2, n2 := RightJoin(s, i, r, units, next);
    if TouchesLeft(s, i, r) {
      JoinedBothSides(s, i, r);
      JoinedRightAscends(s, i, r);
      LeftJoin(JoinedRight(s, i, r), i, u2, n2, units', next');
    } else {
      assert u2 == units' && n2 == next' && JoinedRight(s, i, r) == Joined(s, i, r);
    }
  }

  /** r put in at index i and joined with the run behind it if the two touch. */
  ghost function JoinedRight(s: seq<Run>, i: nat, r: Run): seq<Run>
    requires i <= |s|
  {
    if TouchesRight(s, i, r) then s[..i] + [Run(r.base, r.len + s[i].len)] + s[i + 1..] else s[..i] + [r] + s[i..]
  }

  lemma LeftJoin(s2: seq<Run>, i: nat, u2: Field, n2: Field, units': Field, next': Field)
    requires 0 < i < |s2| && Linked(u2, n2, s2)
    requires Ascending(s2)
    requires units' == u2[s2[i - 1].base := s2[i - 1].len + s2[i].len]
    requires next' == n2[s2[i - 1].base := Successor(s2, i)]
    ensures Linked(units', next', s2[..i - 1] + [Run(s2[i - 1].base, s2[i - 1].len + s2[i].len)] + s2[i + 1..])
  {
    Swallowed(u2, n2, s2, i - 1, units', next');
  }

  lemma JoinedBothSides(s: seq<Run>, i: nat, r: Run)
    requires 0 < i <= |s| && TouchesLeft(s, i, r)
    ensures var s2 := JoinedRight(s, i, r);
            && s2[i - 1] == s[i - 1]
            && s2[..i - 1] + [Run(s2[i - 1].base, s2[i - 1].len + s2[i].len)] + s2[i + 1..] == Joined(s, i, r)
            && Successor(s2, i) == if TouchesRight(s, i, r) then Successor(s, i) else Successor(s, i - 1)
  {
  }

  lemma PutInAscends(s: seq<Run>, i: nat, r: Run)
    requires Canonical(s) && BelongsAt(s, i, r.base)
    ensures Ascending(s[..i] + [r] + s[i..])
  {
    var t := s[..i] + [r] + s[i..];
    forall j, k | 0 <= j < k < |t| ensures t[j].base < t[k].base {
      assert t[j] == if j < i then s[j] else if j == i then r else s[j - 1];
      assert t[k] == if k < i then s[k] else if k == i then r else s[k - 1];
      if j != i && k != i {
        BasesAscend(s, if j < i then j else j - 1, if k < i then k else k - 1);
      }
    }
  }

  lemma JoinedRightAscends(s: seq<Run>, i: nat, r: Run)
    requires Canonical(s) && BelongsAt(s, i, r.base)
    ensures Ascending(JoinedRight(s, i, r))
  {
    PutInAscends(s, i, r);
    if TouchesRight(s, i, r) {
      var s1, s2 := s[..i] + [r] + s[i..], JoinedRight(s, i, r);
      assert forall j | 0 <= j < |s2| :: s2[j].base == s1[if j <= i then j else j + 1].base;
    }
  }

  lemma RightJoin(s: seq<Run>, i: nat, r: Run, units: Field, next: Field) returns (u2: Field, n2: Field)
    requires Canonical(s) && Linked(units, next, s) && 0 < i <= |s| && BelongsAt(s, i, r.base)
    ensures Linked(u2, n2, JoinedRight(s, i, r))
    ensures u2 == units[r.base := JoinedRight(s, i, r)[i].len]
    ensures n2 == next[r.base := if TouchesRight(s, i, r) then Successor(s, i)
                       else Successor(s, i - 1)][s[i - 1].base := r.base]
  {
    var s1 := s[..i] + [r] + s[i..];
    var u1, n1 := units[r.base := r.len], next[r.base := Successor(s, i - 1)][s[i - 1].base := r.base];
    LinkedIn(units, next, s, i, r, u1, n1);
    PutInAscends(s, i, r);
    u2, n2 := u1, n1;
    if TouchesRight(s, i, r) {
      u2, n2 := u1[r.base := r.len + s[i].len], n1[r.base := Successor(s, i)];
      assert s1[i + 1] == s[i] && Successor(s1, i + 1) == Successor(s, i);
      Swallowed(u1, n1, s1, i, u2, n2);
      assert JoinedRight(s, i, r) == s1[..i] + [Run(s1[i].base, s1[i].len + s1[i + 1].len)] + s1[i + 2..];
    }
  }
}
