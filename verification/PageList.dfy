// The free list of the page allocator as list.h keeps it: next and prev links in a circle through a
// head, over an address-ordered list of runs. Pages are numbered from 0, and the head stands at
// index H behind the last page.
module PageList {
  import opened FreeRuns

  /** The i-th stop on the circle: the head, then the first page of every run, then the head again. */
  ghost function Stop(s: seq<Run>, H: nat, i: nat): nat {
    if 1 <= i <= |s| then s[i - 1].base else H
  }

  ghost predicate Hop(next: seq<int>, prev: seq<int>, a: nat, b: nat) {
    a < |next| && b < |prev| && next[a] == b && prev[b] == a
  }

  ghost predicate Circle(next: seq<int>, prev: seq<int>, s: seq<Run>, H: nat) {
    && |next| == |prev| == H + 1
    && (forall i: nat | i < |s| :: s[i].base < H)
    && (forall i: nat | i <= |s| :: Hop(next, prev, Stop(s, H, i), Stop(s, H, i + 1)))
  }

  /** The links determine the list. */
  lemma {:induction false} CircleIsUnique(next: seq<int>, prev: seq<int>, s: seq<Run>, t: seq<Run>, H: nat, k: nat)
    requires Circle(next, prev, s, H) && Circle(next, prev, t, H) && k <= |s| && k <= |t|
    ensures forall i: nat | i < k :: s[i].base == t[i].base
    ensures Stop(s, H, k) == Stop(t, H, k)
  {
    if k > 0 {
      CircleIsUnique(next, prev, s, t, H, k - 1);
      assert Hop(next, prev, Stop(s, H, k - 1), Stop(s, H, k));
      assert Hop(next, prev, Stop(t, H, k - 1), Stop(t, H, k));
    }
  }

  lemma CircleDeterminesLength(next: seq<int>, prev: seq<int>, s: seq<Run>, t: seq<Run>, H: nat)
    requires Circle(next, prev, s, H) && Circle(next, prev, t, H)
    ensures |s| == |t| && forall i: nat | i < |s| :: s[i].base == t[i].base
  {
    var k := if |s| <= |t| then |s| else |t|;
    CircleIsUnique(next, prev, s, t, H, k);
    assert Hop(next, prev, Stop(s, H, k), Stop(s, H, k + 1));
    assert Hop(next, prev, Stop(t, H, k), Stop(t, H, k + 1));
  }

  lemma StopsDiffer(s: seq<Run>, H: nat, i: nat, j: nat)
    requires Sorted(s) && i < j <= |s| && forall k: nat | k < |s| :: s[k].base < H
    ensures Stop(s, H, i) != Stop(s, H, j)
  {
  }

  /** __list_add between two neighbouring stops. */
  lemma Added(next: seq<int>, prev: seq<int>, s: seq<Run>, H: nat, i: nat, r: Run, next': seq<int>, prev': seq<int>)
    requires Circle(next, prev, s, H) && Sorted(s) && i <= |s| && BelongsAt(s, i, r.base) && r.base < H
    requires next' == next[Stop(s, H, i) := r.base][r.base := Stop(s, H, i + 1)]
    requires prev' == prev[Stop(s, H, i + 1) := r.base][r.base := Stop(s, H, i)]
    ensures Circle(next', prev', s[..i] + [r] + s[i..], H)
  {
    var t := s[..i] + [r] + s[i..];
    forall k: nat | k <= |t| ensures Hop(next', prev', Stop(t, H, k), Stop(t, H, k + 1)) {
      AddedAt(next, prev, s, H, i, r, next', prev', t, k);
    }
  }

  lemma AddedAt(next: seq<int>, prev: seq<int>, s: seq<Run>, H: nat, i: nat, r: Run, next': seq<int>, prev': seq<int>,
                t: seq<Run>, k: nat)
    requires Circle(next, prev, s, H) && Sorted(s) && i <= |s| && BelongsAt(s, i, r.base) && r.base < H
    requires next' == next[Stop(s, H, i) := r.base][r.base := Stop(s, H, i + 1)]
    requires prev' == prev[Stop(s, H, i + 1) := r.base][r.base := Stop(s, H, i)]
    requires t == s[..i] + [r] + s[i..] && k <= |t|
    ensures Hop(next', prev', Stop(t, H, k), Stop(t, H, k + 1))
  {
    if k < i {
      assert Hop(next, prev, Stop(s, H, k), Stop(s, H, k + 1));
      StopsDiffer(s, H, k, i);
    } else if k > i + 1 {
      assert Hop(next, prev, Stop(s, H, k - 1), Stop(s, H, k));
      StopsDiffer(s, H, i, k - 1);
    }
  }

  /** __list_del of the run at index i. */
  lemma Deleted(next: seq<int>, prev: seq<int>, s: seq<Run>, H: nat, i: nat, next': seq<int>, prev': seq<int>)
    requires Circle(next, prev, s, H) && Sorted(s) && i < |s|
    requires next' == next[Stop(s, H, i) := Stop(s, H, i + 2)] && prev' == prev[Stop(s, H, i + 2) := Stop(s, H, i)]
    ensures Circle(next', prev', s[..i] + s[i + 1..], H)
  {
    var t := s[..i] + s[i + 1..];
    forall k: nat | k <= |t| ensures Hop(next', prev', Stop(t, H, k), Stop(t, H, k + 1)) {
      if k < i {
        assert Hop(next, prev, Stop(s, H, k), Stop(s, H, k + 1));
        StopsDiffer(s, H, k, i);
      } else if k > i {
        assert Hop(next, prev, Stop(s, H, k + 1), Stop(s, H, k + 2));
        StopsDiffer(s, H, i, k + 1);
      }
    }
  }
}
