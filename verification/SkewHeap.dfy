// libs/skew_heap.h over real entries: three pointers each, rewritten in place.
module SkewHeap {
  import opened SkewTree

  class Entry {
    var parent: Entry?
    var left: Entry?
    var right: Entry?

    /** skew_heap_init */
    method Init()
      modifies this
      ensures left == null && right == null && parent == null
    {
      left, right, parent := null, null, null;
    }
  }

  // ---------- what the pointers say, as a value ----------

  datatype Links = Links(parent: Entry?, left: Entry?, right: Entry?)

  ghost function LinksOf(s: set<Entry>): map<Entry, Links>
    reads s
  {
    map e | e in s :: Links(e.parent, e.left, e.right)
  }

  ghost predicate ChildOf(c: Entry?, p: Entry, h: map<Entry, Links>) {
    c != null ==> c in h && h[c].parent == p
  }

  /** In h, the pointers below r spell out the tree t, and every child points back at its parent.
      Nothing is said of r's own parent pointer. */
  ghost predicate Spells(t: Tree<Entry>, r: Entry?, h: map<Entry, Links>) {
    match t
    case Leaf => r == null
    case Node(lt, x, rt) =>
      && r == x && x in h
      && Spells(lt, h[x].left, h) && ChildOf(h[x].left, x, h)
      && Spells(rt, h[x].right, h) && ChildOf(h[x].right, x, h)
  }

  /** A whole heap, as its owner holds it: the root has no parent. */
  ghost predicate IsHeap(t: Tree<Entry>, r: Entry?, h: map<Entry, Links>) {
    Distinct(t) && Spells(t, r, h) && (r != null ==> r in h && h[r].parent == null)
  }

  /** Writing the root's parent pointer, or anything outside, leaves what is spelled alone. */
  lemma {:induction false} RootParentIsFree(t: Tree<Entry>, r: Entry?, h: map<Entry, Links>, h': map<Entry, Links>)
    requires Spells(t, r, h) && Distinct(t)
    requires Nodes(t) <= h.Keys && Nodes(t) <= h'.Keys
    requires forall e | e in Nodes(t) :: h'[e] == h[e] || (e == r && h'[e] == h[e].(parent := h'[e].parent))
    ensures Spells(t, r, h')
  {
    if t.Node? {
      RootParentIsFree(t.left, h[r].left, h, h');
      RootParentIsFree(t.right, h[r].right, h, h');
    }
  }

  lemma {:induction false} SpelledNodes(t: Tree<Entry>, r: Entry?, h: map<Entry, Links>)
    requires Spells(t, r, h)
    ensures Nodes(t) <= h.Keys
    ensures r != null <==> t.Node?
    ensures r != null ==> r == t.val
  {
    if t.Node? {
      SpelledNodes(t.left, h[r].left, h);
      SpelledNodes(t.right, h[r].right, h);
    }
  }

  /** One level of merging, on the way back up: m has been merged below l, lt was x's left subtree
      under kept, and now x takes l on its left and kept on its right. */
  lemma {:induction false} MergeStep(x: Entry, m: Tree<Entry>, l: Entry?, lt: Tree<Entry>, kept: Entry?,
                    h0: map<Entry, Links>, h1: map<Entry, Links>, h2: map<Entry, Links>)
    requires Distinct(Node(m, x, lt)) && Nodes(Node(m, x, lt)) <= h2.Keys
    requires Spells(lt, kept, h0) && ChildOf(kept, x, h0)
    requires Spells(m, l, h1)
    requires h2[x].left == l && h2[x].right == kept
    requires forall e | e in Nodes(lt) :: e in h0 && h2[e] == h0[e]
    requires forall e | e in Nodes(m) :: e in h1 && h2[e] == if e == l then h1[e].(parent := x) else h1[e]
    ensures Spells(Node(m, x, lt), x, h2)
  {
    RootParentIsFree(lt, kept, h0, h2);
    RootParentIsFree(m, l, h1, h2);
    SpelledNodes(m, l, h1);
    SpelledNodes(lt, kept, h0);
  }

  /** The end of either branch of skew_heap_merge: x takes the merged part l on its left and its
      old left subtree on its right. */
  method Adopt(x: Entry, l: Entry?, kept: Entry?, ghost m: Tree<Entry>, ghost lt: Tree<Entry>,
               ghost h0: map<Entry, Links>)
    requires Distinct(Node(m, x, lt))
    requires Spells(m, l, LinksOf(Nodes(m)))
    requires Spells(lt, kept, h0) && ChildOf(kept, x, h0) && Nodes(lt) <= h0.Keys
    requires forall e | e in Nodes(lt) :: h0[e] == Links(e.parent, e.left, e.right)
    modifies x, Nodes(m)
    ensures Spells(Node(m, x, lt), x, LinksOf(Nodes(m) + {x} + Nodes(lt)))
    ensures x.parent == old(x.parent)
  {
    SpelledNodes(m, l, LinksOf(Nodes(m)));
    ghost var h1 := LinksOf(Nodes(m));
    x.left := l;
    x.right := kept;
    if l != null { l.parent := x; }
    MergeStep(x, m, l, lt, kept, h0, h1, LinksOf(Nodes(m) + {x} + Nodes(lt)));
  }

  /** skew_heap_merge. The two heaps share no entry; the merged tree is exactly Merge(ta, tb), the
      returned root keeps the parent pointer it had, and calls counts the entries to this method. */
  method MergeInto(a: Entry?, b: Entry?, comp: (Entry, Entry) -> int,
                   ghost ta: Tree<Entry>, ghost tb: Tree<Entry>)
    returns (r: Entry?, ghost calls: nat)
    requires Spells(ta, a, LinksOf(Nodes(ta))) && Spells(tb, b, LinksOf(Nodes(tb)))
    requires Distinct(ta) && Distinct(tb) && Nodes(ta) !! Nodes(tb)
    modifies Nodes(ta) + Nodes(tb)
    ensures Spells(Merge(ta, tb, comp), r, LinksOf(Nodes(Merge(ta, tb, comp))))
    ensures r != null ==> r.parent == old(r.parent)
    ensures calls == MergeCalls(ta, tb, comp)
    decreases ta, tb
  {
    if a == null {
      return b, 1;
    } else if b == null {
      return a, 1;
    }
    MergeNodes(ta, tb, comp);
    if comp(a, b) == -1 {
      ghost var h0 := LinksOf(Nodes(ta));
      MergeNodes(ta.right, tb, comp);
      RootParentIsFree(ta.right, a.right, h0, LinksOf(Nodes(ta.right)));
      var kept := a.left;
      var l, n := MergeInto(a.right, b, comp, ta.right, tb);
      Adopt(a, l, kept, Merge(ta.right, tb, comp), ta.left, h0);
      return a, n + 1;
    } else {
      ghost var h0 := LinksOf(Nodes(tb));
      MergeNodes(ta, tb.right, comp);
      RootParentIsFree(tb.right, b.right, h0, LinksOf(Nodes(tb.right)));
      var kept := b.left;
      var l, n := MergeInto(a, b.right, comp, ta, tb.right);
      Adopt(b, l, kept, Merge(ta, tb.right, comp), tb.left, h0);
      return b, n + 1;
    }
  }

  /** skew_heap_insert */
  method InsertEntry(a: Entry?, b: Entry, comp: (Entry, Entry) -> int, ghost t: Tree<Entry>)
    returns (r: Entry, ghost calls: nat)
    requires IsHeap(t, a, LinksOf(Nodes(t))) && b !in Nodes(t)
    modifies Nodes(t) + {b}
    ensures IsHeap(Insert(t, b, comp), r, LinksOf(Nodes(Insert(t, b, comp))))
    ensures Nodes(Insert(t, b, comp)) == Nodes(t) + {b}
    ensures calls == MergeCalls(t, Node(Leaf, b, Leaf), comp)
  {
    ghost var single := Node(Leaf, b, Leaf);
    b.Init();
    assert LinksOf(Nodes(t)) == old(LinksOf(Nodes(t)));
    assert Nodes(single) == {b};
    ghost var h := LinksOf(Nodes(single));
    assert h[b] == Links(null, null, null) && Spells(Leaf, null, h);
    assert Spells(single.left, h[b].left, h) && Spells(single.right, h[b].right, h);
    assert Spells(single, b, h);
    InsertNodes(t, b, comp);
    MergeRoot(t, single, comp);
    var root, n := MergeInto(a, b, comp, t, single);
    SpelledNodes(Merge(t, single, comp), root, LinksOf(Nodes(Merge(t, single, comp))));
    return root, n;
  }

  // ---------- removal ----------

  ghost function SubtreeAt(t: Tree<Entry>, b: Entry): (sub: Tree<Entry>)
    requires b in Nodes(t)
    ensures sub.Node? && sub.val == b && b in Nodes(sub) && Nodes(sub) <= Nodes(t)
  {
    if t.val == b then t else if b in Nodes(t.left) then SubtreeAt(t.left, b) else SubtreeAt(t.right, b)
  }

  lemma {:induction false} SubtreeSpelled(t: Tree<Entry>, r: Entry?, b: Entry, h: map<Entry, Links>)
    requires Spells(t, r, h) && Distinct(t) && b in Nodes(t)
    ensures Spells(SubtreeAt(t, b), b, h) && Distinct(SubtreeAt(t, b))
    ensures b != r ==> r !in Nodes(SubtreeAt(t, b))
  {
    if t.val != b {
      if b in Nodes(t.left) {
        SubtreeSpelled(t.left, h[r].left, b, h);
      } else {
        SubtreeSpelled(t.right, h[r].right, b, h);
      }
    }
  }

  /** Below the root, the parent pointer of an entry leads to an entry of the same tree that has it
      as a child, and that is not below it. */
  lemma {:induction false} ParentInside(t: Tree<Entry>, r: Entry?, b: Entry, h: map<Entry, Links>)
    requires Spells(t, r, h) && Distinct(t) && b in Nodes(t) && b != r
    ensures b in h && h[b].parent != null && h[b].parent in Nodes(t) - Nodes(SubtreeAt(t, b))
    ensures h[b].parent in h && (h[h[b].parent].left == b <==> h[h[b].parent].right != b)
  {
    SpelledNodes(t, r, h);
    SpelledNodes(t.left, h[r].left, h);
    SpelledNodes(t.right, h[r].right, h);
    if b in Nodes(t.left) {
      SubtreeSpelled(t.left, h[r].left, b, h);
      if h[r].left != b {
        ParentInside(t.left, h[r].left, b, h);
      }
    } else {
      SubtreeSpelled(t.right, h[r].right, b, h);
      if h[r].right != b {
        ParentInside(t.right, h[r].right, b, h);
      }
    }
  }

  /** What skew_heap_remove has done to the pointers when it returns, b having had a parent p: its
      subtrees are merged below rep, and rep stands where b stood. */
  ghost predicate Spliced(t: Tree<Entry>, b: Entry, m: Tree<Entry>, rep: Entry?, h: map<Entry, Links>,
                          h': map<Entry, Links>)
    requires b in Nodes(t) && Nodes(t) <= h.Keys && h[b].parent != null && h[b].parent in h
  {
    var p := h[b].parent;
    && Nodes(t) - {b} <= h'.Keys && p in h'
    && Spells(m, rep, h') && ChildOf(rep, p, h')
    && h'[p] == (if h[p].left == b then h[p].(left := rep) else h[p].(right := rep))
    && forall e | e in Nodes(t) - Nodes(SubtreeAt(t, b)) && e != p :: h'[e] == h[e]
  }

  lemma {:induction false} SpliceSpells(t: Tree<Entry>, r: Entry?, b: Entry, rep: Entry?,
                       h: map<Entry, Links>, h': map<Entry, Links>, comp: (Entry, Entry) -> int)
    requires Spells(t, r, h) && Distinct(t) && b in Nodes(t) && b != r && Nodes(t) <= h.Keys
    requires h[b].parent != null && h[b].parent in h
    requires Spliced(t, b, Merge(SubtreeAt(t, b).left, SubtreeAt(t, b).right, comp), rep, h, h')
    ensures Spells(Remove(t, b, comp), r, h')
  {
    ParentInside(t, r, b, h);
    var hl, hr := h[r].left, h[r].right;
    SpelledNodes(t.left, hl, h);
    SpelledNodes(t.right, hr, h);
    if b in Nodes(t.left) {
      RemoveAbsent(t.right, b, comp);
      assert SubtreeAt(t, b) == SubtreeAt(t.left, b);
      if hl != b { ParentInside(t.left, hl, b, h); }
      RootParentIsFree(t.right, hr, h, h');
      if hl != b {
        SubtreeSpelled(t.left, hl, b, h);
        SpliceSpells(t.left, hl, b, rep, h, h', comp);
      }
    } else {
      RemoveAbsent(t.left, b, comp);
      assert SubtreeAt(t, b) == SubtreeAt(t.right, b);
      if hr != b { ParentInside(t.right, hr, b, h); }
      RootParentIsFree(t.left, hl, h, h');
      if hr != b {
        SubtreeSpelled(t.right, hr, b, h);
        SpliceSpells(t.right, hr, b, rep, h, h', comp);
      }
    }
  }

  ghost function Survivors(t: Tree<Entry>, b: Entry, comp: (Entry, Entry) -> int): Tree<Entry>
    requires b in Nodes(t)
  {
    Merge(SubtreeAt(t, b).left, SubtreeAt(t, b).right, comp)
  }

  method MergeSubtrees(b: Entry, comp: (Entry, Entry) -> int, ghost t: Tree<Entry>, ghost a: Entry?)
    returns (rep: Entry?, ghost calls: nat)
    requires Spells(t, a, LinksOf(Nodes(t))) && Distinct(t) && b in Nodes(t)
    modifies Nodes(SubtreeAt(t, b)) - {b}
    ensures Spells(Survivors(t, b, comp), rep, LinksOf(Nodes(Survivors(t, b, comp))))
    ensures Nodes(Survivors(t, b, comp)) == Nodes(SubtreeAt(t, b)) - {b} && Distinct(Survivors(t, b, comp))
    ensures calls == RemoveCalls(t, b, comp)
  {
    ghost var h := LinksOf(Nodes(t));
    ghost var sub := SubtreeAt(t, b);
    SubtreeSpelled(t, a, b, h);
    SubtreeCalls(t, b, comp);
    MergeNodes(sub.left, sub.right, comp);
    RootParentIsFree(sub.left, b.left, h, LinksOf(Nodes(sub.left)));
    RootParentIsFree(sub.right, b.right, h, LinksOf(Nodes(sub.right)));
    rep, calls := MergeInto(b.left, b.right, comp, sub.left, sub.right);
  }

  /** The root itself is removed. */
  lemma {:induction false} RootSurvivors(t: Tree<Entry>, b: Entry, rep: Entry?, comp: (Entry, Entry) -> int,
                        h1: map<Entry, Links>, h2: map<Entry, Links>)
    requires Distinct(t) && t.Node? && t.val == b
    requires Spells(Survivors(t, b, comp), rep, h1) && Distinct(Survivors(t, b, comp))
    requires Nodes(Survivors(t, b, comp)) <= h1.Keys && Nodes(Survivors(t, b, comp)) <= h2.Keys
    requires forall e | e in Nodes(Survivors(t, b, comp)) ::
               h2[e] == if e == rep then h1[e].(parent := null) else h1[e]
    ensures Distinct(Remove(t, b, comp)) && Spells(Remove(t, b, comp), rep, h2)
    ensures rep != null ==> rep in h2 && h2[rep].parent == null
  {
    RootParentIsFree(Survivors(t, b, comp), rep, h1, h2);
    SpelledNodes(Survivors(t, b, comp), rep, h2);
  }

  /** skew_heap_remove: b may sit anywhere in the heap. */
  method RemoveEntry(a: Entry?, b: Entry, comp: (Entry, Entry) -> int, ghost t: Tree<Entry>)
    returns (r: Entry?, ghost calls: nat)
    requires IsHeap(t, a, LinksOf(Nodes(t))) && b in Nodes(t)
    modifies Nodes(t)
    ensures IsHeap(Remove(t, b, comp), r, LinksOf(Nodes(Remove(t, b, comp))))
    ensures Nodes(Remove(t, b, comp)) == Nodes(t) - {b}
    ensures calls == RemoveCalls(t, b, comp)
  {
    ghost var h := LinksOf(Nodes(t));
    SpelledNodes(t, a, h);
    RemoveNodes(t, b, comp);
    if b != a { ParentInside(t, a, b, h); }
    var p := b.parent;
    var rep, n := MergeSubtrees(b, comp, t, a);
    ghost var m := Survivors(t, b, comp);
    ghost var h1 := LinksOf(Nodes(m));
    SpelledNodes(m, rep, h1);
    if rep != null { rep.parent := p; }
    if p != null {
      if p.left == b {
        p.left := rep;
      } else {
        p.right := rep;
      }
      ghost var h2 := LinksOf(Nodes(t) - {b});
      RootParentIsFree(m, rep, h1, h2);
      SubtreeSpelled(t, a, b, h);
      SpliceSpells(t, a, b, rep, h, h2, comp);
      return a, n;
    } else {
      RootSurvivors(t, b, rep, comp, h1, LinksOf(Nodes(m)));
      return rep, n;
    }
  }

  lemma {:induction false} SubtreeCalls(t: Tree<Entry>, b: Entry, comp: (Entry, Entry) -> int)
    requires Distinct(t) && b in Nodes(t)
    ensures RemoveCalls(t, b, comp) == MergeCalls(SubtreeAt(t, b).left, SubtreeAt(t, b).right, comp)
    ensures t.val == b ==> SubtreeAt(t, b) == t
  {
    if t.val != b {
      if b in Nodes(t.left) {
        SubtreeCalls(t.left, b, comp);
        RemoveAbsent(t.right, b, comp);
      } else {
        SubtreeCalls(t.right, b, comp);
        RemoveAbsent(t.left, b, comp);
      }
    }
  }
}
