// The shape that a skew heap's pointers describe, and what merging, inserting and
// removing do to it. The methods over real entries are in SkewHeap.dfy.
module SkewTree {

  datatype Tree<T> = Leaf | Node(left: Tree<T>, val: T, right: Tree<T>)

  ghost function Nodes<T>(t: Tree<T>): set<T> {
    match t
    case Leaf => {}
    case Node(l, x, r) => Nodes(l) + {x} + Nodes(r)
  }

  ghost predicate Distinct<T>(t: Tree<T>) {
    match t
    case Leaf => true
    case Node(l, x, r) =>
      && Distinct(l) && Distinct(r)
      && x !in Nodes(l) && x !in Nodes(r) && Nodes(l) !! Nodes(r)
  }

  function Size<T>(t: Tree<T>): nat {
    match t
    case Leaf => 0
    case Node(l, _, r) => Size(l) + 1 + Size(r)
  }

  // ---------- the operations ----------

  /** skew_heap_merge: the test is for exactly -1, and the two subtrees are swapped at every level. */
  function Merge<T>(a: Tree<T>, b: Tree<T>, comp: (T, T) -> int): Tree<T> {
    if a.Leaf? then b
    else if b.Leaf? then a
    else if comp(a.val, b.val) == -1 then Node(Merge(a.right, b, comp), a.val, a.left)
    else Node(Merge(a, b.right, comp), b.val, b.left)
  }

  /** How many times skew_heap_merge is entered. */
  function MergeCalls<T>(a: Tree<T>, b: Tree<T>, comp: (T, T) -> int): nat {
    if a.Leaf? || b.Leaf? then 1
    else if comp(a.val, b.val) == -1 then 1 + MergeCalls(a.right, b, comp)
    else 1 + MergeCalls(a, b.right, comp)
  }

  function Insert<T>(t: Tree<T>, x: T, comp: (T, T) -> int): Tree<T> {
    Merge(t, Node(Leaf, x, Leaf), comp)
  }

  /** skew_heap_remove, wherever x sits: its node gives way to the merge of its subtrees. */
  function Remove<T(==)>(t: Tree<T>, x: T, comp: (T, T) -> int): Tree<T> {
    match t
    case Leaf => Leaf
    case Node(l, y, r) =>
      if y == x then Merge(l, r, comp) else Node(Remove(l, x, comp), y, Remove(r, x, comp))
  }

  /** The merge calls made by one removal: none on the path down, which is never walked. */
  function RemoveCalls<T(==)>(t: Tree<T>, x: T, comp: (T, T) -> int): nat {
    match t
    case Leaf => 0
    case Node(l, y, r) =>
      if y == x then MergeCalls(l, r, comp) else RemoveCalls(l, x, comp) + RemoveCalls(r, x, comp)
  }

  // ---------- the element set ----------

  lemma {:induction false} MergeNodes<T>(a: Tree<T>, b: Tree<T>, comp: (T, T) -> int)
    ensures Nodes(Merge(a, b, comp)) == Nodes(a) + Nodes(b)
    ensures Size(Merge(a, b, comp)) == Size(a) + Size(b)
    ensures Distinct(a) && Distinct(b) && Nodes(a) !! Nodes(b) ==> Distinct(Merge(a, b, comp))
  {
    if a.Leaf? || b.Leaf? {
    } else if comp(a.val, b.val) == -1 {
      MergeNodes(a.right, b, comp);
    } else {
      MergeNodes(a, b.right, comp);
    }
  }

  lemma {:induction false} InsertNodes<T>(t: Tree<T>, x: T, comp: (T, T) -> int)
    ensures Nodes(Insert(t, x, comp)) == Nodes(t) + {x}
    ensures Size(Insert(t, x, comp)) == Size(t) + 1
    ensures Distinct(t) && x !in Nodes(t) ==> Distinct(Insert(t, x, comp))
  {
    var single := Node(Leaf, x, Leaf);
    assert Nodes(single) == {x} && Size(single) == 1;
    assert Nodes(single.left) == {} && Nodes(single.right) == {} && Distinct(single);
    MergeNodes(t, single, comp);
  }

  lemma {:induction false} RemoveAbsent<T>(t: Tree<T>, x: T, comp: (T, T) -> int)
    requires x !in Nodes(t)
    ensures Remove(t, x, comp) == t
    ensures RemoveCalls(t, x, comp) == 0
  {
    if t.Node? {
      RemoveAbsent(t.left, x, comp);
      RemoveAbsent(t.right, x, comp);
    }
  }

  lemma {:induction false} RemoveNodes<T>(t: Tree<T>, x: T, comp: (T, T) -> int)
    requires Distinct(t) && x in Nodes(t)
    ensures Nodes(Remove(t, x, comp)) == Nodes(t) - {x}
    ensures Size(Remove(t, x, comp)) == Size(t) - 1
    ensures Distinct(Remove(t, x, comp))
  {
    if t.val == x {
      MergeNodes(t.left, t.right, comp);
    } else if x in Nodes(t.left) {
      RemoveNodes(t.left, x, comp);
      RemoveAbsent(t.right, x, comp);
    } else {
      RemoveNodes(t.right, x, comp);
      RemoveAbsent(t.left, x, comp);
    }
  }

  // ---------- heap order ----------

  predicate Leq<T>(comp: (T, T) -> int, x: T, y: T) {
    comp(y, x) != -1
  }

  /** What merge needs of a comparator on the entries at hand: comp == -1 is the strict part of
      a total preorder. Nothing is asked of the other results. */
  ghost predicate TotalPreorder<T>(comp: (T, T) -> int, s: set<T>) {
    && (forall x, y | x in s && y in s :: Leq(comp, x, y) || Leq(comp, y, x))
    && (forall x, y, z | x in s && y in s && z in s && Leq(comp, x, y) && Leq(comp, y, z) :: Leq(comp, x, z))
  }

  ghost predicate HeapOrdered<T>(t: Tree<T>, comp: (T, T) -> int) {
    match t
    case Leaf => true
    case Node(l, x, r) =>
      && HeapOrdered(l, comp) && HeapOrdered(r, comp)
      && (l.Node? ==> Leq(comp, x, l.val))
      && (r.Node? ==> Leq(comp, x, r.val))
  }

  lemma {:induction false} MergeRoot<T>(a: Tree<T>, b: Tree<T>, comp: (T, T) -> int)
    ensures Merge(a, b, comp).Node? ==>
              || (a.Node? && Merge(a, b, comp).val == a.val)
              || (b.Node? && Merge(a, b, comp).val == b.val)
  {
  }

  lemma {:induction false} MergeOrdered<T>(a: Tree<T>, b: Tree<T>, comp: (T, T) -> int)
    requires HeapOrdered(a, comp) && HeapOrdered(b, comp)
    requires TotalPreorder(comp, Nodes(a) + Nodes(b))
    ensures HeapOrdered(Merge(a, b, comp), comp)
  {
    if a.Leaf? || b.Leaf? {
    } else if comp(a.val, b.val) == -1 {
      MergeOrdered(a.right, b, comp);
      MergeRoot(a.right, b, comp);
      assert Leq(comp, b.val, a.val) || Leq(comp, a.val, b.val);
    } else {
      MergeOrdered(a, b.right, comp);
      MergeRoot(a, b.right, comp);
    }
  }

  lemma {:induction false} RemoveRoot<T>(t: Tree<T>, x: T, y: T, comp: (T, T) -> int)
    requires HeapOrdered(t, comp) && TotalPreorder(comp, Nodes(t) + {y})
    requires t.Node? ==> Leq(comp, y, t.val)
    ensures Remove(t, x, comp).Node? ==> Leq(comp, y, Remove(t, x, comp).val)
  {
    if t.Node? && t.val == x {
      MergeRoot(t.left, t.right, comp);
      LeqTransitive(comp, Nodes(t) + {y}, y, x, t.left);
      LeqTransitive(comp, Nodes(t) + {y}, y, x, t.right);
    }
  }

  lemma {:induction false} LeqTransitive<T>(comp: (T, T) -> int, s: set<T>, x: T, y: T, t: Tree<T>)
    requires TotalPreorder(comp, s) && x in s && y in s && Nodes(t) <= s && Leq(comp, x, y)
    requires t.Node? ==> Leq(comp, y, t.val)
    ensures t.Node? ==> Leq(comp, x, t.val)
  {
    if t.Node? {
      assert t.val in Nodes(t);
    }
  }

  lemma {:induction false} RemoveOrdered<T>(t: Tree<T>, x: T, comp: (T, T) -> int)
    requires HeapOrdered(t, comp) && TotalPreorder(comp, Nodes(t))
    ensures HeapOrdered(Remove(t, x, comp), comp)
  {
    if t.Node? {
      if t.val == x {
        MergeOrdered(t.left, t.right, comp);
      } else {
        RemoveOrdered(t.left, x, comp);
        RemoveOrdered(t.right, x, comp);
        RemoveRoot(t.left, x, t.val, comp);
        RemoveRoot(t.right, x, t.val, comp);
      }
    }
  }

  lemma {:induction false} InsertOrdered<T>(t: Tree<T>, x: T, comp: (T, T) -> int)
    requires HeapOrdered(t, comp) && TotalPreorder(comp, Nodes(t) + {x})
    ensures HeapOrdered(Insert(t, x, comp), comp)
  {
    var single := Node(Leaf, x, Leaf);
    assert Nodes(single) == {x} && HeapOrdered(single.left, comp);
    MergeOrdered(t, single, comp);
  }

  /** The point of heap order: the entry at the root comes before every other one. */
  lemma {:induction false} RootIsLeast<T>(t: Tree<T>, comp: (T, T) -> int, y: T)
    requires HeapOrdered(t, comp) && TotalPreorder(comp, Nodes(t))
    requires y in Nodes(t)
    ensures Leq(comp, t.val, y)
  {
    if y == t.val {
      assert Leq(comp, y, y) || Leq(comp, y, y);
    } else if y in Nodes(t.left) {
      RootIsLeast(t.left, comp, y);
    } else {
      RootIsLeast(t.right, comp, y);
    }
  }
}
