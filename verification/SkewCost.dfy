// The amortised cost of the skew heap, counted in entries to skew_heap_merge.
module SkewCost {
  import opened SkewTree

  /** Floor of the base-2 logarithm, 0 at 0. */
  function Log2(n: nat): nat {
    if n < 2 then 0 else 1 + Log2(n / 2)
  }

  lemma {:induction false} Log2Monotone(m: nat, n: nat)
    requires m <= n
    ensures Log2(m) <= Log2(n)
  {
    if m >= 2 {
      Log2Monotone(m / 2, n / 2);
    }
  }

  lemma {:induction false} Log2Doubles(m: nat, n: nat)
    requires 1 <= m && 2 * m <= n
    ensures 1 + Log2(m) <= Log2(n)
  {
    Log2Monotone(m, n / 2);
  }

  predicate RightHeavy<T>(t: Tree<T>)
    requires t.Node?
  {
    Size(t.right) > Size(t.left)
  }

  /** How many nodes have a larger right than left subtree. */
  function Potential<T>(t: Tree<T>): nat {
    match t
    case Leaf => 0
    case Node(l, _, r) => Potential(l) + Potential(r) + if RightHeavy(t) then 1 else 0
  }

  /** How many nodes of the right spine are not right-heavy. */
  function LightSpine<T>(t: Tree<T>): nat {
    match t
    case Leaf => 0
    case Node(_, _, r) => LightSpine(r) + if RightHeavy(t) then 0 else 1
  }

  lemma {:induction false} LightSpineIsShort<T>(t: Tree<T>)
    ensures LightSpine(t) <= Log2(Size(t) + 1)
  {
    if t.Node? {
      LightSpineIsShort(t.right);
      if RightHeavy(t) {
        Log2Monotone(Size(t.right) + 1, Size(t) + 1);
      } else {
        Log2Doubles(Size(t.right) + 1, Size(t) + 1);
      }
    }
  }

  /** How many nodes the right spine has. */
  function RightSpine<T>(t: Tree<T>): nat {
    if t.Leaf? then 0 else 1 + RightSpine(t.right)
  }

  /** A merge is entered once for every node that it passes on the two right spines, and once more when it
      comes to the end of one of them. */
  lemma {:induction false} MergeCallsCounted<T>(a: Tree<T>, b: Tree<T>, comp: (T, T) -> int)
    ensures MergeCalls(a, b, comp) >= 1 + (if RightSpine(a) < RightSpine(b) then RightSpine(a) else RightSpine(b))
    ensures MergeCalls(a, b, comp) <= 1 + RightSpine(a) + RightSpine(b)
  {
    if a.Leaf? || b.Leaf? {
    } else if comp(a.val, b.val) == -1 {
      MergeCallsCounted(a.right, b, comp);
    } else {
      MergeCallsCounted(a, b.right, comp);
    }
  }

  lemma {:induction false} MergePaysForSpine<T>(a: Tree<T>, b: Tree<T>, comp: (T, T) -> int)
    ensures MergeCalls(a, b, comp) + Potential(Merge(a, b, comp))
         <= Potential(a) + Potential(b) + 2 * (LightSpine(a) + LightSpine(b)) + 1
  {
    if a.Leaf? || b.Leaf? {
    } else if comp(a.val, b.val) == -1 {
      MergePaysForSpine(a.right, b, comp);
      MergeNodes(a.right, b, comp);
    } else {
      MergePaysForSpine(a, b.right, comp);
      MergeNodes(a, b.right, comp);
    }
  }

  /** Merging costs amortised logarithmic time, whatever the comparator answers. */
  lemma {:induction false} MergeAmortised<T>(a: Tree<T>, b: Tree<T>, comp: (T, T) -> int)
    ensures MergeCalls(a, b, comp) + Potential(Merge(a, b, comp))
         <= Potential(a) + Potential(b) + 2 * (Log2(Size(a) + 1) + Log2(Size(b) + 1)) + 1
  {
    MergePaysForSpine(a, b, comp);
    LightSpineIsShort(a);
    LightSpineIsShort(b);
  }

  lemma {:induction false} SingleCosts<T>(x: T)
    ensures Size(Node(Leaf, x, Leaf)) == 1 && Potential(Node(Leaf, x, Leaf)) == 0 && Log2(2) == 1
  {
    var leaf: Tree<T>, single := Leaf, Node(Leaf, x, Leaf);
    assert Size(leaf) == 0 && Potential(leaf) == 0 && Log2(1) == 0;
    assert single.left == leaf && single.right == leaf && !RightHeavy(single);
  }

  lemma {:induction false} InsertAmortised<T>(t: Tree<T>, x: T, comp: (T, T) -> int)
    ensures MergeCalls(t, Node(Leaf, x, Leaf), comp) + Potential(Insert(t, x, comp))
         <= Potential(t) + 2 * Log2(Size(t) + 1) + 3
  {
    var single := Node(Leaf, x, Leaf);
    SingleCosts(x);
    MergeAmortised(t, single, comp);
  }

  /** What one removal may cost in a heap of n entries. */
  function RemovalBound(n: nat): nat {
    5 * Log2(n + 1) + 1
  }

  function BalancedGain(l: nat, r: nat): nat {
    if l == r then 1 else 0
  }

  /** Shrinking the left subtree by one turns a node right-heavy only if both sides were equal. */
  lemma {:induction false} HeavyOnlyFromBalance<T>(t: Tree<T>, l: Tree<T>)
    requires t.Node? && Size(l) + 1 == Size(t.left)
    ensures Potential(Node(l, t.val, t.right)) + Potential(t.left)
         <= Potential(t) + Potential(l) + BalancedGain(Size(t.left), Size(t.right))
  {
    assert RightHeavy(Node(l, t.val, t.right)) <==> Size(t.right) >= Size(t.left);
  }

  lemma {:induction false} BalanceDoubles(l: nat, r: nat)
    ensures Log2(l + 1) + BalancedGain(l, r) <= Log2(l + 1 + r + 1)
  {
    if l == r {
      Log2Doubles(l + 1, l + 1 + r + 1);
    } else {
      Log2Monotone(l + 1, l + 1 + r + 1);
    }
  }

  lemma {:induction false} ShrunkLeft<T>(t: Tree<T>, l: Tree<T>, calls: nat)
    requires t.Node? && Size(l) + 1 == Size(t.left)
    requires calls + Potential(l) <= Potential(t.left) + RemovalBound(Size(t.left))
    ensures calls + Potential(Node(l, t.val, t.right)) <= Potential(t) + RemovalBound(Size(t))
  {
    HeavyOnlyFromBalance(t, l);
    BalanceDoubles(Size(t.left), Size(t.right));
  }

  lemma {:induction false} ShrunkRight<T>(t: Tree<T>, r: Tree<T>, calls: nat)
    requires t.Node? && Size(r) + 1 == Size(t.right)
    requires calls + Potential(r) <= Potential(t.right) + RemovalBound(Size(t.right))
    ensures calls + Potential(Node(t.left, t.val, r)) <= Potential(t) + RemovalBound(Size(t))
  {
    Log2Monotone(Size(t.right) + 1, Size(t) + 1);
  }

  lemma {:induction false} RootRemovalAmortised<T>(t: Tree<T>, comp: (T, T) -> int)
    requires t.Node?
    ensures MergeCalls(t.left, t.right, comp) + Potential(Merge(t.left, t.right, comp))
         <= Potential(t) + RemovalBound(Size(t))
  {
    MergeAmortised(t.left, t.right, comp);
    Log2Monotone(Size(t.left) + 1, Size(t) + 1);
    Log2Monotone(Size(t.right) + 1, Size(t) + 1);
  }

  /** Removal from the middle: an ancestor can only turn right-heavy where its two subtrees were
      of equal size, and sizes double at each such ancestor, so the path above the removed entry,
      however long, adds a logarithm to the potential. */
  lemma {:induction false} RemoveAmortised<T>(t: Tree<T>, x: T, comp: (T, T) -> int)
    requires Distinct(t) && x in Nodes(t)
    ensures RemoveCalls(t, x, comp) + Potential(Remove(t, x, comp))
         <= Potential(t) + RemovalBound(Size(t))
  {
    if t.val == x {
      RootRemovalAmortised(t, comp);
    } else if x in Nodes(t.left) {
      RemoveAmortised(t.left, x, comp);
      RemoveNodes(t.left, x, comp);
      RemoveAbsent(t.right, x, comp);
      ShrunkLeft(t, Remove(t.left, x, comp), RemoveCalls(t.left, x, comp));
    } else {
      RemoveAmortised(t.right, x, comp);
      RemoveNodes(t.right, x, comp);
      RemoveAbsent(t.left, x, comp);
      ShrunkRight(t, Remove(t.right, x, comp), RemoveCalls(t.right, x, comp));
    }
  }

  // ---------- whole runs ----------

  datatype Op<T> = InsertOp(x: T) | RemoveOp(x: T)

  /** Entries go in only when outside and come out only when inside. */
  ghost predicate Allowed<T>(t: Tree<T>, op: Op<T>) {
    op.InsertOp? <==> op.x !in Nodes(t)
  }

  function Step<T(==)>(t: Tree<T>, op: Op<T>, comp: (T, T) -> int): Tree<T> {
    if op.InsertOp? then Insert(t, op.x, comp) else Remove(t, op.x, comp)
  }

  function StepCalls<T(==)>(t: Tree<T>, op: Op<T>, comp: (T, T) -> int): nat {
    if op.InsertOp? then MergeCalls(t, Node(Leaf, op.x, Leaf), comp) else RemoveCalls(t, op.x, comp)
  }

  ghost predicate AllowedRun<T>(t: Tree<T>, ops: seq<Op<T>>, comp: (T, T) -> int)
    decreases |ops|
  {
    ops == [] || (Allowed(t, ops[0]) && AllowedRun(Step(t, ops[0], comp), ops[1..], comp))
  }

  function Run<T(==)>(t: Tree<T>, ops: seq<Op<T>>, comp: (T, T) -> int): Tree<T>
    decreases |ops|
  {
    if ops == [] then t else Run(Step(t, ops[0], comp), ops[1..], comp)
  }

  function RunCalls<T(==)>(t: Tree<T>, ops: seq<Op<T>>, comp: (T, T) -> int): nat
    decreases |ops|
  {
    if ops == [] then 0 else StepCalls(t, ops[0], comp) + RunCalls(Step(t, ops[0], comp), ops[1..], comp)
  }

  /** The most entries the heap ever holds during a run. */
  function PeakSize<T(==)>(t: Tree<T>, ops: seq<Op<T>>, comp: (T, T) -> int): nat
    decreases |ops|
  {
    if ops == [] then Size(t)
    else
      var rest := PeakSize(Step(t, ops[0], comp), ops[1..], comp);
      if Size(t) > rest then Size(t) else rest
  }

  /** The plain set that a run computes. */
  ghost function RunSet<T>(s: set<T>, ops: seq<Op<T>>): set<T>
    decreases |ops|
  {
    if ops == [] then s
    else RunSet(if ops[0].InsertOp? then s + {ops[0].x} else s - {ops[0].x}, ops[1..])
  }

  lemma {:induction false} RunRefinesSet<T>(t: Tree<T>, ops: seq<Op<T>>, comp: (T, T) -> int)
    requires Distinct(t) && AllowedRun(t, ops, comp)
    ensures Distinct(Run(t, ops, comp))
    ensures Nodes(Run(t, ops, comp)) == RunSet(Nodes(t), ops)
    decreases |ops|
  {
    if ops != [] {
      StepNodes(t, ops[0], comp);
      RunRefinesSet(Step(t, ops[0], comp), ops[1..], comp);
    }
  }

  lemma {:induction false} StepNodes<T>(t: Tree<T>, op: Op<T>, comp: (T, T) -> int)
    requires Distinct(t) && Allowed(t, op)
    ensures Distinct(Step(t, op, comp))
    ensures Nodes(Step(t, op, comp)) == if op.InsertOp? then Nodes(t) + {op.x} else Nodes(t) - {op.x}
  {
    if op.InsertOp? {
      InsertNodes(t, op.x, comp);
    } else {
      RemoveNodes(t, op.x, comp);
    }
  }

  /** What one operation may cost while the heap holds at most n entries. */
  function StepBound(n: nat): nat {
    5 * Log2(n + 1) + 3
  }

  lemma {:induction false} StepAmortised<T>(t: Tree<T>, op: Op<T>, comp: (T, T) -> int, n: nat)
    requires Distinct(t) && Allowed(t, op) && Size(t) <= n
    ensures StepCalls(t, op, comp) + Potential(Step(t, op, comp)) <= Potential(t) + StepBound(n)
  {
    Log2Monotone(Size(t) + 1, n + 1);
    if op.InsertOp? {
      InsertAmortised(t, op.x, comp);
    } else {
      RemoveAmortised(t, op.x, comp);
    }
  }

  lemma {:induction false} OneMore(m: nat, c: nat)
    ensures (m + 1) * c == m * c + c
  {
  }

  lemma {:induction false} RunAmortised<T>(t: Tree<T>, ops: seq<Op<T>>, comp: (T, T) -> int, n: nat)
    requires Distinct(t) && AllowedRun(t, ops, comp) && PeakSize(t, ops, comp) <= n
    ensures RunCalls(t, ops, comp) + Potential(Run(t, ops, comp)) <= Potential(t) + |ops| * StepBound(n)
    decreases |ops|
  {
    if ops != [] {
      StepAmortised(t, ops[0], comp, n);
      StepNodes(t, ops[0], comp);
      RunAmortised(Step(t, ops[0], comp), ops[1..], comp, n);
      OneMore(|ops| - 1, StepBound(n));
    }
  }

  /** Any m inserts and removals, in any order and at any place of a heap that never holds more
      than n entries, make at most m * (5 * log2(n + 1) + 3) merge calls together. */
  lemma {:induction false} RunIsLogarithmic<T>(ops: seq<Op<T>>, comp: (T, T) -> int)
    requires AllowedRun(Leaf, ops, comp)
    ensures RunCalls(Leaf, ops, comp) <= |ops| * StepBound(PeakSize(Leaf, ops, comp))
  {
    RunAmortised(Leaf, ops, comp, PeakSize(Leaf, ops, comp));
  }

  // ---------- order over runs ----------

  ghost function Operands<T>(ops: seq<Op<T>>): set<T> {
    if ops == [] then {} else {ops[0].x} + Operands(ops[1..])
  }

  lemma {:induction false} StepOrdered<T>(t: Tree<T>, op: Op<T>, comp: (T, T) -> int, all: set<T>)
    requires HeapOrdered(t, comp) && TotalPreorder(comp, all) && Nodes(t) <= all && op.x in all
    ensures HeapOrdered(Step(t, op, comp), comp)
  {
    if op.InsertOp? { InsertOrdered(t, op.x, comp); } else { RemoveOrdered(t, op.x, comp); }
  }

  lemma {:induction false} RunOrdered<T>(t: Tree<T>, ops: seq<Op<T>>, comp: (T, T) -> int, all: set<T>)
    requires Distinct(t) && HeapOrdered(t, comp) && AllowedRun(t, ops, comp)
    requires TotalPreorder(comp, all) && Nodes(t) <= all && Operands(ops) <= all
    ensures HeapOrdered(Run(t, ops, comp), comp)
    decreases |ops|
  {
    if ops != [] {
      StepOrdered(t, ops[0], comp, all);
      StepNodes(t, ops[0], comp);
      RunOrdered(Step(t, ops[0], comp), ops[1..], comp, all);
    }
  }

  lemma {:induction false} RunSetBounded<T>(s: set<T>, ops: seq<Op<T>>)
    ensures RunSet(s, ops) <= s + Operands(ops)
    decreases |ops|
  {
    if ops != [] { RunSetBounded(if ops[0].InsertOp? then s + {ops[0].x} else s - {ops[0].x}, ops[1..]); }
  }

  /** After any run from the empty heap, the root comes before everything that has been inserted and not
      removed, for any comparator that is a total preorder on what was ever used. */
  lemma {:induction false} RunKeepsLeastAtRoot<T>(ops: seq<Op<T>>, comp: (T, T) -> int, y: T)
    requires AllowedRun(Leaf, ops, comp) && TotalPreorder(comp, Operands(ops)) && y in RunSet({}, ops)
    ensures Run(Leaf, ops, comp).Node? && Leq(comp, Run(Leaf, ops, comp).val, y)
  {
    RunOrdered(Leaf, ops, comp, Operands(ops));
    RunRefinesSet(Leaf, ops, comp);
    RunSetBounded({}, ops);
    RootIsLeast(Run(Leaf, ops, comp), comp, y);
  }
}
