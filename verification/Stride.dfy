// The stride scheduler over the skew heap (schedule/default_sched_stride.c, schedule/sched.c). Strides are
// 32-bit counters that wrap around, and are compared by the sign of their 32-bit difference.
module Stride {
  import opened Options
  import opened SkewTree
  import opened SkewHeap

  const WORD: nat := 0x1_0000_0000
  const HALF: nat := 0x8000_0000
  const BIG_STRIDE: nat := 0x4000_0000

  /** A value of uint32_t. */
  function Wrap(n: int): (r: nat)
    ensures r < WORD
  {
    n % WORD
  }

  /** The same 32 bits read as an int32_t. */
  function AsInt32(n: nat): int {
    if n < HALF then n else n - WORD
  }

  /** How far x is ahead of lo on the circle of strides. */
  function Ahead(lo: int, x: int): (r: nat)
    ensures r < WORD
  {
    Wrap(x - lo)
  }

  /** The wrapped difference as a signed number. */
  function Difference(p: int, q: int): int {
    AsInt32(Wrap(p - q))
  }

  /** proc_stride_comp_f on two strides. */
  function Compare(p: nat, q: nat): int {
    var c := Difference(p, q);
    if c > 0 then 1 else if c == 0 then 0 else -1
  }

  /** The three answers, in terms of the 32-bit difference alone. */
  lemma CompareIs(p: nat, q: nat)
    ensures Compare(p, q) == 0 <==> (p - q) % 0x1_0000_0000 == 0
    ensures Compare(p, q) == 1 <==> 0 < (p - q) % 0x1_0000_0000 < 0x8000_0000
    ensures Compare(p, q) == -1 <==> 0x8000_0000 <= (p - q) % 0x1_0000_0000
  {
  }

  /** The comparator on processes whose strides are as given. */
  function CompareBy<T>(stride: map<T, nat>): (T, T) -> int {
    (p, q) => if p in stride && q in stride then Compare(stride[p], stride[q]) else 0
  }

  // ---------- when the comparator orders ----------

  ghost predicate Within<T>(stride: map<T, nat>, s: set<T>, lo: nat, w: nat)
    requires s <= stride.Keys
  {
    forall x | x in s :: Ahead(lo, stride[x]) <= w
  }

  /** All strides of s lie on an arc of length w that begins at one of them. */
  ghost predicate InWindow<T>(stride: map<T, nat>, s: set<T>, w: nat)
    requires s <= stride.Keys
  {
    s == {} || exists lo | lo in s :: Within(stride, s, stride[lo], w)
  }

  lemma LeqIsAhead(p: nat, q: nat)
    ensures Compare(q, p) != -1 <==> Ahead(p, q) < HALF
  {
  }

  lemma LeqBy<T>(stride: map<T, nat>, p: T, q: T)
    requires p in stride && q in stride
    ensures Leq(CompareBy(stride), p, q) <==> Ahead(stride[p], stride[q]) < HALF
  {
    LeqIsAhead(stride[p], stride[q]);
  }

  lemma AheadAdds(lo: int, x: int, y: int)
    ensures Ahead(lo, x) + Ahead(x, y) == Ahead(lo, y) || Ahead(lo, x) + Ahead(x, y) == Ahead(lo, y) + WORD
    ensures Ahead(x, y) == 0 <==> Ahead(y, x) == 0
    ensures Ahead(x, y) > 0 ==> Ahead(x, y) + Ahead(y, x) == WORD
  {
  }

  /** A total preorder on a finite set has a least element. */
  lemma {:induction false} LeastExists<T>(comp: (T, T) -> int, s: set<T>)
    requires TotalPreorder(comp, s) && s != {}
    ensures exists m | m in s :: forall y | y in s :: Leq(comp, m, y)
    decreases s
  {
    var x :| x in s;
    assert Leq(comp, x, x);
    if s != {x} {
      LeastExists(comp, s - {x});
      var m :| m in s - {x} && forall y | y in s - {x} :: Leq(comp, m, y);
      var least := if Leq(comp, m, x) then m else x;
      forall y | y in s ensures Leq(comp, least, y) {
        if y != x { assert Leq(comp, m, y); }
      }
    } else {
      assert forall y | y in s :: y == x;
    }
  }

  /** Comparing wrapped differences is a total preorder exactly on the sets whose strides all lie on less
      than half the circle. */
  lemma {:induction false} OrderIffWindow<T>(stride: map<T, nat>, s: set<T>)
    requires s <= stride.Keys
    ensures TotalPreorder(CompareBy(stride), s) <==> InWindow(stride, s, HALF - 1)
  {
    var comp := CompareBy(stride);
    if TotalPreorder(comp, s) && s != {} {
      LeastExists(comp, s);
      var m :| m in s && forall y | y in s :: Leq(comp, m, y);
      forall y | y in s ensures Ahead(stride[m], stride[y]) <= HALF - 1 {
        assert Leq(comp, m, y);
        LeqBy(stride, m, y);
      }
      assert Within(stride, s, stride[m], HALF - 1);
    }
    if InWindow(stride, s, HALF - 1) && s != {} {
      var lo :| lo in s && Within(stride, s, stride[lo], HALF - 1);
      var at := map x | x in s :: Ahead(stride[lo], stride[x]);
      forall x, y | x in s && y in s ensures Leq(comp, x, y) <==> at[x] <= at[y] {
        AheadAdds(stride[lo], stride[x], stride[y]);
        LeqBy(stride, x, y);
      }
    }
  }

  /** Whether order survives an arrival can be told from the root m: the newcomer's stride is less than
      half the circle ahead of it, or everybody's is less than that ahead of the newcomer's. */
  lemma {:induction false} ArrivalKeepsOrder<T>(stride: map<T, nat>, s: set<T>, m: T, x: T)
    requires s + {x} <= stride.Keys && m in s && TotalPreorder(CompareBy(stride), s)
    requires forall y | y in s :: Leq(CompareBy(stride), m, y)
    ensures TotalPreorder(CompareBy(stride), s + {x})
       <==> Ahead(stride[m], stride[x]) < HALF || Within(stride, s, stride[x], HALF - 1)
  {
    hide TotalPreorder, CompareBy, Ahead, Compare;
    OrderIffWindow(stride, s + {x});
    forall y | y in s ensures Ahead(stride[m], stride[y]) <= HALF - 1 {
      LeqBy(stride, m, y);
    }
    if InWindow(stride, s + {x}, HALF - 1) {
      var lo :| lo in s + {x} && Within(stride, s + {x}, stride[lo], HALF - 1);
      AheadAdds(stride[lo], stride[m], stride[x]);
      AheadAdds(stride[m], stride[lo], stride[x]);
      if lo != x {
        assert Leq(CompareBy(stride), m, lo);
        LeqBy(stride, m, lo);
      } else {
        assert forall y | y in s :: y in s + {x};
      }
    }
    if Ahead(stride[m], stride[x]) < HALF {
      assert Within(stride, s + {x}, stride[m], HALF - 1);
    }
    if Within(stride, s, stride[x], HALF - 1) {
      AheadAdds(stride[x], stride[x], stride[x]);
      assert Within(stride, s + {x}, stride[x], HALF - 1);
    }
  }

  // ---------- strides that do not wrap ----------

  /** u gives the strides as they would be without wrap-around, no two further apart than w. */
  ghost predicate Unwraps<T>(u: map<T, int>, stride: map<T, nat>, s: set<T>, w: nat) {
    && s <= u.Keys && s <= stride.Keys
    && (forall x | x in s :: Wrap(u[x]) == Wrap(stride[x]))
    && (forall x, y | x in s && y in s :: u[x] - u[y] <= w)
  }

  lemma WrapOfDifference(a: int, b: int, p: nat, q: nat)
    requires Wrap(a) == Wrap(p) && Wrap(b) == Wrap(q)
    ensures Wrap(a - b) == Wrap(p - q)
  {
  }

  /** On strides close together the comparator compares the strides that do not wrap. */
  lemma UnwrappedCompare<T>(u: map<T, int>, stride: map<T, nat>, s: set<T>, w: nat, x: T, y: T)
    requires Unwraps(u, stride, s, w) && w < HALF && x in s && y in s
    ensures Leq(CompareBy(stride), x, y) <==> u[x] <= u[y]
    ensures u[x] <= u[y] ==> Ahead(stride[x], stride[y]) == u[y] - u[x]
    ensures Difference(stride[x], stride[y]) == u[x] - u[y]
  {
    LeqBy(stride, x, y);
    WrapOfDifference(u[x], u[y], stride[x], stride[y]);
    WrapOfDifference(u[y], u[x], stride[y], stride[x]);
  }

  lemma {:induction false} LeastClock<T>(u: map<T, int>, s: set<T>)
    requires s <= u.Keys && s != {}
    ensures exists m | m in s :: forall y | y in s :: u[m] <= u[y]
  {
    var comp := (x: T, y: T) => if x in u && y in u && u[x] < u[y] then -1 else 0;
    forall x, y | x in s && y in s ensures Leq(comp, x, y) <==> u[x] <= u[y] {}
    LeastExists(comp, s);
    var m :| m in s && forall y | y in s :: Leq(comp, m, y);
    assert forall y | y in s :: u[m] <= u[y];
  }

  lemma AheadReaches(lo: int, x: int)
    ensures Wrap(lo + Ahead(lo, x)) == Wrap(x)
  {
  }

  /** The strides of a window, unwrapped from its start. */
  lemma {:induction false} WindowUnwraps<T>(stride: map<T, nat>, s: set<T>, w: nat) returns (u: map<T, int>)
    requires s <= stride.Keys && InWindow(stride, s, w)
    ensures Unwraps(u, stride, s, w)
  {
    hide Ahead, Wrap;
    var lo: nat := 0;
    if s != {} {
      var m :| m in s && Within(stride, s, stride[m], w);
      lo := stride[m];
    }
    u := map x | x in s :: lo + Ahead(lo, stride[x]);
    forall x | x in s ensures Wrap(u[x]) == Wrap(stride[x]) {
      AheadReaches(lo, stride[x]);
    }
  }

  lemma {:induction false} UnwrappedInWindow<T>(u: map<T, int>, stride: map<T, nat>, s: set<T>, w: nat)
    requires Unwraps(u, stride, s, w) && w < HALF
    ensures InWindow(stride, s, w)
  {
    hide Ahead, Wrap, Difference, CompareBy;
    if s != {} {
      LeastClock(u, s);
      var m :| m in s && forall y | y in s :: u[m] <= u[y];
      forall y | y in s ensures Ahead(stride[m], stride[y]) <= w {
        UnwrappedCompare(u, stride, s, w, m, y);
      }
      assert Within(stride, s, stride[m], w);
    }
  }

  // ---------- rounds ----------

  /** What a process's stride grows by when it is picked. */
  function Step(priority: nat): (r: nat)
    ensures r <= BIG_STRIDE
  {
    if priority == 0 then BIG_STRIDE else BIG_STRIDE / priority
  }

  /** p comes first among s, and its stride is moved on by step. */
  ghost predicate Round<T>(stride: map<T, nat>, s: set<T>, p: T, step: nat, stride': map<T, nat>) {
    && s <= stride.Keys && p in s && (forall y | y in s :: Leq(CompareBy(stride), p, y))
    && stride' == stride[p := Wrap(stride[p] + step)]
  }

  /** A round on wrapped strides is a round on unwrapped ones: the least is moved on. The spread does not
      grow beyond w, and so the next round is one as well. */
  lemma {:induction false} RoundRefines<T>(stride: map<T, nat>, s: set<T>, p: T, step: nat, stride': map<T, nat>,
                                                 u: map<T, int>, w: nat)
    requires Round(stride, s, p, step, stride') && Unwraps(u, stride, s, w)
    requires step <= BIG_STRIDE <= w < HALF
    ensures forall y | y in s :: u[p] <= u[y]
    ensures Unwraps(u[p := u[p] + step], stride', s, w)
  {
    forall y | y in s ensures u[p] <= u[y] {
      UnwrappedCompare(u, stride, s, w, p, y);
    }
    WrapOfSum(u[p], stride[p], step);
  }

  lemma WrapOfSum(a: int, p: nat, step: nat)
    requires Wrap(a) == Wrap(p)
    ensures Wrap(a + step) == Wrap(Wrap(p + step))
  {
  }

  lemma {:induction false} RoundKeepsWindow<T>(stride: map<T, nat>, s: set<T>, p: T, step: nat,
                                                     stride': map<T, nat>, w: nat)
    requires Round(stride, s, p, step, stride') && InWindow(stride, s, w)
    requires step <= BIG_STRIDE <= w < HALF
    ensures InWindow(stride', s, w)
  {
    var u := WindowUnwraps(stride, s, w);
    RoundRefines(stride, s, p, step, stride', u, w);
    UnwrappedInWindow(u[p := u[p] + step], stride', s, w);
  }

  lemma {:induction false} FewerKeepWindow<T>(stride: map<T, nat>, s: set<T>, s': set<T>, w: nat)
    requires s' <= s <= stride.Keys && InWindow(stride, s, w) && w < HALF
    ensures InWindow(stride, s', w)
  {
    var u := WindowUnwraps(stride, s, w);
    UnwrappedInWindow(u, stride, s', w);
  }

  /** The rounds in which the processes of trace are picked, one after the other. */
  ghost predicate Rounds<T>(stride: map<T, nat>, s: set<T>, priority: map<T, nat>, trace: seq<T>, stride': map<T, nat>)
    requires s <= priority.Keys
    decreases |trace|
  {
    if trace == [] then stride' == stride
    else
      && trace[0] in s
      && s <= stride.Keys
      && var next := stride[trace[0] := Wrap(stride[trace[0]] + Step(priority[trace[0]]))];
      && Round(stride, s, trace[0], Step(priority[trace[0]]), next)
      && Rounds(next, s, priority, trace[1..], stride')
  }

  /** How often x is picked. */
  function Count<T(==)>(trace: seq<T>, x: T): nat {
    if trace == [] then 0 else (if trace[0] == x then 1 else 0) + Count(trace[1..], x)
  }

  /** The turns of x, each weighed by the same number. */
  function Given<T(==)>(trace: seq<T>, x: T, step: int): int {
    Count(trace, x) * step
  }

  lemma {:induction false} RoundsUnwrapped<T>(stride: map<T, nat>, s: set<T>, priority: map<T, nat>, trace: seq<T>,
                                                    stride': map<T, nat>, u: map<T, int>, w: nat)
    returns (u': map<T, int>)
    requires s <= priority.Keys && Rounds(stride, s, priority, trace, stride')
    requires Unwraps(u, stride, s, w) && BIG_STRIDE <= w < HALF
    ensures Unwraps(u', stride', s, w)
    ensures forall x | x in s :: u'[x] == u[x] + Given(trace, x, Step(priority[x]))
    decreases |trace|
  {
    if trace == [] {
      return u;
    }
    var p := trace[0];
    var step := Step(priority[p]);
    var next := stride[p := Wrap(stride[p] + step)];
    RoundRefines(stride, s, p, step, next, u, w);
    var v := u[p := u[p] + step];
    u' := RoundsUnwrapped(next, s, priority, trace[1..], stride', v, w);
    forall x | x in s ensures u'[x] == u[x] + Given(trace, x, Step(priority[x])) {
      OneMoreTurn(trace, x, Step(priority[x]));
    }
  }

  lemma OneMoreTurn<T>(trace: seq<T>, x: T, step: int)
    requires trace != []
    ensures Given(trace, x, step) == (if trace[0] == x then step else 0) + Given(trace[1..], x, step)
  {
    var rest := Count(trace[1..], x);
    if trace[0] == x { assert (1 + rest) * step == step + rest * step; }
  }

  /** The point of stride scheduling, in spite of the wrap-around: over any run of rounds, however long,
      what two processes have been given, each turn weighed by 2^30 divided by the priority, differs by no
      more than w beyond the difference they began with; and the comparator still orders. */
  lemma {:induction false} SharesAreFair<T>(stride: map<T, nat>, s: set<T>, priority: map<T, nat>, trace: seq<T>,
                                                  stride': map<T, nat>, w: nat, x: T, y: T)
    requires s <= stride.Keys && s <= priority.Keys && Rounds(stride, s, priority, trace, stride')
    requires InWindow(stride, s, w) && BIG_STRIDE <= w < HALF && x in s && y in s
    ensures s <= stride'.Keys && InWindow(stride', s, w) && TotalPreorder(CompareBy(stride'), s)
    ensures Given(trace, x, if priority[x] == 0 then 0x4000_0000 else 0x4000_0000 / priority[x])
         <= Given(trace, y, if priority[y] == 0 then 0x4000_0000 else 0x4000_0000 / priority[y])
          + (w + Difference(stride[y], stride[x]))
    ensures 0 <= w + Difference(stride[y], stride[x]) <= 2 * w
  {
    hide Wrap, Difference, TotalPreorder, CompareBy, Rounds, InWindow, Given, Step;
    SharesInSteps(stride, s, priority, trace, stride', w, x, y);
    StepIs(priority[x]);
    StepIs(priority[y]);
  }

  lemma StepIs(priority: nat)
    ensures Step(priority) == if priority == 0 then 0x4000_0000 else 0x4000_0000 / priority
  {
  }

  lemma {:induction false} SharesInSteps<T>(stride: map<T, nat>, s: set<T>, priority: map<T, nat>, trace: seq<T>,
                                                  stride': map<T, nat>, w: nat, x: T, y: T)
    requires s <= stride.Keys && s <= priority.Keys && Rounds(stride, s, priority, trace, stride')
    requires InWindow(stride, s, w) && BIG_STRIDE <= w < HALF && x in s && y in s
    ensures s <= stride'.Keys && InWindow(stride', s, w) && TotalPreorder(CompareBy(stride'), s)
    ensures Given(trace, x, Step(priority[x]))
         <= Given(trace, y, Step(priority[y])) + (w + Difference(stride[y], stride[x]))
    ensures 0 <= w + Difference(stride[y], stride[x]) <= 2 * w
  {
    hide Wrap, Difference, TotalPreorder, CompareBy, Rounds, Given, Step;
    var u := WindowUnwraps(stride, s, w);
    var u' := RoundsUnwrapped(stride, s, priority, trace, stride', u, w);
    UnwrappedCompare(u, stride, s, w, y, x);
    UnwrappedInWindow(u', stride', s, w);
    WiderWindow(stride', s, w);
    OrderIffWindow(stride', s);
    assert u'[x] - u'[y] <= w && u[x] - u[y] <= w && u[y] - u[x] <= w;
  }

  lemma WiderWindow<T>(stride: map<T, nat>, s: set<T>, w: nat)
    requires s <= stride.Keys && InWindow(stride, s, w) && w < HALF
    ensures InWindow(stride, s, HALF - 1)
  {
    if s != {} {
      var lo :| lo in s && Within(stride, s, stride[lo], w);
      assert Within(stride, s, stride[lo], HALF - 1);
    }
  }

  // ---------- shares and priorities ----------

  /** 2^30 / p and the remainder, for the two processes and what SharesAreFair says of their turns. */
  lemma {:induction false} ShareArithmetic(cx: nat, px: nat, qx: int, rx: int, cy: nat, py: nat, qy: int, ry: int,
                                           m: int)
    requires px * qx + rx == py * qy + ry && cx * qx - cy * qy <= m
    ensures (px * qx + rx) * (cx * py - cy * px) <= px * py * m + cx * py * rx - cy * px * ry
  {
    var b := px * qx + rx;
    assert b * (cx * py) == px * py * (cx * qx) + cx * py * rx;
    assert b * (cy * px) == px * py * (cy * qy) + cy * px * ry by { assert b == py * qy + ry; }
    assert b * (cx * py - cy * px) == b * (cx * py) - b * (cy * px);
    assert px * py * (cx * qx) - px * py * (cy * qy) == px * py * (cx * qx - cy * qy);
    assert px * py * (cx * qx - cy * qy) <= px * py * m;
  }

  /** Turns against priorities: up to a constant, the turns of x times the priority of y are those of y
      times the priority of x, but for what the division of 2^30 by the priorities leaves over. */
  lemma {:induction false} TurnsFollowPriorities<T>(stride: map<T, nat>, s: set<T>, priority: map<T, nat>,
                                                    trace: seq<T>, stride': map<T, nat>, w: nat, x: T, y: T)
    requires s <= stride.Keys && s <= priority.Keys && Rounds(stride, s, priority, trace, stride')
    requires InWindow(stride, s, w) && BIG_STRIDE <= w < HALF && x in s && y in s
    requires priority[x] > 0 && priority[y] > 0
    ensures var cx, cy, px, py := Count(trace, x), Count(trace, y), priority[x], priority[y];
            0x4000_0000 * (cx * py - cy * px)
            <= px * py * (w + Difference(stride[y], stride[x]))
               + cx * py * (0x4000_0000 % px) - cy * px * (0x4000_0000 % py)
  {
    hide Rounds, Count, Difference, InWindow;
    SharesAreFair(stride, s, priority, trace, stride', w, x, y);
    var px, py := priority[x], priority[y];
    var qx, rx, qy, ry := 0x4000_0000 / px, 0x4000_0000 % px, 0x4000_0000 / py, 0x4000_0000 % py;
    assert px * qx + rx == 0x4000_0000 && py * qy + ry == 0x4000_0000;
    ShareArithmetic(Count(trace, x), px, qx, rx, Count(trace, y), py, qy, ry, w + Difference(stride[y], stride[x]));
  }

  /** How many of the turns go to processes of s. */
  function TurnsOf<T>(trace: seq<T>, s: set<T>): nat {
    if trace == [] then 0 else (if trace[0] in s then 1 else 0) + TurnsOf(trace[1..], s)
  }

  lemma {:induction false} OneLess<T>(trace: seq<T>, s: set<T>, z: T)
    requires z in s
    ensures TurnsOf(trace, s) == TurnsOf(trace, s - {z}) + Count(trace, z)
  {
    if trace != [] { OneLess(trace[1..], s, z); }
  }

  lemma {:induction false} TurnsOfNobody<T>(trace: seq<T>)
    ensures TurnsOf<T>(trace, {}) == 0
  {
    if trace != [] { TurnsOfNobody(trace[1..]); }
  }

  lemma {:induction false} TurnsBounded<T>(trace: seq<T>, s: set<T>, n: nat)
    requires forall z | z in s :: Count(trace, z) <= n
    ensures TurnsOf(trace, s) <= |s| * n
    decreases |s|
  {
    if s == {} {
      TurnsOfNobody(trace);
    } else {
      var z :| z in s;
      TurnsBounded(trace, s - {z}, n);
      OneLess(trace, s, z);
      assert |s| * n == |s - {z}| * n + n;
    }
  }

  lemma {:induction false} EveryTurnCounts<T>(stride: map<T, nat>, s: set<T>, priority: map<T, nat>, trace: seq<T>,
                                              stride': map<T, nat>)
    requires s <= priority.Keys && Rounds(stride, s, priority, trace, stride')
    ensures TurnsOf(trace, s) == |trace|
    decreases |trace|
  {
    if trace != [] {
      var next := stride[trace[0] := Wrap(stride[trace[0]] + Step(priority[trace[0]]))];
      EveryTurnCounts(next, s, priority, trace[1..], stride');
    }
  }

  /** Nobody starves: in every run that is long enough each process has had more than n turns, provided that
      no priority is above 2^30. */
  lemma {:induction false} EverybodyRuns<T>(stride: map<T, nat>, s: set<T>, priority: map<T, nat>, trace: seq<T>,
                                            stride': map<T, nat>, w: nat, x: T, n: nat)
    requires s <= stride.Keys && s <= priority.Keys && Rounds(stride, s, priority, trace, stride')
    requires InWindow(stride, s, w) && BIG_STRIDE <= w < HALF && x in s
    requires forall z | z in s :: priority[z] <= 0x4000_0000
    requires |trace| > |s| * (n * 0x4000_0000 + 2 * w)
    ensures Count(trace, x) > n
  {
    hide Rounds, InWindow, Difference, Count, TurnsOf;
    if Count(trace, x) <= n {
      var most := n * 0x4000_0000 + 2 * w;
      forall z | z in s ensures Count(trace, z) <= most {
        SharesAreFair(stride, s, priority, trace, stride', w, z, x);
        TurnsAtMost(Count(trace, z), priority[z], Count(trace, x), priority[x], w + Difference(stride[x], stride[z]),
                    n, 2 * w);
      }
      TurnsBounded(trace, s, most);
      EveryTurnCounts(stride, s, priority, trace, stride');
    }
  }

  lemma TurnsAtMost(cz: nat, pz: nat, cx: nat, px: nat, d: int, n: nat, m: nat)
    requires pz <= 0x4000_0000 && cx <= n && d <= m
    requires cz * (if pz == 0 then 0x4000_0000 else 0x4000_0000 / pz)
          <= cx * (if px == 0 then 0x4000_0000 else 0x4000_0000 / px) + d
    ensures cz <= n * 0x4000_0000 + m
  {
    var qz := if pz == 0 then 0x4000_0000 else 0x4000_0000 / pz;
    var qx := if px == 0 then 0x4000_0000 else 0x4000_0000 / px;
    assert qz >= 1 && qx <= 0x4000_0000;
    assert cz * qz >= cz;
    assert cx * qx <= n * 0x4000_0000;
  }

  /** Above 2^30 the step is 0: once such a process comes first it is picked for ever, and nobody else is. */
  lemma {:induction false} TooHighStarves<T>(stride: map<T, nat>, s: set<T>, priority: map<T, nat>, p: T, n: nat)
    requires s <= stride.Keys && s <= priority.Keys && p in s && priority[p] > 0x4000_0000
    requires stride[p] < WORD && forall y | y in s :: Leq(CompareBy(stride), p, y)
    ensures Rounds(stride, s, priority, seq(n, _ => p), stride)
  {
    hide Compare;
    var trace := seq(n, _ => p);
    if n > 0 {
      TooHighStarves(stride, s, priority, p, n - 1);
      assert trace[1..] == seq(n - 1, _ => p);
      assert Wrap(stride[p] + Step(priority[p])) == stride[p];
      assert stride[p := stride[p]] == stride;
    }
  }

  /** From any strides in a window there are runs of any length. */
  lemma {:induction false} RunsGoOn<T>(stride: map<T, nat>, s: set<T>, priority: map<T, nat>, w: nat, n: nat)
    returns (trace: seq<T>, stride': map<T, nat>)
    requires s <= stride.Keys && s <= priority.Keys && s != {} && InWindow(stride, s, w) && BIG_STRIDE <= w < HALF
    ensures |trace| == n && Rounds(stride, s, priority, trace, stride')
    decreases n
  {
    hide TotalPreorder, InWindow, CompareBy, Wrap, Step;
    if n == 0 {
      return [], stride;
    }
    WiderWindow(stride, s, w);
    OrderIffWindow(stride, s);
    LeastExists(CompareBy(stride), s);
    var p :| p in s && forall y | y in s :: Leq(CompareBy(stride), p, y);
    var next := stride[p := Wrap(stride[p] + Step(priority[p]))];
    assert Round(stride, s, p, Step(priority[p]), next);
    RoundKeepsWindow(stride, s, p, Step(priority[p]), next, w);
    var rest;
    rest, stride' := RunsGoOn(next, s, priority, w, n - 1);
    trace := [p] + rest;
    assert trace[1..] == rest;
  }

  /** Turns are in the proportion of priorities, up to a constant however long the run: this holds of x and y
      in every run, or else it fails by any amount in some run. */
  ghost predicate InProportion<T>(trace: seq<T>, x: T, px: nat, y: T, py: nat, k: int) {
    Count(trace, x) * py <= Count(trace, y) * px + k && Count(trace, y) * px <= Count(trace, x) * py + k
  }

  /** Where the division of 2^30 leaves the same remainder for both, turns stay in proportion. */
  lemma {:induction false} SameRemainderInProportion<T>(stride: map<T, nat>, s: set<T>, priority: map<T, nat>,
                                                        trace: seq<T>, stride': map<T, nat>, w: nat, x: T, y: T)
    requires s <= stride.Keys && s <= priority.Keys && Rounds(stride, s, priority, trace, stride')
    requires InWindow(stride, s, w) && BIG_STRIDE <= w < HALF && x in s && y in s
    requires 0 < priority[x] <= 0x4000_0000 && 0 < priority[y] <= 0x4000_0000
    requires 0x4000_0000 % priority[x] == 0x4000_0000 % priority[y]
    ensures InProportion(trace, x, priority[x], y, priority[y], priority[x] * priority[y] * (2 * w))
  {
    hide Rounds, Given, Difference, InWindow, TotalPreorder, CompareBy, InProportion;
    SharesAreFair(stride, s, priority, trace, stride', w, x, y);
    SharesAreFair(stride, s, priority, trace, stride', w, y, x);
    EvenTurns(trace, x, priority[x], y, priority[y], 2 * w);
  }

  lemma {:induction false} EvenTurns<T>(trace: seq<T>, x: T, px: nat, y: T, py: nat, m: nat)
    requires 0 < px <= 0x4000_0000 && 0 < py <= 0x4000_0000 && 0x4000_0000 % px == 0x4000_0000 % py
    requires Given(trace, x, 0x4000_0000 / px) <= Given(trace, y, 0x4000_0000 / py) + m
    requires Given(trace, y, 0x4000_0000 / py) <= Given(trace, x, 0x4000_0000 / px) + m
    ensures InProportion(trace, x, px, y, py, px * py * m)
  {
    hide Count;
    Quotient(px);
    Quotient(py);
    EvenArithmetic(Count(trace, x), px, 0x4000_0000 / px, Count(trace, y), py, 0x4000_0000 / py, m);
    EvenArithmetic(Count(trace, y), py, 0x4000_0000 / py, Count(trace, x), px, 0x4000_0000 / px, m);
    assert py * px == px * py;
  }

  lemma Quotient(p: nat)
    requires 0 < p <= 0x4000_0000
    ensures 0x4000_0000 >= p * (0x4000_0000 / p) == 0x4000_0000 - 0x4000_0000 % p >= 1 && 0x4000_0000 / p >= 1
  {
  }

  lemma {:induction false} EvenArithmetic(cx: nat, px: nat, qx: int, cy: nat, py: nat, qy: int, m: nat)
    requires px * qx == py * qy >= 1 && cx * qx <= cy * qy + m
    ensures cx * py <= cy * px + px * py * m
  {
    ShareArithmetic(cx, px, qx, 0, cy, py, qy, 0, m);
    Divided(px * qx, cx * py - cy * px, px * py * m) by { assert px * py >= 0; }
  }

  lemma Divided(b: int, d: int, l: int)
    requires b >= 1 && l >= 0 && b * d <= l
    ensures d <= l
  {
    if d > 0 { assert d <= b * d; }
  }

  /** Where the remainders differ, runs that are long enough leave every proportion. */
  lemma {:induction false} OtherRemainderDrifts<T>(stride: map<T, nat>, s: set<T>, priority: map<T, nat>, w: nat,
                                                   x: T, y: T, k: nat)
    returns (trace: seq<T>, stride': map<T, nat>)
    requires s <= stride.Keys && s <= priority.Keys && InWindow(stride, s, w) && BIG_STRIDE <= w < HALF
    requires x in s && y in s && forall z | z in s :: 0 < priority[z] <= 0x4000_0000
    requires 0x4000_0000 % priority[x] != 0x4000_0000 % priority[y]
    ensures Rounds(stride, s, priority, trace, stride')
    ensures !InProportion(trace, x, priority[x], y, priority[y], k)
  {
    hide Rounds, Count, Difference, InWindow;
    var px, py := priority[x], priority[y];
    var enough := k * ((0x4000_0000 / px) * (0x4000_0000 / py)) + 0x4000_0000 * (2 * w);
    trace, stride' := RunsGoOn(stride, s, priority, w, |s| * (enough * 0x4000_0000 + 2 * w) + 1);
    EverybodyRuns(stride, s, priority, trace, stride', w, x, enough);
    SharesAreFair(stride, s, priority, trace, stride', w, x, y);
    SharesAreFair(stride, s, priority, trace, stride', w, y, x);
    Quotient(px);
    Quotient(py);
    DriftArithmetic(Count(trace, x), px, 0x4000_0000 / px, Count(trace, y), py, 0x4000_0000 / py, 2 * w, k);
  }

  lemma {:induction false} DriftArithmetic(cx: nat, px: nat, qx: int, cy: nat, py: nat, qy: int, m: nat, k: nat)
    requires qx >= 1 && qy >= 1 && px * qx != py * qy && px * qx <= 0x4000_0000
    requires cx * qx <= cy * qy + m && cy * qy <= cx * qx + m
    requires cx > k * (qx * qy) + 0x4000_0000 * m
    ensures cx * py > cy * px + k || cy * px > cx * py + k
  {
    var a, b, t := px * qx, py * qy, cx * qx - cy * qy;
    DriftIdentity(cx, px, qx, cy, py, qy);
    BoundedProduct(t, a, m);
    AtLeast(cx, qx);
    AtLeast(qx, qy);
    Drifts(cx * py - cy * px, qx * qy, cx * qx, b - a, t * a, k, 0x4000_0000 * m);
  }

  lemma AtLeast(g: nat, c: nat)
    requires c >= 1
    ensures g * c >= g
  {
  }

  lemma Drifts(e: int, q: nat, g: nat, c: int, rest: int, k: nat, l: nat)
    requires e * q == g * c + rest && c != 0 && q >= 1 && rest <= l && 0 <= rest + l && g > k * q + l
    ensures e > k || 0 - e > k
  {
    if c > 0 {
      AtLeast(g, c);
      Cancel(e, k, q);
    } else {
      AtLeast(g, 0 - c);
      Opposite(e, q);
      Opposite(c, g);
      Cancel(0 - e, k, q);
    }
  }

  lemma Opposite(e: int, q: int)
    ensures (0 - e) * q == 0 - e * q && q * (0 - e) == 0 - q * e
  {
  }

  lemma DriftIdentity(cx: int, px: int, qx: int, cy: int, py: int, qy: int)
    ensures (cx * py - cy * px) * (qx * qy) == (cx * qx) * (py * qy - px * qx) + (cx * qx - cy * qy) * (px * qx)
  {
    var g, h, a, b := cx * qx, cy * qy, px * qx, py * qy;
    assert (cx * py) * (qx * qy) == g * b;
    assert (cy * px) * (qx * qy) == h * a;
    assert (cx * py - cy * px) * (qx * qy) == (cx * py) * (qx * qy) - (cy * px) * (qx * qy);
    assert g * (b - a) + (g - h) * a == g * b - h * a;
  }

  lemma BoundedProduct(t: int, a: nat, m: nat)
    requires t <= m && 0 <= t + m && a <= 0x4000_0000
    ensures t * a <= 0x4000_0000 * m && 0 <= t * a + 0x4000_0000 * m
  {
    assert m * a <= m * 0x4000_0000;
    assert t * a <= m * a;
    assert (t + m) * a >= 0 && (t + m) * a == t * a + m * a;
  }

  lemma Cancel(e: int, k: nat, q: nat)
    requires q >= 1 && e * q > k * q
    ensures e > k
  {
    var d := k - e;
    assert d * q == k * q - e * q;
    if d >= 0 { assert false; }
  }

  // ---------- arrivals and departures ----------

  /** What happens to the processes that can run: one is picked, one comes with the stride it has (0 after
      a fork, its last one after a sleep), one goes to sleep or ends. */
  datatype Event<T> = Chosen(p: T, priority: nat) | Came(x: T, with: nat) | Left(x: T)

  /** The strides and the processes after an event. */
  function StridesAfter<T>(stride: map<T, nat>, e: Event<T>): map<T, nat> {
    match e
    case Chosen(p, priority) => if p in stride then stride[p := Wrap(stride[p] + Step(priority))] else stride
    case Came(x, n) => stride[x := n]
    case Left(_) => stride
  }

  function ReadyAfter<T>(s: set<T>, e: Event<T>): set<T> {
    match e
    case Chosen(_, _) => s
    case Came(x, _) => s + {x}
    case Left(x) => s - {x}
  }

  /** Every pick takes the first, and every arrival lies within w of the processes that are there. */
  ghost predicate Events<T>(stride: map<T, nat>, s: set<T>, run: seq<Event<T>>, w: nat)
    requires s <= stride.Keys
    decreases |run|
  {
    run != [] ==>
      var stride', s' := StridesAfter(stride, run[0]), ReadyAfter(s, run[0]);
      && (run[0].Chosen? ==> Round(stride, s, run[0].p, Step(run[0].priority), stride'))
      && (run[0].Came? ==> run[0].x !in s && InWindow(stride', s', w))
      && Events(stride', s', run[1..], w)
  }

  /** Whatever happens, and with whatever priorities, the comparator orders those that can run, provided
      that arrivals fit the window; rounds and departures take care of themselves. */
  lemma {:induction false} EventsKeepOrder<T>(stride: map<T, nat>, s: set<T>, run: seq<Event<T>>, w: nat, n: nat)
    returns (stride': map<T, nat>, s': set<T>)
    requires s <= stride.Keys && InWindow(stride, s, w) && BIG_STRIDE <= w < HALF
    requires Events(stride, s, run, w) && n <= |run|
    ensures stride' == StridesAfterAll(stride, run[..n]) && s' == ReadyAfterAll(s, run[..n])
    ensures s' <= stride'.Keys && InWindow(stride', s', w) && TotalPreorder(CompareBy(stride'), s')
    decreases n
  {
    hide TotalPreorder, CompareBy, InWindow, Step;
    if n == 0 {
      WiderWindow(stride, s, w);
      OrderIffWindow(stride, s);
      return stride, s;
    }
    var mid, m := StridesAfter(stride, run[0]), ReadyAfter(s, run[0]);
    match run[0] {
      case Chosen(p, priority) => RoundKeepsWindow(stride, s, p, Step(priority), mid, w);
      case Came(_, _) =>
      case Left(_) => FewerKeepWindow(stride, s, m, w);
    }
    assert run[..n][0] == run[0] && run[..n][1..] == run[1..][..n - 1];
    stride', s' := EventsKeepOrder(mid, m, run[1..], w, n - 1);
  }

  function StridesAfterAll<T>(stride: map<T, nat>, run: seq<Event<T>>): map<T, nat>
    decreases |run|
  {
    if run == [] then stride else StridesAfterAll(StridesAfter(stride, run[0]), run[1..])
  }

  function ReadyAfterAll<T>(s: set<T>, run: seq<Event<T>>): set<T>
    decreases |run|
  {
    if run == [] then s else ReadyAfterAll(ReadyAfter(s, run[0]), run[1..])
  }

  // ---------- the run queue ----------

  /** The fields of a process that scheduling uses; here says whether its rq field names the queue. */
  datatype Process = Process(stride: nat, priority: nat, slice: int, here: bool)

  function Strides<T>(procs: map<T, Process>): map<T, nat> {
    map p | p in procs :: procs[p].stride
  }

  function Comp<T>(procs: map<T, Process>): (T, T) -> int {
    CompareBy(Strides(procs))
  }

  /** What a process gets on entering the queue. */
  function Admitted(p: Process, max: int): Process {
    p.(slice := if p.slice == 0 || p.slice > max then max else p.slice, here := true)
  }

  function Advanced(p: Process): Process {
    p.(stride := Wrap(p.stride + Step(p.priority)))
  }

  /** The stride has been moved on by 2^30 divided by the priority, as a 32-bit number. */
  predicate MovedOn(p: Process, p': Process) {
    && p'.stride < 0x1_0000_0000 && p'.priority == p.priority
    && (p'.stride - p.stride - (if p.priority == 0 then 0x4000_0000 else 0x4000_0000 / p.priority)) % 0x1_0000_0000 == 0
  }

  lemma AdvancedMovedOn(p: Process)
    ensures MovedOn(p, Advanced(p))
  {
  }

  /** A time slice between 1 and the limit is kept; any other becomes the limit. */
  predicate SliceSet(p: Process, p': Process, max: int) {
    && (1 <= max && p.slice >= 0 ==> 1 <= p'.slice <= max)
    && (p.slice != 0 && p.slice <= max ==> p'.slice == p.slice)
    && (p'.slice == p.slice || p'.slice == max)
  }

  /** Heap order below the root: what is left of it when the root has just been picked. */
  ghost predicate OrderedBelow<T>(t: Tree<T>, comp: (T, T) -> int) {
    t.Node? ==> HeapOrdered(t.left, comp) && HeapOrdered(t.right, comp)
  }

  lemma {:induction false} SameOrder<T>(t: Tree<T>, procs: map<T, Process>, procs': map<T, Process>)
    requires Nodes(t) <= procs.Keys && Nodes(t) <= procs'.Keys
    requires forall p | p in Nodes(t) :: procs'[p].stride == procs[p].stride
    requires HeapOrdered(t, Comp(procs))
    ensures HeapOrdered(t, Comp(procs'))
  {
    if t.Node? {
      SameOrder(t.left, procs, procs');
      SameOrder(t.right, procs, procs');
      assert t.left.Node? ==> t.left.val in Nodes(t);
      assert t.right.Node? ==> t.right.val in Nodes(t);
    }
  }

  lemma {:induction false} RemoveRootOrdered<T>(t: Tree<T>, comp: (T, T) -> int)
    requires t.Node? && OrderedBelow(t, comp) && TotalPreorder(comp, Nodes(t) - {t.val}) && Distinct(t)
    ensures HeapOrdered(Remove(t, t.val, comp), comp)
  {
    assert Nodes(t.left) + Nodes(t.right) <= Nodes(t) - {t.val};
    MergeOrdered(t.left, t.right, comp);
  }

  /** struct run_queue, with the processes known by their nodes in the pool. */
  class RunQueue {
    var pool: Entry?
    var procNum: nat
    var maxSlice: int
    var procs: map<Entry, Process>
    ghost var tree: Tree<Entry>

    /** stride_init; the limit is set by sched_init. */
    constructor (maxSlice: int, procs: map<Entry, Process>)
      ensures WellFormed() && tree == Leaf && this.procs == procs && this.maxSlice == maxSlice
    {
      pool, procNum, this.maxSlice, this.procs, tree := null, 0, maxSlice, procs, Leaf;
    }

    ghost predicate WellFormed()
      reads this, Nodes(tree)
    {
      && IsHeap(tree, pool, LinksOf(Nodes(tree)))
      && procNum == Size(tree)
      && Nodes(tree) <= procs.Keys
      && (forall p | p in Nodes(tree) :: procs[p].here)
    }

    ghost predicate Ordered()
      reads this
    {
      HeapOrdered(tree, Comp(procs))
    }

    /** stride_enqueue */
    method Enqueue(proc: Entry)
      requires WellFormed() && proc !in Nodes(tree) && proc in procs
      modifies this`pool, this`procNum, this`procs, this`tree, Nodes(tree), proc
      ensures WellFormed() && Nodes(tree) == old(Nodes(tree)) + {proc} && procNum == old(procNum) + 1
      ensures procs == old(procs)[proc := Admitted(old(procs[proc]), maxSlice)]
      ensures SliceSet(old(procs[proc]), procs[proc], maxSlice) && procs[proc].here
      ensures old(Ordered()) && TotalPreorder(Comp(procs), Nodes(tree)) ==> Ordered()
    {
      hide TotalPreorder, Comp, HeapOrdered, IsHeap, Insert, Strides;
      InsertNodes(tree, proc, Comp(procs));
      ghost var t, before := tree, procs;
      ghost var calls;
      pool, calls := InsertEntry(pool, proc, Comp(procs), tree);
      tree := Insert(tree, proc, Comp(procs));
      procs := procs[proc := Admitted(procs[proc], maxSlice)];
      procNum := procNum + 1;
      AdmittedStrides(before, proc, maxSlice);
      EnqueueOrder(t, proc, before, procs);
    }

    /** stride_dequeue; its assertion is that the process is here and the queue not empty. */
    method Dequeue(proc: Entry)
      requires WellFormed() && proc in Nodes(tree)
      modifies this`pool, this`procNum, this`tree, Nodes(tree)
      ensures WellFormed() && Nodes(tree) == old(Nodes(tree)) - {proc} && procNum == old(procNum) - 1
      ensures old(Ordered()) && TotalPreorder(Comp(procs), old(Nodes(tree))) ==> Ordered()
      ensures old(pool) == proc && old(OrderedBelow(tree, Comp(procs))) && TotalPreorder(Comp(procs), Nodes(tree))
          ==> Ordered()
    {
      hide TotalPreorder, Comp, HeapOrdered, Spells, Remove, OrderedBelow, Distinct;
      RemoveNodes(tree, proc, Comp(procs));
      SpelledNodes(tree, pool, LinksOf(Nodes(tree)));
      assert procs[proc].here && procNum > 0;
      ghost var calls;
      ghost var t := tree;
      pool, calls := RemoveEntry(pool, proc, Comp(procs), tree);
      tree := Remove(tree, proc, Comp(procs));
      procNum := procNum - 1;
      DequeueOrder(t, proc, Comp(procs));
    }

    /** stride_pick_next: the root, which stays in the pool with its new stride. */
    method PickNext() returns (next: Option<Entry>)
      requires WellFormed()
      modifies this`procs
      ensures WellFormed()
      ensures next.None? <==> Nodes(tree) == {}
      ensures next.None? ==> procs == old(procs)
      ensures next.Some? ==> next.value in Nodes(tree) && next.value == pool
      ensures next.Some? ==> procs == old(procs)[next.value := Advanced(old(procs[next.value]))]
      ensures next.Some? ==> MovedOn(old(procs[next.value]), procs[next.value])
      ensures next.Some? && old(Ordered()) ==> OrderedBelow(tree, Comp(procs))
      ensures next.Some? && old(Ordered()) && TotalPreorder(old(Comp(procs)), Nodes(tree))
          ==> forall p | p in Nodes(tree) :: Leq(old(Comp(procs)), next.value, p)
    {
      SpelledNodes(tree, pool, LinksOf(Nodes(tree)));
      if pool == null {
        return None;
      }
      next := Some(pool);
      AdvancedMovedOn(procs[pool]);
      procs := procs[pool := Advanced(procs[pool])];
      PickOrder(tree, old(procs), procs);
    }

    /** The first half of schedule. */
    method Requeue(current: Option<Entry>)
      requires WellFormed() && (current.Some? ==> current.value !in Nodes(tree) && current.value in procs)
      modifies this`pool, this`procNum, this`procs, this`tree, Nodes(tree), if current.Some? then {current.value}
               else {}
      ensures WellFormed() && Nodes(tree) == old(Nodes(tree)) + Present(current)
      ensures procs == Ready(old(procs), current, maxSlice) && Comp(procs) == old(Comp(procs))
      ensures old(Ordered()) && TotalPreorder(Comp(procs), Nodes(tree)) ==> Ordered()
    {
      hide TotalPreorder, Comp, HeapOrdered, IsHeap, Strides, Admitted, SliceSet;
      if current.Some? {
        AdmittedStrides(procs, current.value, maxSlice);
        Enqueue(current.value);
      }
    }

    /** The second half: the process that comes first is taken out of the pool. */
    method TakeFirst() returns (next: Option<Entry>)
      requires WellFormed()
      modifies this`pool, this`procNum, this`procs, this`tree, Nodes(tree)
      ensures WellFormed() && (next.None? <==> old(Nodes(tree)) == {})
      ensures next.Some? ==> next.value in old(Nodes(tree)) && next.value in old(procs) && next.value in procs
      ensures Nodes(tree) == old(Nodes(tree)) - Present(next) && procs == Picked(old(procs), next)
      ensures next.Some? ==> MovedOn(old(procs[next.value]), procs[next.value])
      ensures next.Some? && old(Ordered()) && TotalPreorder(old(Comp(procs)), old(Nodes(tree)))
              && TotalPreorder(Comp(procs), Nodes(tree)) ==>
              Ordered() && forall y | y in old(Nodes(tree)) :: Leq(old(Comp(procs)), next.value, y)
    {
      hide TotalPreorder, Comp, HeapOrdered, IsHeap, Strides, OrderedBelow, Advanced, MovedOn;
      next := PickNext();
      if next.Some? {
        Dequeue(next.value);
      }
    }

    /** schedule: current is the running process if it is to stay runnable, and not the idle process. */
    method Schedule(current: Option<Entry>) returns (next: Option<Entry>)
      requires WellFormed() && (current.Some? ==> current.value !in Nodes(tree) && current.value in procs)
      modifies this`pool, this`procNum, this`procs, this`tree, Nodes(tree), if current.Some? then {current.value}
               else {}
      ensures WellFormed() && Nodes(tree) == old(Nodes(tree)) + Present(current) - Present(next)
      ensures next.None? <==> old(Nodes(tree)) + Present(current) == {}
      ensures next.Some? ==>
              next.value in old(procs) && next.value in procs && next.value in old(Nodes(tree)) + Present(current)
      ensures procs == Picked(Ready(old(procs), current, maxSlice), next)
      ensures next.Some? ==> MovedOn(old(procs[next.value]), procs[next.value])
      ensures next.Some? && old(Ordered()) ==>
              Scheduled(old(procs), old(Nodes(tree)) + Present(current), next.value, procs, Ordered())
    {
      hide TotalPreorder, Comp, HeapOrdered, IsHeap, Strides, InWindow, Round, Advanced, Admitted, MovedOn, Scheduled;
      ghost var before, all, ordered := procs, Nodes(tree) + Present(current), Ordered();
      Requeue(current);
      ghost var middle, inOrder := procs, Ordered();
      next := TakeFirst();
      if next.Some? {
        SameStart(before, middle, current, maxSlice);
        SameMove(before[next.value], middle[next.value], procs[next.value]);
        if ordered { IsScheduled(before, middle, current, maxSlice, all, next.value, procs, inOrder, Ordered()); }
      }
    }
  }

  /** Where the strides are ordered, schedule is a round on them, and the pool is in order afterwards. */
  ghost predicate Scheduled<T>(procs: map<T, Process>, all: set<T>, p: T, procs': map<T, Process>, ordered: bool) {
    all <= procs.Keys && p in procs
    && (InWindow(Strides(procs), all, HALF - 1) ==>
          ordered && Round(Strides(procs), all, p, Step(procs[p].priority), Strides(procs')))
  }

  lemma IsScheduled<T>(procs: map<T, Process>, admitted: map<T, Process>, current: Option<T>, max: int, all: set<T>,
                       p: T,
                       procs': map<T, Process>, inOrder: bool, ordered: bool)
    requires (current.Some? ==> current.value in procs) && admitted == Ready(procs, current, max)
    requires p in all && all <= procs.Keys && procs' == admitted[p := Advanced(admitted[p])]
    requires TotalPreorder(Comp(admitted), all) ==> inOrder
    requires inOrder && TotalPreorder(Comp(admitted), all) && TotalPreorder(Comp(procs'), all - {p}) ==>
               ordered && forall y | y in all :: Leq(Comp(admitted), p, y)
    ensures Scheduled(procs, all, p, procs', ordered)
  {
    hide TotalPreorder, Comp, Strides, InWindow, Round, Advanced, Admitted, MovedOn;
    SameStart(procs, admitted, current, max);
    ScheduleRound(procs, admitted, procs', all, p);
  }

  lemma SameStart<T>(procs: map<T, Process>, admitted: map<T, Process>, current: Option<T>, max: int)
    requires (current.Some? ==> current.value in procs) && admitted == Ready(procs, current, max)
    ensures Strides(admitted) == Strides(procs) && admitted.Keys == procs.Keys && Comp(admitted) == Comp(procs)
    ensures forall p | p in procs :: admitted[p].stride == procs[p].stride && admitted[p].priority == procs[p].priority
  {
    assert Strides(admitted) == Strides(procs);
  }

  lemma {:induction false} AdmittedStrides<T>(procs: map<T, Process>, x: T, max: int)
    requires x in procs
    ensures Strides(procs[x := Admitted(procs[x], max)]) == Strides(procs)
    ensures Comp(procs[x := Admitted(procs[x], max)]) == Comp(procs)
  {
    assert Strides(procs[x := Admitted(procs[x], max)]) == Strides(procs);
  }

  lemma SameMove(p: Process, admitted: Process, after: Process)
    requires admitted.stride == p.stride && admitted.priority == p.priority && MovedOn(admitted, after)
    ensures MovedOn(p, after)
  {
  }

  /** What scheduling means for the strides alone, admitting a process having changed none of them. */
  lemma {:induction false} ScheduleRound<T>(procs: map<T, Process>, admitted: map<T, Process>, after: map<T, Process>,
                                            all: set<T>, p: T)
    requires all <= procs.Keys == admitted.Keys && p in all && Strides(admitted) == Strides(procs)
    requires admitted[p].priority == procs[p].priority
    requires after == admitted[p := Advanced(admitted[p])]
    ensures Strides(after) == Strides(procs)[p := Advanced(procs[p]).stride] && Comp(admitted) == Comp(procs)
    ensures InWindow(Strides(procs), all, HALF - 1) ==>
              TotalPreorder(Comp(procs), all) && TotalPreorder(Comp(after), all - {p})
    ensures (forall y | y in all :: Leq(Comp(procs), p, y)) ==>
              Round(Strides(procs), all, p, Step(procs[p].priority), Strides(after))
  {
    hide TotalPreorder, InWindow, CompareBy;
    var stride := Strides(procs);
    assert stride[p] == procs[p].stride && stride[p] == Strides(admitted)[p] == admitted[p].stride;
    assert Strides(after) == stride[p := Advanced(procs[p]).stride];
    if InWindow(stride, all, HALF - 1) {
      OrderIffWindow(stride, all);
      FewerKeepWindow(stride, all, all - {p}, HALF - 1);
      OthersInWindow(stride, all - {p}, p, Advanced(procs[p]).stride);
      OrderIffWindow(Strides(after), all - {p});
    }
  }

  lemma {:induction false} OthersInWindow<T>(stride: map<T, nat>, s: set<T>, p: T, n: nat)
    requires s <= stride.Keys && p !in s && InWindow(stride, s, HALF - 1)
    ensures InWindow(stride[p := n], s, HALF - 1)
  {
    if s != {} {
      var lo :| lo in s && Within(stride, s, stride[lo], HALF - 1);
      assert Within(stride[p := n], s, stride[p := n][lo], HALF - 1);
    }
  }

  /** The processes once current, if any, has been admitted. */
  function Ready<T>(procs: map<T, Process>, current: Option<T>, max: int): map<T, Process>
    requires current.Some? ==> current.value in procs
  {
    if current.Some? then procs[current.value := Admitted(procs[current.value], max)] else procs
  }

  /** The processes once next, if any, has been picked. */
  function Picked<T>(procs: map<T, Process>, next: Option<T>): map<T, Process>
    requires next.Some? ==> next.value in procs
  {
    if next.Some? then procs[next.value := Advanced(procs[next.value])] else procs
  }

  function Present<T>(p: Option<T>): set<T> {
    if p.Some? then {p.value} else {}
  }

  lemma {:induction false} EnqueueOrder<T>(t: Tree<T>, x: T, procs: map<T, Process>, procs': map<T, Process>)
    requires Nodes(t) + {x} <= procs.Keys && Nodes(t) + {x} <= procs'.Keys && Strides(procs) == Strides(procs')
    ensures HeapOrdered(t, Comp(procs)) && TotalPreorder(Comp(procs'), Nodes(t) + {x})
        ==> HeapOrdered(Insert(t, x, Comp(procs)), Comp(procs'))
  {
    if HeapOrdered(t, Comp(procs)) && TotalPreorder(Comp(procs'), Nodes(t) + {x}) {
      InsertOrdered(t, x, Comp(procs));
    }
  }

  lemma {:induction false} DequeueOrder<T>(t: Tree<T>, x: T, comp: (T, T) -> int)
    requires Distinct(t) && x in Nodes(t)
    ensures HeapOrdered(t, comp) && TotalPreorder(comp, Nodes(t)) ==> HeapOrdered(Remove(t, x, comp), comp)
    ensures t.val == x && OrderedBelow(t, comp) && TotalPreorder(comp, Nodes(t) - {x})
        ==> HeapOrdered(Remove(t, x, comp), comp)
  {
    if HeapOrdered(t, comp) && TotalPreorder(comp, Nodes(t)) {
      RemoveOrdered(t, x, comp);
    }
    if t.val == x && OrderedBelow(t, comp) && TotalPreorder(comp, Nodes(t) - {x}) {
      RemoveRootOrdered(t, comp);
    }
  }

  lemma {:induction false} PickOrder<T>(t: Tree<T>, procs: map<T, Process>, procs': map<T, Process>)
    requires t.Node? && Nodes(t) <= procs.Keys && Distinct(t)
    requires procs' == procs[t.val := Advanced(procs[t.val])]
    ensures HeapOrdered(t, Comp(procs)) ==> OrderedBelow(t, Comp(procs'))
    ensures HeapOrdered(t, Comp(procs)) && TotalPreorder(Comp(procs), Nodes(t))
        ==> forall p | p in Nodes(t) :: Leq(Comp(procs), t.val, p)
  {
    if HeapOrdered(t, Comp(procs)) {
      SameOrder(t.left, procs, procs');
      SameOrder(t.right, procs, procs');
      if TotalPreorder(Comp(procs), Nodes(t)) {
        forall p | p in Nodes(t) ensures Leq(Comp(procs), t.val, p) {
          RootIsLeast(t, Comp(procs), p);
        }
      }
    }
  }

  /** A process forked with stride 0 can lie half the circle away, so that the comparator puts each before
      the other: one process of priority 1 has run twice. */
  method ForkBreaksOrder(parent: Entry, child: Entry) returns (q: RunQueue)
    requires parent != child
    modifies parent, child
    ensures Nodes(q.tree) == {parent, child} <= q.procs.Keys
    ensures Strides(q.procs)[child] == 0 && Strides(q.procs)[parent] == 2 * BIG_STRIDE
    ensures Comp(q.procs)(parent, child) == -1 && Comp(q.procs)(child, parent) == -1
    ensures !TotalPreorder(Comp(q.procs), Nodes(q.tree))
  {
    q := RunTwice(parent, child);
    EnqueueBoth(q, parent, child);
    assert !Leq(Comp(q.procs), parent, child) && !Leq(Comp(q.procs), child, parent);
    NotTotal(Comp(q.procs), Nodes(q.tree), parent, child);
  }

  method RunTwice(parent: Entry, child: Entry) returns (q: RunQueue)
    requires parent != child
    modifies parent
    ensures fresh(q) && q.WellFormed() && Nodes(q.tree) == {} && q.maxSlice == 5
    ensures parent in q.procs && q.procs[parent].stride == 2 * BIG_STRIDE
    ensures child in q.procs && q.procs[child].stride == 0
  {
    hide Distinct, IsHeap, HeapOrdered, TotalPreorder, InWindow, Round;
    var start := Process(0, 1, 0, false);
    q := new RunQueue(5, map[parent := start, child := start]);
    q.Enqueue(parent);
    var next := q.Schedule(None);
    assert next == Some(parent);
    assert q.procs[parent].stride == BIG_STRIDE;
    next := q.Schedule(next);
    assert next == Some(parent);
  }

  method EnqueueBoth(q: RunQueue, x: Entry, y: Entry)
    requires q.WellFormed() && Nodes(q.tree) == {} && x != y && x in q.procs && y in q.procs
    modifies q, x, y
    ensures q.WellFormed() && Nodes(q.tree) == {x, y} && Strides(q.procs) == old(Strides(q.procs))
  {
    hide Distinct, IsHeap, HeapOrdered, TotalPreorder;
    AdmittedStrides(q.procs, x, q.maxSlice);
    q.Enqueue(x);
    AdmittedStrides(q.procs, y, q.maxSlice);
    q.Enqueue(y);
  }

  lemma NotTotal<T>(comp: (T, T) -> int, s: set<T>, x: T, y: T)
    requires x in s && y in s && !Leq(comp, x, y) && !Leq(comp, y, x)
    ensures !TotalPreorder(comp, s)
  {
  }
}
