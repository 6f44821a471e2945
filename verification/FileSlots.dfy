// The open-file slots of a process as a state machine: kern/fs/file.c. A step runs from one call into
// the file system proper to the next, vfs_close included; between its steps an operation is in flight,
// and the threads that share the table may take any other steps.
module FileSlots {
  import opened Options

  const NO_FD: int := -1
  const E_INVAL: int := 3
  const E_BUSY: int := 15
  const E_MAX_OPEN: int := 22

  datatype Status = FdNone | FdInit | FdOpened | FdClosed

  /** struct file; the node NULL is 0. */
  datatype Slot = Slot(status: Status, readable: bool, writable: bool, fd: int, pos: int, node: nat, openCount: int)

  /** An operation in flight: file_open in vfs_open, in vop_fstat, or in the vfs_close after that failed;
      one that uses an opened slot and its node; the last to leave a closed slot, in vfs_close. */
  datatype Op =
    | Opening(slot: nat, readable: bool, writable: bool)
    | Checking(slot: nat, readable: bool, writable: bool, node: nat)
    | Abandoning(slot: nat, node: nat)
    | Using(slot: nat, node: nat)
    | Closing(slot: nat, node: nat)
  {
    /** It belongs to file_open, and its slot is not open yet. */
    predicate IsOpener() {
      Opening? || Checking? || Abandoning?
    }

    /** file_open has opened the node, which is in no slot yet. */
    predicate Carries(n: nat) {
      (Checking? || Abandoning?) && this.node == n
    }
  }

  /** opens counts, for every node, the opens of this table that have not been closed. */
  datatype Table = Table(slots: seq<Slot>, ops: map<nat, Op>, opens: map<nat, int>)

  function Opens(opens: map<nat, int>, node: nat): int {
    if node in opens then opens[node] else 0
  }

  // ---------- what holds between steps ----------

  function InFlight(ops: map<nat, Op>, s: nat): set<nat> {
    set id | id in ops && ops[id].Using? && ops[id].slot == s
  }

  function Openers(ops: map<nat, Op>, s: nat): set<nat> {
    set id | id in ops && ops[id].IsOpener() && ops[id].slot == s
  }

  function Closers(ops: map<nat, Op>, s: nat): set<nat> {
    set id | id in ops && ops[id].Closing? && ops[id].slot == s
  }

  function Carriers(ops: map<nat, Op>, node: nat): set<nat> {
    set id | id in ops && ops[id].Carries(node)
  }

  predicate HoldsNode(slot: Slot, node: nat) {
    (slot.status.FdOpened? || slot.status.FdClosed?) && slot.node == node
  }

  function Holds(slot: Slot, node: nat): nat {
    if HoldsNode(slot, node) then 1 else 0
  }

  function CountHolding(slots: seq<Slot>, node: nat): nat {
    if slots == [] then 0 else CountHolding(slots[..|slots| - 1], node) + Holds(slots[|slots| - 1], node)
  }

  /** The count is 1 for being open plus the number of operations that use the slot; a slot is closed but
      not free exactly while such operations remain or the last of them is in vfs_close; being
      initialised, it has the one opener it belongs to. */
  ghost predicate SlotOk(slot: Slot, s: nat, ops: map<nat, Op>) {
    && slot.fd == s
    && slot.openCount == (if slot.status.FdOpened? then 1 else 0) + |InFlight(ops, s)|
    && (!slot.status.FdInit? ==> Openers(ops, s) == {})
    && (!slot.status.FdClosed? ==> Closers(ops, s) == {})
    && match slot.status
       case FdNone => InFlight(ops, s) == {}
       case FdInit => InFlight(ops, s) == {} && |Openers(ops, s)| == 1
       case FdOpened => slot.node != 0
       case FdClosed => slot.node != 0 && |Closers(ops, s)| == if InFlight(ops, s) == {} then 1 else 0
  }

  /** An operation in flight still finds its own node in its slot. */
  predicate OpOk(slots: seq<Slot>, op: Op) {
    && op.slot < |slots|
    && (op.Using? || op.Closing? ==> HoldsNode(slots[op.slot], op.node))
    && (op.Checking? || op.Abandoning? ==> op.node != 0)
  }

  ghost predicate NodeOk(t: Table, node: nat) {
    Opens(t.opens, node) == CountHolding(t.slots, node) + |Carriers(t.ops, node)|
  }

  ghost predicate Inv(t: Table) {
    && (forall s: nat | s < |t.slots| :: SlotOk(t.slots[s], s, t.ops))
    && (forall id | id in t.ops :: OpOk(t.slots, t.ops[id]))
    && (forall node: nat :: NodeOk(t, node))
  }

  // ---------- the single changes that steps are made of ----------

  function Set(t: Table, s: nat, slot: Slot): Table
    requires s < |t.slots|
  {
    t.(slots := t.slots[s := slot])
  }

  function AddOpens(opens: map<nat, int>, node: nat, d: int): map<nat, int> {
    opens[node := Opens(opens, node) + d]
  }

  lemma {:induction false} CountUpdated(slots: seq<Slot>, s: nat, slot: Slot, node: nat)
    requires s < |slots|
    ensures CountHolding(slots[s := slot], node) ==
            CountHolding(slots, node) - Holds(slots[s], node) + Holds(slot, node)
  {
    var n := |slots| - 1;
    var slots' := slots[s := slot];
    if s == n {
      assert slots'[..n] == slots[..n];
    } else {
      assert slots'[..n] == slots[..n][s := slot];
      CountUpdated(slots[..n], s, slot, node);
    }
  }

  lemma {:induction false} CountPositive(slots: seq<Slot>, s: nat, node: nat)
    requires s < |slots| && HoldsNode(slots[s], node)
    ensures CountHolding(slots, node) > 0
  {
    if s < |slots| - 1 { CountPositive(slots[..|slots| - 1], s, node); }
  }

  // ---------- fd_array_* as functions ----------

  /** fd_array_alloc on the slot s */
  function Allocated(t: Table, s: nat): Table
    requires s < |t.slots|
  {
    Set(t, s, t.slots[s].(status := FdInit, node := 0))
  }

  /** The end of fd_array_free. */
  function Freed(t: Table, s: nat): Table
    requires s < |t.slots|
  {
    Set(t, s, t.slots[s].(status := FdNone))
  }

  /** fd_array_release by the operation id up to vfs_close, which is called if the count has come to 0 on a
      closed slot. */
  function Released(t: Table, id: nat, s: nat): Table
    requires s < |t.slots|
  {
    var slot := t.slots[s].(openCount := t.slots[s].openCount - 1);
    Set(t, s, slot).(ops := if slot.openCount == 0 then t.ops[id := Closing(s, slot.node)] else t.ops - {id})
  }

  /** fd_array_close, likewise. */
  function Closed(t: Table, id: nat, s: nat): Table
    requires s < |t.slots|
  {
    Released(Set(t, s, t.slots[s].(status := FdClosed)), id, s)
  }

  /** vfs_close has come back. */
  function VfsClosedDone(t: Table, id: nat): Table
    requires id in t.ops && (t.ops[id].Closing? || t.ops[id].Abandoning?) && t.ops[id].slot < |t.slots|
  {
    Freed(t, t.ops[id].slot).(opens := AddOpens(t.opens, t.ops[id].node, -1), ops := t.ops - {id})
  }

  /** fd_array_open */
  function Opened(t: Table, s: nat): Table
    requires s < |t.slots|
  {
    Set(t, s, t.slots[s].(status := FdOpened, openCount := t.slots[s].openCount + 1))
  }

  /** The end of file_open. */
  function Finished(t: Table, s: nat, node: nat, pos: int, readable: bool, writable: bool): Table
    requires s < |t.slots|
  {
    Opened(Set(t, s, t.slots[s].(pos := pos, node := node, readable := readable, writable := writable)), s)
  }

  /** fd_array_dup: the slot to becomes an open copy of f. */
  function Duplicated(t: Table, to: nat, f: Slot): Table
    requires to < |t.slots|
  {
    Opened(Set(t, to, t.slots[to].(pos := f.pos, readable := f.readable, writable := f.writable, node := f.node))
             .(opens := AddOpens(t.opens, f.node, 1)), to)
  }

  function FirstFree(slots: seq<Slot>, i: nat): (s: nat)
    requires i <= |slots|
    ensures i <= s <= |slots| && (s < |slots| ==> slots[s].status.FdNone?)
    ensures forall k | i <= k < s :: !slots[k].status.FdNone?
    decreases |slots| - i
  {
    if i == |slots| || slots[i].status.FdNone? then i else FirstFree(slots, i + 1)
  }

  /** fd2file succeeds. */
  predicate IsFile(slots: seq<Slot>, fd: int) {
    0 <= fd < |slots| && slots[fd].status.FdOpened? && slots[fd].fd == fd
  }

  /** fd_array_alloc: the result and, where that is 0, the slot. */
  function AllocResult(slots: seq<Slot>, fd: int): (r: (int, nat))
    ensures r.0 == 0 ==> r.1 < |slots| && slots[r.1].status.FdNone?
  {
    if fd == NO_FD then
      var s := FirstFree(slots, 0);
      if s < |slots| then (0, s) else (-E_MAX_OPEN, 0)
    else if 0 <= fd < |slots| then
      if slots[fd].status.FdNone? then (0, fd) else (-E_BUSY, 0)
    else (-E_INVAL, 0)
  }

  /** The answers of fd_array_alloc, as numbers: any slot is asked for by -1, and the errors are -E_MAX_OPEN,
      -E_BUSY and -E_INVAL. */
  lemma AllocAnswers(slots: seq<Slot>, fd: int)
    ensures var r := AllocResult(slots, fd);
            && (fd == -1 && (forall k | 0 <= k < |slots| :: !slots[k].status.FdNone?) ==> r.0 == -22)
            && (fd == -1 && (exists k | 0 <= k < |slots| :: slots[k].status.FdNone?) ==>
                r.0 == 0 && forall k | 0 <= k < r.1 :: !slots[k].status.FdNone?)
            && (0 <= fd < |slots| && slots[fd].status.FdNone? ==> r == (0, fd))
            && (0 <= fd < |slots| && !slots[fd].status.FdNone? ==> r.0 == -15)
            && (fd < -1 || fd >= |slots| ==> r.0 == -3)
  {
  }

  // ---------- steps ----------

  /** What one thread does between two points where others may run; id names its operation. */
  datatype Event =
    | BeginOpen(id: nat, readable: bool, writable: bool)
    | VfsOpened(id: nat, node: nat, append: bool)
    | Statted(id: nat, size: Option<nat>)
    | Close(id: nat, fd: int)
    | VfsClosed(id: nat)
    | BeginUse(id: nat, fd: int, read: bool, write: bool)
    | EndUse(id: nat, copied: nat)
    | EndSeek(id: nat, newPos: Option<int>)
    | Dup(fd1: int, fd2: int)

  /** The file system answers only operations in flight, and a new one has a new name. */
  predicate Enabled(t: Table, e: Event) {
    match e
    case BeginOpen(id, _, _) => id !in t.ops
    case VfsOpened(id, _, _) => id in t.ops && t.ops[id].Opening? && t.ops[id].slot < |t.slots|
    case Statted(id, _) => id in t.ops && t.ops[id].Checking? && t.ops[id].slot < |t.slots|
    case Close(id, _) => id !in t.ops
    case VfsClosed(id) => id in t.ops && (t.ops[id].Closing? || t.ops[id].Abandoning?) && t.ops[id].slot < |t.slots|
    case BeginUse(id, _, _, _) => id !in t.ops
    case EndUse(id, _) => id in t.ops && t.ops[id].Using? && t.ops[id].slot < |t.slots|
    case EndSeek(id, _) => id in t.ops && t.ops[id].Using? && t.ops[id].slot < |t.slots|
    case _ => true
  }

  function Begun(t: Table, id: nat, readable: bool, writable: bool): Table {
    var s := FirstFree(t.slots, 0);
    if s < |t.slots| then Allocated(t, s).(ops := t.ops[id := Opening(s, readable, writable)]) else t
  }

  function VfsDone(t: Table, id: nat, node: nat, append: bool): Table
    requires id in t.ops && t.ops[id].Opening? && t.ops[id].slot < |t.slots|
  {
    var op := t.ops[id];
    if node == 0 then Freed(t, op.slot).(ops := t.ops - {id})
    else
      var t1 := t.(opens := AddOpens(t.opens, node, 1));
      if append then t1.(ops := t.ops[id := Checking(op.slot, op.readable, op.writable, node)])
      else Finished(t1, op.slot, node, 0, op.readable, op.writable).(ops := t.ops - {id})
  }

  function StatDone(t: Table, id: nat, size: Option<nat>): Table
    requires id in t.ops && t.ops[id].Checking? && t.ops[id].slot < |t.slots|
  {
    var op := t.ops[id];
    match size
    case None => t.(ops := t.ops[id := Abandoning(op.slot, op.node)])
    case Some(n) => Finished(t, op.slot, op.node, n, op.readable, op.writable).(ops := t.ops - {id})
  }

  function UseBegun(t: Table, id: nat, fd: int, read: bool, write: bool): Table {
    if IsFile(t.slots, fd) && (read ==> t.slots[fd].readable) && (write ==> t.slots[fd].writable) then
      Set(t, fd, t.slots[fd].(openCount := t.slots[fd].openCount + 1)).(ops := t.ops[id := Using(fd, t.slots[fd].node)])
    else t
  }

  /** The position moves by what was copied only while the slot is still open. */
  function UseDone(t: Table, id: nat, copied: nat): Table
    requires id in t.ops && t.ops[id].slot < |t.slots|
  {
    var s := t.ops[id].slot;
    var slot := t.slots[s];
    Released(Set(t, s, if slot.status.FdOpened? then slot.(pos := slot.pos + copied) else slot), id, s)
  }

  function SeekDone(t: Table, id: nat, newPos: Option<int>): Table
    requires id in t.ops && t.ops[id].slot < |t.slots|
  {
    var s := t.ops[id].slot;
    var slot := t.slots[s];
    Released(Set(t, s, if newPos.Some? then slot.(pos := newPos.value) else slot), id, s)
  }

  function DupDone(t: Table, fd1: int, fd2: int): Table {
    var r := AllocResult(t.slots, fd2);
    if IsFile(t.slots, fd1) && r.0 == 0 then Duplicated(Allocated(t, r.1), r.1, t.slots[fd1]) else t
  }

  function Next(t: Table, e: Event): Table
    requires Enabled(t, e)
  {
    match e
    case BeginOpen(id, readable, writable) => Begun(t, id, readable, writable)
    case VfsOpened(id, node, append) => VfsDone(t, id, node, append)
    case Statted(id, size) => StatDone(t, id, size)
    case Close(id, fd) => if IsFile(t.slots, fd) then Closed(t, id, fd) else t
    case VfsClosed(id) => VfsClosedDone(t, id)
    case BeginUse(id, fd, read, write) => UseBegun(t, id, fd, read, write)
    case EndUse(id, copied) => UseDone(t, id, copied)
    case EndSeek(id, newPos) => SeekDone(t, id, newPos)
    case Dup(fd1, fd2) => DupDone(t, fd1, fd2)
  }

  // ---------- every step keeps the invariant ----------

  /** What the operation id is, if anything. */
  function OpOf(ops: map<nat, Op>, id: nat): Option<Op> {
    if id in ops then Some(ops[id]) else None
  }

  function WithOp(ops: map<nat, Op>, id: nat, op: Option<Op>): map<nat, Op> {
    if op.Some? then ops[id := op.value] else ops - {id}
  }

  function Carried(op: Option<Op>, node: nat): nat {
    if op.Some? && op.value.Carries(node) then 1 else 0
  }

  predicate OnSlot(op: Option<Op>, s: nat) {
    op.Some? ==> op.value.slot == s
  }

  function OnlyIf(c: bool, id: nat): set<nat> {
    if c then {id} else {}
  }

  lemma OpsAfter(ops: map<nat, Op>, id: nat, op: Option<Op>, s: nat)
    ensures var ops' := WithOp(ops, id, op);
            && InFlight(ops', s) == InFlight(ops, s) - {id}
               + OnlyIf(op.Some? && op.value.Using? && op.value.slot == s, id)
            && Openers(ops', s) == Openers(ops, s) - {id}
               + OnlyIf(op.Some? && op.value.IsOpener() && op.value.slot == s, id)
            && Closers(ops', s) == Closers(ops, s) - {id}
               + OnlyIf(op.Some? && op.value.Closing? && op.value.slot == s, id)
  {
  }

  lemma SizeAfter(a: set<nat>, id: nat, c: bool)
    ensures |a - {id} + OnlyIf(c, id)| == |a| - (if id in a then 1 else 0) + (if c then 1 else 0)
  {
    if id !in a { assert a - {id} == a; }
    if !c { assert a - {id} + {} == a - {id}; }
  }

  lemma CarriersAfter(ops: map<nat, Op>, id: nat, op: Option<Op>, node: nat)
    ensures |Carriers(WithOp(ops, id, op), node)| == |Carriers(ops, node)| - Carried(OpOf(ops, id), node)
            + Carried(op, node)
  {
    assert id in Carriers(ops, node) <==> id in ops && ops[id].Carries(node);
    CarriersOf(ops, id, op, node);
    hide Carriers, Op.Carries;
    SizeAfter(Carriers(ops, node), id, op.Some? && op.value.Carries(node));
  }

  lemma CarriersOf(ops: map<nat, Op>, id: nat, op: Option<Op>, node: nat)
    ensures Carriers(WithOp(ops, id, op), node) ==
            Carriers(ops, node) - {id} + OnlyIf(op.Some? && op.value.Carries(node), id)
  {
  }

  /** Where an operation is entered, by its kind and slot. */
  lemma Belongs(ops: map<nat, Op>, id: nat, s: nat)
    ensures id in InFlight(ops, s) <==> id in ops && ops[id].Using? && ops[id].slot == s
    ensures id in Openers(ops, s) <==> id in ops && ops[id].IsOpener() && ops[id].slot == s
    ensures id in Closers(ops, s) <==> id in ops && ops[id].Closing? && ops[id].slot == s
  {
  }

  /** What has to be seen of a change to the slot s and to one operation on it, for the invariant to go on. */
  lemma StepInv(t: Table, s: nat, id: nat, op: Option<Op>, t': Table)
    requires Inv(t) && s < |t.slots| && |t'.slots| == |t.slots| && t'.slots == t.slots[s := t'.slots[s]]
    requires t'.ops == WithOp(t.ops, id, op) && OnSlot(OpOf(t.ops, id), s) && OnSlot(op, s)
    requires SlotOk(t'.slots[s], s, t'.ops) && (op.Some? ==> OpOk(t'.slots, op.value))
    requires forall j | j in t.ops && j != id && t.ops[j].slot == s :: OpOk(t'.slots, t.ops[j])
    requires forall k: nat :: Opens(t'.opens, k) - Opens(t.opens, k) ==
               Holds(t'.slots[s], k) + Carried(op, k) - Holds(t.slots[s], k) - Carried(OpOf(t.ops, id), k)
    ensures Inv(t')
  {
    hide SlotOk, Carriers, CountHolding, Carried, Holds, Opens;
    forall r: nat | r < |t'.slots| ensures SlotOk(t'.slots[r], r, t'.ops) {
      if r != s { OtherSlotOk(t, r, id, op); }
    }
    forall j | j in t'.ops ensures OpOk(t'.slots, t'.ops[j]) {
      if j != id { assert OpOk(t.slots, t.ops[j]); }
    }
    forall k: nat ensures NodeOk(t', k) {
      assert NodeOk(t, k);
      CarriersAfter(t.ops, id, op, k);
      CountUpdated(t.slots, s, t'.slots[s], k);
    }
  }

  lemma OtherSlotOk(t: Table, r: nat, id: nat, op: Option<Op>)
    requires r < |t.slots| && SlotOk(t.slots[r], r, t.ops)
    requires (id in t.ops ==> t.ops[id].slot != r) && (op.Some? ==> op.value.slot != r)
    ensures SlotOk(t.slots[r], r, WithOp(t.ops, id, op))
  {
    hide InFlight, Openers, Closers, WithOp, SlotOk;
    OpsAfter(t.ops, id, op, r);
    Belongs(t.ops, id, r);
    var ops' := WithOp(t.ops, id, op);
    assert InFlight(ops', r) == InFlight(t.ops, r);
    assert Openers(ops', r) == Openers(t.ops, r);
    assert Closers(ops', r) == Closers(t.ops, r);
    SameCounts(t.slots[r], r, t.ops, ops');
  }

  lemma SameCounts(slot: Slot, r: nat, ops: map<nat, Op>, ops': map<nat, Op>)
    requires SlotOk(slot, r, ops) && InFlight(ops', r) == InFlight(ops, r)
    requires Openers(ops', r) == Openers(ops, r) && Closers(ops', r) == Closers(ops, r)
    ensures SlotOk(slot, r, ops')
  {
    hide InFlight, Openers, Closers;
  }

  /** The operations that stay on a slot which keeps its node and stays open or closed. */
  lemma OthersOk(t: Table, s: nat, slot: Slot)
    requires Inv(t) && s < |t.slots| && (t.slots[s].status.FdOpened? || t.slots[s].status.FdClosed?)
    requires (slot.status.FdOpened? || slot.status.FdClosed?) && slot.node == t.slots[s].node
    ensures forall j | j in t.ops && t.ops[j].slot == s :: OpOk(t.slots[s := slot], t.ops[j])
  {
    assert SlotOk(t.slots[s], s, t.ops);
    forall j | j in t.ops && t.ops[j].slot == s ensures OpOk(t.slots[s := slot], t.ops[j]) {
      assert OpOk(t.slots, t.ops[j]);
      Belongs(t.ops, j, s);
    }
  }

  lemma OnlyOpeners(ops: map<nat, Op>, s: nat)
    requires InFlight(ops, s) == {} && Closers(ops, s) == {}
    ensures forall id | id in ops && ops[id].slot == s :: ops[id].IsOpener()
  {
    forall id | id in ops && ops[id].slot == s ensures ops[id].IsOpener() {
      Belongs(ops, id, s);
    }
  }

  lemma NoOps(ops: map<nat, Op>, s: nat)
    requires InFlight(ops, s) == {} && Openers(ops, s) == {} && Closers(ops, s) == {}
    ensures forall id | id in ops :: ops[id].slot != s
  {
    OnlyOpeners(ops, s);
    forall id | id in ops ensures ops[id].slot != s {
      Belongs(ops, id, s);
    }
  }

  lemma OnlyMember(a: set<nat>, x: nat)
    requires x in a && |a| == 1
    ensures a == {x}
  {
    assert |a - {x}| == 0;
    assert a - {x} == {};
  }

  lemma EmptyOrNot(a: set<nat>)
    ensures |a| == 0 <==> a == {}
  {
  }

  /** The only opener of a slot is the only operation on it. */
  lemma OneOpener(t: Table, id: nat)
    requires Inv(t) && id in t.ops && t.ops[id].IsOpener()
    ensures var s := t.ops[id].slot;
            && s < |t.slots| && t.slots[s].status.FdInit? && t.slots[s].openCount == 0 && t.slots[s].fd == s
            && Openers(t.ops, s) == {id} && InFlight(t.ops, s) == {} && Closers(t.ops, s) == {}
            && (forall k | k in t.ops && t.ops[k].slot == s :: k == id)
  {
    var s := t.ops[id].slot;
    assert OpOk(t.slots, t.ops[id]) && SlotOk(t.slots[s], s, t.ops);
    Belongs(t.ops, id, s);
    OnlyMember(Openers(t.ops, s), id);
    OnlyOpeners(t.ops, s);
    forall k | k in t.ops && t.ops[k].slot == s ensures k == id {
      Belongs(t.ops, k, s);
    }
  }

  /** The slot of an operation in vfs_close is closed, and nobody else is on it. */
  lemma OneCloser(t: Table, id: nat)
    requires Inv(t) && id in t.ops && t.ops[id].Closing?
    ensures var s := t.ops[id].slot;
            && s < |t.slots| && t.slots[s].status.FdClosed? && t.slots[s].openCount == 0 && t.slots[s].fd == s
            && t.slots[s].node == t.ops[id].node
            && Openers(t.ops, s) == {} && InFlight(t.ops, s) == {} && Closers(t.ops, s) == {id}
            && (forall k | k in t.ops && t.ops[k].slot == s :: k == id)
  {
    var s := t.ops[id].slot;
    assert OpOk(t.slots, t.ops[id]) && SlotOk(t.slots[s], s, t.ops);
    Belongs(t.ops, id, s);
    EmptyOrNot(Closers(t.ops, s));
    OnlyMember(Closers(t.ops, s), id);
    forall k | k in t.ops && t.ops[k].slot == s ensures k == id {
      Belongs(t.ops, k, s);
    }
  }

  lemma BeginOpenKeeps(t: Table, id: nat, readable: bool, writable: bool)
    requires Inv(t) && id !in t.ops
    ensures Inv(Begun(t, id, readable, writable))
  {
    hide InFlight, Openers, Closers, Carriers, CountHolding, NodeOk;
    var s := FirstFree(t.slots, 0);
    if s < |t.slots| {
      var op := Some(Opening(s, readable, writable));
      assert SlotOk(t.slots[s], s, t.ops);
      OpsAfter(t.ops, id, op, s);
      NoOps(t.ops, s);
      StepInv(t, s, id, op, Begun(t, id, readable, writable));
    }
  }

  /** file_open after vfs_open, where it does not have to ask for the size. */
  lemma VfsOpenedKeeps(t: Table, id: nat, node: nat, append: bool)
    requires Inv(t) && id in t.ops && t.ops[id].Opening? && t.ops[id].slot < |t.slots|
    ensures Inv(VfsDone(t, id, node, append))
  {
    hide InFlight, Openers, Closers, Carriers, CountHolding, NodeOk;
    OneOpener(t, id);
    var s, t' := t.ops[id].slot, VfsDone(t, id, node, append);
    OpsAfter(t.ops, id, OpOf(t'.ops, id), s);
    StepInv(t, s, id, OpOf(t'.ops, id), t');
  }

  lemma StattedKeeps(t: Table, id: nat, size: Option<nat>)
    requires Inv(t) && id in t.ops && t.ops[id].Checking? && t.ops[id].slot < |t.slots|
    ensures Inv(StatDone(t, id, size))
  {
    hide InFlight, Openers, Closers, Carriers, CountHolding, NodeOk;
    OneOpener(t, id);
    var s, t' := t.ops[id].slot, StatDone(t, id, size);
    assert OpOk(t.slots, t.ops[id]);
    OpsAfter(t.ops, id, OpOf(t'.ops, id), s);
    StepInv(t, s, id, OpOf(t'.ops, id), t');
  }

  lemma BeginUseKeeps(t: Table, id: nat, fd: int, read: bool, write: bool)
    requires Inv(t) && id !in t.ops
    ensures Inv(UseBegun(t, id, fd, read, write))
  {
    hide InFlight, Openers, Closers, Carriers, CountHolding, NodeOk;
    var t' := UseBegun(t, id, fd, read, write);
    if t' != t {
      var op := Some(Using(fd, t.slots[fd].node));
      assert SlotOk(t.slots[fd], fd, t.ops);
      OpsAfter(t.ops, id, op, fd);
      Belongs(t.ops, id, fd);
      OthersOk(t, fd, t'.slots[fd]);
      StepInv(t, fd, id, op, t');
    }
  }

  /** The end of a read, write, seek, stat, sync or getdirentry: where the slot has been closed and this
      was the last operation that used it, that operation goes on to close the node. */
  lemma ReleaseKeeps(t: Table, id: nat, pos: int)
    requires Inv(t) && id in t.ops && t.ops[id].Using? && t.ops[id].slot < |t.slots|
    ensures var s := t.ops[id].slot;
            Inv(Released(Set(t, s, t.slots[s].(pos := pos)), id, s))
  {
    hide InFlight, Openers, Closers, Carriers, CountHolding, NodeOk;
    var s := t.ops[id].slot;
    var t' := Released(Set(t, s, t.slots[s].(pos := pos)), id, s);
    assert OpOk(t.slots, t.ops[id]) && SlotOk(t.slots[s], s, t.ops);
    OpsAfter(t.ops, id, OpOf(t'.ops, id), s);
    Belongs(t.ops, id, s);
    EmptyOrNot(InFlight(t'.ops, s));
    OthersOk(t, s, t'.slots[s]);
    StepInv(t, s, id, OpOf(t'.ops, id), t');
  }

  lemma CloseKeeps(t: Table, id: nat, fd: int)
    requires Inv(t) && IsFile(t.slots, fd) && id !in t.ops
    ensures Inv(Closed(t, id, fd))
  {
    hide InFlight, Openers, Closers, Carriers, CountHolding, NodeOk;
    var t' := Closed(t, id, fd);
    assert SlotOk(t.slots[fd], fd, t.ops);
    OpsAfter(t.ops, id, OpOf(t'.ops, id), fd);
    Belongs(t.ops, id, fd);
    EmptyOrNot(InFlight(t.ops, fd));
    OthersOk(t, fd, t'.slots[fd]);
    StepInv(t, fd, id, OpOf(t'.ops, id), t');
  }

  /** The slot becomes free once its node has been closed. */
  lemma VfsClosedKeeps(t: Table, id: nat)
    requires Inv(t) && Enabled(t, VfsClosed(id))
    ensures Inv(VfsClosedDone(t, id))
  {
    hide InFlight, Openers, Closers, Carriers, CountHolding, NodeOk;
    var s := t.ops[id].slot;
    if t.ops[id].Closing? { OneCloser(t, id); } else { OneOpener(t, id); }
    OpsAfter(t.ops, id, None, s);
    StepInv(t, s, id, None, VfsClosedDone(t, id));
  }

  lemma {:induction false} NameAbove(ids: set<nat>) returns (id: nat)
    ensures forall j | j in ids :: j < id
  {
    id := 0;
    if ids != {} {
      var j :| j in ids;
      var below := NameAbove(ids - {j});
      id := if below > j then below else j + 1;
      forall k | k in ids ensures k < id {
        if k != j { assert k in ids - {j}; }
      }
    }
  }

  /** A free slot, or one that fd_array_alloc has just taken, becomes a copy of an open one. */
  lemma CopyKeeps(t: Table, s: nat, f: Slot)
    requires Inv(t) && s < |t.slots| && t.slots[s].status.FdNone? && f.node != 0
    ensures Inv(Duplicated(Allocated(t, s), s, f))
  {
    hide InFlight, Openers, Closers, Carriers, CountHolding, NodeOk;
    assert SlotOk(t.slots[s], s, t.ops);
    NoOps(t.ops, s);
    var id := NameAbove(t.ops.Keys);
    assert t.ops - {id} == t.ops;
    StepInv(t, s, id, None, Duplicated(Allocated(t, s), s, f));
  }

  lemma DupKeeps(t: Table, fd1: int, fd2: int)
    requires Inv(t)
    ensures Inv(DupDone(t, fd1, fd2))
  {
    var r := AllocResult(t.slots, fd2);
    if IsFile(t.slots, fd1) && r.0 == 0 {
      assert SlotOk(t.slots[fd1], fd1, t.ops);
      CopyKeeps(t, r.1, t.slots[fd1]);
    }
  }

  lemma StepKeeps(t: Table, e: Event)
    requires Inv(t) && Enabled(t, e)
    ensures Inv(Next(t, e))
  {
    hide Inv, Released, Closed, VfsDone, StatDone, Begun, UseBegun, DupDone, VfsClosedDone;
    match e
    case BeginOpen(id, readable, writable) => BeginOpenKeeps(t, id, readable, writable);
    case VfsOpened(id, node, append) => VfsOpenedKeeps(t, id, node, append);
    case Statted(id, size) => StattedKeeps(t, id, size);
    case Close(id, fd) => if IsFile(t.slots, fd) { CloseKeeps(t, id, fd); }
    case VfsClosed(id) => VfsClosedKeeps(t, id);
    case BeginUse(id, fd, read, write) => BeginUseKeeps(t, id, fd, read, write);
    case EndUse(id, copied) =>
      var slot := t.slots[t.ops[id].slot];
      ReleaseKeeps(t, id, if slot.status.FdOpened? then slot.pos + copied else slot.pos);
    case EndSeek(id, newPos) =>
      var slot := t.slots[t.ops[id].slot];
      ReleaseKeeps(t, id, if newPos.Some? then newPos.value else slot.pos);
    case Dup(fd1, fd2) => DupKeeps(t, fd1, fd2);
  }

  // ---------- runs ----------

  function Run(t: Table, events: seq<Event>): Option<Table>
  {
    if events == [] then Some(t)
    else
      match Run(t, events[..|events| - 1])
      case None => None
      case Some(t1) => if Enabled(t1, events[|events| - 1]) then Some(Next(t1, events[|events| - 1])) else None
  }

  /** The invariant holds after any interleaving of steps. */
  lemma {:induction false} RunKeeps(t: Table, events: seq<Event>)
    requires Inv(t) && Run(t, events).Some?
    ensures Inv(Run(t, events).value)
  {
    if events != [] {
      RunKeeps(t, events[..|events| - 1]);
      StepKeeps(Run(t, events[..|events| - 1]).value, events[|events| - 1]);
    }
  }

  /** A table as fd_array_init leaves it. */
  predicate Fresh(slots: seq<Slot>) {
    forall s | 0 <= s < |slots| :: slots[s].status.FdNone? && slots[s].openCount == 0 && slots[s].fd == s
  }

  lemma {:induction false} FreshHoldsNothing(slots: seq<Slot>, node: nat)
    requires forall s | 0 <= s < |slots| :: slots[s].status.FdNone?
    ensures CountHolding(slots, node) == 0
  {
    if slots != [] { FreshHoldsNothing(slots[..|slots| - 1], node); }
  }

  lemma FreshIsOk(slots: seq<Slot>)
    requires Fresh(slots)
    ensures Inv(Table(slots, map[], map[]))
  {
    var t := Table(slots, map[], map[]);
    forall node: nat ensures NodeOk(t, node) {
      FreshHoldsNothing(slots, node);
    }
  }

  lemma OpStays(t: Table, e: Event, id: nat)
    requires Enabled(t, e) && id in t.ops && InSlot(t.ops[id]) && !Ends(e, id)
    ensures id in Next(t, e).ops && Next(t, e).ops[id] == t.ops[id]
  {
  }

  /** An operation keeps its slot and node, while it uses them and while it closes them: whatever the other
      threads do, the slot is not reused and still holds the node that the operation began with. */
  lemma {:induction false} NodeStays(t: Table, events: seq<Event>, id: nat)
    requires Inv(t) && Run(t, events).Some? && id in t.ops && InSlot(t.ops[id])
    requires forall i | 0 <= i < |events| :: !Ends(events[i], id)
    ensures var t' := Run(t, events).value;
            && id in t'.ops && t'.ops[id] == t.ops[id] && t.ops[id].slot < |t'.slots|
            && HoldsNode(t'.slots[t.ops[id].slot], t.ops[id].node)
  {
    hide Next, SlotOk, NodeOk, Enabled;
    RunKeeps(t, events);
    if events != [] {
      var n := |events| - 1;
      NodeStays(t, events[..n], id);
      OpStays(Run(t, events[..n]).value, events[n], id);
    }
    assert OpOk(Run(t, events).value.slots, t.ops[id]);
  }

  /** The node of the operation is in its slot. */
  predicate InSlot(op: Op) {
    op.Using? || op.Closing?
  }

  predicate Ends(e: Event, id: nat) {
    (e.EndUse? || e.EndSeek? || e.VfsClosed?) && e.id == id
  }

  // ---------- positions and modes ----------

  /** What an event copies on the slot s. */
  function CopiedBy(t: Table, e: Event, s: nat): nat {
    if e.EndUse? && e.id in t.ops && t.ops[e.id].slot == s then e.copied else 0
  }

  predicate Seeks(t: Table, e: Event, s: nat) {
    e.EndSeek? && e.id in t.ops && t.ops[e.id].slot == s
  }

  /** All that is copied on the slot s during a run. */
  function CopiedOn(t: Table, events: seq<Event>, s: nat): nat {
    if events == [] then 0
    else
      var n := |events| - 1;
      CopiedOn(t, events[..n], s)
      + match Run(t, events[..n]) case None => 0 case Some(t1) => CopiedBy(t1, events[n], s)
  }

  /** The slot s is open before, after and at every step of a run, and no seek ends on it. */
  ghost predicate OpenWithoutSeek(t: Table, events: seq<Event>, s: nat) {
    && (forall i | 0 <= i <= |events| :: OpenAt(Run(t, events[..i]), s))
    && (forall i | 0 <= i < |events| :: SeeksNot(Run(t, events[..i]), events[i], s))
  }

  predicate OpenAt(t: Option<Table>, s: nat) {
    t.Some? && s < |t.value.slots| && t.value.slots[s].status.FdOpened?
  }

  predicate SeeksNot(t: Option<Table>, e: Event, s: nat) {
    t.Some? ==> !Seeks(t.value, e, s)
  }

  /** One step on a slot that is open before and after: its position moves by what a use copies, becomes what
      a seek gives, and is left alone by everything else; modes, node and number stay. */
  lemma StepOnOpen(t: Table, e: Event, s: nat)
    requires Inv(t) && Enabled(t, e) && s < |t.slots| && t.slots[s].status.FdOpened?
    requires Next(t, e).slots[s].status.FdOpened?
    ensures var f, f' := t.slots[s], Next(t, e).slots[s];
            && f'.readable == f.readable && f'.writable == f.writable && f'.node == f.node && f'.fd == f.fd
            && (!Seeks(t, e, s) ==> f'.pos == f.pos + CopiedBy(t, e, s))
            && (Seeks(t, e, s) ==> f'.pos == match e.newPos case None => f.pos case Some(p) => p)
  {
    assert SlotOk(t.slots[s], s, t.ops);
    if (e.VfsOpened? || e.Statted? || e.VfsClosed?) && t.ops[e.id].slot == s {
      assert OpOk(t.slots, t.ops[e.id]);
      Belongs(t.ops, e.id, s);
    }
  }

  /** Reads and writes of any number of threads, and whatever else happens: while a file stays open and is not
      sought on, its position is where it was plus everything that has been copied. */
  lemma {:induction false} PositionIsSum(t: Table, events: seq<Event>, s: nat)
    requires Inv(t) && OpenWithoutSeek(t, events, s)
    ensures OpenAt(Run(t, events), s) && OpenAt(Some(t), s)
    ensures var f, f' := t.slots[s], Run(t, events).value.slots[s];
            && f'.pos == f.pos + CopiedOn(t, events, s)
            && f'.readable == f.readable && f'.writable == f.writable && f'.node == f.node
    decreases |events|
  {
    hide Next, Inv, Enabled;
    assert events[..|events|] == events && events[..0] == [];
    if events != [] {
      var n := |events| - 1;
      forall i | 0 <= i <= n ensures events[..n][..i] == events[..i] {}
      PositionIsSum(t, events[..n], s);
      RunKeeps(t, events[..n]);
      assert SeeksNot(Run(t, events[..n]), events[n], s);
      StepOnOpen(Run(t, events[..n]).value, events[n], s);
    }
  }

  /** A use or a seek that ends on a slot closed meanwhile: only the seek moves the position. */
  lemma EndOnClosed(t: Table, e: Event)
    requires Inv(t) && Enabled(t, e) && (e.EndUse? || e.EndSeek?) && !t.slots[t.ops[e.id].slot].status.FdOpened?
    ensures var s := t.ops[e.id].slot;
            Next(t, e).slots[s].pos ==
            if e.EndSeek? && e.newPos.Some? then e.newPos.value else t.slots[s].pos
  {
  }

  /** What file_open leaves: position 0, or the size for appending, and the modes that were asked for. */
  lemma OpensAt(t: Table, e: Event)
    requires Inv(t) && Enabled(t, e)
    requires (e.VfsOpened? && e.node != 0 && !e.append) || (e.Statted? && e.size.Some?)
    ensures var op := t.ops[e.id];
            Next(t, e).slots[op.slot] == Slot(FdOpened, op.readable, op.writable, op.slot,
                                             if e.Statted? then e.size.value else 0,
                                             if e.Statted? then op.node else e.node, 1)
  {
    OneOpener(t, e.id);
  }

  /** The modes that file_open was called with are those of its operation until it ends. */
  lemma ModesCarried(t: Table, e: Event, id: nat)
    requires Enabled(t, e) && id in Next(t, e).ops && (Next(t, e).ops[id].Opening? || Next(t, e).ops[id].Checking?)
    ensures id in t.ops ==>
              && (t.ops[id].Opening? || t.ops[id].Checking?)
              && t.ops[id].readable == Next(t, e).ops[id].readable && t.ops[id].writable == Next(t, e).ops[id].writable
    ensures id !in t.ops ==> e == BeginOpen(id, Next(t, e).ops[id].readable, Next(t, e).ops[id].writable)
  {
  }

  /** A use begins exactly on an open file that has the modes it needs. */
  lemma UseNeedsModes(t: Table, id: nat, fd: int, read: bool, write: bool)
    requires id !in t.ops
    ensures id in Next(t, BeginUse(id, fd, read, write)).ops <==>
            && 0 <= fd < |t.slots| && t.slots[fd].status.FdOpened? && t.slots[fd].fd == fd
            && (read ==> t.slots[fd].readable) && (write ==> t.slots[fd].writable)
  {
  }

  /** A duplicate has the position, the modes and the node of the original, which stays as it is. */
  lemma DupCopies(t: Table, fd1: int, fd2: int)
    requires Inv(t) && IsFile(t.slots, fd1) && AllocResult(t.slots, fd2).0 == 0
    ensures var t', f, to := Next(t, Dup(fd1, fd2)), t.slots[fd1], AllocResult(t.slots, fd2).1;
            && t'.slots[to] == Slot(FdOpened, f.readable, f.writable, to, f.pos, f.node, 1)
            && t'.slots[fd1] == f && to != fd1
            && (fd2 != -1 ==> to == fd2)
  {
    var to := AllocResult(t.slots, fd2).1;
    assert SlotOk(t.slots[to], to, t.ops);
  }

  /** Opens and closes of a node balance: once a table is idle and all its slots are free again, every
      successful vfs_open and every dup has been matched by exactly one vfs_close. */
  lemma OpensBalance(slots: seq<Slot>, events: seq<Event>, node: nat)
    requires Fresh(slots) && Run(Table(slots, map[], map[]), events).Some?
    ensures var t := Run(Table(slots, map[], map[]), events).value;
            && Opens(t.opens, node) >= 0
            && ((forall s | 0 <= s < |t.slots| :: t.slots[s].status.FdNone?) && t.ops == map[] ==>
                Opens(t.opens, node) == 0)
  {
    FreshIsOk(slots);
    RunKeeps(Table(slots, map[], map[]), events);
    var t := Run(Table(slots, map[], map[]), events).value;
    assert NodeOk(t, node);
    if forall s | 0 <= s < |t.slots| :: t.slots[s].status.FdNone? { FreshHoldsNothing(t.slots, node); }
  }

  // ---------- closing all, destroying, duplicating a whole table ----------

  /** file_close of an open slot by the operation id with nobody in between. */
  function ClosedAlone(t: Table, id: nat, s: nat): (t': Table)
    requires s < |t.slots| && id !in t.ops
    ensures |t'.slots| == |t.slots|
  {
    var t1 := Closed(t, id, s);
    if id in t1.ops then VfsClosedDone(t1, id) else t1
  }

  lemma ClosedAloneKeeps(t: Table, id: nat, s: nat)
    requires Inv(t) && IsFile(t.slots, s) && id !in t.ops
    ensures var t' := ClosedAlone(t, id, s);
            Inv(t') && t'.ops == t.ops && t'.slots == t.slots[s := t'.slots[s]] && !t'.slots[s].status.FdOpened?
  {
    hide Inv;
    CloseKeeps(t, id, s);
    if id in Closed(t, id, s).ops { VfsClosedKeeps(Closed(t, id, s), id); }
    assert t.ops - {id} == t.ops && t.ops[id := Closing(s, t.slots[s].node)] - {id} == t.ops;
  }

  /** The open slots from i on are closed, one after the other. */
  function ClosedFrom(t: Table, id: nat, i: nat): (t': Table)
    requires id !in t.ops
    ensures |t'.slots| == |t.slots|
    decreases |t.slots| - i
  {
    if i >= |t.slots| then t
    else if t.slots[i].status.FdOpened? && id !in ClosedAlone(t, id, i).ops
      then ClosedFrom(ClosedAlone(t, id, i), id, i + 1)
    else ClosedFrom(t, id, i + 1)
  }

  lemma {:induction false} ClosedFromKeeps(t: Table, id: nat, i: nat)
    requires Inv(t) && id !in t.ops
    ensures var t' := ClosedFrom(t, id, i);
            && Inv(t') && t'.ops == t.ops && |t'.slots| == |t.slots|
            && (forall s | 0 <= s < i && s < |t.slots| :: t'.slots[s] == t.slots[s])
            && (forall s | i <= s < |t.slots| :: !t'.slots[s].status.FdOpened?)
            && (forall s | i <= s < |t.slots| && !t.slots[s].status.FdOpened? :: t'.slots[s] == t.slots[s])
    decreases |t.slots| - i
  {
    hide ClosedAlone;
    if i < |t.slots| {
      assert SlotOk(t.slots[i], i, t.ops);
      if t.slots[i].status.FdOpened? {
        ClosedAloneKeeps(t, id, i);
        ClosedFromKeeps(ClosedAlone(t, id, i), id, i + 1);
      } else {
        ClosedFromKeeps(t, id, i + 1);
      }
    }
  }

  /** Closing all slots frees them all, as files_destroy asserts, if and only if nothing is in flight. */
  lemma AllFreeIffIdle(t: Table, id: nat)
    requires Inv(t) && id !in t.ops
    ensures (forall s | 0 <= s < |t.slots| :: ClosedFrom(t, id, 0).slots[s].status.FdNone?) <==> t.ops == map[]
  {
    ClosedFromKeeps(t, id, 0);
    var t' := ClosedFrom(t, id, 0);
    if t.ops == map[] {
      forall s | 0 <= s < |t.slots| ensures t'.slots[s].status.FdNone? {
        assert SlotOk(t'.slots[s], s, t'.ops);
        assert InFlight(t'.ops, s) == {} && Openers(t'.ops, s) == {} && Closers(t'.ops, s) == {};
      }
    } else {
      var k :| k in t.ops;
      assert OpOk(t'.slots, t'.ops[k]);
      if t.ops[k].IsOpener() { OneOpener(t', k); }
    }
  }
}
