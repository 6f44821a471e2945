// The open-file table of a process: kern/fs/file.c and kern/fs/fs.c over an array of slots. Calls into
// the file system end a step; their results are parameters of the step that follows. The assertions
// of the source are assertions here.
module FileTable {
  import opened Options
  import opened FileSlots

  /** (PGSIZE - sizeof(struct files_struct)) / sizeof(struct file), on a 64-bit machine. */
  const FILES_STRUCT_NENTRY: nat := (4096 - 48) / 56

  class FilesStruct {
    const fdArray: array<Slot>
    /** The open counts of nodes as far as this table has raised them: vop_open_inc and vfs_close. */
    var opens: map<nat, int>
    ghost var ops: map<nat, Op>

    ghost function State(): Table
      reads this, fdArray
    {
      Table(fdArray[..], ops, opens)
    }

    ghost predicate Valid()
      reads this, fdArray
    {
      fdArray.Length == FILES_STRUCT_NENTRY && Inv(State())
    }

    /** files_create with fd_array_init */
    constructor ()
      ensures Valid() && fresh(fdArray) && Fresh(fdArray[..]) && ops == map[] && opens == map[]
      ensures fdArray.Length == 72
    {
      fdArray := new Slot[FILES_STRUCT_NENTRY](_ => Slot(FdNone, false, false, 0, 0, 0, 0));
      opens, ops := map[], map[];
      new;
      var fd := 0;
      while fd < FILES_STRUCT_NENTRY
        invariant 0 <= fd <= FILES_STRUCT_NENTRY && ops == map[] && opens == map[]
        invariant forall s | 0 <= s < fd :: fdArray[s].status.FdNone? && fdArray[s].openCount == 0 && fdArray[s].fd == s
      {
        fdArray[fd] := fdArray[fd].(openCount := 0, status := FdNone, fd := fd);
        fd := fd + 1;
      }
      FreshIsOk(fdArray[..]);
    }

    /** fd_array_alloc */
    method FdArrayAlloc(fd0: int) returns (ret: int, s: nat)
      requires forall k | 0 <= k < fdArray.Length :: fdArray[k].status.FdNone? ==> fdArray[k].openCount == 0
      modifies fdArray
      ensures ret == AllocResult(old(fdArray[..]), fd0).0
      ensures ret == 0 ==>
              s == AllocResult(old(fdArray[..]), fd0).1 && s < fdArray.Length && State() == Allocated(old(State()), s)
      ensures ret != 0 ==> State() == old(State())
    {
      ghost var slots := fdArray[..];
      var fd := fd0;
      s := 0;
      if fd == NO_FD {
        fd := 0;
        while fd < fdArray.Length && !fdArray[fd].status.FdNone?
          invariant 0 <= fd <= fdArray.Length && FirstFree(slots, 0) == FirstFree(slots, fd)
        {
          fd := fd + 1;
        }
        if fd == fdArray.Length {
          return -E_MAX_OPEN, 0;
        }
      } else if 0 <= fd < fdArray.Length {
        if !fdArray[fd].status.FdNone? {
          return -E_BUSY, 0;
        }
      } else {
        return -E_INVAL, 0;
      }
      assert fdArray[fd].openCount == 0;
      fdArray[fd] := fdArray[fd].(status := FdInit, node := 0);
      ret, s := 0, fd;
    }

    /** vfs_close; the open count that vop_open_dec checks is positive. */
    method VfsClose(node: nat)
      requires Opens(opens, node) > 0
      modifies this`opens
      ensures opens == AddOpens(old(opens), node, -1)
    {
      opens := AddOpens(opens, node, -1);
    }

    /** fd_array_free up to vfs_close, which is called for a closed slot; any other is free at once. */
    method BeginFdArrayFree(s: nat) returns (closing: bool)
      requires s < fdArray.Length && (fdArray[s].status.FdInit? || fdArray[s].status.FdClosed?)
               && fdArray[s].openCount == 0
      modifies fdArray
      ensures closing == old(fdArray[s].status.FdClosed?)
      ensures State() == if closing then old(State()) else Freed(old(State()), s)
    {
      assert fdArray[s].status.FdInit? || fdArray[s].status.FdClosed?;
      assert fdArray[s].openCount == 0;
      if fdArray[s].status.FdClosed? {
        return true;
      }
      EndFdArrayFree(s);
      closing := false;
    }

    /** The end of fd_array_free. */
    method EndFdArrayFree(s: nat)
      requires s < fdArray.Length
      modifies fdArray
      ensures State() == Freed(old(State()), s)
    {
      fdArray[s] := fdArray[s].(status := FdNone);
    }

    /** fd_array_acquire */
    method FdArrayAcquire(s: nat)
      requires s < fdArray.Length && fdArray[s].status.FdOpened?
      modifies fdArray
      ensures State() == Set(old(State()), s, old(fdArray[s]).(openCount := old(fdArray[s].openCount) + 1))
    {
      assert fdArray[s].status.FdOpened?;
      fdArray[s] := fdArray[s].(openCount := fdArray[s].openCount + 1);
    }

    /** fd_array_release by the operation id, up to vfs_close if it comes to that. */
    method FdArrayRelease(ghost id: nat, s: nat) returns (closing: bool)
      requires s < fdArray.Length && (fdArray[s].status.FdOpened? || fdArray[s].status.FdClosed?)
               && fdArray[s].openCount > 0
      requires fdArray[s].status.FdOpened? ==> fdArray[s].openCount > 1
      modifies this`ops, fdArray
      ensures State() == Released(old(State()), id, s)
      ensures closing <==> old(fdArray[s].openCount) == 1
    {
      assert fdArray[s].status.FdOpened? || fdArray[s].status.FdClosed?;
      assert fdArray[s].openCount > 0;
      fdArray[s] := fdArray[s].(openCount := fdArray[s].openCount - 1);
      closing := false;
      if fdArray[s].openCount == 0 {
        closing := BeginFdArrayFree(s);
      }
      ops := if closing then ops[id := Closing(s, fdArray[s].node)] else ops - {id};
    }

    /** fd_array_open */
    method FdArrayOpen(s: nat)
      requires s < fdArray.Length && fdArray[s].status.FdInit? && fdArray[s].node != 0
      modifies fdArray
      ensures State() == Opened(old(State()), s)
    {
      assert fdArray[s].status.FdInit? && fdArray[s].node != 0;
      fdArray[s] := fdArray[s].(status := FdOpened);
      fdArray[s] := fdArray[s].(openCount := fdArray[s].openCount + 1);
    }

    /** fd_array_close by the operation id, up to vfs_close if it comes to that. */
    method FdArrayClose(ghost id: nat, s: nat) returns (closing: bool)
      requires s < fdArray.Length && fdArray[s].status.FdOpened? && fdArray[s].openCount > 0
      modifies this`ops, fdArray
      ensures State() == Closed(old(State()), id, s)
      ensures closing <==> old(fdArray[s].openCount) == 1
    {
      assert fdArray[s].status.FdOpened?;
      assert fdArray[s].openCount > 0;
      fdArray[s] := fdArray[s].(status := FdClosed);
      fdArray[s] := fdArray[s].(openCount := fdArray[s].openCount - 1);
      closing := false;
      if fdArray[s].openCount == 0 {
        closing := BeginFdArrayFree(s);
      }
      ops := if closing then ops[id := Closing(s, fdArray[s].node)] else ops - {id};
    }

    /** fd_array_dup, within one table */
    method FdArrayDup(to: nat, from: nat)
      requires to < fdArray.Length && from < fdArray.Length && fdArray[to].status.FdInit?
               && fdArray[from].status.FdOpened?
      requires fdArray[from].node != 0
      modifies fdArray, this`opens
      ensures State() == Duplicated(old(State()), to, old(fdArray[from]))
    {
      assert fdArray[to].status.FdInit? && fdArray[from].status.FdOpened?;
      fdArray[to] := fdArray[to].(pos := fdArray[from].pos, readable := fdArray[from].readable,
                                  writable := fdArray[from].writable);
      var node := fdArray[from].node;
      opens := AddOpens(opens, node, 1);
      fdArray[to] := fdArray[to].(node := node);
      FdArrayOpen(to);
    }

    /** fd2file */
    method Fd2File(fd: int) returns (ret: int, s: nat)
      ensures ret == (if IsFile(fdArray[..], fd) then 0 else -E_INVAL) && (ret == 0 ==> s == fd)
    {
      if 0 <= fd < fdArray.Length {
        if fdArray[fd].status.FdOpened? && fdArray[fd].fd == fd {
          return 0, fd;
        }
      }
      ret, s := -E_INVAL, 0;
    }
  
    /** What the assertions on a slot need. */
    lemma SlotFacts(s: nat)
      requires Valid() && s < fdArray.Length
      ensures SlotOk(fdArray[s], s, ops)
      ensures HoldsNode(fdArray[s], fdArray[s].node) ==> Opens(opens, fdArray[s].node) > 0
      ensures fdArray[s].status.FdNone? ==> fdArray[s].openCount == 0
    {
      var t := State();
      assert SlotOk(t.slots[s], s, t.ops);
      assert NodeOk(t, fdArray[s].node);
      if HoldsNode(fdArray[s], fdArray[s].node) { CountPositive(t.slots, s, fdArray[s].node); }
    }

    lemma FreeSlotsUncounted()
      requires Valid()
      ensures forall k | 0 <= k < fdArray.Length :: fdArray[k].status.FdNone? ==> fdArray[k].openCount == 0
    {
      forall k | 0 <= k < fdArray.Length ensures fdArray[k].status.FdNone? ==> fdArray[k].openCount == 0 {
        SlotFacts(k);
      }
    }

    lemma UseFacts(id: nat)
      requires Valid() && id in ops && ops[id].Using?
      ensures var s := ops[id].slot;
              && s < fdArray.Length && HoldsNode(fdArray[s], ops[id].node) && Opens(opens, fdArray[s].node) > 0
              && fdArray[s].openCount > if fdArray[s].status.FdOpened? then 1 else 0
    {
      var t, s := State(), ops[id].slot;
      assert OpOk(t.slots, t.ops[id]);
      SlotFacts(s);
      assert id in InFlight(ops, s);
    }

    // ---------- steps of the file operations ----------
    // The operation id is in flight between its steps; the other parameters are its local variables
    // and what the file system has returned.

    /** file_open up to vfs_open; accmode is open_flags & O_ACCMODE. */
    method BeginFileOpen(ghost id: nat, accmode: nat) returns (ret: int, s: nat, readable: bool, writable: bool)
      requires Valid() && id !in ops && accmode < 4
      modifies this`ops, fdArray
      ensures Valid()
      ensures accmode == 3 ==> ret == -3 && State() == old(State())
      ensures accmode < 3 ==> State() == Next(old(State()), BeginOpen(id, accmode != 1, accmode != 0))
      ensures accmode < 3 ==> ret == 0 || ret == -22
      ensures ret == 0 ==> id in ops && ops[id] == Opening(s, readable, writable)
      ensures ret == 0 ==> readable == (accmode in {0, 2}) && writable == (accmode in {1, 2})
      ensures ret == -22 ==> forall k | 0 <= k < fdArray.Length :: !fdArray[k].status.FdNone?
    {
      readable, writable, s := false, false, 0;
      match accmode {
        case 0 => readable := true;
        case 1 => writable := true;
        case 2 => readable, writable := true, true;
        case _ => return -E_INVAL, 0, false, false;
      }
      BeginOpenKeeps(State(), id, readable, writable);
      FreeSlotsUncounted();
      ret, s := FdArrayAlloc(NO_FD);
      if ret == 0 {
        ops := ops[id := Opening(s, readable, writable)];
      }
    }

    /** The last part of file_open. */
    method FinishFileOpen(s: nat, node: nat, pos: int, readable: bool, writable: bool) returns (fd: int)
      requires s < fdArray.Length && fdArray[s].status.FdInit? && node != 0 && fdArray[s].fd == s
      modifies fdArray
      ensures State() == Finished(old(State()), s, node, pos, readable, writable) && fd == s
    {
      fdArray[s] := fdArray[s].(pos := pos);
      fdArray[s] := fdArray[s].(node := node);
      fdArray[s] := fdArray[s].(readable := readable);
      fdArray[s] := fdArray[s].(writable := writable);
      FdArrayOpen(s);
      fd := fdArray[s].fd;
    }

    /** file_open after vfs_open, which has failed if node is NULL. With append, vop_fstat comes next. */
    method FileOpened(ghost id: nat, s: nat, readable: bool, writable: bool, node: nat, append: bool) returns (fd: int)
      requires Valid() && id in ops && ops[id] == Opening(s, readable, writable)
      modifies this, fdArray
      ensures Valid() && s < fdArray.Length && State() == Next(old(State()), VfsOpened(id, node, append))
      ensures node != 0 && !append ==> fd == s && fdArray[fd] == Slot(FdOpened, readable, writable, fd, 0, node, 1)
    {
      OneOpener(State(), id);
      VfsOpenedKeeps(State(), id, node, append);
      fd := 0;
      if node == 0 {
        var closing := BeginFdArrayFree(s);
        ops := ops - {id};
        return;
      }
      opens := AddOpens(opens, node, 1);
      if append {
        ops := ops[id := Checking(s, readable, writable, node)];
        return;
      }
      fd := FinishFileOpen(s, node, 0, readable, writable);
      ops := ops - {id};
    }

    /** file_open after vop_fstat; where that has failed, up to vfs_close. */
    method FileStatted(ghost id: nat, s: nat, readable: bool, writable: bool, node: nat, size: Option<nat>)
      returns (fd: int)
      requires Valid() && id in ops && ops[id] == Checking(s, readable, writable, node)
      modifies this`ops, fdArray
      ensures Valid() && s < fdArray.Length && State() == Next(old(State()), Statted(id, size))
      ensures size.Some? ==> fd == s && fdArray[fd] == Slot(FdOpened, readable, writable, fd, size.value, node, 1)
    {
      OneOpener(State(), id);
      StattedKeeps(State(), id, size);
      OpFacts(id);
      match size {
        case None =>
          ops := ops[id := Abandoning(s, node)];
          fd := 0;
        case Some(n) =>
          fd := FinishFileOpen(s, node, n, readable, writable);
          ops := ops - {id};
      }
    }

    /** The vfs_close of the operation id, and the rest of fd_array_free: at the end of file_close, of a
        last use, or of file_open where vop_fstat has failed. */
    method EndVfsClose(ghost id: nat, s: nat, node: nat)
      requires Valid() && id in ops && (ops[id] == Closing(s, node) || ops[id] == Abandoning(s, node))
      modifies this, fdArray
      ensures Valid() && State() == Next(old(State()), VfsClosed(id))
    {
      OpFacts(id);
      ghost var t := State();
      VfsClosedKeeps(t, id);
      VfsClose(node);
      if fdArray[s].status.FdInit? {
        var closing := BeginFdArrayFree(s);
      } else {
        EndFdArrayFree(s);
      }
      ops := ops - {id};
      assert State() == VfsClosedDone(t, id);
    }

    /** An operation whose node is its own: the node is open, and the slot waits for it. */
    lemma OpFacts(id: nat)
      requires Valid() && id in ops && (ops[id].Checking? || ops[id].Abandoning? || ops[id].Closing?)
      ensures Opens(opens, ops[id].node) > 0 && ops[id].node != 0 && ops[id].slot < fdArray.Length
      ensures fdArray[ops[id].slot].openCount == 0
      ensures if ops[id].Closing? then fdArray[ops[id].slot].status.FdClosed? else fdArray[ops[id].slot].status.FdInit?
    {
      var t := State();
      assert OpOk(t.slots, t.ops[id]) && NodeOk(t, ops[id].node);
      if ops[id].Closing? {
        OneCloser(t, id);
        SlotFacts(ops[id].slot);
      } else {
        OneOpener(t, id);
        assert id in Carriers(ops, ops[id].node);
      }
    }

    /** file_close up to vfs_close, if it comes to that: id is then in flight. */
    method FileClose(ghost id: nat, fd: int) returns (ret: int, closing: bool)
      requires Valid() && id !in ops
      modifies this`ops, fdArray
      ensures Valid() && State() == Next(old(State()), Close(id, fd))
      ensures ret == if old(IsFile(fdArray[..], fd)) then 0 else -3
      ensures closing <==> id in ops
      ensures closing ==> ret == 0 && ops[id] == Closing(fd, old(fdArray[fd].node))
    {
      var s;
      ret, s := Fd2File(fd);
      closing := false;
      if ret == 0 {
        SlotFacts(s);
        CloseKeeps(State(), id, fd);
        closing := FdArrayClose(id, s);
      }
    }

    /** The start of file_read, file_write, file_seek, file_fstat, file_fsync and file_getdirentry: up to
        the call into the file system. */
    method BeginFileUse(ghost id: nat, fd: int, read: bool, write: bool) returns (ret: int, s: nat)
      requires Valid() && id !in ops
      modifies this`ops, fdArray
      ensures Valid() && State() == Next(old(State()), BeginUse(id, fd, read, write))
      ensures ret == 0 || ret == -3
      ensures ret == 0 <==> id in ops
      ensures ret == 0 ==> s == fd && s < fdArray.Length && ops[id] == Using(s, fdArray[s].node)
      ensures ret == 0 <==> && 0 <= fd < fdArray.Length && old(fdArray[fd]).status.FdOpened?
                            && (read ==> old(fdArray[fd]).readable) && (write ==> old(fdArray[fd]).writable)
    {
      BeginUseKeeps(State(), id, fd, read, write);
      ret, s := Fd2File(fd);
      if ret != 0 {
        return;
      }
      if read && !fdArray[s].readable {
        return -E_INVAL, 0;
      }
      if write && !fdArray[s].writable {
        return -E_INVAL, 0;
      }
      FdArrayAcquire(s);
      ops := ops[id := Using(s, fdArray[s].node)];
    }

    /** The end of file_read and file_write, with what iobuf_used returns, and with 0 of file_fstat,
        file_fsync and file_getdirentry. */
    method EndFileUse(ghost id: nat, s: nat, copied: nat) returns (closing: bool)
      requires Valid() && id in ops && ops[id].Using? && ops[id].slot == s
      modifies this`ops, fdArray
      ensures Valid() && s < fdArray.Length && State() == Next(old(State()), EndUse(id, copied))
      ensures fdArray[s].pos == old(fdArray[s]).pos + if old(fdArray[s]).status.FdOpened? then copied else 0
      ensures closing <==> id in ops
      ensures closing ==> ops[id] == Closing(s, old(ops[id].node))
    {
      hide Inv;
      UseFacts(id);
      StepKeeps(State(), EndUse(id, copied));
      ghost var t' := Next(State(), EndUse(id, copied));
      if fdArray[s].status.FdOpened? {
        fdArray[s] := fdArray[s].(pos := fdArray[s].pos + copied);
      }
      closing := FdArrayRelease(id, s);
      assert State() == t';
    }

    /** The switch of file_seek: where to go from the start, the position or the end of the file, whose size
        is None where vop_fstat fails. */
    method SeekTarget(s: nat, offset: int, whence: int, size: Option<int>) returns (pos: Option<int>)
      requires s < fdArray.Length
      ensures whence == 0 ==> pos == Some(offset)
      ensures whence == 1 ==> pos == Some(fdArray[s].pos + offset)
      ensures whence == 2 ==> pos == match size case None => None case Some(n) => Some(n + offset)
      ensures whence !in {0, 1, 2} ==> pos.None?
    {
      match whence {
        case 0 => pos := Some(offset);
        case 1 => pos := Some(offset + fdArray[s].pos);
        case 2 => pos := if size.Some? then Some(offset + size.value) else None;
        case _ => pos := None;
      }
    }

    /** The end of file_seek; newPos is None where it fails. */
    method EndFileSeek(ghost id: nat, s: nat, newPos: Option<int>) returns (closing: bool)
      requires Valid() && id in ops && ops[id].Using? && ops[id].slot == s
      modifies this`ops, fdArray
      ensures Valid() && s < fdArray.Length && State() == Next(old(State()), EndSeek(id, newPos))
      ensures fdArray[s].pos == match newPos case None => old(fdArray[s]).pos case Some(p) => p
      ensures closing <==> id in ops
      ensures closing ==> ops[id] == Closing(s, old(ops[id].node))
    {
      hide Inv;
      UseFacts(id);
      StepKeeps(State(), EndSeek(id, newPos));
      ghost var t' := Next(State(), EndSeek(id, newPos));
      if newPos.Some? {
        fdArray[s] := fdArray[s].(pos := newPos.value);
      }
      closing := FdArrayRelease(id, s);
      assert State() == t';
    }

    /** file_dup */
    method FileDup(fd1: int, fd2: int) returns (ret: int)
      requires Valid()
      modifies this`opens, fdArray
      ensures Valid() && State() == Next(old(State()), Dup(fd1, fd2))
      ensures ret >= 0 <==> old(IsFile(fdArray[..], fd1)) && AllocResult(old(fdArray[..]), fd2).0 == 0
      ensures ret >= 0 ==> ret == AllocResult(old(fdArray[..]), fd2).1 && IsFile(fdArray[..], ret)
    {
      DupKeeps(State(), fd1, fd2);
      FreeSlotsUncounted();
      var s1, s2;
      ret, s1 := Fd2File(fd1);
      if ret != 0 {
        return;
      }
      SlotFacts(s1);
      ret, s2 := FdArrayAlloc(fd2);
      if ret != 0 {
        return;
      }
      SlotFacts0(old(State()), s2);
      FdArrayDup(s2, s1);
      ret := fdArray[s2].fd;
    }

    lemma SlotFacts0(t: Table, s: nat)
      requires Inv(t) && s < |t.slots|
      ensures t.slots[s].fd == s
    {
      assert SlotOk(t.slots[s], s, t.ops);
    }

    // ---------- fs.c ----------

    /** files_closeall: all but standard input and output; id names each close in turn. */
    method FilesCloseAll(ghost id: nat)
      requires Valid() && id !in ops
      modifies this, fdArray
      ensures Valid() && State() == ClosedFrom(old(State()), id, 2)
    {
      CloseSlotsFrom(id, 2);
    }

    /** The loop over the table that files_closeall and files_destroy share. */
    method CloseSlotsFrom(ghost id: nat, start: nat)
      requires Valid() && start <= fdArray.Length && id !in ops
      modifies this, fdArray
      ensures Valid() && State() == ClosedFrom(old(State()), id, start)
    {
      hide Inv, ClosedAlone;
      ghost var t0 := State();
      ClosedFromKeeps(t0, id, start);
      var i := start;
      while i < fdArray.Length
        invariant start <= i <= fdArray.Length && Valid() && ops == old(ops) && id !in ops
        invariant ClosedFrom(State(), id, i) == ClosedFrom(t0, id, start)
      {
        if fdArray[i].status.FdOpened? {
          CloseSlot(id, i);
        }
        i := i + 1;
      }
    }

    /** fd_array_close of an open slot from beginning to end. */
    method CloseSlot(ghost id: nat, i: nat)
      requires Valid() && i < fdArray.Length && fdArray[i].status.FdOpened? && id !in ops
      modifies this, fdArray
      ensures Valid() && State() == ClosedAlone(old(State()), id, i) && ops == old(ops)
    {
      SlotFacts(i);
      ClosedAloneKeeps(State(), id, i);
      CloseKeeps(State(), id, i);
      var node := fdArray[i].node;
      var closing := FdArrayClose(id, i);
      if closing {
        EndVfsClose(id, i, node);
      }
    }

    /** files_destroy. Its assertion that every slot is free holds for all tables with nothing in flight,
        and by AllFreeIffIdle for no other. */
    method FilesDestroy()
      requires Valid() && ops == map[]
      modifies this, fdArray
      ensures forall s | 0 <= s < fdArray.Length :: fdArray[s].status.FdNone?
      ensures forall node: nat :: Opens(opens, node) == 0
    {
      AllFreeIffIdle(State(), 0);
      ClosedFromKeeps(State(), 0, 0);
      CloseSlotsFrom(0, 0);
      assert forall s | 0 <= s < fdArray.Length :: State().slots[s].status.FdNone?;
      forall node: nat ensures Opens(opens, node) == 0 {
        assert NodeOk(State(), node);
        FreshHoldsNothing(fdArray[..], node);
      }
    }
  }

  /** dup_files into a table just made: the copies are open once and share position, modes and node. */
  method DupFiles(to: FilesStruct, from: FilesStruct)
    requires to.Valid() && from.Valid() && to.fdArray != from.fdArray && to != from
    requires Fresh(to.fdArray[..]) && to.ops == map[]
    modifies to`opens, to.fdArray
    ensures to.Valid() && from.State() == old(from.State())
    ensures forall s | 0 <= s < FILES_STRUCT_NENTRY :: IsCopy(to.fdArray[s], from.fdArray[s], s)
    ensures forall node: nat :: Opens(to.opens, node) == CountHolding(to.fdArray[..], node)
  {
    var i := 0;
    while i < FILES_STRUCT_NENTRY
      invariant 0 <= i <= FILES_STRUCT_NENTRY && to.Valid() && to.ops == map[] && from.State() == old(from.State())
      invariant forall s | 0 <= s < i :: IsCopy(to.fdArray[s], from.fdArray[s], s)
      invariant forall s | i <= s < FILES_STRUCT_NENTRY ::
                to.fdArray[s].status.FdNone? && to.fdArray[s].openCount == 0 && to.fdArray[s].fd == s
    {
      if from.fdArray[i].status.FdOpened? {
        from.SlotFacts(i);
        CopyKeeps(to.State(), i, from.fdArray[i]);
        CopySlot(to, from, i);
      }
      i := i + 1;
    }
    forall node: nat ensures Opens(to.opens, node) == CountHolding(to.fdArray[..], node) {
      assert NodeOk(to.State(), node);
    }
  }

  predicate IsCopy(to: Slot, from: Slot, s: nat) {
    if from.status.FdOpened? then
      to == Slot(FdOpened, from.readable, from.writable, s, from.pos, from.node, 1)
    else to.status.FdNone? && to.openCount == 0 && to.fd == s
  }

  /** fd_array_dup between two tables. */
  method CopySlot(to: FilesStruct, from: FilesStruct, i: nat)
    requires to.fdArray != from.fdArray && i < to.fdArray.Length && i < from.fdArray.Length
    requires from.fdArray[i].status.FdOpened? && from.fdArray[i].node != 0
    modifies to`opens, to.fdArray
    ensures to.State() == Duplicated(Allocated(old(to.State()), i), i, from.fdArray[i])
  {
    to.fdArray[i] := to.fdArray[i].(status := FdInit);
    assert to.fdArray[i].status.FdInit? && from.fdArray[i].status.FdOpened?;
    var f := from.fdArray[i];
    to.fdArray[i] := to.fdArray[i].(pos := f.pos, readable := f.readable, writable := f.writable);
    to.opens := AddOpens(to.opens, f.node, 1);
    to.fdArray[i] := to.fdArray[i].(node := f.node);
    to.FdArrayOpen(i);
  }
}
