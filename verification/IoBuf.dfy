// Transfers between a buffer and memory: kern/fs/iobuf.c, with memmove and memset of libs/string.c.
// Memory is one array of bytes, and pointers are places in it.
module IoBuf {
  const E_NO_MEM: int := 4

  /** Memory with the given bytes written from dst on. */
  function Overwritten(mem: seq<nat>, dst: nat, bytes: seq<nat>): (r: seq<nat>)
    requires dst + |bytes| <= |mem|
    ensures |r| == |mem| && r[dst..dst + |bytes|] == bytes
    ensures forall k | 0 <= k < |mem| && !(dst <= k < dst + |bytes|) :: r[k] == mem[k]
  {
    mem[..dst] + bytes + mem[dst + |bytes|..]
  }

  /** memmove: the old bytes of the source arrive, however the two regions overlap. */
  method MemMove(mem: array<nat>, dst: nat, src: nat, n0: nat)
    requires dst + n0 <= mem.Length && src + n0 <= mem.Length
    modifies mem
    ensures mem[..] == Overwritten(old(mem[..]), dst, old(mem[..])[src..src + n0])
  {
    ghost var was := mem[..];
    var s, d, n := src, dst, n0;
    if s < d && s + n > d {
      s, d := s + n, d + n;
      while n > 0
        invariant 0 <= n <= n0 && s == src + n && d == dst + n
        invariant forall k | d <= k < dst + n0 :: mem[k] == was[k - dst + src]
        invariant forall k | 0 <= k < mem.Length && !(d <= k < dst + n0) :: mem[k] == was[k]
      {
        s, d := s - 1, d - 1;
        assert mem[s] == was[s];
        mem[d] := mem[s];
        n := n - 1;
      }
    } else {
      while n > 0
        invariant 0 <= n <= n0 && s == src + (n0 - n) && d == dst + (n0 - n)
        invariant forall k | dst <= k < d :: mem[k] == was[k - dst + src]
        invariant forall k | 0 <= k < mem.Length && !(dst <= k < d) :: mem[k] == was[k]
      {
        assert mem[s] == was[s];
        mem[d] := mem[s];
        s, d := s + 1, d + 1;
        n := n - 1;
      }
    }
    assert mem[..] == Overwritten(was, dst, was[src..src + n0]);
  }

  /** memset */
  method MemSet(mem: array<nat>, s: nat, c: nat, n0: nat)
    requires s + n0 <= mem.Length
    modifies mem
    ensures mem[..] == Overwritten(old(mem[..]), s, seq(n0, _ => c))
  {
    var p, n := s, n0;
    while n > 0
      invariant 0 <= n <= n0 && p == s + (n0 - n)
      invariant forall k | 0 <= k < mem.Length :: mem[k] == if s <= k < p then c else old(mem[..])[k]
    {
      mem[p] := c;
      p, n := p + 1, n - 1;
    }
  }

  // ---------- the buffer ----------

  /** The fields of struct iobuf. */
  datatype Io = Io(base: nat, offset: int, len: nat, resid: nat)

  function Amount(io: Io, len: nat): nat {
    if io.resid > len then len else io.resid
  }

  function Skipped(io: Io, n: nat): Io
    requires n <= io.resid
  {
    Io(io.base + n, io.offset + n, io.len, io.resid - n)
  }

  class IoBuf {
    var base: nat
    var offset: int
    var len: nat
    var resid: nat

    /** iobuf_init */
    constructor (base: nat, len: nat, offset: int)
      ensures Value() == Io(base, offset, len, len)
    {
      this.base, this.offset, this.len, resid := base, offset, len, len;
    }

    function Value(): Io
      reads this
    {
      Io(base, offset, len, resid)
    }

    /** iobuf_skip */
    method Skip(n: nat)
      requires n <= resid
      modifies this
      ensures Value() == Skipped(old(Value()), n)
    {
      assert resid >= n;
      base, offset, resid := base + n, offset + n, resid - n;
    }

    /** iobuf_move; m2b is the direction from memory to the buffer. */
    method Move(mem: array<nat>, data: nat, len0: nat, m2b: bool) returns (ret: int, copied: nat)
      requires base + resid <= mem.Length && data + Amount(Value(), len0) <= mem.Length
      modifies this, mem
      ensures copied == Amount(old(Value()), len0) && Value() == Skipped(old(Value()), copied)
      ensures copied == if len0 <= old(resid) then len0 else old(resid)
      ensures base == old(base) + copied && offset == old(offset) + copied && resid == old(resid) - copied
              && len == old(len)
      ensures ret == if len0 <= old(resid) then 0 else -4
      ensures m2b ==> mem[..] == Overwritten(old(mem[..]), old(base), old(mem[..])[data..data + copied])
      ensures !m2b ==> mem[..] == Overwritten(old(mem[..]), data, old(mem[..])[old(base)..old(base) + copied])
      ensures m2b && data + len0 <= mem.Length ==>
                World(mem[..], Value()) == MovedIn(old(World(mem[..], Value())), old(mem[..])[data..data + len0])
      ensures !m2b ==> World(mem[..], Value()) == MovedOut(old(World(mem[..], Value())), data, len0)
    {
      hide Overwritten, MovedIn, MovedOut;
      ghost var mem0, io0 := mem[..], Value();
      NothingWritten(mem[..], base);
      NothingWritten(mem[..], data);
      var len := len0;
      var alen := resid;
      if alen > len {
        alen := len;
      }
      if alen > 0 {
        var src, dst := base, data;
        if m2b {
          src, dst := dst, src;
        }
        MemMove(mem, dst, src, alen);
        Skip(alen);
        len := len - alen;
      }
      copied := alen;
      ret := if len == 0 then 0 else -E_NO_MEM;
      if m2b {
        IsMovedIn(mem0, io0, data, len0, mem[..]);
      } else {
        IsMovedOut(mem0, io0, data, len0, mem[..]);
      }
    }

    /** iobuf_move_zeros */
    method MoveZeros(mem: array<nat>, len0: nat) returns (ret: int, copied: nat)
      requires base + resid <= mem.Length
      modifies this, mem
      ensures copied == Amount(old(Value()), len0) && Value() == Skipped(old(Value()), copied)
      ensures copied == if len0 <= old(resid) then len0 else old(resid)
      ensures base == old(base) + copied && offset == old(offset) + copied && resid == old(resid) - copied
              && len == old(len)
      ensures ret == if len0 <= old(resid) then 0 else -4
      ensures mem[..] == Overwritten(old(mem[..]), old(base), seq(copied, _ => 0))
    {
      var len := len0;
      var alen := resid;
      if alen > len {
        alen := len;
      }
      if alen > 0 {
        MemSet(mem, base, 0, alen);
        Skip(alen);
        len := len - alen;
      }
      copied := alen;
      ret := if len == 0 then 0 else -E_NO_MEM;
    }
  }

  // ---------- runs of transfers ----------

  datatype World = World(mem: seq<nat>, io: Io)

  predicate Fits(w: World) {
    w.io.base + w.io.resid <= |w.mem|
  }

  /** A move into the buffer, of bytes found anywhere in memory. */
  function MovedIn(w: World, bytes: seq<nat>): (w': World)
    requires Fits(w)
    ensures Fits(w')
  {
    var n := Amount(w.io, |bytes|);
    World(Overwritten(w.mem, w.io.base, bytes[..n]), Skipped(w.io, n))
  }

  function RunIn(w: World, pieces: seq<seq<nat>>): (w': World)
    requires Fits(w)
    ensures Fits(w')
    decreases |pieces|
  {
    if pieces == [] then w else RunIn(MovedIn(w, pieces[0]), pieces[1..])
  }

  function Concat(pieces: seq<seq<nat>>): seq<nat> {
    if pieces == [] then [] else pieces[0] + Concat(pieces[1..])
  }

  /** Any sequence of moves into the buffer writes the pieces one behind the other, as far as there was
      room, and nothing else; the offset has moved by exactly what io_len - io_resid has grown. */
  lemma {:induction false} PiecesConcatenate(w: World, pieces: seq<seq<nat>>)
    requires Fits(w)
    ensures var all := Concat(pieces);
            var n := Amount(w.io, |all|);
            RunIn(w, pieces) == World(Overwritten(w.mem, w.io.base, all[..n]), Skipped(w.io, n))
    decreases |pieces|
  {
    hide Overwritten, RunIn;
    if pieces == [] {
      assert RunIn(w, []) == w by { RunOfNone(w); }
      NothingWritten(w.mem, w.io.base);
    } else {
      var w1, p, rest := MovedIn(w, pieces[0]), pieces[0], Concat(pieces[1..]);
      PiecesConcatenate(w1, pieces[1..]);
      var a, n := Amount(w.io, |p|), Amount(w1.io, |rest|);
      PrefixOfBoth(p, rest, a, n);
      WrittenBehind(w.mem, w.io.base, p[..a], rest[..n]);
      assert Concat(pieces) == p + rest && Amount(w.io, |p + rest|) == a + n;
      RunOfFirst(w, pieces);
    }
  }

  /** How much arrives, and where the buffer stands afterwards. */
  lemma PiecesArrive(w: World, pieces: seq<seq<nat>>)
    requires Fits(w)
    ensures var all := Concat(pieces);
            var n := if |all| <= w.io.resid then |all| else w.io.resid;
            && RunIn(w, pieces).io == Io(w.io.base + n, w.io.offset + n, w.io.len, w.io.resid - n)
            && RunIn(w, pieces).mem[w.io.base..w.io.base + n] == all[..n]
  {
    PiecesConcatenate(w, pieces);
  }

  lemma RunOfNone(w: World)
    requires Fits(w)
    ensures RunIn(w, []) == w
  {
  }

  lemma RunOfFirst(w: World, pieces: seq<seq<nat>>)
    requires Fits(w) && pieces != []
    ensures RunIn(w, pieces) == RunIn(MovedIn(w, pieces[0]), pieces[1..])
  {
  }

  lemma PrefixOfBoth(p: seq<nat>, rest: seq<nat>, a: nat, n: nat)
    requires a <= |p| && n <= |rest| && (n > 0 ==> a == |p|)
    ensures (p + rest)[..a + n] == p[..a] + rest[..n]
  {
  }

  lemma IsMovedIn(mem: seq<nat>, io: Io, data: nat, len: nat, mem': seq<nat>)
    requires io.base + io.resid <= |mem| && data + Amount(io, len) <= |mem|
    requires mem' == Overwritten(mem, io.base, mem[data..data + Amount(io, len)])
    ensures data + len <= |mem| ==>
              World(mem', Skipped(io, Amount(io, len))) == MovedIn(World(mem, io), mem[data..data + len])
  {
    if data + len <= |mem| {
      var n := Amount(io, len);
      assert mem[data..data + len][..n] == mem[data..data + n];
    }
  }

  lemma IsMovedOut(mem: seq<nat>, io: Io, data: nat, len: nat, mem': seq<nat>)
    requires io.base + io.resid <= |mem| && data + Amount(io, len) <= |mem|
    requires mem' == Overwritten(mem, data, mem[io.base..io.base + Amount(io, len)])
    ensures World(mem', Skipped(io, Amount(io, len))) == MovedOut(World(mem, io), data, len)
  {
  }

  lemma NothingWritten(mem: seq<nat>, dst: nat)
    requires dst <= |mem|
    ensures Overwritten(mem, dst, []) == mem
  {
  }

  lemma WrittenBehind(mem: seq<nat>, dst: nat, a: seq<nat>, b: seq<nat>)
    requires dst + |a| + |b| <= |mem|
    ensures Overwritten(Overwritten(mem, dst, a), dst + |a|, b) == Overwritten(mem, dst, a + b)
  {
  }

  /** A move out of the buffer to somewhere else in memory. */
  function MovedOut(w: World, data: nat, len: nat): (w': World)
    requires Fits(w) && data + Amount(w.io, len) <= |w.mem|
    ensures Fits(w')
  {
    var n := Amount(w.io, len);
    World(Overwritten(w.mem, data, w.mem[w.io.base..w.io.base + n]), Skipped(w.io, n))
  }

  datatype Target = Target(data: nat, len: nat)

  /** The targets lie in memory and away from what is left in the buffer. */
  predicate Apart(w: World, targets: seq<Target>) {
    forall i | 0 <= i < |targets| ::
      && targets[i].data + targets[i].len <= |w.mem|
      && (targets[i].data + targets[i].len <= w.io.base || w.io.base + w.io.resid <= targets[i].data)
  }

  /** The bytes that arrive at the targets, in the order of the moves. */
  function Delivered(w: World, targets: seq<Target>): seq<nat>
    requires Fits(w) && Apart(w, targets)
    decreases |targets|
  {
    if targets == [] then []
    else
      var t := targets[0];
      var w1 := MovedOut(w, t.data, t.len);
      assert Apart(w1, targets[1..]);
      w1.mem[t.data..t.data + Amount(w.io, t.len)] + Delivered(w1, targets[1..])
  }

  function TotalLen(targets: seq<Target>): nat {
    if targets == [] then 0 else targets[0].len + TotalLen(targets[1..])
  }

  /** Any sequence of moves out of the buffer delivers its bytes in order, none twice and none left out. */
  lemma {:induction false} BufferDelivered(w: World, targets: seq<Target>)
    requires Fits(w) && Apart(w, targets)
    ensures Delivered(w, targets) == w.mem[w.io.base..w.io.base + Amount(w.io, TotalLen(targets))]
    decreases |targets|
  {
    hide Overwritten, Apart, Delivered;
    if targets == [] {
      NoneDelivered(w);
    } else {
      var t := targets[0];
      StillApart(w, targets);
      var n, w1 := Amount(w.io, t.len), MovedOut(w, t.data, t.len);
      BufferDelivered(w1, targets[1..]);
      var m := Amount(w1.io, TotalLen(targets[1..]));
      RestUntouched(w, t, m);
      Joined(w.mem, w.io.base, n, m);
      DeliveredFirst(w, targets);
      assert Amount(w.io, TotalLen(targets)) == n + m && w1.io.base == w.io.base + n;
    }
  }

  lemma NoneDelivered(w: World)
    requires Fits(w) && Apart(w, [])
    ensures Delivered(w, []) == w.mem[w.io.base..w.io.base + Amount(w.io, TotalLen([]))]
  {
  }

  lemma DeliveredFirst(w: World, targets: seq<Target>)
    requires Fits(w) && Apart(w, targets) && targets != []
    ensures var t := targets[0];
            && t.data + t.len <= |w.mem| && Apart(MovedOut(w, t.data, t.len), targets[1..])
            && Delivered(w, targets) == MovedOut(w, t.data, t.len).mem[t.data..t.data + Amount(w.io, t.len)]
                                        + Delivered(MovedOut(w, t.data, t.len), targets[1..])
  {
    StillApart(w, targets);
  }

  lemma Joined(mem: seq<nat>, base: nat, n: nat, m: nat)
    requires base + n + m <= |mem|
    ensures mem[base..base + n] + mem[base + n..base + n + m] == mem[base..base + n + m]
  {
  }

  lemma StillApart(w: World, targets: seq<Target>)
    requires Fits(w) && Apart(w, targets) && targets != []
    ensures targets[0].data + targets[0].len <= |w.mem| && Apart(w, [targets[0]])
    ensures Apart(MovedOut(w, targets[0].data, targets[0].len), targets[1..])
  {
    var t := targets[0];
    assert targets[0].data + targets[0].len <= |w.mem|;
    forall i | 0 <= i < |targets| - 1
      ensures targets[1..][i].data + targets[1..][i].len <= |w.mem|
      ensures targets[1..][i].data + targets[1..][i].len <= w.io.base || w.io.base + w.io.resid <= targets[1..][i].data
    {
      assert targets[1..][i] == targets[i + 1];
    }
  }

  lemma RestUntouched(w: World, t: Target, m: nat)
    requires Fits(w) && Apart(w, [t]) && t.data + t.len <= |w.mem| && Amount(w.io, t.len) + m <= w.io.resid
    ensures var n, w1 := Amount(w.io, t.len), MovedOut(w, t.data, t.len);
            && w1.mem[t.data..t.data + n] == w.mem[w.io.base..w.io.base + n]
            && w1.mem[w.io.base + n..w.io.base + n + m] == w.mem[w.io.base + n..w.io.base + n + m]
  {
    assert [t][0].data + [t][0].len <= |w.mem|;
  }
}
