// Blocks of bytes and the 32-bit little-endian words and bits in them, as the image builder writes
// them and the kernel reads them.
module DiskWords {
  import opened Powers

  const BLKSIZE: nat := 4096
  const NENTRY: nat := 1024
  const WORD_BITS: nat := 32
  const BLKBITS: nat := 32768
  const U32: nat := 0x1_0000_0000

  function ByteOf(w: nat, k: nat): (b: nat)
    ensures b < 256
  {
    if k == 0 then w % 256 else if k == 1 then w / 256 % 256 else if k == 2 then w / 0x1_0000 % 256
      else w / 0x100_0000 % 256
  }

  function BytesOf(words: seq<nat>): (bytes: seq<nat>)
    ensures |bytes| == 4 * |words|
  {
    seq(4 * |words|, i requires 0 <= i < 4 * |words| => ByteOf(words[i / 4], i % 4))
  }

  function WordAt(bytes: seq<nat>, k: nat): nat {
    if 4 * k + 3 < |bytes| then
      bytes[4 * k] + 0x100 * bytes[4 * k + 1] + 0x1_0000 * bytes[4 * k + 2] + 0x100_0000 * bytes[4 * k + 3]
    else 0
  }

  lemma WordOfBytes(w: nat)
    requires w < U32
    ensures ByteOf(w, 0) + 0x100 * ByteOf(w, 1) + 0x1_0000 * ByteOf(w, 2) + 0x100_0000 * ByteOf(w, 3) == w
  {
    var h := w / 256;
    assert w / 0x1_0000 == h / 256;
    var g := h / 256;
    assert w / 0x100_0000 == g / 256;
  }

  /** What comes after the words in a block does not matter. */
  lemma WordReadsBack(words: seq<nat>, rest: seq<nat>, k: nat)
    requires k < |words| && words[k] < U32
    ensures WordAt(BytesOf(words) + rest, k) == words[k]
  {
    var b := BytesOf(words) + rest;
    assert b[4 * k] == ByteOf(words[k], 0) && b[4 * k + 1] == ByteOf(words[k], 1);
    assert b[4 * k + 2] == ByteOf(words[k], 2) && b[4 * k + 3] == ByteOf(words[k], 3);
    WordOfBytes(words[k]);
  }

  function Zeros(n: nat): (z: seq<nat>)
    ensures |z| == n && forall i | 0 <= i < n :: z[i] == 0
  {
    seq(n, _ => 0)
  }

  /** What write_block puts on the disk: a whole block, filled up with zeros. */
  function Padded(data: seq<nat>): (block: seq<nat>)
    requires |data| <= BLKSIZE
    ensures |block| == BLKSIZE && block[..|data|] == data && forall i | |data| <= i < BLKSIZE :: block[i] == 0
  {
    data + Zeros(BLKSIZE - |data|)
  }

  // ---------- bits ----------

  /** w & (1 << k) is not zero */
  predicate Bit(w: nat, k: nat) {
    if k == 0 then w % 2 == 1 else Bit(w / 2, k - 1)
  }

  /** w | (1 << k) */
  function SetBit(w: nat, k: nat): nat {
    if k == 0 then w / 2 * 2 + 1 else 2 * SetBit(w / 2, k - 1) + w % 2
  }

  lemma {:induction false} SetBitIs(w: nat, k: nat, i: nat)
    ensures Bit(SetBit(w, k), i) <==> i == k || Bit(w, i)
  {
    if k == 0 {
      assert (w / 2 * 2 + 1) / 2 == w / 2;
    } else {
      var s := SetBit(w / 2, k - 1);
      assert (2 * s + w % 2) / 2 == s;
      if i > 0 { SetBitIs(w / 2, k - 1, i - 1); }
    }
  }

  lemma {:induction false} SetBitBound(w: nat, k: nat, n: nat)
    requires k < n && w < Pow2(n)
    ensures SetBit(w, k) < Pow2(n)
  {
    if k > 0 { SetBitBound(w / 2, k - 1, n - 1); }
  }

  lemma {:induction false} ZeroHasNoBit(k: nat)
    ensures !Bit(0, k)
  {
    if k > 0 { ZeroHasNoBit(k - 1); }
  }

  lemma PowersMeet()
    ensures Pow2(32) == U32
  {
    assert Pow2(8) == 256;
    assert Pow2(16) == 256 * Pow2(8);
    assert Pow2(24) == 256 * Pow2(16);
    assert Pow2(32) == 256 * Pow2(24);
  }

  /** Bit j of a bitmap that starts at the given bytes, as bitmap_test finds it. */
  predicate BitAt(bytes: seq<nat>, j: nat) {
    Bit(WordAt(bytes, j / WORD_BITS), j % WORD_BITS)
  }

  // ---------- bits as they lie in bytes ----------

  lemma {:induction false} BitSplit(x: nat, y: nat, n: nat, k: nat)
    requires x < Pow2(n)
    ensures Bit(x + Pow2(n) * y, k) <==> if k < n then Bit(x, k) else Bit(y, k - n)
  {
    if n > 0 {
      var p := Pow2(n - 1);
      assert Pow2(n) * y == 2 * (p * y);
      assert (x + 2 * (p * y)) / 2 == x / 2 + p * y && (x + 2 * (p * y)) % 2 == x % 2;
      if k > 0 { BitSplit(x / 2, y, n - 1, k - 1); }
    } else {
      assert x == 0 && Pow2(0) * y == y;
    }
  }

  lemma {:induction false} BitIsDivision(w: nat, k: nat)
    ensures Bit(w, k) <==> w / Pow2(k) % 2 == 1
  {
    if k > 0 {
      BitIsDivision(w / 2, k - 1);
      HalfFirst(w, Pow2(k - 1));
    } else {
      assert w / 1 == w;
    }
  }

  lemma HalfFirst(w: nat, p: nat)
    requires p > 0
    ensures w / (2 * p) == w / 2 / p
  {
    var h := w / 2;
    var q, r := h / p, h % p;
    assert h == p * q + r;
    assert w == 2 * h + w % 2;
    assert w == (2 * p) * q + (2 * r + w % 2);
    Quotient(2 * p, q, 2 * r + w % 2);
  }

  lemma Quotient(d: nat, q: nat, r: nat)
    requires r < d
    ensures (d * q + r) / d == q
  {
    var n := d * q + r;
    var x := n / d;
    assert d * x <= n < d * x + d;
    assert d * (q + 1) == d * q + d && d * (x + 1) == d * x + d;
    if x > q { Grows(d, q + 1, x); }
    if x < q { Grows(d, x + 1, q); }
  }

  lemma Grows(d: nat, a: int, b: int)
    requires a <= b
    ensures d * a <= d * b
  {
  }

  lemma EightBits()
    ensures Pow2(8) == 256
  {
    assert Pow2(4) == 16;
  }

  /** Bit j of a bitmap is bit j % 8 of its byte j / 8, counted from the lowest. */
  lemma BitInByte(bytes: seq<nat>, j: nat)
    requires 4 * (j / 32) + 3 < |bytes| && forall i | 0 <= i < |bytes| :: bytes[i] < 256
    ensures j / 8 < |bytes| && (BitAt(bytes, j) <==> bytes[j / 8] / Pow2(j % 8) % 2 == 1)
  {
    var q, m, s := j / 32, j % 32 / 8, j % 8;
    assert j / 8 == 4 * q + m && j % 32 == 8 * m + s;
    var b0, b1, b2, b3 := bytes[4 * q], bytes[4 * q + 1], bytes[4 * q + 2], bytes[4 * q + 3];
    WordBit4(b0, b1, b2, b3, m, s);
    BitIsDivision(bytes[j / 8], s);
  }

  lemma WordBit4(b0: nat, b1: nat, b2: nat, b3: nat, m: nat, s: nat)
    requires b0 < 256 && b1 < 256 && b2 < 256 && b3 < 256 && m < 4 && s < 8
    ensures var w := b0 + 0x100 * b1 + 0x1_0000 * b2 + 0x100_0000 * b3;
            Bit(w, 8 * m + s) <==> Bit(if m == 0 then b0 else if m == 1 then b1 else if m == 2 then b2 else b3, s)
  {
    EightBits();
    hide Bit, Pow2;
    var w := b0 + 0x100 * b1 + 0x1_0000 * b2 + 0x100_0000 * b3;
    var w1, w2 := b1 + 0x100 * (b2 + 0x100 * b3), b2 + 0x100 * b3;
    assert w == b0 + 0x100 * w1;
    BitSplit(b0, w1, 8, 8 * m + s);
    if m >= 1 { BitSplit(b1, w2, 8, 8 * (m - 1) + s); }
    if m >= 2 { BitSplit(b2, b3, 8, 8 * (m - 2) + s); }
  }
}
