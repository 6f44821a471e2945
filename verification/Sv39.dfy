// Addresses and page table entries of Sv39, section 4.4 of the RISC-V Privileged Architecture, as
// mmu.h and pmm.h compute them. Words are 64 bits wide.
module Sv39 {

  const PGSIZE: nat := 4096
  const PTSIZE: nat := 0x20_0000
  const WORD: nat := 0x1_0000_0000_0000_0000
  const USERBASE: nat := 0x20_0000
  const USERTOP: nat := 0x8000_0000
  const VPNS: nat := 0x800_0000
  const PTE_USER: nat := 31

  function Pdx1(la: nat): nat { la / 0x4000_0000 % 512 }

  function Pdx0(la: nat): nat { la / 0x20_0000 % 512 }

  function Ptx(la: nat): nat { la / 0x1000 % 512 }

  /** The 27-bit virtual page number that a walk looks at; the bits above it are ignored. */
  function Vpn(la: nat): (v: nat)
    ensures v < VPNS
  {
    la / PGSIZE % VPNS
  }

  function Index1(v: nat): nat { v / 0x4_0000 }

  function Index0(v: nat): nat { v / 512 % 512 }

  function IndexT(v: nat): nat { v % 512 }

  /** The three indices are the three digits of the virtual page number. */
  lemma IndicesOfVpn(la: nat)
    ensures Pdx1(la) == Index1(Vpn(la)) && Pdx0(la) == Index0(Vpn(la)) && Ptx(la) == IndexT(Vpn(la))
    ensures Pdx1(la) < 512
  {
    var p := la / PGSIZE;
    assert la / 0x4000_0000 == p / 0x4_0000;
    assert la / 0x20_0000 == p / 512;
    var v, h := p % VPNS, p / VPNS;
    assert p == h * VPNS + v;
    assert p / 0x4_0000 == h * 512 + v / 0x4_0000;
    assert p / 512 == h * 0x4_0000 + v / 512;
    assert h * 0x4_0000 == 512 * (h * 512);
    assert p % 512 == v % 512;
  }

  lemma VpnOfIndices(v: nat, w: nat)
    requires v < VPNS && w < VPNS
    requires Index1(v) == Index1(w) && Index0(v) == Index0(w) && IndexT(v) == IndexT(w)
    ensures v == w
  {
    assert v / 512 / 512 == v / 0x4_0000 && w / 512 / 512 == w / 0x4_0000;
  }

  // ---------- entries ----------

  predicate IsV(pte: nat) { pte % 2 == 1 }

  /** The page number that PTE_ADDR and PPN extract; the two bits shifted out at the top are lost. */
  function Ppn(pte: nat): nat { pte / 1024 % 0x10_0000_0000_0000 }

  /** PTE_V | perm, for permission bits that fit the ten low bits. */
  function WithV(perm: nat): nat { if perm % 2 == 1 then perm else perm + 1 }

  function PteCreate(ppn: nat, perm: nat): nat { ppn * 1024 + WithV(perm) }

  /** pte & PTE_USER: the mask is the five lowest bits. */
  function UserBits(pte: nat): nat { pte % (PTE_USER + 1) }

  /** The bit of the entry that a mask with one bit names. */
  predicate Has(pte: nat, flag: nat)
    requires flag > 0
  {
    pte / flag % 2 == 1
  }

  /** R, W, X, U, G, A, D and the two bits for software are those of the given permissions. */
  predicate Permits(pte: nat, perm: nat) {
    && (Has(pte, 0x002) <==> Has(perm, 0x002)) && (Has(pte, 0x004) <==> Has(perm, 0x004))
    && (Has(pte, 0x008) <==> Has(perm, 0x008)) && (Has(pte, 0x010) <==> Has(perm, 0x010))
    && (Has(pte, 0x020) <==> Has(perm, 0x020)) && (Has(pte, 0x040) <==> Has(perm, 0x040))
    && (Has(pte, 0x080) <==> Has(perm, 0x080)) && (Has(pte, 0x100) <==> Has(perm, 0x100))
    && (Has(pte, 0x200) <==> Has(perm, 0x200))
  }

  /** A valid entry for the page number with the given permissions, field by field. */
  predicate IsEntry(pte: nat, ppn: nat, perm: nat) {
    pte % 2 == 1 && pte / 1024 == ppn && Permits(pte, perm)
  }

  /** The same user bits V, R, W, X and U, and no others. */
  predicate UserBitsOnly(pte: nat, parent: nat) {
    && (Has(pte, 0x001) <==> Has(parent, 0x001))
    && (Has(pte, 0x002) <==> Has(parent, 0x002)) && (Has(pte, 0x004) <==> Has(parent, 0x004))
    && (Has(pte, 0x008) <==> Has(parent, 0x008)) && (Has(pte, 0x010) <==> Has(parent, 0x010))
    && !Has(pte, 0x020) && !Has(pte, 0x040) && !Has(pte, 0x080) && !Has(pte, 0x100) && !Has(pte, 0x200)
  }

  lemma PteRoundTrip(ppn: nat, perm: nat)
    requires ppn < 0x10_0000_0000_0000 && perm < 1024
    ensures IsV(PteCreate(ppn, perm)) && Ppn(PteCreate(ppn, perm)) == ppn
    ensures PteCreate(ppn, perm) % 1024 == WithV(perm)
    ensures PteCreate(ppn, perm) < WORD == 0x1_0000_0000_0000_0000
    ensures IsEntry(PteCreate(ppn, perm), ppn, perm)
  {
    hide Permits;
    EntryOfPte(ppn, perm);
    assert PteCreate(ppn, perm) / 1024 == ppn;
  }

  lemma EntryOfPte(ppn: nat, perm: nat)
    requires perm < 1024
    ensures IsEntry(PteCreate(ppn, perm), ppn, perm) && PteCreate(ppn, perm) % 1024 == WithV(perm)
  {
    hide Has;
    var w := WithV(perm);
    FieldsOfPte(ppn, perm);
    FlagKept(ppn, w, 0x002, 256, 1024);
    FlagKept(ppn, w, 0x004, 128, 1024);
    FlagKept(ppn, w, 0x008, 64, 1024);
    FlagKept(ppn, w, 0x010, 32, 1024);
    FlagKept(ppn, w, 0x020, 16, 1024);
    FlagKept(ppn, w, 0x040, 8, 1024);
    FlagKept(ppn, w, 0x080, 4, 1024);
    FlagKept(ppn, w, 0x100, 2, 1024);
    FlagKept(ppn, w, 0x200, 1, 1024);
    HalfDecides(w, perm);
  }

  lemma FieldsOfPte(ppn: nat, perm: nat)
    requires perm < 1024
    ensures var w := WithV(perm);
            && w < 1024 && w / 2 == perm / 2
            && PteCreate(ppn, perm) == ppn * 1024 + w && PteCreate(ppn, perm) / 1024 == ppn
            && PteCreate(ppn, perm) % 2 == 1 && PteCreate(ppn, perm) % 1024 == w
  {
    var w := WithV(perm);
    HalfOf(perm);
    FieldsOf(ppn, w);
  }

  lemma HalfOf(perm: nat)
    requires perm < 1024
    ensures WithV(perm) < 1024 && WithV(perm) / 2 == perm / 2 && WithV(perm) % 2 == 1
  {
  }

  lemma FieldsOf(ppn: nat, w: nat)
    requires w < 1024 && w % 2 == 1
    ensures var e := ppn * 1024 + w; e / 1024 == ppn && e % 1024 == w && e % 2 == 1
  {
  }

  /** The bits below size are not disturbed by what stands above them. */
  lemma FlagKept(n: nat, w: nat, flag: nat, rest: nat, size: nat)
    requires flag * rest * 2 == size && size > 0
    ensures flag > 0 && (Has(n * size + w, flag) <==> Has(w, flag))
  {
    var m, q, r := 2 * (n * rest), w / flag, w % flag;
    assert n * size == flag * m by { assert n * (flag * rest * 2) == flag * (2 * (n * rest)); }
    assert n * size + w == flag * (m + q) + r;
    QuotientOf(flag, m + q, r);
  }

  lemma QuotientOf(d: nat, q: nat, r: nat)
    requires r < d
    ensures (d * q + r) / d == q
  {
    var n := d * q + r;
    var x := n / d;
    assert d * x <= n < d * x + d;
    assert d * (q + 1) == d * q + d && d * (x + 1) == d * x + d;
    if x > q { Grows(d, q + 1, x); }
    if x < q { Grows(d, x + 1, q); }
  }

  lemma Grows(d: nat, a: int, b: int)
    requires a <= b
    ensures d * a <= d * b
  {
  }

  /** All bits but the lowest are told from the half. */
  lemma HalfDecides(w: nat, perm: nat)
    requires w / 2 == perm / 2
    ensures Permits(w, perm)
  {
    assert w / 4 == w / 2 / 2 && perm / 4 == perm / 2 / 2;
    assert w / 8 == w / 2 / 4 && perm / 8 == perm / 2 / 4;
    assert w / 16 == w / 2 / 8 && perm / 16 == perm / 2 / 8;
    assert w / 32 == w / 2 / 16 && perm / 32 == perm / 2 / 16;
    assert w / 64 == w / 2 / 32 && perm / 64 == perm / 2 / 32;
    assert w / 128 == w / 2 / 64 && perm / 128 == perm / 2 / 64;
    assert w / 256 == w / 2 / 128 && perm / 256 == perm / 2 / 128;
    assert w / 512 == w / 2 / 256 && perm / 512 == perm / 2 / 256;
  }

  /** An entry made of the user bits of a valid one has exactly those. */
  lemma UserEntry(ppn: nat, parent: nat)
    requires IsV(parent)
    ensures UserBitsOnly(PteCreate(ppn, UserBits(parent)), parent)
    ensures PteCreate(ppn, UserBits(parent)) / 1024 == ppn
  {
    var u, pte := UserBits(parent), PteCreate(ppn, UserBits(parent));
    EntryOfPte(ppn, u);
    assert parent == parent / 32 * 32 + u;
    FlagKept(parent / 32, u, 0x001, 16, 32);
    FlagKept(parent / 32, u, 0x002, 8, 32);
    FlagKept(parent / 32, u, 0x004, 4, 32);
    FlagKept(parent / 32, u, 0x008, 2, 32);
    FlagKept(parent / 32, u, 0x010, 1, 32);
    NoHighFlags(u);
  }

  lemma NoHighFlags(u: nat)
    requires u < 32
    ensures !Has(u, 0x020) && !Has(u, 0x040) && !Has(u, 0x080) && !Has(u, 0x100) && !Has(u, 0x200)
  {
  }
}
