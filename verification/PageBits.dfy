/**
 Page-table entry bits and virtual-address fields. Words are 64-bit: shifting and masking are written as
 division and remainder by powers of two, and joining disjoint bit fields as addition.
 */
module PageBits {
  import opened Division

  const TWO_TO_THE_64 := 0x1_0000_0000_0000_0000
  type Word = w: int | 0 <= w < TWO_TO_THE_64

  const PAGE_SIZE := 4096
  const PRESENT := 0x1
  const WRITE := 0x2
  const USER := 0x4
  const PWT := 0x8
  const PCD := 0x10
  const NX := 0x8000_0000_0000_0000

  const FLAG_WRITE := 0x2
  const FLAG_EXEC := 0x4
  const FLAG_USER := 0x8
  const FLAG_MMIO := 0x10

  /** Whether the single bit of value `bit` is set in `w`. */
  predicate Has(w: int, bit: int)
    requires bit > 0
  {
    w / bit % 2 == 1
  }

  predicate Present(e: Word) { e % 2 == 1 }

  predicate Large(e: Word) { e / 128 % 2 == 1 }

  /** The frame address stored in bits 12 to 51 of an entry. */
  function AddrOf(e: Word): Word { e / PAGE_SIZE % 0x100_0000_0000 * PAGE_SIZE }

  predicate Aligned(a: Word) { a % PAGE_SIZE == 0 }

  /** A frame the pool may hold: a non-zero page address that the entry format can store. */
  predicate FrameOk(f: Word) { f != 0 && AddrOf(f) == f }

  /** The low entry bits for a writable, user, memory-mapped page. */
  function LowFlags(write: bool, user: bool, mmio: bool): nat {
    PRESENT + (if write then WRITE else 0) + (if user then USER else 0) + (if mmio then PWT + PCD else 0)
  }

  /** The entry bits that map and protect derive from the caller's flags. */
  function EntryFlags(flags: Word, nxe: bool): Word {
    LowFlags(Has(flags, FLAG_WRITE), Has(flags, FLAG_USER), Has(flags, FLAG_MMIO))
    + if nxe && !Has(flags, FLAG_EXEC) then NX else 0
  }

  function TableFlags(flags: Word): Word {
    if Has(flags, FLAG_USER) then USER else 0
  }

  function LeafEntry(phys: Word, flags: Word, nxe: bool): Word {
    AddrOf(phys) + EntryFlags(flags, nxe)
  }

  function TableEntry(frame: Word, tableFlags: Word): Word
    requires tableFlags == 0 || tableFlags == USER
  {
    AddrOf(frame) + PRESENT + WRITE + tableFlags
  }

  /** The slots a virtual address selects, from the PML4 (`l4`) down to the page table (`l1`). */
  datatype Slots = Slots(l4: Slot, l3: Slot, l2: Slot, l1: Slot)
  type Slot = i: nat | i < 512

  function SlotsOf(v: Word): Slots {
    Slots(v / 0x80_0000_0000 % 512, v / 0x4000_0000 % 512, v / 0x20_0000 % 512, v / 0x1000 % 512)
  }

  /** Two addresses lie in the same 4 KiB page of the 48-bit space: they agree on bits 12 to 47. */
  predicate SamePage(v: Word, w: Word) {
    v / PAGE_SIZE % 0x10_0000_0000 == w / PAGE_SIZE % 0x10_0000_0000
  }

  /** An entry written by map or protect stores the frame, and each flag bit is set exactly when asked for. */
  lemma LeafEntryBits(phys: Word, flags: Word, nxe: bool)
    ensures var e := LeafEntry(phys, flags, nxe);
      && Present(e) && !Large(e) && AddrOf(e) == AddrOf(phys)
      && (Has(e, WRITE) <==> Has(flags, FLAG_WRITE))
      && (Has(e, USER) <==> Has(flags, FLAG_USER))
      && (Has(e, NX) <==> nxe && !Has(flags, FLAG_EXEC))
      && (Has(e, PWT) <==> Has(flags, FLAG_MMIO))
      && (Has(e, PCD) <==> Has(flags, FLAG_MMIO))
  {
    var write, user, mmio := Has(flags, FLAG_WRITE), Has(flags, FLAG_USER), Has(flags, FLAG_MMIO);
    LowFlagBits(write, user, mmio);
    SplitEntry(phys / PAGE_SIZE % 0x100_0000_0000, LowFlags(write, user, mmio), nxe && !Has(flags, FLAG_EXEC));
  }

  lemma LowFlagBits(write: bool, user: bool, mmio: bool)
    ensures var low := LowFlags(write, user, mmio);
      && low < PAGE_SIZE && low % 2 == 1 && low / 128 % 2 == 0 && (low / 2 % 2 == 1 <==> write)
      && (low / 4 % 2 == 1 <==> user) && (low / 8 % 2 == 1 <==> mmio) && (low / 16 % 2 == 1 <==> mmio)
  {
  }

  /** An entry assembled from an address field, low bits and the top bit gives each of them back. */
  lemma SplitEntry(frame: nat, low: nat, top: bool)
    requires frame < 0x100_0000_0000 && low < PAGE_SIZE
    ensures var e := frame * PAGE_SIZE + low + if top then NX else 0;
      && 0 <= e < TWO_TO_THE_64 && e / PAGE_SIZE % 0x100_0000_0000 == frame && (e / NX % 2 == 1 <==> top)
      && e % 2 == low % 2 && e / 2 % 2 == low / 2 % 2 && e / 4 % 2 == low / 4 % 2
      && e / 8 % 2 == low / 8 % 2 && e / 16 % 2 == low / 16 % 2 && e / 128 % 2 == low / 128 % 2
  {
    var high := frame + if top then 0x8_0000_0000_0000 else 0;
    var e := high * PAGE_SIZE + low;
    assert e / PAGE_SIZE == high;
    assert high % 0x100_0000_0000 == frame;
    assert e / NX == if top then 1 else 0;
    LowBits(high, low);
  }

  lemma LowBits(high: nat, low: nat)
    requires low < PAGE_SIZE
    ensures var e := high * PAGE_SIZE + low;
      && e % 2 == low % 2 && e / 2 % 2 == low / 2 % 2 && e / 4 % 2 == low / 4 % 2
      && e / 8 % 2 == low / 8 % 2 && e / 16 % 2 == low / 16 % 2 && e / 128 % 2 == low / 128 % 2
  {
    var e := high * PAGE_SIZE + low;
    EvenPart(high * 2048, low);
    assert e / 2 == 2 * (high * 1024) + low / 2;
    EvenPart(high * 1024, low / 2);
    assert e / 4 == 2 * (high * 512) + low / 4;
    EvenPart(high * 512, low / 4);
    assert e / 8 == 2 * (high * 256) + low / 8;
    EvenPart(high * 256, low / 8);
    assert e / 16 == 2 * (high * 128) + low / 16;
    EvenPart(high * 128, low / 16);
    assert e / 128 == 2 * (high * 16) + low / 128;
    EvenPart(high * 16, low / 128);
  }

  lemma EvenPart(k: nat, x: nat)
    ensures (2 * k + x) % 2 == x % 2
  {
  }

  lemma TableEntryBits(frame: Word, flags: Word)
    requires FrameOk(frame)
    ensures var e := TableEntry(frame, TableFlags(flags));
      && Present(e) && !Large(e) && AddrOf(e) == frame
      && Has(e, WRITE) && (Has(e, USER) <==> Has(flags, FLAG_USER))
  {
    SplitEntry(frame / PAGE_SIZE % 0x100_0000_0000, PRESENT + WRITE + TableFlags(flags), false);
  }

  lemma FrameOkAligned(f: Word)
    requires FrameOk(f)
    ensures f != 0 && Aligned(f)
  {
  }

  /** The truncation to bits 12 to 51 is harmless exactly for page addresses below 2^52. */
  lemma AddrExactIff(p: Word)
    ensures AddrOf(p) == p <==> Aligned(p) && p < 0x10_0000_0000_0000
  {
  }

  /** The page number is the four slots read as base-512 digits. */
  lemma PageNumber(v: Word)
    ensures var s := SlotsOf(v);
      v / PAGE_SIZE % 0x10_0000_0000 == ((s.l4 * 512 + s.l3) * 512 + s.l2) * 512 + s.l1
  {
    var n1 := v / PAGE_SIZE;
    var n2, n3, n4 := n1 / 512, n1 / 512 / 512, n1 / 512 / 512 / 512;
    assert n2 == v / 0x20_0000 && n3 == v / 0x4000_0000 && n4 == v / 0x80_0000_0000;
    var s := SlotsOf(v);
    assert n1 == n2 * 512 + s.l1 && n2 == n3 * 512 + s.l2 && n3 == n4 * 512 + s.l3 && n4 == n4 / 512 * 512 + s.l4;
    FourDigits(n1, n4 / 512, s.l4, s.l3, s.l2, s.l1);
  }

  lemma FourDigits(n: nat, high: nat, d4: Slot, d3: Slot, d2: Slot, d1: Slot)
    requires n == (((high * 512 + d4) * 512 + d3) * 512 + d2) * 512 + d1
    ensures n % 0x10_0000_0000 == ((d4 * 512 + d3) * 512 + d2) * 512 + d1
  {
    assert n == high * 0x10_0000_0000 + ((d4 * 512 + d3) * 512 + d2) * 512 + d1;
  }

  /** Walking with two addresses uses the same four slots exactly when they lie in the same page. */
  lemma SamePageIffSameSlots(v: Word, w: Word)
    ensures SamePage(v, w) <==> SlotsOf(v) == SlotsOf(w)
  {
    hide SlotsOf;
    PageNumber(v);
    PageNumber(w);
    SameDigits(SlotsOf(v), SlotsOf(w));
  }

  lemma SameDigits(s: Slots, t: Slots)
    ensures ((s.l4 * 512 + s.l3) * 512 + s.l2) * 512 + s.l1 == ((t.l4 * 512 + t.l3) * 512 + t.l2) * 512 + t.l1
            <==> s == t
  {
    LastDigit((s.l4 * 512 + s.l3) * 512 + s.l2, s.l1, (t.l4 * 512 + t.l3) * 512 + t.l2, t.l1);
    LastDigit(s.l4 * 512 + s.l3, s.l2, t.l4 * 512 + t.l3, t.l2);
    LastDigit(s.l4, s.l3, t.l4, t.l3);
  }

  lemma LastDigit(a: nat, d: Slot, b: nat, e: Slot)
    ensures a * 512 + d == b * 512 + e <==> a == b && d == e
  {
  }

  // ---------- bits one by one ----------

  function Pow2(k: nat): (p: nat)
    ensures p > 0
  {
    if k == 0 then 1 else 2 * Pow2(k - 1)
  }

  /** Bit number `k`, the lowest one being number 0. */
  predicate Bit(w: int, k: nat) { Has(w, Pow2(k)) }

  lemma {:induction false} Pow2Sum(a: nat, b: nat)
    ensures Pow2(a + b) == Pow2(a) * Pow2(b)
  {
    if a > 0 {
      Pow2Sum(a - 1, b);
      assert Pow2(a + b) == 2 * (Pow2(a - 1) * Pow2(b)) == Pow2(a) * Pow2(b);
    }
  }

  /** The sizes of pages and of the address fields that go with them: together 52 bits. */
  lemma Sizes()
    ensures Pow2(12) == PAGE_SIZE && Pow2(21) == 0x20_0000 && Pow2(30) == 0x4000_0000
    ensures Pow2(40) == 0x100_0000_0000 && Pow2(31) == 0x8000_0000 && Pow2(22) == 0x40_0000
    ensures Pow2(52) == 0x10_0000_0000_0000
  {
    assert Pow2(9) == 512 && Pow2(10) == 1024 && Pow2(12) == 4096;
    Pow2Sum(12, 9);
    Pow2Sum(21, 9);
    Pow2Sum(30, 10);
    Pow2Sum(12, 10);
    Pow2Sum(21, 10);
    Pow2Sum(40, 12);
  }

  /** The bits from number `k` on are those of the quotient by 2^k. */
  lemma BitAbove(n: nat, k: nat, i: nat)
    ensures Bit(n, k + i) <==> Bit(n / Pow2(k), i)
  {
    Pow2Sum(k, i);
    var a, b := Pow2(k), Pow2(i);
    hide Pow2;
    DivTwice(n, a, b);
  }

  lemma DigitBelow(n: nat, p: nat, c: nat)
    requires p > 0 && c > 0
    ensures p * (2 * c) > 0 && n % (p * (2 * c)) / p % 2 == n / p % 2
  {
    var d := p * (2 * c);
    QuotientOf(n, d);
    var q, r := n / d, n % d;
    QuotientOf(r, p);
    var q1, r1 := r / p, r % p;
    assert q * d == 2 * (q * c) * p;
    assert (2 * (q * c) + q1) * p == 2 * (q * c) * p + q1 * p;
    Quotient(n, p, 2 * (q * c) + q1, r1);
    EvenPart(q * c, q1);
  }

  /** The bits below number `k` are those of the remainder by 2^k. */
  lemma BitBelow(n: nat, k: nat, i: nat)
    requires i < k
    ensures Bit(n % Pow2(k), i) <==> Bit(n, i)
  {
    var p, c := Pow2(i), Pow2(k - i - 1);
    Pow2Sum(i, k - i);
    assert Pow2(k) == p * (2 * c);
    DigitBelow(n, p, c);
    hide Pow2;
  }

  /** A number put together from `high` and, below bit number `k`, from `low`. */
  lemma JoinedBits(a: nat, high: nat, low: nat, k: nat, i: nat)
    requires low < Pow2(k) && a == high * Pow2(k) + low
    ensures Bit(a, i) <==> if i < k then Bit(low, i) else Bit(high, i - k)
  {
    Quotient(a, Pow2(k), high, low);
    if i < k {
      BitBelow(a, k, i);
    } else {
      BitAbove(a, k, i - k);
    }
    hide Pow2;
  }

  lemma JoinedBelow(high: nat, low: nat, p: nat, c: nat)
    requires low < p && high < c
    ensures 0 <= high * p + low < c * p
  {
    MulUpTo(high, c - 1, p);
  }

  /**
   An address put together from the bits `k` to 51 of an entry and from the bits below `k` of another address.
   */
  lemma Joined(e: Word, v: Word, k: nat, i: nat)
    requires k <= 52 && i < 52
    ensures var a := e / Pow2(k) % Pow2(52 - k) * Pow2(k) + v % Pow2(k);
      0 <= a < Pow2(52) && (Bit(a, i) <==> if i < k then Bit(v, i) else Bit(e, i))
  {
    hide Pow2;
    QuotientOf(e, Pow2(k));
    QuotientOf(v, Pow2(k));
    QuotientOf(e / Pow2(k), Pow2(52 - k));
    Pow2Sum(52 - k, k);
    var high, low := e / Pow2(k) % Pow2(52 - k), v % Pow2(k);
    JoinedBelow(high, low, Pow2(k), Pow2(52 - k));
    JoinedBits(high * Pow2(k) + low, high, low, k, i);
    if i < k {
      BitBelow(v, k, i);
    } else {
      BitAbove(e, k, i - k);
      BitBelow(e / Pow2(k), 52 - k, i - k);
    }
  }

  /** The frame of an entry is its bits 12 to 51. */
  lemma AddrBits(e: Word, i: nat)
    requires i < 52
    ensures AddrOf(e) < Pow2(52) && (Bit(AddrOf(e), i) <==> 12 <= i && Bit(e, i))
  {
    Sizes();
    Joined(e, 0, 12, i);
    hide Pow2;
    Quotient(0, Pow2(i), 0, 0);
  }

  /** Bit 0 says that an entry is present, bit 7 that it maps a large page. */
  lemma EntryBits(e: Word)
    ensures (Present(e) <==> Bit(e, 0)) && (Large(e) <==> Bit(e, 7))
  {
    assert Pow2(4) == 16 && Pow2(3) == 8;
    Pow2Sum(4, 3);
  }

  /** Numbers below 2^n with the same n bits are the same. */
  lemma {:induction false} BitsDetermine(a: nat, b: nat, n: nat)
    requires a < Pow2(n) && b < Pow2(n) && forall i: nat :: i < n ==> (Bit(a, i) <==> Bit(b, i))
    ensures a == b
  {
    if n > 0 {
      assert Pow2(1) == 2 && Pow2(0) == 1;
      assert Bit(a, 0) <==> Bit(b, 0);
      forall i: nat | i < n - 1 ensures Bit(a / 2, i) <==> Bit(b / 2, i) {
        BitAbove(a, 1, i);
        BitAbove(b, 1, i);
        assert Bit(a, 1 + i) <==> Bit(b, 1 + i);
      }
      BitsDetermine(a / 2, b / 2, n - 1);
    }
  }
}
