/** clks_vm: mapping, unmapping and translating pages through the live page tables. */
module AddressSpace {
  import opened Division
  import opened PageBits
  import opened FramePool
  import opened PageTree
  import opened Teardown

  datatype Option<T> = None | Some(value: T)

  datatype Translation = Translation(phys: Word, entry: Word)

  /** What translate reports for a walk: the physical address, for pages of all three sizes, and the raw entry. */
  function Resolve(w: Walked, v: Word): Option<Translation> {
    match w
    case Fault => None
    case Leaf(level, e) =>
      if level == 3 then Some(Translation(e / 0x4000_0000 % 0x40_0000 * 0x4000_0000 + v % 0x4000_0000, e))
      else if level == 2 then Some(Translation(e / 0x20_0000 % 0x8000_0000 * 0x20_0000 + v % 0x20_0000, e))
      else Some(Translation(AddrOf(e) + v % PAGE_SIZE, e))
  }

  /** The size of a page mapped at a level, as a power of two: 4 KiB, 2 MiB or 1 GiB. */
  function Shift(level: nat): (k: nat)
    ensures k <= 52
  {
    if level == 3 then 30 else if level == 2 then 21 else 12
  }

  /** A 52-bit physical address with its bits from number `k` on out of the entry, the others out of the address `v`. */
  ghost predicate SitsAt(phys: Word, entry: Word, v: Word, k: nat) {
    && phys < Pow2(52)
    && forall i: nat :: i < 52 ==> (Bit(phys, i) <==> if i < k then Bit(v, i) else Bit(entry, i))
  }

  /** For all three sizes, translation takes the offset in the page from the address and the rest from the entry. */
  lemma ResolveBits(level: nat, e: Word, v: Word)
    ensures var r := Resolve(Leaf(level, e), v);
      r.Some? && r.value.entry == e && SitsAt(r.value.phys, e, v, Shift(level))
  {
    var k := Shift(level);
    Sizes();
    forall i: nat | i < 52
      ensures var a := e / Pow2(k) % Pow2(52 - k) * Pow2(k) + v % Pow2(k);
        0 <= a < Pow2(52) && (Bit(a, i) <==> if i < k then Bit(v, i) else Bit(e, i))
    {
      Joined(e, v, k, i);
    }
    Joined(e, v, k, 0);
    hide Pow2;
    hide Bit;
  }

  lemma ResolvedIff(leaf: Walked, v: Word)
    ensures Resolve(leaf, v).Some? <==> leaf.Leaf?
    ensures leaf.Leaf? ==>
      var r := Resolve(leaf, v).value; r.entry == leaf.entry && SitsAt(r.phys, leaf.entry, v, Shift(leaf.level))
  {
    if leaf.Leaf? {
      ResolveBits(leaf.level, leaf.entry, v);
    }
  }

  /**
   Addresses on one page, of whatever size, are decided by one entry and translated to addresses just as far apart; the
   first byte of the page goes to a multiple of the page's size.
   */
  lemma OnePage(mem: Memory, root: Word, v: Word, w: Word)
    requires var leaf := Walk(mem, root, SlotsOf(v));
      leaf.Leaf? && v / Pow2(Shift(leaf.level)) == w / Pow2(Shift(leaf.level))
    ensures var leaf := Walk(mem, root, SlotsOf(v));
      && Walk(mem, root, SlotsOf(w)) == leaf && Resolve(leaf, v).Some? && Resolve(leaf, w).Some?
      && Resolve(leaf, w).value.phys - Resolve(leaf, v).value.phys == w - v
      && (v % Pow2(Shift(leaf.level)) == 0 ==> Resolve(leaf, v).value.phys % Pow2(Shift(leaf.level)) == 0)
  {
    var leaf := Walk(mem, root, SlotsOf(v));
    SameWalk(mem, root, v, w);
    assert leaf.level in {1, 2, 3};
    hide Walk;
    AsFarApart(leaf.level, leaf.entry, v, w);
    hide Pow2;
    hide SlotsOf;
    hide Resolve;
  }

  lemma SameWalk(mem: Memory, root: Word, v: Word, w: Word)
    requires var leaf := Walk(mem, root, SlotsOf(v));
      leaf.Leaf? && v / Pow2(Shift(leaf.level)) == w / Pow2(Shift(leaf.level))
    ensures Walk(mem, root, SlotsOf(w)) == Walk(mem, root, SlotsOf(v))
  {
    Sizes();
    SameUpperSlots(v, w);
    hide Pow2;
    hide SlotsOf;
  }

  lemma AsFarApart(level: nat, e: Word, v: Word, w: Word)
    requires level in {1, 2, 3} && v / Pow2(Shift(level)) == w / Pow2(Shift(level))
    ensures var a, b := Resolve(Leaf(level, e), v), Resolve(Leaf(level, e), w);
      && a.Some? && b.Some? && b.value.phys - a.value.phys == w - v
      && (v % Pow2(Shift(level)) == 0 ==> a.value.phys % Pow2(Shift(level)) == 0)
  {
    Sizes();
    var size := Pow2(Shift(level));
    hide Pow2;
    SameQuotient(v, w, size);
    var base := Resolve(Leaf(level, e), v).value.phys - v % size;
    assert base == e / size % (0x10_0000_0000_0000 / size) * size;
    Multiple(e / size % (0x10_0000_0000_0000 / size), size);
  }

  /** Addresses on one large page select the same slots down to the one that maps it. */
  lemma SameUpperSlots(v: Word, w: Word)
    ensures var s, t := SlotsOf(v), SlotsOf(w);
      && (v / 0x1000 == w / 0x1000 ==> s == t)
      && (v / 0x20_0000 == w / 0x20_0000 ==> s.l4 == t.l4 && s.l3 == t.l3 && s.l2 == t.l2)
      && (v / 0x4000_0000 == w / 0x4000_0000 ==> s.l4 == t.l4 && s.l3 == t.l3)
  {
    assert v / 0x1000 / 512 == v / 0x20_0000 && w / 0x1000 / 512 == w / 0x20_0000;
    assert v / 0x20_0000 / 512 == v / 0x4000_0000 && w / 0x20_0000 / 512 == w / 0x4000_0000;
    assert v / 0x4000_0000 / 512 == v / 0x80_0000_0000 && w / 0x4000_0000 / 512 == w / 0x80_0000_0000;
  }

  /**
   After map_page wrote its entry, translating any byte of the page gives the byte of the frame asked for exactly
   when the frame lies below 2^52; above that the entry cannot hold the address and the code truncates it.
   */
  lemma TranslateMapped(w: Walked, v: Word, offset: nat, phys: Word, flags: Word, nxe: bool)
    requires w == Leaf(1, LeafEntry(phys, flags, nxe)) && Aligned(v) && Aligned(phys) && offset < PAGE_SIZE
    requires phys + offset < TWO_TO_THE_64 && v + offset < TWO_TO_THE_64
    ensures SlotsOf(v + offset) == SlotsOf(v)
    ensures Resolve(w, v + offset) == Some(Translation(phys + offset, LeafEntry(phys, flags, nxe)))
            <==> phys < 0x10_0000_0000_0000
  {
    SamePageIffSameSlots(v, v + offset);
    assert (v + offset) / PAGE_SIZE == v / PAGE_SIZE;
    LeafEntryBits(phys, flags, nxe);
    AddrExactIff(phys);
  }

  /** A large page sits where a deeper table would be needed. */
  ghost predicate Blocked(mem: Memory, tree: Tree, s: Slots)
    requires IsTree(mem, tree)
  {
    var level := LastLevel(tree, s);
    WalkEndsAtLastTable(mem, tree, s);
    level > 1 && Present(mem[tree[PathTo(s, level)]][SlotAt(s, level)])
  }

  /** Nothing blocks a page table for `s`, and the pool holds every table page still missing. */
  ghost predicate Mappable(mem: Memory, tree: Tree, free: seq<Word>, s: Slots)
    requires IsTree(mem, tree)
  {
    !Blocked(mem, tree, s) && LastLevel(tree, s) - 1 <= |free|
  }

  ghost function NewFrames(tree: Tree, tree': Tree): set<Word> {
    set p | p in tree' && p !in tree :: tree'[p]
  }

  /** `tree'` extends `tree` below one root slot, with exactly the frames that left the pool. */
  ghost predicate Grew(tree: Tree, free: seq<Word>, tree': Tree, free': seq<Word>, slot: Slot) {
    && (forall p :: p in tree ==> p in tree' && tree'[p] == tree[p])
    && (forall p :: p in tree' && p !in tree ==> UnderSlots(p, Root, slot, slot + 1))
    && Frames(free) == Frames(free') + NewFrames(tree, tree')
  }

  /** Memory changed only in the tables below one root slot and in that slot of the root. */
  ghost predicate OnlyBelow(mem: Memory, mem': Memory, tree': Tree, slot: Slot) {
    && Root in tree' && tree'[Root] in mem && mem'.Keys == mem.Keys
    && (forall f :: f in mem && f != tree'[Root] && f !in Below(tree', Root, slot, slot + 1) ==> mem'[f] == mem[f])
    && mem'[tree'[Root]] == mem[tree'[Root]][slot := mem'[tree'[Root]][slot]]
  }

  lemma NothingGrew(tree: Tree, free: seq<Word>, slot: Slot)
    ensures Grew(tree, free, tree, free, slot)
  {
  }

  lemma NothingBelow(mem: Memory, tree: Tree, slot: Slot)
    requires IsTree(mem, tree)
    ensures OnlyBelow(mem, mem, tree, slot)
  {
  }

  /** Tables were added below one root slot: nothing else changed, and no translation did. */
  ghost predicate Extends(mem: Memory, tree: Tree, free: seq<Word>, mem': Memory, tree': Tree, free': seq<Word>,
                          slot: Slot)
  {
    && Grew(tree, free, tree', free', slot) && OnlyBelow(mem, mem', tree', slot)
    && Root in tree && (forall s :: Walk(mem', tree[Root], s) == Walk(mem, tree[Root], s))
  }

  function SetEntry(mem: Memory, table: Word, i: Slot, e: Word): Memory
    requires table in mem
  {
    mem[table := mem[table][i := e]]
  }

  /** Zero `frame` and point slot `i` of `table` to it. */
  function HangTable(mem: Memory, table: Word, i: Slot, frame: Word, flags: Word): Memory
    requires table in mem
  {
    SetEntry(mem[frame := ZeroTable()], table, i, TableEntry(frame, TableFlags(flags)))
  }

  /** Hanging a free frame into an empty slot gives a larger tree and no new translation. */
  lemma HangTableKeepsSpace(mem: Memory, mem': Memory, tree: Tree, free: seq<Word>, p: Path, i: Slot, frame: Word,
                            flags: Word)
    requires IsTree(mem, tree) && PoolApart(mem, tree, free + [frame])
    requires p in tree && Depth(p) < 3 && !Present(mem[tree[p]][i])
    requires mem' == HangTable(mem, tree[p], i, frame, flags)
    ensures Sub(p, i) !in tree
    ensures mem'.Keys == mem.Keys && PointsToTable(mem'[tree[p]][i]) && AddrOf(mem'[tree[p]][i]) == frame
    ensures IsTree(mem', tree[Sub(p, i) := frame]) && PoolApart(mem', tree[Sub(p, i) := frame], free)
    ensures forall s :: Walk(mem', tree[Root], s) == Walk(mem, tree[Root], s)
  {
    assert frame in free + [frame];
    TableEntryBits(frame, flags);
    assert LinkedAt(mem, tree, p);
    assert OneEntryChanged(mem, mem', tree, p, i);
    NewTable(mem, mem', tree, p, i, frame);
    hide IsTree;
    PoolWithoutFrame(mem, mem', tree, free, p, i, frame);
  }

  lemma PoolWithoutFrame(mem: Memory, mem': Memory, tree: Tree, free: seq<Word>, p: Path, i: Slot, frame: Word)
    requires PoolApart(mem, tree, free + [frame]) && mem'.Keys == mem.Keys
    ensures PoolApart(mem', tree[Sub(p, i) := frame], free)
  {
    assert forall f :: f in free ==> f in free + [frame];
    assert (free + [frame])[|free|] == frame;
    assert forall k :: 0 <= k < |free| ==> free[k] == (free + [frame])[k];
  }

  class Vm {
    var mem: Memory
    var cr3: Word
    var kernelCr3: Word
    var ready: bool
    var nxe: bool
    const pool: Pool

    /** clks_vm_init, once the boot code has set up memory, CR3 and the frame pool. */
    constructor (memory: Memory, bootCr3: Word, noExecute: bool, frames: Pool)
      ensures mem == memory && cr3 == bootCr3 && kernelCr3 == AddrOf(bootCr3) && pool == frames
              && nxe == (ready && noExecute)
    {
      mem, cr3, kernelCr3 := memory, bootCr3, AddrOf(bootCr3);
      ready := bootCr3 != 0;
      nxe := bootCr3 != 0 && noExecute;
      pool := frames;
    }

    /** The active address space is a table tree, apart from the free frames. */
    ghost predicate Space(tree: Tree)
      reads this, pool, pool.stack
    {
      pool.Valid() && IsTree(mem, tree) && PoolApart(mem, tree, pool.Free()) && tree[Root] == AddrOf(cr3)
    }

    /** clks_vm_translate_current */
    method TranslateCurrent(v: Word, ghost tree: Tree) returns (r: Option<Translation>)
      requires Space(tree)
      ensures r == if ready && cr3 != 0 then Resolve(Walk(mem, tree[Root], SlotsOf(v)), v) else None
      ensures var leaf := Walk(mem, tree[Root], SlotsOf(v));
        && (r.Some? <==> ready && cr3 != 0 && leaf.Leaf?)
        && (r.Some? ==> r.value.entry == leaf.entry && SitsAt(r.value.phys, leaf.entry, v, Shift(leaf.level)))
    {
      ghost var leaf := Walk(mem, tree[Root], SlotsOf(v));
      ResolvedIff(leaf, v);
      hide SitsAt;
      hide Shift;
      hide SlotsOf;
      if !ready || cr3 == 0 {
        return None;
      }
      var s := SlotsOf(v);
      var pml4 := AddrOf(cr3);
      assert LinkedAt(mem, tree, Root);
      if !Present(mem[pml4][s.l4]) {
        return None;
      }
      var pdpt := AddrOf(mem[pml4][s.l4]);
      assert LinkedAt(mem, tree, PathTo(s, 3));
      if !Present(mem[pdpt][s.l3]) {
        return None;
      }
      if Large(mem[pdpt][s.l3]) {
        var base := mem[pdpt][s.l3] / 0x4000_0000 % 0x40_0000 * 0x4000_0000;
        return Some(Translation(base + v % 0x4000_0000, mem[pdpt][s.l3]));
      }
      var pd := AddrOf(mem[pdpt][s.l3]);
      assert LinkedAt(mem, tree, PathTo(s, 2));
      if !Present(mem[pd][s.l2]) {
        return None;
      }
      if Large(mem[pd][s.l2]) {
        var base := mem[pd][s.l2] / 0x20_0000 % 0x8000_0000 * 0x20_0000;
        return Some(Translation(base + v % 0x20_0000, mem[pd][s.l2]));
      }
      var pt := AddrOf(mem[pd][s.l2]);
      var entry := mem[pt][s.l1];
      if !Present(entry) {
        return None;
      }
      return Some(Translation(AddrOf(entry) + v % PAGE_SIZE, entry));
    }

    /** clks_vm_next_table: the table behind one entry, allocated and zeroed if the entry is empty. */
    method NextTable(table: Word, i: Slot, flags: Word, ghost tree: Tree, ghost s: Slots, ghost level: nat)
      returns (next: Option<Word>, ghost tree': Tree)
      requires Space(tree) && 2 <= level <= 4 && LastLevel(tree, s) <= level
      requires PathTo(s, level) in tree && table == tree[PathTo(s, level)] && i == SlotAt(s, level)
      modifies this`mem, pool`top
      ensures Space(tree')
      ensures Extends(old(mem), tree, old(pool.Free()), mem, tree', pool.Free(), s.l4)
      ensures next.None? ==> !Mappable(old(mem), tree, old(pool.Free()), s)
      ensures next.Some? ==>
        && PathTo(s, level - 1) in tree' && next.value == tree'[PathTo(s, level - 1)] && LastLevel(tree', s) < level
        && Mappable(mem, tree', pool.Free(), s) == Mappable(old(mem), tree, old(pool.Free()), s)
    {
      tree' := tree;
      LinkAt(mem, tree, pool.Free(), s, level);
      hide IsTree;
      hide PoolApart;
      hide Extends;
      hide Mappable;
      if !Present(mem[table][i]) {
        ghost var free := pool.Free();
        var frame := pool.AllocPage();
        if frame == 0 {
          NoFreeZero(mem, tree, free);
          return None, tree;
        }
        AllocatedTable(mem, HangTable(mem, table, i, frame, flags), tree, pool.Free(), s, level, frame, flags);
        mem := mem[frame := ZeroTable()];
        mem := mem[table := mem[table][i := TableEntry(frame, TableFlags(flags))]];
        tree' := tree[PathTo(s, level - 1) := frame];
      }
      if Large(mem[table][i]) {
        return None, tree';
      }
      next := Some(AddrOf(mem[table][i]));
    }

    /** clks_vm_map_page_current */
    method MapPageCurrent(v: Word, phys: Word, flags: Word, ghost tree: Tree) returns (ok: bool, ghost tree': Tree)
      requires Space(tree)
      modifies this`mem, pool`top
      ensures Space(tree')
      ensures ok <==> ready && cr3 != 0 && Aligned(v) && Aligned(phys)
                      && Mappable(old(mem), tree, old(pool.Free()), SlotsOf(v))
      ensures ok ==> PathTo(SlotsOf(v), 1) in tree'
      ensures forall s ::
        Walk(mem, tree[Root], s)
        == if ok && s == SlotsOf(v) then Leaf(1, LeafEntry(phys, flags, nxe)) else old(Walk(mem, tree[Root], s))
      ensures Grew(tree, old(pool.Free()), tree', pool.Free(), SlotsOf(v).l4)
      ensures OnlyBelow(old(mem), mem, tree', SlotsOf(v).l4)
    {
      hide IsTree;
      hide PoolApart;
      hide OnlyBelow;
      hide Walk;
      hide Mappable;
      hide Grew;
      hide Pool.Free;
      hide Pool.Valid;
      NothingGrew(tree, pool.Free(), SlotsOf(v).l4);
      NothingBelow(mem, tree, SlotsOf(v).l4);
      var s := SlotsOf(v);
      if !ready || !Aligned(v) || !Aligned(phys) || cr3 == 0 {
        return false, tree;
      }
      var pt;
      pt, tree' := PageTableFor(AddrOf(cr3), s, flags, tree);
      if pt.None? {
        return false, tree';
      }
      ghost var before := mem;
      LeafEntryBits(phys, flags, nxe);
      hide LeafEntry;
      WriteLeaf(pt.value, s, LeafEntry(phys, flags, nxe), tree');
      OnlyBelowTwice(old(mem), before, mem, tree', tree', s.l4);
      ok := true;
    }

    /** Store one page-table entry: it decides the translation of `s` and of no other page. */
    method WriteLeaf(pt: Word, s: Slots, entry: Word, ghost tree: Tree)
      requires Space(tree) && PathTo(s, 1) in tree && pt == tree[PathTo(s, 1)]
      modifies this`mem
      ensures Space(tree) && OnlyBelow(old(mem), mem, tree, s.l4)
      ensures forall t ::
        Walk(mem, tree[Root], t)
        == if t == s then (if Present(entry) then Leaf(1, entry) else Fault) else old(Walk(mem, tree[Root], t))
    {
      LeafWritten(mem, SetEntry(mem, pt, s.l1, entry), tree, pool.Free(), s, entry);
      mem := mem[pt := mem[pt][s.l1 := entry]];
    }

    /** The three calls of clks_vm_next_table with which map_page reaches its page table. */
    method PageTableFor(pml4: Word, s: Slots, flags: Word, ghost tree: Tree)
      returns (pt: Option<Word>, ghost tree': Tree)
      requires Space(tree) && Root in tree && pml4 == tree[Root]
      modifies this`mem, pool`top
      ensures Space(tree')
      ensures Extends(old(mem), tree, old(pool.Free()), mem, tree', pool.Free(), s.l4)
      ensures pt.Some? <==> Mappable(old(mem), tree, old(pool.Free()), s)
      ensures pt.Some? ==> PathTo(s, 1) in tree' && pt.value == tree'[PathTo(s, 1)]
    {
      hide IsTree;
      hide PoolApart;
      hide Extends;
      hide Walk;
      pt, tree' := NextTable(pml4, s.l4, flags, tree, s, 4);
      if pt.None? {
        return;
      }
      ghost var t3, m3, f3 := tree', mem, pool.Free();
      pt, tree' := NextTable(pt.value, s.l3, flags, t3, s, 3);
      ExtendsTwice(old(mem), tree, old(pool.Free()), m3, t3, f3, mem, tree', pool.Free(), s.l4);
      if pt.None? {
        return;
      }
      ghost var t2, m2, f2 := tree', mem, pool.Free();
      pt, tree' := NextTable(pt.value, s.l2, flags, t2, s, 2);
      ExtendsTwice(old(mem), tree, old(pool.Free()), m2, t2, f2, mem, tree', pool.Free(), s.l4);
    }

    /** The walk that protect and unmap share: the page table of `s`, if every level above is a table. */
    method FindPageTable(s: Slots, ghost tree: Tree) returns (pt: Option<Word>)
      requires Space(tree)
      ensures pt.Some? <==> PathTo(s, 1) in tree
      ensures pt.Some? ==> pt.value == tree[PathTo(s, 1)]
    {
      var table := AddrOf(cr3);
      assert LinkedAt(mem, tree, Root);
      if !Present(mem[table][s.l4]) || Large(mem[table][s.l4]) {
        return None;
      }
      table := AddrOf(mem[table][s.l4]);
      assert LinkedAt(mem, tree, PathTo(s, 3));
      if !Present(mem[table][s.l3]) || Large(mem[table][s.l3]) {
        return None;
      }
      table := AddrOf(mem[table][s.l3]);
      assert LinkedAt(mem, tree, PathTo(s, 2));
      if !Present(mem[table][s.l2]) || Large(mem[table][s.l2]) {
        return None;
      }
      pt := Some(AddrOf(mem[table][s.l2]));
    }

    /** clks_vm_protect_page_current: new flags for a mapped 4 KiB page, same frame. */
    method ProtectPageCurrent(v: Word, flags: Word, ghost tree: Tree) returns (ok: bool)
      requires Space(tree)
      modifies this`mem
      ensures Space(tree) && OnlyBelow(old(mem), mem, tree, SlotsOf(v).l4)
      ensures ok <==> ready && cr3 != 0 && Aligned(v) && MappedSmall(old(Walk(mem, tree[Root], SlotsOf(v))))
      ensures forall s ::
        Walk(mem, tree[Root], s)
        == if ok && s == SlotsOf(v) then Leaf(1, LeafEntry(old(Walk(mem, tree[Root], s)).entry, flags, nxe))
           else old(Walk(mem, tree[Root], s))
    {
      if !ready || !Aligned(v) || cr3 == 0 {
        return false;
      }
      var s := SlotsOf(v);
      WalkEndsAtLastTable(mem, tree, s);
      var pt := FindPageTable(s, tree);
      hide IsTree;
      hide PoolApart;
      hide Walk;
      hide OnlyBelow;
      if pt.None? || !Present(mem[pt.value][s.l1]) {
        return false;
      }
      var entry := LeafEntry(mem[pt.value][s.l1], flags, nxe);
      LeafEntryBits(mem[pt.value][s.l1], flags, nxe);
      WriteLeaf(pt.value, s, entry, tree);
      ok := true;
    }

    /** clks_vm_unmap_page_current: the frame that was mapped, and no translation any more. */
    method UnmapPageCurrent(v: Word, ghost tree: Tree) returns (frame: Option<Word>)
      requires Space(tree)
      modifies this`mem
      ensures Space(tree) && OnlyBelow(old(mem), mem, tree, SlotsOf(v).l4)
      ensures frame.Some? <==> ready && cr3 != 0 && Aligned(v) && MappedSmall(old(Walk(mem, tree[Root], SlotsOf(v))))
      ensures frame.Some? ==> frame.value == AddrOf(old(Walk(mem, tree[Root], SlotsOf(v))).entry)
      ensures forall s ::
        Walk(mem, tree[Root], s)
        == if frame.Some? && s == SlotsOf(v) then Fault else old(Walk(mem, tree[Root], s))
    {
      if !ready || !Aligned(v) || cr3 == 0 {
        return None;
      }
      var s := SlotsOf(v);
      WalkEndsAtLastTable(mem, tree, s);
      var pt := FindPageTable(s, tree);
      hide IsTree;
      hide PoolApart;
      hide Walk;
      hide OnlyBelow;
      if pt.None? || !Present(mem[pt.value][s.l1]) {
        return None;
      }
      frame := Some(AddrOf(mem[pt.value][s.l1]));
      WriteLeaf(pt.value, s, 0, tree);
    }

    /** clks_vm_switch_cr3 */
    method SwitchCr3(value: Word)
      modifies this`cr3
      ensures cr3 == if value != 0 && Aligned(value) then value else old(cr3)
    {
      if value != 0 && Aligned(value) {
        cr3 := value;
      }
    }

    /**
     clks_vm_map_page_in_address_space. The previous CR3 comes back only if clks_vm_switch_cr3 accepts it,
     that is, if its low twelve bits are clear.
     */
    method MapPageInAddressSpace(root: Word, v: Word, phys: Word, flags: Word, ghost tree: Tree)
      returns (ok: bool, ghost tree': Tree)
      requires root != 0 && Aligned(root) ==>
        pool.Valid() && IsTree(mem, tree) && PoolApart(mem, tree, pool.Free()) && tree[Root] == AddrOf(root)
      modifies this`mem, this`cr3, pool`top
      ensures root == 0 || !Aligned(root) ==>
        !ok && tree' == tree && mem == old(mem) && cr3 == old(cr3) && pool.top == old(pool.top)
      ensures root != 0 && Aligned(root) ==>
        && pool.Valid() && IsTree(mem, tree') && PoolApart(mem, tree', pool.Free()) && tree'[Root] == tree[Root]
        && (ok <==> ready && Aligned(v) && Aligned(phys) && (AddrOf(old(cr3)) == AddrOf(root) ==> old(cr3) != 0)
                    && Mappable(old(mem), tree, old(pool.Free()), SlotsOf(v)))
        && (forall s ::
              Walk(mem, tree[Root], s)
              == if ok && s == SlotsOf(v) then Leaf(1, LeafEntry(phys, flags, nxe)) else old(Walk(mem, tree[Root], s)))
        && Grew(tree, old(pool.Free()), tree', pool.Free(), SlotsOf(v).l4)
        && OnlyBelow(old(mem), mem, tree', SlotsOf(v).l4)
        && cr3 == if AddrOf(old(cr3)) == AddrOf(root) || (old(cr3) != 0 && Aligned(old(cr3))) then old(cr3) else root
    {
      hide IsTree;
      hide PoolApart;
      hide OnlyBelow;
      hide Grew;
      hide Walk;
      hide Mappable;
      hide Pool.Valid;
      tree' := tree;
      if root == 0 || !Aligned(root) {
        return false, tree;
      }
      var prev := cr3;
      if AddrOf(prev) != AddrOf(root) {
        SwitchCr3(root);
      }
      ok, tree' := MapPageCurrent(v, phys, flags, tree);
      if AddrOf(prev) != AddrOf(root) {
        SwitchCr3(prev);
      }
    }

    /** clks_vm_create_address_space: a new root that shares slot 0 and the upper half with the kernel. */
    method CreateAddressSpace(ghost ktree: Tree) returns (root: Word)
      requires pool.Valid() && IsTree(mem, ktree) && PoolApart(mem, ktree, pool.Free()) && ktree[Root] == kernelCr3
      modifies this`mem, pool`top
      ensures pool.Valid()
      ensures root == 0 <==> !ready || kernelCr3 == 0 || old(pool.Free()) == []
      ensures root == 0 ==> mem == old(mem) && pool.Free() == old(pool.Free())
      ensures root != 0 ==>
        && pool.Free() + [root] == old(pool.Free()) && mem.Keys == old(mem.Keys)
        && (forall f :: f in mem && f != root ==> mem[f] == old(mem)[f])
        && IsTree(mem, ForkTree(ktree, root))
    {
      if !ready || kernelCr3 == 0 {
        return 0;
      }
      ghost var free := pool.Free();
      root := pool.AllocPage();
      if root == 0 {
        assert free != [] ==> root in free;
        return 0;
      }
      assert free[|free| - 1] == root;
      ForkedFrame(mem, ktree, pool.Free(), root);
      hide IsTree;
      hide PoolApart;
      ShareKernelHalf(root);
      ForkIsTree(old(mem), mem, ktree, root);
      root := AddrOf(root);
    }

    /** Clear a new root and copy slot 0 and slots 256 to 511 of the kernel root into it. */
    method ShareKernelHalf(root: Word)
      requires root in mem && kernelCr3 in mem && kernelCr3 != root
      modifies this`mem
      ensures mem.Keys == old(mem.Keys) && forall f :: f in mem && f != root ==> mem[f] == old(mem)[f]
      ensures forall j: Slot :: mem[root][j] == if j == 0 || 256 <= j then old(mem)[kernelCr3][j] else 0
    {
      mem := mem[root := ZeroTable()];
      mem := mem[root := mem[root][0 := mem[kernelCr3][0]]];
      for i := 256 to 512
        invariant mem.Keys == old(mem.Keys) && forall f :: f in mem && f != root ==> mem[f] == old(mem)[f]
        invariant forall j: Slot :: mem[root][j] == if j == 0 || 256 <= j < i then old(mem)[kernelCr3][j] else 0
      {
        mem := mem[root := mem[root][i := mem[kernelCr3][i]]];
      }
    }

    /** clks_vm_destroy_table_recursive: the table at `p` and everything below it goes back to the pool. */
    method DestroyTableRecursive(table: Word, level: nat, ghost tree: Tree, ghost p: Path)
      requires pool.Valid() && 1 <= level && level + Depth(p) == 4
      requires SubtreeLinked(mem, tree, p) && table == tree[p] && CanTake(pool.Free(), Subtree(tree, p))
      modifies this`mem, pool`top, pool.stack
      ensures pool.Valid() && TookIn(old(pool.Free()), Subtree(tree, p), pool.Free())
      ensures mem.Keys == old(mem.Keys) && forall f :: f in mem && f !in Subtree(tree, p) ==> mem[f] == old(mem)[f]
      ensures level > 1 ==> Cleared(mem, table, 0, 512)
      decreases level, 2
    {
      FrameOkAligned(table);
      if table == 0 || !Aligned(table) {
        return;
      }
      hide SubtreeLinked;
      hide TookIn;
      hide CanTake;
      hide Cleared;
      hide Subtree;
      hide Pool.Free;
      DestroyBelow(table, level, tree, p);
      pool.FreePage(table);
    }

    /** The slot loop of clks_vm_destroy_table_recursive: all tables below the one at `p` go back to the pool. */
    method DestroyBelow(table: Word, level: nat, ghost tree: Tree, ghost p: Path)
      requires pool.Valid() && 1 <= level && level + Depth(p) == 4
      requires SubtreeLinked(mem, tree, p) && table == tree[p] && CanTake(pool.Free(), Subtree(tree, p))
      modifies this`mem, pool`top, pool.stack
      ensures pool.Valid() && |pool.Free()| < MAX_TRACKED_PAGES
      ensures TookIn(old(pool.Free()), Subtree(tree, p), pool.Free() + [tree[p]])
      ensures mem.Keys == old(mem.Keys) && forall f :: f in mem && f !in Subtree(tree, p) ==> mem[f] == old(mem)[f]
      ensures level > 1 ==> Cleared(mem, table, 0, 512)
      decreases level, 1
    {
      hide SubtreeLinked;
      hide TookIn;
      hide CanTake;
      hide SlotLoop;
      hide Cleared;
      hide Subtree;
      hide Pool.Free;
      if level > 1 {
        StartSlots(mem, pool.Free(), tree, p);
        for i := 0 to 512
          invariant pool.Valid() && SlotLoop(old(mem), old(pool.Free()), mem, pool.Free(), tree, p, 0, 512, i)
        {
          DestroySlot(table, i, level, tree, p, 0, 512, old(mem), old(pool.Free()));
        }
      }
      EndSlots(old(mem), old(pool.Free()), mem, pool.Free(), tree, p);
    }

    /** One turn of the slot loops of clks_vm_destroy_table_recursive and clks_vm_destroy_address_space. */
    method DestroySlot(table: Word, i: Slot, level: nat, ghost tree: Tree, ghost p: Path, ghost lo: nat, ghost hi: nat,
                       ghost mem0: Memory, ghost free0: seq<Word>)
      requires pool.Valid() && 2 <= level && level + Depth(p) == 4 && lo <= i < hi
      requires SlotLoop(mem0, free0, mem, pool.Free(), tree, p, lo, hi, i) && table == tree[p]
      modifies this`mem, pool`top, pool.stack
      ensures pool.Valid() && SlotLoop(mem0, free0, mem, pool.Free(), tree, p, lo, hi, i + 1)
      ensures table in mem && table in old(mem) && forall j: Slot :: j != i ==> mem[table][j] == old(mem)[table][j]
      decreases level, 0
    {
      BeforeSlot(mem0, free0, mem, pool.Free(), tree, p, lo, hi, i);
      hide SlotLoop;
      hide SubtreeLinked;
      hide TookIn;
      hide CanTake;
      hide Cleared;
      hide Subtree;
      hide Pool.Free;
      ghost var mem1, free1 := mem, pool.Free();
      var entry := mem[table][i];
      if Present(entry) && !Large(entry) {
        DestroyTableRecursive(AddrOf(entry), level - 1, tree, Sub(p, i));
        ClearEntry(table, i);
      }
      AfterSlot(mem0, free0, mem1, free1, mem, pool.Free(), tree, p, lo, hi, i);
    }

    method ClearEntry(table: Word, i: Slot)
      requires table in mem
      modifies this`mem
      ensures mem.Keys == old(mem.Keys) && forall f :: f in mem && f != table ==> mem[f] == old(mem)[f]
      ensures mem[table][i] == 0 && forall j: Slot :: j != i ==> mem[table][j] == old(mem)[table][j]
    {
      mem := mem[table := mem[table][i := 0]];
    }

    /** clks_vm_destroy_address_space: the root and its private tables go back to the pool. */
    method DestroyAddressSpace(root: Word, ghost tree: Tree)
      requires Destroyable(root) ==>
        pool.Valid() && PrivateLinked(mem, tree) && tree[Root] == root && CanTake(pool.Free(), Private(tree))
      modifies this`mem, this`cr3, pool`top, pool.stack
      ensures !old(Destroyable(root)) ==> mem == old(mem) && cr3 == old(cr3) && pool.top == old(pool.top)
      ensures old(Destroyable(root)) ==>
        && pool.Valid() && TookIn(old(pool.Free()), Private(tree), pool.Free())
        && mem.Keys == old(mem.Keys) && (forall f :: f in mem && f !in Private(tree) ==> mem[f] == old(mem)[f])
        && Cleared(mem, root, 0, 256)
        && cr3 == if old(cr3) == root && kernelCr3 != 0 && Aligned(kernelCr3) then kernelCr3 else old(cr3)
    {
      hide PrivateLinked;
      hide TookIn;
      hide CanTake;
      hide Private;
      hide Cleared;
      hide Pool.Free;
      if root == 0 || !Aligned(root) || root == kernelCr3 {
        return;
      }
      if cr3 == root && kernelCr3 != 0 {
        SwitchCr3(kernelCr3);
      }
      FreePrivate(root, tree);
    }

    /** The slot loop of clks_vm_destroy_address_space: slot 0 is only cleared, slots 1 to 255 are torn down. */
    method FreePrivate(root: Word, ghost tree: Tree)
      requires pool.Valid() && PrivateLinked(mem, tree) && tree[Root] == root && CanTake(pool.Free(), Private(tree))
      modifies this`mem, pool`top, pool.stack
      ensures pool.Valid() && TookIn(old(pool.Free()), Private(tree), pool.Free())
      ensures mem.Keys == old(mem.Keys) && (forall f :: f in mem && f !in Private(tree) ==> mem[f] == old(mem)[f])
      ensures Cleared(mem, root, 0, 256)
    {
      ghost var mem0, free0 := mem, pool.Free();
      StartPrivate(mem, free0, tree);
      FrameOkAligned(root);
      hide PrivateLinked;
      hide SlotLoop;
      hide TookIn;
      hide CanTake;
      hide Private;
      hide Pool.Free;
      ClearEntry(root, 0);
      FirstSlotCleared(mem0, mem, free0, tree);
      for i := 1 to 256
        invariant pool.Valid() && SlotLoop(mem0, free0, mem, pool.Free(), tree, Root, 1, 256, i)
        invariant root in mem && !PointsToTable(mem[root][0])
      {
        DestroySlot(root, i, 4, tree, Root, 1, 256, mem0, free0);
      }
      EndPrivate(mem0, free0, mem, pool.Free(), tree);
      pool.FreePage(root);
    }

    predicate Destroyable(root: Word)
      reads this
    {
      root != 0 && Aligned(root) && root != kernelCr3
    }
  }

  /** Whether a walk ended at a 4 KiB page. */
  predicate MappedSmall(w: Walked) { w.Leaf? && w.level == 1 }

  /** The table tree of a fresh address space: a new root over the shared part of the kernel tree. */
  ghost function ForkTree(ktree: Tree, root: Word): Tree {
    map q | q in ktree && (q == Root || Shared(q)) :: if q == Root then root else ktree[q]
  }

  /** The paths every address space has in common with the kernel: below slot 0 and the upper half. */
  predicate Shared(q: Path) {
    UnderSlots(q, Root, 0, 1) || UnderSlots(q, Root, 256, 512)
  }

  lemma ForkedFrame(mem: Memory, ktree: Tree, free: seq<Word>, root: Word)
    requires IsTree(mem, ktree) && PoolApart(mem, ktree, free + [root])
    ensures root in mem && root != 0 && AddrOf(root) == root && Root in ktree && ktree[Root] in mem
    ensures forall p :: p in ktree ==> ktree[p] != root
  {
    assert root in free + [root];
  }

  lemma ForkIsTree(mem: Memory, mem': Memory, ktree: Tree, root: Word)
    requires IsTree(mem, ktree) && root in mem && forall p :: p in ktree ==> ktree[p] != root
    requires mem'.Keys == mem.Keys && forall f :: f in mem && f != root ==> mem'[f] == mem[f]
    requires forall j: Slot :: mem'[root][j] == if j == 0 || 256 <= j then mem[ktree[Root]][j] else 0
    ensures IsTree(mem', ForkTree(ktree, root))
  {
    assert !Present(0);
    hide LinkedAt;
    hide Shared;
    hide Shape;
    hide Present;
    hide Large;
    hide Depth;
    var tree := ForkTree(ktree, root);
    RootMapped(ktree);
    ForkShape(ktree, root);
    forall q | q in tree && Depth(q) < 3 ensures LinkedAt(mem', tree, q) {
      ForkLinked(mem, mem', ktree, root, q);
    }
    assert forall i: Slot :: mem'[root][i] == 0 || mem'[root][i] == mem[ktree[Root]][i];
  }

  lemma RootMapped(tree: Tree)
    requires Shape(tree)
    ensures Root in tree
  {
  }

  lemma ForkShape(ktree: Tree, root: Word)
    requires Shape(ktree) && forall p :: p in ktree ==> ktree[p] != root
    ensures Shape(ForkTree(ktree, root))
  {
    var tree := ForkTree(ktree, root);
    forall p, i: Slot | Sub(p, i) in tree ensures p in tree {
      assert Sub(p, i) in ktree;
      SharedParent(p, i);
    }
    hide Shared;
  }

  lemma SharedParent(p: Path, i: Slot)
    ensures Shared(Sub(p, i)) ==> p == Root || Shared(p)
  {
  }

  lemma ForkLinked(mem: Memory, mem': Memory, ktree: Tree, root: Word, q: Path)
    requires Shape(ktree) && q in ktree && ktree[q] in mem && LinkedAt(mem, ktree, q) && root in mem
    requires q in ForkTree(ktree, root) && ForkTree(ktree, root)[q] in mem'
    requires q != Root ==> mem'[ktree[q]] == mem[ktree[q]]
    requires q == Root ==> forall j: Slot :: mem'[root][j] == if j == 0 || 256 <= j then mem[ktree[Root]][j] else 0
    ensures LinkedAt(mem', ForkTree(ktree, root), q)
  {
    var tree := ForkTree(ktree, root);
    if q == Root {
      forall i: Slot ensures Shared(Sub(Root, i)) <==> i == 0 || 256 <= i {
        assert !UnderSlots(Root, Root, 0, 1) && !UnderSlots(Root, Root, 256, 512);
      }
    } else {
      assert Shared(q);
      assert forall i: Slot :: Shared(Sub(q, i));
    }
  }

  /** Writing the page-table entry of `s`: one translation changes, the tree and the pool do not. */
  lemma LeafWritten(mem: Memory, mem': Memory, tree: Tree, free: seq<Word>, s: Slots, e: Word)
    requires IsTree(mem, tree) && PoolApart(mem, tree, free) && PathTo(s, 1) in tree
    requires mem' == SetEntry(mem, tree[PathTo(s, 1)], s.l1, e)
    ensures IsTree(mem', tree) && PoolApart(mem', tree, free) && OnlyBelow(mem, mem', tree, s.l4)
    ensures Grew(tree, free, tree, free, s.l4)
    ensures forall t ::
      Walk(mem', tree[Root], t)
      == if t == s then (if Present(e) then Leaf(1, e) else Fault) else Walk(mem, tree[Root], t)
  {
    SetLeaf(mem, mem', tree, s);
    assert UnderSlots(Sub(Root, s.l4), Root, s.l4, s.l4 + 1);
    assert UnderSlots(PathTo(s, 2), Root, s.l4, s.l4 + 1);
    assert UnderSlots(PathTo(s, 1), Root, s.l4, s.l4 + 1);
    assert tree[Root] != tree[PathTo(s, 1)];
    assert NewFrames(tree, tree) == {};
  }

  /** What an entry on the way to `s` says before anything is allocated. */
  lemma LinkAt(mem: Memory, tree: Tree, free: seq<Word>, s: Slots, level: nat)
    requires IsTree(mem, tree) && 2 <= level <= 4 && LastLevel(tree, s) <= level
    ensures PathTo(s, level) in tree && tree[PathTo(s, level)] in mem && Extends(mem, tree, free, mem, tree, free, s.l4)
    ensures var e := mem[tree[PathTo(s, level)]][SlotAt(s, level)];
      && (PointsToTable(e) ==>
            PathTo(s, level - 1) in tree && tree[PathTo(s, level - 1)] == AddrOf(e) && LastLevel(tree, s) < level)
      && (Present(e) && Large(e) ==> !Mappable(mem, tree, free, s))
      && (!Present(e) && free == [] ==> !Mappable(mem, tree, free, s))
  {
    WalkEndsAtLastTable(mem, tree, s);
    assert PathTo(s, level) in tree;
    assert LinkedAt(mem, tree, PathTo(s, level));
    assert PathTo(s, level - 1) == Sub(PathTo(s, level), SlotAt(s, level));
    assert NewFrames(tree, tree) == {};
  }

  lemma NoFreeZero(mem: Memory, tree: Tree, free: seq<Word>)
    requires PoolApart(mem, tree, free)
    ensures 0 !in free
  {
  }

  /** Allocating the table that the walk to `s` ended at: the tree grows by one level towards `s`. */
  lemma AllocatedTable(mem: Memory, mem': Memory, tree: Tree, free: seq<Word>, s: Slots, level: nat, frame: Word,
                       flags: Word)
    requires IsTree(mem, tree) && PoolApart(mem, tree, free + [frame])
    requires 2 <= level <= 4 && LastLevel(tree, s) <= level && PathTo(s, level) in tree
    requires !Present(mem[tree[PathTo(s, level)]][SlotAt(s, level)])
    requires mem' == HangTable(mem, tree[PathTo(s, level)], SlotAt(s, level), frame, flags)
    ensures var tree' := tree[PathTo(s, level - 1) := frame];
      && IsTree(mem', tree') && PoolApart(mem', tree', free) && tree'[Root] == tree[Root]
      && Extends(mem, tree, free + [frame], mem', tree', free, s.l4)
      && LastLevel(tree', s) < level
      && Mappable(mem', tree', free, s) == Mappable(mem, tree, free + [frame], s)
    ensures var e := mem'[tree[PathTo(s, level)]][SlotAt(s, level)]; PointsToTable(e) && AddrOf(e) == frame
  {
    var p, i := PathTo(s, level), SlotAt(s, level);
    assert PathTo(s, level - 1) == Sub(p, i);
    HangTableKeepsSpace(mem, mem', tree, free, p, i, frame, flags);
    OneTableMore(tree, free, p, i, frame, s.l4);
    LastLevelAfterNewTable(tree, p, i, frame, s);
    assert LastLevel(tree, s) == level;
    var tree' := tree[Sub(p, i) := frame];
    assert mem'[frame] == ZeroTable();
    assert mem'[frame][SlotAt(s, level - 1)] == 0;
  }

  lemma OneTableMore(tree: Tree, free: seq<Word>, p: Path, i: Slot, frame: Word, slot: Slot)
    requires Shape(tree) && p in tree && Sub(p, i) !in tree && UnderSlots(Sub(p, i), Root, slot, slot + 1)
    ensures Grew(tree, free + [frame], tree[Sub(p, i) := frame], free, slot)
    ensures p == Root || tree[p] in Below(tree[Sub(p, i) := frame], Root, slot, slot + 1)
    ensures frame in Below(tree[Sub(p, i) := frame], Root, slot, slot + 1)
  {
    var tree' := tree[Sub(p, i) := frame];
    assert NewFrames(tree, tree') == {frame} by {
      assert tree'[Sub(p, i)] == frame;
    }
    assert Frames(free + [frame]) == Frames(free) + {frame};
    assert Sub(p, i) in tree' && tree'[Sub(p, i)] == frame;
    assert p in tree' && tree'[p] == tree[p];
    if p != Root {
      assert UnderSlots(p, Root, slot, slot + 1);
    }
  }

  lemma GrewTwice(t0: Tree, f0: seq<Word>, t1: Tree, f1: seq<Word>, t2: Tree, f2: seq<Word>, slot: Slot)
    requires Grew(t0, f0, t1, f1, slot) && Grew(t1, f1, t2, f2, slot)
    ensures Grew(t0, f0, t2, f2, slot)
  {
    assert NewFrames(t0, t2) == NewFrames(t0, t1) + NewFrames(t1, t2);
  }

  lemma OnlyBelowTwice(m0: Memory, m1: Memory, m2: Memory, t1: Tree, t2: Tree, slot: Slot)
    requires OnlyBelow(m0, m1, t1, slot) && OnlyBelow(m1, m2, t2, slot)
    requires forall p :: p in t1 ==> p in t2 && t2[p] == t1[p]
    ensures OnlyBelow(m0, m2, t2, slot)
  {
    assert Below(t1, Root, slot, slot + 1) <= Below(t2, Root, slot, slot + 1);
  }

  lemma ExtendsTwice(m0: Memory, t0: Tree, f0: seq<Word>, m1: Memory, t1: Tree, f1: seq<Word>,
                     m2: Memory, t2: Tree, f2: seq<Word>, slot: Slot)
    requires Extends(m0, t0, f0, m1, t1, f1, slot) && Extends(m1, t1, f1, m2, t2, f2, slot)
    ensures Extends(m0, t0, f0, m2, t2, f2, slot)
  {
    GrewTwice(t0, f0, t1, f1, t2, f2, slot);
    OnlyBelowTwice(m0, m1, m2, t1, t2, slot);
  }
}
