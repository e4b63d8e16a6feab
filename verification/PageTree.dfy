/**
 Four-level page tables held in raw frames, seen as a tree. Physical memory maps a frame to its 512 entries; a
 tree names the table frames of one address space by the slots that lead to them from the root.
 */
module PageTree {
  import opened PageBits
  import opened FramePool

  type Table = t: seq<Word> | |t| == 512 witness seq(512, _ => 0)
  type Memory = map<Word, Table>

  function ZeroTable(): Table { seq(512, _ => 0) }

  datatype Path = Root | Sub(parent: Path, index: Slot)

  type Tree = map<Path, Word>

  function Depth(p: Path): nat {
    match p
    case Root => 0
    case Sub(q, _) => Depth(q) + 1
  }

  /** Whether `p` is `top` or lies below it. */
  predicate Under(p: Path, top: Path) {
    p == top || match p { case Root => false case Sub(q, _) => Under(q, top) }
  }

  /** Whether `p` lies below one of the slots lo, ..., hi - 1 of `top`. */
  predicate UnderSlots(p: Path, top: Path, lo: nat, hi: nat) {
    match p
    case Root => false
    case Sub(q, i) => (q == top && lo <= i < hi) || UnderSlots(q, top, lo, hi)
  }

  predicate PointsToTable(e: Word) { Present(e) && !Large(e) }

  /** Prefix-closed, at most four levels, and no frame named twice. */
  ghost predicate Shape(tree: Tree) {
    && Root in tree
    && (forall p :: p in tree ==> Depth(p) <= 3)
    && (forall p, q :: p in tree && q in tree && tree[p] == tree[q] ==> p == q)
    && (forall p, i: Slot :: Sub(p, i) in tree ==> p in tree)
  }

  /** The entries of the table at `p` point to exactly the tables that `tree` has below it. */
  ghost predicate LinkedAt(mem: Memory, tree: Tree, p: Path)
    requires p in tree && tree[p] in mem
  {
    forall i: Slot ::
      (Sub(p, i) in tree <==> PointsToTable(mem[tree[p]][i]))
      && (Sub(p, i) in tree ==> tree[Sub(p, i)] == AddrOf(mem[tree[p]][i]))
  }

  /** The frames named by `tree` hold a well-shaped, unshared table tree. The PML4 has no large-page entries. */
  ghost predicate IsTree(mem: Memory, tree: Tree) {
    && Shape(tree)
    && (forall p :: p in tree ==> tree[p] in mem)
    && (forall p :: p in tree && Depth(p) < 3 ==> LinkedAt(mem, tree, p))
    && (forall i: Slot :: Present(mem[tree[Root]][i]) ==> !Large(mem[tree[Root]][i]))
  }

  /** A frame pool whose frames are distinct, real, and not in use as a table of `tree`. */
  ghost predicate PoolApart(mem: Memory, tree: Tree, free: seq<Word>) {
    && NoDup(free)
    && (forall f :: f in free ==> f in mem && FrameOk(f))
    && (forall p :: p in tree ==> tree[p] !in free)
  }

  datatype Walked = Fault | Leaf(level: nat, entry: Word)

  /** The table walk of clks_vm_translate_current: the entry that decides an address and the level it sits at. */
  function Walk(mem: Memory, root: Word, s: Slots): Walked {
    if root !in mem || !Present(mem[root][s.l4]) then Fault
    else
      var pdpt := AddrOf(mem[root][s.l4]);
      if pdpt !in mem || !Present(mem[pdpt][s.l3]) then Fault
      else if Large(mem[pdpt][s.l3]) then Leaf(3, mem[pdpt][s.l3])
      else
        var pd := AddrOf(mem[pdpt][s.l3]);
        if pd !in mem || !Present(mem[pd][s.l2]) then Fault
        else if Large(mem[pd][s.l2]) then Leaf(2, mem[pd][s.l2])
        else
          var pt := AddrOf(mem[pd][s.l2]);
          if pt !in mem || !Present(mem[pt][s.l1]) then Fault
          else Leaf(1, mem[pt][s.l1])
  }

  /** The table visited at `level` on the way to `s`. */
  function PathTo(s: Slots, level: nat): (p: Path)
    requires 1 <= level <= 4
    ensures Depth(p) == 4 - level
  {
    assert Depth(Sub(Root, s.l4)) == 1;
    assert Depth(Sub(Sub(Root, s.l4), s.l3)) == 2;
    if level == 4 then Root
    else if level == 3 then Sub(Root, s.l4)
    else if level == 2 then Sub(Sub(Root, s.l4), s.l3)
    else Sub(Sub(Sub(Root, s.l4), s.l3), s.l2)
  }

  function SlotAt(s: Slots, level: nat): Slot
    requires 1 <= level <= 4
  {
    if level == 4 then s.l4 else if level == 3 then s.l3 else if level == 2 then s.l2 else s.l1
  }

  /** The level of the last table on the way to `s`. */
  function LastLevel(tree: Tree, s: Slots): (level: nat)
    ensures 1 <= level <= 4
  {
    if PathTo(s, 1) in tree then 1
    else if PathTo(s, 2) in tree then 2
    else if PathTo(s, 3) in tree then 3
    else 4
  }

  /** The entry of the last table on the way to `s` decides the walk: it is a page or a fault. */
  lemma WalkEndsAtLastTable(mem: Memory, tree: Tree, s: Slots)
    requires IsTree(mem, tree)
    ensures PathTo(s, LastLevel(tree, s)) in tree
    ensures var level := LastLevel(tree, s);
      var e := mem[tree[PathTo(s, level)]][SlotAt(s, level)];
      Walk(mem, tree[Root], s) == if Present(e) then Leaf(level, e) else Fault
  {
    assert LinkedAt(mem, tree, Root);
    if PathTo(s, 3) in tree {
      assert LinkedAt(mem, tree, PathTo(s, 3));
      if PathTo(s, 2) in tree {
        assert LinkedAt(mem, tree, PathTo(s, 2));
      }
    }
  }

  /** Memory `mem'` differs from `mem` in slot `i` of the table at `p` and, if at all, in the unused frame `n`. */
  ghost predicate OneEntryChanged(mem: Memory, mem': Memory, tree: Tree, p: Path, i: Slot) {
    && p in tree && tree[p] in mem && mem'.Keys == mem.Keys
    && mem'[tree[p]] == mem[tree[p]][i := mem'[tree[p]][i]]
    && (forall q :: q in tree && q != p && tree[q] in mem ==> mem'[tree[q]] == mem[tree[q]])
  }

  /** Hanging a zeroed table into an empty slot keeps the tree and changes no translation. */
  lemma NewTable(mem: Memory, mem': Memory, tree: Tree, p: Path, i: Slot, n: Word)
    requires IsTree(mem, tree) && OneEntryChanged(mem, mem', tree, p, i)
    requires Depth(p) < 3 && !Present(mem[tree[p]][i])
    requires n in mem && (forall q :: q in tree ==> tree[q] != n) && mem'[n] == ZeroTable()
    requires PointsToTable(mem'[tree[p]][i]) && AddrOf(mem'[tree[p]][i]) == n
    ensures IsTree(mem', tree[Sub(p, i) := n])
    ensures forall s :: Walk(mem', tree[Root], s) == Walk(mem, tree[Root], s)
  {
    assert LinkedAt(mem, tree, p);
    NewTableIsTree(mem, mem', tree, p, i, n);
    forall s ensures Walk(mem', tree[Root], s) == Walk(mem, tree[Root], s) {
      NewTableWalk(mem, mem', tree, p, i, n, s);
    }
  }

  lemma NewTableIsTree(mem: Memory, mem': Memory, tree: Tree, p: Path, i: Slot, n: Word)
    requires IsTree(mem, tree) && OneEntryChanged(mem, mem', tree, p, i)
    requires Depth(p) < 3 && Sub(p, i) !in tree
    requires n in mem && (forall q :: q in tree ==> tree[q] != n) && mem'[n] == ZeroTable()
    requires PointsToTable(mem'[tree[p]][i]) && AddrOf(mem'[tree[p]][i]) == n
    ensures IsTree(mem', tree[Sub(p, i) := n])
  {
    var tree' := tree[Sub(p, i) := n];
    assert Shape(tree');
    forall q | q in tree' && Depth(q) < 3 ensures LinkedAt(mem', tree', q) {
      if q == Sub(p, i) {
        assert forall j: Slot :: Sub(q, j) !in tree && mem'[n][j] == 0;
      } else {
        assert LinkedAt(mem, tree, q);
      }
    }
    if p == Root {
      assert forall j: Slot :: j != i ==> mem'[tree[Root]][j] == mem[tree[Root]][j];
    }
  }

  lemma NewTableWalk(mem: Memory, mem': Memory, tree: Tree, p: Path, i: Slot, n: Word, s: Slots)
    requires IsTree(mem, tree) && OneEntryChanged(mem, mem', tree, p, i)
    requires Depth(p) < 3 && Sub(p, i) !in tree && !Present(mem[tree[p]][i])
    requires n in mem && mem'[n] == ZeroTable() && IsTree(mem', tree[Sub(p, i) := n])
    ensures Walk(mem', tree[Root], s) == Walk(mem, tree[Root], s)
  {
    var tree' := tree[Sub(p, i) := n];
    WalkEndsAtLastTable(mem, tree, s);
    WalkEndsAtLastTable(mem', tree', s);
    LastLevelAfterNewTable(tree, p, i, n, s);
    DecidingEntryAfterNewTable(mem, mem', tree, p, i, n, s);
  }

  lemma DecidingEntryAfterNewTable(mem: Memory, mem': Memory, tree: Tree, p: Path, i: Slot, n: Word, s: Slots)
    requires OneEntryChanged(mem, mem', tree, p, i) && Depth(p) < 3 && Sub(p, i) !in tree && !Present(mem[tree[p]][i])
    requires n in mem && mem'[n] == ZeroTable() && PathTo(s, LastLevel(tree, s)) in tree
    requires forall q :: q in tree ==> tree[q] in mem
    ensures var level, tree' := LastLevel(tree, s), tree[Sub(p, i) := n];
      var e := mem[tree[PathTo(s, level)]][SlotAt(s, level)];
      if level > 1 && PathTo(s, level) == p && SlotAt(s, level) == i
      then !Present(e) && !Present(mem'[tree'[Sub(p, i)]][SlotAt(s, level - 1)])
      else mem'[tree'[PathTo(s, level)]][SlotAt(s, level)] == e
  {
    var level := LastLevel(tree, s);
    if level > 1 && PathTo(s, level) == p && SlotAt(s, level) == i {
      assert mem'[n][SlotAt(s, level - 1)] == 0;
    }
  }

  /** A walk that ended in the slot that got the new table now ends in that table; other walks end where they did. */
  lemma LastLevelAfterNewTable(tree: Tree, p: Path, i: Slot, n: Word, s: Slots)
    requires Shape(tree) && p in tree && Sub(p, i) !in tree
    ensures var level, level' := LastLevel(tree, s), LastLevel(tree[Sub(p, i) := n], s);
      if level > 1 && PathTo(s, level) == p && SlotAt(s, level) == i
      then level' == level - 1 && PathTo(s, level') == Sub(p, i)
      else level' == level && PathTo(s, level) != Sub(p, i)
  {
    assert PathTo(s, 1) == Sub(PathTo(s, 2), s.l2);
    assert PathTo(s, 2) == Sub(PathTo(s, 3), s.l3);
    assert PathTo(s, 3) == Sub(PathTo(s, 4), s.l4);
    if PathTo(s, 1) in tree {
    } else if PathTo(s, 2) in tree {
    } else if PathTo(s, 3) in tree {
    }
  }

  /** Writing a page-table entry keeps the tree and decides the translation of its own page only. */
  lemma SetLeaf(mem: Memory, mem': Memory, tree: Tree, s: Slots)
    requires IsTree(mem, tree) && PathTo(s, 1) in tree && OneEntryChanged(mem, mem', tree, PathTo(s, 1), s.l1)
    ensures IsTree(mem', tree)
    ensures var e := mem'[tree[PathTo(s, 1)]][s.l1];
      forall t :: Walk(mem', tree[Root], t) ==
        if t == s then (if Present(e) then Leaf(1, e) else Fault) else Walk(mem, tree[Root], t)
  {
    forall q | q in tree && Depth(q) < 3 ensures LinkedAt(mem', tree, q) {
      assert LinkedAt(mem, tree, q);
    }
    var e := mem'[tree[PathTo(s, 1)]][s.l1];
    forall t ensures Walk(mem', tree[Root], t) ==
        if t == s then (if Present(e) then Leaf(1, e) else Fault) else Walk(mem, tree[Root], t)
    {
      WalkEndsAtLastTable(mem, tree, t);
      WalkEndsAtLastTable(mem', tree, t);
    }
  }
}
