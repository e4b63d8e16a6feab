/** The whole life of a process address space: create, any run of page operations, destroy. */
module ProcessLife {
  import opened PageBits
  import opened FramePool
  import opened PageTree
  import opened Teardown
  import opened AddressSpace

  /**
   What a process may do between creation and destruction: page operations, taking frames for its pages, and filling
   them.
   */
  datatype Op =
    | Map(v: Word, phys: Word, flags: Word)
    | Unmap(v: Word)
    | Protect(v: Word, flags: Word)
    | TakeFrame
    | GiveFrame(frame: Word)
    | Fill(frame: Word, content: Table)

  /** The operation stays in PML4 slots 1 to 255. */
  predicate Confined(op: Op) {
    match op
    case Map(v, _, _) => 1 <= SlotsOf(v).l4 < 256
    case Unmap(v) => 1 <= SlotsOf(v).l4 < 256
    case Protect(v, _) => 1 <= SlotsOf(v).l4 < 256
    case TakeFrame => true
    case GiveFrame(_) => true
    case Fill(_, _) => true
  }

  /** Both trees are intact, and they have exactly the tables below slot 0 and the upper half in common. */
  ghost predicate TwoSpaces(mem: Memory, ktree: Tree, tree: Tree) {
    && IsTree(mem, ktree) && IsTree(mem, tree)
    && (forall q :: Shared(q) ==> (q in tree <==> q in ktree) && (q in tree ==> tree[q] == ktree[q]))
  }

  /** The pool's stack is large enough for all of `frames`. */
  ghost predicate Fits(frames: set<Word>) { |frames| <= MAX_TRACKED_PAGES }

  /** The frames of `home` are split between the pool, the process's own tables, and frames handed out. */
  ghost predicate SplitHome(mem: Memory, free: seq<Word>, ktree: Tree, tree: Tree, held: set<Word>, home: set<Word>) {
    && Root in tree && NoDup(free) && Fits(home)
    && home == Frames(free) + Private(tree) + held
    && Frames(free) !! Private(tree) && Frames(free) !! held && Private(tree) !! held
    && (forall f :: f in home ==> f in mem && FrameOk(f))
    && (forall q :: q in ktree ==> ktree[q] !in home)
  }

  lemma EveryPathHasSlot(q: Path)
    ensures q == Root || Shared(q) || UnderSlots(q, Root, 1, 256)
    decreases q
  {
    match q
    case Root =>
    case Sub(r, _) => EveryPathHasSlot(r);
  }

  /** No table of the process is a free frame. */
  lemma ProcessApart(mem: Memory, free: seq<Word>, ktree: Tree, tree: Tree, held: set<Word>, home: set<Word>)
    requires TwoSpaces(mem, ktree, tree) && SplitHome(mem, free, ktree, tree, held, home)
    ensures PoolApart(mem, tree, free) && PoolApart(mem, ktree, free)
    ensures forall q :: q in tree && Shared(q) ==> tree[q] !in home
  {
    assert forall f :: f in free ==> f in Frames(free) && f in home;
    forall q | q in tree ensures tree[q] !in free {
      EveryPathHasSlot(q);
      if UnderSlots(q, Root, 1, 256) {
        assert tree[q] in Private(tree);
      }
    }
  }

  /** Operations below a private root slot keep the kernel's tree and all its tables. */
  lemma PrivateWriteKeepsKernel(mem: Memory, mem': Memory, free: seq<Word>, free': seq<Word>, ktree: Tree, tree: Tree,
                                tree': Tree, held: set<Word>, home: set<Word>, slot: Slot)
    requires TwoSpaces(mem, ktree, tree) && SplitHome(mem, free, ktree, tree, held, home)
    requires IsTree(mem', tree') && Grew(tree, free, tree', free', slot) && OnlyBelow(mem, mem', tree', slot)
    requires 1 <= slot < 256
    ensures forall q :: q in ktree ==> mem'[ktree[q]] == mem[ktree[q]]
    ensures TwoSpaces(mem', ktree, tree')
  {
    forall q | q in ktree ensures mem'[ktree[q]] == mem[ktree[q]] {
      PrivateSlotInHome(free, free', tree, tree', held, home, slot);
    }
    SameTables(mem, mem', ktree);
    forall q | Shared(q) ensures q in tree' <==> q in tree {
      SlotRangeWithin(q, Root, 0, 1, slot, slot + 1);
      SlotRangeWithin(q, Root, 256, 512, slot, slot + 1);
    }
  }

  lemma PrivateSlotInHome(free: seq<Word>, free': seq<Word>, tree: Tree, tree': Tree, held: set<Word>, home: set<Word>,
                          slot: Slot)
    requires Root in tree && home == Frames(free) + Private(tree) + held
    requires Grew(tree, free, tree', free', slot) && 1 <= slot < 256
    ensures tree'[Root] in home && Below(tree', Root, slot, slot + 1) <= home
  {
    forall q | q in tree' && UnderSlots(q, Root, slot, slot + 1) ensures tree'[q] in home {
      SlotRangeWithin(q, Root, slot, slot + 1, 1, 256);
      if q !in tree {
        assert tree'[q] in NewFrames(tree, tree');
      }
    }
  }

  lemma SameTables(mem: Memory, mem': Memory, tree: Tree)
    requires IsTree(mem, tree) && mem'.Keys == mem.Keys && forall q :: q in tree ==> mem'[tree[q]] == mem[tree[q]]
    ensures IsTree(mem', tree) && forall s :: Walk(mem', tree[Root], s) == Walk(mem, tree[Root], s)
  {
    forall q | q in tree && Depth(q) < 3 ensures LinkedAt(mem', tree, q) {
      assert LinkedAt(mem, tree, q);
    }
    forall s ensures Walk(mem', tree[Root], s) == Walk(mem, tree[Root], s) {
      WalkEndsAtLastTable(mem, tree, s);
      WalkEndsAtLastTable(mem', tree, s);
    }
  }

  /** New table pages move from the pool to the process: the split of `home` stays exact. */
  lemma GrowthKeepsSplit(mem: Memory, mem': Memory, free: seq<Word>, free': seq<Word>, ktree: Tree, tree: Tree,
                         tree': Tree, held: set<Word>, home: set<Word>, slot: Slot)
    requires SplitHome(mem, free, ktree, tree, held, home) && Shape(tree') && mem'.Keys == mem.Keys
    requires Grew(tree, free, tree', free', slot) && 1 <= slot < 256
    requires NoDup(free') && forall q :: q in tree' ==> tree'[q] !in free'
    ensures SplitHome(mem', free', ktree, tree', held, home)
  {
    hide Fits;
    PrivateGrows(tree, free, tree', free', slot);
    assert forall f :: f in Private(tree') ==> f !in Frames(free');
  }

  lemma PrivateGrows(tree: Tree, free: seq<Word>, tree': Tree, free': seq<Word>, slot: Slot)
    requires Root in tree && Grew(tree, free, tree', free', slot) && 1 <= slot < 256
    ensures Private(tree') == Private(tree) + NewFrames(tree, tree')
  {
    forall q | q in tree' && q !in tree ensures UnderSlots(q, Root, 1, 256) {
      SlotRangeWithin(q, Root, slot, slot + 1, 1, 256);
    }
  }

  /** A frame taken by the process moves from the pool to the frames it holds. */
  lemma TakeKeepsSplit(mem: Memory, free: seq<Word>, f: Word, ktree: Tree, tree: Tree, held: set<Word>, home: set<Word>)
    requires SplitHome(mem, free + [f], ktree, tree, held, home)
    ensures f !in held && SplitHome(mem, free, ktree, tree, held + {f}, home)
  {
    assert (free + [f])[|free|] == f;
    assert Frames(free + [f]) == Frames(free) + {f};
    assert forall i :: 0 <= i < |free| ==> free[i] == (free + [f])[i];
  }

  /** A held frame fits back into the pool, whose stack is never full. */
  lemma GiveKeepsSplit(mem: Memory, free: seq<Word>, f: Word, ktree: Tree, tree: Tree, held: set<Word>, home: set<Word>)
    requires SplitHome(mem, free, ktree, tree, held, home) && f in held
    ensures f != 0 && Aligned(f) && |free| < MAX_TRACKED_PAGES
    ensures SplitHome(mem, free + [f], ktree, tree, held - {f}, home)
  {
    assert f in home;
    FrameOkAligned(f);
    NoDupSize(free);
    Subset(Frames(free) + {f}, home);
    assert |Frames(free) + {f}| == |Frames(free)| + 1;
    assert Frames(free + [f]) == Frames(free) + {f};
    NoDupConcat(free, [f]);
  }

  lemma HeldApart(mem: Memory, free: seq<Word>, f: Word, ktree: Tree, tree: Tree, held: set<Word>, home: set<Word>)
    requires TwoSpaces(mem, ktree, tree) && SplitHome(mem, free, ktree, tree, held, home) && f in held && f in home
    ensures (forall q :: q in tree ==> tree[q] != f) && (forall q :: q in ktree ==> ktree[q] != f)
  {
    hide IsTree;
    forall q | q in tree ensures tree[q] != f {
      EveryPathHasSlot(q);
      assert Shared(q) ==> tree[q] == ktree[q];
      assert !Shared(q) ==> tree[q] in Private(tree);
    }
  }

  /** What the process writes into frames it holds reaches no page table. */
  lemma FillKeepsSpaces(mem: Memory, free: seq<Word>, f: Word, content: Table, ktree: Tree, tree: Tree, held: set<Word>,
                        home: set<Word>)
    requires TwoSpaces(mem, ktree, tree) && SplitHome(mem, free, ktree, tree, held, home) && f in held
    ensures TwoSpaces(mem[f := content], ktree, tree) && SplitHome(mem[f := content], free, ktree, tree, held, home)
    ensures forall q :: q in ktree ==> ktree[q] != f
  {
    hide IsTree;
    assert f in home;
    HeldApart(mem, free, f, ktree, tree, held, home);
    SameTables(mem, mem[f := content], tree);
    SameTables(mem, mem[f := content], ktree);
  }

  /** The state of a process between creation and destruction, seen from the memory `mem0` it started in. */
  ghost predicate Alive(mem0: Memory, mem: Memory, free: seq<Word>, ktree: Tree, tree: Tree, held: set<Word>,
                        home: set<Word>)
  {
    && TwoSpaces(mem, ktree, tree) && SplitHome(mem, free, ktree, tree, held, home) && mem.Keys == mem0.Keys
    && (forall q :: q in ktree ==> mem[ktree[q]] == mem0[ktree[q]])
  }

  /** A fresh address space owns just its root. */
  lemma ForkStarts(mem: Memory, mem': Memory, free: seq<Word>, root: Word, ktree: Tree)
    requires IsTree(mem, ktree) && PoolApart(mem, ktree, free + [root]) && |free| < MAX_TRACKED_PAGES
    requires IsTree(mem', ForkTree(ktree, root)) && mem'.Keys == mem.Keys
    requires forall f :: f in mem && f != root ==> mem'[f] == mem[f]
    ensures Alive(mem, mem', free, ktree, ForkTree(ktree, root), {}, Frames(free + [root]))
    ensures FrameOk(root) && Root in ForkTree(ktree, root) && ForkTree(ktree, root)[Root] == root
  {
    var tree := ForkTree(ktree, root);
    assert (free + [root])[|free|] == root && root in free + [root];
    SameTables(mem, mem', ktree);
    forall q | q in tree ensures !UnderSlots(q, Root, 1, 256) {
      SlotRangeWithin(q, Root, 0, 1, 1, 256);
      SlotRangeWithin(q, Root, 256, 512, 1, 256);
    }
    assert Below(tree, Root, 1, 256) == {};
    assert Private(tree) == {root};
    assert Frames(free + [root]) == Frames(free) + {root};
    NoDupSize(free + [root]);
    assert forall i :: 0 <= i < |free| ==> free[i] == (free + [root])[i];
    forall q | Shared(q) ensures q != Root {
    }
  }

  /** At the end of the life the process's tables are ready to be torn down. */
  lemma ReadyToDestroy(mem: Memory, free: seq<Word>, ktree: Tree, tree: Tree, held: set<Word>, home: set<Word>)
    requires TwoSpaces(mem, ktree, tree) && SplitHome(mem, free, ktree, tree, held, home)
    ensures PrivateLinked(mem, tree) && CanTake(free, Private(tree))
    ensures forall q :: q in ktree ==> ktree[q] !in Private(tree)
    ensures FrameOk(tree[Root]) && tree[Root] != ktree[Root]
  {
    assert LinkedAt(mem, tree, Root);
    assert tree[Root] in Private(tree);
    forall q | q in tree && UnderSlots(q, Root, 1, 256) ensures tree[q] in Private(tree) {
    }
    NoDupSize(free);
    Subset(Frames(free) + Private(tree), home);
    assert |Frames(free) + Private(tree)| == |Frames(free)| + |Private(tree)|;
  }

  /** Which home frames are back in the pool once the private tables are freed: all but the held ones. */
  lemma Destroyed(mem: Memory, free: seq<Word>, free': seq<Word>, ktree: Tree, tree: Tree, held: set<Word>,
                  home: set<Word>)
    requires SplitHome(mem, free, ktree, tree, held, home) && TookIn(free, Private(tree), free')
    ensures NoDup(free') && Frames(free') + held == home && Frames(free') !! held
  {
  }

  lemma AliveAfterPageOp(mem0: Memory, mem: Memory, free: seq<Word>, tree: Tree, mem': Memory, free': seq<Word>,
                         tree': Tree,
                         ktree: Tree, held: set<Word>, home: set<Word>, slot: Slot)
    requires Alive(mem0, mem, free, ktree, tree, held, home) && 1 <= slot < 256
    requires IsTree(mem', tree') && PoolApart(mem', tree', free')
    requires Grew(tree, free, tree', free', slot) && OnlyBelow(mem, mem', tree', slot)
    ensures Alive(mem0, mem', free', ktree, tree', held, home)
  {
    PrivateWriteKeepsKernel(mem, mem', free, free', ktree, tree, tree', held, home, slot);
    GrowthKeepsSplit(mem, mem', free, free', ktree, tree, tree', held, home, slot);
  }

  lemma NoGrowth(tree: Tree, free: seq<Word>, slot: Slot)
    ensures Grew(tree, free, tree, free, slot)
  {
    assert NewFrames(tree, tree) == {};
  }

  /** Mapping a page: table frames move from the pool to the process, everything else stays. */
  method MapStep(vm: Vm, v: Word, phys: Word, flags: Word, ghost mem0: Memory, ghost ktree: Tree, ghost tree: Tree,
                 ghost held: set<Word>, ghost home: set<Word>) returns (ghost tree': Tree)
    requires vm.pool.Valid() && 1 <= SlotsOf(v).l4 < 256 && Root in tree && tree[Root] == AddrOf(vm.cr3)
    requires Alive(mem0, vm.mem, vm.pool.Free(), ktree, tree, held, home)
    modifies vm`mem, vm.pool`top
    ensures vm.pool.Valid() && Root in tree' && tree'[Root] == tree[Root]
    ensures Alive(mem0, vm.mem, vm.pool.Free(), ktree, tree', held, home)
  {
    ghost var mem, free := vm.mem, vm.pool.Free();
    ProcessApart(mem, free, ktree, tree, held, home);
    hide IsTree;
    hide PoolApart;
    hide OnlyBelow;
    hide Mappable;
    var ok;
    ok, tree' := vm.MapPageCurrent(v, phys, flags, tree);
    hide Alive;
    AliveAfterPageOp(mem0, mem, free, tree, vm.mem, vm.pool.Free(), tree', ktree, held, home, SlotsOf(v).l4);
  }

  /** Unmapping or protecting a page frees no frame and takes none. */
  method EntryStep(vm: Vm, op: Op, ghost mem0: Memory, ghost ktree: Tree, ghost tree: Tree, ghost held: set<Word>,
                   ghost home: set<Word>)
    requires vm.pool.Valid() && (op.Unmap? || op.Protect?) && 1 <= SlotsOf(op.v).l4 < 256
    requires Root in tree && tree[Root] == AddrOf(vm.cr3)
    requires Alive(mem0, vm.mem, vm.pool.Free(), ktree, tree, held, home)
    modifies vm`mem
    ensures Alive(mem0, vm.mem, vm.pool.Free(), ktree, tree, held, home)
  {
    ghost var mem, free := vm.mem, vm.pool.Free();
    ProcessApart(mem, free, ktree, tree, held, home);
    NoGrowth(tree, free, SlotsOf(op.v).l4);
    hide IsTree;
    hide PoolApart;
    hide OnlyBelow;
    hide Grew;
    hide Walk;
    if op.Unmap? {
      var frame := vm.UnmapPageCurrent(op.v, tree);
    } else {
      var ok := vm.ProtectPageCurrent(op.v, op.flags, tree);
    }
    hide Alive;
    AliveAfterPageOp(mem0, mem, free, tree, vm.mem, vm.pool.Free(), tree, ktree, held, home, SlotsOf(op.v).l4);
  }

  /** The process takes a frame from the pool, if one is left. */
  method TakeStep(vm: Vm, held: set<Word>, ghost mem0: Memory, ghost ktree: Tree, ghost tree: Tree,
                  ghost home: set<Word>)
    returns (held': set<Word>)
    requires vm.pool.Valid() && Alive(mem0, vm.mem, vm.pool.Free(), ktree, tree, held, home)
    modifies vm.pool`top
    ensures vm.pool.Valid() && Alive(mem0, vm.mem, vm.pool.Free(), ktree, tree, held', home)
  {
    hide Alive;
    ghost var free := vm.pool.Free();
    var f := vm.pool.AllocPage();
    AliveAfterTake(mem0, vm.mem, free, vm.pool.Free(), f, ktree, tree, held, home);
    held' := if f == 0 then held else held + {f};
  }

  /** The process returns a frame it holds. */
  method GiveStep(vm: Vm, f: Word, held: set<Word>, ghost mem0: Memory, ghost ktree: Tree, ghost tree: Tree,
                  ghost home: set<Word>) returns (held': set<Word>)
    requires vm.pool.Valid() && Alive(mem0, vm.mem, vm.pool.Free(), ktree, tree, held, home)
    modifies vm.pool`top, vm.pool.stack
    ensures vm.pool.Valid() && Alive(mem0, vm.mem, vm.pool.Free(), ktree, tree, held', home)
  {
    hide Alive;
    held' := held;
    if f in held {
      AliveAfterGive(mem0, vm.mem, vm.pool.Free(), f, ktree, tree, held, home);
      vm.pool.FreePage(f);
      held' := held - {f};
    }
  }

  /** The process writes into a frame it holds. */
  method FillStep(vm: Vm, f: Word, content: Table, held: set<Word>, ghost mem0: Memory, ghost ktree: Tree,
                  ghost tree: Tree,
                  ghost home: set<Word>)
    requires vm.pool.Valid() && Alive(mem0, vm.mem, vm.pool.Free(), ktree, tree, held, home)
    modifies vm`mem
    ensures Alive(mem0, vm.mem, vm.pool.Free(), ktree, tree, held, home)
  {
    hide Alive;
    if f in held {
      AliveAfterFill(mem0, vm.mem, vm.pool.Free(), f, content, ktree, tree, held, home);
      vm.mem := vm.mem[f := content];
    }
  }

  lemma AliveAfterTake(mem0: Memory, mem: Memory, free: seq<Word>, free': seq<Word>, f: Word, ktree: Tree, tree: Tree,
                       held: set<Word>, home: set<Word>)
    requires Alive(mem0, mem, free, ktree, tree, held, home)
    requires if free == [] then f == 0 && free' == free else free == free' + [f]
    ensures Alive(mem0, mem, free', ktree, tree, if f == 0 then held else held + {f}, home)
  {
    if free != [] {
      assert free[|free'|] == f && f in Frames(free);
      TakeKeepsSplit(mem, free', f, ktree, tree, held, home);
    }
  }

  lemma AliveAfterGive(mem0: Memory, mem: Memory, free: seq<Word>, f: Word, ktree: Tree, tree: Tree, held: set<Word>,
                       home: set<Word>)
    requires Alive(mem0, mem, free, ktree, tree, held, home) && f in held
    ensures f != 0 && Aligned(f) && |free| < MAX_TRACKED_PAGES
    ensures Alive(mem0, mem, free + [f], ktree, tree, held - {f}, home)
  {
    GiveKeepsSplit(mem, free, f, ktree, tree, held, home);
  }

  lemma AliveAfterFill(mem0: Memory, mem: Memory, free: seq<Word>, f: Word, content: Table, ktree: Tree, tree: Tree,
                       held: set<Word>, home: set<Word>)
    requires Alive(mem0, mem, free, ktree, tree, held, home) && f in held
    ensures Alive(mem0, mem[f := content], free, ktree, tree, held, home)
  {
    FillKeepsSpaces(mem, free, f, content, ktree, tree, held, home);
    assert f in home;
  }

  /**
   Create, any confined run, destroy: the pool ends up with exactly the frames it had before, each once, except
   those the process still holds, and every translation of the kernel's own address space is what it was.
   */
  method Live(vm: Vm, ops: seq<Op>, ghost ktree: Tree) returns (held: set<Word>)
    requires vm.pool.Valid() && IsTree(vm.mem, ktree) && PoolApart(vm.mem, ktree, vm.pool.Free())
    requires ktree[Root] == vm.kernelCr3 == vm.cr3 && vm.kernelCr3 == AddrOf(vm.kernelCr3)
    requires forall op :: op in ops ==> Confined(op)
    modifies vm`mem, vm`cr3, vm.pool`top, vm.pool.stack
    ensures vm.pool.Valid() && NoDup(vm.pool.Free())
    ensures Frames(vm.pool.Free()) + held == Frames(old(vm.pool.Free())) && Frames(vm.pool.Free()) !! held
    ensures IsTree(vm.mem, ktree) && vm.cr3 == old(vm.cr3)
    ensures forall s :: Walk(vm.mem, ktree[Root], s) == old(Walk(vm.mem, ktree[Root], s))
  {
    held := {};
    ghost var mem0, free0 := vm.mem, vm.pool.Free();
    hide Alive;
    hide IsTree;
    hide Walk;
    var root := vm.CreateAddressSpace(ktree);
    if root == 0 {
      assert Frames(free0) + held == Frames(free0);
      return;
    }
    ForkStarts(mem0, vm.mem, vm.pool.Free(), root, ktree);
    held := LiveIn(vm, root, ops, mem0, ktree, ForkTree(ktree, root), Frames(free0));
  }

  /** The life of an address space that was created: run, then tear down. */
  method LiveIn(vm: Vm, root: Word, ops: seq<Op>, ghost mem0: Memory, ghost ktree: Tree, ghost tree: Tree,
                ghost home: set<Word>) returns (held: set<Word>)
    requires vm.pool.Valid() && FrameOk(root) && Root in tree && tree[Root] == root
    requires Alive(mem0, vm.mem, vm.pool.Free(), ktree, tree, {}, home)
    requires IsTree(mem0, ktree) && ktree[Root] == vm.kernelCr3
    requires vm.kernelCr3 != 0 && vm.kernelCr3 == AddrOf(vm.kernelCr3)
    requires forall op :: op in ops ==> Confined(op)
    modifies vm`mem, vm`cr3, vm.pool`top, vm.pool.stack
    ensures vm.pool.Valid() && NoDup(vm.pool.Free()) && Frames(vm.pool.Free()) !! held
    ensures Frames(vm.pool.Free()) + held == home
    ensures IsTree(vm.mem, ktree) && vm.cr3 == vm.kernelCr3
    ensures forall s :: Walk(vm.mem, ktree[Root], s) == Walk(mem0, ktree[Root], s)
  {
    hide Alive;
    hide Walk;
    ghost var tree';
    held, tree' := Run(vm, root, ops, mem0, ktree, tree, home);
    Finish(vm, root, mem0, ktree, tree', held, home);
  }

  /** The end of a life: tear down, and account for every frame. */
  method Finish(vm: Vm, root: Word, ghost mem0: Memory, ghost ktree: Tree, ghost tree: Tree, held: set<Word>,
                ghost home: set<Word>)
    requires vm.pool.Valid() && Alive(mem0, vm.mem, vm.pool.Free(), ktree, tree, held, home)
    requires IsTree(mem0, ktree) && ktree[Root] == vm.kernelCr3 && tree[Root] == vm.cr3 == root
    requires vm.kernelCr3 != 0 && vm.kernelCr3 == AddrOf(vm.kernelCr3)
    modifies vm`mem, vm`cr3, vm.pool`top, vm.pool.stack
    ensures vm.pool.Valid() && NoDup(vm.pool.Free()) && Frames(vm.pool.Free()) !! held
    ensures Frames(vm.pool.Free()) + held == home
    ensures IsTree(vm.mem, ktree) && vm.cr3 == vm.kernelCr3
    ensures forall s :: Walk(vm.mem, ktree[Root], s) == Walk(mem0, ktree[Root], s)
  {
    ghost var mem, free := vm.mem, vm.pool.Free();
    ReadyToDestroy(mem, free, ktree, tree, held, home);
    AddrExactIff(vm.kernelCr3);
    FrameOkAligned(root);
    hide PrivateLinked;
    hide CanTake;
    hide TookIn;
    hide SplitHome;
    hide Private;
    vm.DestroyAddressSpace(root, tree);
    Destroyed(mem, free, vm.pool.Free(), ktree, tree, held, home);
    SameTables(mem0, vm.mem, ktree);
  }

  /** The middle of a life: switch to the new space and run the operations one after the other. */
  method Run(vm: Vm, root: Word, ops: seq<Op>, ghost mem0: Memory, ghost ktree: Tree, ghost tree: Tree,
             ghost home: set<Word>)
    returns (held: set<Word>, ghost tree': Tree)
    requires vm.pool.Valid() && FrameOk(root) && Root in tree && tree[Root] == root
    requires Alive(mem0, vm.mem, vm.pool.Free(), ktree, tree, {}, home)
    requires forall op :: op in ops ==> Confined(op)
    modifies vm`mem, vm`cr3, vm.pool`top, vm.pool.stack
    ensures vm.pool.Valid() && vm.cr3 == root && Root in tree' && tree'[Root] == root
    ensures Alive(mem0, vm.mem, vm.pool.Free(), ktree, tree', held, home)
  {
    hide Alive;
    held, tree' := {}, tree;
    FrameOkAligned(root);
    vm.SwitchCr3(root);
    for i := 0 to |ops|
      invariant vm.pool.Valid() && vm.cr3 == root && Root in tree' && tree'[Root] == root
      invariant Alive(mem0, vm.mem, vm.pool.Free(), ktree, tree', held, home)
    {
      var op := ops[i];
      assert op in ops;
      match op {
        case TakeFrame => held := TakeStep(vm, held, mem0, ktree, tree', home);
        case GiveFrame(f) => held := GiveStep(vm, f, held, mem0, ktree, tree', home);
        case Fill(f, content) => FillStep(vm, f, content, held, mem0, ktree, tree', home);
        case Map(v, phys, flags) => tree' := MapStep(vm, v, phys, flags, mem0, ktree, tree', held, home);
        case _ => EntryStep(vm, op, mem0, ktree, tree', held, home);
      }
    }
  }
}
