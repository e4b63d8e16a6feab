/** Which frames belong to which part of a table tree, and what a shared kernel half adds to it. */
module Teardown {
  import opened PageBits
  import opened FramePool
  import opened PageTree

  /** The frames of the tables below slots lo, ..., hi - 1 of the table at `top`. */
  ghost function Below(tree: Tree, top: Path, lo: nat, hi: nat): set<Word> {
    set q | q in tree && UnderSlots(q, top, lo, hi) :: tree[q]
  }

  /** The frames of the table at `top` and of all tables below it. */
  ghost function Subtree(tree: Tree, top: Path): set<Word> {
    set q | q in tree && Under(q, top) :: tree[q]
  }

  lemma {:induction false} UnderIsDeeper(q: Path, top: Path)
    ensures Under(q, top) ==> Depth(q) >= Depth(top)
    ensures forall lo, hi :: UnderSlots(q, top, lo, hi) ==> Depth(q) > Depth(top)
  {
    match q
    case Root =>
    case Sub(r, _) => UnderIsDeeper(r, top);
  }

  lemma {:induction false} UnderSelfOrSlot(q: Path, top: Path)
    ensures Under(q, top) <==> q == top || UnderSlots(q, top, 0, 512)
  {
    match q
    case Root =>
    case Sub(r, _) => UnderSelfOrSlot(r, top);
  }

  /** One more slot adds exactly the paths through that slot, none of which were there before. */
  lemma {:induction false} OneMoreSlot(q: Path, top: Path, lo: nat, i: Slot)
    requires lo <= i
    ensures UnderSlots(q, top, lo, i + 1) <==> UnderSlots(q, top, lo, i) || Under(q, Sub(top, i))
    ensures !(UnderSlots(q, top, lo, i) && Under(q, Sub(top, i)))
  {
    match q
    case Root =>
    case Sub(r, j) =>
      OneMoreSlot(r, top, lo, i);
      UnderIsDeeper(r, Sub(top, i));
      UnderIsDeeper(r, top);
  }

  /** Everything below a slot range starts in one of its slots. */
  lemma {:induction false} SlotRangeWithin(q: Path, top: Path, lo: nat, hi: nat, lo': nat, hi': nat)
    ensures lo' <= lo && hi <= hi' && UnderSlots(q, top, lo, hi) ==> UnderSlots(q, top, lo', hi')
    ensures (hi <= lo' || hi' <= lo) && UnderSlots(q, top, lo, hi) ==> !UnderSlots(q, top, lo', hi')
  {
    match q
    case Root =>
    case Sub(r, j) =>
      SlotRangeWithin(r, top, lo, hi, lo', hi');
      UnderIsDeeper(r, top);
      assert r == top ==> !UnderSlots(r, top, lo, hi) && !UnderSlots(r, top, lo', hi');
  }

  lemma {:induction false} AncestorInTree(tree: Tree, q: Path, top: Path)
    requires Shape(tree) && q in tree && Under(q, top)
    ensures top in tree
  {
    if q != top {
      AncestorInTree(tree, q.parent, top);
    }
  }

  /** Taking slot `i` of `top` into account adds the subtree hanging there, if there is one. */
  lemma BelowNextSlot(tree: Tree, top: Path, lo: nat, i: Slot)
    requires Shape(tree) && lo <= i
    ensures Below(tree, top, lo, i + 1) == Below(tree, top, lo, i) + Subtree(tree, Sub(top, i))
    ensures Below(tree, top, lo, i) !! Subtree(tree, Sub(top, i))
    ensures Sub(top, i) !in tree ==> Subtree(tree, Sub(top, i)) == {}
  {
    forall q | q in tree
      ensures UnderSlots(q, top, lo, i + 1) <==> UnderSlots(q, top, lo, i) || Under(q, Sub(top, i))
      ensures !(UnderSlots(q, top, lo, i) && Under(q, Sub(top, i)))
    {
      OneMoreSlot(q, top, lo, i);
    }
    forall q | q in tree && Under(q, Sub(top, i)) ensures Sub(top, i) in tree {
      AncestorInTree(tree, q, Sub(top, i));
    }
  }

  lemma BelowWithin(tree: Tree, top: Path, lo: nat, i: nat, hi: nat)
    requires i <= hi
    ensures Below(tree, top, lo, i) <= Below(tree, top, lo, hi)
  {
    forall q | q in tree ensures UnderSlots(q, top, lo, i) ==> UnderSlots(q, top, lo, hi) {
      SlotRangeWithin(q, top, lo, i, lo, hi);
    }
  }

  lemma SubtreeSplits(tree: Tree, top: Path)
    requires Shape(tree) && top in tree
    ensures Subtree(tree, top) == Below(tree, top, 0, 512) + {tree[top]}
    ensures tree[top] !in Below(tree, top, 0, 512)
  {
    forall q | q in tree
      ensures Under(q, top) <==> q == top || UnderSlots(q, top, 0, 512)
      ensures !UnderSlots(top, top, 0, 512)
    {
      UnderSelfOrSlot(q, top);
      UnderIsDeeper(top, top);
    }
  }

  lemma BelowNothing(tree: Tree, top: Path, lo: nat)
    ensures Below(tree, top, lo, lo) == {}
  {
    forall q | q in tree ensures !UnderSlots(q, top, lo, lo) {
      EmptyRange(q, top, lo);
    }
  }

  lemma {:induction false} EmptyRange(q: Path, top: Path, lo: nat)
    ensures !UnderSlots(q, top, lo, lo)
  {
    match q
    case Root =>
    case Sub(r, _) => EmptyRange(r, top, lo);
  }

  /** What tearing down slots lo, ..., hi - 1 of the table at `p` reads: those subtrees are well linked. */
  ghost predicate SlotsLinked(mem: Memory, tree: Tree, p: Path, lo: nat, hi: nat) {
    && Shape(tree) && p in tree && tree[p] in mem && LinkedAt(mem, tree, p)
    && (forall q :: q in tree && UnderSlots(q, p, lo, hi) ==> tree[q] in mem && FrameOk(tree[q]))
    && (forall q :: q in tree && UnderSlots(q, p, lo, hi) && Depth(q) < 3 ==> LinkedAt(mem, tree, q))
  }

  /** What tearing down the table at `p` itself reads. */
  ghost predicate SubtreeLinked(mem: Memory, tree: Tree, p: Path) {
    && Shape(tree) && p in tree && tree[p] in mem && FrameOk(tree[p])
    && (Depth(p) < 3 ==> SlotsLinked(mem, tree, p, 0, 512))
  }

  /** No table hangs in slots lo, ..., hi - 1. */
  ghost predicate Cleared(mem: Memory, table: Word, lo: nat, hi: nat) {
    table in mem && forall j: Slot :: lo <= j < hi ==> !PointsToTable(mem[table][j])
  }

  /** Memory after slots lo, ..., i - 1 of the table at `p` were torn down. */
  ghost predicate TornDown(mem0: Memory, mem: Memory, tree: Tree, p: Path, lo: nat, i: nat) {
    && p in tree && tree[p] in mem0 && mem.Keys == mem0.Keys
    && (forall f :: f in mem0 && f != tree[p] && f !in Below(tree, p, lo, i) ==> mem[f] == mem0[f])
    && (forall j: Slot :: i <= j ==> mem[tree[p]][j] == mem0[tree[p]][j])
    && Cleared(mem, tree[p], lo, i)
  }

  lemma TableInSlotIntact(mem0: Memory, mem: Memory, tree: Tree, p: Path, lo: nat, hi: nat, i: Slot, q: Path)
    requires Shape(tree) && TornDown(mem0, mem, tree, p, lo, i) && lo <= i < hi
    requires q in tree && tree[q] in mem0 && Under(q, Sub(p, i))
    ensures UnderSlots(q, p, lo, hi) && tree[q] != tree[p] && mem[tree[q]] == mem0[tree[q]]
  {
    OneMoreSlot(q, p, lo, i);
    SlotRangeWithin(q, p, lo, i + 1, lo, hi);
    UnderIsDeeper(q, p);
    BelowNextSlot(tree, p, lo, i);
    assert tree[q] in Subtree(tree, Sub(p, i));
  }

  /** The subtree in slot `i` is still intact while the slots before it are torn down. */
  lemma NextSlotIntact(mem0: Memory, mem: Memory, tree: Tree, p: Path, lo: nat, hi: nat, i: Slot)
    requires SlotsLinked(mem0, tree, p, lo, hi) && TornDown(mem0, mem, tree, p, lo, i) && lo <= i < hi && Depth(p) < 3
    ensures Sub(p, i) in tree <==> PointsToTable(mem[tree[p]][i])
    ensures Sub(p, i) in tree ==> AddrOf(mem[tree[p]][i]) == tree[Sub(p, i)] && SubtreeLinked(mem, tree, Sub(p, i))
    ensures tree[p] in mem && tree[p] !in Subtree(tree, Sub(p, i))
  {
    assert mem[tree[p]][i] == mem0[tree[p]][i];
    UnderIsDeeper(p, Sub(p, i));
    if Sub(p, i) in tree {
      var r := Sub(p, i);
      assert Under(r, r) && UnderSlots(r, p, lo, hi);
      if Depth(r) < 3 {
        LinkedSubtree(mem0, mem, tree, p, lo, hi, i);
      }
    }
  }

  lemma LinkedSubtree(mem0: Memory, mem: Memory, tree: Tree, p: Path, lo: nat, hi: nat, i: Slot)
    requires SlotsLinked(mem0, tree, p, lo, hi) && TornDown(mem0, mem, tree, p, lo, i) && lo <= i < hi
    requires Depth(p) < 2 && Sub(p, i) in tree
    ensures SlotsLinked(mem, tree, Sub(p, i), 0, 512)
  {
    var r := Sub(p, i);
    forall q | q in tree && Under(q, r)
      ensures UnderSlots(q, p, lo, hi) && tree[q] in mem && mem[tree[q]] == mem0[tree[q]]
    {
      OneMoreSlot(q, p, lo, i);
      SlotRangeWithin(q, p, lo, i + 1, lo, hi);
      TableInSlotIntact(mem0, mem, tree, p, lo, hi, i, q);
    }
    forall q | q in tree && Under(q, r) && Depth(q) < 3 ensures LinkedAt(mem, tree, q) {
      assert LinkedAt(mem0, tree, q);
    }
    forall q | q in tree && UnderSlots(q, r, 0, 512) ensures Under(q, r) {
      UnderSelfOrSlot(q, r);
    }
  }

  lemma SlotTornDown(mem0: Memory, mem: Memory, mem': Memory, tree: Tree, p: Path, lo: nat, i: Slot)
    requires TornDown(mem0, mem, tree, p, lo, i) && Shape(tree) && lo <= i && mem'.Keys == mem.Keys
    requires forall f :: f in mem && f != tree[p] && f !in Subtree(tree, Sub(p, i)) ==> mem'[f] == mem[f]
    requires forall j: Slot :: j != i ==> mem'[tree[p]][j] == mem[tree[p]][j]
    requires !PointsToTable(mem'[tree[p]][i])
    ensures TornDown(mem0, mem', tree, p, lo, i + 1)
  {
    BelowNextSlot(tree, p, lo, i);
  }

  lemma NothingBelowLevelOne(tree: Tree, p: Path)
    requires Shape(tree) && p in tree && Depth(p) == 3
    ensures Below(tree, p, 0, 512) == {}
  {
    forall q | q in tree ensures !UnderSlots(q, p, 0, 512) {
      UnderIsDeeper(q, p);
    }
  }

  /** Freeing `frames` is possible: the pool has room for all of them and holds none of them. */
  ghost predicate CanTake(free: seq<Word>, frames: set<Word>) {
    NoDup(free) && Frames(free) !! frames && |free| + |frames| <= MAX_TRACKED_PAGES
  }

  /** The pool took in every frame of `frames` exactly once, and nothing else. */
  ghost predicate TookIn(free: seq<Word>, frames: set<Word>, free': seq<Word>) {
    NoDup(free') && Frames(free') == Frames(free) + frames && |free'| == |free| + |frames|
  }

  lemma BelowFits(free: seq<Word>, a: set<Word>, all: set<Word>)
    requires CanTake(free, all) && a <= all
    ensures CanTake(free, a)
  {
    Subset(a, all);
  }

  lemma TakeInMore(f0: seq<Word>, a: set<Word>, f1: seq<Word>, b: set<Word>, f2: seq<Word>)
    requires TookIn(f0, a, f1) && TookIn(f1, b, f2) && a !! b
    ensures TookIn(f0, a + b, f2)
  {
  }

  lemma TakeInOne(f0: seq<Word>, a: set<Word>, f1: seq<Word>, page: Word)
    requires TookIn(f0, a, f1) && CanTake(f0, a + {page}) && page !in a
    ensures |f1| < MAX_TRACKED_PAGES && TookIn(f0, a + {page}, f1 + [page])
  {
    assert |a + {page}| == |a| + 1;
    assert page !in Frames(f0) by { assert page in a + {page}; }
    assert Frames(f1 + [page]) == Frames(f1) + {page};
    assert Frames(f0) + (a + {page}) == Frames(f1) + {page};
    NoDupConcat(f1, [page]);
  }

  lemma CanTakeRest(f0: seq<Word>, a: set<Word>, f1: seq<Word>, b: set<Word>, all: set<Word>)
    requires CanTake(f0, all) && TookIn(f0, a, f1) && a + b <= all && a !! b
    ensures CanTake(f1, b)
  {
    assert a + b <= all;
    Subset(a + b, all);
  }

  lemma {:induction false} Subset(a: set<Word>, b: set<Word>)
    requires a <= b
    ensures |a| <= |b|
  {
    if a != {} {
      var x :| x in a;
      Subset(a - {x}, b - {x});
    }
  }

  /** The state of a teardown loop over the slots of the table at `p`, before slot `i`. */
  ghost predicate SlotLoop(mem0: Memory, free0: seq<Word>, mem: Memory, free: seq<Word>, tree: Tree, p: Path,
                           lo: nat, hi: nat, i: nat)
  {
    && SlotsLinked(mem0, tree, p, lo, hi) && CanTake(free0, Below(tree, p, lo, hi))
    && TornDown(mem0, mem, tree, p, lo, i) && TookIn(free0, Below(tree, p, lo, i), free)
  }

  lemma BeforeSlot(mem0: Memory, free0: seq<Word>, mem: Memory, free: seq<Word>, tree: Tree, p: Path,
                   lo: nat, hi: nat, i: Slot)
    requires SlotLoop(mem0, free0, mem, free, tree, p, lo, hi, i) && lo <= i < hi && Depth(p) < 3
    ensures p in tree && tree[p] in mem
    ensures Sub(p, i) in tree <==> PointsToTable(mem[tree[p]][i])
    ensures Sub(p, i) in tree ==>
      && AddrOf(mem[tree[p]][i]) == tree[Sub(p, i)] && SubtreeLinked(mem, tree, Sub(p, i))
      && CanTake(free, Subtree(tree, Sub(p, i))) && tree[p] !in Subtree(tree, Sub(p, i))
  {
    NextSlotIntact(mem0, mem, tree, p, lo, hi, i);
    BelowNextSlot(tree, p, lo, i);
    BelowWithin(tree, p, lo, i + 1, hi);
    CanTakeRest(free0, Below(tree, p, lo, i), free, Subtree(tree, Sub(p, i)), Below(tree, p, lo, hi));
  }

  lemma AfterSlot(mem0: Memory, free0: seq<Word>, mem: Memory, free: seq<Word>, mem': Memory, free': seq<Word>,
                  tree: Tree, p: Path, lo: nat, hi: nat, i: Slot)
    requires SlotLoop(mem0, free0, mem, free, tree, p, lo, hi, i) && lo <= i < hi && mem'.Keys == mem.Keys
    requires if Sub(p, i) in tree then TookIn(free, Subtree(tree, Sub(p, i)), free') else free' == free
    requires forall f :: f in mem && f != tree[p] && f !in Subtree(tree, Sub(p, i)) ==> mem'[f] == mem[f]
    requires forall j: Slot :: j != i ==> mem'[tree[p]][j] == mem[tree[p]][j]
    requires !PointsToTable(mem'[tree[p]][i])
    ensures SlotLoop(mem0, free0, mem', free', tree, p, lo, hi, i + 1)
  {
    BelowNextSlot(tree, p, lo, i);
    SlotTornDown(mem0, mem, mem', tree, p, lo, i);
    if Sub(p, i) in tree {
      TakeInMore(free0, Below(tree, p, lo, i), free, Subtree(tree, Sub(p, i)), free');
    } else {
      assert Below(tree, p, lo, i + 1) == Below(tree, p, lo, i);
    }
  }

  lemma StartSlots(mem: Memory, free: seq<Word>, tree: Tree, p: Path)
    requires SubtreeLinked(mem, tree, p) && CanTake(free, Subtree(tree, p)) && Depth(p) < 3
    ensures SlotLoop(mem, free, mem, free, tree, p, 0, 512, 0)
  {
    SubtreeSplits(tree, p);
    BelowNothing(tree, p, 0);
    BelowFits(free, Below(tree, p, 0, 512), Subtree(tree, p));
  }

  /** When all slots are torn down, freeing the table itself completes the subtree. */
  lemma EndSlots(mem0: Memory, free0: seq<Word>, mem: Memory, free: seq<Word>, tree: Tree, p: Path)
    requires SubtreeLinked(mem0, tree, p) && CanTake(free0, Subtree(tree, p))
    requires if Depth(p) < 3 then SlotLoop(mem0, free0, mem, free, tree, p, 0, 512, 512)
             else mem == mem0 && free == free0
    requires Depth(p) <= 3
    ensures |free| < MAX_TRACKED_PAGES && TookIn(free0, Subtree(tree, p), free + [tree[p]])
    ensures mem.Keys == mem0.Keys && forall f :: f in mem && f !in Subtree(tree, p) ==> mem[f] == mem0[f]
    ensures Depth(p) < 3 ==> Cleared(mem, tree[p], 0, 512)
  {
    SubtreeSplits(tree, p);
    LastSlotDone(mem0, free0, mem, free, tree, p);
    hide SlotLoop;
    hide SubtreeLinked;
    TakeInOne(free0, Below(tree, p, 0, 512), free, tree[p]);
  }

  lemma LastSlotDone(mem0: Memory, free0: seq<Word>, mem: Memory, free: seq<Word>, tree: Tree, p: Path)
    requires SubtreeLinked(mem0, tree, p) && CanTake(free0, Subtree(tree, p)) && Depth(p) <= 3
    requires if Depth(p) < 3 then SlotLoop(mem0, free0, mem, free, tree, p, 0, 512, 512)
             else mem == mem0 && free == free0
    ensures TookIn(free0, Below(tree, p, 0, 512), free)
    ensures mem.Keys == mem0.Keys
    ensures forall f :: f in mem && f != tree[p] && f !in Below(tree, p, 0, 512) ==> mem[f] == mem0[f]
    ensures Depth(p) < 3 ==> Cleared(mem, tree[p], 0, 512)
  {
    if Depth(p) == 3 {
      NothingBelowLevelOne(tree, p);
      assert Frames(free0) + {} == Frames(free0);
    }
  }

  /** The frames an address space owns itself: its root and the tables below slots 1 to 255. */
  ghost function Private(tree: Tree): set<Word>
    requires Root in tree
  {
    Below(tree, Root, 1, 256) + {tree[Root]}
  }

  ghost predicate PrivateLinked(mem: Memory, tree: Tree) {
    SlotsLinked(mem, tree, Root, 1, 256) && FrameOk(tree[Root])
  }

  lemma StartPrivate(mem: Memory, free: seq<Word>, tree: Tree)
    requires PrivateLinked(mem, tree) && CanTake(free, Private(tree))
    ensures Root in tree && tree[Root] in mem && SlotLoop(mem, free, mem, free, tree, Root, 1, 256, 1)
  {
    BelowNothing(tree, Root, 1);
    BelowFits(free, Below(tree, Root, 1, 256), Private(tree));
    assert Frames(free) + {} == Frames(free);
  }

  lemma FirstSlotCleared(mem0: Memory, mem: Memory, free: seq<Word>, tree: Tree)
    requires SlotLoop(mem0, free, mem0, free, tree, Root, 1, 256, 1) && mem.Keys == mem0.Keys
    requires forall f :: f in mem && f != tree[Root] ==> mem[f] == mem0[f]
    requires forall j: Slot :: j != 0 ==> mem[tree[Root]][j] == mem0[tree[Root]][j]
    ensures SlotLoop(mem0, free, mem, free, tree, Root, 1, 256, 1)
  {
  }

  lemma EndPrivate(mem0: Memory, free0: seq<Word>, mem: Memory, free: seq<Word>, tree: Tree)
    requires Root in tree && CanTake(free0, Private(tree)) && SlotLoop(mem0, free0, mem, free, tree, Root, 1, 256, 256)
    ensures |free| < MAX_TRACKED_PAGES && TookIn(free0, Private(tree), free + [tree[Root]])
    ensures mem.Keys == mem0.Keys && forall f :: f in mem && f !in Private(tree) ==> mem[f] == mem0[f]
    ensures Cleared(mem, tree[Root], 1, 256)
  {
    forall q | q in tree ensures UnderSlots(q, Root, 1, 256) ==> tree[q] != tree[Root] {
      UnderIsDeeper(q, Root);
    }
    TakeInOne(free0, Below(tree, Root, 1, 256), free, tree[Root]);
  }

  /** As many frames in a duplicate-free list as in its set. */
  lemma {:induction false} NoDupSize(s: seq<Word>)
    requires NoDup(s)
    ensures |Frames(s)| == |s|
  {
    if s != [] {
      NoDupSize(s[1..]);
      assert s == [s[0]] + s[1..];
      assert s[0] !in s[1..];
      assert Frames(s) == Frames(s[1..]) + {s[0]};
    }
  }
}
