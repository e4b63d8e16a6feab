/** The physical page-frame pool: a bounded stack of free frame addresses. */
module FramePool {
  import opened PageBits

  const MAX_TRACKED_PAGES: nat := 262144
  const MIN_USABLE_ADDR := 0x10_0000

  datatype Region = Region(base: Word, length: Word, usable: bool)

  function AlignUp(a: Word): Word { (a + (PAGE_SIZE - 1)) % TWO_TO_THE_64 / PAGE_SIZE * PAGE_SIZE }

  function AlignDown(a: Word): Word { a / PAGE_SIZE * PAGE_SIZE }

  ghost predicate NoDup(s: seq<Word>) {
    forall i, j :: 0 <= i < j < |s| ==> s[i] != s[j]
  }

  ghost function Frames(s: seq<Word>): set<Word> { set f | f in s }

  /** A frame belongs to a region: a page address in it, counted once rounding has trimmed both ends. */
  predicate InRegion(f: Word, r: Region) {
    r.usable && Aligned(f) && AlignUp(r.base) <= f < AlignDown((r.base + r.length) % TWO_TO_THE_64)
      && MIN_USABLE_ADDR <= f
  }

  /** A page whose bytes all lie in a usable region, and not in the first megabyte. */
  predicate WholePage(f: Word, r: Region) {
    r.usable && Aligned(f) && r.base <= f && f + PAGE_SIZE <= r.base + r.length && MIN_USABLE_ADDR <= f
  }

  /** Neither rounding up the start nor adding the length leaves 64 bits, or both do and no page comes of it. */
  predicate Straight(r: Region) {
    var end := r.base + r.length;
    || !r.usable
    || (r.base <= TWO_TO_THE_64 - PAGE_SIZE && end < TWO_TO_THE_64)
    || (r.base > TWO_TO_THE_64 - PAGE_SIZE && TWO_TO_THE_64 <= end < TWO_TO_THE_64 + MIN_USABLE_ADDR + PAGE_SIZE)
  }

  /** The frames of a region are its whole pages, exactly for regions whose bounds do not wrap. */
  lemma WholePagesIff(r: Region)
    ensures (forall f: Word :: InRegion(f, r) <==> WholePage(f, r)) <==> Straight(r)
  {
    hide InRegion;
    hide WholePage;
    hide Straight;
    if Straight(r) {
      forall f: Word ensures InRegion(f, r) <==> WholePage(f, r) {
        StraightPages(r, f);
      }
    } else {
      var f := WrappedPage(r);
    }
  }

  lemma StraightPages(r: Region, f: Word)
    requires Straight(r)
    ensures InRegion(f, r) <==> WholePage(f, r)
  {
    var end := r.base + r.length;
    Rounding(r.base);
    Rounding(end % TWO_TO_THE_64);
    if Aligned(f) {
      BetweenPages(f, r.base);
      BetweenPages(f, end % TWO_TO_THE_64);
    }
    hide AlignUp;
    hide AlignDown;
  }

  lemma WrappedPage(r: Region) returns (f: Word)
    requires !Straight(r)
    ensures InRegion(f, r) != WholePage(f, r)
  {
    var end := (r.base + r.length) % TWO_TO_THE_64;
    Rounding(r.base);
    Rounding(end);
    f := if r.base <= TWO_TO_THE_64 - PAGE_SIZE then TWO_TO_THE_64 - PAGE_SIZE else MIN_USABLE_ADDR;
    BetweenPages(f, end);
    hide AlignUp;
    hide AlignDown;
  }

  lemma Rounding(a: Word)
    ensures AlignDown(a) <= a < AlignDown(a) + PAGE_SIZE && Aligned(AlignDown(a))
    ensures a > TWO_TO_THE_64 - PAGE_SIZE ==> AlignUp(a) == 0
    ensures a <= TWO_TO_THE_64 - PAGE_SIZE ==> Aligned(AlignUp(a)) && a <= AlignUp(a) < a + PAGE_SIZE
  {
  }

  lemma BetweenPages(f: Word, a: Word)
    requires Aligned(f)
    ensures f < AlignDown(a) <==> f + PAGE_SIZE <= a
    ensures a <= TWO_TO_THE_64 - PAGE_SIZE ==> (AlignUp(a) <= f <==> a <= f)
  {
  }

  /** The frames of the region below `addr`, each at most once, and all of them unless some had to be dropped. */
  ghost predicate Covers(pushed: seq<Word>, r: Region, addr: Word, complete: bool) {
    && NoDup(pushed) && (forall f :: f in pushed ==> InRegion(f, r) && f < addr)
    && (complete ==> forall f: Word :: InRegion(f, r) && f < addr ==> f in pushed)
  }

  lemma CoversNothing(r: Region, start: Word)
    requires start == AlignUp(r.base)
    ensures Covers([], r, start, true) && Covers([], r, start, false)
  {
  }

  lemma CoversStep(pushed: seq<Word>, r: Region, addr: Word, complete: bool)
    requires Covers(pushed, r, addr, complete) && Aligned(addr) && r.usable
    requires AlignUp(r.base) <= addr < AlignDown((r.base + r.length) % TWO_TO_THE_64)
    ensures var next := addr + PAGE_SIZE;
      && 0 <= next <= AlignDown((r.base + r.length) % TWO_TO_THE_64) && Aligned(next)
      && (addr < MIN_USABLE_ADDR ==> Covers(pushed, r, next, complete))
      && (addr >= MIN_USABLE_ADDR ==> Covers(pushed + [addr], r, next, complete) && Covers(pushed, r, next, false))
  {
    NextPage(addr, (r.base + r.length) % TWO_TO_THE_64);
    NoDupConcat(pushed, [addr]);
  }

  /** Between two neighbouring page addresses lies no other. */
  lemma NextPage(addr: Word, end: Word)
    requires Aligned(addr) && addr < AlignDown(end)
    ensures Aligned(addr + PAGE_SIZE) && addr + PAGE_SIZE <= AlignDown(end)
    ensures forall f: Word :: Aligned(f) && addr < f ==> addr + PAGE_SIZE <= f
  {
  }

  lemma CoversAll(pushed: seq<Word>, r: Region, end: Word, complete: bool)
    requires Covers(pushed, r, end, complete) && end >= AlignDown((r.base + r.length) % TWO_TO_THE_64)
    ensures NoDup(pushed) && (forall f :: f in pushed ==> InRegion(f, r))
    ensures complete ==> forall f: Word :: InRegion(f, r) ==> f in pushed
  {
  }

  ghost predicate Disjoint(regions: seq<Region>) {
    forall f: Word, i, j :: 0 <= i < j < |regions| ==> !(InRegion(f, regions[i]) && InRegion(f, regions[j]))
  }

  lemma NoDupConcat(a: seq<Word>, b: seq<Word>)
    requires NoDup(a) && NoDup(b) && forall f :: !(f in a && f in b)
    ensures NoDup(a + b)
  {
    forall i, j | 0 <= i < j < |a + b| ensures (a + b)[i] != (a + b)[j] {
      if i < |a| <= j {
        assert a[i] in a && b[j - |a|] in b;
      }
    }
  }

  class Pool {
    const stack: array<Word>
    var top: nat
    var managed: nat
    var dropped: nat

    ghost predicate Valid()
      reads this
    {
      stack.Length == MAX_TRACKED_PAGES && top <= MAX_TRACKED_PAGES
    }

    ghost function Free(): seq<Word>
      reads this, stack
      requires Valid()
    {
      stack[..top]
    }

    constructor ()
      ensures Valid() && fresh(stack) && Free() == [] && managed == dropped == 0
    {
      stack := new Word[MAX_TRACKED_PAGES];
      top := 0;
      managed := 0;
      dropped := 0;
    }

    /** clks_pmm_init: the stack ends up with every usable frame once, until the table is full. */
    method Init(memmap: seq<Region>)
      requires Valid()
      modifies this, stack
      ensures Valid()
      ensures managed == top && (dropped > 0 ==> top == MAX_TRACKED_PAGES)
      ensures forall f :: f in Free() ==> exists i :: 0 <= i < |memmap| && InRegion(f, memmap[i])
      ensures dropped == 0 ==> forall i, f: Word :: 0 <= i < |memmap| && InRegion(f, memmap[i]) ==> f in Free()
      ensures Disjoint(memmap) ==> NoDup(Free())
    {
      top := 0;
      managed := 0;
      dropped := 0;
      for i := 0 to |memmap|
        invariant Valid() && managed == top && (dropped > 0 ==> top == MAX_TRACKED_PAGES)
        invariant forall f :: f in Free() ==> exists k :: 0 <= k < i && InRegion(f, memmap[k])
        invariant dropped == 0 ==> forall k, f: Word :: 0 <= k < i && InRegion(f, memmap[k]) ==> f in Free()
        invariant Disjoint(memmap) ==> NoDup(Free())
      {
        ghost var before := Free();
        AddRegion(memmap[i]);
        ghost var added := Free()[|before|..];
        assert Free() == before + added;
        assert forall f :: f in Free() <==> f in before || f in added;
        if Disjoint(memmap) {
          forall f | f in before ensures f !in added {
            assert exists k :: 0 <= k < i && InRegion(f, memmap[k]);
          }
          NoDupConcat(before, added);
        }
      }
    }

    /** The inner loop of clks_pmm_init: push the pages of one region, each one once. */
    method AddRegion(r: Region)
      requires Valid() && managed == top && (dropped > 0 ==> top == MAX_TRACKED_PAGES)
      modifies this, stack
      ensures Valid() && managed == top && (dropped > 0 ==> top == MAX_TRACKED_PAGES)
      ensures dropped >= old(dropped)
      ensures old(Free()) <= Free() && NoDup(Free()[old(top)..])
      ensures forall f :: f in Free()[old(top)..] ==> InRegion(f, r)
      ensures dropped == 0 ==> forall f: Word :: InRegion(f, r) ==> f in Free()[old(top)..]
    {
      var start, end := AlignUp(r.base), AlignDown((r.base + r.length) % TWO_TO_THE_64);
      if !r.usable || end <= start {
        return;
      }
      hide InRegion;
      hide NoDup;
      var addr := start;
      CoversNothing(r, start);
      assert Free()[old(top)..] == [];
      while addr < end
        invariant start <= addr <= end && Aligned(addr)
        invariant Valid() && managed == top && (dropped > 0 ==> top == MAX_TRACKED_PAGES)
        invariant dropped >= old(dropped)
        invariant old(Free()) <= Free() && Covers(Free()[old(top)..], r, addr, dropped == 0)
      {
        CoversStep(Free()[old(top)..], r, addr, dropped == 0);
        if addr >= MIN_USABLE_ADDR {
          PushFrame(addr, old(top));
        }
        addr := addr + PAGE_SIZE;
      }
      CoversAll(Free()[old(top)..], r, end, dropped == 0);
    }

    /** Puts a usable frame on the stack, or counts it as dropped. */
    method PushFrame(addr: Word, ghost from: nat)
      requires Valid() && managed == top && (dropped > 0 ==> top == MAX_TRACKED_PAGES) && from <= top
      modifies this, stack
      ensures Valid() && managed == top && (dropped > 0 ==> top == MAX_TRACKED_PAGES) && dropped >= old(dropped)
      ensures if dropped > old(dropped) then Free() == old(Free())
              else Free() == old(Free()) + [addr] && Free()[from..] == old(Free())[from..] + [addr]
    {
      if top < MAX_TRACKED_PAGES {
        stack[top] := addr;
        top := top + 1;
        managed := managed + 1;
      } else {
        dropped := dropped + 1;
      }
    }

    /** clks_pmm_alloc_page; zero means that no frame is left. */
    method AllocPage() returns (page: Word)
      requires Valid()
      modifies this`top
      ensures Valid()
      ensures old(Free()) == [] ==> page == 0 && Free() == []
      ensures old(Free()) != [] ==> old(Free()) == Free() + [page]
    {
      if top == 0 {
        return 0;
      }
      top := top - 1;
      page := stack[top];
    }

    /** clks_pmm_free_page: an address that is no frame, or a frame that finds the stack full, is dropped. */
    method FreePage(page: Word)
      requires Valid()
      modifies this`top, stack
      ensures Valid()
      ensures Free() == if page == 0 || !Aligned(page) || |old(Free())| == MAX_TRACKED_PAGES
                        then old(Free()) else old(Free()) + [page]
    {
      if page == 0 || !Aligned(page) || top >= MAX_TRACKED_PAGES {
        return;
      }
      stack[top] := page;
      top := top + 1;
    }
  }
}
