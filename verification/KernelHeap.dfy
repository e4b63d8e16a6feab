/** The kernel heap: first fit over a doubly linked list of blocks, split on allocation, coalesced on release. */
module KernelHeap {

  import opened ByteStrings
  import opened HeapMemory

  /** A block as the list sees it: where its header is, how large its payload is, and whether it is free. */
  datatype Block = Block(addr: nat, size: nat, isFree: bool) {
    function Payload(): nat { addr + HEADER }

    function End(): nat { addr + HEADER + size }

    function Charge(): nat { if isFree then 0 else size }
  }

  /** clks_heap_align_up, with the wrap-around of 64-bit addition. */
  function AlignUp(size: nat): nat { (size + (ALIGN - 1)) % TWO_TO_THE_64 / ALIGN * ALIGN }

  /** Headers and payloads cover base to end without gap or overlap. */
  ghost predicate Tiles(bs: seq<Block>, base: nat, end: nat) {
    && |bs| > 0 && bs[0].addr == base && bs[|bs| - 1].End() == end
    && forall i, j :: 0 <= i < j < |bs| && j == i + 1 ==> bs[i].End() == bs[j].addr
  }

  ghost predicate Coalesced(bs: seq<Block>) {
    forall i, j :: 0 <= i < j < |bs| && j == i + 1 ==> !(bs[i].isFree && bs[j].isFree)
  }

  ghost function Used(bs: seq<Block>): nat {
    if bs == [] then 0 else bs[0].Charge() + Used(bs[1..])
  }

  function NextAddr(bs: seq<Block>, i: nat): nat
    requires i < |bs|
  {
    if i + 1 < |bs| then bs[i + 1].addr else 0
  }

  function PrevAddr(bs: seq<Block>, i: nat): nat
    requires i < |bs|
  {
    if i > 0 then bs[i - 1].addr else 0
  }

  /** The header of block `i` in memory is what the list says, links in both directions included. */
  ghost predicate LinkAt(mem: Memory, bs: seq<Block>, i: nat)
    requires i < |bs|
  {
    HeaderAt(mem, bs[i].addr)
    == Header(bs[i].size, if bs[i].isFree then 1 else 0, NextAddr(bs, i), PrevAddr(bs, i), MAGIC)
  }

  /** The headers in memory are the list `bs`. */
  ghost predicate Linked(mem: Memory, bs: seq<Block>) { forall i :: 0 <= i < |bs| ==> LinkAt(mem, bs, i) }

  /** Every header, and with it every payload, lies at a multiple of 8. */
  ghost predicate Aligned(bs: seq<Block>) { forall i :: 0 <= i < |bs| ==> bs[i].addr % 8 == 0 }

  predicate Fits(b: Block, need: nat) { b.isFree && b.size >= need }

  /** clks_heap_split_block on block `i`. */
  function SplitAt(bs: seq<Block>, i: nat, need: nat): seq<Block>
    requires i < |bs| && need <= bs[i].size
  {
    if bs[i].size < need + (HEADER + ALIGN) then bs
    else
      bs[..i] + [bs[i].(size := need), Block(bs[i].addr + HEADER + need, bs[i].size - need - HEADER, true)]
        + bs[i + 1..]
  }

  /** clks_heap_merge_next on block `i`. */
  function MergeAt(bs: seq<Block>, i: nat): seq<Block>
    requires i < |bs|
  {
    if i + 1 < |bs| && bs[i + 1].isFree
    then bs[..i] + [bs[i].(size := bs[i].size + HEADER + bs[i + 1].size)] + bs[i + 2..]
    else bs
  }

  /** What clks_kmalloc does once it has found block `i`. */
  function AllocAt(bs: seq<Block>, i: nat, need: nat): seq<Block>
    requires i < |bs| && need <= bs[i].size
  {
    var split := SplitAt(bs, i, need);
    split[i := split[i].(isFree := false)]
  }

  /** What clks_kfree does to block `i`. */
  function FreeAt(bs: seq<Block>, i: nat): seq<Block>
    requires i < |bs|
  {
    MergeAround(bs[i := bs[i].(isFree := true)], i)
  }

  /** Merge block `i` with its successor, then its predecessor with it, where they are free. */
  function MergeAround(bs: seq<Block>, i: nat): seq<Block>
    requires i < |bs|
  {
    var merged := MergeAt(bs, i);
    if i > 0 && merged[i - 1].isFree then MergeAt(merged, i - 1) else merged
  }

  /** Later blocks start at or after the end of earlier ones. */
  lemma {:induction false} BlocksInOrder(bs: seq<Block>, base: nat, end: nat, i: nat, j: nat)
    requires Tiles(bs, base, end) && i < j < |bs|
    ensures bs[i].End() <= bs[j].addr
    decreases j - i
  {
    if i + 1 < j {
      BlocksInOrder(bs, base, end, i + 1, j);
    }
  }

  lemma DistinctAddrs(bs: seq<Block>, base: nat, end: nat)
    requires Tiles(bs, base, end)
    ensures forall i, j :: 0 <= i < j < |bs| ==> bs[i].addr < bs[j].addr
    ensures forall i :: 0 <= i < |bs| ==> base <= bs[i].addr && bs[i].End() <= end
  {
    forall i, j | 0 <= i < j < |bs| ensures bs[i].End() <= bs[j].addr {
      BlocksInOrder(bs, base, end, i, j);
    }
  }

  lemma SplitTiles(bs: seq<Block>, base: nat, end: nat, i: nat, need: nat)
    requires Tiles(bs, base, end) && i < |bs| && need <= bs[i].size
    ensures Tiles(SplitAt(bs, i, need), base, end)
  {
  }

  lemma MergeTiles(bs: seq<Block>, base: nat, end: nat, i: nat)
    requires Tiles(bs, base, end) && i < |bs|
    ensures Tiles(MergeAt(bs, i), base, end)
  {
  }

  lemma {:induction false} UsedConcat(a: seq<Block>, b: seq<Block>)
    ensures Used(a + b) == Used(a) + Used(b)
  {
    if a == [] {
      assert a + b == b;
    } else {
      UsedConcat(a[1..], b);
      assert (a + b)[1..] == a[1..] + b;
    }
  }

  /** Replacing the blocks from `i` to `j` changes the sum by what they are charged for. */
  lemma UsedReplace(bs: seq<Block>, i: nat, j: nat, mid: seq<Block>)
    requires i <= j <= |bs|
    ensures Used(bs[..i] + mid + bs[j..]) == Used(bs) - Used(bs[i..j]) + Used(mid)
  {
    assert bs == bs[..i] + bs[i..j] + bs[j..];
    UsedConcat(bs[..i] + bs[i..j], bs[j..]);
    UsedConcat(bs[..i], bs[i..j]);
    UsedConcat(bs[..i] + mid, bs[j..]);
    UsedConcat(bs[..i], mid);
  }

  lemma UsedUpdate(bs: seq<Block>, i: nat, b: Block)
    requires i < |bs|
    ensures Used(bs[i := b]) == Used(bs) - bs[i].Charge() + b.Charge()
  {
    UsedReplace(bs, i, i + 1, [b]);
    assert bs[i := b] == bs[..i] + [b] + bs[i + 1..];
    assert bs[i..i + 1] == [bs[i]];
  }

  lemma UsedPair(a: Block, b: Block)
    ensures Used([a, b]) == a.Charge() + b.Charge()
  {
    assert [a, b][1..] == [b] && [b][1..] == [];
    assert Used([b]) == b.Charge();
  }

  lemma SplitUsed(bs: seq<Block>, i: nat, need: nat)
    requires i < |bs| && Fits(bs[i], need)
    ensures Used(SplitAt(bs, i, need)) == Used(bs)
  {
    var split := SplitAt(bs, i, need);
    if split != bs {
      UsedReplace(bs, i, i + 1, [split[i], split[i + 1]]);
      assert split == bs[..i] + [split[i], split[i + 1]] + bs[i + 1..];
      assert bs[i..i + 1] == [bs[i]];
      UsedPair(split[i], split[i + 1]);
    }
  }

  lemma MergeUsed(bs: seq<Block>, i: nat)
    requires i < |bs| && bs[i].isFree
    ensures Used(MergeAt(bs, i)) == Used(bs)
  {
    var merged := MergeAt(bs, i);
    if i + 1 < |bs| && bs[i + 1].isFree {
      UsedReplace(bs, i, i + 2, [merged[i]]);
      assert merged == bs[..i] + [merged[i]] + bs[i + 2..];
      assert bs[i..i + 2] == [bs[i], bs[i + 1]];
      UsedPair(bs[i], bs[i + 1]);
    }
  }

  /** Allocation keeps the tiling and the coalescing, and the block it hands out is as large as was asked. */
  lemma AllocKeeps(bs: seq<Block>, base: nat, end: nat, i: nat, need: nat)
    requires Tiles(bs, base, end) && Coalesced(bs) && i < |bs| && Fits(bs[i], need)
    ensures var bs' := AllocAt(bs, i, need);
      && Tiles(bs', base, end) && Coalesced(bs') && bs'[i].addr == bs[i].addr && !bs'[i].isFree
      && need <= bs'[i].size < need + (HEADER + ALIGN)
      && (bs'[i].size == bs[i].size || (bs'[i].size == need && bs'[i + 1].isFree && bs'[i + 1].size >= ALIGN))
  {
    SplitTiles(bs, base, end, i, need);
  }

  lemma AllocAligned(bs: seq<Block>, i: nat, need: nat)
    requires Aligned(bs) && i < |bs| && need <= bs[i].size && need % ALIGN == 0
    ensures Aligned(AllocAt(bs, i, need))
  {
    assert bs[i].addr % 8 == 0;
    HeaderBehind(bs[i].addr, need);
  }

  lemma HeaderBehind(addr: nat, need: nat)
    requires addr % 8 == 0 && need % ALIGN == 0
    ensures (addr + HEADER + need) % 8 == 0 && (addr + HEADER) % 8 == 0
  {
    var a, n := addr / 8, need / 16;
    assert addr + HEADER == 8 * (a + 5) && addr + HEADER + need == 8 * (a + 5 + 2 * n);
    EightTimes(a + 5);
    EightTimes(a + 5 + 2 * n);
  }

  lemma EightTimes(n: nat)
    ensures 8 * n % 8 == 0
  {
  }

  lemma FreeAligned(bs: seq<Block>, i: nat)
    requires Aligned(bs) && i < |bs|
    ensures Aligned(FreeAt(bs, i))
  {
  }

  /** The statistics counter grows by the payload of the block handed out. */
  lemma AllocUsed(bs: seq<Block>, i: nat, need: nat)
    requires i < |bs| && Fits(bs[i], need)
    ensures Used(AllocAt(bs, i, need)) == Used(bs) + AllocAt(bs, i, need)[i].size
  {
    SplitUsed(bs, i, need);
    UsedUpdate(SplitAt(bs, i, need), i, SplitAt(bs, i, need)[i].(isFree := false));
  }

  /** Blocks `k` and `k + 1` are both free. */
  predicate FreePair(bs: seq<Block>, k: nat) { k + 1 < |bs| && bs[k].isFree && bs[k + 1].isFree }

  /** A merge removes the pair it merges and makes no new one, if the absorbed block has no free successor. */
  lemma MergeRemovesPair(bs: seq<Block>, i: nat)
    requires i < |bs| && bs[i].isFree && !FreePair(bs, i + 1)
    ensures forall k: nat :: FreePair(MergeAt(bs, i), k) ==>
              k != i && FreePair(bs, if k < i then k else k + |bs| - |MergeAt(bs, i)|)
    ensures |MergeAt(bs, i)| <= |bs| && (i > 0 ==> MergeAt(bs, i)[i - 1] == bs[i - 1]) && MergeAt(bs, i)[i].isFree
  {
  }

  /** Release keeps the tiling and the coalescing. */
  lemma FreeKeeps(bs: seq<Block>, base: nat, end: nat, i: nat)
    requires Tiles(bs, base, end) && Coalesced(bs) && i < |bs|
    ensures Tiles(FreeAt(bs, i), base, end) && Coalesced(FreeAt(bs, i))
  {
    var freed := bs[i := bs[i].(isFree := true)];
    MergeTiles(freed, base, end, i);
    if i > 0 && MergeAt(freed, i)[i - 1].isFree {
      MergeTiles(MergeAt(freed, i), base, end, i - 1);
    }
    FreeCoalesces(bs, i);
  }

  lemma FreeCoalesces(bs: seq<Block>, i: nat)
    requires Coalesced(bs) && i < |bs|
    ensures Coalesced(FreeAt(bs, i))
  {
    var freed := bs[i := bs[i].(isFree := true)];
    NoPairs(bs);
    forall k: nat | FreePair(freed, k) ensures k == i || k + 1 == i {
      assert FreePair(bs, k) || k == i || k + 1 == i;
    }
    MergeRemovesPair(freed, i);
    var merged := MergeAt(freed, i);
    NoPairs(FreeAt(bs, i));
    hide Coalesced;
    hide FreePair;
    hide MergeAt;
    if i > 0 && merged[i - 1].isFree {
      MergeRemovesPair(merged, i - 1);
    }
  }

  lemma NoPairs(bs: seq<Block>)
    ensures Coalesced(bs) <==> forall k: nat :: !FreePair(bs, k)
  {
    if Coalesced(bs) {
    } else {
      var k: nat, j :| k < j < |bs| && j == k + 1 && bs[k].isFree && bs[j].isFree;
      assert FreePair(bs, k);
    }
  }

  lemma FreeUsed(bs: seq<Block>, i: nat)
    requires i < |bs|
    ensures Used(FreeAt(bs, i)) == Used(bs) - bs[i].Charge()
  {
    var freed := bs[i := bs[i].(isFree := true)];
    UsedUpdate(bs, i, bs[i].(isFree := true));
    MergeUsed(freed, i);
    if i > 0 && MergeAt(freed, i)[i - 1].isFree {
      MergeUsed(MergeAt(freed, i), i - 1);
    }
  }

  /** The blocks in use: what the callers of the heap hold. */
  ghost function Live(bs: seq<Block>): set<Block> { set b | b in bs && !b.isFree }

  /** Allocation adds one live block and leaves every other live block where and as large as it was. */
  lemma AllocLive(bs: seq<Block>, i: nat, need: nat)
    requires i < |bs| && Fits(bs[i], need)
    ensures Live(AllocAt(bs, i, need)) == Live(bs) + {AllocAt(bs, i, need)[i]}
  {
    var bs' := AllocAt(bs, i, need);
    var mid := AllocMid(bs[i], need);
    assert bs == bs[..i] + [bs[i]] + bs[i + 1..];
    assert bs' == bs[..i] + mid + bs[i + 1..];
    hide AllocAt;
    LiveParts(bs[..i], [bs[i]], bs[i + 1..]);
    LiveParts(bs[..i], mid, bs[i + 1..]);
    assert Live([bs[i]]) == {} && Live(mid) == {mid[0]} && mid[0] == bs'[i];
  }

  /** What an allocation makes of its block. */
  function AllocMid(b: Block, need: nat): seq<Block>
    requires Fits(b, need)
  {
    if b.size < need + (HEADER + ALIGN) then [b.(isFree := false)]
    else [b.(size := need, isFree := false), Block(b.addr + HEADER + need, b.size - need - HEADER, true)]
  }

  lemma LiveParts(a: seq<Block>, b: seq<Block>, c: seq<Block>)
    ensures Live(a + b + c) == Live(a) + Live(b) + Live(c)
  {
  }

  /** Release removes one live block and leaves every other live block where and as large as it was. */
  lemma FreeLive(bs: seq<Block>, base: nat, end: nat, i: nat)
    requires Tiles(bs, base, end) && i < |bs| && !bs[i].isFree
    ensures Live(FreeAt(bs, i)) == Live(bs) - {bs[i]}
  {
    var freed := bs[i := bs[i].(isFree := true)];
    ClearedLive(bs, base, end, i);
    MergeLive(freed, i);
    if i > 0 && MergeAt(freed, i)[i - 1].isFree {
      MergeLive(MergeAt(freed, i), i - 1);
    }
  }

  lemma ClearedLive(bs: seq<Block>, base: nat, end: nat, i: nat)
    requires Tiles(bs, base, end) && i < |bs| && !bs[i].isFree
    ensures Live(bs[i := bs[i].(isFree := true)]) == Live(bs) - {bs[i]}
  {
    var freed := bs[i := bs[i].(isFree := true)];
    DistinctAddrs(bs, base, end);
    forall b | b in Live(bs) - {bs[i]} ensures b in freed {
      var k :| 0 <= k < |bs| && bs[k] == b;
      assert freed[k] == b;
    }
    forall b | b in Live(freed) ensures b in bs && b != bs[i] {
      var k :| 0 <= k < |freed| && freed[k] == b;
      assert bs[k] == b && k != i;
    }
  }

  lemma MergeLive(bs: seq<Block>, i: nat)
    requires i < |bs| && bs[i].isFree
    ensures Live(MergeAt(bs, i)) == Live(bs)
  {
    var merged := MergeAt(bs, i);
    if i + 1 < |bs| && bs[i + 1].isFree {
      forall b | b in Live(bs) ensures b in merged {
        var k :| 0 <= k < |bs| && bs[k] == b;
        assert if k < i then merged[k] == b else merged[k - 1] == b;
      }
      forall b | b in Live(merged) ensures b in bs {
        var k :| 0 <= k < |merged| && merged[k] == b;
        assert if k < i then bs[k] == b else bs[k + 1] == b;
      }
    }
  }

  /** Live payloads never overlap each other, and never reach outside the arena. */
  lemma LiveDisjoint(bs: seq<Block>, base: nat, end: nat, a: Block, b: Block)
    requires Tiles(bs, base, end) && a in Live(bs) && b in Live(bs) && a != b
    ensures a.End() <= b.addr || b.End() <= a.addr
    ensures base <= a.addr && a.End() <= end
  {
    var i :| 0 <= i < |bs| && bs[i] == a;
    var j :| 0 <= j < |bs| && bs[j] == b;
    DistinctAddrs(bs, base, end);
    BlocksInOrder(bs, base, end, if i < j then i else j, if i < j then j else i);
  }

  /** When nothing is in use any more, the arena is one free block again. */
  lemma AllFreeIsInitial(bs: seq<Block>, base: nat, end: nat)
    requires Tiles(bs, base, end) && Coalesced(bs) && Live(bs) == {}
    ensures |bs| == 1 && bs[0].isFree && bs[0].addr == base && bs[0].End() == end && Used(bs) == 0
  {
    assert |bs| == 1 ==> bs[1..] == [];
    assert forall b :: b in bs && !b.isFree ==> b in Live(bs);
    NoPairs(bs);
    var firstPair := FreePair(bs, 0);
  }

  /** Requests up to 2^64 - 16 bytes are rounded up; larger ones wrap to a request for nothing. */
  lemma RequestCoveredIff(size: nat)
    requires 0 < size < TWO_TO_THE_64
    ensures AlignUp(size) >= size <==> size <= TWO_TO_THE_64 - ALIGN
    ensures size > TWO_TO_THE_64 - ALIGN ==> AlignUp(size) == 0
  {
  }

  lemma SplitLinked(mem: Memory, bs: seq<Block>, base: nat, end: nat, i: nat, need: nat)
    requires Linked(mem, bs) && Tiles(bs, base, end) && 0 < base && end < TWO_TO_THE_64
    requires i < |bs| && bs[i].size >= need
    ensures Linked(SplitMem(mem, bs[i].addr, need), SplitAt(bs, i, need))
    ensures KeptOff(mem, SplitMem(mem, bs[i].addr, need), SplitAt(bs, i, need))
  {
    var mem', bs' := SplitMem(mem, bs[i].addr, need), SplitAt(bs, i, need);
    assert LinkAt(mem, bs, i);
    if bs[i].size >= need + (HEADER + ALIGN) {
      SplitIsWritten(mem, bs, base, end, i, need);
      hide SplitMem;
      hide SplitAt;
      hide SplitWrites;
      forall k | 0 <= k < |bs'| ensures LinkAt(mem', bs', k) {
        SplitLinkAt(mem, mem', bs, base, end, i, need, k);
      }
      SplitKeptOff(mem, mem', bs, base, end, i, need);
    }
  }

  lemma SplitIsWritten(mem: Memory, bs: seq<Block>, base: nat, end: nat, i: nat, need: nat)
    requires Linked(mem, bs) && Tiles(bs, base, end) && 0 < base && end < TWO_TO_THE_64
    requires i < |bs| && bs[i].size >= need + (HEADER + ALIGN)
    ensures SplitWrites(mem, SplitMem(mem, bs[i].addr, need), bs[i].addr, need)
  {
    assert LinkAt(mem, bs, i);
    DistinctAddrs(bs, base, end);
    if i + 1 < |bs| {
      AddrsDiffer(bs, base, end, i, i + 1);
    }
    hide SplitWrites;
    hide SplitMem;
    SplitWritesThese(mem, bs[i].addr, need);
  }

  /** Block by block, what a split leaves in place and what it relinks. */
  lemma SplitNeighbours(bs: seq<Block>, i: nat, need: nat, k: nat)
    requires i < |bs| && bs[i].size >= need + HEADER + ALIGN && k < |SplitAt(bs, i, need)|
    ensures var bs', tail := SplitAt(bs, i, need), bs[i].addr + HEADER + need;
      && |bs'| == |bs| + 1
      && (k < i ==> bs'[k] == bs[k] && NextAddr(bs', k) == NextAddr(bs, k) && PrevAddr(bs', k) == PrevAddr(bs, k))
      && (k == i ==> bs'[k] == bs[i].(size := need) && NextAddr(bs', k) == tail && PrevAddr(bs', k) == PrevAddr(bs, i))
      && (k == i + 1 ==> bs'[k] == Block(tail, bs[i].size - need - HEADER, true)
                         && NextAddr(bs', k) == NextAddr(bs, i) && PrevAddr(bs', k) == bs[i].addr)
      && (k > i + 1 ==> bs'[k] == bs[k - 1] && NextAddr(bs', k) == NextAddr(bs, k - 1)
                        && PrevAddr(bs', k) == if k == i + 2 then tail else PrevAddr(bs, k - 1))
  {
  }

  lemma SplitLinkAt(mem: Memory, mem': Memory, bs: seq<Block>, base: nat, end: nat, i: nat, need: nat, k: nat)
    requires Linked(mem, bs) && Tiles(bs, base, end) && base > 0 && i < |bs| && bs[i].size >= need + (HEADER + ALIGN)
    requires SplitWrites(mem, mem', bs[i].addr, need) && k < |SplitAt(bs, i, need)|
    ensures LinkAt(mem', SplitAt(bs, i, need), k)
  {
    hide Tiles;
    hide Kept;
    hide HeaderAt;
    assert LinkAt(mem, bs, i);
    SplitNeighbours(bs, i, need, k);
    hide SplitAt;
    var block, tail := bs[i].addr, bs[i].addr + HEADER + need;
    var next := if NextAddr(bs, i) != 0 then NextAddr(bs, i) else block;
    if k < i {
      assert LinkAt(mem, bs, k);
      AddrsDiffer(bs, base, end, k, i);
      if i + 1 < |bs| {
        AddrsDiffer(bs, base, end, k, i + 1);
      }
      HeaderKept(mem, mem', block, tail, next, bs[k].addr);
    } else if k == i + 2 {
      assert LinkAt(mem, bs, k - 1);
      AddrsDiffer(bs, base, end, i, k - 1);
    } else if k > i + 2 {
      assert LinkAt(mem, bs, k - 1);
      AddrsDiffer(bs, base, end, i, k - 1);
      AddrsDiffer(bs, base, end, i + 1, k - 1);
      HeaderKept(mem, mem', block, tail, next, bs[k - 1].addr);
    }
  }

  /** The byte at `w` belongs to no header of the list. */
  ghost predicate OffHeaders(bs: seq<Block>, w: int) { forall k :: 0 <= k < |bs| ==> Off(w, bs[k].addr) }

  /** Nothing but bytes of the list's headers was written: every payload, and all outside the arena, is as before. */
  ghost predicate KeptOff(mem: Memory, mem': Memory, bs: seq<Block>) {
    forall w: int :: OffHeaders(bs, w) ==> Byte(mem', w) == Byte(mem, w)
  }

  lemma SplitKeptOff(mem: Memory, mem': Memory, bs: seq<Block>, base: nat, end: nat, i: nat, need: nat)
    requires Linked(mem, bs) && Tiles(bs, base, end) && base > 0 && i < |bs| && bs[i].size >= need + (HEADER + ALIGN)
    requires SplitWrites(mem, mem', bs[i].addr, need)
    ensures KeptOff(mem, mem', SplitAt(bs, i, need))
  {
    hide Get;
    hide Put;
    var bs' := SplitAt(bs, i, need);
    assert LinkAt(mem, bs, i);
    assert bs'[i].addr == bs[i].addr && bs'[i + 1].addr == bs[i].addr + HEADER + need;
    assert i + 1 < |bs| ==> bs'[i + 2].addr == bs[i + 1].addr;
  }

  /** Of two blocks, the later one lies after the earlier one's end and is its successor only if adjacent. */
  lemma AddrsDiffer(bs: seq<Block>, base: nat, end: nat, i: nat, j: nat)
    requires Tiles(bs, base, end) && i < j < |bs|
    ensures base <= bs[i].addr < bs[i].End() <= bs[j].addr
    ensures NextAddr(bs, i) == bs[j].addr <==> j == i + 1
    ensures base > 0 ==> NextAddr(bs, j) != bs[i].addr
  {
    DistinctAddrs(bs, base, end);
    BlocksInOrder(bs, base, end, i, j);
  }

  lemma MergeLinked(mem: Memory, bs: seq<Block>, base: nat, end: nat, i: nat)
    requires Linked(mem, bs) && Tiles(bs, base, end) && 0 < base && end < TWO_TO_THE_64 && i < |bs|
    ensures Linked(MergeMem(mem, bs[i].addr), MergeAt(bs, i)) && KeptOff(mem, MergeMem(mem, bs[i].addr), bs)
  {
    hide Get;
    hide Put;
    var mem', bs' := MergeMem(mem, bs[i].addr), MergeAt(bs, i);
    assert LinkAt(mem, bs, i);
    FirstBlock(bs, base, end, i);
    if i + 1 < |bs| {
      assert LinkAt(mem, bs, i + 1);
      if bs[i + 1].isFree {
        MergeIsWritten(mem, bs, base, end, i);
        hide MergeMem;
        hide MergeAt;
        hide MergeWrites;
        forall k | 0 <= k < |bs'| ensures LinkAt(mem', bs', k) {
          MergeLinkAt(mem, mem', bs, base, end, i, k);
        }
        MergeKeptOff(mem, mem', bs, base, end, i);
      }
    }
  }

  lemma MergeIsWritten(mem: Memory, bs: seq<Block>, base: nat, end: nat, i: nat)
    requires Linked(mem, bs) && Tiles(bs, base, end) && 0 < base && end < TWO_TO_THE_64
    requires i + 1 < |bs| && bs[i + 1].isFree
    ensures MergeWrites(mem, MergeMem(mem, bs[i].addr), bs[i].addr)
  {
    assert LinkAt(mem, bs, i) && LinkAt(mem, bs, i + 1);
    AddrsDiffer(bs, base, end, i, i + 1);
    if i + 2 < |bs| {
      AddrsDiffer(bs, base, end, i, i + 2);
    }
    DistinctAddrs(bs, base, end);
    hide MergeWrites;
    hide MergeMem;
    MergeWritesThese(mem, bs[i].addr);
  }

  lemma MergeKeptOff(mem: Memory, mem': Memory, bs: seq<Block>, base: nat, end: nat, i: nat)
    requires Linked(mem, bs) && Tiles(bs, base, end) && 0 < base && i + 1 < |bs|
    requires MergeWrites(mem, mem', bs[i].addr)
    ensures KeptOff(mem, mem', bs)
  {
    assert LinkAt(mem, bs, i) && LinkAt(mem, bs, i + 1);
  }

  /** Block by block, what a merge leaves in place and what it relinks. */
  lemma MergeNeighbours(bs: seq<Block>, i: nat, k: nat)
    requires i + 1 < |bs| && bs[i + 1].isFree && k < |MergeAt(bs, i)|
    ensures var bs' := MergeAt(bs, i);
      && |bs'| == |bs| - 1
      && (k < i ==> bs'[k] == bs[k] && NextAddr(bs', k) == NextAddr(bs, k) && PrevAddr(bs', k) == PrevAddr(bs, k))
      && (k == i ==> bs'[k] == bs[i].(size := bs[i].size + HEADER + bs[i + 1].size)
                     && NextAddr(bs', k) == NextAddr(bs, i + 1) && PrevAddr(bs', k) == PrevAddr(bs, i))
      && (k > i ==> bs'[k] == bs[k + 1] && NextAddr(bs', k) == NextAddr(bs, k + 1)
                    && PrevAddr(bs', k) == if k == i + 1 then bs[i].addr else PrevAddr(bs, k + 1))
  {
  }

  lemma MergeLinkAt(mem: Memory, mem': Memory, bs: seq<Block>, base: nat, end: nat, i: nat, k: nat)
    requires Linked(mem, bs) && Tiles(bs, base, end) && base > 0 && i + 1 < |bs| && bs[i + 1].isFree
    requires MergeWrites(mem, mem', bs[i].addr) && k < |MergeAt(bs, i)|
    ensures LinkAt(mem', MergeAt(bs, i), k)
  {
    hide Tiles;
    hide Kept;
    hide HeaderAt;
    assert LinkAt(mem, bs, i) && LinkAt(mem, bs, i + 1);
    MergeNeighbours(bs, i, k);
    hide MergeAt;
    var block := bs[i].addr;
    var after := if NextAddr(bs, i + 1) != 0 then NextAddr(bs, i + 1) else block;
    if k < i {
      assert LinkAt(mem, bs, k);
      AddrsDiffer(bs, base, end, k, i);
      if i + 2 < |bs| {
        AddrsDiffer(bs, base, end, k, i + 2);
      }
      HeaderKept(mem, mem', block, block, after, bs[k].addr);
    } else if k == i + 1 {
      assert LinkAt(mem, bs, k + 1);
      AddrsDiffer(bs, base, end, i, k + 1);
    } else if k > i + 1 {
      assert LinkAt(mem, bs, k + 1);
      AddrsDiffer(bs, base, end, i, k + 1);
      AddrsDiffer(bs, base, end, i + 2, k + 1);
      HeaderKept(mem, mem', block, block, after, bs[k + 1].addr);
    }
  }

  lemma FirstBlock(bs: seq<Block>, base: nat, end: nat, i: nat)
    requires Tiles(bs, base, end) && i < |bs| && base > 0
    ensures NextAddr(bs, i) == 0 <==> i + 1 == |bs|
    ensures PrevAddr(bs, i) == 0 <==> i == 0
  {
    DistinctAddrs(bs, base, end);
  }

  lemma MarkLinked(mem: Memory, bs: seq<Block>, base: nat, end: nat, i: nat, free: bool)
    requires Linked(mem, bs) && Tiles(bs, base, end) && i < |bs|
    ensures var bs', mem' := bs[i := bs[i].(isFree := free)], SetFree(mem, bs[i].addr, if free then 1 else 0);
      Linked(mem', bs') && Tiles(bs', base, end) && KeptOff(mem, mem', bs')
  {
    hide Get;
    hide Put;
    var bs', mem' := bs[i := bs[i].(isFree := free)], SetFree(mem, bs[i].addr, if free then 1 else 0);
    assert LinkAt(mem, bs, i);
    FreeWrites(mem, bs[i].addr, if free then 1 else 0);
    assert bs'[i].addr == bs[i].addr;
    hide SetFree;
    hide HeaderAt;
    forall k | 0 <= k < |bs'| ensures LinkAt(mem', bs', k) {
      assert LinkAt(mem, bs, k);
      if k != i {
        AddrsDiffer(bs, base, end, if i < k then i else k, if i < k then k else i);
        HeaderKept(mem, mem', bs[i].addr, bs[i].addr, bs[i].addr, bs[k].addr);
      }
    }
  }

  /** Requests that are rounded up are so to the next multiple of 16. */
  lemma RoundsUp(size: nat)
    requires size < TWO_TO_THE_64
    ensures AlignUp(size) % ALIGN == 0 && AlignUp(size) < TWO_TO_THE_64
    ensures size <= TWO_TO_THE_64 - ALIGN ==> size <= AlignUp(size) < size + ALIGN
  {
  }

  /** The words clks_kmalloc writes make the block list the one that AllocAt describes. */
  lemma AllocRefines(mem: Memory, bs: seq<Block>, base: nat, end: nat, i: nat, need: nat)
    requires Linked(mem, bs) && Tiles(bs, base, end) && 0 < base && end < TWO_TO_THE_64 && i < |bs| && Fits(bs[i], need)
    ensures var bs', mem' := AllocAt(bs, i, need), AllocMem(mem, bs[i].addr, need);
      Linked(mem', bs') && KeptOff(mem, mem', bs')
  {
    hide Linked;
    hide Tiles;
    hide KeptOff;
    var split, m1 := SplitAt(bs, i, need), SplitMem(mem, bs[i].addr, need);
    SplitLinked(mem, bs, base, end, i, need);
    SplitTiles(bs, base, end, i, need);
    assert split[i].addr == bs[i].addr;
    hide SplitAt;
    hide SplitMem;
    MarkLinked(m1, split, base, end, i, false);
    SameHeaders(m1, mem, split, split[i := split[i].(isFree := false)]);
    KeptOffTwice(mem, m1, SetFree(m1, bs[i].addr, 0), split[i := split[i].(isFree := false)]);
  }

  /** Marking a block moves no header. */
  lemma SameHeaders(mem': Memory, mem: Memory, bs: seq<Block>, bs': seq<Block>)
    requires |bs| == |bs'| && forall k :: 0 <= k < |bs| ==> bs[k].addr == bs'[k].addr
    ensures KeptOff(mem, mem', bs) <==> KeptOff(mem, mem', bs')
  {
    assert forall w: int :: OffHeaders(bs, w) <==> OffHeaders(bs', w);
  }

  lemma KeptOffTwice(mem: Memory, mem1: Memory, mem2: Memory, bs: seq<Block>)
    requires KeptOff(mem, mem1, bs) && KeptOff(mem1, mem2, bs)
    ensures KeptOff(mem, mem2, bs)
  {
  }

  lemma MergeKeptMore(mem: Memory, mem': Memory, bs: seq<Block>, i: nat)
    requires i < |bs| && KeptOff(mem, mem', MergeAt(bs, i))
    ensures KeptOff(mem, mem', bs)
  {
    var bs' := MergeAt(bs, i);
    forall w: int | OffHeaders(bs, w) ensures OffHeaders(bs', w) {
      forall k | 0 <= k < |bs'| ensures Off(w, bs'[k].addr) {
        assert bs'[k].addr == bs[if k <= i then k else k + |bs| - |bs'|].addr;
      }
    }
  }

  /** The header at `x` lies in free space, at its block's start or further in, and clks_kfree turns it away. */
  ghost predicate RetiredIn(mem: Memory, bs: seq<Block>, x: int, k: nat) {
    && k < |bs| && bs[k].isFree
    && (x == bs[k].addr || (bs[k].Payload() <= x && x + HEADER <= bs[k].End()))
    && (HeaderAt(mem, x).magic != MAGIC || HeaderAt(mem, x).free == 1)
  }

  ghost predicate Retired(mem: Memory, bs: seq<Block>, x: int) { exists k: nat :: RetiredIn(mem, bs, x, k) }

  ghost predicate RetiredKept(mem: Memory, bs: seq<Block>, mem': Memory, bs': seq<Block>) {
    forall x: int :: Retired(mem, bs, x) ==> Retired(mem', bs', x)
  }

  /** A header wholly inside a block's payload shares no byte with the list's headers. */
  lemma InsideOff(bs: seq<Block>, base: nat, end: nat, k: nat, w: int)
    requires Tiles(bs, base, end) && k < |bs| && bs[k].Payload() <= w < bs[k].End()
    ensures OffHeaders(bs, w)
  {
    forall j | 0 <= j < |bs| ensures Off(w, bs[j].addr) {
      if j != k {
        BlocksInOrder(bs, base, end, if j < k then j else k, if j < k then k else j);
      }
    }
  }

  lemma InsideKept(mem: Memory, mem': Memory, bs: seq<Block>, base: nat, end: nat, k: nat, x: int)
    requires Tiles(bs, base, end) && k < |bs| && bs[k].Payload() <= x && x + HEADER <= bs[k].End()
    requires KeptOff(mem, mem', bs)
    ensures HeaderAt(mem', x) == HeaderAt(mem, x)
  {
    forall w: int | x <= w < x + HEADER ensures Byte(mem', w) == Byte(mem, w) {
      InsideOff(bs, base, end, k, w);
    }
    HeaderSame(mem, mem', x);
  }

  lemma RetiredMark(mem: Memory, bs: seq<Block>, base: nat, end: nat, i: nat)
    requires Linked(mem, bs) && Tiles(bs, base, end) && i < |bs| && !bs[i].isFree
    ensures RetiredKept(mem, bs, SetFree(mem, bs[i].addr, 1), bs[i := bs[i].(isFree := true)])
    ensures Retired(SetFree(mem, bs[i].addr, 1), bs[i := bs[i].(isFree := true)], bs[i].addr)
  {
    hide Get;
    hide Put;
    var bs', mem' := bs[i := bs[i].(isFree := true)], SetFree(mem, bs[i].addr, 1);
    MarkLinked(mem, bs, base, end, i, true);
    assert LinkAt(mem', bs', i);
    assert RetiredIn(mem', bs', bs[i].addr, i);
    hide SetFree;
    hide Tiles;
    hide HeaderAt;
    hide KeptOff;
    SameHeaders(mem', mem, bs, bs');
    forall x | Retired(mem, bs, x) ensures Retired(mem', bs', x) {
      var k: nat :| RetiredIn(mem, bs, x, k);
      assert bs'[k] == bs[k];
      assert LinkAt(mem', bs', k);
      if x != bs[k].addr {
        InsideKept(mem, mem', bs, base, end, k, x);
      }
      assert RetiredIn(mem', bs', x, k);
    }
  }

  lemma RetiredMerge(mem: Memory, bs: seq<Block>, base: nat, end: nat, i: nat)
    requires Linked(mem, bs) && Tiles(bs, base, end) && 0 < base && end < TWO_TO_THE_64 && i < |bs| && bs[i].isFree
    ensures RetiredKept(mem, bs, MergeMem(mem, bs[i].addr), MergeAt(bs, i))
  {
    hide Get;
    hide Put;
    var mem', bs' := MergeMem(mem, bs[i].addr), MergeAt(bs, i);
    assert LinkAt(mem, bs, i);
    FirstBlock(bs, base, end, i);
    if i + 1 < |bs| {
      assert LinkAt(mem, bs, i + 1);
      if bs[i + 1].isFree {
        MergeLinked(mem, bs, base, end, i);
        AbsorbedKept(mem, bs, base, end, i);
        hide Linked;
        hide Tiles;
        hide HeaderAt;
        hide MergeMem;
        hide KeptOff;
        forall x | Retired(mem, bs, x) ensures Retired(mem', bs', x) {
          var k: nat :| RetiredIn(mem, bs, x, k);
          RetiredInMerged(mem, mem', bs, base, end, i, x, k);
        }
      }
    }
  }

  /** The header of an absorbed block stays in memory as it was. */
  lemma AbsorbedKept(mem: Memory, bs: seq<Block>, base: nat, end: nat, i: nat)
    requires Linked(mem, bs) && Tiles(bs, base, end) && 0 < base && end < TWO_TO_THE_64
    requires i + 1 < |bs| && bs[i + 1].isFree
    ensures HeaderAt(MergeMem(mem, bs[i].addr), bs[i + 1].addr) == HeaderAt(mem, bs[i + 1].addr)
  {
    hide Get;
    hide Put;
    assert LinkAt(mem, bs, i) && LinkAt(mem, bs, i + 1);
    MergeIsWritten(mem, bs, base, end, i);
    AddrsDiffer(bs, base, end, i, i + 1);
    if i + 2 < |bs| {
      AddrsDiffer(bs, base, end, i + 1, i + 2);
    }
    var after := if NextAddr(bs, i + 1) != 0 then NextAddr(bs, i + 1) else bs[i].addr;
    hide MergeMem;
    hide Kept;
    HeaderKept(mem, MergeMem(mem, bs[i].addr), bs[i].addr, bs[i].addr, after, bs[i + 1].addr);
  }

  lemma RetiredInMerged(mem: Memory, mem': Memory, bs: seq<Block>, base: nat, end: nat, i: nat, x: int, k: nat)
    requires Tiles(bs, base, end) && i + 1 < |bs| && bs[i].isFree && bs[i + 1].isFree
    requires Linked(mem', MergeAt(bs, i)) && KeptOff(mem, mem', bs) && RetiredIn(mem, bs, x, k)
    requires HeaderAt(mem', bs[i + 1].addr) == HeaderAt(mem, bs[i + 1].addr)
    ensures Retired(mem', MergeAt(bs, i), x)
  {
    hide HeaderAt;
    hide KeptOff;
    var bs' := MergeAt(bs, i);
    var k' := if k <= i then k else k - 1;
    assert LinkAt(mem', bs', k');
    assert bs'[k'] == if k' == i then bs[i].(size := bs[i].size + HEADER + bs[i + 1].size) else bs[k];
    assert bs[i].End() == bs[i + 1].addr;
    if x != bs[k].addr {
      InsideKept(mem, mem', bs, base, end, k, x);
    }
    assert RetiredIn(mem', bs', x, k');
  }

  lemma MergeStep(mem: Memory, bs: seq<Block>, base: nat, end: nat, i: nat)
    requires Linked(mem, bs) && Tiles(bs, base, end) && 0 < base && end < TWO_TO_THE_64 && i < |bs| && bs[i].isFree
    ensures var mem', bs' := MergeMem(mem, bs[i].addr), MergeAt(bs, i);
      Linked(mem', bs') && Tiles(bs', base, end) && KeptOff(mem, mem', bs) && RetiredKept(mem, bs, mem', bs')
  {
    MergeLinked(mem, bs, base, end, i);
    MergeTiles(bs, base, end, i);
    RetiredMerge(mem, bs, base, end, i);
  }

  /** The words clks_kfree writes make the block list the one that FreeAt describes. */
  lemma FreeRefines(mem: Memory, bs: seq<Block>, base: nat, end: nat, i: nat)
    requires Linked(mem, bs) && Tiles(bs, base, end) && 0 < base && end < TWO_TO_THE_64 && i < |bs| && !bs[i].isFree
    ensures var bs', mem' := FreeAt(bs, i), FreeMem(mem, bs[i].addr);
      && Linked(mem', bs') && KeptOff(mem, mem', bs)
      && RetiredKept(mem, bs, mem', bs') && Retired(mem', bs', bs[i].addr)
  {
    hide Linked;
    hide Tiles;
    hide KeptOff;
    hide Retired;
    hide HeaderAt;
    var block := bs[i].addr;
    var freed, m0 := bs[i := bs[i].(isFree := true)], SetFree(mem, block, 1);
    MarkLinked(mem, bs, base, end, i, true);
    RetiredMark(mem, bs, base, end, i);
    hide SetFree;
    var merged, m1 := MergeAt(freed, i), MergeMem(m0, block);
    MergeStep(m0, freed, base, end, i);
    KeptOffTwice(mem, m0, m1, freed);
    SameHeaders(m1, mem, bs, freed);
    PrevFree(m1, merged, base, end, i);
    assert merged[i].addr == block && merged[i].isFree;
    if i > 0 && merged[i - 1].isFree {
      var m2 := MergeMem(m1, merged[i - 1].addr);
      MergeStep(m1, merged, base, end, i - 1);
      MergeKeptMore(m1, m2, freed, i);
      KeptOffTwice(mem, m1, m2, freed);
      SameHeaders(m2, mem, bs, freed);
    }
  }

  lemma PrevFree(mem: Memory, bs: seq<Block>, base: nat, end: nat, i: nat)
    requires Linked(mem, bs) && Tiles(bs, base, end) && 0 < base && i < |bs|
    ensures HeaderAt(mem, bs[i].addr).prev == PrevAddr(bs, i)
    ensures PrevAddr(bs, i) != 0 && HeaderAt(mem, PrevAddr(bs, i)).free == 1 <==> i > 0 && bs[i - 1].isFree
  {
    assert LinkAt(mem, bs, i);
    FirstBlock(bs, base, end, i);
    if i > 0 {
      assert LinkAt(mem, bs, i - 1);
    }
  }

  lemma {:induction false} UsedPart(bs: seq<Block>, i: nat)
    requires i < |bs|
    ensures Used(bs) >= bs[i].Charge()
  {
    if i > 0 {
      UsedPart(bs[1..], i - 1);
    }
  }

  /** Where clks_kmalloc stops: the first block that fits, or the length of the list. */
  function FirstFit(bs: seq<Block>, need: nat): (i: nat)
    ensures i <= |bs| && (forall j :: 0 <= j < i ==> !Fits(bs[j], need)) && (i < |bs| ==> Fits(bs[i], need))
  {
    if bs == [] || Fits(bs[0], need) then 0 else 1 + FirstFit(bs[1..], need)
  }

  /** Every free block before place `i` is smaller than needed. */
  predicate NoneBefore(bs: seq<Block>, i: nat, need: nat) {
    i <= |bs| && forall j :: 0 <= j < i && bs[j].isFree ==> bs[j].size < need
  }

  /** The first fit is the first free block of at least the size that is needed. */
  lemma FirstFitIs(bs: seq<Block>, need: nat)
    ensures var i := FirstFit(bs, need);
      && NoneBefore(bs, i, need) && (i < |bs| ==> bs[i].isFree && bs[i].size >= need)
      && (NoneBefore(bs, |bs|, need) <==> i == |bs|)
  {
  }

  lemma FitsAt(bs: seq<Block>, need: nat, i: nat)
    requires i < |bs| && FirstFit(bs, need) >= i
    ensures FirstFit(bs, need) == i <==> Fits(bs[i], need)
  {
  }

  /** An address some caller got from clks_kmalloc and has not released. */
  ghost predicate LivePtr(bs: seq<Block>, p: nat) { exists b :: b in Live(bs) && b.Payload() == p }

  /** Releasing a live address takes exactly that address away. */
  lemma FreeLivePtr(bs: seq<Block>, base: nat, end: nat, i: nat)
    requires Tiles(bs, base, end) && i < |bs| && !bs[i].isFree
    ensures forall p :: LivePtr(FreeAt(bs, i), p) <==> LivePtr(bs, p) && p != bs[i].Payload()
  {
    FreeLive(bs, base, end, i);
    assert bs[i] in Live(bs);
    forall p ensures LivePtr(FreeAt(bs, i), p) <==> LivePtr(bs, p) && p != bs[i].Payload() {
      if LivePtr(bs, p) && p != bs[i].Payload() {
        var b :| b in Live(bs) && b.Payload() == p;
        assert b in Live(FreeAt(bs, i));
      }
      if LivePtr(FreeAt(bs, i), p) {
        var b :| b in Live(FreeAt(bs, i)) && b.Payload() == p;
        OnePayload(bs, base, end, b);
      }
    }
  }

  lemma OnePayload(bs: seq<Block>, base: nat, end: nat, b: Block)
    requires Tiles(bs, base, end) && b in Live(bs)
    ensures forall c :: c in Live(bs) && c.Payload() == b.Payload() ==> c == b
  {
    DistinctAddrs(bs, base, end);
  }

  /** The bytes of the payloads in `live` are as before. */
  ghost predicate PayloadsKept(mem: Memory, mem': Memory, live: set<Block>) {
    forall b, w: int :: b in live && b.Payload() <= w < b.End() ==> Byte(mem', w) == Byte(mem, w)
  }

  ghost predicate ArenaOnly(mem: Memory, mem': Memory, base: nat, end: nat) {
    forall w: int :: w < base || end <= w ==> Byte(mem', w) == Byte(mem, w)
  }

  lemma KeptOffMeans(mem: Memory, mem': Memory, bs: seq<Block>, base: nat, end: nat, live: set<Block>)
    requires KeptOff(mem, mem', bs) && Tiles(bs, base, end) && live <= Live(bs)
    ensures PayloadsKept(mem, mem', live) && ArenaOnly(mem, mem', base, end)
  {
    forall b, w: int | b in live && b.Payload() <= w < b.End() ensures Byte(mem', w) == Byte(mem, w) {
      var k :| 0 <= k < |bs| && bs[k] == b;
      InsideOff(bs, base, end, k, w);
    }
    DistinctAddrs(bs, base, end);
    forall w: int | w < base || end <= w ensures Byte(mem', w) == Byte(mem, w) {
      assert OffHeaders(bs, w);
    }
  }

  /** A byte inside a payload in use is no part of a header, so writing it leaves the list as it is. */
  lemma StoreLinked(mem: Memory, bs: seq<Block>, base: nat, end: nat, b: Block, a: nat, v: byte)
    requires Linked(mem, bs) && Tiles(bs, base, end)
    requires b in Live(bs) && b.Payload() <= a < b.End()
    ensures Linked(mem[a := v], bs)
  {
    hide Get;
    hide Put;
    var k :| 0 <= k < |bs| && bs[k] == b;
    InsideOff(bs, base, end, k, a);
    var mem' := mem[a := v];
    forall j | 0 <= j < |bs| ensures LinkAt(mem', bs, j) {
      assert LinkAt(mem, bs, j) && Off(a, bs[j].addr);
      HeaderSame(mem, mem', bs[j].addr);
    }
  }

  lemma InitLinked(mem: Memory, base: nat, end: nat)
    requires base + HEADER <= end < TWO_TO_THE_64 && base % ALIGN == 0
    ensures var bs := [Block(base, end - base - HEADER, true)];
      && Linked(InitMem(mem, base, end), bs) && Tiles(bs, base, end) && Coalesced(bs) && Used(bs) == 0 && Aligned(bs)
      && ArenaOnly(mem, InitMem(mem, base, end), base, end)
  {
    hide Get;
    hide Put;
    var bs := [Block(base, end - base - HEADER, true)];
    InitWrites(mem, base, end);
    hide InitMem;
    hide HeaderAt;
    assert LinkAt(InitMem(mem, base, end), bs, 0);
    assert bs[1..] == [];
  }

  /** Allocation from block `i`, in memory and in the list. */
  lemma AllocStep(mem: Memory, bs: seq<Block>, base: nat, end: nat, i: nat, need: nat)
    requires Linked(mem, bs) && Tiles(bs, base, end) && Coalesced(bs) && Aligned(bs) && 0 < base
    requires end < TWO_TO_THE_64 && i < |bs| && Fits(bs[i], need) && need % ALIGN == 0
    ensures var bs', mem' := AllocAt(bs, i, need), AllocMem(mem, bs[i].addr, need);
      && Linked(mem', bs') && Tiles(bs', base, end) && Coalesced(bs') && Aligned(bs')
      && need <= bs'[i].size < need + (HEADER + ALIGN)
      && Used(bs') == Used(bs) + HeaderAt(mem', bs[i].addr).size && bs'[i].addr == bs[i].addr
      && PayloadsKept(mem, mem', Live(bs)) && ArenaOnly(mem, mem', base, end)
    ensures HeaderAt(mem, bs[i].addr).size == bs[i].size
  {
    hide HeaderAt;
    hide AllocMem;
    hide Tiles;
    hide Coalesced;
    hide Live;
    hide KeptOff;
    hide Used;
    hide Aligned;
    var bs', mem' := AllocAt(bs, i, need), AllocMem(mem, bs[i].addr, need);
    AllocAligned(bs, i, need);
    AllocKeeps(bs, base, end, i, need);
    AllocUsed(bs, i, need);
    AllocLive(bs, i, need);
    AllocRefines(mem, bs, base, end, i, need);
    hide AllocAt;
    KeptOffMeans(mem, mem', bs', base, end, Live(bs));
    assert LinkAt(mem, bs, i);
    assert LinkAt(mem', bs', i);
  }

  /** Release of block `i`, in memory and in the list. */
  lemma FreeStep(mem: Memory, bs: seq<Block>, base: nat, end: nat, i: nat)
    requires Linked(mem, bs) && Tiles(bs, base, end) && Coalesced(bs) && Aligned(bs) && 0 < base
    requires end < TWO_TO_THE_64 && i < |bs| && !bs[i].isFree
    ensures var bs', mem' := FreeAt(bs, i), FreeMem(mem, bs[i].addr);
      && Linked(mem', bs') && Tiles(bs', base, end) && Coalesced(bs') && Aligned(bs')
      && PayloadsKept(mem, mem', Live(bs')) && ArenaOnly(mem, mem', base, end)
      && RetiredKept(mem, bs, mem', bs') && Retired(mem', bs', bs[i].addr)
      && Used(bs') == Less(Used(bs), HeaderAt(mem, bs[i].addr).size)
    ensures HeaderAt(mem, bs[i].addr).magic == MAGIC && HeaderAt(mem, bs[i].addr).free == 0
  {
    hide HeaderAt;
    hide FreeMem;
    hide Tiles;
    hide Coalesced;
    hide Live;
    hide KeptOff;
    hide Used;
    hide FreeAt;
    hide Retired;
    hide Aligned;
    var bs', mem' := FreeAt(bs, i), FreeMem(mem, bs[i].addr);
    FreeAligned(bs, i);
    FreeKeeps(bs, base, end, i);
    FreeUsed(bs, i);
    UsedPart(bs, i);
    FreeLive(bs, base, end, i);
    FreeRefines(mem, bs, base, end, i);
    KeptOffMeans(mem, mem', bs, base, end, Live(bs'));
    assert LinkAt(mem, bs, i);
  }

  /** What clks_kfree leaves of the counter of bytes in use. */
  function Less(used: int, size: nat): int { if used >= size then used - size else 0 }

  /** Nor is it part of a header that was left behind in free space. */
  lemma StoreRetired(mem: Memory, bs: seq<Block>, base: nat, end: nat, b: Block, a: nat, v: byte)
    requires Tiles(bs, base, end) && b in Live(bs) && b.Payload() <= a < b.End()
    ensures RetiredKept(mem, bs, mem[a := v], bs)
  {
    hide Get;
    hide Put;
    var j :| 0 <= j < |bs| && bs[j] == b;
    var mem' := mem[a := v];
    forall x: int | Retired(mem, bs, x) ensures Retired(mem', bs, x) {
      var k: nat :| RetiredIn(mem, bs, x, k);
      BlocksInOrder(bs, base, end, if j < k then j else k, if j < k then k else j);
      HeaderSame(mem, mem', x);
      assert RetiredIn(mem', bs, x, k);
    }
  }

  lemma NothingWritten(mem: Memory, live: set<Block>, base: nat, end: nat)
    ensures PayloadsKept(mem, mem, live) && ArenaOnly(mem, mem, base, end)
  {
  }

  lemma WalkStarts(bs: seq<Block>, base: nat, end: nat, need: nat)
    requires Tiles(bs, base, end)
    ensures |bs| > 0 && bs[0].addr == base && FirstFit(bs, need) >= 0
  {
  }

  /** What the walk over the headers reads at block `i`, none before it being large enough. */
  lemma WalkAt(mem: Memory, bs: seq<Block>, base: nat, end: nat, i: nat, need: nat)
    requires Linked(mem, bs) && Tiles(bs, base, end) && base > 0 && i <= |bs| && FirstFit(bs, need) >= i
    ensures i < |bs| ==>
      && var h := HeaderAt(mem, bs[i].addr);
      && h.magic == MAGIC && (h.free == 1 <==> bs[i].isFree) && h.size == bs[i].size
      && h.next == (if i + 1 < |bs| then bs[i + 1].addr else 0)
      && (FirstFit(bs, need) == i <==> Fits(bs[i], need)) && FirstFit(bs, need) <= |bs| && bs[i].addr > 0
  {
    if i < |bs| {
      assert LinkAt(mem, bs, i);
      hide HeaderAt;
      FitsAt(bs, need, i);
      FirstBlock(bs, base, end, i);
      DistinctAddrs(bs, base, end);
    }
  }

  lemma WalkEnds(bs: seq<Block>, base: nat, end: nat, i: nat, need: nat)
    requires Tiles(bs, base, end) && base > 0 && i <= |bs| && FirstFit(bs, need) >= i
    ensures i == |bs| ==> FirstFit(bs, need) == |bs|
    ensures i < |bs| ==> bs[i].addr > 0
  {
    DistinctAddrs(bs, base, end);
  }

  class Heap {
    const base: nat
    const end: nat
    var mem: Memory
    var head: nat
    var ready: bool
    var used: int
    var allocCount: nat
    var freeCount: nat
    ghost var bs: seq<Block>

    /** The headers in the arena form the block list. */
    ghost predicate Valid()
      reads this
    {
      && 0 < base && base % ALIGN == 0 && base + HEADER <= end && end + 2 * HEADER < TWO_TO_THE_64
      && (ready ==>
            && head == base && Tiles(bs, base, end) && Linked(mem, bs) && Coalesced(bs) && Aligned(bs)
            && used == Used(bs))
    }

    constructor (arena: nat, size: nat, contents: Memory)
      requires 0 < arena && arena % ALIGN == 0 && HEADER <= size && arena + size + 2 * HEADER < TWO_TO_THE_64
      ensures Valid() && !ready && base == arena && end == arena + size
    {
      base, end := arena, arena + size;
      mem, head, ready, used, allocCount, freeCount := contents, 0, false, 0, 0, 0;
      bs := [];
    }

    /** clks_heap_init */
    method Init()
      requires Valid()
      modifies this
      ensures Valid() && ready && bs == [Block(base, end - base - HEADER, true)] && used == allocCount == freeCount == 0
      ensures mem == InitMem(old(mem), base, end) && ArenaOnly(old(mem), mem, base, end)
    {
      hide Full;
      hide HeaderAt;
      hide Linked;
      hide Tiles;
      hide Coalesced;
      hide Used;
      hide Aligned;
      hide ArenaOnly;
      mem := Cleared(mem, base, end);
      head := base;
      WriteHeader(head, Header(end - base - HEADER, 1, 0, 0, MAGIC));
      used, allocCount, freeCount := 0, 0, 0;
      ready := true;
      bs := [Block(base, end - base - HEADER, true)];
      InitLinked(old(mem), base, end);
    }

    /** The five words of a fresh header. */
    method WriteHeader(a: nat, h: Header)
      modifies this`mem
      ensures mem == Full(a, h, old(mem))
    {
      mem := SetSize(mem, a, h.size);
      mem := SetFree(mem, a, h.free);
      mem := SetNext(mem, a, h.next);
      mem := SetPrev(mem, a, h.prev);
      mem := SetMagic(mem, a, h.magic);
    }

    /** clks_heap_split_block */
    method SplitBlock(block: nat, need: nat)
      requires HeaderAt(mem, block).size >= need
      modifies this`mem
      ensures mem == SplitMem(old(mem), block, need)
    {
      hide HeaderAt;
      hide Full;
      hide SetSize;
      hide SetNext;
      hide SetPrev;
      if HeaderAt(mem, block).size < need + (HEADER + ALIGN) {
        return;
      }
      var tail, next := block + HEADER + need, HeaderAt(mem, block).next;
      var size := HeaderAt(mem, block).size;
      WriteHeader(tail, Header(size - need - HEADER, 1, next, block, MAGIC));
      if next != 0 {
        mem := SetPrev(mem, next, tail);
      }
      mem := SetNext(mem, block, tail);
      mem := SetSize(mem, block, need);
    }

    /** clks_heap_merge_next */
    method MergeNext(block: nat)
      modifies this`mem
      ensures mem == MergeMem(old(mem), block)
    {
      hide HeaderAt;
      hide SetSize;
      hide SetNext;
      hide SetPrev;
      var next := HeaderAt(mem, block).next;
      if next == 0 {
        return;
      }
      if HeaderAt(mem, next).free == 0 {
        return;
      }
      if HeaderAt(mem, next).magic != MAGIC {
        return;
      }
      mem := SetSize(mem, block, (HeaderAt(mem, block).size + HEADER + HeaderAt(mem, next).size) % TWO_TO_THE_64);
      mem := SetNext(mem, block, HeaderAt(mem, next).next);
      if HeaderAt(mem, next).next != 0 {
        mem := SetPrev(mem, HeaderAt(mem, next).next, block);
      }
    }

    /**
     clks_kmalloc: the first block that fits, cut to size. Null comes back exactly when nothing is asked for or no
     free block is large enough. The pointer is a multiple of 8, and the payload behind it as large as asked for and
     less than 72 bytes larger, unless the request is so large that rounding it wraps around. The bytes of every
     payload in use stay as they are.
     */
    method Kmalloc(size: nat) returns (ptr: nat)
      requires Valid() && size < TWO_TO_THE_64
      modifies this`mem, this`bs, this`used, this`allocCount
      ensures Valid()
      ensures ptr == 0 <==> !ready || size == 0 || FirstFit(old(bs), AlignUp(size)) == |old(bs)|
      ensures ptr == 0 <==> !ready || size == 0 || NoneBefore(old(bs), |old(bs)|, AlignUp(size))
      ensures ptr == 0 ==> bs == old(bs) && mem == old(mem) && used == old(used) && allocCount == old(allocCount)
      ensures ptr != 0 ==>
        var i := FirstFit(old(bs), AlignUp(size));
        && NoneBefore(old(bs), i, AlignUp(size)) && old(bs)[i].isFree && old(bs)[i].size >= AlignUp(size)
        && bs == AllocAt(old(bs), i, AlignUp(size)) && ptr == bs[i].Payload() && ptr % 8 == 0
        && (size <= TWO_TO_THE_64 - ALIGN ==> size <= bs[i].size < size + ALIGN + (HEADER + ALIGN))
        && mem == AllocMem(old(mem), bs[i].addr, AlignUp(size))
        && allocCount == old(allocCount) + 1
      ensures PayloadsKept(old(mem), mem, Live(old(bs))) && ArenaOnly(old(mem), mem, base, end)
    {
      hide HeaderAt;
      hide Linked;
      hide Tiles;
      hide Coalesced;
      hide Aligned;
      hide Used;
      hide AllocAt;
      hide AllocMem;
      hide PayloadsKept;
      hide ArenaOnly;
      FirstFitIs(bs, AlignUp(size));
      hide NoneBefore;
      hide FirstFit;
      if !ready || size == 0 {
        NothingWritten(mem, Live(bs), base, end);
        return 0;
      }
      var need := AlignUp(size);
      RoundsUp(size);
      hide AlignUp;
      NothingWritten(mem, Live(bs), base, end);
      WalkStarts(bs, base, end, need);
      var current := head;
      ghost var i := 0;
      while current != 0
        invariant Valid() && bs == old(bs) && mem == old(mem) && used == old(used) && allocCount == old(allocCount)
        invariant 0 <= i <= |bs| && current == (if i < |bs| then bs[i].addr else 0)
        invariant FirstFit(bs, need) >= i
        decreases |bs| - i
      {
        WalkAt(mem, bs, base, end, i, need);
        if HeaderAt(mem, current).magic != MAGIC {
          break;
        }
        if HeaderAt(mem, current).free == 1 && HeaderAt(mem, current).size >= need {
          Take(current, need, i);
          return current + HEADER;
        }
        current := HeaderAt(mem, current).next;
        i := i + 1;
      }
      WalkEnds(bs, base, end, i, need);
      return 0;
    }

    /** The branch of clks_kmalloc that found its block. */
    method Take(block: nat, need: nat, ghost i: nat)
      requires Valid() && ready && i < |bs| && bs[i].addr == block && Fits(bs[i], need) && need % ALIGN == 0
      modifies this`mem, this`bs, this`used, this`allocCount
      ensures Valid() && bs == AllocAt(old(bs), i, need) && bs[i].addr == block && allocCount == old(allocCount) + 1
      ensures mem == AllocMem(old(mem), block, need)
      ensures (block + HEADER) % 8 == 0 && need <= bs[i].size < need + (HEADER + ALIGN)
      ensures PayloadsKept(old(mem), mem, Live(old(bs))) && ArenaOnly(old(mem), mem, base, end)
    {
      hide HeaderAt;
      hide AllocAt;
      hide PayloadsKept;
      hide ArenaOnly;
      AllocStep(mem, bs, base, end, i, need);
      HeaderBehind(block, need);
      SplitBlock(block, need);
      mem := SetFree(mem, block, 0);
      used := used + HeaderAt(mem, block).size;
      allocCount := allocCount + 1;
      bs := AllocAt(bs, i, need);
    }

    /** A holder of the block `b` writes a byte of its payload. */
    method Store(a: nat, v: byte, ghost b: Block)
      requires Valid() && ready && b in Live(bs) && b.Payload() <= a < b.End()
      modifies this`mem
      ensures Valid() && mem == old(mem)[a := v] && Byte(mem, a) == v && RetiredKept(old(mem), bs, mem, bs)
    {
      StoreRetired(mem, bs, base, end, b, a, v);
      hide Retired;
      StoreLinked(mem, bs, base, end, b, a, v);
      mem := mem[a := v];
    }

    /**
     clks_kfree. Whatever the pointer, the call goes by the header words in front of it. A live payload is released,
     its block merged with its free neighbours, and no other payload touched; releasing it again changes nothing
     until something is allocated.
     */
    method Kfree(ptr: nat)
      requires Valid() && ptr < TWO_TO_THE_64
      modifies this`mem, this`bs, this`used, this`freeCount
      ensures var acts, block := ready && ptr != 0 && !Ignored(old(mem), ptr), HeaderOf(ptr);
        && mem == (if acts then FreeMem(old(mem), block) else old(mem))
        && used == (if acts then Less(old(used), HeaderAt(old(mem), block).size) else old(used))
        && freeCount == old(freeCount) + (if acts then 1 else 0)
        && (!acts ==> Valid())
      ensures !ready || !LivePtr(old(bs), ptr) ==> bs == old(bs)
      ensures forall i: nat :: ready && UsedBlock(old(bs), i, ptr) ==>
        && Valid() && !Ignored(old(mem), ptr) && bs == FreeAt(old(bs), i)
        && PayloadsKept(old(mem), mem, Live(bs)) && ArenaOnly(old(mem), mem, base, end)
        && RetiredKept(old(mem), old(bs), mem, bs) && Retired(mem, bs, HeaderOf(ptr))
    {
      hide HeaderAt;
      hide Tiles;
      hide Coalesced;
      hide Aligned;
      hide Linked;
      hide PayloadsKept;
      hide ArenaOnly;
      hide RetiredKept;
      hide Retired;
      hide Used;
      hide FreeAt;
      hide MergeMem;
      ghost var mem0, used0 := mem, used;
      if ready {
        LiveNotIgnored(mem, bs, base, end, ptr);
      }
      if !ready || ptr == 0 {
        return;
      }
      var block := HeaderOf(ptr);
      if HeaderAt(mem, block).magic != MAGIC {
        return;
      }
      if HeaderAt(mem, block).free == 1 {
        return;
      }
      mem := SetFree(mem, block, 1);
      used := Less(used, HeaderAt(mem, block).size);
      freeCount := freeCount + 1;
      SizeKept(mem0, block);
      MergeNext(block);
      var prev := HeaderAt(mem, block).prev;
      if prev != 0 && HeaderAt(mem, prev).free == 1 {
        MergeNext(prev);
      }
      ghost var i: nat :| (exists k: nat :: UsedBlock(bs, k, ptr)) ==> UsedBlock(bs, i, ptr);
      if UsedBlock(bs, i, ptr) {
        FreeStep(mem0, bs, base, end, i);
        bs := FreeAt(bs, i);
      }
    }
  }

  predicate UsedBlock(bs: seq<Block>, i: nat, ptr: nat) { i < |bs| && bs[i].Payload() == ptr && !bs[i].isFree }

  lemma SizeKept(mem: Memory, block: nat)
    ensures HeaderAt(SetFree(mem, block, 1), block).size == HeaderAt(mem, block).size
  {
    hide HeaderAt;
    FreeWrites(mem, block, 1);
  }

  lemma LiveNotIgnored(mem: Memory, bs: seq<Block>, base: nat, end: nat, ptr: nat)
    requires Linked(mem, bs) && Tiles(bs, base, end) && end < TWO_TO_THE_64
    ensures forall i: nat :: UsedBlock(bs, i, ptr) ==> !Ignored(mem, ptr) && HeaderOf(ptr) == bs[i].addr && ptr > 0
    ensures forall i: nat, j: nat :: UsedBlock(bs, i, ptr) && UsedBlock(bs, j, ptr) ==> i == j
  {
    hide Get;
    hide Put;
    DistinctAddrs(bs, base, end);
    forall i: nat | UsedBlock(bs, i, ptr) ensures !Ignored(mem, ptr) && HeaderOf(ptr) == bs[i].addr {
      assert LinkAt(mem, bs, i);
      HeaderOfPayload(bs[i].addr);
    }
  }

  /** A retired header makes clks_kfree turn its pointer away. */
  lemma RetiredIgnored(mem: Memory, bs: seq<Block>, ptr: nat)
    requires Retired(mem, bs, HeaderOf(ptr))
    ensures Ignored(mem, ptr)
  {
  }

  /**
   Releasing everything that is in use, in whatever order and some of it several times, restores the single block the
   arena started as.
   */
  method ReleaseAll(h: Heap, ptrs: seq<nat>)
    requires h.Valid() && h.ready
    requires forall p :: p in ptrs <==> LivePtr(h.bs, p)
    modifies h`mem, h`bs, h`used, h`freeCount
    ensures h.Valid() && h.bs == [Block(h.base, h.end - h.base - HEADER, true)] && h.used == 0
  {
    for i := 0 to |ptrs|
      invariant h.Valid() && h.ready
      invariant forall p :: LivePtr(h.bs, p) ==> p in ptrs[i..]
      invariant forall p :: p in ptrs[i..] ==> LivePtr(h.bs, p) || Released(h.mem, h.bs, p)
    {
      assert ptrs[i..] == [ptrs[i]] + ptrs[i + 1..];
      ReleaseOne(h, ptrs[i]);
    }
    forall b ensures b !in Live(h.bs) {
      assert b in Live(h.bs) ==> LivePtr(h.bs, b.Payload());
    }
    AllFreeIsInitial(h.bs, h.base, h.end);
    assert h.bs == [Block(h.base, h.end - h.base - HEADER, true)];
  }

  /** A payload address that was handed out and released, with its header still in free space. */
  ghost predicate Released(mem: Memory, bs: seq<Block>, ptr: nat) {
    ptr < TWO_TO_THE_64 && Retired(mem, bs, HeaderOf(ptr))
  }

  method ReleaseOne(h: Heap, ptr: nat)
    requires h.Valid() && h.ready && (LivePtr(h.bs, ptr) || Released(h.mem, h.bs, ptr))
    modifies h`mem, h`bs, h`used, h`freeCount
    ensures h.Valid() && forall p :: LivePtr(h.bs, p) <==> LivePtr(old(h.bs), p) && p != ptr
    ensures Released(h.mem, h.bs, ptr)
    ensures forall p :: Released(old(h.mem), old(h.bs), p) ==> Released(h.mem, h.bs, p)
  {
    LivePtrUsed(h.mem, h.bs, h.base, h.end, ptr);
    ghost var k: nat :| LivePtr(h.bs, ptr) ==> UsedBlock(h.bs, k, ptr);
    if LivePtr(h.bs, ptr) {
      FreeLivePtr(h.bs, h.base, h.end, k);
    } else {
      RetiredIgnored(h.mem, h.bs, ptr);
    }
    hide LivePtr;
    hide Retired;
    h.Kfree(ptr);
  }

  lemma LivePtrUsed(mem: Memory, bs: seq<Block>, base: nat, end: nat, ptr: nat)
    requires Linked(mem, bs) && Tiles(bs, base, end) && end < TWO_TO_THE_64
    ensures LivePtr(bs, ptr) <==> exists k: nat :: UsedBlock(bs, k, ptr)
    ensures LivePtr(bs, ptr) ==> ptr < TWO_TO_THE_64 && !Ignored(mem, ptr)
  {
    LiveNotIgnored(mem, bs, base, end, ptr);
    DistinctAddrs(bs, base, end);
    if LivePtr(bs, ptr) {
      var b :| b in Live(bs) && b.Payload() == ptr;
      var k: nat :| k < |bs| && bs[k] == b;
      assert UsedBlock(bs, k, ptr);
    }
    if k: nat :| UsedBlock(bs, k, ptr) {
      assert bs[k] in Live(bs);
    }
  }

  // ---------- a second release after an allocation ----------

  /** The block lists of the run below, in an arena at `a` with a first payload of `s` bytes. */
  lemma RunOfLists(a: nat, s: nat)
    requires s >= 256
    ensures var bs0, bs1 := [Block(a, s, true)], [Block(a, 32, false), Block(a + 72, s - 72, true)];
      var bs2 := [Block(a, 32, false), Block(a + 72, 32, false), Block(a + 144, s - 144, true)];
      && AllocAt(bs0, 0, 32) == bs1 && AllocAt(bs1, 1, 32) == bs2 && FreeAt(bs2, 1) == bs1 && FreeAt(bs1, 0) == bs0
      && AllocAt(bs0, 0, 16) == [Block(a, 16, false), Block(a + 56, s - 56, true)]
      && FirstFit(bs0, 32) == FirstFit(bs0, 16) == 0 && FirstFit(bs1, 32) == 1
  {
  }

  /** What the overlap leaves where the second block's header was. */
  lemma OverlapReads(mem3: Memory, mem5: Memory, a: nat, s: nat, end: nat)
    requires s >= 256 && 0 < a && end == a + HEADER + s && end < TWO_TO_THE_64
    requires Linked(mem3, [Block(a, 32, false), Block(a + 72, s - 72, true)])
    requires mem5 == AllocMem(FreeMem(mem3, a), a, 16)
    requires Linked(mem5, [Block(a, 16, false), Block(a + 56, s - 56, true)])
    ensures var h := HeaderAt(mem5, a + 72);
      h.free == a % TWO_TO_THE_32 && h.next == MAGIC && h.prev == a && h.magic == MAGIC
  {
    hide Get;
    hide Put;
    hide MergeMem;
    hide AllocMem;
    var bs1, bs0, bs5 := [Block(a, 32, false), Block(a + 72, s - 72, true)], [Block(a, s, true)],
                         [Block(a, 16, false), Block(a + 56, s - 56, true)];
    RunOfLists(a, s);
    assert LinkAt(mem3, bs1, 0) && LinkAt(mem3, bs1, 1) && LinkAt(mem5, bs5, 1);
    var freed, m0, mem4 := bs1[0 := bs1[0].(isFree := true)], SetFree(mem3, a, 1), FreeMem(mem3, a);
    MarkLinked(mem3, bs1, a, end, 0, true);
    FreeWrites(mem3, a, 1);
    HeaderKept(mem3, m0, a, a, a, a + 72);
    AbsorbedKept(m0, freed, a, end, 0);
    MergeLinked(m0, freed, a, end, 0);
    assert MergeAt(freed, 0) == bs0;
    assert LinkAt(MergeMem(m0, a), bs0, 0);
    assert mem4 == MergeMem(m0, a);
    AllocRefines(mem4, bs0, a, end, 0, 16);
    StillThere(mem4, mem5, bs5, a + 96);
    StillThere(mem4, mem5, bs5, a + 104);
    assert Word(mem5, a + 96) == HeaderAt(mem4, a + 72).prev && Word(mem5, a + 104) == HeaderAt(mem4, a + 72).magic;
    assert Word(mem5, a + 80) == HeaderAt(mem5, a + 56).prev && Word(mem5, a + 88) == HeaderAt(mem5, a + 56).magic;
  }

  lemma StillThere(mem: Memory, mem': Memory, bs: seq<Block>, a: int)
    requires KeptOff(mem, mem', bs) && forall k :: 0 <= k < |bs| ==> bs[k].addr + HEADER <= a
    ensures Word(mem', a) == Word(mem, a)
  {
    forall w: int | a <= w < a + 8 ensures Byte(mem', w) == Byte(mem, w) {
      assert OffHeaders(bs, w);
    }
    GetSame(mem, mem', a, 8);
  }

  /** Such a header passes the tests, and what clks_kfree then writes is the back link of a block in the list. */
  lemma OverlapBreaks(mem: Memory, a: nat, s: nat)
    requires s >= 256 && a % ALIGN == 0 && Linked(mem, [Block(a, 16, false), Block(a + 56, s - 56, true)])
    requires var h := HeaderAt(mem, a + 72);
      h.free == a % TWO_TO_THE_32 && h.next == MAGIC && h.prev == a && h.magic == MAGIC
    requires HeaderAt(mem, MAGIC).free == 0 && a + HEADER + s <= MAGIC
    ensures a % TWO_TO_THE_32 != 1
    ensures !Linked(FreeMem(mem, a + 72), [Block(a, 16, false), Block(a + 56, s - 56, true)])
  {
    hide Get;
    hide Put;
    var bs := [Block(a, 16, false), Block(a + 56, s - 56, true)];
    assert LinkAt(mem, bs, 0);
    FreeWrites(mem, a + 72, 1);
    var m1 := SetFree(mem, a + 72, 1);
    hide SetFree;
    HeaderKept(mem, m1, a + 72, a + 72, a + 72, a);
    HeaderKept(mem, m1, a + 72, a + 72, a + 72, MAGIC);
    assert FreeMem(mem, a + 72) == m1;
    assert HeaderAt(m1, a + 56).prev % TWO_TO_THE_32 == HeaderAt(m1, a + 72).free == 1;
    assert !LinkAt(m1, bs, 1);
  }

  method TwoBlocks(h: Heap) returns (a: nat, b: nat)
    requires h.Valid() && h.ready && h.bs == [Block(h.base, h.end - h.base - HEADER, true)]
    requires h.end - h.base >= 512 && h.end <= MAGIC && HeaderAt(h.mem, MAGIC).free == 0
    modifies h
    ensures h.Valid() && h.ready && a == h.base + HEADER && b == h.base + 112 && h.freeCount == old(h.freeCount) + 1
    ensures h.bs == [Block(h.base, 32, false), Block(h.base + 72, h.end - h.base - HEADER - 72, true)]
    ensures HeaderAt(h.mem, MAGIC).free == 0
  {
    hide HeaderAt;
    hide Linked;
    hide Tiles;
    hide Coalesced;
    hide Aligned;
    hide Used;
    hide AllocAt;
    hide FreeAt;
    hide FirstFit;
    hide AllocMem;
    hide FreeMem;
    hide PayloadsKept;
    hide ArenaOnly;
    hide RetiredKept;
    hide Retired;
    ghost var m0 := h.mem;
    assert Rounded(32);
    RunOfLists(h.base, h.end - h.base - HEADER);
    a := h.Kmalloc(32);
    OutsideKept(m0, h.mem, h.base, h.end);
    ghost var m1 := h.mem;
    b := h.Kmalloc(32);
    OutsideKept(m1, h.mem, h.base, h.end);
    ghost var m2 := h.mem;
    assert UsedBlock(h.bs, 1, b);
    h.Kfree(b);
    OutsideKept(m2, h.mem, h.base, h.end);
  }

  /** Two blocks are allocated and released, and a smaller one is allocated from the space they leave. */
  method OverlapHeaders(h: Heap) returns (b: nat)
    requires h.Valid() && h.ready && h.bs == [Block(h.base, h.end - h.base - HEADER, true)]
    requires h.end - h.base >= 512 && h.end <= MAGIC && HeaderAt(h.mem, MAGIC).free == 0
    modifies h
    ensures h.Valid() && h.ready && b == h.base + 112 && h.freeCount == old(h.freeCount) + 2
    ensures h.bs == [Block(h.base, 16, false), Block(h.base + 56, h.end - h.base - HEADER - 56, true)]
    ensures HeaderAt(h.mem, MAGIC).free == 0
    ensures var stale := HeaderAt(h.mem, h.base + 72);
      stale.free == h.base % TWO_TO_THE_32 && stale.next == MAGIC && stale.prev == h.base && stale.magic == MAGIC
  {
    hide HeaderAt;
    hide Linked;
    hide Tiles;
    hide Coalesced;
    hide Aligned;
    hide Used;
    hide AllocAt;
    hide FreeAt;
    hide FirstFit;
    hide AllocMem;
    hide FreeMem;
    hide PayloadsKept;
    hide ArenaOnly;
    hide RetiredKept;
    hide Retired;
    var a;
    a, b := TwoBlocks(h);
    RunOfLists(h.base, h.end - h.base - HEADER);
    ghost var m3 := h.mem;
    HeaderOfPayload(h.base);
    assert UsedBlock(h.bs, 0, a);
    h.Kfree(a);
    OutsideKept(m3, h.mem, h.base, h.end);
    ghost var m4 := h.mem;
    assert Rounded(16);
    var c := h.Kmalloc(16);
    OutsideKept(m4, h.mem, h.base, h.end);
    OverlapReads(m3, h.mem, h.base, h.end - h.base - HEADER, h.end);
  }

  predicate Rounded(size: nat) { AlignUp(size) == size }

  lemma OutsideKept(mem: Memory, mem': Memory, base: nat, end: nat)
    requires ArenaOnly(mem, mem', base, end) && end <= MAGIC
    ensures HeaderAt(mem', MAGIC) == HeaderAt(mem, MAGIC)
  {
    HeaderSame(mem, mem', MAGIC);
  }

  /**
   After that run the new free block's header overlaps the second block's stale one, which passes the tests of
   clks_kfree: releasing the second block a second time writes into the list of headers and breaks it.
   */
  method SecondReleaseBreaksTheList(h: Heap) returns (b: nat)
    requires h.Valid() && h.ready && h.bs == [Block(h.base, h.end - h.base - HEADER, true)]
    requires h.end - h.base >= 512 && h.end <= MAGIC && HeaderAt(h.mem, MAGIC).free == 0
    modifies h
    ensures h.bs == [Block(h.base, 16, false), Block(h.base + 56, h.end - h.base - HEADER - 56, true)]
    ensures !LivePtr(h.bs, b) && h.freeCount == old(h.freeCount) + 3 && !Linked(h.mem, h.bs)
  {
    hide Get;
    hide Put;
    b := OverlapHeaders(h);
    ghost var mem0 := h.mem;
    HeaderOfPayload(h.base + 72);
    OverlapBreaks(mem0, h.base, h.end - h.base - HEADER);
    hide HeaderAt;
    hide Linked;
    hide FreeMem;
    hide Tiles;
    h.Kfree(b);
  }
}