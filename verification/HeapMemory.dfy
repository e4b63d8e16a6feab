/** The bytes of the heap's arena, and the block headers that lie in them. */
module HeapMemory {
  import opened ByteStrings
  import opened Division

  const HEADER := 40
  const ALIGN := 16
  const MAGIC := 0x434C454F4E4F534F
  const TWO_TO_THE_32 := 0x1_0000_0000
  const TWO_TO_THE_64 := 0x1_0000_0000_0000_0000

  /** The bytes of memory by address; a byte never written is zero. */
  type Memory = map<int, byte>

  function Byte(mem: Memory, a: int): byte { if a in mem then mem[a] else 0 }

  /** The number in `n` bytes from `a` on, the lowest byte first. */
  function Get(mem: Memory, a: int, n: nat): nat
    decreases n
  {
    if n == 0 then 0 else Byte(mem, a) + 256 * Get(mem, a + 1, n - 1)
  }

  function Put(mem: Memory, a: int, v: nat, n: nat): Memory
    decreases n
  {
    if n == 0 then mem else Put(mem, a + 1, v / 256, n - 1)[a := v % 256]
  }

  /** How many numbers `n` bytes can hold. */
  function Span(n: nat): nat { if n == 0 then 1 else 256 * Span(n - 1) }

  function Word(mem: Memory, a: int): nat { Get(mem, a, 8) }

  function PutWord(mem: Memory, a: int, v: nat): Memory { Put(mem, a, v, 8) }

  /** A word as struct members hold it. */
  predicate IsWord(v: nat) { v < TWO_TO_THE_64 }

  lemma {:induction false} GetSame(mem: Memory, mem': Memory, a: int, n: nat)
    requires forall w: int :: a <= w < a + n ==> Byte(mem', w) == Byte(mem, w)
    ensures Get(mem', a, n) == Get(mem, a, n)
    decreases n
  {
    if n > 0 {
      GetSame(mem, mem', a + 1, n - 1);
    }
  }

  lemma {:induction false} GetBounded(mem: Memory, a: int, n: nat)
    ensures Get(mem, a, n) < Span(n)
    decreases n
  {
    if n > 0 {
      GetBounded(mem, a + 1, n - 1);
    }
  }

  /** What was put is read back, and every other byte is as it was. */
  lemma {:induction false} PutGet(mem: Memory, a: int, v: nat, n: nat)
    requires v < Span(n)
    ensures Get(Put(mem, a, v, n), a, n) == v
    ensures forall w: int :: w < a || a + n <= w ==> Byte(Put(mem, a, v, n), w) == Byte(mem, w)
    decreases n
  {
    if n > 0 {
      var rest := Put(mem, a + 1, v / 256, n - 1);
      PutGet(mem, a + 1, v / 256, n - 1);
      GetSame(rest, rest[a := v % 256], a + 1, n - 1);
    }
  }

  /** The bytes of memory are the base-256 digits of the number in them, the lowest one first. */
  lemma {:induction false} GetDigits(mem: Memory, a: int, n: nat, i: nat)
    requires i < n
    ensures Span(i) > 0 && Get(mem, a, n) / Span(i) % 256 == Byte(mem, a + i)
    decreases n
  {
    if i > 0 {
      GetDigits(mem, a + 1, n - 1, i - 1);
      DropDigit(Byte(mem, a), Get(mem, a + 1, n - 1), Span(i - 1));
      hide Get;
      hide Byte;
    }
  }

  lemma DropDigit(low: byte, high: nat, unit: nat)
    requires unit > 0
    ensures (low + 256 * high) / (256 * unit) == high / unit
  {
    var q, r := high / unit, high % unit;
    assert low + 256 * high == q * (256 * unit) + (256 * r + low) by {
      assert high == q * unit + r && q * (256 * unit) == 256 * (q * unit);
    }
    Quotient(low + 256 * high, 256 * unit, q, 256 * r + low);
  }

  lemma WordSpan()
    ensures Span(8) == TWO_TO_THE_64
  {
    assert Span(0) == 1 && Span(1) == 256 && Span(2) == 65536 && Span(3) == 16777216 && Span(4) == TWO_TO_THE_32;
  }

  /** One word was written, and nothing else. */
  ghost predicate WordPut(mem: Memory, mem': Memory, a: int, v: nat) {
    Word(mem', a) == v && forall w: int :: w < a || a + 8 <= w ==> Byte(mem', w) == Byte(mem, w)
  }

  lemma WordWrites(mem: Memory, a: int, v: nat)
    requires IsWord(v)
    ensures WordPut(mem, PutWord(mem, a, v), a, v)
  {
    WordSpan();
    PutGet(mem, a, v, 8);
  }

  lemma WordFits(mem: Memory, a: int)
    ensures IsWord(Word(mem, a))
  {
    WordSpan();
    GetBounded(mem, a, 8);
  }

  /** A word away from the one that was written is as it was. */
  lemma WordAway(mem: Memory, mem': Memory, a: int, v: nat, b: int)
    requires WordPut(mem, mem', a, v) && (b + 8 <= a || a + 8 <= b)
    ensures Word(mem', b) == Word(mem, b)
  {
    GetSame(mem, mem', b, 8);
  }

  /** struct clks_heap_block as five words; the flag is the lower half of the second one, and a null link is 0. */
  datatype Header = Header(size: nat, free: nat, next: nat, prev: nat, magic: nat) {
    predicate Fits() { IsWord(size) && free < TWO_TO_THE_32 && IsWord(next) && IsWord(prev) && IsWord(magic) }
  }

  function HeaderAt(mem: Memory, a: int): Header {
    Header(Word(mem, a), Word(mem, a + 8) % TWO_TO_THE_32, Word(mem, a + 16), Word(mem, a + 24), Word(mem, a + 32))
  }

  lemma HeaderFits(mem: Memory, a: int)
    ensures HeaderAt(mem, a).Fits()
  {
    WordFits(mem, a);
    WordFits(mem, a + 16);
    WordFits(mem, a + 24);
    WordFits(mem, a + 32);
  }

  function SetSize(mem: Memory, a: int, v: nat): Memory { PutWord(mem, a, v) }

  function SetFree(mem: Memory, a: int, v: nat): Memory { Put(mem, a + 8, v, 4) }

  function SetNext(mem: Memory, a: int, v: nat): Memory { PutWord(mem, a + 16, v) }

  function SetPrev(mem: Memory, a: int, v: nat): Memory { PutWord(mem, a + 24, v) }

  function SetMagic(mem: Memory, a: int, v: nat): Memory { PutWord(mem, a + 32, v) }

  function Full(a: int, h: Header, mem: Memory): Memory {
    SetMagic(SetPrev(SetNext(SetFree(SetSize(mem, a, h.size), a, h.free), a, h.next), a, h.prev), a, h.magic)
  }

  /** The byte at `w` is no byte of the header at `a`. */
  predicate Off(w: int, a: int) { w < a || a + HEADER <= w }

  /** The two headers have no byte in common. */
  predicate Apart(a: int, b: int) { a + HEADER <= b || b + HEADER <= a }

  /** Nothing but bytes of the headers at `a`, `b` and `c` was written. */
  ghost predicate Kept(mem: Memory, mem': Memory, a: int, b: int, c: int) {
    forall w: int :: Off(w, a) && Off(w, b) && Off(w, c) ==> Byte(mem', w) == Byte(mem, w)
  }

  /** Only the header at `a` was written, and it now reads `h`. */
  ghost predicate Wrote(mem: Memory, mem': Memory, a: int, h: Header) {
    HeaderAt(mem', a) == h && Kept(mem, mem', a, a, a)
  }

  /** A header reads as it did if none of its bytes was written. */
  lemma HeaderSame(mem: Memory, mem': Memory, a: int)
    requires forall w: int :: a <= w < a + HEADER ==> Byte(mem', w) == Byte(mem, w)
    ensures HeaderAt(mem', a) == HeaderAt(mem, a)
  {
    GetSame(mem, mem', a, 8);
    GetSame(mem, mem', a + 8, 8);
    GetSame(mem, mem', a + 16, 8);
    GetSame(mem, mem', a + 24, 8);
    GetSame(mem, mem', a + 32, 8);
  }

  lemma HeaderKept(mem: Memory, mem': Memory, a: int, b: int, c: int, d: int)
    requires Kept(mem, mem', a, b, c) && Apart(a, d) && Apart(b, d) && Apart(c, d)
    ensures HeaderAt(mem', d) == HeaderAt(mem, d)
  {
    HeaderSame(mem, mem', d);
  }

  /** The word at `a` lies in a header, and only that word was written. */
  lemma InHeader(mem: Memory, mem': Memory, a: int, v: nat, block: int)
    requires WordPut(mem, mem', a, v) && block <= a && a + 8 <= block + HEADER
    ensures Kept(mem, mem', block, block, block)
    ensures forall b: int :: b + 8 <= a || a + 8 <= b ==> Word(mem', b) == Word(mem, b)
  {
    forall b: int | b + 8 <= a || a + 8 <= b ensures Word(mem', b) == Word(mem, b) {
      WordAway(mem, mem', a, v, b);
    }
  }

  lemma SizeWrites(mem: Memory, a: int, v: nat)
    requires IsWord(v)
    ensures Wrote(mem, SetSize(mem, a, v), a, HeaderAt(mem, a).(size := v))
  {
    WordWrites(mem, a, v);
    hide PutWord;
    hide Word;
    InHeader(mem, SetSize(mem, a, v), a, v, a);
  }

  /** The flag takes four bytes; the four behind it stay. */
  lemma FreeWrites(mem: Memory, a: int, v: nat)
    requires v < TWO_TO_THE_32
    ensures Wrote(mem, SetFree(mem, a, v), a, HeaderAt(mem, a).(free := v))
  {
    var mem' := SetFree(mem, a, v);
    HalfSpan();
    PutGet(mem, a + 8, v, 4);
    LowHalf(mem', a + 8);
    hide Put;
    GetSame(mem, mem', a, 8);
    GetSame(mem, mem', a + 16, 8);
    GetSame(mem, mem', a + 24, 8);
    GetSame(mem, mem', a + 32, 8);
  }

  lemma HalfSpan()
    ensures Span(4) == TWO_TO_THE_32
  {
    assert Span(0) == 1 && Span(1) == 256 && Span(2) == 65536 && Span(3) == 16777216;
  }

  /** The lower half of a word is its first four bytes. */
  lemma LowHalf(mem: Memory, a: int)
    ensures Word(mem, a) % TWO_TO_THE_32 == Get(mem, a, 4)
  {
    HalfSpan();
    GetBounded(mem, a, 4);
    Halves(mem, a);
    hide Get;
    Remainder(Get(mem, a, 4), Get(mem, a + 4, 4));
  }

  lemma Remainder(low: nat, high: nat)
    requires low < TWO_TO_THE_32
    ensures (low + TWO_TO_THE_32 * high) % TWO_TO_THE_32 == low
  {
  }

  lemma Halves(mem: Memory, a: int)
    ensures Word(mem, a) == Get(mem, a, 4) + TWO_TO_THE_32 * Get(mem, a + 4, 4)
  {
    var high := Get(mem, a + 4, 4);
    assert Get(mem, a + 3, 5) == Byte(mem, a + 3) + 256 * high;
    assert Get(mem, a + 3, 1) == Byte(mem, a + 3) + 256 * Get(mem, a + 4, 0);
    assert Get(mem, a + 2, 6) == Byte(mem, a + 2) + 256 * Get(mem, a + 3, 5);
    assert Get(mem, a + 2, 2) == Byte(mem, a + 2) + 256 * Get(mem, a + 3, 1);
    assert Get(mem, a + 1, 7) == Byte(mem, a + 1) + 256 * Get(mem, a + 2, 6);
    assert Get(mem, a + 1, 3) == Byte(mem, a + 1) + 256 * Get(mem, a + 2, 2);
  }

  lemma NextWrites(mem: Memory, a: int, v: nat)
    requires IsWord(v)
    ensures Wrote(mem, SetNext(mem, a, v), a, HeaderAt(mem, a).(next := v))
  {
    WordWrites(mem, a + 16, v);
    hide PutWord;
    hide Word;
    InHeader(mem, SetNext(mem, a, v), a + 16, v, a);
  }

  lemma PrevWrites(mem: Memory, a: int, v: nat)
    requires IsWord(v)
    ensures Wrote(mem, SetPrev(mem, a, v), a, HeaderAt(mem, a).(prev := v))
  {
    WordWrites(mem, a + 24, v);
    hide PutWord;
    hide Word;
    InHeader(mem, SetPrev(mem, a, v), a + 24, v, a);
  }

  lemma MagicWrites(mem: Memory, a: int, v: nat)
    requires IsWord(v)
    ensures Wrote(mem, SetMagic(mem, a, v), a, HeaderAt(mem, a).(magic := v))
  {
    WordWrites(mem, a + 32, v);
    hide PutWord;
    hide Word;
    InHeader(mem, SetMagic(mem, a, v), a + 32, v, a);
  }

  lemma KeptTwice(mem: Memory, mem1: Memory, mem2: Memory, a: int, b: int, c: int, d: int)
    requires Kept(mem, mem1, a, b, c) && Kept(mem1, mem2, d, d, d) && d in {a, b, c}
    ensures Kept(mem, mem2, a, b, c)
  {
  }

  lemma FullWrites(mem: Memory, a: int, h: Header)
    requires h.Fits()
    ensures Wrote(mem, Full(a, h, mem), a, h)
  {
    hide Kept;
    hide HeaderAt;
    var m1 := SetSize(mem, a, h.size);
    var m2 := SetFree(m1, a, h.free);
    var m3 := SetNext(m2, a, h.next);
    var m4 := SetPrev(m3, a, h.prev);
    var m5 := SetMagic(m4, a, h.magic);
    SizeWrites(mem, a, h.size);
    FreeWrites(m1, a, h.free);
    NextWrites(m2, a, h.next);
    PrevWrites(m3, a, h.prev);
    MagicWrites(m4, a, h.magic);
    hide SetSize;
    hide SetFree;
    hide SetNext;
    hide SetPrev;
    hide SetMagic;
    KeptTwice(mem, m1, m2, a, a, a, a);
    KeptTwice(mem, m2, m3, a, a, a, a);
    KeptTwice(mem, m3, m4, a, a, a, a);
    KeptTwice(mem, m4, m5, a, a, a, a);
  }

  // ---------- what the heap's operations write ----------

  /** Memory with zeros from `base` to `end`. */
  function Cleared(mem: Memory, base: nat, end: nat): Memory { map a | a in mem && (a < base || end <= a) :: mem[a] }

  /** clks_heap_init */
  function InitMem(mem: Memory, base: nat, end: nat): Memory
    requires base + HEADER <= end
  {
    Full(base, Header(end - base - HEADER, 1, 0, 0, MAGIC), Cleared(mem, base, end))
  }

  /** clks_heap_split_block */
  function SplitMem(mem: Memory, block: nat, need: nat): Memory {
    var h := HeaderAt(mem, block);
    if h.size < need + (HEADER + ALIGN) then mem
    else
      var tail := block + HEADER + need;
      var m1 := Full(tail, Header(h.size - need - HEADER, 1, h.next, block, MAGIC), mem);
      var m2 := if h.next != 0 then SetPrev(m1, h.next, tail) else m1;
      SetSize(SetNext(m2, block, tail), block, need)
  }

  /** clks_heap_merge_next */
  function MergeMem(mem: Memory, block: nat): Memory {
    var next := HeaderAt(mem, block).next;
    if next == 0 || HeaderAt(mem, next).free == 0 || HeaderAt(mem, next).magic != MAGIC then mem
    else
      var m1 := SetSize(mem, block, (HeaderAt(mem, block).size + HEADER + HeaderAt(mem, next).size) % TWO_TO_THE_64);
      var m2 := SetNext(m1, block, HeaderAt(m1, next).next);
      if HeaderAt(m2, next).next != 0 then SetPrev(m2, HeaderAt(m2, next).next, block) else m2
  }

  /** What clks_kmalloc writes once it has found its block. */
  function AllocMem(mem: Memory, block: nat, need: nat): Memory { SetFree(SplitMem(mem, block, need), block, 0) }

  /** What clks_kfree writes once the header has passed its tests. */
  function FreeMem(mem: Memory, block: nat): Memory {
    var m1 := MergeMem(SetFree(mem, block, 1), block);
    var prev := HeaderAt(m1, block).prev;
    if prev != 0 && HeaderAt(m1, prev).free == 1 then MergeMem(m1, prev) else m1
  }

  /** The header of the block whose payload starts at `ptr`, in 64-bit arithmetic. */
  function HeaderOf(ptr: nat): nat { (ptr + (TWO_TO_THE_64 - HEADER)) % TWO_TO_THE_64 }

  /** The tests of clks_kfree turn the pointer away: its header has no magic, or is marked free. */
  predicate Ignored(mem: Memory, ptr: nat) {
    HeaderAt(mem, HeaderOf(ptr)).magic != MAGIC || HeaderAt(mem, HeaderOf(ptr)).free == 1
  }

  lemma HeaderOfPayload(addr: nat)
    requires addr + HEADER < TWO_TO_THE_64
    ensures HeaderOf(addr + HEADER) == addr
  {
    assert addr + HEADER + (TWO_TO_THE_64 - HEADER) == addr + TWO_TO_THE_64;
  }

  // ---------- their writes, one by one ----------

  lemma InitWrites(mem: Memory, base: nat, end: nat)
    requires base + HEADER <= end && IsWord(end)
    ensures HeaderAt(InitMem(mem, base, end), base) == Header(end - base - HEADER, 1, 0, 0, MAGIC)
    ensures forall w: int :: Off(w, base) ==>
              Byte(InitMem(mem, base, end), w) == if base <= w < end then 0 else Byte(mem, w)
  {
    FullWrites(Cleared(mem, base, end), base, Header(end - base - HEADER, 1, 0, 0, MAGIC));
    hide Full;
    hide HeaderAt;
  }

  /** What a split writes: the new tail block, its successor's back link, and the shortened block. */
  ghost predicate SplitWrites(mem: Memory, mem': Memory, block: nat, need: nat) {
    var h, tail := HeaderAt(mem, block), block + HEADER + need;
    && need + HEADER <= h.size
    && HeaderAt(mem', tail) == Header(h.size - need - HEADER, 1, h.next, block, MAGIC)
    && HeaderAt(mem', block) == h.(next := tail, size := need)
    && (h.next != 0 ==> HeaderAt(mem', h.next) == HeaderAt(mem, h.next).(prev := tail))
    && Kept(mem, mem', block, tail, if h.next != 0 then h.next else block)
  }

  lemma SplitWritesThese(mem: Memory, block: nat, need: nat)
    requires IsWord(block + HEADER + need)
    requires var h := HeaderAt(mem, block);
      && h.size >= need + (HEADER + ALIGN)
      && (h.next != 0 ==> Apart(h.next, block) && Apart(h.next, block + HEADER + need))
    ensures SplitWrites(mem, SplitMem(mem, block, need), block, need)
  {
    hide SetSize;
    hide SetFree;
    hide SetNext;
    hide SetPrev;
    hide SetMagic;
    hide Full;
    hide Kept;
    hide HeaderAt;
    HeaderFits(mem, block);
    var h, tail := HeaderAt(mem, block), block + HEADER + need;
    var next := if h.next != 0 then h.next else block;
    var th := Header(h.size - need - HEADER, 1, h.next, block, MAGIC);
    var m1 := Full(tail, th, mem);
    FullWrites(mem, tail, th);
    HeaderKept(mem, m1, tail, tail, tail, block);
    Wider(mem, m1, block, tail, next);
    var m2 := if h.next != 0 then SetPrev(m1, h.next, tail) else m1;
    if h.next != 0 {
      HeaderKept(mem, m1, tail, tail, tail, next);
      PrevWrites(m1, next, tail);
      HeaderKept(m1, m2, next, next, next, block);
      HeaderKept(m1, m2, next, next, next, tail);
      KeptTwice(mem, m1, m2, block, tail, next, next);
    }
    var m3 := SetNext(m2, block, tail);
    NextWrites(m2, block, tail);
    var m4 := SetSize(m3, block, need);
    SizeWrites(m3, block, need);
    KeptTwice(mem, m2, m3, block, tail, next, block);
    KeptTwice(mem, m3, m4, block, tail, next, block);
    KeptTwice(m2, m3, m4, block, block, block, block);
    HeaderKept(m2, m4, block, block, block, tail);
    if h.next != 0 {
      HeaderKept(m2, m4, block, block, block, next);
    }
  }

  lemma Wider(mem: Memory, mem': Memory, a: int, b: int, c: int)
    requires Kept(mem, mem', b, b, b)
    ensures Kept(mem, mem', a, b, c) && Kept(mem, mem', b, a, c)
  {
  }

  /** What a merge writes: the grown block and the back link of the block after the absorbed one. */
  ghost predicate MergeWrites(mem: Memory, mem': Memory, block: nat) {
    var h := HeaderAt(mem, block);
    var n := HeaderAt(mem, h.next);
    && HeaderAt(mem', block) == h.(size := h.size + HEADER + n.size, next := n.next)
    && (n.next != 0 ==> HeaderAt(mem', n.next) == HeaderAt(mem, n.next).(prev := block))
    && Kept(mem, mem', block, block, if n.next != 0 then n.next else block)
  }

  lemma MergeWritesThese(mem: Memory, block: nat)
    requires IsWord(block)
    requires var h := HeaderAt(mem, block);
      && h.next != 0 && HeaderAt(mem, h.next).free == 1 && HeaderAt(mem, h.next).magic == MAGIC
      && h.size + HEADER + HeaderAt(mem, h.next).size < TWO_TO_THE_64 && Apart(h.next, block)
      && (HeaderAt(mem, h.next).next != 0 ==> Apart(HeaderAt(mem, h.next).next, block))
    ensures MergeWrites(mem, MergeMem(mem, block), block)
  {
    hide SetSize;
    hide SetNext;
    hide SetPrev;
    hide Kept;
    hide HeaderAt;
    HeaderFits(mem, HeaderAt(mem, block).next);
    var h := HeaderAt(mem, block);
    var n := HeaderAt(mem, h.next);
    var size := h.size + HEADER + n.size;
    var m1 := SetSize(mem, block, size);
    SizeWrites(mem, block, size);
    HeaderKept(mem, m1, block, block, block, h.next);
    var m2 := SetNext(m1, block, n.next);
    NextWrites(m1, block, n.next);
    HeaderKept(m1, m2, block, block, block, h.next);
    KeptTwice(mem, m1, m2, block, block, block, block);
    if n.next != 0 {
      HeaderKept(mem, m2, block, block, block, n.next);
      var m3 := SetPrev(m2, n.next, block);
      PrevWrites(m2, n.next, block);
      HeaderKept(m2, m3, n.next, n.next, n.next, block);
      Wider(mem, m2, block, block, n.next);
      KeptTwice(mem, m2, m3, block, block, n.next, n.next);
    }
  }
}
