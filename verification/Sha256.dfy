/**
 Streaming SHA-256 of user.c, for any compression function: however the message is cut, the digest is the padded fold.
 */
module Sha256 {
  import opened ByteStrings

  type u32 = n: int | 0 <= n < 0x1_0000_0000

  const TWO_TO_THE_64 := 0x1_0000_0000_0000_0000

  type State = seq<u32>

  const INITIAL: State := [
    0x6A09E667, 0xBB67AE85, 0x3C6EF372, 0xA54FF53A, 0x510E527F, 0x9B05688C, 0x1F83D9AB, 0x5BE0CD19
  ]

  // ---------- the one-shot definition: FIPS 180-4, sections 5.1.1 and 6.2 ----------

  function Zeros(n: nat): (z: seq<byte>)
    ensures |z| == n && forall k :: 0 <= k < n ==> z[k] == 0
  {
    if n == 0 then [] else Zeros(n - 1) + [0]
  }

  function Digit(n: nat, unit: nat): byte
    requires unit > 0
  {
    n / unit % 256
  }

  /** The 64-bit big-endian number. */
  function Be64(n: nat): (s: seq<byte>)
    ensures |s| == 8
  {
    [Digit(n, 0x100_0000_0000_0000), Digit(n, 0x1_0000_0000_0000), Digit(n, 0x100_0000_0000), Digit(n, 0x1_0000_0000),
     Digit(n, 0x100_0000), Digit(n, 0x1_0000), Digit(n, 0x100), Digit(n, 1)]
  }

  function Be32(n: u32): (s: seq<byte>)
    ensures |s| == 4
  {
    [Digit(n, 0x100_0000), Digit(n, 0x1_0000), Digit(n, 0x100), Digit(n, 1)]
  }

  /** How many zero bytes stand between the 0x80 and the length: the fewest that fill up a block. */
  function ZeroCount(length: nat): (k: nat)
    ensures k < 64 && (length + 1 + k + 8) % 64 == 0
  {
    if length % 64 < 56 then 55 - length % 64 else 119 - length % 64
  }

  function Padded(message: seq<byte>): (p: seq<byte>)
    ensures |p| % 64 == 0
  {
    message + [0x80] + Zeros(ZeroCount(|message|)) + Be64(8 * |message| % TWO_TO_THE_64)
  }

  /** The compression function run over the blocks. */
  function Fold(compress: (State, seq<byte>) -> State, state: State, blocks: seq<byte>): State
    decreases |blocks|
  {
    if |blocks| < 64 then state
    else compress(Fold(compress, state, blocks[..|blocks| - 64]), blocks[|blocks| - 64..])
  }

  function Words(state: State): seq<byte> {
    if state == [] then [] else Words(state[..|state| - 1]) + Be32(state[|state| - 1])
  }

  /** The digest by definition. */
  function Digest(compress: (State, seq<byte>) -> State, message: seq<byte>): seq<byte> {
    Words(Fold(compress, INITIAL, Padded(message)))
  }

  /** The padding is the shortest there is, and below 2^61 bytes the length field is the exact bit count. */
  lemma PaddingIsShortest(message: seq<byte>, k: nat)
    requires (|message| + 1 + k + 8) % 64 == 0
    ensures ZeroCount(|message|) <= k
    ensures |message| < 0x2000_0000_0000_0000 ==> 8 * |message| % TWO_TO_THE_64 == 8 * |message|
  {
  }

  /** The number that bytes are read as, the first one being the highest. */
  function Value(s: seq<byte>): nat { if s == [] then 0 else 256 * Value(s[..|s| - 1]) + s[|s| - 1] }

  /** One more byte: what is read so far is the number without its digits below `unit`. */
  lemma ReadsOneMore(n: nat, s: seq<byte>, i: nat, unit: nat)
    requires i < |s| && unit > 0 && s[i] == Digit(n, unit) && Value(s[..i]) == n / unit / 256
    ensures Value(s[..i + 1]) == n / unit
  {
    assert s[..i + 1][..i] == s[..i];
  }

  lemma Reads32(n: u32)
    ensures Value(Be32(n)) == n
  {
    var s := Be32(n);
    hide Value;
    assert Value(s[..0]) == 0 by {
      NothingRead();
    }
    ReadsOneMore(n, s, 0, 0x100_0000);
    ReadsOneMore(n, s, 1, 0x1_0000);
    ReadsOneMore(n, s, 2, 0x100);
    ReadsOneMore(n, s, 3, 1);
    assert s[..4] == s;
  }

  lemma NothingRead()
    ensures Value([]) == 0
  {
  }

  /** The eight bytes of the length field, read as one number, are the length. */
  lemma Reads64(n: nat)
    requires n < TWO_TO_THE_64
    ensures Value(Be64(n)) == n
  {
    var s := Be64(n);
    hide Value;
    assert Value(s[..0]) == 0 by {
      NothingRead();
    }
    ReadsOneMore(n, s, 0, 0x100_0000_0000_0000);
    ReadsOneMore(n, s, 1, 0x1_0000_0000_0000);
    ReadsOneMore(n, s, 2, 0x100_0000_0000);
    ReadsOneMore(n, s, 3, 0x1_0000_0000);
    ReadsOneMore(n, s, 4, 0x100_0000);
    ReadsOneMore(n, s, 5, 0x1_0000);
    ReadsOneMore(n, s, 6, 0x100);
    ReadsOneMore(n, s, 7, 1);
    assert s[..8] == s;
  }

  /**
   A padded message is the message, a one bit, zero bits, and at the end the number of the message's bits; so no two
   messages below 2^61 bytes are padded to the same blocks.
   */
  lemma PaddedIs(message: seq<byte>)
    requires |message| < 0x2000_0000_0000_0000
    ensures var p := Padded(message); var n := |p| - 8;
      && |message| < n && p[..|message|] == message && p[|message|] == 0x80
      && (forall k :: |message| < k < n ==> p[k] == 0) && Value(p[n..]) == 8 * |message|
  {
    PaddedEnd(message);
    Reads64(8 * |message|);
    PaddingIsShortest(message, ZeroCount(|message|));
    hide *;
  }

  lemma PaddedEnd(message: seq<byte>)
    ensures var p := Padded(message); var n := |p| - 8;
      && |message| < n && p[..|message|] == message && p[|message|] == 0x80
      && (forall k :: |message| < k < n ==> p[k] == 0) && p[n..] == Be64(8 * |message| % TWO_TO_THE_64)
  {
    hide Be64;
    hide ZeroCount;
  }

  lemma PaddedOnce(a: seq<byte>, b: seq<byte>)
    requires |a| < 0x2000_0000_0000_0000 && |b| < 0x2000_0000_0000_0000 && Padded(a) == Padded(b)
    ensures a == b
  {
    PaddedIs(a);
    PaddedIs(b);
    hide Padded;
    hide Value;
  }

  /** Each word of the digest can be read back from its four bytes. */
  lemma {:induction false} WordsReadBack(state: State, i: nat)
    requires i < |state|
    ensures |Words(state)| == 4 * |state| && Value(Words(state)[4 * i..4 * i + 4]) == state[i]
  {
    var n := |state| - 1;
    var front, last := Words(state[..n]), Be32(state[n]);
    WordsLength(state[..n]);
    WordsLength(state);
    if i < n {
      WordsReadBack(state[..n], i);
      assert (front + last)[4 * i..4 * i + 4] == front[4 * i..4 * i + 4];
    } else {
      Reads32(state[n]);
      assert (front + last)[4 * i..4 * i + 4] == last;
    }
  }

  lemma {:induction false} WordsLength(state: State)
    ensures |Words(state)| == 4 * |state|
  {
    if state != [] {
      WordsLength(state[..|state| - 1]);
    }
  }

  /** `h` is the first 32 bits behind the point of the square root of `p`, whose whole part is `w`. */
  predicate RootBits(h: u32, p: nat, w: nat) {
    var r := 0x1_0000_0000 * w + h;
    r * r <= p * TWO_TO_THE_64 < (r + 1) * (r + 1)
  }

  /** The initial words come from the square roots of the first eight primes: FIPS 180-4, section 5.3.3. */
  lemma InitialRoots()
    ensures |INITIAL| == 8 && RootBits(INITIAL[0], 2, 1) && RootBits(INITIAL[1], 3, 1) && RootBits(INITIAL[2], 5, 2)
    ensures RootBits(INITIAL[3], 7, 2) && RootBits(INITIAL[4], 11, 3) && RootBits(INITIAL[5], 13, 3)
    ensures RootBits(INITIAL[6], 17, 4) && RootBits(INITIAL[7], 19, 4)
  {
  }

  lemma FoldOneMore(compress: (State, seq<byte>) -> State, state: State, blocks: seq<byte>, block: seq<byte>)
    requires |block| == 64
    ensures Fold(compress, state, blocks + block) == compress(Fold(compress, state, blocks), block)
  {
    assert (blocks + block)[..|blocks + block| - 64] == blocks;
  }

  // ---------- the streaming form ----------

  class Hasher {
    const compress: (State, seq<byte>) -> State
    var state: State
    const data: array<byte>
    var datalen: nat
    var bitlen: nat
    ghost var message: seq<byte>
    ghost var whole: nat

    /** All whole blocks are folded in, and the buffer holds the rest. */
    ghost predicate Valid()
      reads this, data
    {
      && data.Length == 64 && datalen < 64 && |message| == whole + datalen && whole % 64 == 0
      && state == Fold(compress, INITIAL, message[..whole]) && data[..datalen] == message[whole..]
      && bitlen == 8 * whole % TWO_TO_THE_64
    }

    /** clks_user_sha256_init */
    constructor (compress: (State, seq<byte>) -> State)
      ensures Valid() && message == [] && this.compress == compress && fresh(data)
    {
      this.compress := compress;
      state, datalen, bitlen := INITIAL, 0, 0;
      data := new byte[64];
      message, whole := [], 0;
    }

    /** clks_user_sha256_update */
    method Update(bytes: seq<byte>)
      requires Valid()
      modifies this, data
      ensures Valid() && message == old(message) + bytes
    {
      assert old(message) + bytes[..0] == old(message);
      hide Hasher.Valid;
      for i := 0 to |bytes|
        invariant Valid() && message == old(message) + bytes[..i]
      {
        PrefixOneMore(old(message), bytes, i);
        Absorb(bytes[i]);
      }
      assert bytes[..|bytes|] == bytes;
    }

    /** One turn of the update loop. */
    method Absorb(b: byte)
      requires Valid()
      modifies this, data
      ensures Valid() && message == old(message) + [b]
    {
      ghost var before := message[..whole];
      data[datalen] := b;
      datalen := datalen + 1;
      message := message + [b];
      assert data[..datalen] == message[whole..] && message[..whole] == before;
      if datalen == 64 {
        FoldBlock(before);
      }
    }

    /** The buffer is full: its block goes in. */
    method FoldBlock(ghost before: seq<byte>)
      requires data.Length == 64 && datalen == 64 && whole % 64 == 0 && message == before + data[..64]
               && |before| == whole
      requires state == Fold(compress, INITIAL, before) && bitlen == 8 * whole % TWO_TO_THE_64
      modifies this`state, this`bitlen, this`whole, this`datalen
      ensures Valid()
    {
      assert data[..] == data[..64];
      FoldOneMore(compress, INITIAL, before, data[..]);
      state := compress(state, data[..]);
      bitlen := AddBits(bitlen, 64);
      whole := whole + 64;
      datalen := 0;
      assert message[..whole] == message;
    }

    /** The 64-bit bit counter moves on by so many bytes. */
    method AddBits(bits: nat, bytes: nat) returns (sum: nat)
      ensures sum == (bits + 8 * bytes) % TWO_TO_THE_64
      ensures forall n: nat :: bits == 8 * n % TWO_TO_THE_64 ==> sum == 8 * (n + bytes) % TWO_TO_THE_64
    {
      sum := (bits + 8 * bytes) % TWO_TO_THE_64;
      forall n: nat | bits == 8 * n % TWO_TO_THE_64 ensures sum == 8 * (n + bytes) % TWO_TO_THE_64 {
        SumModulo(8 * n, 8 * bytes);
      }
    }

    /** clks_user_sha256_final: the digest of everything taken in, whatever the pieces were. */
    method Final() returns (hash: seq<byte>)
      requires Valid()
      modifies this, data
      ensures hash == Digest(compress, old(message))
    {
      ghost var blocks, rest := message[..whole], message[whole..];
      assert blocks + rest == message;
      var bits := AddBits(bitlen, datalen);
      PaddedBlocks(message, blocks, rest);
      FillBlock();
      bitlen := bits;
      StoreLength();
      FoldOneMore(compress, INITIAL, FoldedBefore(blocks, rest), data[..]);
      state := compress(state, data[..]);
      hash := [];
      assert state[..0] == [];
      for i := 0 to |state|
        invariant hash == Words(state[..i])
      {
        hash := hash + Be32(state[i]);
        assert state[..i + 1][..i] == state[..i];
      }
      assert state[..|state|] == state;
    }

    /** The 0x80 and the zero bytes; a block of its own goes in if there is no room for the length behind them. */
    method FillBlock()
      requires Valid()
      modifies this`state, data
      ensures data.Length == 64 && data[..56] == LastBlockHead(old(data[..datalen]))
      ensures state == Fold(compress, INITIAL, FoldedBefore(message[..whole], old(data[..datalen])))
    {
      hide Fold;
      hide Zeros;
      ghost var rest := data[..datalen];
      data[datalen] := 0x80;
      assert data[..datalen + 1] == rest + [0x80];
      if datalen < 56 {
        FillZeros(datalen + 1, 56, rest + [0x80]);
      } else {
        FillZeros(datalen + 1, 64, rest + [0x80]);
        ghost var block := data[..];
        assert block == data[..64];
        FoldOneMore(compress, INITIAL, message[..whole], block);
        state := compress(state, data[..]);
        FillZeros(0, 56, []);
        assert [] + Zeros(56) == Zeros(56);
      }
    }

    /** Writes zeros from place `from` up to `limit`. */
    method FillZeros(from: nat, limit: nat, ghost head: seq<byte>)
      requires from <= limit <= data.Length && data[..from] == head
      modifies data
      ensures data[..limit] == head + Zeros(limit - from)
    {
      assert head + Zeros(0) == head;
      for i := from to limit
        invariant data[..i] == head + Zeros(i - from)
      {
        ghost var sofar := data[..i];
        data[i] := 0;
        assert data[..i + 1] == sofar + [0];
        Associative(head, Zeros(i - from), [0]);
      }
    }

    method StoreLength()
      requires data.Length == 64
      modifies data
      ensures data[..] == old(data[..56]) + Be64(bitlen)
    {
      data[63] := Digit(bitlen, 1);
      data[62] := Digit(bitlen, 0x100);
      data[61] := Digit(bitlen, 0x1_0000);
      data[60] := Digit(bitlen, 0x100_0000);
      data[59] := Digit(bitlen, 0x1_0000_0000);
      data[58] := Digit(bitlen, 0x100_0000_0000);
      data[57] := Digit(bitlen, 0x1_0000_0000_0000);
      data[56] := Digit(bitlen, 0x100_0000_0000_0000);
    }
  }

  lemma SumModulo(a: nat, b: nat)
    ensures (a % TWO_TO_THE_64 + b) % TWO_TO_THE_64 == (a + b) % TWO_TO_THE_64
  {
  }

  /** What stands before the length in the last block of the padded message. */
  function LastBlockHead(rest: seq<byte>): seq<byte>
    requires |rest| < 64
  {
    if |rest| < 56 then rest + [0x80] + Zeros(55 - |rest|) else Zeros(56)
  }

  /** What is folded in before the last block. */
  function FoldedBefore(blocks: seq<byte>, rest: seq<byte>): seq<byte>
    requires |rest| < 64
  {
    if |rest| < 56 then blocks else blocks + (rest + [0x80] + Zeros(63 - |rest|))
  }

  lemma {:induction false} ZerosAdd(a: nat, b: nat)
    ensures Zeros(a) + Zeros(b) == Zeros(a + b)
  {
    assert forall k :: 0 <= k < a + b ==> (Zeros(a) + Zeros(b))[k] == Zeros(a + b)[k];
  }

  /** The padded message is what is folded in, with the last block behind it. */
  lemma PaddedBlocks(message: seq<byte>, blocks: seq<byte>, rest: seq<byte>)
    requires message == blocks + rest && |blocks| % 64 == 0 && |rest| < 64
    ensures Padded(message) == FoldedBefore(blocks, rest) + (LastBlockHead(rest) + Be64(8 * |message| % TWO_TO_THE_64))
  {
    assert |message| % 64 == |rest|;
    if |rest| >= 56 {
      ZerosAdd(63 - |rest|, 56);
    }
  }
}
