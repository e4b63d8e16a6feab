/** The Internet checksum: the folded sum is the one's-complement sum of RFC 1071, and a stored checksum checks out. */
module Checksum {
  import opened ByteStrings

  const TWO_TO_THE_32 := 0x1_0000_0000
  const ONES := 0xFFFF

  function Word(hi: byte, lo: byte): nat { hi * 256 + lo }

  /** The 16-bit words of the data, an odd last byte being padded with zero. */
  function Words(data: seq<byte>): seq<nat> {
    if data == [] then []
    else if |data| == 1 then [Word(data[0], 0)]
    else [Word(data[0], data[1])] + Words(data[2..])
  }

  /** Addition with end-around carry: RFC 1071, section 1. */
  function OnesAdd(a: nat, b: nat): nat { if a + b > ONES then a + b - ONES else a + b }

  function OnesSum(words: seq<nat>): nat {
    if words == [] then 0 else OnesAdd(words[0], OnesSum(words[1..]))
  }

  function Sum(words: seq<nat>): nat { if words == [] then 0 else words[0] + Sum(words[1..]) }

  predicate Small(words: seq<nat>) { forall k :: 0 <= k < |words| ==> words[k] <= ONES }

  /** The 16-bit number a sum folds to: its remainder modulo 65535, except that only zero folds to zero. */
  function Folded(n: nat): nat { if n == 0 then 0 else (n - 1) % ONES + 1 }

  lemma FoldedAdds(a: nat, b: nat)
    requires a <= ONES
    ensures OnesAdd(a, Folded(b)) == Folded(a + b)
  {
    if b > 0 {
      var q := (b - 1) / ONES;
      assert b == q * ONES + Folded(b);
      if a + Folded(b) > ONES {
        FoldedIs(a + b, q + 1, a + Folded(b) - ONES);
      } else {
        FoldedIs(a + b, q, a + Folded(b));
      }
    } else if a > 0 {
      FoldedIs(a, 0, a);
    }
  }

  lemma FoldedIs(n: nat, q: nat, f: nat)
    requires n == q * ONES + f && 0 < f <= ONES
    ensures Folded(n) == f
  {
  }

  /** The one's-complement sum is what the plain sum folds to. */
  lemma {:induction false} OnesSumIsFolded(words: seq<nat>)
    requires Small(words)
    ensures OnesSum(words) == Folded(Sum(words)) <= ONES
  {
    if words != [] {
      OnesSumIsFolded(words[1..]);
      FoldedAdds(words[0], Sum(words[1..]));
    }
  }

  lemma {:induction false} WordsSmall(data: seq<byte>)
    ensures Small(Words(data)) && |Words(data)| == (|data| + 1) / 2
  {
    if |data| >= 2 {
      WordsSmall(data[2..]);
    }
  }

  lemma {:induction false} SumBounded(words: seq<nat>)
    requires Small(words)
    ensures Sum(words) <= |words| * ONES
  {
    if words != [] {
      SumBounded(words[1..]);
    }
  }

  lemma {:induction false} SumConcat(a: seq<nat>, b: seq<nat>)
    ensures Sum(a + b) == Sum(a) + Sum(b)
  {
    if a == [] {
      assert a + b == b;
    } else {
      SumConcat(a[1..], b);
      assert (a + b)[1..] == a[1..] + b;
    }
  }

  lemma {:induction false} WordsConcat(a: seq<byte>, b: seq<byte>)
    requires |a| % 2 == 0
    ensures Words(a + b) == Words(a) + Words(b)
    decreases |a|
  {
    if a == [] {
      assert a + b == b;
    } else {
      hide Word;
      assert |a| >= 2 && (a + b)[2..] == a[2..] + b && (a + b)[0] == a[0] && (a + b)[1] == a[1];
      WordsConcat(a[2..], b);
      assert [Word(a[0], a[1])] + (Words(a[2..]) + Words(b)) == ([Word(a[0], a[1])] + Words(a[2..])) + Words(b);
    }
  }

  /** All sixteen bits turned over: in the sum of the two every bit is one. */
  function Complement(n: nat): (c: nat)
    requires n <= ONES
    ensures n + c == ONES
  {
    ONES - n
  }

  /** The checksum by definition. */
  function Checksum16(data: seq<byte>): (c: nat)
    ensures c <= ONES
  {
    WordsSmall(data);
    OnesSumIsFolded(Words(data));
    Complement(OnesSum(Words(data)))
  }

  /** Adding up in 32 bits loses nothing up to 131072 bytes. */
  lemma NoOverflow(data: seq<byte>)
    requires |data| <= 131072
    ensures Sum(Words(data)) < TWO_TO_THE_32
  {
    hide Words;
    hide Sum;
    WordsSmall(data);
    SumBounded(Words(data));
    assert |Words(data)| <= 65536;
  }

  /** The addition of the C code. */
  function Add32(a: nat, b: nat): nat { (a + b) % TWO_TO_THE_32 }

  lemma {:induction false} PrefixSum(data: seq<byte>, i: nat)
    requires i <= |data| && i % 2 == 0
    ensures Sum(Words(data)) == Sum(Words(data[..i])) + Sum(Words(data[i..]))
  {
    WordsConcat(data[..i], data[i..]);
    SumConcat(Words(data[..i]), Words(data[i..]));
    assert data[..i] + data[i..] == data;
  }

  /** clks_net_checksum16: for up to 131072 bytes it is the one's complement of the one's-complement sum. */
  method Checksum(data: seq<byte>) returns (c: nat)
    ensures |data| <= 131072 ==> c == Checksum16(data)
  {
    hide Add32;
    hide Word;
    hide Words;
    hide Sum;
    hide Folded;
    hide Complement;
    ghost var total := Sum(Words(data));
    if |data| <= 131072 {
      NoOverflow(data);
    }
    var sum: nat, i: nat := 0, 0;
    assert data[0..] == data;
    while i + 1 < |data|
      invariant i <= |data| && (total < TWO_TO_THE_32 ==> total == sum + Sum(Words(data[i..])))
    {
      SumFirst(data[i..]);
      assert data[i..][2..] == data[i + 2..];
      AddExact(sum, Word(data[i], data[i + 1]));
      sum := Add32(sum, Word(data[i], data[i + 1]));
      i := i + 2;
    }
    SumLast(data[i..]);
    if i < |data| {
      AddExact(sum, Word(data[i], 0));
      sum := Add32(sum, Word(data[i], 0));
    }
    sum := FoldSum(sum);
    WordsSmall(data);
    OnesSumIsFolded(Words(data));
    return Complement(sum);
  }

  lemma AddExact(a: nat, b: nat)
    ensures a + b < TWO_TO_THE_32 ==> Add32(a, b) == a + b
  {
  }

  lemma SumLast(s: seq<byte>)
    requires |s| < 2
    ensures Sum(Words(s)) == if s == [] then 0 else Word(s[0], 0)
  {
    if s != [] {
      assert [Word(s[0], 0)][1..] == Words([]);
    }
  }

  /** The folding loop ends with the high half empty. */
  method FoldSum(n: nat) returns (sum: nat)
    ensures sum == Folded(n) <= ONES
  {
    sum := n;
    while sum / 0x1_0000 != 0
      invariant Folded(sum) == Folded(n)
      decreases sum
    {
      FoldOnce(sum);
      sum := sum % 0x1_0000 + sum / 0x1_0000;
    }
  }

  lemma FoldOnce(n: nat)
    requires n / 0x1_0000 != 0
    ensures var m := n % 0x1_0000 + n / 0x1_0000; 0 < m < n && Folded(m) == Folded(n)
  {
    var m, hi := n % 0x1_0000 + n / 0x1_0000, n / 0x1_0000;
    assert n == hi * 0x1_0000 + n % 0x1_0000;
    assert n == m + hi * ONES;
    var q := (m - 1) / ONES;
    assert m == q * ONES + Folded(m);
    FoldedIs(n, q + hi, Folded(m));
  }

  // ---------- a stored checksum checks out ----------

  /** The data with a 16-bit field set. */
  function Stored(data: seq<byte>, at: nat, c: nat): seq<byte>
    requires at + 1 < |data| && c <= ONES
  {
    data[at := c / 256][at + 1 := c % 256]
  }

  lemma StoredSum(data: seq<byte>, at: nat, c: nat)
    requires at + 1 < |data| && c <= ONES && at % 2 == 0 && data[at] == 0 && data[at + 1] == 0
    ensures Sum(Words(Stored(data, at, c))) == Sum(Words(data)) + c
  {
    var after := Stored(data, at, c);
    PrefixSum(data, at);
    PrefixSum(after, at);
    assert after[..at] == data[..at] && after[at..][2..] == data[at..][2..];
    SumFirst(data[at..]);
    SumFirst(after[at..]);
    assert Word(c / 256, c % 256) == c;
    hide Words;
    hide Word;
  }

  lemma SumFirst(s: seq<byte>)
    requires |s| >= 2
    ensures Sum(Words(s)) == Word(s[0], s[1]) + Sum(Words(s[2..]))
  {
    assert ([Word(s[0], s[1])] + Words(s[2..]))[1..] == Words(s[2..]);
    hide Word;
  }

  lemma ComplementFolds(total: nat)
    requires Folded(total) <= ONES
    ensures Folded(total + (ONES - Folded(total))) == ONES
  {
    if total > 0 {
      var q := (total - 1) / ONES;
      assert total == q * ONES + Folded(total);
      FoldedIs(total + (ONES - Folded(total)), q, ONES);
    }
  }

  /**
   A checksum stored in a zeroed field at an even place makes the one's-complement sum of the whole all ones, and so its
   checksum zero.
   */
  lemma StoredChecksOut(data: seq<byte>, at: nat)
    requires at + 1 < |data| && at % 2 == 0 && data[at] == 0 && data[at + 1] == 0
    ensures OnesSum(Words(Stored(data, at, Checksum16(data)))) == ONES
    ensures Checksum16(Stored(data, at, Checksum16(data))) == 0
  {
    hide Words;
    hide Sum;
    hide Folded;
    hide OnesSum;
    hide Small;
    hide Stored;
    var c, total := Checksum16(data), Sum(Words(data));
    StoredSum(data, at, c);
    WordsSmall(data);
    WordsSmall(Stored(data, at, c));
    OnesSumIsFolded(Words(data));
    OnesSumIsFolded(Words(Stored(data, at, c)));
    ComplementFolds(total);
  }
}
