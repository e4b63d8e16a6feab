/** The panic screen's packing of bytes into decimal digits, and the unpacking that shows nothing is lost. */
module DecimalPacking {
  import opened ByteStrings

  const MAX_COMP_BYTES := 2953
  const DIGITS_MAX := MAX_COMP_BYTES / 7 * 17 + 17

  type digit = d: int | 0 <= d < 10

  function Pow(base: nat, n: nat): (p: nat)
    ensures base > 0 ==> p > 0
  {
    if n == 0 then 1 else base * Pow(base, n - 1)
  }

  /** How many digits stand for the last, incomplete group of bytes. */
  function TailDigits(rem: nat): nat
    requires rem < 7
  {
    [0, 3, 5, 8, 10, 13, 15][rem]
  }

  /** The number the bytes stand for, the first one being the lowest. */
  function Number(bytes: seq<byte>): nat { if bytes == [] then 0 else bytes[0] + 256 * Number(bytes[1..]) }

  function BytesOf(v: nat, n: nat): seq<byte> { if n == 0 then [] else [v % 256] + BytesOf(v / 256, n - 1) }

  /** Exactly `n` decimal digits, the first one being the highest. */
  function Padded(v: nat, n: nat): (ds: seq<digit>)
    ensures |ds| == n
  {
    if n == 0 then [] else Padded(v / 10, n - 1) + [v % 10]
  }

  function Value(ds: seq<digit>): nat { if ds == [] then 0 else 10 * Value(ds[..|ds| - 1]) + ds[|ds| - 1] }

  /** Seven bytes become seventeen digits; what is left over at the end becomes a shorter group. */
  function Pack(src: seq<byte>): seq<digit> {
    if |src| >= 7 then Padded(Number(src[..7]), 17) + Pack(src[7..])
    else Padded(Number(src), TailDigits(|src|))
  }

  /** How many bytes a last group of so many digits stands for. */
  function TailBytes(digits: nat): nat {
    if digits == 3 then 1 else if digits == 5 then 2 else if digits == 8 then 3
    else if digits == 10 then 4 else if digits == 13 then 5 else if digits == 15 then 6 else 0
  }

  function Unpack(ds: seq<digit>): seq<byte> {
    if |ds| >= 17 then BytesOf(Value(ds[..17]), 7) + Unpack(ds[17..]) else BytesOf(Value(ds), TailBytes(|ds|))
  }

  function PackedLength(n: nat): nat { n / 7 * 17 + TailDigits(n % 7) }

  // ---------- nothing is lost ----------

  lemma {:induction false} NumberBounded(bytes: seq<byte>)
    ensures Number(bytes) < Pow(256, |bytes|)
  {
    if bytes != [] {
      NumberBounded(bytes[1..]);
    }
  }

  lemma {:induction false} BytesBack(bytes: seq<byte>)
    ensures BytesOf(Number(bytes), |bytes|) == bytes
  {
    if bytes != [] {
      BytesBack(bytes[1..]);
    }
  }

  lemma {:induction false} ValueBack(v: nat, n: nat)
    requires v < Pow(10, n)
    ensures Value(Padded(v, n)) == v
  {
    if n > 0 {
      ValueBack(v / 10, n - 1);
      assert Padded(v, n)[..n - 1] == Padded(v / 10, n - 1);
    }
  }

  /** So many digits are enough for so many bytes, and one digit less is not. */
  lemma DigitsSuffice(n: nat)
    requires n <= 7
    ensures var digits := if n == 7 then 17 else TailDigits(n);
      Pow(256, n) <= Pow(10, digits) && (n > 0 ==> Pow(10, digits - 1) < Pow(256, n))
  {
    assert Pow(256, 1) == 256 && Pow(256, 2) == 65536 && Pow(256, 3) == 16777216 && Pow(256, 4) == 4294967296;
    assert Pow(256, 5) == 1099511627776 && Pow(256, 6) == 281474976710656 && Pow(256, 7) == 72057594037927936;
    assert Pow(10, 3) == 1000 && Pow(10, 5) == 100000 && Pow(10, 8) == 100000000 && Pow(10, 10) == 10000000000;
    assert Pow(10, 13) == 10000000000000 && Pow(10, 15) == 1000000000000000 && Pow(10, 17) == 100000000000000000;
  }

  lemma GroupBack(bytes: seq<byte>)
    requires |bytes| <= 7
    ensures BytesOf(Value(Padded(Number(bytes), if |bytes| == 7 then 17 else TailDigits(|bytes|))), |bytes|) == bytes
  {
    NumberBounded(bytes);
    DigitsSuffice(|bytes|);
    ValueBack(Number(bytes), if |bytes| == 7 then 17 else TailDigits(|bytes|));
    BytesBack(bytes);
  }

  /** Every byte string comes back from its digits. */
  lemma {:induction false} UnpackPack(src: seq<byte>)
    ensures Unpack(Pack(src)) == src
  {
    if |src| >= 7 {
      var head := Padded(Number(src[..7]), 17);
      GroupBack(src[..7]);
      UnpackPack(src[7..]);
      assert Pack(src)[..17] == head && Pack(src)[17..] == Pack(src[7..]);
      assert src[..7] + src[7..] == src;
    } else {
      GroupBack(src);
    }
  }

  lemma {:induction false} PackLength(src: seq<byte>)
    ensures |Pack(src)| == PackedLength(|src|)
  {
    if |src| >= 7 {
      PackLength(src[7..]);
      assert |src| / 7 == |src[7..]| / 7 + 1;
    }
  }

  /** For 1 to 2953 bytes the fixed buffer has room for all digits and the terminator, and there are digits. */
  lemma BufferSuffices(n: nat)
    requires 1 <= n <= MAX_COMP_BYTES
    ensures 0 < PackedLength(n) < DIGITS_MAX
  {
  }

  // ---------- the loops ----------

  const ZERO: byte := 48

  function Text(ds: seq<digit>): (s: seq<byte>)
    ensures |s| == |ds| && forall k :: 0 <= k < |ds| ==> s[k] == ZERO + ds[k]
  {
    seq(|ds|, k requires 0 <= k < |ds| => ZERO + ds[k])
  }

  lemma TextConcat(a: seq<digit>, b: seq<digit>)
    ensures Text(a + b) == Text(a) + Text(b)
  {
  }

  /** clks_panic_qr_u64_to_dec_padded: the digits are written from the last to the first. */
  method WritePadded(value: nat, digits: nat, dst: array<byte>, pos: nat)
    requires pos + digits <= dst.Length
    modifies dst
    ensures dst[..pos + digits] == old(dst[..pos]) + Text(Padded(value, digits))
  {
    ghost var before, text := dst[..pos], Text(Padded(value, digits));
    var v := value;
    for i := 0 to digits
      invariant dst[..pos] == before && text == Text(Padded(v, digits - i)) + dst[pos + digits - i..pos + digits]
    {
      TextConcat(Padded(v / 10, digits - i - 1), [v % 10]);
      ghost var tail := dst[pos + digits - i..pos + digits];
      dst[pos + digits - 1 - i] := ZERO + v % 10;
      assert dst[pos + digits - 1 - i..pos + digits] == [ZERO + v % 10] + tail;
      v := v / 10;
    }
    assert dst[pos..pos + digits] == text;
    assert dst[..pos + digits] == dst[..pos] + dst[pos..pos + digits];
  }

  lemma {:induction false} NumberOneMore(bytes: seq<byte>, b: byte)
    ensures Number(bytes + [b]) == Number(bytes) + b * Pow(256, |bytes|)
  {
    if bytes == [] {
      assert [] + [b] == [b];
      assert Number([b]) == b + 256 * Number([]);
    } else {
      NumberOneMore(bytes[1..], b);
      assert (bytes + [b])[1..] == bytes[1..] + [b];
      Distribute(b, Pow(256, |bytes| - 1));
    }
  }

  lemma Distribute(b: nat, p: nat)
    ensures 256 * (b * p) == b * (256 * p)
  {
  }

  /** The bytes of one group, put together from the lowest on; the bits do not overlap. */
  method GroupValue(src: seq<byte>, from: nat, n: nat) returns (value: nat)
    requires from + n <= |src|
    ensures value == Number(src[from..from + n])
  {
    value := 0;
    assert src[from..from] == [];
    for i := 0 to n
      invariant value == Number(src[from..from + i])
    {
      assert src[from..from + i + 1] == src[from..from + i] + [src[from + i]];
      NumberOneMore(src[from..from + i], src[from + i]);
      value := value + src[from + i] * Pow(256, i);
    }
  }

  /**
   clks_panic_qr_binary_to_decimal: the packed text with its terminator, or 0 if it does not fit. Into the fixed buffer
   every text of 1 to 2953 bytes fits, and its length, which is never 0, follows from the number of bytes alone.
   */
  method BinaryToDecimal(src: seq<byte>, dst: array<byte>) returns (length: nat)
    modifies dst
    ensures if |Pack(src)| < dst.Length
            then length == |Pack(src)| && dst[..length] == Text(Pack(src)) && dst[length] == 0
            else length == 0
    ensures 1 <= |src| <= MAX_COMP_BYTES && dst.Length == DIGITS_MAX ==> length == PackedLength(|src|) > 0
  {
    hide Pack;
    hide Text;
    hide Padded;
    hide Number;
    hide TailDigits;
    if 1 <= |src| <= MAX_COMP_BYTES {
      BufferSuffices(|src|);
    }
    PackLength(src);
    hide PackedLength;
    if dst.Length == 0 {
      return 0;
    }
    var fits, inPos, outPos := PackGroups(src, dst);
    if !fits {
      return 0;
    }
    fits, outPos := PackTail(src, inPos, dst, outPos);
    if !fits {
      return 0;
    }
    ghost var text := dst[..outPos];
    dst[outPos] := 0;
    assert dst[..outPos] == text;
    return outPos;
  }

  /** The groups of seven bytes. */
  method PackGroups(src: seq<byte>, dst: array<byte>) returns (fits: bool, inPos: nat, outPos: nat)
    requires dst.Length > 0
    modifies dst
    ensures fits ==> inPos <= |src| < inPos + 7 && outPos < dst.Length && Sofar(src, inPos, dst[..outPos])
    ensures !fits ==> |Pack(src)| >= dst.Length
  {
    hide Pack;
    hide Padded;
    hide Text;
    hide Number;
    hide TailDigits;
    fits, inPos, outPos := true, 0, 0;
    SofarStarts(src, dst[..0]);
    hide Sofar;
    while inPos + 7 <= |src|
      invariant inPos <= |src| && outPos < dst.Length && Sofar(src, inPos, dst[..outPos]) && fits
    {
      SofarGroup(src, inPos, dst[..outPos]);
      if outPos + 17 + 1 > dst.Length {
        fits := false;
        return;
      }
      var value := GroupValue(src, inPos, 7);
      WritePadded(value, 17, dst, outPos);
      outPos, inPos := outPos + 17, inPos + 7;
    }
  }

  /** The bytes that are left over. */
  method PackTail(src: seq<byte>, inPos: nat, dst: array<byte>, start: nat) returns (fits: bool, outPos: nat)
    requires inPos <= |src| < inPos + 7 && start < dst.Length && Sofar(src, inPos, dst[..start])
    modifies dst
    ensures fits ==> outPos < dst.Length && dst[..outPos] == Text(Pack(src)) && outPos == |Pack(src)|
    ensures !fits ==> |Pack(src)| >= dst.Length
  {
    hide Pack;
    hide Padded;
    hide Text;
    hide Number;
    hide TailDigits;
    SofarTail(src, inPos, dst[..start]);
    hide Sofar;
    fits, outPos := true, start;
    if inPos < |src| {
      var rem := |src| - inPos;
      var digits := TailDigits(rem);
      if digits == 0 || outPos + digits + 1 > dst.Length {
        fits := false;
        SomeDigits(rem);
        return;
      }
      var value := GroupValue(src, inPos, rem);
      assert src[inPos..inPos + rem] == src[inPos..];
      WritePadded(value, digits, dst, outPos);
      outPos := outPos + digits;
    }
  }

  lemma SomeDigits(rem: nat)
    requires 0 < rem < 7
    ensures TailDigits(rem) > 0
  {
  }

  lemma SofarStarts(src: seq<byte>, out: seq<byte>)
    requires out == []
    ensures Sofar(src, 0, out)
  {
    hide Pack;
    hide Text;
    assert src[0..] == src && out + Text(Pack(src)) == Text(Pack(src));
  }

  /** What has been written stands for the bytes before `inPos`. */
  ghost predicate Sofar(src: seq<byte>, inPos: nat, out: seq<byte>) {
    inPos <= |src| && Text(Pack(src)) == out + Text(Pack(src[inPos..]))
  }

  lemma SofarGroup(src: seq<byte>, inPos: nat, out: seq<byte>)
    requires inPos + 7 <= |src| && Sofar(src, inPos, out)
    ensures Sofar(src, inPos + 7, out + Text(Padded(Number(src[inPos..inPos + 7]), 17))) && |Pack(src)| >= |out| + 17
  {
    var rest, head := src[inPos..], Padded(Number(src[inPos..inPos + 7]), 17);
    assert rest[..7] == src[inPos..inPos + 7] && rest[7..] == src[inPos + 7..];
    TextConcat(head, Pack(src[inPos + 7..]));
    assert out + (Text(head) + Text(Pack(src[inPos + 7..]))) == (out + Text(head)) + Text(Pack(src[inPos + 7..]));
  }

  lemma SofarTail(src: seq<byte>, inPos: nat, out: seq<byte>)
    requires inPos <= |src| < inPos + 7 && Sofar(src, inPos, out)
    ensures Text(Pack(src)) == out + Text(Padded(Number(src[inPos..]), TailDigits(|src| - inPos)))
    ensures inPos == |src| ==> Text(Pack(src)) == out
  {
    hide Padded;
    hide Number;
    hide Text;
    hide TailDigits;
    var rest := src[inPos..];
    assert Pack(rest) == Padded(Number(rest), TailDigits(|rest|));
    hide Pack;
    if inPos == |src| {
      NoDigits(Number(rest));
      assert out + [] == out;
    }
  }

  lemma NoDigits(v: nat)
    ensures Text(Padded(v, TailDigits(0))) == []
  {
  }
}
