/** Bytes, and the strings that C buffers hold. */
module ByteStrings {
  type byte = b: int | 0 <= b < 256

  function Take(s: seq<byte>, n: nat): (r: seq<byte>)
    ensures r <= s && |r| == if |s| <= n then |s| else n
  {
    if |s| <= n then s else s[..n]
  }

  /** The string in a buffer: the bytes before the first zero. */
  function Str(s: seq<byte>): (r: seq<byte>)
    ensures r <= s && (|r| < |s| ==> s[|r|] == 0) && forall k :: 0 <= k < |r| ==> r[k] != 0
  {
    if s == [] || s[0] == 0 then [] else [s[0]] + Str(s[1..])
  }

  lemma {:induction false} StrIs(s: seq<byte>, r: seq<byte>)
    requires r <= s && (|r| < |s| ==> s[|r|] == 0) && forall k :: 0 <= k < |r| ==> r[k] != 0
    ensures Str(s) == r
  {
    if r != [] {
      StrIs(s[1..], r[1..]);
    }
  }

  lemma TakeStr(s: seq<byte>, n: nat)
    ensures Str(Take(s, n)) == Take(Str(s), n)
  {
    var r := Str(s);
    StrIs(Take(s, n), Take(r, n));
  }

  lemma Associative(a: seq<byte>, b: seq<byte>, c: seq<byte>)
    ensures (a + b) + c == a + (b + c)
  {
  }

  lemma PrefixOneMore(a: seq<byte>, s: seq<byte>, i: nat)
    requires i < |s|
    ensures a + s[..i + 1] == (a + s[..i]) + [s[i]]
  {
    Associative(a, s[..i], [s[i]]);
    assert s[..i + 1] == s[..i] + [s[i]];
  }

  /** A C string's bytes: none of them ends it. */
  predicate NoNul(s: seq<byte>) { forall k :: 0 <= k < |s| ==> s[k] != 0 }
}
