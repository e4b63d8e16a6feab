/** The two UTF-8 decoders: a buffer decoder, strict or lenient, and one fed byte by byte. */
module Utf8 {
  import opened ByteStrings

  const REPLACEMENT := 0xFFFD

  /** The byte's two high bits are 10. */
  predicate IsCont(b: byte) { 0x80 <= b < 0xC0 }

  /** How many continuation bytes a lead byte announces; its high bits are 110, 1110 or 11110. */
  function Need(b: byte): nat {
    if 0xC0 <= b < 0xE0 then 1 else if 0xE0 <= b < 0xF0 then 2 else if 0xF0 <= b < 0xF8 then 3 else 0
  }

  /** The lead byte's payload bits. */
  function LeadBits(b: byte): nat {
    if Need(b) == 1 then b % 32 else if Need(b) == 2 then b % 16 else b % 8
  }

  /** Six more bits: the shift makes room for them. */
  function Shifted(value: nat, b: byte): nat { value * 64 + b % 64 }

  /** valid_finished */
  predicate ValidFinished(value: nat, expected: nat) {
    !((expected == 2 && value < 0x80) || (expected == 3 && value < 0x800) || (expected == 4 && value < 0x10000)
      || value > 0x10FFFF || 0xD800 <= value <= 0xDFFF)
  }

  // ---------- the standard: RFC 3629, sections 3 and 4 ----------

  predicate Scalar(c: nat) { c <= 0x10FFFF && !(0xD800 <= c <= 0xDFFF) }

  function Encode(c: nat): (s: seq<byte>)
    requires Scalar(c)
    ensures 1 <= |s| <= 4
  {
    if c < 0x80 then [c]
    else if c < 0x800 then [0xC0 + c / 64, 0x80 + c % 64]
    else if c < 0x10000 then [0xE0 + c / 4096, 0x80 + c / 64 % 64, 0x80 + c % 64]
    else [0xF0 + c / 262144, 0x80 + c / 4096 % 64, 0x80 + c / 64 % 64, 0x80 + c % 64]
  }

  /** A well-formed sequence for `c` starts at place `i`. */
  predicate Encoded(text: seq<byte>, i: nat, c: nat) {
    Scalar(c) && i <= |text| && Encode(c) <= text[i..]
  }

  // ---------- the buffer decoder ----------

  /** What one call of the buffer decoder makes of the bytes at an index. */
  datatype Decoded = Decoded(ok: bool, codepoint: nat, next: nat)

  /** Reads `need` continuation bytes. */
  function Gather(text: seq<byte>, i: nat, need: nat, value: nat): (d: Decoded)
    requires i + need <= |text|
    ensures i <= d.next <= i + need && (need > 0 ==> i < d.next) && (d.ok ==> d.next == i + need)
    decreases need
  {
    if need == 0 then Decoded(true, value, i)
    else if !IsCont(text[i]) then Decoded(false, REPLACEMENT, i + 1)
    else Gather(text, i + 1, need - 1, Shifted(value, text[i]))
  }

  function Decode(text: seq<byte>, i: nat): (d: Decoded)
    requires i < |text|
    ensures i < d.next <= |text|
  {
    var b := text[i];
    if b < 0x80 then Decoded(true, b, i + 1)
    else if Need(b) == 0 then Decoded(false, REPLACEMENT, i + 1)
    else if i + 1 + Need(b) > |text| then Decoded(false, REPLACEMENT, |text|)
    else
      var d := Gather(text, i + 1, Need(b), LeadBits(b));
      if d.ok && !ValidFinished(d.codepoint, Need(b) + 1) then Decoded(false, REPLACEMENT, d.next) else d
  }

  /** clks_rust_utf8_next_impl: in range every call moves on, and a strict call succeeds just if the bytes decode. */
  method Next(text: seq<byte>, index: nat, strict: bool) returns (ok: bool, index': nat, codepoint: nat)
    ensures index >= |text| ==> !ok && index' == index
    ensures index < |text| ==>
      var d := Decode(text, index);
      index < index' && index' == d.next && codepoint == d.codepoint && (ok <==> d.ok || !strict)
  {
    ok, index', codepoint := false, index, 0;
    if index >= |text| {
      return;
    }
    var b := text[index];
    index' := index + 1;
    if b < 0x80 {
      ok, codepoint := true, b;
      return;
    }
    codepoint := REPLACEMENT;
    ok := !strict;
    if Need(b) == 0 {
      return;
    }
    if index' + Need(b) > |text| {
      index' := |text|;
      return;
    }
    var value := LeadBits(b);
    var i := 0;
    while i < Need(b)
      invariant i <= Need(b) && index' == index + 1 + i
      invariant Gather(text, index + 1, Need(b), LeadBits(b)) == Gather(text, index', Need(b) - i, value)
    {
      var next := text[index'];
      index' := index' + 1;
      if !IsCont(next) {
        return;
      }
      value := Shifted(value, next);
      i := i + 1;
    }
    if ValidFinished(value, Need(b) + 1) {
      ok, codepoint := true, value;
    }
  }

  /** The strict decoder gives back every scalar value from its encoding, and where the encoding ends. */
  lemma DecodesEncoding(text: seq<byte>, i: nat, c: nat)
    requires Encoded(text, i, c)
    ensures i < |text| && Decode(text, i) == Decoded(true, c, i + |Encode(c)|)
  {
    var e := Encode(c);
    assert forall k :: 0 <= k < |e| ==> text[i..][k] == e[k] && text[i + k] == e[k];
    if c >= 0x80 {
      LeadOfEncoding(c);
      hide LeadBits;
      hide Need;
      hide Shifted;
      hide Encode;
      GatherOne(text, i + 1, LeadBits(e[0]));
      if c >= 0x800 {
        GatherTwo(text, i + 1, LeadBits(e[0]));
        if c >= 0x10000 {
          GatherThree(text, i + 1, LeadBits(e[0]));
        }
      }
    }
  }

  /** The lead byte announces the rest, and the bits put together are the value. */
  lemma LeadOfEncoding(c: nat)
    requires Scalar(c) && c >= 0x80
    ensures var e := Encode(c);
      && e[0] >= 0x80 && Need(e[0]) == |e| - 1 && |e| == (if c < 0x800 then 2 else if c < 0x10000 then 3 else 4)
      && IsCont(e[1]) && (|e| > 2 ==> IsCont(e[2])) && (|e| > 3 ==> IsCont(e[3]))
      && (var v := Shifted(LeadBits(e[0]), e[1]);
          c == if |e| == 2 then v else if |e| == 3 then Shifted(v, e[2]) else Shifted(Shifted(v, e[2]), e[3]))
  {
    DivideTwice(c);
    ContOf(c);
    ContOf(c / 64);
    ContOf(c / 4096);
    if c < 0x800 {
      LeadOf(0xC0, c / 64);
    } else if c < 0x10000 {
      LeadOf(0xE0, c / 4096);
    } else {
      LeadOf(0xF0, c / 262144);
    }
    hide Need;
    hide LeadBits;
    hide Shifted;
    hide IsCont;
  }

  lemma ContOf(n: nat)
    ensures IsCont(0x80 + n % 64) && Shifted(n / 64, 0x80 + n % 64) == n
  {
  }

  lemma LeadOf(base: byte, n: nat)
    requires (base == 0xC0 && n < 32) || (base == 0xE0 && n < 16) || (base == 0xF0 && n < 8)
    ensures Need(base + n) == (if base == 0xC0 then 1 else if base == 0xE0 then 2 else 3) && LeadBits(base + n) == n
  {
  }

  lemma DivideTwice(n: nat)
    ensures n / 64 / 64 == n / 4096 && n / 4096 / 64 == n / 262144
  {
  }

  lemma GatherOne(text: seq<byte>, i: nat, value: nat)
    requires i + 1 <= |text| && IsCont(text[i])
    ensures Gather(text, i, 1, value) == Decoded(true, Shifted(value, text[i]), i + 1)
  {
    assert Gather(text, i + 1, 0, Shifted(value, text[i])) == Decoded(true, Shifted(value, text[i]), i + 1);
  }

  lemma GatherTwo(text: seq<byte>, i: nat, value: nat)
    requires i + 2 <= |text| && IsCont(text[i]) && IsCont(text[i + 1])
    ensures Gather(text, i, 2, value) == Decoded(true, Shifted(Shifted(value, text[i]), text[i + 1]), i + 2)
  {
    GatherOne(text, i + 1, Shifted(value, text[i]));
  }

  lemma GatherThree(text: seq<byte>, i: nat, value: nat)
    requires i + 3 <= |text| && IsCont(text[i]) && IsCont(text[i + 1]) && IsCont(text[i + 2])
    ensures Gather(text, i, 3, value)
            == Decoded(true, Shifted(Shifted(Shifted(value, text[i]), text[i + 1]), text[i + 2]), i + 3)
  {
    GatherTwo(text, i + 1, Shifted(value, text[i]));
  }

  /** And it succeeds on nothing else: what it decodes is the encoding of a scalar value. */
  lemma DecodedIsEncoding(text: seq<byte>, i: nat)
    requires i < |text| && Decode(text, i).ok
    ensures var d := Decode(text, i); Scalar(d.codepoint) && text[i..d.next] == Encode(d.codepoint)
  {
    var b, d := text[i], Decode(text, i);
    if Need(b) == 1 && b >= 0x80 {
      TwoBack(b, text[i + 1]);
    } else if Need(b) == 2 {
      ThreeBack(b, text[i + 1], text[i + 2]);
    } else if Need(b) == 3 {
      FourBack(b, text[i + 1], text[i + 2], text[i + 3]);
    }
  }

  lemma TwoBack(a: byte, b: byte)
    requires Need(a) == 1 && IsCont(b) && ValidFinished(Shifted(LeadBits(a), b), 2)
    ensures var c := Shifted(LeadBits(a), b); Scalar(c) && Encode(c) == [a, b]
  {
  }

  lemma ThreeBack(a: byte, b: byte, c: byte)
    requires Need(a) == 2 && IsCont(b) && IsCont(c) && ValidFinished(Shifted(Shifted(LeadBits(a), b), c), 3)
    ensures var v := Shifted(Shifted(LeadBits(a), b), c); Scalar(v) && Encode(v) == [a, b, c]
  {
    var x, y, z := LeadBits(a), b % 64, c % 64;
    var v := Shifted(Shifted(x, b), c);
    LeadBack(a);
    ContBack(b);
    ContBack(c);
    assert v == (x * 64 + y) * 64 + z;
    Unshift(x, y);
    Unshift(x * 64 + y, z);
    DivideTwice(v);
    hide LeadBits;
    hide Shifted;
    hide Need;
  }

  lemma FourBack(a: byte, b: byte, c: byte, d: byte)
    requires Need(a) == 3 && IsCont(b) && IsCont(c) && IsCont(d)
    requires ValidFinished(Shifted(Shifted(Shifted(LeadBits(a), b), c), d), 4)
    ensures var v := Shifted(Shifted(Shifted(LeadBits(a), b), c), d); Scalar(v) && Encode(v) == [a, b, c, d]
  {
    var x, y, z, w := LeadBits(a), b % 64, c % 64, d % 64;
    var v := Shifted(Shifted(Shifted(x, b), c), d);
    LeadBack(a);
    ContBack(b);
    ContBack(c);
    ContBack(d);
    assert v == ((x * 64 + y) * 64 + z) * 64 + w;
    Unshifted(x, y, z, w);
    hide LeadBits;
    hide Shifted;
    hide Need;
    hide IsCont;
  }

  lemma LeadBack(a: byte)
    ensures Need(a) == 2 ==> a == 0xE0 + LeadBits(a)
    ensures Need(a) == 3 ==> a == 0xF0 + LeadBits(a)
  {
  }

  lemma ContBack(b: byte)
    ensures IsCont(b) ==> b == 0x80 + b % 64
  {
  }

  lemma Unshifted(x: nat, y: nat, z: nat, w: nat)
    requires y < 64 && z < 64 && w < 64
    ensures var v := ((x * 64 + y) * 64 + z) * 64 + w;
      v / 262144 == x && v / 4096 % 64 == y && v / 64 % 64 == z && v % 64 == w
  {
    var v := ((x * 64 + y) * 64 + z) * 64 + w;
    Unshift(x, y);
    Unshift(x * 64 + y, z);
    Unshift((x * 64 + y) * 64 + z, w);
    DivideTwice(v);
  }

  lemma Unshift(n: nat, r: nat)
    requires r < 64
    ensures (n * 64 + r) / 64 == n && (n * 64 + r) % 64 == r
  {
  }

  /** The strict decoder succeeds at a place exactly if a well-formed sequence starts there. */
  lemma StrictIffEncoded(text: seq<byte>, i: nat)
    requires i < |text|
    ensures Decode(text, i).ok <==> exists c: nat :: Encoded(text, i, c)
  {
    if Decode(text, i).ok {
      DecodedIsEncoding(text, i);
      assert Encoded(text, i, Decode(text, i).codepoint);
    }
    if exists c: nat :: Encoded(text, i, c) {
      var c: nat :| Encoded(text, i, c);
      DecodesEncoding(text, i, c);
    }
  }

  // ---------- the byte decoder ----------

  datatype Pending = Pending(codepoint: nat, remaining: nat, expected: nat)

  const IDLE := Pending(0, 0, 0)

  datatype Status = NeedMore | Codepoint(c: nat) | Replaced

  datatype Fed = Fed(state: Pending, status: Status)

  function Feed(s: Pending, b: byte): Fed {
    if s.remaining == 0 then
      if b < 0x80 then Fed(s, Codepoint(b))
      else if Need(b) > 0 then Fed(Pending(LeadBits(b), Need(b), Need(b) + 1), NeedMore)
      else Fed(s, Replaced)
    else if !IsCont(b) then Fed(IDLE, Replaced)
    else
      var value := Shifted(s.codepoint, b);
      if s.remaining > 1 then Fed(Pending(value, s.remaining - 1, s.expected), NeedMore)
      else if ValidFinished(value, s.expected) then Fed(IDLE, Codepoint(value))
      else Fed(IDLE, Replaced)
  }

  /** struct ClksRustUtf8State */
  class ByteDecoder {
    var codepoint: nat
    var remaining: nat
    var expected: nat

    function View(): Pending
      reads this
    {
      Pending(codepoint, remaining, expected)
    }

    constructor ()
      ensures View() == IDLE
    {
      codepoint, remaining, expected := 0, 0, 0;
    }

    /** clks_rust_utf8_state_reset */
    method Reset()
      modifies this
      ensures View() == IDLE
    {
      codepoint, remaining, expected := 0, 0, 0;
    }

    /** clks_rust_utf8_decode_byte */
    method DecodeByte(b: byte) returns (status: Status)
      modifies this
      ensures Fed(View(), status) == Feed(old(View()), b)
    {
      if remaining == 0 {
        if b < 0x80 {
          return Codepoint(b);
        }
        if Need(b) > 0 {
          codepoint, remaining, expected := LeadBits(b), Need(b), Need(b) + 1;
          return NeedMore;
        }
        return Replaced;
      }
      if !IsCont(b) {
        Reset();
        return Replaced;
      }
      codepoint := Shifted(codepoint, b);
      remaining := remaining - 1;
      if remaining != 0 {
        return NeedMore;
      }
      var value, length := codepoint, expected;
      Reset();
      return if ValidFinished(value, length) then Codepoint(value) else Replaced;
    }
  }

  // ---------- the decoders agree ----------

  /** Everything the byte decoder puts out for a text. */
  function Emitted(s: Pending, text: seq<byte>): seq<nat>
    decreases |text|
  {
    if text == [] then []
    else
      var f := Feed(s, text[0]);
      (match f.status case NeedMore => [] case Codepoint(c) => [c] case Replaced => [REPLACEMENT])
        + Emitted(f.state, text[1..])
  }

  /** Everything the lenient buffer decoder puts out from place `i` on. */
  function Batch(text: seq<byte>, i: nat): seq<nat>
    requires i <= |text|
    decreases |text| - i
  {
    if i == |text| then [] else [Decode(text, i).codepoint] + Batch(text, Decode(text, i).next)
  }

  /** The place of the lead byte whose sequence runs past the end, or the end itself if no decode from `i` on does. */
  function CutOff(text: seq<byte>, i: nat): (k: nat)
    requires i <= |text|
    ensures i <= k <= |text|
    decreases |text| - i
  {
    if i == |text| || i + 1 + Need(text[i]) > |text| then i else CutOff(text, Decode(text, i).next)
  }

  /**
   The bytes behind a lead byte that was cut off: continuation bytes, one other byte, and then nothing more or a single
   lead byte, which is itself cut off.
   */
  predicate Settles(t: seq<byte>) {
    t != [] && if IsCont(t[0]) then Settles(t[1..]) else |t| == 1 || (|t| == 2 && Need(t[1]) > 0)
  }

  /** In the middle of a sequence, the byte decoder puts out what the buffer decoder's gathering comes to. */
  lemma {:induction false} GatherAgrees(text: seq<byte>, i: nat, need: nat, value: nat, expected: nat)
    requires i + need <= |text| && need > 0
    ensures var d := Gather(text, i, need, value);
      Emitted(Pending(value, need, expected), text[i..]) ==
      [if d.ok && ValidFinished(d.codepoint, expected) then d.codepoint else REPLACEMENT]
        + Emitted(IDLE, text[d.next..])
    decreases need
  {
    assert text[i..][0] == text[i] && text[i..][1..] == text[i + 1..];
    if IsCont(text[i]) && need > 1 {
      GatherAgrees(text, i + 1, need - 1, Shifted(value, text[i]), expected);
    }
  }

  /** From the idle state, the bytes of one decode put out its code point. */
  lemma DecodeAgrees(text: seq<byte>, i: nat)
    requires i < |text| && i + 1 + Need(text[i]) <= |text|
    ensures Emitted(IDLE, text[i..]) == [Decode(text, i).codepoint] + Emitted(IDLE, text[Decode(text, i).next..])
  {
    var b := text[i];
    assert text[i..][0] == b && text[i..][1..] == text[i + 1..];
    hide LeadBits;
    hide Shifted;
    if b >= 0x80 && Need(b) > 0 {
      GatherAgrees(text, i + 1, Need(b), LeadBits(b), Need(b) + 1);
      hide Gather;
      hide Need;
      hide ValidFinished;
      GatherFails(text, i + 1, Need(b), LeadBits(b));
    }
  }

  lemma {:induction false} GatherFails(text: seq<byte>, i: nat, need: nat, value: nat)
    requires i + need <= |text|
    ensures var d := Gather(text, i, need, value); !d.ok ==> d.codepoint == REPLACEMENT
    decreases need
  {
    if need > 0 && IsCont(text[i]) {
      GatherFails(text, i + 1, need - 1, Shifted(value, text[i]));
    }
  }

  lemma OneByte(b: byte)
    ensures Emitted(IDLE, [b]) == [] <==> Need(b) > 0
  {
    assert [b][1..] == [];
    assert Emitted(Feed(IDLE, b).state, []) == [];
  }

  /** What the byte decoder puts out for too few bytes behind a lead byte. */
  lemma {:induction false} CutOffEmits(s: Pending, t: seq<byte>)
    requires |t| < s.remaining <= 3
    ensures Emitted(s, t) == [REPLACEMENT] <==> Settles(t)
    decreases |t|
  {
    hide Need;
    hide Shifted;
    if t != [] {
      if IsCont(t[0]) {
        var s' := Pending(Shifted(s.codepoint, t[0]), s.remaining - 1, s.expected);
        CutOffEmits(s', t[1..]);
        EmitNothing(s, t);
      } else {
        EmitOne(s, t);
        if |t| == 2 {
          OneByte(t[1]);
          assert t[1..] == [t[1]];
        }
      }
    }
  }

  lemma EmitNothing(s: Pending, t: seq<byte>)
    requires s.remaining > 1 && t != [] && IsCont(t[0])
    ensures Emitted(s, t) == Emitted(Pending(Shifted(s.codepoint, t[0]), s.remaining - 1, s.expected), t[1..])
  {
  }

  lemma EmitOne(s: Pending, t: seq<byte>)
    requires s.remaining > 0 && t != [] && !IsCont(t[0])
    ensures Emitted(s, t) == [REPLACEMENT] + Emitted(IDLE, t[1..])
  {
  }

  /** From the place of a lead byte that is cut off. */
  lemma AgreeAtCutOff(text: seq<byte>, i: nat)
    requires i < |text| && i + 1 + Need(text[i]) > |text|
    ensures Emitted(IDLE, text[i..]) == Batch(text, i) <==> Settles(text[i + 1..])
  {
    var b, t := text[i], text[i + 1..];
    assert text[i..][0] == b && text[i..][1..] == t;
    assert b >= 0x80 && Need(b) <= 3;
    var s := Pending(LeadBits(b), Need(b), Need(b) + 1);
    assert Feed(IDLE, b) == Fed(s, NeedMore);
    assert Emitted(IDLE, text[i..]) == Emitted(s, t);
    assert Decode(text, i) == Decoded(false, REPLACEMENT, |text|);
    assert Batch(text, |text|) == [];
    hide Need;
    hide LeadBits;
    CutOffEmits(s, t);
  }

  /**
   Feeding the bytes one by one gives the same list as decoding the buffer if and only if no decode runs past the end,
   or the bytes behind the lead byte that was cut off settle it.
   */
  lemma {:induction false} DecodersAgreeIff(text: seq<byte>, i: nat)
    requires i <= |text|
    ensures Emitted(IDLE, text[i..]) == Batch(text, i)
            <==> CutOff(text, i) == |text| || Settles(text[CutOff(text, i) + 1..])
    decreases |text| - i
  {
    hide Settles;
    if i < |text| {
      if i + 1 + Need(text[i]) <= |text| {
        DecodeAgrees(text, i);
        hide Emitted;
        hide Decode;
        DecodersAgreeIff(text, Decode(text, i).next);
        hide Need;
        SameTail(Decode(text, i).codepoint, Emitted(IDLE, text[Decode(text, i).next..]),
          Batch(text, Decode(text, i).next));
      } else {
        AgreeAtCutOff(text, i);
        hide Emitted;
        hide Decode;
      }
    }
  }

  lemma SameTail(c: nat, a: seq<nat>, b: seq<nat>)
    ensures [c] + a == [c] + b <==> a == b
  {
    assert ([c] + a)[1..] == a && ([c] + b)[1..] == b;
  }
}
