/** The text helpers of user.c: trimming, splitting at colons, and decimal numbers. */
module UserText {
  import opened ByteStrings

  const COLON: byte := 58
  const NEWLINE: byte := 10
  const TWO_TO_THE_64 := 0x1_0000_0000_0000_0000

  predicate Blank(b: byte) { b == 32 || b == 9 || b == 13 || b == 10 }

  function TrimFront(s: seq<byte>): seq<byte> { if s != [] && Blank(s[0]) then TrimFront(s[1..]) else s }

  function TrimBack(s: seq<byte>): seq<byte> {
    if s != [] && Blank(s[|s| - 1]) then TrimBack(s[..|s| - 1]) else s
  }

  /** clks_user_trim */
  function Trimmed(s: seq<byte>): seq<byte> { TrimBack(TrimFront(s)) }

  /** Only spaces, tabs and line ends. */
  predicate OnlyBlanks(s: seq<byte>) { forall k :: 0 <= k < |s| ==> s[k] in {9, 10, 13, 32} }

  /** Trimming takes the blanks off both ends, all of them and nothing else. */
  lemma TrimmedIs(s: seq<byte>) returns (front: seq<byte>, back: seq<byte>)
    ensures s == front + Trimmed(s) + back && OnlyBlanks(front) && OnlyBlanks(back)
    ensures var t := Trimmed(s); t != [] ==> !OnlyBlanks(t[..1]) && !OnlyBlanks(t[|t| - 1..])
  {
    front := FrontIs(s);
    back := BackIs(TrimFront(s));
    assert s == front + (Trimmed(s) + back);
  }

  lemma {:induction false} FrontIs(s: seq<byte>) returns (front: seq<byte>)
    ensures s == front + TrimFront(s) && OnlyBlanks(front) && (TrimFront(s) != [] ==> !Blank(TrimFront(s)[0]))
  {
    front := [];
    if s != [] && Blank(s[0]) {
      front := FrontIs(s[1..]);
      front := [s[0]] + front;
    }
  }

  lemma {:induction false} BackIs(s: seq<byte>) returns (back: seq<byte>)
    ensures s == TrimBack(s) + back && OnlyBlanks(back)
    ensures TrimBack(s) != [] ==> !Blank(TrimBack(s)[|TrimBack(s)| - 1]) && TrimBack(s)[0] == s[0]
  {
    back := [];
    if s != [] && Blank(s[|s| - 1]) {
      back := BackIs(s[..|s| - 1]);
      back := back + [s[|s| - 1]];
    }
  }

  method Trim(s: seq<byte>) returns (r: seq<byte>)
    ensures r == Trimmed(s)
  {
    var start := 0;
    while start < |s| && Blank(s[start])
      invariant start <= |s| && TrimFront(s) == TrimFront(s[start..])
    {
      assert s[start..][1..] == s[start + 1..];
      start := start + 1;
    }
    r := s[start..];
    ghost var front := r;
    while |r| > 0 && Blank(r[|r| - 1])
      invariant TrimBack(front) == TrimBack(r)
    {
      r := r[..|r| - 1];
    }
  }

  /** Nothing to trim. */
  lemma TrimmedIsSame(s: seq<byte>)
    requires s != [] ==> !Blank(s[0]) && !Blank(s[|s| - 1])
    ensures Trimmed(s) == s
  {
  }

  /** Trimming takes a newline off the end of a line that starts and ends with something else. */
  lemma TrimmedLine(s: seq<byte>)
    requires s != [] && !Blank(s[0]) && !Blank(s[|s| - 1])
    ensures Trimmed(s + [NEWLINE]) == s
  {
    var t := s + [NEWLINE];
    assert t[..|t| - 1] == s && t[0] == s[0];
    assert TrimFront(t) == t && TrimBack(t) == TrimBack(s);
  }

  // ---------- fields ----------

  /** Where the field that starts the text ends. */
  function FieldEnd(s: seq<byte>): (e: nat)
    ensures e <= |s| && (e < |s| ==> s[e] == COLON) && forall k :: 0 <= k < e ==> s[k] != COLON
  {
    if s == [] || s[0] == COLON then 0 else 1 + FieldEnd(s[1..])
  }

  lemma {:induction false} FieldEndIs(s: seq<byte>, field: seq<byte>, rest: seq<byte>)
    requires s == field + [COLON] + rest && COLON !in field
    ensures FieldEnd(s) == |field| && s[..|field|] == field && s[|field| + 1..] == rest
  {
    var e := FieldEnd(s);
    assert s[|field|] == COLON;
    assert forall k :: 0 <= k < |field| ==> s[k] == field[k];
  }

  /** What is left of a text while it is cut into fields: a cursor, or nothing behind the last field. */
  datatype Cursor = End | From(rest: seq<byte>)

  /** clks_user_next_field */
  method NextField(cursor: Cursor) returns (field: Cursor, next: Cursor)
    ensures cursor.End? ==> field.End? && next.End?
    ensures cursor.From? ==> field == From(cursor.rest[..FieldEnd(cursor.rest)])
                             && next == After(cursor.rest)
  {
    if cursor.End? {
      return End, End;
    }
    var s, i := cursor.rest, 0;
    while i < |s| && s[i] != COLON
      invariant i <= FieldEnd(s)
    {
      i := i + 1;
    }
    return From(s[..i]), if i < |s| then From(s[i + 1..]) else End;
  }

  function After(s: seq<byte>): Cursor {
    if FieldEnd(s) < |s| then From(s[FieldEnd(s) + 1..]) else End
  }

  // ---------- numbers ----------

  datatype Parsed = NotANumber | Number(n: nat)

  predicate Digit(b: byte) { 48 <= b <= 57 }

  function DigitOf(b: byte): nat
    requires Digit(b)
  {
    (b as int) - 48
  }

  predicate Numeral(s: seq<byte>) { s != [] && forall k :: 0 <= k < |s| ==> Digit(s[k]) }

  function Value(s: seq<byte>): nat
    requires forall k :: 0 <= k < |s| ==> Digit(s[k])
  {
    if s == [] then 0 else 10 * Value(s[..|s| - 1]) + DigitOf(s[|s| - 1])
  }

  function Parse(s: seq<byte>): Parsed {
    if Numeral(s) && Value(s) < TWO_TO_THE_64 then Number(Value(s)) else NotANumber
  }

  function Decimal(n: nat): (s: seq<byte>)
    ensures Numeral(s)
  {
    if n < 10 then [48 + n] else Decimal(n / 10) + [48 + n % 10]
  }

  lemma {:induction false} ValueGrows(s: seq<byte>, i: nat)
    requires i <= |s| && forall k :: 0 <= k < |s| ==> Digit(s[k])
    ensures Value(s[..i]) <= Value(s)
    decreases |s|
  {
    if i < |s| {
      ValueGrows(s[..|s| - 1], i);
      assert s[..|s| - 1][..i] == s[..i];
    } else {
      assert s[..i] == s;
    }
  }

  /** Reading a number back gives the number. */
  lemma {:induction false} DecimalParses(n: nat)
    ensures Value(Decimal(n)) == n && (n < TWO_TO_THE_64 ==> Parse(Decimal(n)) == Number(n))
  {
    if n >= 10 {
      DecimalParses(n / 10);
      var s := Decimal(n / 10) + [48 + n % 10];
      assert s[..|s| - 1] == Decimal(n / 10);
    }
  }

  /** A numeral is its value's digits behind zeros. */
  lemma {:induction false} NumeralIs(s: seq<byte>) returns (k: nat)
    requires Numeral(s)
    ensures k < |s| && (forall i :: 0 <= i < k ==> s[i] == 48) && s[k..] == Decimal(Value(s))
  {
    var n := |s| - 1;
    if n == 0 {
      k := 0;
      assert s[..0] == [] && s[0..] == [s[0]];
    } else {
      k := NumeralIs(s[..n]);
      if Value(s[..n]) == 0 {
        assert s[..n][k..] == [48];
        k := n;
        assert s[n..] == [s[n]];
      } else {
        DecimalGrows(Value(s[..n]), DigitOf(s[n]));
        assert s[k..] == s[..n][k..] + [s[n]];
      }
    }
  }

  lemma DecimalGrows(n: nat, d: nat)
    requires n > 0 && d < 10
    ensures Decimal(10 * n + d) == Decimal(n) + [48 + d]
  {
  }

  /** clks_user_parse_u64_dec: it accepts exactly the numerals whose value fits 64 bits. */
  method ParseU64(text: seq<byte>) returns (r: Parsed)
    ensures r == Parse(text)
  {
    if |text| == 0 {
      return NotANumber;
    }
    var value: nat := 0;
    for i := 0 to |text|
      invariant forall k :: 0 <= k < i ==> Digit(text[k])
      invariant value == Value(text[..i]) < TWO_TO_THE_64
    {
      if !Digit(text[i]) {
        return NotANumber;
      }
      var digit := DigitOf(text[i]);
      assert text[..i + 1][..i] == text[..i];
      if WouldOverflow(value, digit) {
        if forall k :: 0 <= k < |text| ==> Digit(text[k]) {
          ValueGrows(text, i + 1);
        }
        return NotANumber;
      }
      value := 10 * value + digit;
    }
    assert text[..|text|] == text;
    return Number(value);
  }

  /** The guard before a digit is added. */
  predicate WouldOverflow(value: nat, digit: nat)
    requires digit < 10
    ensures WouldOverflow(value, digit) <==> 10 * value + digit >= TWO_TO_THE_64
  {
    value > (TWO_TO_THE_64 - 1 - digit) / 10
  }

  /** clks_user_append_u64_dec, the digits of which come out backwards first. */
  method U64Digits(value: nat) returns (s: seq<byte>)
    requires value < TWO_TO_THE_64
    ensures s == Decimal(value)
  {
    if value == 0 {
      return [48];
    }
    var n := value;
    s := [];
    while n != 0
      invariant if n == 0 then s == Decimal(value) else Decimal(value) == Decimal(n) + s
      decreases n
    {
      s := [48 + n % 10] + s;
      n := n / 10;
    }
  }
}
