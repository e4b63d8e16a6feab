/** One user record as a line of the user database: printing it and reading it back. */
module UserRecords {
  import opened ByteStrings
  import opened UserText

  const NAME_MAX := 32
  const HOME_MAX := 96
  const HASH_LEN := 64
  const RECORD_MAX := 192
  const HASH_SIGN: byte := 35
  const SLASH: byte := 47

  datatype Record = Record(name: seq<byte>, admin: bool, hash: seq<byte>, home: seq<byte>, uid: nat)

  datatype Read = NoRecord | Found(r: Record)

  const ADMIN: seq<byte> := [97, 100, 109, 105, 110]
  const USER: seq<byte> := [117, 115, 101, 114]
  const ROOT: seq<byte> := [114, 111, 111, 116]

  predicate NameByte(b: byte) {
    97 <= b <= 122 || 65 <= b <= 90 || 48 <= b <= 57 || b == 95 || b == 45
  }

  /** clks_user_name_valid */
  predicate NameValid(name: seq<byte>) {
    name != [] && |name| < NAME_MAX && forall k :: 0 <= k < |name| ==> NameByte(name[k])
  }

  function NameHash(name: seq<byte>): bv64 {
    if name == [] then 5381
    else var h := NameHash(name[..|name| - 1]); ((h << 5) + h) ^ (name[|name| - 1] as bv64)
  }

  /** clks_user_uid_for_name on a valid name */
  function UidForName(name: seq<byte>): (uid: nat)
    ensures if name == ROOT then uid == 0 else 1000 <= uid < 61000
  {
    if name == ROOT then 0 else 1000 + (NameHash(name) as nat) % 60000
  }

  datatype Fields = NoFields | Fields(name: seq<byte>, role: seq<byte>, hash: seq<byte>, home: seq<byte>, uid: Cursor)

  function First(s: seq<byte>): seq<byte> { s[..FieldEnd(s)] }

  /** Four fields, and what stands behind the fourth colon if there is one. */
  function Cut(s: seq<byte>): Fields {
    var c1 := After(s);
    if c1.End? then NoFields
    else
      var c2 := After(c1.rest);
      if c2.End? then NoFields
      else
        var c3 := After(c2.rest);
        if c3.End? then NoFields
        else Fields(First(s), First(c1.rest), First(c2.rest), First(c3.rest), After(c3.rest))
  }

  function UidOf(name: seq<byte>, uid: Cursor): Parsed {
    if uid.End? || Trimmed(uid.rest) == [] then Number(UidForName(name)) else Parse(Trimmed(uid.rest))
  }

  /** clks_user_parse_record on a C string */
  function ParseRecord(line: seq<byte>): Read {
    var text := Trimmed(Take(line, RECORD_MAX - 1));
    if text == [] || text[0] == HASH_SIGN then NoRecord else RecordOf(Cut(text))
  }

  function RecordOf(f: Fields): Read {
    if f.NoFields? then NoRecord
    else
      var home := Trimmed(f.home);
      if !NameValid(f.name) || |f.hash| != HASH_LEN || home == [] || home[0] != SLASH
        || UidOf(f.name, f.uid).NotANumber?
      then NoRecord
      else Found(Record(f.name, f.role == ADMIN
        || f.role == ROOT, f.hash, Take(home, HOME_MAX - 1), UidOf(f.name, f.uid).n))
  }

  method ReadRecord(line: seq<byte>) returns (r: Read)
    ensures r == ParseRecord(line)
  {
    var text := Trim(Take(line, RECORD_MAX - 1));
    if |text| == 0 || text[0] == HASH_SIGN {
      return NoRecord;
    }
    var f := CutFields(text);
    if f.NoFields? {
      return NoRecord;
    }
    r := BuildRecord(f);
  }

  method CutFields(text: seq<byte>) returns (f: Fields)
    ensures f == Cut(text)
  {
    var name, role, hash, home, rest;
    name, rest := NextField(From(text));
    role, rest := NextField(rest);
    hash, rest := NextField(rest);
    home, rest := NextField(rest);
    if name.End? || role.End? || hash.End? || home.End? {
      return NoFields;
    }
    return Fields(name.rest, role.rest, hash.rest, home.rest, rest);
  }

  method BuildRecord(f: Fields) returns (r: Read)
    requires f.Fields?
    ensures r == RecordOf(f)
  {
    hide Trimmed;
    hide Parse;
    hide NameValid;
    hide UidForName;
    hide Take;
    var homeText := Trim(f.home);
    var uidText := [];
    if f.uid.From? {
      uidText := Trim(f.uid.rest);
    }
    if !NameValid(f.name) || |f.hash| != HASH_LEN || |homeText| == 0 || homeText[0] != SLASH {
      return NoRecord;
    }
    var uid := Number(UidForName(f.name));
    if f.uid.From? && |uidText| != 0 {
      uid := ParseU64(uidText);
      if uid.NotANumber? {
        return NoRecord;
      }
    }
    return Found(Record(f.name, f.role == ADMIN || f.role == ROOT, f.hash, Take(homeText, HOME_MAX - 1), uid.n));
  }

  // ---------- printing ----------

  function RoleText(admin: bool): seq<byte> { if admin then ADMIN else USER }

  /** The record's line without its newline. */
  function Body(r: Record): seq<byte> {
    r.name + [COLON] + (RoleText(r.admin) + [COLON] + (r.hash + [COLON] + (r.home + [COLON] + Decimal(r.uid))))
  }

  function Line(r: Record): seq<byte> { Body(r) + [NEWLINE] }

  predicate Plain(s: seq<byte>) { COLON !in s && NEWLINE !in s && NoNul(s) }

  /** A record whose fields have their lengths and nothing in them that separates fields or lines. */
  predicate WellFormed(r: Record) {
    && NameValid(r.name) && |r.hash| == HASH_LEN && Plain(r.hash) && Plain(r.home)
    && r.home != [] && |r.home| < HOME_MAX && r.home[0] == SLASH && !Blank(r.home[|r.home| - 1])
      && r.uid < TWO_TO_THE_64
  }

  /** clks_user_append, to a buffer that holds what fits of `whole`. */
  method Append(s: seq<byte>, text: seq<byte>, size: nat, ghost whole: seq<byte>)
    returns (r: seq<byte>, ghost more: seq<byte>)
    requires size > 0 && s == Take(whole, size - 1)
    ensures more == whole + text && r == Take(more, size - 1)
  {
    r, more := s, whole + text;
    var i := 0;
    while i < |text| && |r| + 1 < size
      invariant i <= |text| && |r| < size && r == s + text[..i]
    {
      r := r + [text[i]];
      i := i + 1;
    }
    TakeAppends(whole, text, size - 1);
    assert (s + text)[..|s| + i] == s + text[..i];
  }

  /** clks_user_record_line: the line, cut to the buffer. */
  method RecordLine(r: Record, size: nat) returns (s: seq<byte>)
    requires size > 0 && r.uid < TWO_TO_THE_64
    ensures s == Take(Line(r), size - 1)
  {
    ghost var whole: seq<byte> := [];
    hide Take;
    hide Decimal;
    s := [];
    assert s == Take([], size - 1) by { EmptyFits(size - 1); }
    s, whole := Append(s, r.name, size, whole);
    s, whole := Append(s, [COLON], size, whole);
    s, whole := Append(s, RoleText(r.admin), size, whole);
    s, whole := Append(s, [COLON], size, whole);
    s, whole := Append(s, r.hash, size, whole);
    s, whole := Append(s, [COLON], size, whole);
    s, whole := Append(s, r.home, size, whole);
    s, whole := Append(s, [COLON], size, whole);
    var digits := U64Digits(r.uid);
    s, whole := Append(s, digits, size, whole);
    s, whole := Append(s, [NEWLINE], size, whole);
    assert whole == Line(r);
  }

  lemma EmptyFits(n: nat)
    ensures Take([], n) == []
  {
  }

  lemma TakeAppends(a: seq<byte>, b: seq<byte>, n: nat)
    ensures Take(Take(a, n) + b, n) == Take(a + b, n)
  {
    if |a| > n {
      assert (a + b)[..n] == a[..n];
      assert (a[..n] + b)[..n] == a[..n];
    }
  }

  // ---------- printing and reading ----------

  lemma OneField(s: seq<byte>, field: seq<byte>, rest: seq<byte>)
    requires s == field + [COLON] + rest && COLON !in field
    ensures First(s) == field && After(s) == From(rest)
  {
    FieldEndIs(s, field, rest);
    assert |s| == |field| + 1 + |rest|;
    hide FieldEnd;
  }

  lemma NoColons(r: Record)
    requires WellFormed(r)
    ensures COLON !in r.name && COLON !in RoleText(r.admin) && COLON !in r.hash && COLON !in r.home
  {
  }

  lemma BodyFields(r: Record)
    requires WellFormed(r)
    ensures Cut(Body(r)) == Fields(r.name, RoleText(r.admin), r.hash, r.home, From(Decimal(r.uid)))
  {
    hide WellFormed;
    hide Decimal;
    hide FieldEnd;
    hide First;
    hide After;
    hide RoleText;
    NoColons(r);
    var t4 := r.home + [COLON] + Decimal(r.uid);
    var t3 := r.hash + [COLON] + t4;
    var t2 := RoleText(r.admin) + [COLON] + t3;
    OneField(Body(r), r.name, t2);
    OneField(t2, RoleText(r.admin), t3);
    OneField(t3, r.hash, t4);
    OneField(t4, r.home, Decimal(r.uid));
  }

  lemma NumeralUntouched(s: seq<byte>)
    requires Numeral(s)
    ensures Trimmed(s) == s
  {
    assert Digit(s[0]) && Digit(s[|s| - 1]);
    TrimmedIsSame(s);
  }

  lemma BodyEnds(r: Record)
    requires WellFormed(r)
    ensures Body(r) != [] && !Blank(Body(r)[0]) && !Blank(Body(r)[|Body(r)| - 1]) && Body(r)[0] != HASH_SIGN
  {
    var d := Decimal(r.uid);
    assert Body(r)[0] == r.name[0] && NameByte(r.name[0]);
    assert Body(r)[|Body(r)| - 1] == d[|d| - 1] && Digit(d[|d| - 1]);
  }

  lemma RoleReads(admin: bool)
    ensures RoleText(admin) == ADMIN || RoleText(admin) == ROOT <==> admin
  {
    assert USER[0] == 117 && ROOT[0] == 114;
    assert |ADMIN| == 5 && |USER| == 4;
  }

  lemma UidReads(name: seq<byte>, uid: nat)
    requires uid < TWO_TO_THE_64
    ensures UidOf(name, From(Decimal(uid))) == Number(uid)
  {
    NumeralUntouched(Decimal(uid));
    DecimalParses(uid);
    hide Decimal;
    hide Parse;
    hide Trimmed;
    hide UidForName;
  }

  lemma FieldsInOrder(r: Record)
    requires WellFormed(r)
    ensures NameValid(r.name) && |r.hash| == HASH_LEN && r.home != [] && r.home[0] == SLASH
            && Take(r.home, HOME_MAX - 1) == r.home
    ensures !Blank(r.home[0]) && !Blank(r.home[|r.home| - 1]) && r.uid < TWO_TO_THE_64
  {
  }

  lemma BodyReads(r: Record)
    requires WellFormed(r)
    ensures RecordOf(Cut(Body(r))) == Found(r)
  {
    hide WellFormed;
    hide Blank;
    hide Take;
    FieldsInOrder(r);
    hide NameValid;
    hide Cut;
    hide Body;
    hide UidOf;
    BodyFields(r);
    TrimmedIsSame(r.home);
    hide Trimmed;
    RoleReads(r.admin);
    hide RoleText;
    UidReads(r.name, r.uid);
  }

  /** A well-formed record that fits the buffer is read back from its line, with or without the newline. */
  lemma LineReadsBack(r: Record)
    requires WellFormed(r) && |Body(r)| < RECORD_MAX
    ensures ParseRecord(Body(r)) == Found(r) && ParseRecord(Take(Line(r), RECORD_MAX - 1)) == Found(r)
  {
    var b := Body(r);
    BodyReads(r);
    BodyEnds(r);
    TrimmedIsSame(b);
    TrimmedLine(b);
    hide RecordOf;
    hide Cut;
    hide Trimmed;
    hide Body;
    if |b| == RECORD_MAX - 1 {
      assert Take(Line(r), RECORD_MAX - 1) == b;
    }
  }

  /** A line with four or five fields, `uid` being what stands behind the fourth colon if there is one. */
  function Joined(name: seq<byte>, role: seq<byte>, hash: seq<byte>, home: seq<byte>, uid: Cursor): seq<byte> {
    name + [COLON] + (role + [COLON] + (hash + [COLON] + (home + if uid.From? then [COLON] + uid.rest else [])))
  }

  lemma JoinedFields(name: seq<byte>, role: seq<byte>, hash: seq<byte>, home: seq<byte>, uid: Cursor)
    requires COLON !in name && COLON !in role && COLON !in hash && COLON !in home
    ensures Cut(Joined(name, role, hash, home, uid)) == Fields(name, role, hash, home, uid)
  {
    hide First;
    hide After;
    hide FieldEnd;
    var t4 := home + if uid.From? then [COLON] + uid.rest else [];
    var t3 := hash + [COLON] + t4;
    var t2 := role + [COLON] + t3;
    OneField(Joined(name, role, hash, home, uid), name, t2);
    OneField(t2, role, t3);
    OneField(t3, hash, t4);
    if uid.From? {
      assert t4 == home + [COLON] + uid.rest;
      OneField(t4, home, uid.rest);
    } else {
      LastField(home);
      assert t4 == home;
    }
  }

  lemma LastField(s: seq<byte>)
    requires COLON !in s
    ensures First(s) == s && After(s) == End
  {
    assert s[..|s|] == s;
  }

  /** No number, or one that is a numeral below 2^64. */
  predicate NumberOk(uid: Cursor) {
    uid.From? && Trimmed(uid.rest) != [] ==> Numeral(Trimmed(uid.rest)) && Value(Trimmed(uid.rest)) < TWO_TO_THE_64
  }

  /**
   What a line means: its fields are a record exactly if the name is valid, the hash has 64 bytes, the home directory
   starts with a slash and the number, if there is one, is a decimal below 2^64. The roles "admin" and "root" make an
   administrator, a missing number is the one that goes with the name, and a long home directory is cut.
   */
  lemma LineMeans(name: seq<byte>, role: seq<byte>, hash: seq<byte>, home: seq<byte>, uid: Cursor)
    requires COLON !in name && COLON !in role && COLON !in hash && COLON !in home
    requires var line := Joined(name, role, hash, home, uid);
      |line| < RECORD_MAX && line != [] && !Blank(line[0]) && !Blank(line[|line| - 1]) && line[0] != HASH_SIGN
    ensures var r := ParseRecord(Joined(name, role, hash, home, uid)); var dir := Trimmed(home);
      && (r.Found? <==> NameValid(name) && |hash| == 64 && dir != [] && dir[0] == SLASH && NumberOk(uid))
      && (r.Found? ==>
            r.r == Record(name, role == [97, 100, 109, 105, 110] || role == [114, 111, 111, 116], hash, Take(dir, 95),
              if uid.From? && Trimmed(uid.rest) != [] then Value(Trimmed(uid.rest)) else UidForName(name)))
  {
    JoinedFields(name, role, hash, home, uid);
    WholeLine(Joined(name, role, hash, home, uid));
    FieldsMean(name, role, hash, home, uid);
    hide *;
  }

  lemma WholeLine(line: seq<byte>)
    requires line != [] && |line| < RECORD_MAX && !Blank(line[0]) && !Blank(line[|line| - 1]) && line[0] != HASH_SIGN
    ensures ParseRecord(line) == RecordOf(Cut(line))
  {
    TrimmedIsSame(line);
    hide Trimmed;
    hide Cut;
    hide RecordOf;
  }

  lemma NumberMeans(name: seq<byte>, uid: Cursor)
    ensures UidOf(name, uid).Number? <==> NumberOk(uid)
    ensures NumberOk(uid) ==>
      UidOf(name, uid).n == if uid.From? && Trimmed(uid.rest) != [] then Value(Trimmed(uid.rest)) else UidForName(name)
  {
    hide Trimmed;
    hide UidForName;
  }

  lemma FieldsMean(name: seq<byte>, role: seq<byte>, hash: seq<byte>, home: seq<byte>, uid: Cursor)
    ensures var r := RecordOf(Fields(name, role, hash, home, uid)); var dir := Trimmed(home);
      && (r.Found? <==> NameValid(name) && |hash| == 64 && dir != [] && dir[0] == SLASH && NumberOk(uid))
      && (r.Found? ==>
            r.r == Record(name, role == [97, 100, 109, 105, 110] || role == [114, 111, 111, 116], hash, Take(dir, 95),
              if uid.From? && Trimmed(uid.rest) != [] then Value(Trimmed(uid.rest)) else UidForName(name)))
  {
    NumberMeans(name, uid);
    hide Trimmed;
    hide NameValid;
    hide UidForName;
    hide UidOf;
    hide Value;
  }

  lemma {:induction false} TrimEnds(s: seq<byte>)
    ensures var t := Trimmed(s); (t != [] ==> !Blank(t[|t| - 1])) && forall b :: b in t ==> b in s
    decreases |s|
  {
    FrontInside(s);
    BackInside(TrimFront(s));
  }

  lemma {:induction false} FrontInside(s: seq<byte>)
    ensures forall b :: b in TrimFront(s) ==> b in s
  {
    if s != [] && Blank(s[0]) {
      FrontInside(s[1..]);
    }
  }

  lemma {:induction false} BackInside(s: seq<byte>)
    ensures var t := TrimBack(s); (t != [] ==> !Blank(t[|t| - 1])) && forall b :: b in t ==> b in s
  {
    if s != [] && Blank(s[|s| - 1]) {
      BackInside(s[..|s| - 1]);
    }
  }

  lemma FieldPlain(s: seq<byte>)
    requires NEWLINE !in s && NoNul(s)
    ensures Plain(First(s)) && (After(s).From? ==> NEWLINE !in After(s).rest && NoNul(After(s).rest))
  {
  }

  lemma CutPlain(text: seq<byte>)
    requires NEWLINE !in text && NoNul(text)
    ensures var f := Cut(text); f.Fields? ==> Plain(f.hash) && Plain(f.home)
  {
    hide First;
    hide After;
    hide Plain;
    FieldPlain(text);
    var c1 := After(text);
    if c1.From? {
      FieldPlain(c1.rest);
      var c2 := After(c1.rest);
      if c2.From? {
        FieldPlain(c2.rest);
        var c3 := After(c2.rest);
        if c3.From? {
          FieldPlain(c3.rest);
        }
      }
    }
  }

  /** Taken from a text without newlines and zeros, a text has none either. */
  lemma PartOf(s: seq<byte>, t: seq<byte>)
    requires NoNul(s) && forall b :: b in t ==> b in s
    ensures NoNul(t) && (NEWLINE !in s ==> NEWLINE !in t) && (COLON !in s ==> COLON !in t)
  {
    forall k | 0 <= k < |t| ensures t[k] != 0 {
      assert t[k] in s;
    }
  }

  lemma HomePlain(home: seq<byte>)
    requires Plain(home)
    ensures var t := Trimmed(home); Plain(Take(t, HOME_MAX - 1)) && (t != [] ==> !Blank(t[|t| - 1]))
  {
    TrimEnds(home);
    var t := Trimmed(home);
    hide Trimmed;
    forall b | b in Take(t, HOME_MAX - 1) ensures b in home {
      assert b in t;
    }
    PartOf(home, Take(t, HOME_MAX - 1));
  }

  lemma RecordWellFormed(f: Fields)
    requires f.Fields? && Plain(f.hash) && Plain(f.home) && RecordOf(f).Found?
    ensures var r := RecordOf(f).r; WellFormed(r) <==> !Blank(r.home[|r.home| - 1])
  {
    HomePlain(f.home);
    hide Plain;
    hide Trimmed;
    hide Blank;
    hide NameValid;
    assert UidOf(f.name, f.uid).n < TWO_TO_THE_64 by {
      hide UidForName;
    }
    hide UidOf;
  }

  /**
   Whatever is read from a line is well-formed, unless its home directory was too long and ends in a blank when cut.
   */
  lemma ReadIsWellFormed(line: seq<byte>)
    requires NEWLINE !in line && NoNul(line) && ParseRecord(line).Found?
    ensures var r := ParseRecord(line).r; WellFormed(r) <==> !Blank(r.home[|r.home| - 1])
  {
    var cut := Take(line, RECORD_MAX - 1);
    var text := Trimmed(cut);
    TrimEnds(cut);
    hide RecordOf;
    hide Cut;
    hide WellFormed;
    hide Blank;
    hide Trimmed;
    PartOf(cut, text);
    CutPlain(text);
    RecordWellFormed(Cut(text));
  }
}
