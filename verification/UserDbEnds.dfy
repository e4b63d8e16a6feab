/** The two places where the user database can lose a record: a file without a last newline, and a line too long. */
module UserDbEnds {
  import opened ByteStrings
  import opened UserText
  import opened UserRecords
  import opened UserDb

  // ---------- fields of a text that something is appended to ----------

  lemma {:induction false} FieldEndAppend(x: seq<byte>, u: seq<byte>)
    ensures FieldEnd(x + u) == if FieldEnd(x) < |x| then FieldEnd(x) else |x| + FieldEnd(u)
  {
    if x == [] {
      assert x + u == u;
    } else {
      FieldEndAppend(x[1..], u);
      assert (x + u)[1..] == x[1..] + u;
    }
  }

  lemma AfterAppend(x: seq<byte>, u: seq<byte>)
    ensures After(x).From? ==> First(x + u) == First(x) && After(x + u) == From(After(x).rest + u)
    ensures After(x).End? ==> COLON !in x && First(x) == x && First(x + u) == x + First(u) && After(x + u) == After(u)
  {
    FieldEndAppend(x, u);
    if After(x).End? {
      assert (x + u)[..|x| + FieldEnd(u)] == x + u[..FieldEnd(u)];
      if After(u).From? {
        assert (x + u)[|x| + FieldEnd(u) + 1..] == u[FieldEnd(u) + 1..];
      }
    } else {
      assert (x + u)[FieldEnd(x) + 1..] == x[FieldEnd(x) + 1..] + u;
    }
  }

  lemma {:induction false} FrontAppend(x: seq<byte>, u: seq<byte>)
    ensures TrimFront(x + u) == if TrimFront(x) == [] then TrimFront(u) else TrimFront(x) + u
  {
    if x == [] {
      assert x + u == u;
    } else if Blank(x[0]) {
      FrontAppend(x[1..], u);
      assert (x + u)[1..] == x[1..] + u;
    }
  }

  lemma {:induction false} FrontEmpty(x: seq<byte>)
    ensures TrimFront(x) == [] <==> forall b :: b in x ==> Blank(b)
    ensures TrimFront(x) != [] ==> !Blank(TrimFront(x)[0])
  {
    if x != [] {
      assert x == [x[0]] + x[1..];
      if Blank(x[0]) {
        FrontEmpty(x[1..]);
      }
    }
  }

  /** Trimming the end keeps every start that ends with something else. */
  lemma {:induction false} BackKeeps(x: seq<byte>, p: seq<byte>)
    requires p <= x && p != [] && !Blank(p[|p| - 1])
    ensures p <= TrimBack(x) <= x
  {
    if x != p && Blank(x[|x| - 1]) {
      BackKeeps(x[..|x| - 1], p);
    } else {
      assert TrimBack(x) == x;
    }
  }

  lemma {:induction false} BackEnds(x: seq<byte>)
    ensures TrimBack(x) <= x && (TrimBack(x) != [] ==> !Blank(TrimBack(x)[|TrimBack(x)| - 1]))
  {
    if x != [] && Blank(x[|x| - 1]) {
      BackEnds(x[..|x| - 1]);
    }
  }

  lemma TrimmedBlank(x: seq<byte>, b: byte)
    requires Blank(b)
    ensures Trimmed(x + [b]) == Trimmed(x)
  {
    FrontAppend(x, [b]);
    var t := TrimFront(x) + [b];
    assert t[..|t| - 1] == TrimFront(x);
    assert [b][1..] == [];
  }

  lemma UidBlank(name: seq<byte>, x: seq<byte>, b: byte)
    requires Blank(b)
    ensures UidOf(name, From(x + [b])) == UidOf(name, From(x))
  {
    TrimmedBlank(x, b);
  }

  /** The fields, once the text behind the hash is reached. */
  function WithHome(name: seq<byte>, role: seq<byte>, hash: seq<byte>, x: seq<byte>): Fields {
    Fields(name, role, hash, First(x), After(x))
  }

  lemma HomeBlank(name: seq<byte>, role: seq<byte>, hash: seq<byte>, x: seq<byte>, b: byte)
    requires Blank(b)
    ensures RecordOf(WithHome(name, role, hash, x + [b])) == RecordOf(WithHome(name, role, hash, x))
  {
    assert After([b]).End? && First([b]) == [b];
    hide After;
    hide First;
    hide Trimmed;
    hide Blank;
    hide UidOf;
    hide NameValid;
    AfterAppend(x, [b]);
    TrimmedBlank(x, b);
    if After(x).From? {
      UidBlank(name, After(x).rest, b);
    }
    UidEnd(name);
  }

  lemma UidEnd(name: seq<byte>)
    ensures UidOf(name, End) == UidOf(name, From([]))
  {
  }

  /** A blank behind a text changes nothing that is read from it. */
  lemma BlankEnd(x: seq<byte>, b: byte)
    requires Blank(b)
    ensures RecordOf(Cut(x + [b])) == RecordOf(Cut(x))
  {
    assert After([b]).End?;
    hide RecordOf;
    hide Blank;
    hide First;
    hide After;
    if After(x).From? && After(After(x).rest).From? && After(After(After(x).rest).rest).From? {
      var x3 := After(After(After(x).rest).rest).rest;
      ThreeColons(x, x3, [b]);
      hide Cut;
      HomeBlank(First(x), First(After(x).rest), First(After(After(x).rest).rest), x3, b);
    } else {
      FewColons(x, b);
    }
  }

  lemma FewColons(x: seq<byte>, b: byte)
    requires After([b]).End?
    requires !(After(x).From? && After(After(x).rest).From? && After(After(After(x).rest).rest).From?)
    ensures Cut(x) == NoFields == Cut(x + [b])
  {
    hide After;
    hide First;
    AfterAppend(x, [b]);
    if After(x).From? {
      AfterAppend(After(x).rest, [b]);
      if After(After(x).rest).From? {
        AfterAppend(After(After(x).rest).rest, [b]);
      }
    }
  }

  lemma {:induction false} BackSame(x: seq<byte>)
    ensures RecordOf(Cut(TrimBack(x))) == RecordOf(Cut(x))
  {
    hide RecordOf;
    hide Cut;
    if x != [] && Blank(x[|x| - 1]) {
      BackSame(x[..|x| - 1]);
      BlankEnd(x[..|x| - 1], x[|x| - 1]);
      assert x == x[..|x| - 1] + [x[|x| - 1]];
    }
  }

  /** What is read from a text without leading blanks. */
  function Reads(t: seq<byte>): Read { if t == [] || t[0] == HASH_SIGN then NoRecord else RecordOf(Cut(t)) }

  lemma ParseIs(line: seq<byte>)
    ensures ParseRecord(line) == Reads(TrimFront(Take(line, RECORD_MAX - 1)))
  {
    var t := TrimFront(Take(line, RECORD_MAX - 1));
    FrontEmpty(Take(line, RECORD_MAX - 1));
    BackSame(t);
    hide RecordOf;
    hide Cut;
    if t != [] {
      BackKeeps(t, t[..1]);
    }
  }

  predicate Gives(found: Read, name: seq<byte>) { found.Found? && found.r.name == name }

  // ---------- a record's line, cut short ----------

  predicate Splits(s: seq<byte>, field: seq<byte>, rest: seq<byte>) { s == field + [COLON] + rest && COLON !in field }

  /** A field and what is behind its colon, cut at `n`. */
  lemma FieldCut(s: seq<byte>, field: seq<byte>, rest: seq<byte>, n: nat)
    requires Splits(s, field, rest)
    ensures if n <= |field| then After(Take(s, n)).End? && First(Take(s, n)) == Take(field, n)
            else First(Take(s, n)) == field && After(Take(s, n)) == From(Take(rest, n - |field| - 1))
  {
    var p := Take(s, n);
    if n <= |field| {
      assert p == field[..n];
      assert After(p).End? && First(p) == p;
    } else {
      var more := Take(rest, n - |field| - 1);
      assert p == field + [COLON] + more;
      FieldEndIs(p, field, more);
    }
  }

  /** The record's line behind its name, its role and its hash. */
  function FromHome(r: Record): seq<byte> { r.home + [COLON] + Decimal(r.uid) }

  function FromHash(r: Record): seq<byte> { r.hash + [COLON] + FromHome(r) }

  function FromRole(r: Record): seq<byte> { RoleText(r.admin) + [COLON] + FromHash(r) }

  lemma BodySplits(r: Record)
    requires WellFormed(r)
    ensures Splits(Body(r), r.name, FromRole(r)) && Splits(FromRole(r), RoleText(r.admin), FromHash(r))
    ensures Splits(FromHash(r), r.hash, FromHome(r)) && Splits(FromHome(r), r.home, Decimal(r.uid))
  {
    NoColons(r);
    hide WellFormed;
    hide Decimal;
    hide RoleText;
    assert FromHome(r) == r.home + ([COLON] + Decimal(r.uid));
    assert FromHash(r) == r.hash + ([COLON] + FromHome(r));
    assert FromRole(r) == RoleText(r.admin) + ([COLON] + FromHash(r));
  }

  /** Where the home directory starts. */
  function HomeStart(r: Record): nat { |r.name| + |RoleText(r.admin)| + |r.hash| + 3 }

  /** The fields before the home directory, if the cut leaves them whole. */
  lemma ThreeFields(s: seq<byte>, name: seq<byte>, s1: seq<byte>, role: seq<byte>, s2: seq<byte>, hash: seq<byte>,
                    s3: seq<byte>, n: nat)
    requires Splits(s, name, s1) && Splits(s1, role, s2) && Splits(s2, hash, s3)
    ensures var m := n - |name| - |role| - |hash| - 3;
      Cut(Take(s, n)) == if m < 0 then NoFields else WithHome(name, role, hash, Take(s3, m))
  {
    hide Splits;
    hide First;
    hide After;
    hide Take;
    FieldCut(s, name, s1, n);
    if n > |name| {
      var n1 := n - |name| - 1;
      FieldCut(s1, role, s2, n1);
      if n1 > |role| {
        FieldCut(s2, hash, s3, n1 - |role| - 1);
      }
    }
  }

  lemma CutBeforeHome(r: Record, n: nat)
    requires WellFormed(r)
    ensures var f := Cut(Take(Body(r), n));
      if n < HomeStart(r) then f.NoFields?
      else f == WithHome(r.name, RoleText(r.admin), r.hash, Take(FromHome(r), n - HomeStart(r)))
  {
    BodySplits(r);
    hide WellFormed;
    hide Splits;
    hide RoleText;
    hide Body;
    hide FromRole;
    hide FromHash;
    hide FromHome;
    hide Cut;
    hide WithHome;
    ThreeFields(Body(r), r.name, FromRole(r), RoleText(r.admin), FromHash(r), r.hash, FromHome(r), n);
  }
  lemma CutFields(r: Record, n: nat)
    requires WellFormed(r) && n >= HomeStart(r)
    ensures var m := n - HomeStart(r);
      Cut(Take(Body(r), n)) == Fields(r.name, RoleText(r.admin), r.hash, Take(r.home, m),
                                      if m <= |r.home| then End else From(Take(Decimal(r.uid), m - |r.home| - 1)))
  {
    BodySplits(r);
    CutBeforeHome(r, n);
    hide WellFormed;
    hide Splits;
    hide Decimal;
    hide RoleText;
    hide First;
    hide After;
    hide Take;
    hide Body;
    hide Cut;
    FieldCut(FromHome(r), r.home, Decimal(r.uid), n - HomeStart(r));
    WholeTake(r.home, n - HomeStart(r));
  }

  lemma WholeTake(s: seq<byte>, n: nat)
    ensures n >= |s| ==> Take(s, n) == s
    ensures |Take(s, n)| == if n < |s| then n else |s|
  {
  }

  lemma {:induction false} DigitsCut(n: nat, k: nat)
    requires 0 < k < |Decimal(n)|
    ensures Numeral(Decimal(n)[..k]) && Value(Decimal(n)[..k]) < n
    decreases n
  {
    var front := Decimal(n / 10);
    assert Decimal(n) == front + [48 + n % 10];
    assert Decimal(n)[..k] == front[..k];
    if k < |front| {
      DigitsCut(n / 10, k);
    } else {
      DecimalParses(n / 10);
      assert front[..k] == front;
    }
  }

  /** The uid that is read from the digits that are left. */
  lemma UidCut(r: Record, k: nat)
    requires r.uid < TWO_TO_THE_64
    ensures UidOf(r.name, From(Take(Decimal(r.uid), k))) == Number(r.uid)
            <==> k >= |Decimal(r.uid)| || (k == 0 && r.uid == UidForName(r.name))
  {
    var d := Decimal(r.uid);
    if k >= |d| {
      UidReads(r.name, r.uid);
    } else if k == 0 {
      assert Take(d, k) == [];
    } else {
      DigitsCut(r.uid, k);
      NumeralUntouched(d[..k]);
    }
  }

  lemma {:induction false} BackShorter(s: seq<byte>)
    ensures |TrimBack(s)| <= |s|
  {
    if s != [] && Blank(s[|s| - 1]) {
      BackShorter(s[..|s| - 1]);
    }
  }

  lemma {:induction false} TrimShorter(s: seq<byte>)
    ensures |TrimFront(s)| <= |s|
  {
    if s != [] && Blank(s[0]) {
      TrimShorter(s[1..]);
    }
  }

  /** A home directory that is cut is another one. */
  lemma HomeCutDiffers(home: seq<byte>, m: nat)
    requires m < |home|
    ensures Take(Trimmed(Take(home, m)), HOME_MAX - 1) != home
  {
    TrimShorter(home[..m]);
    BackShorter(TrimFront(home[..m]));
  }

  /** Which cuts of its line a record is still read from whole. */
  predicate StillReads(r: Record, n: nat) {
    || n >= |Body(r)|
    || (r.uid == UidForName(r.name) && (n == HomeStart(r) + |r.home| || n == HomeStart(r) + |r.home| + 1))
  }

  lemma BodyLength(r: Record)
    ensures |Body(r)| == HomeStart(r) + |r.home| + 1 + |Decimal(r.uid)|
  {
  }

  lemma HomeReads(r: Record, m: nat, uid: Cursor)
    requires WellFormed(r)
    ensures RecordOf(Fields(r.name, RoleText(r.admin), r.hash, Take(r.home, m), uid)) == Found(r)
            <==> m >= |r.home| && UidOf(r.name, uid) == Number(r.uid)
  {
    hide WellFormed;
    hide Blank;
    hide UidOf;
    FieldsInOrder(r);
    hide NameValid;
    RoleReads(r.admin);
    hide RoleText;
    WholeTake(r.home, m);
    hide Take;
    if m < |r.home| {
      HomeCutDiffers(r.home, m);
    } else {
      TrimmedIsSame(r.home);
    }
    hide Trimmed;
  }

  lemma ReadsBody(r: Record, n: nat)
    requires WellFormed(r)
    ensures Reads(Take(Body(r), n)) == if n == 0 then NoRecord else RecordOf(Cut(Take(Body(r), n)))
  {
    BodyEnds(r);
    hide Body;
    hide Cut;
    hide RecordOf;
    hide WellFormed;
  }

  lemma CutReads(r: Record, n: nat)
    requires WellFormed(r)
    ensures Reads(Take(Body(r), n)) == Found(r) <==> StillReads(r, n)
  {
    ReadsBody(r, n);
    BodyLength(r);
    FieldsInOrder(r);
    NoDigits(r);
    hide WellFormed;
    hide Blank;
    hide RecordOf;
    hide UidOf;
    hide Decimal;
    hide RoleText;
    hide Reads;
    hide Take;
    hide Body;
    hide NameValid;
    hide Cut;
    if n < HomeStart(r) {
      CutBeforeHome(r, n);
      NothingOf(NoFields);
    } else {
      CutFields(r, n);
      hide HomeStart;
      var m := n - HomeStart(r);
      if m <= |r.home| {
        HomeReads(r, m, End);
      } else {
        HomeReads(r, m, From(Take(Decimal(r.uid), m - |r.home| - 1)));
        UidCut(r, m - |r.home| - 1);
      }
    }
  }

  lemma NoDigits(r: Record)
    ensures UidOf(r.name, End) == Number(UidForName(r.name)) && HomeStart(r) > 0
  {
  }

  lemma NothingOf(f: Fields)
    ensures f.NoFields? ==> RecordOf(f) == NoRecord
  {
  }

  // ---------- a record's line behind other bytes ----------

  lemma StartOfBody(r: Record, n: nat)
    requires WellFormed(r)
    ensures var u := Take(Body(r), n);
      && First(u) == Take(r.name, n)
      && (After(u).From? ==> n > |r.name| && First(u) == r.name)
      && (After(u).From? ==> First(After(u).rest) == Take(RoleText(r.admin), n - |r.name| - 1))
  {
    BodySplits(r);
    hide WellFormed;
    hide Splits;
    hide Body;
    hide First;
    hide After;
    hide FromRole;
    FieldCut(Body(r), r.name, FromRole(r), n);
    if n > |r.name| {
      FieldCut(FromRole(r), RoleText(r.admin), FromHash(r), n - |r.name| - 1);
    }
  }

  /** No colon: the name that is read is longer. */
  lemma LongerName(t: seq<byte>, r: Record, n: nat)
    requires WellFormed(r) && t != [] && After(t).End?
    ensures !Gives(RecordOf(Cut(t + Take(Body(r), n))), r.name)
  {
    hide WellFormed;
    hide Body;
    hide First;
    hide After;
    hide Trimmed;
    hide UidOf;
    hide NameValid;
    StartOfBody(r, n);
    AfterAppend(t, Take(Body(r), n));
  }

  lemma RoleIsShort(admin: bool, n: nat)
    ensures |Take(RoleText(admin), n)| < HASH_LEN
    ensures forall b :: b in Take(RoleText(admin), n) ==> NameByte(b)
  {
  }

  /** One colon: the role stands where the hash should. */
  lemma RoleForHash(t: seq<byte>, r: Record, n: nat)
    requires WellFormed(r) && After(t).From? && After(After(t).rest).End?
    ensures RecordOf(Cut(t + Take(Body(r), n))) == NoRecord
  {
    hide WellFormed;
    hide Body;
    hide First;
    hide After;
    hide Take;
    hide Trimmed;
    hide UidOf;
    hide NameValid;
    hide RoleText;
    var u := Take(Body(r), n);
    StartOfBody(r, n);
    AfterAppend(t, u);
    AfterAppend(After(t).rest, u);
    if After(u).From? {
      RoleIsShort(r.admin, n - |r.name| - 1);
    }
  }

  lemma NoSlash(s: seq<byte>)
    requires forall b :: b in s ==> NameByte(b)
    ensures Trimmed(s) == [] || Trimmed(s)[0] != SLASH
  {
    if s != [] {
      assert NameByte(s[0]) && NameByte(s[|s| - 1]);
    }
    TrimmedIsSame(s);
  }

  /** Two colons: the role stands where the home directory should. */
  lemma RoleForHome(t: seq<byte>, r: Record, n: nat)
    requires WellFormed(r) && After(t).From? && After(After(t).rest).From? && After(After(After(t).rest).rest).End?
    ensures RecordOf(Cut(t + Take(Body(r), n))) == NoRecord
  {
    hide WellFormed;
    hide Body;
    hide First;
    hide After;
    hide Take;
    hide Trimmed;
    hide UidOf;
    hide NameValid;
    hide RoleText;
    hide NameByte;
    var u := Take(Body(r), n);
    StartOfBody(r, n);
    var x1 := After(t).rest;
    var x2 := After(x1).rest;
    AfterAppend(t, u);
    AfterAppend(x1, u);
    AfterAppend(x2, u);
    if After(u).From? {
      RoleIsShort(r.admin, n - |r.name| - 1);
      NoSlash(First(After(u).rest));
    }
  }

  lemma TrimmedFirst(x: seq<byte>)
    ensures Trimmed(x) == [] <==> TrimFront(x) == []
    ensures Trimmed(x) != [] ==> Trimmed(x)[0] == TrimFront(x)[0]
  {
    FrontEmpty(x);
    var t := TrimFront(x);
    if t != [] {
      BackKeeps(t, t[..1]);
    }
  }

  /** A home directory that bytes of a name complete was one before. */
  lemma HomeBefore(x: seq<byte>, p: seq<byte>)
    requires forall b :: b in p ==> NameByte(b)
    requires Trimmed(x + p) != [] && Trimmed(x + p)[0] == SLASH
    ensures Trimmed(x) != [] && Trimmed(x)[0] == SLASH
  {
    TrimmedFirst(x + p);
    TrimmedFirst(x);
    FrontAppend(x, p);
    if TrimFront(x) == [] {
      NoSlash(p);
      TrimmedFirst(p);
    }
  }

  lemma NamePrefix(r: Record, n: nat)
    requires WellFormed(r)
    ensures forall b :: b in Take(r.name, n) ==> NameByte(b)
  {
  }

  /** A number that more bytes complete was one before. */
  lemma UidBefore(name: seq<byte>, x: seq<byte>, u: seq<byte>)
    requires UidOf(name, From(x + u)).Number?
    ensures UidOf(name, From(x)).Number?
  {
    if Trimmed(x) != [] {
      FrontAppend(x, u);
      TrimmedFirst(x);
      TrimmedFirst(x + u);
      var t := Trimmed(x);
      BackEnds(TrimFront(x));
      assert t <= TrimFront(x) + u;
      BackKeeps(TrimFront(x) + u, t);
      var whole := Trimmed(x + u);
      assert whole[..|t|] == t;
      ValueGrows(whole, |t|);
    }
  }

  /** The text behind the third colon. */
  predicate HomeAt(t: seq<byte>, x: seq<byte>) {
    && After(t).From? && After(After(t).rest).From?
    && After(After(After(t).rest).rest) == From(x)
  }

  lemma ThreeColons(t: seq<byte>, x: seq<byte>, u: seq<byte>)
    requires HomeAt(t, x)
    ensures var role, hash := First(After(t).rest), First(After(After(t).rest).rest);
      Cut(t) == WithHome(First(t), role, hash, x) && Cut(t + u) == WithHome(First(t), role, hash, x + u)
  {
    hide First;
    hide After;
    var x1 := After(t).rest;
    AfterAppend(t, u);
    AfterAppend(x1, u);
    AfterAppend(After(x1).rest, u);
  }

  /** Three colons: the name continues a home directory, which was one without it. */
  lemma NameForHome(name: seq<byte>, role: seq<byte>, hash: seq<byte>, x: seq<byte>, r: Record, n: nat)
    requires WellFormed(r) && After(x).End? && RecordOf(WithHome(name, role, hash, x + Take(Body(r), n))).Found?
    ensures RecordOf(WithHome(name, role, hash, x)).Found?
  {
    hide WellFormed;
    hide Body;
    hide First;
    hide After;
    hide Trimmed;
    hide UidOf;
    hide NameValid;
    hide NameByte;
    StartOfBody(r, n);
    NamePrefix(r, n);
    hide Take;
    NoUid(name);
    AfterAppend(x, Take(Body(r), n));
    HomeBefore(x, First(Take(Body(r), n)));
  }

  lemma NoUid(name: seq<byte>)
    ensures UidOf(name, End).Number?
  {
  }

  /** Four colons: what follows can only spoil the number, which was one without it. */
  lemma MoreForUid(name: seq<byte>, role: seq<byte>, hash: seq<byte>, x: seq<byte>, u: seq<byte>)
    requires After(x).From? && RecordOf(WithHome(name, role, hash, x + u)).Found?
    ensures RecordOf(WithHome(name, role, hash, x)).Found?
  {
    hide First;
    hide After;
    hide Trimmed;
    hide NameValid;
    hide UidOf;
    hide Take;
    AfterAppend(x, u);
    UidBefore(name, After(x).rest, u);
  }

  lemma NameRead(name: seq<byte>, role: seq<byte>, hash: seq<byte>, x: seq<byte>)
    ensures var found := RecordOf(WithHome(name, role, hash, x)); found.Found? ==> found.r.name == name
  {
  }

  lemma ReadsFront(t: seq<byte>, u: seq<byte>)
    requires t != []
    ensures Reads(t) == if t[0] == HASH_SIGN then NoRecord else RecordOf(Cut(t))
    ensures Reads(t + u) == if t[0] == HASH_SIGN then NoRecord else RecordOf(Cut(t + u))
  {
    assert (t + u)[0] == t[0];
  }

  /** Behind a text that does not give the record, its line does not either. */
  lemma MissesName(t: seq<byte>, r: Record, n: nat)
    requires WellFormed(r) && t != [] && !Gives(Reads(t), r.name)
    ensures !Gives(Reads(t + Take(Body(r), n)), r.name)
  {
    hide WellFormed;
    hide RecordOf;
    hide Cut;
    hide Take;
    hide Body;
    hide Reads;
    hide After;
    hide First;
    hide Gives;
    var u := Take(Body(r), n);
    ReadsFront(t, u);
    GivesNothing(r.name);
    var c1 := After(t);
    if t[0] == HASH_SIGN {
    } else if c1.End? {
      LongerName(t, r, n);
    } else {
      var c2 := After(c1.rest);
      if c2.End? {
        RoleForHash(t, r, n);
      } else if After(c2.rest).End? {
        RoleForHome(t, r, n);
      } else {
        AfterHome(t, After(c2.rest).rest, r, n);
      }
    }
  }

  lemma GivesNothing(name: seq<byte>)
    ensures !Gives(NoRecord, name)
  {
  }

  lemma AfterHome(t: seq<byte>, x: seq<byte>, r: Record, n: nat)
    requires WellFormed(r) && HomeAt(t, x) && !Gives(RecordOf(Cut(t)), r.name)
    ensures !Gives(RecordOf(Cut(t + Take(Body(r), n))), r.name)
  {
    var u, role, hash := Take(Body(r), n), First(After(t).rest), First(After(After(t).rest).rest);
    ThreeColons(t, x, u);
    NameRead(First(t), role, hash, x);
    NameRead(First(t), role, hash, x + u);
    hide WellFormed;
    hide RecordOf;
    hide Cut;
    hide Take;
    hide Body;
    hide WithHome;
    hide First;
    if RecordOf(WithHome(First(t), role, hash, x + u)).Found? {
      if After(x).End? {
        NameForHome(First(t), role, hash, x, r, n);
      } else {
        MoreForUid(First(t), role, hash, x, u);
      }
    }
  }

  // ---------- a file that does not end with a newline ----------

  predicate AllBlank(s: seq<byte>) { forall b :: b in s ==> Blank(b) }

  /** How much of the new line is in the line buffer, behind the bytes that were there. */
  function Visible(last: seq<byte>): nat { if |last| < RECORD_MAX then RECORD_MAX - 1 - |last| else 0 }

  lemma BufferedTail(last: seq<byte>, r: Record)
    requires WellFormed(r)
    ensures NoNul(last) && |last| < RECORD_MAX ==> Buffered(last + Body(r)) == last + Take(Body(r), Visible(last))
    ensures !NoNul(last) || |last| >= RECORD_MAX ==> Buffered(last + Body(r)) == Buffered(last)
  {
    BodyClean(r);
    hide WellFormed;
    hide Body;
    var b := Body(r);
    if |last| >= RECORD_MAX - 1 {
      assert Take(last + b, RECORD_MAX - 1) == last[..RECORD_MAX - 1];
    }
    if |last| < RECORD_MAX {
      assert Take(last + b, RECORD_MAX - 1) == last + Take(b, Visible(last));
      if NoNul(last) {
        StrIs(last + Take(b, Visible(last)), last + Take(b, Visible(last)));
      } else {
        StrIs(last + Take(b, Visible(last)), Str(last));
        assert Take(last, RECORD_MAX - 1) == last;
      }
    }
  }

  lemma TakeAll(s: seq<byte>)
    requires |s| < RECORD_MAX
    ensures Take(s, RECORD_MAX - 1) == s
  {
  }

  lemma BlankNoNul(last: seq<byte>)
    requires AllBlank(last)
    ensures NoNul(last)
  {
    forall k | 0 <= k < |last| ensures last[k] != 0 {
      assert Blank(last[k]);
    }
  }

  /** Behind blanks the record's line is read as if it began there, with what the line buffer holds of it. */
  lemma BehindBlanks(last: seq<byte>, r: Record)
    requires WellFormed(r) && AllBlank(last)
    ensures Entry(last + Body(r)) == Reads(Take(Body(r), Visible(last)))
  {
    BlankNoNul(last);
    BufferedTail(last, r);
    FrontEmpty(last);
    FrontEmpty(Take(last, RECORD_MAX - 1));
    BodyEnds(r);
    hide WellFormed;
    hide Body;
    hide Reads;
    var p := Take(Body(r), Visible(last));
    FrontAppend(last, p);
    if |last| < RECORD_MAX {
      ParseIs(last + p);
      TakeAll(last + p);
    } else {
      BufferedBlank(last);
      assert p == [];
      ParseIs(Take(last, RECORD_MAX - 1));
      TakeAll(Take(last, RECORD_MAX - 1));
    }
  }

  lemma BufferedBlank(last: seq<byte>)
    requires NoNul(last)
    ensures Buffered(last) == Take(last, RECORD_MAX - 1)
  {
    BufferedStays(Take(last, RECORD_MAX - 1));
  }

  /** Behind anything else the record is not read, whatever those bytes are. */
  lemma BehindOthers(last: seq<byte>, r: Record)
    requires WellFormed(r) && !AllBlank(last) && !Gives(Entry(last), r.name)
    ensures !Gives(Entry(last + Body(r)), r.name)
  {
    BufferedTail(last, r);
    if NoNul(last) && |last| < RECORD_MAX {
      var p := Take(Body(r), Visible(last));
      FrontEmpty(last);
      BufferedBlank(last);
      TakeAll(last);
      TakeAll(last + p);
      ParseIs(last);
      ParseIs(last + p);
      FrontAppend(last, p);
      hide WellFormed;
      hide Body;
      hide Reads;
      hide ParseRecord;
      MissesName(TrimFront(last), r, Visible(last));
    }
  }

  /** What stands behind the last newline of a file. */
  function Unended(db: seq<byte>): seq<byte>
    decreases |db|
  {
    if LineEnd(db) == |db| then db else Unended(db[LineEnd(db) + 1..])
  }

  function Ended(db: seq<byte>): seq<seq<byte>>
    decreases |db|
  {
    if LineEnd(db) == |db| then [] else [db[..LineEnd(db)]] + Ended(db[LineEnd(db) + 1..])
  }

  lemma {:induction false} LinesAppend(db: seq<byte>, x: seq<byte>)
    ensures Lines(db + x) == Ended(db) + Lines(Unended(db) + x) && NEWLINE !in Unended(db)
    decreases |db|
  {
    hide Lines;
    var e := LineEnd(db);
    if e == |db| {
      assert [] + Lines(db + x) == Lines(db + x);
    } else {
      var s := db + x;
      assert s[..e] == db[..e] && s[e + 1..] == db[e + 1..] + x;
      LinesAt(s, e);
      LinesAppend(db[e + 1..], x);
      assert [db[..e]] + (Ended(db[e + 1..]) + Lines(Unended(db) + x)) == Ended(db) + Lines(Unended(db) + x);
    }
  }

  lemma LinesOf(db: seq<byte>)
    ensures Lines(db) == Ended(db) + [Unended(db)]
  {
    LinesAppend(db, []);
    assert db + [] == db && Unended(db) + [] == Unended(db);
    NoLineEnd(Unended(db));
  }

  /** The file once clks_user_create has added its line. */
  function WithLine(db: seq<byte>, r: Record): seq<byte> { db + Take(Line(r), RECORD_MAX - 1) }

  lemma FindCreated(db: seq<byte>, r: Record, name: seq<byte>)
    requires WellFormed(r) && |Line(r)| < RECORD_MAX
    ensures FindIn(Lines(WithLine(db, r)), name) ==
            if FindIn(Ended(db), name).Found? then FindIn(Ended(db), name)
            else if Gives(Entry(Unended(db) + Body(r)), name) then Entry(Unended(db) + Body(r)) else NoRecord
    ensures FindIn(Lines(db), name) ==
            if FindIn(Ended(db), name).Found? then FindIn(Ended(db), name)
            else if Gives(Entry(Unended(db)), name) then Entry(Unended(db)) else NoRecord
  {
    hide WellFormed;
    hide Lines;
    hide Ended;
    hide Unended;
    hide Body;
    hide Line;
    hide Take;
    hide Entry;
    var last := Unended(db);
    NewLineReads(r);
    LinesAppend(db, Take(Line(r), RECORD_MAX - 1));
    Associative(last, Body(r), [NEWLINE]);
    OneLine(last + Body(r));
    LinesOf(db);
    FindInConcat(Ended(db), [last + Body(r), []], name);
    FindInConcat(Ended(db), [last], name);
    NothingFound(last + Body(r), name);
    FindFirst(last, [], name);
    assert [last] + [] == [last];
  }

  /** What clks_user_create needs of the bytes behind the last newline: blanks, and few enough of them. */
  predicate TakesRecord(last: seq<byte>, r: Record) { AllBlank(last) && StillReads(r, Visible(last)) }

  /** The lines of the file: the new record's is read, and every other name as before. */
  ghost predicate LinesInsert(db: seq<byte>, r: Record) {
    forall name: seq<byte> ::
      FindIn(Lines(WithLine(db, r)), name) == if name == r.name then Found(r) else FindIn(Lines(db), name)
  }

  lemma LinesInsertIff(db: seq<byte>, r: Record)
    requires WellFormed(r) && |Line(r)| < RECORD_MAX && FindIn(Lines(db), r.name) == NoRecord
    ensures LinesInsert(db, r) <==> TakesRecord(Unended(db), r)
    ensures !TakesRecord(Unended(db), r) ==> FindIn(Lines(WithLine(db, r)), r.name) != Found(r)
    ensures !AllBlank(Unended(db)) ==> FindIn(Lines(WithLine(db, r)), r.name) == NoRecord
  {
    hide WellFormed;
    hide Lines;
    hide Ended;
    hide Unended;
    hide Body;
    hide Line;
    hide Entry;
    hide FindIn;
    hide WithLine;
    hide Visible;
    hide StillReads;
    hide AllBlank;
    var last := Unended(db);
    FindCreated(db, r, r.name);
    if AllBlank(last) {
      BlankEntry(last);
      BehindBlanks(last, r);
      CutReads(r, Visible(last));
      hide Take;
      hide Reads;
      if StillReads(r, Visible(last)) {
        forall name: seq<byte> ensures FindIn(Lines(WithLine(db, r)), name)
                                       == if name == r.name then Found(r) else FindIn(Lines(db), name) {
          FindCreated(db, r, name);
        }
      }
    } else {
      BehindOthers(last, r);
    }
  }

  /** The bytes clks_user_create appends to: clks_user_db_ensure has made an empty file if there was none. */
  function Bytes(file: File): seq<byte> { if file.Content? then file.bytes else [] }

  /** clks_user_find gives the new record for its name, and for every other name what it gave before. */
  ghost predicate Inserts(before: File, after: File, r: Record) {
    forall name: seq<byte> :: LookUp(after, name) == if name == r.name then Found(r) else LookUp(before, name)
  }

  /** What clks_user_create needs of the file: room for the line below 4096 bytes, and few blanks at its end at most. */
  predicate TakesLine(db: seq<byte>, r: Record) { |WithLine(db, r)| < DB_SIZE && TakesRecord(Unended(db), r) }

  /**
   A name that clks_user_find did not give: the added line makes it found, and changes no other name, if and only if the
   file stays below 4096 bytes and nothing but a few blanks stands behind its last newline. Beyond 4096 bytes no name is
   found any more; behind other bytes the new one is not.
   */
  lemma CreateInsertsIff(before: File, r: Record)
    requires WellFormed(r) && |Line(r)| < RECORD_MAX && LookUp(before, r.name) == NoRecord
    ensures var db := Bytes(before);
      var after := Content(WithLine(db, r));
      && (Inserts(before, after, r) <==> TakesLine(db, r))
      && (|WithLine(db, r)| >= DB_SIZE ==> forall name: seq<byte> :: LookUp(after, name) == NoRecord)
      && (!AllBlank(Unended(db)) ==> LookUp(after, r.name) == NoRecord)
  {
    hide Lines;
    hide FindIn;
    hide Line;
    hide Take;
    hide TakesRecord;
    hide AllBlank;
    hide Unended;
    FieldsInOrder(r);
    hide WellFormed;
    hide NameValid;
    var db := Bytes(before);
    var after := Content(WithLine(db, r));
    if |WithLine(db, r)| >= DB_SIZE {
      assert LookUp(after, r.name) == NoRecord;
    } else {
      SameAsBytes(before);
      LinesInsertIff(db, r);
      if TakesRecord(Unended(db), r) {
        forall name: seq<byte> ensures LookUp(after, name)
                                       == if name == r.name then Found(r) else LookUp(before, name) {
          assert LookUp(Content(db), name) == LookUp(before, name);
        }
      } else {
        assert LookUp(after, r.name) != Found(r);
      }
    }
  }

  /** A missing file and an empty one have the same names: none. */
  lemma SameAsBytes(file: File)
    ensures forall name: seq<byte> :: LookUp(file, name) == LookUp(Content(Bytes(file)), name)
  {
    NoEntry();
    BufferedStays([]);
    if file.NoFile? {
      forall name: seq<byte> ensures FindIn(Lines([]), name) == NoRecord {
      }
    }
  }

  lemma BlankEntry(last: seq<byte>)
    requires AllBlank(last)
    ensures Entry(last) == NoRecord
  {
    BlankNoNul(last);
    BufferedBlank(last);
    TakeAll(Take(last, RECORD_MAX - 1));
    ParseIs(Take(last, RECORD_MAX - 1));
    FrontEmpty(Take(last, RECORD_MAX - 1));
  }

  lemma {:induction false} FewDigits(n: nat)
    requires n < 100000
    ensures |Decimal(n)| <= 5
  {
    assert |Decimal(n / 10000)| == 1;
    if n >= 10 {
      assert Decimal(n) == Decimal(n / 10) + [48 + n % 10];
    }
    if n >= 100 {
      assert Decimal(n / 10) == Decimal(n / 10 / 10) + [48 + n / 10 % 10];
    }
    if n >= 1000 {
      assert Decimal(n / 100) == Decimal(n / 100 / 10) + [48 + n / 100 % 10];
    }
    if n >= 10000 {
      assert Decimal(n / 1000) == Decimal(n / 1000 / 10) + [48 + n / 1000 % 10];
    }
  }

  const HOME: seq<byte> := [47, 104, 111, 109, 101, 47]

  /** clks_user_hash_password puts out lower-case hexadecimal digits. */
  predicate HexHash(hash: seq<byte>) {
    |hash| == HASH_LEN && forall k :: 0 <= k < |hash| ==> 48 <= hash[k] <= 57 || 97 <= hash[k] <= 102
  }

  /** The record clks_user_create makes. */
  function MadeRecord(name: seq<byte>, admin: bool, hash: seq<byte>): Record {
    Record(name, admin, hash, HOME + name, UidForName(name))
  }

  lemma MadeWellFormed(name: seq<byte>, admin: bool, hash: seq<byte>)
    requires NameValid(name) && HexHash(hash)
    ensures var r := MadeRecord(name, admin, hash); WellFormed(r) && |Line(r)| < RECORD_MAX
  {
    var r := MadeRecord(name, admin, hash);
    hide UidForName;
    forall b | b in r.home ensures b != COLON && b != NEWLINE && b != 0 {
      assert b in HOME || b in name;
    }
    assert NoNul(r.home) && r.home[|r.home| - 1] == name[|name| - 1] && NameByte(name[|name| - 1]);
    FewDigits(r.uid);
    BodyLength(r);
  }

  /**
   clks_user_create. `allowed` stands for the caller's rights and a password that is not empty; `made`, `homes` and
   `stored` say whether the file system makes the empty database, the home directories, and takes the line.
   */
  method CreateUser(d: Database, name: seq<byte>, admin: bool, hash: seq<byte>,
                    allowed: bool, made: bool, homes: bool, stored: bool)
    returns (ok: bool)
    requires HexHash(hash)
    modifies d
    ensures ok <==> allowed && NameValid(name) && (old(d.file).Content? || made)
                    && LookUp(old(d.file), name) == NoRecord && homes && stored
    ensures !ok ==> d.file == old(d.file) || (old(d.file) == NoFile && d.file == Content([]))
    ensures ok ==>
      var r := MadeRecord(name, admin, hash);
      && d.file == Content(WithLine(Bytes(old(d.file)), r))
      && (Inserts(old(d.file), d.file, r) <==> TakesLine(Bytes(old(d.file)), r))
      && (|d.file.bytes| >= DB_SIZE ==> forall other: seq<byte> :: LookUp(d.file, other) == NoRecord)
      && (!AllBlank(Unended(Bytes(old(d.file)))) ==> LookUp(d.file, name) == NoRecord)
  {
    hide NameValid;
    hide Line;
    hide Take;
    hide WellFormed;
    hide HexHash;
    hide LookUp;
    hide Inserts;
    hide TakesLine;
    hide Unended;
    hide AllBlank;
    ghost var before := d.file;
    SameAsBytes(before);
    if !allowed || !NameValid(name) {
      return false;
    }
    if d.file.NoFile? {
      if !made {
        return false;
      }
      d.file := Content([]);
    }
    var existing := d.Find(name);
    if existing.Found? || !homes {
      return false;
    }
    var r := MadeRecord(name, admin, hash);
    MadeWellFormed(name, admin, hash);
    CreateInsertsIff(before, r);
    var line := RecordLine(r, RECORD_MAX);
    if stored {
      d.file := Content(d.file.bytes + line);
    }
    return stored;
  }

  // ---------- a line that is too long ----------

  /** What clks_user_find gives for a name after the rewrite is what a map with the change would give. */
  ghost predicate IsMapUpdate(db: seq<byte>, c: Change, name: seq<byte>) {
    LookUp(Content(EmitAll(Lines(db), c)), name) ==
    if name != Key(c) then LookUp(Content(db), name) else if c.Replace? then Found(c.r) else NoRecord
  }

  /** The record with the shortest home directory and uid. */
  function Short(r: Record): Record { r.(home := [SLASH], uid := 0) }

  /** A record of another name. */
  function Another(r: Record): Record {
    Record(if r.name == [97] then [98] else [97], false, seq(HASH_LEN, _ => 97), [SLASH], 0)
  }

  lemma ShortFits(r: Record)
    requires WellFormed(r)
    ensures WellFormed(Short(r)) && |Line(Short(r))| < RECORD_MAX
    ensures WellFormed(Another(r)) && |Line(Another(r))| < RECORD_MAX && Another(r).name != r.name
  {
    var o := Another(r);
    assert o.name[0] == 97 || o.name[0] == 98;
    assert |Decimal(0)| == 1;
    BodyLength(Short(r));
    BodyLength(o);
  }

  /** Two lines, each with its newline. */
  function TwoLines(a: seq<byte>, b: seq<byte>): seq<byte> { a + [NEWLINE] + (b + [NEWLINE]) }

  lemma TwoLinesAre(a: seq<byte>, b: seq<byte>)
    requires NEWLINE !in a && NEWLINE !in b
    ensures Lines(TwoLines(a, b)) == [a, b, []]
  {
    hide Lines;
    LinesFirst(a, b + [NEWLINE]);
    OneLine(b);
    assert [a] + [b, []] == [a, b, []];
  }

  /** A cut line gives its own record or none, whatever follows it. */
  lemma CutLineName(r: Record, behind: seq<byte>)
    requires WellFormed(r) && |Line(r)| >= RECORD_MAX
    ensures var found := Entry(Take(Line(r), RECORD_MAX - 1) + behind); found.Found? ==> found.r.name == r.name
  {
    BodyClean(r);
    var cut := Take(Body(r), RECORD_MAX - 1);
    assert Take(Line(r), RECORD_MAX - 1) == cut;
    assert Take(cut + behind, RECORD_MAX - 1) == cut;
    StrIs(cut, cut);
    assert Buffered(cut + behind) == cut;
    hide Buffered;
    CutName(r, RECORD_MAX - 1);
  }

  lemma CutName(r: Record, n: nat)
    requires WellFormed(r) && 0 < n < RECORD_MAX
    ensures var found := ParseRecord(Take(Body(r), n)); found.Found? ==> found.r.name == r.name
  {
    var cut := Take(Body(r), n);
    BodyEnds(r);
    ParseIs(cut);
    TakeAll(cut);
    ReadsBody(r, n);
    hide WellFormed;
    hide Reads;
    hide RecordOf;
    hide Cut;
    hide ParseRecord;
    if n >= HomeStart(r) {
      CutBeforeHome(r, n);
      NameRead(r.name, RoleText(r.admin), r.hash, Take(FromHome(r), n - HomeStart(r)));
    } else {
      CutBeforeHome(r, n);
      NothingOf(NoFields);
    }
  }

  lemma EmitThree(a: seq<byte>, b: seq<byte>, c: Change)
    ensures EmitAll([a, b, []], c) == Emit(a, c) + Emit(b, c)
  {
    NoEntry();
    BufferedStays([]);
    hide Entry;
    var pieces: seq<seq<byte>> := [a, b, []];
    var nothing: seq<seq<byte>> := [[]];
    assert pieces[1..] == [b, []] && pieces[1..][1..] == nothing && nothing[1..] == [];
    assert EmitAll(nothing, c) == Emit([], c) + EmitAll([], c);
    hide Emit;
    assert EmitAll(pieces[1..], c) == Emit(b, c) + EmitAll(nothing, c);
  }

  /** What becomes of the two lines. */
  lemma SwallowedFile(r: Record)
    requires WellFormed(r) && |Line(r)| >= RECORD_MAX
    ensures var o, c := Another(r), Replace(r);
      EmitAll([Body(Short(r)), Body(o), []], c) == Take(Line(r), RECORD_MAX - 1) + (Body(o) + [NEWLINE])
  {
    var s, o, c := Short(r), Another(r), Replace(r);
    ShortFits(r);
    NewLineReads(s);
    NewLineReads(o);
    BodyClean(o);
    BodyShort(o);
    hide WellFormed;
    hide Lines;
    hide Entry;
    hide Line;
    hide Body;
    hide Take;
    hide Buffered;
    EmitThree(Body(s), Body(o), c);
  }

  /** The file that is rewritten, and what becomes of it. */
  lemma SwallowedAfter(r: Record)
    requires WellFormed(r) && |Line(r)| >= RECORD_MAX
    ensures var o := Another(r);
      var db := TwoLines(Body(Short(r)), Body(o));
      && FindIn(Lines(db), o.name) == Found(o)
      && FindIn(Lines(EmitAll(Lines(db), Replace(r))), o.name) == NoRecord
  {
    hide WellFormed;
    hide Lines;
    hide Entry;
    hide Line;
    hide Body;
    hide Take;
    hide TwoLines;
    hide FindIn;
    hide EmitAll;
    var s, o, c := Short(r), Another(r), Replace(r);
    var cut := Take(Line(r), RECORD_MAX - 1);
    ShortFits(r);
    NewLineReads(s);
    NewLineReads(o);
    TwoLinesAre(Body(s), Body(o));
    FindFirst(Body(s), [Body(o), []], o.name);
    assert [Body(s)] + [Body(o), []] == [Body(s), Body(o), []];
    NothingFound(Body(o), o.name);
    SwallowedFile(r);
    CutLine(r);
    Associative(cut, Body(o), [NEWLINE]);
    OneLine(cut + Body(o));
    NothingFound(cut + Body(o), o.name);
    CutLineName(r, Body(o));
    assert o.name != r.name;
  }

  lemma BodyShort(r: Record)
    requires |Line(r)| < RECORD_MAX && NoNul(Body(r)) && WellFormed(r)
    ensures Buffered(Body(r)) == Body(r) && Body(r) != []
  {
    BufferedStays(Body(r));
  }

  lemma BulkThree(a: seq<byte>, b: seq<byte>, c: Change)
    ensures BulkAll([a, b, []], c) == Bulk(a, c) + Bulk(b, c)
  {
    NoEntry();
    BufferedStays([]);
    assert Bulk([], c) == 0;
    hide Bulk;
    var last: seq<seq<byte>> := [[]];
    assert last == [[]] + [] && [b, []] == [b] + last && [a, b, []] == [a] + [b, []];
    BulkFirst([], [], c);
    BulkFirst(b, last, c);
    BulkFirst(a, [b, []], c);
  }

  lemma BulkSmall(piece: seq<byte>, c: Change)
    ensures Bulk(piece, c) <= RECORD_MAX
  {
  }

  lemma TwoLinesSize(a: seq<byte>, b: seq<byte>)
    requires |a| < RECORD_MAX && |b| < RECORD_MAX
    ensures |TwoLines(a, b)| < DB_SIZE
  {
  }

  lemma HitAt(pieces: seq<seq<byte>>, c: Change, k: nat)
    requires k < |pieces| && Concerns(pieces[k], c)
    ensures Hit(pieces, c)
  {
  }

  lemma SmallFiles(r: Record)
    requires WellFormed(r) && |Line(r)| >= RECORD_MAX
    ensures var db, c := TwoLines(Body(Short(r)), Body(Another(r))), Replace(r);
      Rewritable(Content(db), c) && |EmitAll(Lines(db), c)| < DB_SIZE
  {
    hide WellFormed;
    hide Lines;
    hide Entry;
    hide Body;
    hide Take;
    hide Bulk;
    hide BulkAll;
    hide EmitAll;
    hide TwoLines;
    hide Hit;
    var s, o, c := Short(r), Another(r), Replace(r);
    ShortFits(r);
    TwoLinesSize(Body(s), Body(o));
    NewLineReads(s);
    NewLineReads(o);
    hide Line;
    TwoLinesAre(Body(s), Body(o));
    var pieces := [Body(s), Body(o), []];
    HitAt(pieces, c, 0);
    BulkSmall(Body(s), c);
    BulkSmall(Body(o), c);
    BulkThree(Body(s), Body(o), c);
    EmitFits(pieces, c);
  }

  /** A rewrite that succeeds updates the map, if the line it puts in fits. */
  lemma RewriteUpdates(db: seq<byte>, c: Change, name: seq<byte>)
    requires Rewritable(Content(db), c) && Fits(c)
    ensures IsMapUpdate(db, c, name)
  {
    RewriteIsMapUpdate(db, c, name);
    EmitFits(Lines(db), c);
  }

  /**
   Changing a record changes what clks_user_find gives for its name and nothing else, for every rewrite that succeeds
   and every name, exactly if the record's line fits.
   */
  lemma ReplaceIsMapUpdateIff(r: Record)
    requires WellFormed(r)
    ensures (forall db: seq<byte>, name: seq<byte> ::
               Rewritable(Content(db), Replace(r)) ==> IsMapUpdate(db, Replace(r), name))
            <==> |Line(r)| < RECORD_MAX
  {
    if |Line(r)| < RECORD_MAX {
      forall db: seq<byte>, name: seq<byte> | Rewritable(Content(db), Replace(r))
        ensures IsMapUpdate(db, Replace(r), name)
      {
        RewriteUpdates(db, Replace(r), name);
      }
    } else {
      SwallowedAfter(r);
      ShortFits(r);
      SmallFiles(r);
      var o, c := Another(r), Replace(r);
      var db := TwoLines(Body(Short(r)), Body(o));
      hide Lines;
      hide FindIn;
      hide EmitAll;
      hide Body;
      hide Line;
      assert NameValid(o.name);
      hide WellFormed;
      hide NameValid;
      assert Rewritable(Content(db), c) && !IsMapUpdate(db, c, o.name);
    }
  }
}
