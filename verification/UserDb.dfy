/** The user database file: looking a name up, and rewriting the file with one record replaced or removed. */
module UserDb {
  import opened ByteStrings
  import opened UserText
  import opened UserRecords

  const DB_SIZE := 4096

  datatype Change = Replace(r: Record) | Remove(who: seq<byte>)

  datatype File = NoFile | Content(bytes: seq<byte>)

  function Key(c: Change): seq<byte> { if c.Replace? then c.r.name else c.who }

  function LineEnd(s: seq<byte>): (e: nat)
    ensures e <= |s| && (e < |s| ==> s[e] == NEWLINE) && forall k :: 0 <= k < e ==> s[k] != NEWLINE
  {
    if s == [] || s[0] == NEWLINE then 0 else 1 + LineEnd(s[1..])
  }

  /** The pieces between newlines, the one behind the last newline included. */
  function Lines(s: seq<byte>): seq<seq<byte>>
    decreases |s|
  {
    if LineEnd(s) == |s| then [s] else [s[..LineEnd(s)]] + Lines(s[LineEnd(s) + 1..])
  }

  lemma LineEndIs(s: seq<byte>, e: nat)
    requires e <= |s| && (e < |s| ==> s[e] == NEWLINE) && forall k :: 0 <= k < e ==> s[k] != NEWLINE
    ensures LineEnd(s) == e
  {
  }

  /** A piece as the line buffer holds it. */
  function Buffered(piece: seq<byte>): seq<byte> { Str(Take(piece, RECORD_MAX - 1)) }

  function Entry(piece: seq<byte>): UserRecords.Read { ParseRecord(Buffered(piece)) }

  /** The first record of that name. */
  function FindIn(pieces: seq<seq<byte>>, name: seq<byte>): UserRecords.Read {
    if pieces == [] then NoRecord
    else if Entry(pieces[0]).Found? && Entry(pieces[0]).r.name == name then Entry(pieces[0])
    else FindIn(pieces[1..], name)
  }

  predicate Concerns(piece: seq<byte>, c: Change) { Entry(piece).Found? && Entry(piece).r.name == Key(c) }

  /** What a piece becomes in the new file. */
  function Emit(piece: seq<byte>, c: Change): seq<byte> {
    if Concerns(piece, c) then (if c.Replace? then Take(Line(c.r), RECORD_MAX - 1) else [])
    else if Buffered(piece) == [] then []
    else Buffered(piece) + [NEWLINE]
  }

  function EmitAll(pieces: seq<seq<byte>>, c: Change): seq<byte> {
    if pieces == [] then [] else Emit(pieces[0], c) + EmitAll(pieces[1..], c)
  }

  predicate Hit(pieces: seq<seq<byte>>, c: Change) { exists k :: 0 <= k < |pieces| && Concerns(pieces[k], c) }

  // ---------- the rewritten file is the updated map ----------

  /** The new record has a line that fits the line buffer, newline and all. */
  predicate Fits(c: Change) { c.Replace? ==> WellFormed(c.r) && |Line(c.r)| < RECORD_MAX }

  lemma LinesFirst(first: seq<byte>, rest: seq<byte>)
    requires NEWLINE !in first
    ensures Lines(first + [NEWLINE] + rest) == [first] + Lines(rest)
  {
    var s := first + [NEWLINE] + rest;
    LineEndIs(s, |first|);
    assert s[..|first|] == first && s[|first| + 1..] == rest;
  }

  lemma BufferedStays(s: seq<byte>)
    requires NoNul(s) && |s| < RECORD_MAX
    ensures Buffered(s) == s
  {
    StrIs(s, s);
  }

  lemma BufferedTwice(piece: seq<byte>)
    ensures Buffered(Buffered(piece)) == Buffered(piece) && (NEWLINE !in piece ==> NEWLINE !in Buffered(piece))
  {
    BufferedStays(Buffered(piece));
  }

  lemma NoEntry()
    ensures Entry([]) == NoRecord
  {
  }

  lemma BodyClean(r: Record)
    requires WellFormed(r)
    ensures NoNul(Body(r)) && NEWLINE !in Body(r)
  {
    var d := Decimal(r.uid);
    assert forall b :: b in d ==> Digit(b);
    assert forall b :: b in r.name ==> NameByte(b);
    assert forall b :: b in RoleText(r.admin) ==> NameByte(b);
    hide Decimal;
    hide RoleText;
    forall k | 0 <= k < |Body(r)| ensures Body(r)[k] != 0 && Body(r)[k] != NEWLINE {
      var b := Body(r)[k];
      assert b in r.name || b == COLON || b in RoleText(r.admin) || b in r.hash || b in r.home || b in d;
    }
  }

  /** The line that replaces a record is read back as the new record. */
  lemma NewLineReads(r: Record)
    requires WellFormed(r) && |Line(r)| < RECORD_MAX
    ensures Take(Line(r), RECORD_MAX - 1) == Body(r) + [NEWLINE] && NEWLINE !in Body(r) && Entry(Body(r)) == Found(r)
  {
    BodyClean(r);
    BufferedStays(Body(r));
    LineReadsBack(r);
    hide Body;
    hide ParseRecord;
    hide WellFormed;
  }

  /** What is found in the rest of the file once the piece in front is emitted. */
  lemma FindEmitted(piece: seq<byte>, c: Change, rest: seq<byte>, name: seq<byte>)
    requires NEWLINE !in piece && Fits(c)
    ensures FindIn(Lines(Emit(piece, c) + rest), name) ==
            if Concerns(piece, c) then (if c.Replace? && name == Key(c) then Found(c.r) else FindIn(Lines(rest), name))
            else if Entry(piece).Found? && Entry(piece).r.name == name then Entry(piece)
            else FindIn(Lines(rest), name)
  {
    hide Line;
    hide ParseRecord;
    hide Lines;
    hide WellFormed;
    hide Buffered;
    NoEntry();
    BufferedTwice(piece);
    assert [] + rest == rest;
    if Concerns(piece, c) {
      if c.Replace? {
        NewLineReads(c.r);
        hide Body;
        LinesFirst(Body(c.r), rest);
        FindFirst(Body(c.r), Lines(rest), name);
      }
    } else {
      if Buffered(piece) != [] {
        LinesFirst(Buffered(piece), rest);
        FindFirst(Buffered(piece), Lines(rest), name);
      } else {
        BufferedEmpty(piece);
      }
    }
  }

  lemma BufferedEmpty(piece: seq<byte>)
    requires Buffered(piece) == []
    ensures Entry(piece) == NoRecord
  {
    BufferedStays([]);
    NoEntry();
  }

  lemma FindFirst(piece: seq<byte>, pieces: seq<seq<byte>>, name: seq<byte>)
    ensures FindIn([piece] + pieces, name) ==
            if Entry(piece).Found? && Entry(piece).r.name == name then Entry(piece) else FindIn(pieces, name)
  {
    assert ([piece] + pieces)[1..] == pieces;
  }

  /**
   The rewritten file answers every name as the old one did, but for the one that changes: that one gets the new record
   if it was there, and none if it was removed, however many records had the name.
   */
  lemma {:induction false} FindAfterRewrite(pieces: seq<seq<byte>>, c: Change, name: seq<byte>)
    requires Fits(c) && forall k :: 0 <= k < |pieces| ==> NEWLINE !in pieces[k]
    ensures FindIn(Lines(EmitAll(pieces, c)), name) ==
            if name != Key(c) then FindIn(pieces, name)
            else if c.Replace? && Hit(pieces, c) then Found(c.r) else NoRecord
  {
    if pieces == [] {
      NoEntry();
      BufferedStays([]);
    } else {
      FindAfterRewrite(pieces[1..], c, name);
      FindEmitted(pieces[0], c, EmitAll(pieces[1..], c), name);
      HitFirst(pieces, c);
      hide Lines;
      hide Entry;
      hide Emit;
      hide Hit;
    }
  }

  lemma HitFirst(pieces: seq<seq<byte>>, c: Change)
    requires pieces != []
    ensures Hit(pieces, c) <==> Concerns(pieces[0], c) || Hit(pieces[1..], c)
  {
    hide Concerns;
    if Hit(pieces, c) && !Concerns(pieces[0], c) {
      var k :| 0 <= k < |pieces| && Concerns(pieces[k], c);
      assert pieces[1..][k - 1] == pieces[k];
    }
    if Hit(pieces[1..], c) {
      var k :| 0 <= k < |pieces[1..]| && Concerns(pieces[1..][k], c);
      assert pieces[k + 1] == pieces[1..][k];
    }
  }

  lemma {:induction false} LinesClean(s: seq<byte>)
    ensures forall k :: 0 <= k < |Lines(s)| ==> NEWLINE !in Lines(s)[k]
    decreases |s|
  {
    if LineEnd(s) < |s| {
      LinesClean(s[LineEnd(s) + 1..]);
    }
  }

  /** The whole file, before and after. */
  lemma RewriteIsMapUpdate(db: seq<byte>, c: Change, name: seq<byte>)
    requires Fits(c)
    ensures FindIn(Lines(EmitAll(Lines(db), c)), name) ==
            if name != Key(c) then FindIn(Lines(db), name)
            else if c.Replace? && Hit(Lines(db), c) then Found(c.r) else NoRecord
  {
    LinesClean(db);
    FindAfterRewrite(Lines(db), c, name);
  }

  lemma CutLine(r: Record)
    requires WellFormed(r) && |Line(r)| >= RECORD_MAX
    ensures NEWLINE !in Take(Line(r), RECORD_MAX - 1)
  {
    BodyClean(r);
    hide WellFormed;
    hide Body;
    assert Line(r)[..RECORD_MAX - 1] == Body(r)[..RECORD_MAX - 1];
  }

  // ---------- single lines ----------

  lemma LinesAt(s: seq<byte>, e: nat)
    requires e < |s| && s[e] == NEWLINE && forall k :: 0 <= k < e ==> s[k] != NEWLINE
    ensures Lines(s) == [s[..e]] + Lines(s[e + 1..])
  {
    LineEndIs(s, e);
  }

  /** A line with its newline, and nothing behind it. */
  lemma OneLine(s: seq<byte>)
    requires NEWLINE !in s
    ensures Lines(s + [NEWLINE]) == [s, []]
  {
    LinesFirst(s, []);
    NoLineEnd([]);
    assert s + [NEWLINE] + [] == s + [NEWLINE];
    assert [s] + [[]] == [s, []];
  }

  lemma NoLineEnd(s: seq<byte>)
    requires NEWLINE !in s
    ensures Lines(s) == [s]
  {
  }

  lemma {:induction false} FindInConcat(a: seq<seq<byte>>, b: seq<seq<byte>>, name: seq<byte>)
    ensures FindIn(a + b, name) == if FindIn(a, name).Found? then FindIn(a, name) else FindIn(b, name)
  {
    hide Entry;
    if a == [] {
      assert a + b == b;
    } else {
      FindInConcat(a[1..], b, name);
      assert (a + b)[1..] == a[1..] + b && (a + b)[0] == a[0];
    }
  }

  lemma NothingFound(piece: seq<byte>, name: seq<byte>)
    ensures FindIn([piece, []], name) == if Entry(piece).Found? && Entry(piece).r.name == name then Entry(piece)
            else NoRecord
  {
    NoEntry();
    hide Entry;
    var nothing: seq<seq<byte>> := [[]];
    FindFirst([], [], name);
    FindFirst(piece, nothing, name);
    assert nothing + [] == nothing && [piece] + nothing == [piece, []];
  }

  // ---------- printed files ----------

  /** Lines written one after another. */
  function Text(lines: seq<seq<byte>>): seq<byte> {
    if lines == [] then [] else lines[0] + [NEWLINE] + Text(lines[1..])
  }

  lemma {:induction false} TextReadsBack(lines: seq<seq<byte>>)
    requires forall k :: 0 <= k < |lines| ==> NEWLINE !in lines[k]
    ensures Lines(Text(lines)) == lines + [[]]
  {
    if lines == [] {
      NoLineEnd([]);
    } else {
      TextReadsBack(lines[1..]);
      LinesFirst(lines[0], Text(lines[1..]));
      hide Lines;
      assert [lines[0]] + (lines[1..] + [[]]) == lines + [[]];
    }
  }

  /** The first of the records with that name. */
  function FirstNamed(rs: seq<Record>, name: seq<byte>): UserRecords.Read {
    if rs == [] then NoRecord else if rs[0].name == name then Found(rs[0]) else FirstNamed(rs[1..], name)
  }

  function Printed(rs: seq<Record>): seq<byte> { if rs == [] then [] else Line(rs[0]) + Printed(rs[1..]) }

  /** In a file of printed records, what is found under a name is the first record printed with it. */
  lemma {:induction false} PrintedIsFound(rs: seq<Record>, name: seq<byte>)
    requires forall k :: 0 <= k < |rs| ==> WellFormed(rs[k]) && |Line(rs[k])| < RECORD_MAX
    ensures FindIn(Lines(Printed(rs)), name) == FirstNamed(rs, name)
  {
    if rs == [] {
      NoLineEnd([]);
      NoEntry();
      BufferedStays([]);
    } else {
      NewLineReads(rs[0]);
      PrintedIsFound(rs[1..], name);
      hide Entry;
      hide Body;
      hide WellFormed;
      LinesFirst(Body(rs[0]), Printed(rs[1..]));
      FindFirst(Body(rs[0]), Lines(Printed(rs[1..])), name);
      hide Lines;
    }
  }

  /** A line that the rewrite takes over as it is. */
  predicate Clean(line: seq<byte>) { line != [] && |line| < RECORD_MAX && NEWLINE !in line && NoNul(line) }

  function ChangedLine(line: seq<byte>, c: Change): seq<seq<byte>> {
    if !Concerns(line, c) then [line] else if c.Replace? then [Body(c.r)] else []
  }

  /** The lines of the new file: those of the name are replaced or left out, the others stay, comments and all. */
  function Changed(lines: seq<seq<byte>>, c: Change): seq<seq<byte>> {
    if lines == [] then [] else ChangedLine(lines[0], c) + Changed(lines[1..], c)
  }

  lemma {:induction false} RewriteKeepsLines(lines: seq<seq<byte>>, c: Change)
    requires Fits(c) && forall k :: 0 <= k < |lines| ==> Clean(lines[k])
    ensures EmitAll(Lines(Text(lines)), c) == Text(Changed(lines, c))
  {
    TextReadsBack(lines);
    EmitLines(lines, c);
  }

  lemma {:induction false} EmitLines(lines: seq<seq<byte>>, c: Change)
    requires Fits(c) && forall k :: 0 <= k < |lines| ==> Clean(lines[k])
    ensures EmitAll(lines + [[]], c) == Text(Changed(lines, c))
  {
    if lines == [] {
      NoEntry();
      BufferedStays([]);
      assert EmitAll([], c) == [] && lines + [[]] == [[]];
    } else {
      EmitLines(lines[1..], c);
      EmitLine(lines[0], c);
      hide Emit;
      hide ChangedLine;
      hide Clean;
      assert (lines + [[]])[1..] == lines[1..] + [[]] && (lines + [[]])[0] == lines[0];
      TextJoins(ChangedLine(lines[0], c), Changed(lines[1..], c));
    }
  }

  lemma EmitLine(line: seq<byte>, c: Change)
    requires Fits(c) && Clean(line)
    ensures Emit(line, c) == Text(ChangedLine(line, c))
  {
    if !Concerns(line, c) {
      BufferedStays(line);
      TextOne(line);
    } else if c.Replace? {
      NewLineReads(c.r);
      hide *;
      TextOne(Body(c.r));
    }
    hide Concerns;
    hide Buffered;
    hide Fits;
    hide Take;
    hide Clean;
  }

  lemma TextOne(line: seq<byte>)
    ensures Text([line]) == line + [NEWLINE]
  {
    assert [line][1..] == [];
  }

  lemma {:induction false} TextJoins(a: seq<seq<byte>>, b: seq<seq<byte>>)
    ensures Text(a + b) == Text(a) + Text(b)
  {
    if a == [] {
      assert a + b == b;
    } else {
      TextJoins(a[1..], b);
      assert (a + b)[1..] == a[1..] + b && (a + b)[0] == a[0];
    }
  }

  // ---------- the file ----------

  /** The first record of the name, if the file can be read: one of 4096 bytes or more cannot. */
  function LookUp(file: File, name: seq<byte>): UserRecords.Read {
    if NameValid(name) && file.Content? && |file.bytes| < DB_SIZE then FindIn(Lines(file.bytes), name) else NoRecord
  }

  /** The room a piece is counted for in the new file: all of its bytes, those behind a zero included. */
  function Bulk(piece: seq<byte>, c: Change): nat {
    if Concerns(piece, c) then (if c.Replace? then |Take(Line(c.r), RECORD_MAX - 1)| else 0)
    else if Buffered(piece) == [] then 0
    else |Take(piece, RECORD_MAX - 1)| + 1
  }

  function BulkAll(pieces: seq<seq<byte>>, c: Change): nat {
    if pieces == [] then 0 else Bulk(pieces[0], c) + BulkAll(pieces[1..], c)
  }

  /** What the new file needs never exceeds what its pieces are counted for. */
  lemma {:induction false} EmitFits(pieces: seq<seq<byte>>, c: Change)
    ensures |EmitAll(pieces, c)| <= BulkAll(pieces, c)
  {
    hide Concerns;
    hide Line;
    if pieces != [] {
      EmitFits(pieces[1..], c);
      assert |Emit(pieces[0], c)| <= Bulk(pieces[0], c);
    }
  }

  /** Without zero bytes in the file, exactly what the new file needs is counted. */
  lemma {:induction false} RoomIsLength(pieces: seq<seq<byte>>, c: Change)
    requires forall k :: 0 <= k < |pieces| ==> NoNul(pieces[k])
    ensures BulkAll(pieces, c) == |EmitAll(pieces, c)|
  {
    if pieces != [] {
      RoomIsLength(pieces[1..], c);
      var line := Take(pieces[0], RECORD_MAX - 1);
      StrIs(line, line);
      assert Buffered(pieces[0]) == line;
      hide Concerns;
      hide Line;
      hide Buffered;
      assert Bulk(pieces[0], c) == |Emit(pieces[0], c)|;
    }
  }

  /** What clks_user_db_rewrite_with needs: the file can be read, some record has the name, and the result fits. */
  predicate Rewritable(file: File, c: Change) {
    && file.Content? && |file.bytes| < DB_SIZE
    && Hit(Lines(file.bytes), c) && BulkAll(Lines(file.bytes), c) + 1 < DB_SIZE
  }

  class Database {
    var file: File

    /** clks_user_read_db */
    function Readable(): File
      reads this
    {
      if file.Content? && |file.bytes| + 1 <= DB_SIZE then file else NoFile
    }

    /** clks_user_find */
    method Find(name: seq<byte>) returns (r: UserRecords.Read)
      ensures r == LookUp(file, name)
    {
      hide Lines;
      hide Rest;
      hide FindIn;
      hide ParseRecord;
      hide Buffered;
      hide NameValid;
      var db := Readable();
      if !NameValid(name) || db.NoFile? {
        return NoRecord;
      }
      var start := 0;
      WholeRest(db.bytes);
      for i := 0 to |db.bytes| + 1
        invariant InLine(db.bytes, start, i)
        invariant FindIn(Lines(db.bytes), name) == FindIn(Rest(db.bytes, start), name)
      {
        if i == |db.bytes| || db.bytes[i] == NEWLINE {
          NextLine(db.bytes, start, i);
          FindFirst(db.bytes[start..i], Rest(db.bytes, i + 1), name);
          var record := ReadRecord(Buffered(db.bytes[start..i]));
          if record.Found? && record.r.name == name {
            return record;
          }
          start := i + 1;
          InLineNext(db.bytes, i);
        } else {
          InLineOn(db.bytes, start, i);
        }
      }
      FindNothing(db.bytes, start, name);
      return NoRecord;
    }

    /**
     clks_user_db_rewrite_with: on success the file is what every line becomes; otherwise it is as it was. `stored` says
     whether the file system takes the new file.
     */
    method Rewrite(c: Change, stored: bool) returns (ok: bool)
      requires c.Replace? ==> c.r.uid < TWO_TO_THE_64
      modifies this
      ensures ok <==> Rewritable(old(file), c) && stored
      ensures file == if ok then Content(EmitAll(Lines(old(file).bytes), c)) else old(file)
      ensures ok ==> Readable().Content?
    {
      hide Lines;
      hide Hit;
      hide EmitAll;
      hide BulkAll;
      var db := Readable();
      if db.NoFile? {
        return false;
      }
      var next, found;
      ok, found, next := EmitLines(db.bytes, c);
      if !ok || !found {
        return false;
      }
      if stored {
        file := Content(next);
      }
      return stored;
    }

    /** The loop of clks_user_db_rewrite_with. */
    method EmitLines(db: seq<byte>, c: Change) returns (ok: bool, found: bool, next: seq<byte>)
      requires c.Replace? ==> c.r.uid < TWO_TO_THE_64
      ensures ok <==> BulkAll(Lines(db), c) + 1 < DB_SIZE
      ensures ok ==> found == Hit(Lines(db), c) && next == EmitAll(Lines(db), c) && |next| < DB_SIZE
    {
      var nextLen, start := 0, 0;
      ok, found, next := false, false, [];
      ghost var done: seq<seq<byte>> := [];
      WholeRest(db);
      EmitBegins(db, c);
      hide Bulk;
      hide BulkAll;
      hide Lines;
      hide Rest;
      hide Emit;
      hide EmitAll;
      hide Hit;
      hide Concerns;
      hide Sofar;
      for i := 0 to |db| + 1
        invariant |next| <= nextLen && nextLen + 1 < DB_SIZE && InLine(db, start, i)
        invariant Sofar(db, c, done, start, next, found)
        invariant BulkAll(Lines(db), c) == nextLen + BulkAll(Rest(db, start), c)
      {
        if i == |db| || db[i] == NEWLINE {
          EmitNext(db, c, done, start, i, next, found);
          NextLine(db, start, i);
          BulkFirst(db[start..i], Rest(db, i + 1), c);
          done := done + [db[start..i]];
          var fits, hit;
          fits, hit, next, nextLen := EmitLine(db[start..i], c, next, nextLen);
          if !fits {
            return;
          }
          found, start := found || hit, i + 1;
          InLineNext(db, i);
        } else {
          InLineOn(db, start, i);
        }
      }
      ok := true;
      BulkEnds(db, start, c);
      EmitEnds(db, c, done, start, next, found);
    }

    /** One line of the old file: it is replaced, dropped or copied. */
    method EmitLine(piece: seq<byte>, c: Change, next: seq<byte>, nextLen: nat)
      returns (ok: bool, hit: bool, next': seq<byte>, nextLen': nat)
      requires |next| <= nextLen && nextLen + 1 < DB_SIZE && (c.Replace? ==> c.r.uid < TWO_TO_THE_64)
      ensures hit == Concerns(piece, c)
      ensures ok <==> nextLen + Bulk(piece, c) + 1 < DB_SIZE
      ensures ok ==> next' == next + Emit(piece, c) && |next'| <= nextLen' == nextLen + Bulk(piece, c)
    {
      hide ParseRecord;
      hide Line;
      ok, hit, next', nextLen' := true, false, next, nextLen;
      var line := Buffered(piece);
      var emitOriginal := true;
      var record := ReadRecord(line);
      if record.Found? && record.r.name == Key(c) {
        hit, emitOriginal := true, false;
        if c.Replace? {
          var text := RecordLine(c.r, RECORD_MAX);
          if nextLen + |text| + 1 >= DB_SIZE {
            ok := false;
            return;
          }
          next', nextLen' := next + text, nextLen + |text|;
        }
      }
      if emitOriginal && |line| != 0 {
        var lineLen := |Take(piece, RECORD_MAX - 1)|;
        if nextLen + lineLen + 2 >= DB_SIZE {
          ok := false;
          return;
        }
        next', nextLen' := next + line + [NEWLINE], nextLen + lineLen + 1;
      }
    }
  }

  lemma BulkFirst(piece: seq<byte>, rest: seq<seq<byte>>, c: Change)
    ensures BulkAll([piece] + rest, c) == Bulk(piece, c) + BulkAll(rest, c)
  {
    assert ([piece] + rest)[1..] == rest;
  }

  lemma BulkEnds(db: seq<byte>, start: nat, c: Change)
    requires InLine(db, start, |db| + 1)
    ensures BulkAll(Rest(db, start), c) == 0
  {
  }

  function Rest(s: seq<byte>, start: nat): seq<seq<byte>> { if start <= |s| then Lines(s[start..]) else [] }

  lemma NextLine(s: seq<byte>, start: nat, i: nat)
    requires start <= i <= |s| && NEWLINE !in s[start..i] && (i < |s| ==> s[i] == NEWLINE)
    ensures Rest(s, start) == [s[start..i]] + Rest(s, i + 1)
  {
    var t := s[start..];
    forall k | 0 <= k < i - start ensures t[k] != NEWLINE {
      assert t[k] == s[start..i][k];
    }
    LineEndIs(t, i - start);
    assert t[..i - start] == s[start..i];
    if i < |s| {
      assert t[i - start + 1..] == s[i + 1..];
    } else {
      assert t == s[start..i] && Rest(s, i + 1) == [];
    }
  }

  /** Place `i` lies in the line that begins at `start`. */
  predicate InLine(s: seq<byte>, start: nat, i: nat) {
    && start <= |s| + 1
    && if i <= |s| then start <= i && NEWLINE !in s[start..i] else start == i == |s| + 1
  }

  lemma InLineOn(s: seq<byte>, start: nat, i: nat)
    requires InLine(s, start, i) && i < |s| && s[i] != NEWLINE
    ensures InLine(s, start, i + 1)
  {
    assert s[start..i + 1] == s[start..i] + [s[i]];
  }

  lemma InLineNext(s: seq<byte>, i: nat)
    requires i <= |s|
    ensures InLine(s, i + 1, i + 1)
  {
  }

  lemma WholeRest(s: seq<byte>)
    ensures InLine(s, 0, 0) && Rest(s, 0) == Lines(s)
  {
    assert s[0..] == s;
  }

  lemma FindNothing(s: seq<byte>, start: nat, name: seq<byte>)
    requires InLine(s, start, |s| + 1)
    ensures FindIn(Rest(s, start), name) == NoRecord
  {
  }

  /** What has been written and found before the line that begins at `start`. */
  ghost predicate Sofar(db: seq<byte>, c: Change, done: seq<seq<byte>>, start: nat, next: seq<byte>, found: bool) {
    && Lines(db) == done + Rest(db, start) && found == Hit(done, c)
    && EmitAll(Lines(db), c) == next + EmitAll(Rest(db, start), c)
  }

  lemma EmitBegins(db: seq<byte>, c: Change)
    ensures Sofar(db, c, [], 0, [], false)
  {
    WholeRest(db);
    assert [] + EmitAll(Lines(db), c) == EmitAll(Lines(db), c) && [] + Lines(db) == Lines(db);
  }

  lemma EmitNext(db: seq<byte>, c: Change, done: seq<seq<byte>>, start: nat, i: nat, next: seq<byte>, found: bool)
    requires Sofar(db, c, done, start, next, found) && InLine(db, start, i) && i <= |db|
             && (i < |db| ==> db[i] == NEWLINE)
    ensures var piece := db[start..i];
      Sofar(db, c, done + [piece], i + 1, next + Emit(piece, c), found || Concerns(piece, c))
  {
    var piece, rest := db[start..i], Rest(db, i + 1);
    NextLine(db, start, i);
    OneMore(done, piece, rest, c);
    hide Emit;
    hide EmitAll;
    hide Hit;
    hide Concerns;
    hide Lines;
    Associative(next, Emit(piece, c), EmitAll(rest, c));
  }

  lemma EmitEnds(db: seq<byte>, c: Change, done: seq<seq<byte>>, start: nat, next: seq<byte>, found: bool)
    requires Sofar(db, c, done, start, next, found) && InLine(db, start, |db| + 1)
    ensures found == Hit(Lines(db), c) && next == EmitAll(Lines(db), c)
  {
    assert Rest(db, start) == [] && done + [] == done && next + [] == next;
  }

  lemma OneMore(done: seq<seq<byte>>, piece: seq<byte>, rest: seq<seq<byte>>, c: Change)
    ensures done + ([piece] + rest) == (done + [piece]) + rest
    ensures EmitAll([piece] + rest, c) == Emit(piece, c) + EmitAll(rest, c)
    ensures Hit(done + [piece], c) <==> Hit(done, c) || Concerns(piece, c)
  {
    hide Concerns;
    var all := done + [piece];
    assert ([piece] + rest)[1..] == rest;
    assert all[|done|] == piece;
    if Hit(done, c) {
      var k :| 0 <= k < |done| && Concerns(done[k], c);
      assert all[k] == done[k];
    }
  }
}
