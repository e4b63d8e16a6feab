/**
 The rule dictionary of the input method: lines of a key, a tab and candidate words, and the lookup that scans them.
 */
module Dictionary {
  import opened ByteStrings

  const TAB: byte := 9
  const NEWLINE: byte := 10
  const RETURN: byte := 13
  const SPACE: byte := 32
  const HASH: byte := 35

  const CAND_BYTES := 64

  datatype Found = Missing | Text(text: seq<byte>)

  predicate IsLineEnd(b: byte) { b == NEWLINE || b == RETURN }

  predicate Separates(b: byte, lines: bool) { if lines then IsLineEnd(b) else b == SPACE }

  /** The place of the first separator. */
  function Span(s: seq<byte>, lines: bool): (e: nat)
    ensures e <= |s| && (e < |s| ==> Separates(s[e], lines)) && forall k :: 0 <= k < e ==> !Separates(s[k], lines)
  {
    if s == [] || Separates(s[0], lines) then 0 else 1 + Span(s[1..], lines)
  }

  /** The pieces between separators, without empty ones: the lines of a text, or the words of a line. */
  function Pieces(s: seq<byte>, lines: bool): seq<seq<byte>>
    decreases |s|
  {
    if s == [] then []
    else if Separates(s[0], lines) then Pieces(s[1..], lines)
    else [s[..Span(s, lines)]] + Pieces(s[Span(s, lines)..], lines)
  }

  /** The line gives candidates for the key. */
  predicate Gives(line: seq<byte>, key: seq<byte>) {
    && |line| > |key| && line[0] != HASH && line[..|key|] == key && line[|key|] == TAB
  }

  function Words(line: seq<byte>, key: seq<byte>): seq<seq<byte>>
    requires Gives(line, key)
  {
    Pieces(line[|key| + 1..], false)
  }

  /** Candidate `n` of the first line for the key that has as many. */
  function LookupLines(lines: seq<seq<byte>>, key: seq<byte>, n: nat): Found {
    if lines == [] then Missing
    else if Gives(lines[0], key) && n < |Words(lines[0], key)| then Text(Words(lines[0], key)[n])
    else LookupLines(lines[1..], key, n)
  }

  function Lookup(data: seq<byte>, key: seq<byte>, n: nat): Found { LookupLines(Pieces(data, true), key, n) }

  /** A key with a later candidate also has the earlier ones. */
  lemma {:induction false} LookupEarlier(lines: seq<seq<byte>>, key: seq<byte>, m: nat, n: nat)
    requires m <= n && LookupLines(lines, key, n) != Missing
    ensures LookupLines(lines, key, m) != Missing
  {
    if !(Gives(lines[0], key) && n < |Words(lines[0], key)|) {
      LookupEarlier(lines[1..], key, m, n);
    }
  }

  lemma SpanIs(s: seq<byte>, lines: bool, e: nat)
    requires e <= |s| && (e < |s| ==> Separates(s[e], lines)) && forall k :: 0 <= k < e ==> !Separates(s[k], lines)
    ensures Span(s, lines) == e
  {
  }

  // ---------- a printed dictionary ----------

  datatype Entry = Entry(key: seq<byte>, words: seq<seq<byte>>) | Comment(text: seq<byte>)

  /** Words with one space between two of them. */
  function Spaced(words: seq<seq<byte>>): seq<byte> {
    if words == [] then [] else if |words| == 1 then words[0] else words[0] + [SPACE] + Spaced(words[1..])
  }

  function Line(e: Entry): seq<byte> {
    match e
    case Entry(key, words) => key + [TAB] + Spaced(words)
    case Comment(text) => [HASH] + text
  }

  function Printed(entries: seq<Entry>): seq<byte> {
    if entries == [] then [] else Line(entries[0]) + [NEWLINE] + Printed(entries[1..])
  }

  predicate Word(w: seq<byte>) { w != [] && forall k :: 0 <= k < |w| ==> w[k] != SPACE && !IsLineEnd(w[k]) }

  /** A key of a dictionary: no line end and no tab in it, and no hash sign at its head. */
  predicate Key(key: seq<byte>) {
    key != [] && key[0] != HASH && forall k :: 0 <= k < |key| ==> key[k] != TAB && !IsLineEnd(key[k])
  }

  predicate EntryOk(e: Entry) {
    match e
    case Entry(key, words) => Key(key) && forall k :: 0 <= k < |words| ==> Word(words[k])
    case Comment(text) => forall k :: 0 <= k < |text| ==> !IsLineEnd(text[k])
  }

  /** The entry is for the key. */
  predicate For(e: Entry, key: seq<byte>) { e.Entry? && e.key == key }

  /** Word `n` of the first entry for the key that has as many. */
  function Meant(entries: seq<Entry>, key: seq<byte>, n: nat): Found {
    if entries == [] then Missing
    else if For(entries[0], key) && n < |entries[0].words| then Text(entries[0].words[n])
    else Meant(entries[1..], key, n)
  }

  lemma FirstPiece(p: seq<byte>, sep: byte, rest: seq<byte>, lines: bool)
    requires p != [] && Separates(sep, lines) && forall k :: 0 <= k < |p| ==> !Separates(p[k], lines)
    ensures Pieces(p + [sep] + rest, lines) == [p] + Pieces(rest, lines)
    ensures Pieces(p, lines) == [p]
  {
    var s := p + [sep] + rest;
    PieceAt(s, lines, |p|);
    assert s[..|p|] == p && s[|p|..][1..] == rest;
    PieceAt(p, lines, |p|);
    assert p[..|p|] == p && p[|p|..] == [];
  }

  lemma {:induction false} WordsReadBack(words: seq<seq<byte>>)
    requires forall k :: 0 <= k < |words| ==> Word(words[k])
    ensures Pieces(Spaced(words), false) == words
  {
    if words != [] {
      WordsReadBack(words[1..]);
      FirstPiece(words[0], SPACE, Spaced(words[1..]), false);
    }
  }

  lemma {:induction false} SpacedOnOneLine(words: seq<seq<byte>>)
    requires forall k :: 0 <= k < |words| ==> Word(words[k])
    ensures forall k :: 0 <= k < |Spaced(words)| ==> !IsLineEnd(Spaced(words)[k])
  {
    if words != [] {
      SpacedOnOneLine(words[1..]);
    }
  }

  lemma LineReadsBack(e: Entry, key: seq<byte>)
    requires EntryOk(e) && Key(key)
    ensures Gives(Line(e), key) <==> For(e, key)
    ensures For(e, key) ==> Words(Line(e), key) == e.words
  {
    if e.Entry? {
      var line := Line(e);
      assert line[..|e.key|] == e.key && line[|e.key|] == TAB && line[|e.key| + 1..] == Spaced(e.words);
      WordsReadBack(e.words);
      assert |key| < |e.key| ==> line[|key|] == e.key[|key|];
      assert |e.key| < |key| <= |line| ==> line[..|key|][|e.key|] == TAB;
      assert |e.key| == |key| ==> line[..|key|] == e.key;
    }
  }

  lemma LineIsOneLine(e: Entry)
    requires EntryOk(e)
    ensures Line(e) != [] && forall k :: 0 <= k < |Line(e)| ==> !IsLineEnd(Line(e)[k])
  {
    if e.Entry? {
      SpacedOnOneLine(e.words);
    }
  }

  /** Lookup in a dictionary that was written line by line finds what its entries mean and skips its comments. */
  lemma {:induction false} PrintedIsFound(entries: seq<Entry>, key: seq<byte>, n: nat)
    requires Key(key) && forall k :: 0 <= k < |entries| ==> EntryOk(entries[k])
    ensures Lookup(Printed(entries), key, n) == Meant(entries, key, n)
  {
    hide Gives;
    if entries != [] {
      var line := Line(entries[0]);
      LineReadsBack(entries[0], key);
      LineIsOneLine(entries[0]);
      FirstPiece(line, NEWLINE, Printed(entries[1..]), true);
      PrintedIsFound(entries[1..], key, n);
      hide Pieces;
      hide Line;
      assert ([line] + Pieces(Printed(entries[1..]), true))[1..] == Pieces(Printed(entries[1..]), true);
    }
  }

  // ---------- the scan ----------

  /** The end of the piece at `from`. */
  method ScanPiece(s: seq<byte>, from: nat, to: nat, lines: bool) returns (end: nat)
    requires from <= to <= |s|
    ensures from <= end <= to && (end < to ==> Separates(s[end], lines)) && (from < end ==> !Separates(s[from], lines))
    ensures Pieces(s[from..to], lines) == (if from < end then [s[from..end]] else []) + Pieces(s[end..to], lines)
  {
    end := from;
    while end < to && !Separates(s[end], lines)
      invariant from <= end <= to && forall k :: from <= k < end ==> !Separates(s[k], lines)
    {
      end := end + 1;
    }
    PieceAt(s[from..to], lines, end - from);
    assert s[from..to][..end - from] == s[from..end] && s[from..to][end - from..] == s[end..to];
  }

  lemma PieceAt(s: seq<byte>, lines: bool, e: nat)
    requires e <= |s| && (e < |s| ==> Separates(s[e], lines)) && forall k :: 0 <= k < e ==> !Separates(s[k], lines)
    ensures Pieces(s, lines) == (if e > 0 then [s[..e]] else []) + Pieces(s[e..], lines)
  {
    SpanIs(s, lines, e);
    assert s[0..] == s;
  }

  method SkipSeparators(s: seq<byte>, from: nat, to: nat, lines: bool) returns (i: nat)
    requires from <= to <= |s|
    ensures from <= i <= to && (i < to ==> !Separates(s[i], lines))
            && Pieces(s[from..to], lines) == Pieces(s[i..to], lines)
  {
    i := from;
    while i < to && Separates(s[i], lines)
      invariant from <= i <= to && Pieces(s[from..to], lines) == Pieces(s[i..to], lines)
    {
      assert s[i..to][1..] == s[i + 1..to];
      i := i + 1;
    }
  }

  /** clks_inputm_lookup_candidate_in_data */
  method LookupInData(data: seq<byte>, key: seq<byte>, n: nat, outSize: nat) returns (r: Found)
    requires outSize > 0
    ensures r == if key == [] then Missing
                 else match Lookup(data, key, n) case Missing => Missing case Text(t) => Text(Take(t, outSize - 1))
  {
    if |key| == 0 {
      return Missing;
    }
    hide Gives;
    var pos := 0;
    assert data[0..|data|] == data;
    while pos < |data|
      invariant pos <= |data| && Lookup(data, key, n) == LookupLines(Pieces(data[pos..|data|], true), key, n)
      decreases |data| - pos
    {
      var start := pos;
      var end := ScanPiece(data, start, |data|, true);
      pos := SkipSeparators(data, end, |data|, true);
      var line := data[start..end];
      if start < end && Gives(line, key) {
        var word := NthWord(line, |key| + 1, n);
        if word.Text? {
          return Text(Take(word.text, outSize - 1));
        }
      }
    }
    assert data[pos..|data|] == [];
    return Missing;
  }

  /** The inner loop of the lookup: word `n` of the line behind place `from`. */
  method NthWord(line: seq<byte>, from: nat, n: nat) returns (r: Found)
    requires from <= |line|
    ensures var words := Pieces(line[from..], false); r == if n < |words| then Text(words[n]) else Missing
  {
    hide Pieces;
    var pos, current := from, 0;
    ghost var words := Pieces(line[from..], false);
    assert line[from..|line|] == line[from..];
    while pos < |line|
      invariant from <= pos && current <= n && current <= |words|
      invariant words[current..] == if pos <= |line| then Pieces(line[pos..|line|], false) else []
      decreases |line| - pos
    {
      var start := SkipSeparators(line, pos, |line|, false);
      var end := ScanPiece(line, start, |line|, false);
      if start < end {
        assert words[current..][0] == line[start..end];
        if current == n {
          return Text(line[start..end]);
        }
        current := current + 1;
        assert words[current..] == Pieces(line[end..|line|], false);
      }
      AfterSeparator(line, end);
      pos := end + 1;
    }
    NoPieces(line, pos);
    return Missing;
  }

  lemma NoPieces(line: seq<byte>, pos: nat)
    ensures pos == |line| ==> Pieces(line[pos..|line|], false) == []
  {
  }

  lemma AfterSeparator(line: seq<byte>, end: nat)
    requires end <= |line| && (end < |line| ==> Separates(line[end], false))
    ensures Pieces(line[end..|line|], false) == if end < |line| then Pieces(line[end + 1..|line|], false) else []
  {
    if end < |line| {
      assert line[end..|line|][1..] == line[end + 1..|line|];
    }
  }
}
