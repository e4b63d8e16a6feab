/** The input method's backtracking search for phrases: it finds exactly the phrases the dictionary allows. */
module PhraseSearch {
  import opened ByteStrings
  import opened Dictionary

  const CAND_MAX := 64
  const MAX_PARTS := 12
  const MAX_SYLLABLE := 6
  const ALT_MAX := 2

  // ---------- what the search is to find ----------

  /** One piece of the composition: where it ends and which of its candidates is taken. */
  datatype Choice = Choice(end: nat, alt: nat)

  predicate Allowed(data: seq<byte>, comp: seq<byte>, start: nat, c: Choice) {
    && start < c.end <= |comp| && c.end <= start + MAX_SYLLABLE && c.alt < ALT_MAX
    && Lookup(data, comp[start..c.end], c.alt) != Missing
  }

  /** The choices cut the rest of the composition into pieces that the dictionary knows. */
  predicate Split(data: seq<byte>, comp: seq<byte>, start: nat, cs: seq<Choice>)
    decreases |cs|
  {
    if cs == [] then start >= |comp|
    else Allowed(data, comp, start, cs[0]) && Split(data, comp, cs[0].end, cs[1..])
  }

  /** A candidate as it is appended: a C string of at most 63 bytes. */
  function Piece(data: seq<byte>, comp: seq<byte>, start: nat, c: Choice): seq<byte>
    requires Allowed(data, comp, start, c)
  {
    Str(Take(Lookup(data, comp[start..c.end], c.alt).text, CAND_BYTES - 1))
  }

  function Append(phrase: seq<byte>, text: seq<byte>): seq<byte> { Take(phrase + text, CAND_BYTES - 1) }

  /** The phrase that the choices make, as the buffer holds it. */
  function Phrase(data: seq<byte>, comp: seq<byte>, start: nat, cs: seq<Choice>, phrase: seq<byte>): seq<byte>
    requires Split(data, comp, start, cs)
    decreases |cs|
  {
    if cs == [] then phrase
    else Phrase(data, comp, cs[0].end, cs[1..], Append(phrase, Piece(data, comp, start, cs[0])))
  }

  /** The whole candidates one after another, without any limit of length. */
  function Whole(data: seq<byte>, comp: seq<byte>, start: nat, cs: seq<Choice>): seq<byte>
    requires Split(data, comp, start, cs)
    decreases |cs|
  {
    if cs == [] then []
    else Str(Lookup(data, comp[start..cs[0].end], cs[0].alt).text) + Whole(data, comp, cs[0].end, cs[1..])
  }

  lemma TakeTwice(a: seq<byte>, b: seq<byte>, c: seq<byte>, n: nat)
    ensures Take(Take(a, n) + Take(b, n) + c, n) == Take(a + b + c, n)
    ensures Take(Take(a, n) + Take(b, n), n) == Take(a + b, n)
  {
    if |a| <= n && |b| > n {
      assert (a + b)[..n] == (a + b[..n])[..n];
      assert (a + b + c)[..n] == (a + b[..n] + c)[..n];
    } else if |a| > n {
      assert (a + b)[..n] == a[..n];
      assert (a + b + c)[..n] == a[..n];
    }
  }

  lemma CutOneMore(phrase: seq<byte>, text: seq<byte>)
    ensures Append(Take(phrase, CAND_BYTES - 1), Str(Take(text, CAND_BYTES - 1)))
            == Take(phrase + Str(text), CAND_BYTES - 1)
  {
    TakeStr(text, CAND_BYTES - 1);
    TakeTwice(phrase, Str(text), [], CAND_BYTES - 1);
  }

  /** Cutting after every piece is the same as cutting the whole phrase once, at 63 bytes. */
  lemma {:induction false} PhraseIsCutOnce(data: seq<byte>, comp: seq<byte>, start: nat, cs: seq<Choice>,
                                           phrase: seq<byte>)
    requires Split(data, comp, start, cs)
    ensures Phrase(data, comp, start, cs, Take(phrase, CAND_BYTES - 1))
            == Take(phrase + Whole(data, comp, start, cs), CAND_BYTES - 1)
    decreases |cs|
  {
    if cs == [] {
      assert phrase + [] == phrase;
    } else {
      var text, rest := Lookup(data, comp[start..cs[0].end], cs[0].alt).text, Whole(data, comp, cs[0].end, cs[1..]);
      CutOneMore(phrase, text);
      PhraseIsCutOnce(data, comp, cs[0].end, cs[1..], phrase + Str(text));
      Associative(phrase, Str(text), rest);
      hide Take;
      hide Str;
      hide Lookup;
      hide Append;
    }
  }

  // ---------- the candidate list ----------

  predicate Distinct(list: seq<seq<byte>>) { forall i, j :: 0 <= i < j < |list| ==> list[i] != list[j] }

  /** The list a search started with is still its beginning, and the rest are phrases the search may find. */
  ghost predicate Sound(data: seq<byte>, comp: seq<byte>, start: nat, depth: nat, phrase: seq<byte>,
                        before: seq<seq<byte>>, list: seq<seq<byte>>) {
    && before <= list
    && forall k :: |before| <= k < |list| ==> Reachable(data, comp, start, depth, phrase, list[k])
  }

  ghost predicate Reachable(data: seq<byte>, comp: seq<byte>, start: nat, depth: nat, phrase: seq<byte>,
                            text: seq<byte>) {
    text != []
    && exists cs: seq<Choice> ::
         Split(data, comp, start, cs) && depth + |cs| < MAX_PARTS && text == Phrase(data, comp, start, cs, phrase)
  }

  /** Unless the list is full, it has every phrase the search may find. */
  ghost predicate Complete(data: seq<byte>, comp: seq<byte>, start: nat, depth: nat, phrase: seq<byte>,
                           list: seq<seq<byte>>) {
    |list| < CAND_MAX ==>
      forall cs: seq<Choice> :: Split(data, comp, start, cs) && depth + |cs| < MAX_PARTS
        ==> Listed(Phrase(data, comp, start, cs, phrase), list)
  }

  predicate Listed(text: seq<byte>, list: seq<seq<byte>>) { text == [] || text in list }

  /** As Complete, for the splits whose first choice is one of those tried so far. */
  ghost predicate CompleteUpTo(data: seq<byte>, comp: seq<byte>, start: nat, depth: nat, phrase: seq<byte>,
                               list: seq<seq<byte>>,
                               end: nat, alt: nat) {
    |list| < CAND_MAX ==>
      forall cs: seq<Choice> :: Split(data, comp, start, cs) && depth + |cs| < MAX_PARTS && cs != []
                   && (cs[0].end < end || (cs[0].end == end && cs[0].alt < alt))
                   ==> Listed(Phrase(data, comp, start, cs, phrase), list)
  }

  lemma SoundAfter(data: seq<byte>, comp: seq<byte>, start: nat, depth: nat, phrase: seq<byte>, c: Choice,
                   before: seq<seq<byte>>, list: seq<seq<byte>>, list': seq<seq<byte>>)
    requires Allowed(data, comp, start, c) && Sound(data, comp, start, depth, phrase, before, list)
    requires Sound(data, comp, c.end, depth + 1, Append(phrase, Piece(data, comp, start, c)), list, list')
    ensures Sound(data, comp, start, depth, phrase, before, list')
  {
    forall k | |before| <= k < |list'| ensures Reachable(data, comp, start, depth, phrase, list'[k]) {
      if k < |list| {
        assert list'[k] == list[k];
      } else {
        ReachableThrough(data, comp, start, depth, phrase, c, list'[k]);
      }
    }
  }

  lemma ReachableThrough(data: seq<byte>, comp: seq<byte>, start: nat, depth: nat, phrase: seq<byte>, c: Choice,
                         text: seq<byte>)
    requires Allowed(data, comp, start, c)
    requires Reachable(data, comp, c.end, depth + 1, Append(phrase, Piece(data, comp, start, c)), text)
    ensures Reachable(data, comp, start, depth, phrase, text)
  {
    var p := Append(phrase, Piece(data, comp, start, c));
    var cs :| Split(data, comp, c.end, cs) && depth + 1 + |cs| < MAX_PARTS && text == Phrase(data, comp, c.end, cs, p);
    var all := [c] + cs;
    assert all[0] == c && all[1..] == cs && |all| == 1 + |cs|;
    hide Append;
    hide Piece;
    hide Allowed;
    hide Reachable;
    SplitThrough(data, comp, start, depth, phrase, all);
  }

  lemma SplitThrough(data: seq<byte>, comp: seq<byte>, start: nat, depth: nat, phrase: seq<byte>, cs: seq<Choice>)
    requires cs != [] && Allowed(data, comp, start, cs[0]) && Split(data, comp, cs[0].end, cs[1..])
             && depth + |cs| < MAX_PARTS
    requires Phrase(data, comp, cs[0].end, cs[1..], Append(phrase, Piece(data, comp, start, cs[0]))) != []
    ensures Reachable(data, comp, start, depth, phrase,
                      Phrase(data, comp, cs[0].end, cs[1..], Append(phrase, Piece(data, comp, start, cs[0]))))
  {
    hide Append;
    hide Piece;
    hide Allowed;
    assert Split(data, comp, start, cs);
  }

  lemma CompleteAfter(data: seq<byte>, comp: seq<byte>, start: nat, depth: nat, phrase: seq<byte>, c: Choice,
                      list: seq<seq<byte>>, list': seq<seq<byte>>)
    requires Allowed(data, comp, start, c) && CompleteUpTo(data, comp, start, depth, phrase, list, c.end, c.alt)
             && list <= list'
    requires Complete(data, comp, c.end, depth + 1, Append(phrase, Piece(data, comp, start, c)), list')
    ensures CompleteUpTo(data, comp, start, depth, phrase, list', c.end, c.alt + 1)
  {
    if |list'| < CAND_MAX {
      forall cs: seq<Choice> | Split(data, comp, start, cs) && depth + |cs| < MAX_PARTS && cs != []
                  && (cs[0].end < c.end || (cs[0].end == c.end && cs[0].alt < c.alt + 1))
        ensures Listed(Phrase(data, comp, start, cs, phrase), list')
      {
        if cs[0] == c {
          assert Split(data, comp, c.end, cs[1..]);
        } else {
          assert Listed(Phrase(data, comp, start, cs, phrase), list);
        }
      }
    }
  }

  /** When the dictionary has no candidate `alt`, it has no later one either, and the next end is due. */
  lemma CompleteNoMore(data: seq<byte>, comp: seq<byte>, start: nat, depth: nat, phrase: seq<byte>,
                       list: seq<seq<byte>>, end: nat, alt: nat)
    requires start < end <= |comp| && CompleteUpTo(data, comp, start, depth, phrase, list, end, alt)
    requires alt >= ALT_MAX || Lookup(data, comp[start..end], alt) == Missing
    ensures CompleteUpTo(data, comp, start, depth, phrase, list, end + 1, 0)
  {
    if |list| < CAND_MAX {
      forall cs: seq<Choice> | Split(data, comp, start, cs) && depth + |cs| < MAX_PARTS && cs != []
        && cs[0].end < end + 1
        ensures Listed(Phrase(data, comp, start, cs, phrase), list)
      {
        if cs[0].end == end && alt <= cs[0].alt {
          LookupEarlier(Pieces(data, true), comp[start..end], alt, cs[0].alt);
        }
      }
    }
  }

  // ---------- in terms of the dictionary alone ----------

  /** A key of at most six bytes and one of its first two candidates. */
  datatype Known = Known(key: seq<byte>, alt: nat, text: seq<byte>)

  predicate Knows(data: seq<byte>, k: Known) {
    1 <= |k.key| <= 6 && k.alt < 2 && Lookup(data, k.key, k.alt) == Text(k.text)
  }

  ghost predicate AllKnown(data: seq<byte>, ks: seq<Known>) { forall i :: 0 <= i < |ks| ==> Knows(data, ks[i]) }

  function Keys(ks: seq<Known>): seq<byte> { if ks == [] then [] else ks[0].key + Keys(ks[1..]) }

  /** The candidates one after another; a zero byte would end each. */
  function Texts(ks: seq<Known>): seq<byte> { if ks == [] then [] else Str(ks[0].text) + Texts(ks[1..]) }

  lemma OneMoreChoice(data: seq<byte>, comp: seq<byte>, start: nat, c: Choice, cs: seq<Choice>)
    requires Allowed(data, comp, start, c) && Split(data, comp, c.end, cs)
    ensures Split(data, comp, start, [c] + cs)
    ensures Whole(data, comp, start, [c] + cs)
            == Str(Lookup(data, comp[start..c.end], c.alt).text) + Whole(data, comp, c.end, cs)
  {
    assert ([c] + cs)[1..] == cs;
    hide Lookup;
    hide Str;
  }

  lemma {:induction false} KeysSplit(data: seq<byte>, comp: seq<byte>, start: nat, ks: seq<Known>)
    returns (cs: seq<Choice>)
    requires start <= |comp| && comp[start..] == Keys(ks) && AllKnown(data, ks)
    ensures |cs| == |ks| && Split(data, comp, start, cs) && Whole(data, comp, start, cs) == Texts(ks)
    decreases |ks|
  {
    cs := [];
    if ks != [] {
      hide Lookup;
      hide Str;
      hide Split;
      hide Whole;
      var end := start + |ks[0].key|;
      assert comp[start..][..|ks[0].key|] == ks[0].key && comp[start..][|ks[0].key|..] == Keys(ks[1..]);
      assert comp[start..end] == ks[0].key && comp[end..] == Keys(ks[1..]);
      cs := KeysSplit(data, comp, end, ks[1..]);
      OneMoreChoice(data, comp, start, Choice(end, ks[0].alt), cs);
      cs := [Choice(end, ks[0].alt)] + cs;
    }
  }

  lemma {:induction false} SplitKeys(data: seq<byte>, comp: seq<byte>, start: nat, cs: seq<Choice>)
    returns (ks: seq<Known>)
    requires start <= |comp| && Split(data, comp, start, cs)
    ensures |ks| == |cs| && AllKnown(data, ks) && comp[start..] == Keys(ks) && Whole(data, comp, start, cs) == Texts(ks)
    decreases |cs|
  {
    ks := [];
    if cs != [] {
      hide Lookup;
      hide Str;
      var end := cs[0].end;
      var k := Known(comp[start..end], cs[0].alt, Lookup(data, comp[start..end], cs[0].alt).text);
      var rest := SplitKeys(data, comp, end, cs[1..]);
      ks := [k] + rest;
      assert comp[start..] == comp[start..end] + comp[end..];
    }
  }

  /** At most eleven keys make up the composition, and their candidates, cut at 63 bytes, the text. */
  ghost predicate MadeOf(data: seq<byte>, ks: seq<Known>, comp: seq<byte>, text: seq<byte>) {
    |ks| <= 11 && AllKnown(data, ks) && Keys(ks) == comp && Take(Texts(ks), 63) == text
  }

  /**
   What the search may find from the start is a nonempty concatenation, cut at 63 bytes, of candidates of at most eleven
   keys that make up the composition.
   */
  lemma ReachableIff(data: seq<byte>, comp: seq<byte>, text: seq<byte>)
    ensures Reachable(data, comp, 0, 0, [], text)
            <==> text != [] && exists ks: seq<Known> :: MadeOf(data, ks, comp, text)
  {
    hide Split;
    hide Take;
    if Reachable(data, comp, 0, 0, [], text) {
      var cs: seq<Choice> :| Split(data, comp, 0, cs) && |cs| < MAX_PARTS && text == Phrase(data, comp, 0, cs, []);
      var ks := SplitKeys(data, comp, 0, cs);
      FromTheStart(data, comp, cs);
      assert MadeOf(data, ks, comp, text);
    }
    forall ks: seq<Known> | text != [] && MadeOf(data, ks, comp, text) ensures Reachable(data, comp, 0, 0, [], text) {
      var cs := KeysSplit(data, comp, 0, ks);
      FromTheStart(data, comp, cs);
    }
  }

  lemma FromTheStart(data: seq<byte>, comp: seq<byte>, cs: seq<Choice>)
    requires Split(data, comp, 0, cs)
    ensures comp[0..] == comp && Phrase(data, comp, 0, cs, []) == Take(Whole(data, comp, 0, cs), CAND_BYTES - 1)
  {
    PhraseIsCutOnce(data, comp, 0, cs, []);
    assert Take([], CAND_BYTES - 1) == [] && [] + Whole(data, comp, 0, cs) == Whole(data, comp, 0, cs);
  }

  /** A complete list that is not full has the candidates' concatenation for all keys that make up the composition. */
  lemma CompleteHas(data: seq<byte>, comp: seq<byte>, list: seq<seq<byte>>, ks: seq<Known>)
    requires Complete(data, comp, 0, 0, [], list) && |list| < 64 && Texts(ks) != []
    requires MadeOf(data, ks, comp, Take(Texts(ks), 63))
    ensures Take(Texts(ks), 63) in list
  {
    hide Split;
    var cs := KeysSplit(data, comp, 0, ks);
    FromTheStart(data, comp, cs);
    assert Listed(Phrase(data, comp, 0, cs, []), list);
  }

  // ---------- the search ----------

  class Composer {
    var candidates: seq<seq<byte>>
    const phrase: array<byte>

    /** The shared phrase buffer holds a terminated string. */
    ghost predicate Valid()
      reads this, phrase
    {
      phrase.Length == CAND_BYTES && |Str(phrase[..])| < CAND_BYTES && |candidates| <= CAND_MAX && Distinct(candidates)
    }

    constructor ()
      ensures Valid() && candidates == [] && Str(phrase[..]) == [] && fresh(phrase)
    {
      phrase := new byte[CAND_BYTES](_ => 0);
      candidates := [];
    }

    /** clks_inputm_add_candidate */
    method AddCandidate(text: seq<byte>)
      requires |candidates| <= CAND_MAX && Distinct(candidates)
      modifies this
      ensures |candidates| <= CAND_MAX && Distinct(candidates)
      ensures candidates == if text == [] || |old(candidates)| >= CAND_MAX
              || Take(text, CAND_BYTES - 1) in old(candidates)
                            then old(candidates) else old(candidates) + [Take(text, CAND_BYTES - 1)]
    {
      if |text| == 0 || |candidates| >= CAND_MAX {
        return;
      }
      var copy := Take(text, CAND_BYTES - 1);
      for i := 0 to |candidates|
        invariant candidates == old(candidates) && forall j :: 0 <= j < i ==> candidates[j] != copy
      {
        if candidates[i] == copy {
          return;
        }
      }
      candidates := candidates + [copy];
    }

    /** clks_inputm_append_candidate_bytes */
    method AppendBytes(text: seq<byte>)
      requires phrase.Length == CAND_BYTES && |Str(phrase[..])| < CAND_BYTES
      modifies phrase
      ensures |Str(phrase[..])| < CAND_BYTES && Str(phrase[..]) == Append(old(Str(phrase[..])), Str(text))
    {
      hide Append;
      ghost var was, piece := Str(phrase[..]), Str(text);
      var outLen := StrLen(phrase);
      var i := 0;
      while i < |text| && text[i] != 0 && outLen + 1 < phrase.Length
        invariant i <= |piece| && outLen == |was| + i < phrase.Length && phrase[..outLen] == was + piece[..i]
      {
        assert i < |piece| && text[i] == piece[i];
        PrefixOneMore(was, piece, i);
        ghost var sofar := phrase[..outLen];
        phrase[outLen] := text[i];
        assert phrase[..outLen + 1] == sofar + [text[i]];
        outLen, i := outLen + 1, i + 1;
      }
      phrase[outLen] := 0;
      assert phrase[..outLen] == was + piece[..i];
      assert forall k :: 0 <= k < outLen ==> (was + piece[..i])[k] != 0;
      StrIs(phrase[..], was + piece[..i]);
      AppendDone(was, piece, i);
    }

    /** clks_strlen */
    method StrLen(s: array<byte>) returns (n: nat)
      requires |Str(s[..])| < s.Length
      ensures n == |Str(s[..])|
    {
      n := 0;
      while s[n] != 0
        invariant n <= |Str(s[..])|
        decreases |Str(s[..])| - n
      {
        n := n + 1;
      }
    }

    /** clks_inputm_copy_string */
    method CopyString(dst: array<byte>, src: array<byte>)
      requires dst != src && dst.Length > 0 && |Str(src[..])| < src.Length
      modifies dst
      ensures Str(dst[..]) == Take(Str(src[..]), dst.Length - 1) && |Str(dst[..])| < dst.Length
    {
      ghost var s := Str(src[..]);
      var i := 0;
      while i + 1 < dst.Length && src[i] != 0
        invariant i <= |s| && i < dst.Length && dst[..i] == s[..i] && s == Str(src[..])
        decreases |s| - i
      {
        assert i < |s| && src[i] == s[i];
        ghost var sofar := dst[..i];
        dst[i] := src[i];
        assert dst[..i + 1] == sofar + [s[i]];
        i := i + 1;
      }
      dst[i] := 0;
      StrIs(dst[..], s[..i]);
    }

    /**
     clks_inputm_rebuild_split_candidates_rec: adds exactly the phrases the dictionary allows from here on, unless the
     list fills up, and leaves the shared buffer as it found it.
     */
    method Rec(data: seq<byte>, comp: seq<byte>, start: nat, depth: nat)
      requires Valid() && start <= |comp|
      modifies this, phrase
      ensures Valid() && Str(phrase[..]) == old(Str(phrase[..]))
      ensures Sound(data, comp, start, depth, Str(phrase[..]), old(candidates), candidates)
      ensures Complete(data, comp, start, depth, Str(phrase[..]), candidates)
      decreases if depth < MAX_PARTS then MAX_PARTS - depth else 0, 2
    {
      if |candidates| >= CAND_MAX || depth >= MAX_PARTS {
        return;
      }
      if start >= |comp| {
        if phrase[0] != 0 {
          var len := StrLen(phrase);
          AddCandidate(phrase[..len]);
          assert phrase[..len] == Str(phrase[..]) == Take(Str(phrase[..]), CAND_BYTES - 1);
        }
        EndOfComposition(data, comp, start, depth, Str(phrase[..]), old(candidates), candidates);
        return;
      }
      ghost var p := Str(phrase[..]);
      var end := start + 1;
      NothingTried(data, comp, start, depth, p, candidates);
      while end <= |comp| && end <= start + MAX_SYLLABLE
        invariant start < end && Valid() && Str(phrase[..]) == p
        invariant Sound(data, comp, start, depth, p, old(candidates), candidates)
        invariant CompleteUpTo(data, comp, start, depth, p, candidates, end, 0)
      {
        TryEnd(data, comp, start, depth, end, old(candidates));
        end := end + 1;
      }
      AllTried(data, comp, start, depth, p, candidates, end);
    }

    /** One turn of the outer loop: the pieces that end at `end`. */
    method TryEnd(data: seq<byte>, comp: seq<byte>, start: nat, depth: nat, end: nat, ghost before: seq<seq<byte>>)
      requires Valid() && start < end <= |comp| && end <= start + MAX_SYLLABLE && depth < MAX_PARTS
      requires Sound(data, comp, start, depth, Str(phrase[..]), before, candidates)
      requires CompleteUpTo(data, comp, start, depth, Str(phrase[..]), candidates, end, 0)
      modifies this, phrase
      ensures Valid() && Str(phrase[..]) == old(Str(phrase[..]))
      ensures Sound(data, comp, start, depth, Str(phrase[..]), before, candidates)
      ensures CompleteUpTo(data, comp, start, depth, Str(phrase[..]), candidates, end + 1, 0)
      decreases MAX_PARTS - depth, 1
    {
      hide Sound;
      hide Complete;
      hide CompleteUpTo;
      hide Lookup;
      hide Str;
      hide Take;
      hide Append;
      ghost var p := Str(phrase[..]);
      var alt := 0;
      while alt < ALT_MAX
        invariant alt <= ALT_MAX && Valid() && Str(phrase[..]) == p
        invariant Sound(data, comp, start, depth, p, before, candidates)
        invariant CompleteUpTo(data, comp, start, depth, p, candidates, end, alt)
      {
        var cand := LookupInData(data, comp[start..end], alt, CAND_BYTES);
        if cand.Missing? {
          break;
        }
        ghost var list := candidates;
        TryCandidate(data, comp, end, depth, cand.text);
        SoundAfter(data, comp, start, depth, p, Choice(end, alt), before, list, candidates);
        CompleteAfter(data, comp, start, depth, p, Choice(end, alt), list, candidates);
        alt := alt + 1;
      }
      CompleteNoMore(data, comp, start, depth, p, candidates, end, alt);
    }

    /** Appends one candidate, searches on, and restores the buffer from a copy. */
    method TryCandidate(data: seq<byte>, comp: seq<byte>, end: nat, depth: nat, cand: seq<byte>)
      requires Valid() && end <= |comp| && depth < MAX_PARTS
      modifies this, phrase
      ensures Valid() && Str(phrase[..]) == old(Str(phrase[..]))
      ensures Sound(data, comp, end, depth + 1, Append(Str(phrase[..]), Str(cand)), old(candidates), candidates)
      ensures Complete(data, comp, end, depth + 1, Append(Str(phrase[..]), Str(cand)), candidates)
      decreases MAX_PARTS - depth, 0
    {
      var saved := new byte[CAND_BYTES];
      CopyString(saved, phrase);
      AppendBytes(cand);
      Rec(data, comp, end, depth + 1);
      CopyString(phrase, saved);
    }

    /** clks_inputm_rebuild_split_candidates */
    method Rebuild(data: seq<byte>, comp: seq<byte>)
      requires Valid()
      modifies this, phrase
      ensures Valid() && old(candidates) <= candidates
      ensures data == [] || |comp| < 2 ==> candidates == old(candidates)
      ensures Sound(data, comp, 0, 0, [], old(candidates), candidates)
      ensures data != [] && |comp| >= 2 ==> Complete(data, comp, 0, 0, [], candidates)
    {
      if |data| == 0 || |comp| < 2 {
        return;
      }
      phrase[0] := 0;
      StrIs(phrase[..], []);
      Rec(data, comp, 0, 0);
    }
  }

  lemma AppendDone(was: seq<byte>, piece: seq<byte>, i: nat)
    requires i <= |piece| && |was| + i < CAND_BYTES && (i == |piece| || |was| + i == CAND_BYTES - 1)
    ensures Append(was, piece) == was + piece[..i]
  {
    if i == |piece| {
      assert piece[..i] == piece;
    } else {
      assert (was + piece)[..CAND_BYTES - 1] == was + piece[..i];
    }
  }

  lemma EndOfComposition(data: seq<byte>, comp: seq<byte>, start: nat, depth: nat, p: seq<byte>,
                         before: seq<seq<byte>>, list: seq<seq<byte>>)
    requires start >= |comp| && depth < MAX_PARTS && |p| < CAND_BYTES
    requires list == if p == [] || p in before then before else before + [p]
    ensures Sound(data, comp, start, depth, p, before, list) && Complete(data, comp, start, depth, p, list)
  {
    assert Split(data, comp, start, []) && Phrase(data, comp, start, [], p) == p;
    forall cs: seq<Choice> | Split(data, comp, start, cs) ensures cs == [] {
    }
  }

  lemma NothingTried(data: seq<byte>, comp: seq<byte>, start: nat, depth: nat, p: seq<byte>, list: seq<seq<byte>>)
    ensures Sound(data, comp, start, depth, p, list, list)
            && CompleteUpTo(data, comp, start, depth, p, list, start + 1, 0)
  {
  }

  lemma AllTried(data: seq<byte>, comp: seq<byte>, start: nat, depth: nat, p: seq<byte>, list: seq<seq<byte>>, end: nat)
    requires start < |comp| && CompleteUpTo(data, comp, start, depth, p, list, end, 0)
    requires end > |comp| || end > start + MAX_SYLLABLE
    ensures Complete(data, comp, start, depth, p, list)
  {
  }
}
