/** Path names: what normalisation means, the loops that compute it in a buffer, and the prefix relation on results. */
module PathNames {
  import opened ByteStrings

  const SLASH: byte := 47
  const DOT: byte := 46

  function FirstSlash(p: seq<byte>): (e: nat)
    ensures e <= |p| && (e < |p| ==> p[e] == SLASH) && forall k :: 0 <= k < e ==> p[k] != SLASH
  {
    if p == [] || p[0] == SLASH then 0 else 1 + FirstSlash(p[1..])
  }

  /** Splits at every slash, empty pieces included. */
  function Split(p: seq<byte>): seq<seq<byte>>
    decreases |p|
  {
    var e := FirstSlash(p);
    if e == |p| then [p] else [p[..e]] + Split(p[e + 1..])
  }

  /** Drops the pieces that name nothing: the empty ones and ".". */
  function Keep(pieces: seq<seq<byte>>): seq<seq<byte>> {
    if pieces == [] then []
    else if Names(pieces[0]) then [pieces[0]] + Keep(pieces[1..]) else Keep(pieces[1..])
  }

  predicate Names(piece: seq<byte>) { piece != [] && piece != [DOT] }

  function Components(p: seq<byte>): seq<seq<byte>> { Keep(Split(p)) }

  function Join(cs: seq<seq<byte>>): seq<byte>
    decreases |cs|
  {
    if cs == [] then []
    else if |cs| == 1 then cs[0]
    else Join(cs[..|cs| - 1]) + [SLASH] + cs[|cs| - 1]
  }

  function Root(keepRootSlash: bool): seq<byte> { if keepRootSlash then [SLASH] else [] }

  /** The normal form of a path, with or without the leading slash. */
  function Normal(p: seq<byte>, keepRootSlash: bool): seq<byte> { Root(keepRootSlash) + Join(Components(p)) }

  /** When normalisation succeeds: the right kind of path, no "..", and room for the result and its terminator. */
  predicate Accepts(p: seq<byte>, absolute: bool, size: nat, keepRootSlash: bool) {
    && size > 0
    && (if absolute then p != [] && p[0] == SLASH && size >= 2 else p == [] || p[0] != SLASH)
    && [DOT, DOT] !in Components(p) && |Normal(p, keepRootSlash)| < size
  }

  // ---------- components ----------

  lemma {:induction false} KeepConcat(a: seq<seq<byte>>, b: seq<seq<byte>>)
    ensures Keep(a + b) == Keep(a) + Keep(b)
  {
    if a == [] {
      assert a + b == b;
    } else {
      KeepConcat(a[1..], b);
      assert (a + b)[1..] == a[1..] + b && (a + b)[0] == a[0];
      hide Names;
    }
  }

  lemma FirstSlashIs(p: seq<byte>, e: nat)
    requires e <= |p| && (e < |p| ==> p[e] == SLASH) && forall k :: 0 <= k < e ==> p[k] != SLASH
    ensures FirstSlash(p) == e
  {
  }

  lemma {:induction false} SplitConcat(a: seq<byte>, b: seq<byte>)
    ensures Split(a + [SLASH] + b) == Split(a) + Split(b)
    decreases |a|
  {
    hide Split;
    hide FirstSlash;
    var e, p := FirstSlash(a), a + [SLASH] + b;
    SplitAt(p, e);
    if e == |a| {
      SplitNone(a);
      assert p[..e] == a && p[e + 1..] == b;
    } else {
      assert p[..e] == a[..e] && p[e + 1..] == a[e + 1..] + [SLASH] + b;
      SplitAt(a, e);
      SplitConcat(a[e + 1..], b);
      assert [a[..e]] + (Split(a[e + 1..]) + Split(b)) == ([a[..e]] + Split(a[e + 1..])) + Split(b);
    }
  }

  lemma SplitNone(p: seq<byte>)
    requires FirstSlash(p) == |p|
    ensures Split(p) == [p]
  {
  }

  lemma SplitAt(p: seq<byte>, e: nat)
    requires e < |p| && p[e] == SLASH && forall k :: 0 <= k < e ==> p[k] != SLASH
    ensures Split(p) == [p[..e]] + Split(p[e + 1..])
  {
    FirstSlashIs(p, e);
  }

  lemma ComponentsConcat(a: seq<byte>, b: seq<byte>)
    ensures Components(a + [SLASH] + b) == Components(a) + Components(b)
  {
    SplitConcat(a, b);
    KeepConcat(Split(a), Split(b));
  }

  /** Between two slashes stands one component, or none if there is nothing or a dot. */
  lemma OnePiece(p: seq<byte>)
    requires SLASH !in p
    ensures Components(p) == if p == [] || p == [46] then [] else [p]
  {
    FirstSlashIs(p, |p|);
    SplitNone(p);
    var pieces := [p];
    assert pieces[1..] == [] && Keep(pieces[1..]) == [];
    assert Keep(pieces) == if Names(p) then [p] + [] else [];
  }

  /** A leading slash adds nothing. */
  lemma SkipSlash(p: seq<byte>)
    ensures Components([SLASH] + p) == Components(p)
  {
    ComponentsConcat([], p);
    assert [] + [SLASH] + p == [SLASH] + p;
    assert Split([]) == [[]];
  }

  /** The first piece of a path, and what follows it. */
  lemma FirstPiece(p: seq<byte>, e: nat)
    requires e == FirstSlash(p)
    ensures Components(p) == Keep([p[..e]]) + Components(p[e..])
  {
    if e == |p| {
      assert p[..e] == p && p[e..] == [];
      assert Split([]) == [[]];
    } else {
      SkipSlash(p[e + 1..]);
      assert p[e..] == [SLASH] + p[e + 1..];
      KeepConcat([p[..e]], Split(p[e + 1..]));
    }
  }

  /** A component of a normal path: it names something, and holds no slash. */
  predicate Good(c: seq<byte>) { c != [] && c != [DOT] && SLASH !in c }

  lemma {:induction false} PiecesGood(p: seq<byte>)
    ensures forall c :: c in Components(p) ==> Good(c)
    decreases |p|
  {
    var e := FirstSlash(p);
    FirstPiece(p, e);
    if e < |p| {
      SkipSlash(p[e + 1..]);
      assert p[e..] == [SLASH] + p[e + 1..];
      PiecesGood(p[e + 1..]);
    } else {
      assert p[e..] == [] && Split([]) == [[]];
    }
  }

  /** Joining components and taking the result apart again gives the components back. */
  lemma {:induction false} JoinThenSplit(cs: seq<seq<byte>>)
    requires forall c :: c in cs ==> Good(c)
    ensures Components(Join(cs)) == cs
    decreases |cs|
  {
    if cs == [] {
      assert Split([]) == [[]];
    } else {
      var last, front := cs[|cs| - 1], cs[..|cs| - 1];
      assert Good(last) && forall c :: c in front ==> Good(c);
      FirstSlashIs(last, |last|);
      assert Split(last) == [last] && Keep([last][1..]) == [];
      if |cs| > 1 {
        JoinThenSplit(front);
        ComponentsConcat(Join(front), last);
      }
    }
  }

  /** Normalising a normal path changes nothing, in either form. */
  lemma NormalIsStable(p: seq<byte>, keepRootSlash: bool)
    ensures Components(Normal(p, keepRootSlash)) == Components(p)
    ensures forall again: bool :: Normal(Normal(p, keepRootSlash), again) == Normal(p, again)
  {
    PiecesGood(p);
    JoinThenSplit(Components(p));
    SkipSlash(Join(Components(p)));
    assert [] + Join(Components(p)) == Join(Components(p));
  }

  /** No slash at either end, and no two in a row. */
  ghost predicate Slashless(p: seq<byte>) {
    && (p != [] ==> p[0] != SLASH && p[|p| - 1] != SLASH)
    && forall k, l :: 0 <= k && l == k + 1 && l < |p| ==> p[k] != SLASH || p[l] != SLASH
  }

  /** A normal path has single slashes between its components and none around them, but for the one of the root. */
  lemma NormalForm(p: seq<byte>)
    ensures Slashless(Normal(p, false)) && Normal(p, true) == [47] + Normal(p, false)
  {
    PiecesGood(p);
    JoinSlashless(Components(p));
  }

  lemma {:induction false} JoinSlashless(cs: seq<seq<byte>>)
    requires forall c :: c in cs ==> Good(c)
    ensures Slashless(Join(cs))
    decreases |cs|
  {
    if cs != [] {
      var front, last := cs[..|cs| - 1], cs[|cs| - 1];
      assert Good(last) && forall k :: 0 <= k < |last| ==> last[k] in last;
      if front != [] {
        JoinSlashless(front);
        NoLeadingSlash(front);
      }
    }
  }

  // ---------- the prefix relation ----------

  predicate StartsWith(path: seq<byte>, prefix: seq<byte>) {
    |path| >= |prefix| && path[..|prefix|] == prefix
  }

  /** path_at_or_under */
  predicate AtOrUnder(path: seq<byte>, prefix: seq<byte>) {
    StartsWith(path, prefix) && (|path| == |prefix| || path[|prefix|] == SLASH)
  }

  lemma {:induction false} JoinConcat(a: seq<seq<byte>>, b: seq<seq<byte>>)
    requires a != [] && b != []
    ensures Join(a + b) == Join(a) + [SLASH] + Join(b)
    decreases |b|
  {
    var front := b[..|b| - 1];
    assert (a + b)[..|a + b| - 1] == a + front;
    if |b| > 1 {
      JoinConcat(a, front);
    } else {
      assert a + front == a;
    }
  }

  /**
   On normal paths the byte test is the relation between component lists, except that nothing but the root itself
   counts as being under the root.
   */
  lemma AtOrUnderIsPrefix(cs: seq<seq<byte>>, ds: seq<seq<byte>>)
    requires forall c :: c in cs ==> Good(c)
    requires forall d :: d in ds ==> Good(d)
    ensures AtOrUnder([SLASH] + Join(cs), [SLASH] + Join(ds)) <==> ds <= cs && (ds == [] ==> cs == [])
  {
    var p, q := Join(cs), Join(ds);
    if AtOrUnder([SLASH] + p, [SLASH] + q) {
      UnderThenPrefix(cs, ds);
    }
    if ds <= cs && ds != [] {
      PrefixThenUnder(cs, ds);
    }
  }

  lemma UnderThenPrefix(cs: seq<seq<byte>>, ds: seq<seq<byte>>)
    requires (forall c :: c in cs ==> Good(c)) && (forall d :: d in ds ==> Good(d))
    requires AtOrUnder([SLASH] + Join(cs), [SLASH] + Join(ds))
    ensures ds <= cs && (ds == [] ==> cs == [])
  {
    hide Components;
    hide Good;
    hide Join;
    var p, q := Join(cs), Join(ds);
    JoinThenSplit(cs);
    JoinThenSplit(ds);
    WithoutRoot(p, q);
    if |p| == |q| {
      assert p == q;
    } else {
      ComponentsConcat(q, p[|q| + 1..]);
      if ds == [] {
        NoComponents(ds);
        NoLeadingSlash(cs);
        assert false;
      }
    }
  }

  lemma NoComponents(cs: seq<seq<byte>>)
    ensures cs == [] ==> Join(cs) == []
  {
  }

  /** The leading slashes taken off both. */
  lemma WithoutRoot(p: seq<byte>, q: seq<byte>)
    requires AtOrUnder([SLASH] + p, [SLASH] + q)
    ensures |q| <= |p| && p[..|q|] == q && (|p| > |q| ==> p[|q|] == SLASH && p == q + [SLASH] + p[|q| + 1..])
  {
    assert p[..|q|] == ([SLASH] + p)[..1 + |q|][1..] == q;
    if |p| > |q| {
      assert ([SLASH] + p)[|q| + 1] == p[|q|];
      assert p == p[..|q|] + [p[|q|]] + p[|q| + 1..];
    }
  }

  lemma PrefixThenUnder(cs: seq<seq<byte>>, ds: seq<seq<byte>>)
    requires ds <= cs && ds != []
    ensures AtOrUnder([SLASH] + Join(cs), [SLASH] + Join(ds))
  {
    if ds != cs {
      var es := cs[|ds|..];
      JoinConcat(ds, es);
      assert ds + es == cs;
      hide Join;
      assert [SLASH] + Join(cs) == ([SLASH] + Join(ds)) + ([SLASH] + Join(es));
    }
  }

  lemma {:induction false} NoLeadingSlash(cs: seq<seq<byte>>)
    requires cs != [] && forall c :: c in cs ==> Good(c)
    ensures Join(cs) != [] && Join(cs)[0] != SLASH
    decreases |cs|
  {
    assert Good(cs[0]) && cs[0][0] in cs[0];
    if |cs| > 1 {
      assert cs[..|cs| - 1][0] == cs[0];
      NoLeadingSlash(cs[..|cs| - 1]);
    }
  }
}
