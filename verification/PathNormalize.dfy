/** normalize_impl and copy_component: normalisation into a caller's buffer. */
module PathNormalize {
  import opened ByteStrings
  import opened PathNames

  /** copy_component */
  method CopyComponent(src: seq<byte>, out: array<byte>, pos: nat) returns (ok: bool, next: nat)
    requires pos <= out.Length
    modifies out
    ensures ok <==> pos + |src| < out.Length
    ensures next == if ok then pos + |src| else pos
    ensures ok ==> out[..next] == old(out[..pos]) + src
  {
    if pos + |src| >= out.Length {
      return false, pos;
    }
    for i := 0 to |src|
      invariant out[..pos] == old(out[..pos]) && out[pos..pos + i] == src[..i]
    {
      out[pos + i] := src[i];
      assert out[pos..pos + i + 1] == out[pos..pos + i] + [src[i]];
    }
    assert out[..pos + |src|] == out[..pos] + out[pos..pos + |src|];
    return true, pos + |src|;
  }

  /** The place of the next byte that is no slash. */
  method SkipSlashes(path: seq<byte>, from: nat) returns (i: nat)
    requires from <= |path|
    ensures from <= i <= |path| && (i < |path| ==> path[i] != SLASH)
    ensures Components(path[i..]) == Components(path[from..])
  {
    i := from;
    while i < |path| && path[i] == SLASH
      invariant from <= i <= |path| && Components(path[i..]) == Components(path[from..])
    {
      assert path[i..] == [SLASH] + path[i + 1..];
      SkipSlash(path[i + 1..]);
      i := i + 1;
    }
  }

  /** The end of the component that starts at `from`. */
  method ComponentEnd(path: seq<byte>, from: nat) returns (i: nat)
    requires from <= |path| && NoNul(path)
    ensures from <= i <= |path| && Components(path[from..]) == Keep([path[from..i]]) + Components(path[i..])
    ensures SLASH !in path[from..i] && (from < |path| && path[from] != SLASH ==> from < i)
  {
    i := from;
    while i < |path| && path[i] != SLASH && path[i] != 0
      invariant from <= i <= |path| && forall k :: from <= k < i ==> path[k] != SLASH
    {
      i := i + 1;
    }
    FirstSlashIs(path[from..], i - from);
    FirstPiece(path[from..], i - from);
    assert path[from..][..i - from] == path[from..i] && path[from..][i - from..] == path[i..];
  }

  /** Writes the next component behind those already there, after a slash if it is not the first. */
  method PutComponent(out: array<byte>, pos: nat, component: seq<byte>, keepRootSlash: bool, ghost done: seq<seq<byte>>)
    returns (ok: bool, next: nat)
    requires pos <= out.Length && out[..pos] == Root(keepRootSlash) + Join(done)
    requires Good(component) && forall c :: c in done ==> Good(c)
    modifies out
    ensures ok <==> |Root(keepRootSlash) + Join(done + [component])| < out.Length
    ensures ok ==> next < out.Length && out[..next] == Root(keepRootSlash) + Join(done + [component])
  {
    next := pos;
    assert (done + [component])[..|done|] == done;
    if done != [] {
      NoLeadingSlash(done);
    }
    if (keepRootSlash && pos > 1) || (!keepRootSlash && pos != 0) {
      if pos + 1 >= out.Length {
        return false, pos;
      }
      out[pos] := SLASH;
      next := pos + 1;
      assert out[..next] == old(out[..pos]) + [SLASH];
    }
    ghost var sofar := out[..next];
    ok, next := CopyComponent(component, out, next);
    assert Root(keepRootSlash) + Join(done + [component]) == sofar + component;
  }

  lemma {:induction false} JoinGrows(a: seq<seq<byte>>, b: seq<seq<byte>>)
    ensures |Join(a + b)| >= |Join(a)|
    decreases |b|
  {
    if b == [] {
      assert a + b == a;
    } else {
      JoinGrows(a, b[..|b| - 1]);
      assert (a + b)[..|a + b| - 1] == a + b[..|b| - 1];
    }
  }

  lemma KeepOne(piece: seq<byte>)
    ensures Keep([piece]) == if piece == [] || piece == [DOT] then [] else [piece]
  {
  }

  /** One turn of the loop of normalize_impl: takes the component at `inPos`, if there is one left. */
  method NextComponent(path: seq<byte>, inPos: nat, out: array<byte>, outPos: nat, keepRootSlash: bool,
                       ghost done: seq<seq<byte>>)
    returns (ok: bool, inPos': nat, outPos': nat, ghost done': seq<seq<byte>>)
    requires NoNul(path) && inPos < |path| && path[inPos] != SLASH
             && Sofar(path, inPos, out[..], outPos, keepRootSlash, done)
    modifies out
    ensures inPos < inPos' <= |path| && (inPos' < |path| ==> path[inPos'] != SLASH)
    ensures ok ==> Sofar(path, inPos', out[..], outPos', keepRootSlash, done')
    ensures !ok ==> [DOT, DOT] in Components(path) || |Normal(path, keepRootSlash)| >= out.Length
  {
    hide Components;
    hide Keep;
    hide Join;
    var afterComponent := ComponentEnd(path, inPos);
    var component := path[inPos..afterComponent];
    inPos' := SkipSlashes(path, afterComponent);
    ok, outPos', done' := true, outPos, done;
    KeepOne(component);
    ghost var rest := Components(path[inPos'..]);
    if |component| == 0 || component == [DOT] {
      return;
    }
    assert Components(path) == done + [component] + rest;
    if component == [DOT, DOT] {
      assert Components(path)[|done|] == component;
      ok := false;
      return;
    }
    assert out[..][..outPos] == out[..outPos];
    ok, outPos' := PutComponent(out, outPos, component, keepRootSlash, done);
    done' := done + [component];
    if !ok {
      JoinGrows(done', rest);
    } else {
      assert out[..][..outPos'] == out[..outPos'];
    }
  }

  /** What has been written stands for the components before `inPos`. */
  ghost predicate Sofar(path: seq<byte>, inPos: nat, out: seq<byte>, outPos: nat, keepRootSlash: bool,
                        done: seq<seq<byte>>) {
    && inPos <= |path| && outPos <= |out| && Components(path) == done + Components(path[inPos..])
    && out[..outPos] == Root(keepRootSlash) + Join(done)
    && [DOT, DOT] !in done && forall c :: c in done ==> Good(c)
  }

  /**
   normalize_impl: it succeeds exactly if the path is of the right kind, holds no ".." and its normal form fits the
   buffer, and then leaves the normal form there with its terminator.
   */
  method Normalize(path: seq<byte>, absolute: bool, out: array<byte>, keepRootSlash: bool) returns (ok: bool)
    requires NoNul(path)
    modifies out
    ensures ok <==> Accepts(path, absolute, out.Length, keepRootSlash)
    ensures ok ==> var normal := Normal(path, keepRootSlash); out[..|normal|] == normal && out[|normal|] == 0
  {
    if out.Length == 0 {
      return false;
    }
    if absolute {
      if |path| == 0 || path[0] != SLASH || out.Length < 2 {
        return false;
      }
    } else if |path| > 0 && path[0] == SLASH {
      return false;
    }
    hide Normal;
    hide Components;
    ok := WriteComponents(path, out, keepRootSlash);
  }

  /** normalize_impl once the path is known to be of the right kind. */
  method WriteComponents(path: seq<byte>, out: array<byte>, keepRootSlash: bool) returns (ok: bool)
    requires NoNul(path) && out.Length > 0
    modifies out
    ensures ok <==> [DOT, DOT] !in Components(path) && |Normal(path, keepRootSlash)| < out.Length
    ensures ok ==> var normal := Normal(path, keepRootSlash); out[..|normal|] == normal && out[|normal|] == 0
  {
    hide Components;
    hide Join;
    var outPos: nat := 0;
    if keepRootSlash {
      out[0] := SLASH;
      outPos := 1;
    }
    var inPos := SkipSlashes(path, 0);
    ghost var done: seq<seq<byte>> := [];
    assert out[..][..outPos] == Root(keepRootSlash);
    SofarStarts(path, inPos, out[..], outPos, keepRootSlash);
    hide Sofar;
    hide Normal;
    hide Root;
    while inPos < |path|
      invariant Sofar(path, inPos, out[..], outPos, keepRootSlash, done) && (inPos < |path| ==> path[inPos] != SLASH)
      invariant inPos <= |path|
      decreases |path| - inPos
    {
      var fits;
      fits, inPos, outPos, done := NextComponent(path, inPos, out, outPos, keepRootSlash, done);
      if !fits {
        return false;
      }
    }
    SofarEnds(path, out[..], outPos, keepRootSlash, done);
    if outPos >= out.Length {
      return false;
    }
    assert out[..outPos] == out[..][..outPos];
    out[outPos] := 0;
    return true;
  }

  lemma SofarStarts(path: seq<byte>, inPos: nat, out: seq<byte>, outPos: nat, keepRootSlash: bool)
    requires inPos <= |path| && Components(path[inPos..]) == Components(path[0..])
    requires outPos <= |out| && out[..outPos] == Root(keepRootSlash)
    ensures Sofar(path, inPos, out, outPos, keepRootSlash, [])
  {
    hide Components;
    assert path[0..] == path;
    assert Root(keepRootSlash) + Join([]) == Root(keepRootSlash);
  }

  lemma SofarEnds(path: seq<byte>, out: seq<byte>, outPos: nat, keepRootSlash: bool, done: seq<seq<byte>>)
    requires Sofar(path, |path|, out, outPos, keepRootSlash, done)
    ensures [DOT, DOT] !in Components(path) && outPos <= |out| && out[..outPos] == Normal(path, keepRootSlash)
  {
    assert path[|path|..] == [] && done + [] == done;
    assert Components([]) == [] by {
      assert Split([]) == [[]];
    }
  }
}
