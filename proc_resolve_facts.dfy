/** What `resolve_implementors_for_struct` of `rust_writer_proc` promises
    (rust_writer_proc/src/helpers.rs:30-120), proved about `ResolveAll`, which
    `ResolveImplementorsForStruct` is shown to compute. */
module ProcResolveFacts {
  import opened Text
  import opened Syntax
  import opened ProcHelpers

  /** The type arguments reduced to their identifiers. */
  function IdentsOnly(gs: seq<GenericParam>): (r: seq<GenericParam>)
    ensures |r| == |gs|
  {
    if gs == [] then [] else IdentsOnly(gs[..|gs| - 1]) + [TypeParam(gs[|gs| - 1].name, [])]
  }

  lemma {:induction false} IdentsOnlyPush(gs: seq<GenericParam>, g: GenericParam)
    ensures IdentsOnly(gs + [g]) == IdentsOnly(gs) + [TypeParam(g.name, [])]
  {
    assert (gs + [g])[..|gs|] == gs;
  }

  /** In the rewritten arguments the lifetimes come first, in reverse order, and then the
      type arguments in their order, each reduced to its identifier. */
  lemma {:induction false} RewriteArgsShape(args: seq<GenericParam>)
    ensures RewriteArgs(args) == Reverse(Lifetimes(args)) + IdentsOnly(NonLifetimes(args))
  {
    if args != [] {
      var init, a := args[..|args| - 1], args[|args| - 1];
      RewriteArgsShape(init);
      assert args == init + [a];
      RewriteArgsStep(init, a);
    }
  }

  lemma {:induction false} RewriteArgsStep(init: seq<GenericParam>, a: GenericParam)
    requires RewriteArgs(init) == Reverse(Lifetimes(init)) + IdentsOnly(NonLifetimes(init))
    ensures RewriteArgs(init + [a]) == Reverse(Lifetimes(init + [a])) + IdentsOnly(NonLifetimes(init + [a]))
  {
    RewriteArgsPush(init, a);
    LifetimesPush(init, a);
    var front, back := Reverse(Lifetimes(init)), IdentsOnly(NonLifetimes(init));
    if a.Lifetime? {
      ReversePush(Lifetimes(init), a);
      Assoc([a], front, back);
    } else {
      IdentsOnlyPush(NonLifetimes(init), a);
      Assoc(front, back, [TypeParam(a.name, [])]);
    }
  }

  /** Each candidate the struct does not declare, on its first appearance: the reference for
      the introduced generics. */
  function FirstUndeclared(params: seq<GenericParam>, cs: seq<GenericParam>): seq<GenericParam> {
    if cs == [] then []
    else
      var init, c := cs[..|cs| - 1], cs[|cs| - 1];
      FirstUndeclared(params, init) + (if !Declared(params, c) && c !in init then [c] else [])
  }

  /** Introducing one list of arguments after another is introducing their concatenation. */
  lemma {:induction false} IntroduceAllAppend(params: seq<GenericParam>, introduced: seq<GenericParam>, a: seq<GenericParam>, b: seq<GenericParam>)
    ensures IntroduceAll(params, IntroduceAll(params, introduced, a), b) == IntroduceAll(params, introduced, a + b)
  {
    if b == [] {
      assert a + b == a;
    } else {
      var init, c := b[..|b| - 1], b[|b| - 1];
      IntroduceAllAppend(params, introduced, a, init);
      assert a + b == (a + init) + [c];
      IntroduceAllPush(params, introduced, a + init, c);
    }
  }

  /** Starting from `introduced`, a parameter ends up introduced exactly when it was so
      already or it is a candidate the struct does not declare; nothing is introduced twice
      and nothing the struct declares is introduced. */
  lemma {:induction false} IntroduceAllSpec(params: seq<GenericParam>, introduced: seq<GenericParam>, cs: seq<GenericParam>)
    requires NoDup(introduced) && forall g :: g in introduced ==> !Declared(params, g)
    ensures var r := IntroduceAll(params, introduced, cs);
      NoDup(r) && (forall g :: g in r ==> !Declared(params, g)) &&
      forall g :: g in r <==> g in introduced || (g in cs && !Declared(params, g))
  {
    if cs != [] {
      var init, c := cs[..|cs| - 1], cs[|cs| - 1];
      IntroduceAllSpec(params, introduced, init);
      assert cs == init + [c];
    }
  }

  /** The introduced generics are the undeclared candidates in order of first appearance. */
  lemma {:induction false} IntroducedAreFirstUndeclared(params: seq<GenericParam>, cs: seq<GenericParam>)
    ensures IntroduceAll(params, [], cs) == FirstUndeclared(params, cs)
  {
    if cs != [] {
      var init, c := cs[..|cs| - 1], cs[|cs| - 1];
      IntroducedAreFirstUndeclared(params, init);
      IntroduceAllSpec(params, [], init);
      if Declared(params, c) || c in init {
        assert FirstUndeclared(params, cs) == FirstUndeclared(params, init) + [];
      }
    }
  }

  lemma {:induction false} CountLastPush(paths: seq<Path>, p: Path, s: Segment)
    ensures CountLast(paths + [p], s) == CountLast(paths, s) + (if p != [] && Last(p) == s then 1 else 0)
  {
    assert (paths + [p])[..|paths|] == paths;
  }

  /** The count is zero exactly when no path ends in the segment. */
  lemma {:induction false} CountLastZero(paths: seq<Path>, s: Segment)
    ensures CountLast(paths, s) == 0 <==> forall k :: 0 <= k < |paths| && paths[k] != [] ==> Last(paths[k]) != s
  {
    if paths != [] {
      var init := paths[..|paths| - 1];
      CountLastZero(init, s);
      assert forall k :: 0 <= k < |init| ==> init[k] == paths[k];
    }
  }

  /** An implementor ending in `s` at position `i` raises the count of every later prefix. */
  lemma {:induction false} CountLastGrows(paths: seq<Path>, i: nat, j: nat, s: Segment)
    requires i < j <= |paths| && paths[i] != [] && Last(paths[i]) == s
    ensures CountLast(paths[..j], s) > CountLast(paths[..i], s)
    decreases j
  {
    assert paths[..j] == paths[..j - 1] + [paths[j - 1]];
    CountLastPush(paths[..j - 1], paths[j - 1], s);
    if i < j - 1 {
      CountLastGrows(paths, i, j - 1, s);
    } else {
      assert paths[..j - 1] == paths[..i];
    }
  }

  lemma {:induction false} InitValid(impls: seq<Path>)
    requires ValidImplementors(impls) && impls != []
    ensures ValidImplementors(impls[..|impls| - 1]) && ValidImplementor(impls[|impls| - 1])
  {
    assert forall i :: 0 <= i < |impls| - 1 ==> impls[..|impls| - 1][i] == impls[i];
  }

  /** One rewritten path per implementor, in input order (so none for an empty input). */
  lemma {:induction false} ResolvePaths(impls: seq<Path>, params: seq<GenericParam>)
    requires ValidImplementors(impls)
    ensures var r := ResolveAll(impls, params);
      r.paths == Rewritten(impls) &&
      |r.paths| == |impls| && forall i :: 0 <= i < |impls| ==> r.paths[i] == RewritePath(impls[i])
  {
    if impls != [] {
      InitValid(impls);
      ResolvePaths(impls[..|impls| - 1], params);
    }
    RewrittenSpec(impls);
  }

  /** The identifier of the `i`-th implementor as the source numbers it: its lowercased last
      segment, numbered by the earlier rewritten paths ending in that segment as it stands
      before rewriting. */
  function IdentAt(impls: seq<Path>, i: nat): string
    requires ValidImplementors(impls) && i < |impls|
  {
    assert ValidImplementor(impls[i]);
    IdentName(ToLower(Last(impls[i]).ident), CountLast(Rewritten(impls)[..i], Last(impls[i])))
  }

  lemma {:induction false} IdentAtPrefix(impls: seq<Path>, i: nat)
    requires ValidImplementors(impls) && i < |impls| - 1
    ensures ValidImplementors(impls[..|impls| - 1]) && IdentAt(impls[..|impls| - 1], i) == IdentAt(impls, i)
  {
    var init := impls[..|impls| - 1];
    InitValid(impls);
    assert init[i] == impls[i];
    assert Rewritten(impls) == Rewritten(init) + [RewritePath(impls[|impls| - 1])];
    assert Rewritten(impls)[..i] == Rewritten(init)[..i];
  }

  /** The last identifier: its count runs over all the earlier rewritten paths. */
  lemma {:induction false} IdentAtLast(impls: seq<Path>)
    requires ValidImplementors(impls) && impls != []
    ensures ValidImplementors(impls[..|impls| - 1])
    ensures var init, p := impls[..|impls| - 1], impls[|impls| - 1];
      IdentAt(impls, |init|) == IdentName(ToLower(Last(p).ident), CountLast(Rewritten(init), Last(p)))
  {
    var init := impls[..|impls| - 1];
    InitValid(impls);
    assert Rewritten(impls)[..|init|] == Rewritten(init);
  }

  /** One identifier per implementor, in input order: its lowercased last segment, with the
      count of the earlier rewritten paths ending in its unrewritten last segment. */
  lemma {:induction false} ResolveIdents(impls: seq<Path>, params: seq<GenericParam>)
    requires ValidImplementors(impls)
    ensures var r := ResolveAll(impls, params);
      |r.idents| == |impls| && forall i :: 0 <= i < |impls| ==> r.idents[i] == IdentAt(impls, i)
  {
    if impls != [] {
      var init, p := impls[..|impls| - 1], impls[|impls| - 1];
      InitValid(impls);
      ResolveIdents(init, params);
      ResolvePaths(init, params);
      IdentAtLast(impls);
      var r, before := ResolveAll(impls, params), ResolveAll(init, params);
      assert r.idents == before.idents + [IdentAt(impls, |init|)];
      forall i | 0 <= i < |init|
        ensures r.idents[i] == IdentAt(impls, i)
      {
        IdentAtPrefix(impls, i);
      }
    }
  }

  /** Rewriting keeps the identifier of the last segment. */
  lemma {:induction false} RewriteKeepsName(p: Path)
    requires p != []
    ensures Last(RewritePath(p)).ident == Last(p).ident
  {
  }

  /** Implementors whose last segments have pairwise different identifiers are each named by
      the bare lowercased identifier. */
  lemma {:induction false} DistinctNamesBare(impls: seq<Path>, params: seq<GenericParam>)
    requires ValidImplementors(impls)
    requires forall i, j :: 0 <= i < j < |impls| ==> Last(impls[i]).ident != Last(impls[j]).ident
    ensures var r := ResolveAll(impls, params);
      |r.idents| == |impls| && forall i :: 0 <= i < |impls| ==> r.idents[i] == ToLower(Last(impls[i]).ident)
  {
    ResolveIdents(impls, params);
    RewrittenSpec(impls);
    forall i | 0 <= i < |impls|
      ensures IdentAt(impls, i) == ToLower(Last(impls[i]).ident)
    {
      var before := Rewritten(impls)[..i];
      forall k | 0 <= k < i
        ensures Last(before[k]) != Last(impls[i])
      {
        assert before[k] == RewritePath(impls[k]);
        RewriteKeepsName(impls[k]);
      }
      CountLastZero(before, Last(impls[i]));
    }
  }

  /** The introduced generics are those of all the last segments' arguments taken in order. */
  lemma {:induction false} ResolveIntroduced(impls: seq<Path>, params: seq<GenericParam>)
    requires ValidImplementors(impls)
    ensures ResolveAll(impls, params).introduced == IntroduceAll(params, [], Candidates(impls))
  {
    if impls != [] {
      var init := impls[..|impls| - 1];
      InitValid(impls);
      ResolveIntroduced(init, params);
      IntroduceAllAppend(params, [], Candidates(init), ArgsOf(Last(impls[|impls| - 1])));
    }
  }

  /** The introduced generics: none twice, none the struct declares, and every argument of a
      last segment is either declared by the struct or introduced. */
  lemma {:induction false} IntroducedGenerics(impls: seq<Path>, params: seq<GenericParam>)
    requires ValidImplementors(impls)
    ensures var r := ResolveAll(impls, params);
      NoDup(r.introduced) && (forall g :: g in r.introduced ==> !Declared(params, g)) &&
      (forall g :: g in r.introduced <==> g in Candidates(impls) && !Declared(params, g)) &&
      r.introduced == FirstUndeclared(params, Candidates(impls))
  {
    ResolveIntroduced(impls, params);
    IntroduceAllSpec(params, [], Candidates(impls));
    IntroducedAreFirstUndeclared(params, Candidates(impls));
  }

  /** The identifiers numbered as evidently intended: the repeat count of an implementor
      is the number of earlier implementors, as given, ending in the same last segment. */
  function IntendedIdents(impls: seq<Path>): (r: seq<string>)
    requires ValidImplementors(impls)
    ensures |r| == |impls|
  {
    if impls == [] then []
    else
      var init, p := impls[..|impls| - 1], impls[|impls| - 1];
      InitValid(impls);
      IntendedIdents(init) + [IdentName(ToLower(Last(p).ident), CountLast(init, Last(p)))]
  }

  /** The intended identifier of the `i`-th implementor. */
  function IntendedAt(impls: seq<Path>, i: nat): string
    requires ValidImplementors(impls) && i < |impls|
  {
    assert ValidImplementor(impls[i]);
    IdentName(ToLower(Last(impls[i]).ident), CountLast(impls[..i], Last(impls[i])))
  }

  lemma {:induction false} IntendedAtPrefix(impls: seq<Path>, n: nat, i: nat)
    requires ValidImplementors(impls) && i < n <= |impls|
    ensures ValidImplementors(impls[..n]) && IntendedAt(impls[..n], i) == IntendedAt(impls, i)
  {
    assert forall k :: 0 <= k < n ==> impls[..n][k] == impls[k];
    assert impls[..n][..i] == impls[..i];
  }

  /** The intended identifier of each implementor, position by position. */
  lemma {:induction false} IntendedIdentsSpec(impls: seq<Path>)
    requires ValidImplementors(impls)
    ensures forall i :: 0 <= i < |impls| ==> IntendedIdents(impls)[i] == IntendedAt(impls, i)
  {
    if impls != [] {
      var init := impls[..|impls| - 1];
      InitValid(impls);
      IntendedIdentsSpec(init);
      forall i | 0 <= i < |impls|
        ensures IntendedIdents(impls)[i] == IntendedAt(impls, i)
      {
        if i < |init| {
          IntendedAtPrefix(impls, |init|, i);
        } else {
          assert impls[..i] == init;
        }
      }
    }
  }

  /** With the intended count, repeats of one implementor get different identifiers:
      `bar`, `bar_1`, `bar_2`, ... */
  lemma {:induction false} RepeatsNumberedApart(impls: seq<Path>, i: nat, j: nat)
    requires ValidImplementors(impls)
    requires i < j < |impls| && Last(impls[i]) == Last(impls[j])
    ensures IntendedIdents(impls)[i] != IntendedIdents(impls)[j]
  {
    IntendedIdentsSpec(impls);
    var s := Last(impls[j]);
    CountLastGrows(impls, i, j, s);
    if IntendedIdents(impls)[i] == IntendedIdents(impls)[j] {
      IdentNameInjective(ToLower(s.ident), CountLast(impls[..i], s), CountLast(impls[..j], s));
    }
  }

  /** With the intended count, the first implementor ending in a segment is named by the
      bare lowercased segment. */
  lemma {:induction false} FirstOccurrenceBare(impls: seq<Path>, i: nat)
    requires ValidImplementors(impls)
    requires i < |impls| && forall k :: 0 <= k < i ==> Last(impls[k]) != Last(impls[i])
    ensures IntendedIdents(impls)[i] == ToLower(Last(impls[i]).ident)
  {
    IntendedIdentsSpec(impls);
    CountLastZero(impls[..i], Last(impls[i]));
  }

  /** When rewriting changes no implementor, the source's numbering is the intended one. */
  lemma {:induction false} FixedPathsAgree(impls: seq<Path>, params: seq<GenericParam>)
    requires ValidImplementors(impls)
    requires forall k :: 0 <= k < |impls| ==> RewritePath(impls[k]) == impls[k]
    ensures ResolveAll(impls, params).idents == IntendedIdents(impls)
  {
    if impls != [] {
      var init := impls[..|impls| - 1];
      InitValid(impls);
      assert forall k :: 0 <= k < |init| ==> init[k] == impls[k];
      FixedPathsAgree(init, params);
      ResolvePaths(init, params);
      assert ResolveAll(init, params).paths == init;
    }
  }

  /** `Alpha<'a, 'b>`, whose rewritten form `Alpha<'b, 'a>` differs from it. */
  const Alpha: Path := [Segment("Alpha", AngleBracketed([Lifetime("'a", []), Lifetime("'b", [])]))]

  /** The rewritten `Alpha<'a, 'b>`: its lifetimes come out reversed. */
  lemma {:induction false} AlphaRewritten()
    ensures RewritePath(Alpha) == [Segment("Alpha", AngleBracketed([Lifetime("'b", []), Lifetime("'a", [])]))]
  {
    var a, b := Lifetime("'a", []), Lifetime("'b", []);
    RewriteArgsPush([], a);
    assert [] + [a] == [a];
    assert RewriteArgs([a]) == [a];
    RewriteArgsPush([a], b);
    assert [a] + [b] == [a, b];
    assert RewriteArgs([a, b]) == [b, a];
    assert Alpha[..0] == [] && Last(Alpha) == Segment("Alpha", AngleBracketed([a, b]));
  }

  lemma {:induction false} AlphaLower()
    ensures ToLower(Last(Alpha).ident) == "alpha"
  {
    assert Last(Alpha).ident == "Alpha";
    ToLowerSpec("Alpha");
    var l := ToLower("Alpha");
    assert l[0] == LowerChar('A') == 'a';
    assert l[1] == 'l' && l[2] == 'p' && l[3] == 'h' && l[4] == 'a';
    assert l == "alpha";
  }

  lemma {:induction false} AlphaAlone()
    ensures ValidImplementors([Alpha])
    ensures ResolveAll([Alpha], []).paths == [RewritePath(Alpha)]
    ensures ResolveAll([Alpha], []).idents == ["alpha"]
    ensures IntendedIdents([Alpha]) == ["alpha"]
  {
    assert [] + [Alpha] == [Alpha];
    ResolveAllPush([], Alpha, []);
    AlphaLower();
    assert CountLast([], Last(Alpha)) == 0;
    assert [Alpha][..0] == [];
  }

  /** As written, two repeats of `Alpha<'a, 'b>` are both named `alpha`, so the generated
      struct would declare the field twice. */
  lemma {:induction false} AsWrittenRepeatsCollide()
    ensures ValidImplementors([Alpha, Alpha]) && ResolveAll([Alpha, Alpha], []).idents == ["alpha", "alpha"]
  {
    AlphaAlone();
    AlphaRewritten();
    ResolveAllPush([Alpha], Alpha, []);
    assert [Alpha] + [Alpha] == [Alpha, Alpha];
    var rewritten := RewritePath(Alpha);
    assert Last(rewritten) != Last(Alpha);
    assert CountLast([rewritten], Last(Alpha)) == 0 by {
      assert [rewritten][..0] == [];
    }
    AlphaLower();
  }

  /** With the intended count, the second repeat is named `alpha_1`. */
  lemma {:induction false} CorrectedRepeatsApart()
    ensures ValidImplementors([Alpha, Alpha]) && IntendedIdents([Alpha, Alpha]) == ["alpha", "alpha_1"]
  {
    AlphaAlone();
    assert [Alpha, Alpha][..1] == [Alpha];
    assert CountLast([Alpha], Last(Alpha)) == 1 by {
      assert [Alpha][..0] == [];
    }
    AlphaLower();
    assert Decimal(1) == "1";
    assert IdentName("alpha", 1) == "alpha_1";
  }
}
