/** What `resolve_implementors_for_struct` of `rust_writer_procedural` promises
    (rust_writer_procedural/src/helpers.rs:27-114), proved about `ResolveAll`, which
    `ResolveImplementorsForStruct` is shown to compute. */
module ProceduralResolveFacts {
  import opened Text
  import opened Syntax
  import ProcHelpers
  import opened ProceduralHelpers

  lemma {:induction false} InitNonEmpty(impls: seq<Path>)
    requires ValidImplementors(impls) && impls != []
    ensures ValidImplementors(impls[..|impls| - 1]) && ValidImplementor(impls[|impls| - 1])
  {
    assert forall i :: 0 <= i < |impls| - 1 ==> impls[..|impls| - 1][i] == impls[i];
  }

  lemma {:induction false} AddArgsAppend(params: seq<GenericParam>, a: seq<GenericParam>, b: seq<GenericParam>)
    ensures AddArgs(AddArgs(params, a), b) == AddArgs(params, a + b)
    decreases |b|
  {
    if b == [] {
      assert a + b == a;
    } else {
      var init, c := b[..|b| - 1], b[|b| - 1];
      AddArgsAppend(params, a, init);
      assert a + b == (a + init) + [c];
      AddArgsPush(params, a + init, c);
    }
  }

  /** Adding arguments keeps every parameter, adds only arguments, and leaves every argument
      covered. */
  lemma {:induction false} AddArgsSpec(params: seq<GenericParam>, args: seq<GenericParam>)
    ensures forall g :: g in params ==> g in AddArgs(params, args)
    ensures forall g :: g in AddArgs(params, args) ==> g in params || g in args
    ensures forall a :: a in args ==> Covers(AddArgs(params, args), a)
  {
    if args != [] {
      var init, a := args[..|args| - 1], args[|args| - 1];
      AddArgsSpec(params, init);
      assert args == init + [a];
      var before := AddArgs(params, init);
      assert forall g :: g in before ==> g in AddArg(before, a);
      forall c | c in args ensures Covers(AddArgs(params, args), c) {
        if c != a {
          assert c in init;
          CoversGrows(before, AddArg(before, c), c);
          CoversGrows(before, AddArgs(params, args), c);
        }
      }
    }
  }

  lemma {:induction false} CoversGrows(small: seq<GenericParam>, large: seq<GenericParam>, a: GenericParam)
    requires Covers(small, a) && forall g :: g in small ==> g in large
    ensures Covers(large, a)
  {
  }

  /** The struct's own parameters stay together and in order: the lifetimes added are in
      front of them and everything else added is behind them. */
  lemma {:induction false} AddArgsShape(params: seq<GenericParam>, args: seq<GenericParam>) returns (front: seq<GenericParam>, back: seq<GenericParam>)
    ensures AddArgs(params, args) == front + params + back
    ensures forall g :: g in front ==> g.Lifetime?
    ensures forall g :: g in back ==> !g.Lifetime?
  {
    if args == [] {
      front, back := [], [];
    } else {
      var init, a := args[..|args| - 1], args[|args| - 1];
      front, back := AddArgsShape(params, init);
      var before := front + params + back;
      if !Covers(before, a) {
        if a.Lifetime? {
          Assoc([a], front, params + back);
          Assoc(front, params, back);
          Assoc([a] + front, params, back);
          front := [a] + front;
        } else {
          Assoc(front + params, back, [a]);
          Assoc(front, params, back + [a]);
          back := back + [a];
        }
      }
    }
  }

  /** The struct ends up with its parameters extended by the arguments of every last
      segment, taken in order. */
  lemma {:induction false} ResolveGenerics(impls: seq<Path>, params: seq<GenericParam>, fields: Fields)
    requires ValidImplementors(impls)
    ensures ResolveAll(impls, params, fields).generics == AddArgs(params, ProcHelpers.Candidates(impls))
  {
    if impls != [] {
      var init := impls[..|impls| - 1];
      InitNonEmpty(impls);
      ResolveGenerics(init, params, fields);
      AddArgsAppend(params, ProcHelpers.Candidates(init), ArgsOf(Last(impls[|impls| - 1])));
    }
  }

  /** Every argument of an implementor is covered by the struct's parameters afterwards, and
      the struct keeps all the parameters it had, in one block between the added lifetimes
      and the other added parameters. */
  lemma {:induction false} StructGenerics(impls: seq<Path>, params: seq<GenericParam>, fields: Fields, i: nat, a: GenericParam)
    requires ValidImplementors(impls) && i < |impls| && a in ArgsOf(Last(impls[i]))
    ensures Covers(ResolveAll(impls, params, fields).generics, a)
  {
    ResolveGenerics(impls, params, fields);
    CandidatesContain(impls, i, a);
    AddArgsSpec(params, ProcHelpers.Candidates(impls));
  }

  lemma {:induction false} CandidatesContain(impls: seq<Path>, i: nat, a: GenericParam)
    requires ValidImplementors(impls) && i < |impls| && a in ArgsOf(Last(impls[i]))
    ensures a in ProcHelpers.Candidates(impls)
  {
    var init := impls[..|impls| - 1];
    InitNonEmpty(impls);
    if i < |init| {
      assert init[i] == impls[i];
      CandidatesContain(init, i, a);
    }
  }

  lemma {:induction false} ResolveKeepsParams(impls: seq<Path>, params: seq<GenericParam>, fields: Fields) returns (front: seq<GenericParam>, back: seq<GenericParam>)
    requires ValidImplementors(impls)
    ensures ResolveAll(impls, params, fields).generics == front + params + back
    ensures forall g :: g in front ==> g.Lifetime?
    ensures forall g :: g in back ==> !g.Lifetime?
  {
    ResolveGenerics(impls, params, fields);
    front, back := AddArgsShape(params, ProcHelpers.Candidates(impls));
  }

  lemma {:induction false} CountEqualPush(idents: seq<string>, x: string, y: string)
    ensures CountEqual(idents + [y], x) == CountEqual(idents, x) + (if y == x then 1 else 0)
  {
    assert (idents + [y])[..|idents|] == idents;
  }

  /** The count is zero when no identifier is `x`. */
  lemma {:induction false} CountEqualZero(idents: seq<string>, x: string)
    requires forall k :: 0 <= k < |idents| ==> idents[k] != x
    ensures CountEqual(idents, x) == 0
  {
    if idents != [] {
      var init := idents[..|idents| - 1];
      assert forall k :: 0 <= k < |init| ==> init[k] == idents[k];
      CountEqualZero(init, x);
    }
  }

  /** The step on the identifiers: one more, counted over those before it. */
  lemma {:induction false} IdentsStep(impls: seq<Path>, params: seq<GenericParam>, fields: Fields)
    requires ValidImplementors(impls) && impls != []
    ensures ValidImplementors(impls[..|impls| - 1])
    ensures var init, p := impls[..|impls| - 1], impls[|impls| - 1];
      var before := ResolveAll(init, params, fields).resolved.idents;
      ResolveAll(impls, params, fields).resolved.idents == before + [IdentName(BaseName(p), CountEqual(before, BaseName(p)))]
  {
    InitNonEmpty(impls);
  }

  /** Each identifier of `idents` is the base name of its implementor, numbered by the
      identifiers before it equal to that name. */
  predicate Numbered(idents: seq<string>, impls: seq<Path>)
    requires ValidImplementors(impls)
  {
    |idents| == |impls| &&
    forall i :: 0 <= i < |impls| ==> idents[i] == IdentName(BaseName(impls[i]), CountEqual(idents[..i], BaseName(impls[i])))
  }

  lemma {:induction false} NumberedPush(idents: seq<string>, impls: seq<Path>)
    requires ValidImplementors(impls) && impls != []
    requires ValidImplementors(impls[..|impls| - 1]) && Numbered(idents, impls[..|impls| - 1])
    ensures var p := impls[|impls| - 1];
      Numbered(idents + [IdentName(BaseName(p), CountEqual(idents, BaseName(p)))], impls)
  {
    var init, p := impls[..|impls| - 1], impls[|impls| - 1];
    var r := idents + [IdentName(BaseName(p), CountEqual(idents, BaseName(p)))];
    forall i | 0 <= i < |impls|
      ensures r[i] == IdentName(BaseName(impls[i]), CountEqual(r[..i], BaseName(impls[i])))
    {
      if i < |init| {
        assert r[i] == idents[i] && impls[i] == init[i];
        assert r[..i] == idents[..i];
      } else {
        assert r[..i] == idents;
      }
    }
  }

  /** One identifier per implementor, in input order: its lowercased last segment, with the
      count of the earlier identifiers equal to that bare name. */
  lemma {:induction false} ResolveIdents(impls: seq<Path>, params: seq<GenericParam>, fields: Fields)
    requires ValidImplementors(impls)
    ensures var r := ResolveAll(impls, params, fields).resolved;
      |r.idents| == |impls| &&
      forall i :: 0 <= i < |impls| ==> r.idents[i] == IdentName(BaseName(impls[i]), CountEqual(r.idents[..i], BaseName(impls[i])))
  {
    if impls != [] {
      IdentsStep(impls, params, fields);
      ResolveIdents(impls[..|impls| - 1], params, fields);
      NumberedPush(ResolveAll(impls[..|impls| - 1], params, fields).resolved.idents, impls);
    }
    assert Numbered(ResolveAll(impls, params, fields).resolved.idents, impls);
  }

  /** One identifier per implementor. */
  lemma {:induction false} IdentsCount(impls: seq<Path>, params: seq<GenericParam>, fields: Fields)
    requires ValidImplementors(impls)
    ensures |ResolveAll(impls, params, fields).resolved.idents| == |impls|
  {
    if impls != [] {
      IdentsStep(impls, params, fields);
      IdentsCount(impls[..|impls| - 1], params, fields);
    }
  }

  /** The identifiers depend on the implementors alone, not on the struct's parameters or
      fields. */
  lemma {:induction false} IdentsIgnoreStruct(impls: seq<Path>, params: seq<GenericParam>, fields: Fields, params': seq<GenericParam>, fields': Fields)
    requires ValidImplementors(impls)
    ensures ResolveAll(impls, params, fields).resolved.idents == ResolveAll(impls, params', fields').resolved.idents
  {
    if impls != [] {
      InitNonEmpty(impls);
      IdentsIgnoreStruct(impls[..|impls| - 1], params, fields, params', fields');
    }
  }

  /** Implementors with pairwise different lowercased names are each named by that name
      alone. */
  lemma {:induction false} DistinctNamesBare(impls: seq<Path>, params: seq<GenericParam>, fields: Fields)
    requires ValidImplementors(impls)
    requires forall i, j :: 0 <= i < j < |impls| ==> BaseName(impls[i]) != BaseName(impls[j])
    ensures var r := ResolveAll(impls, params, fields).resolved;
      |r.idents| == |impls| && forall i :: 0 <= i < |impls| ==> r.idents[i] == BaseName(impls[i])
  {
    ResolveIdents(impls, params, fields);
    var r := ResolveAll(impls, params, fields).resolved;
    assert Numbered(r.idents, impls);
    BareUpTo(r.idents, impls, |impls|);
  }

  /** Numbered identifiers of implementors with pairwise different names are bare, up to
      position `n`. */
  lemma {:induction false} BareUpTo(idents: seq<string>, impls: seq<Path>, n: nat)
    requires ValidImplementors(impls) && Numbered(idents, impls) && n <= |impls|
    requires forall i, j :: 0 <= i < j < |impls| ==> BaseName(impls[i]) != BaseName(impls[j])
    ensures forall i :: 0 <= i < n ==> idents[i] == BaseName(impls[i])
  {
    if n > 0 {
      var i := n - 1;
      BareUpTo(idents, impls, i);
      var base, before := BaseName(impls[i]), idents[..i];
      forall k | 0 <= k < i
        ensures before[k] != base
      {
        assert before[k] == idents[k] == BaseName(impls[k]);
        assert BaseName(impls[k]) != BaseName(impls[i]);
      }
      CountEqualZero(before, base);
      assert idents[i] == IdentName(base, CountEqual(before, base));
    }
  }

  /** The positions, in increasing order, of the identifiers that name no field. */
  function Kept(idents: seq<string>, fields: Fields): (r: seq<nat>)
    ensures |r| <= |idents|
    ensures forall k :: 0 <= k < |r| ==> r[k] < |idents|
  {
    if idents == [] then []
    else Kept(idents[..|idents| - 1], fields) + (if HasField(fields, idents[|idents| - 1]) then [] else [|idents| - 1])
  }

  lemma {:induction false} KeptPush(idents: seq<string>, fields: Fields, x: string)
    ensures Kept(idents + [x], fields) == Kept(idents, fields) + (if HasField(fields, x) then [] else [|idents|])
  {
    assert (idents + [x])[..|idents|] == idents;
  }

  /** A position is kept exactly when its identifier names no field, and the kept positions
      are increasing. */
  lemma {:induction false} KeptSpec(idents: seq<string>, fields: Fields)
    ensures forall i :: i in Kept(idents, fields) <==> 0 <= i < |idents| && !HasField(fields, idents[i])
    ensures forall k, l :: 0 <= k < l < |Kept(idents, fields)| ==> Kept(idents, fields)[k] < Kept(idents, fields)[l]
  {
    if idents != [] {
      var init := idents[..|idents| - 1];
      KeptSpec(init, fields);
      assert forall i :: 0 <= i < |init| ==> init[i] == idents[i];
    }
  }

  /** `newIdents` and `newImpls` hold, aligned, the identifier and the rewritten path of the
      kept positions. */
  predicate Selects(newIdents: seq<string>, newImpls: seq<Path>, idents: seq<string>, rewritten: seq<Path>, fields: Fields) {
    var ks := Kept(idents, fields);
    |newIdents| == |newImpls| == |ks| && |idents| == |rewritten| &&
    forall k :: 0 <= k < |ks| ==> newIdents[k] == idents[ks[k]] && newImpls[k] == rewritten[ks[k]]
  }

  /** An implementor whose identifier names a field is only listed among all identifiers. */
  lemma {:induction false} SelectsSkip(newIdents: seq<string>, newImpls: seq<Path>, idents: seq<string>, rewritten: seq<Path>, fields: Fields, x: string, q: Path)
    requires Selects(newIdents, newImpls, idents, rewritten, fields) && HasField(fields, x)
    ensures Selects(newIdents, newImpls, idents + [x], rewritten + [q], fields)
  {
    KeptPush(idents, fields, x);
    var ks := Kept(idents, fields);
    assert Kept(idents + [x], fields) == ks;
    assert forall k :: 0 <= k < |ks| ==> (idents + [x])[ks[k]] == idents[ks[k]] && (rewritten + [q])[ks[k]] == rewritten[ks[k]];
  }

  /** An implementor whose identifier names no field gets its entry. */
  lemma {:induction false} SelectsAdd(newIdents: seq<string>, newImpls: seq<Path>, idents: seq<string>, rewritten: seq<Path>, fields: Fields, x: string, q: Path)
    requires Selects(newIdents, newImpls, idents, rewritten, fields) && !HasField(fields, x)
    ensures Selects(newIdents + [x], newImpls + [q], idents + [x], rewritten + [q], fields)
  {
    KeptPush(idents, fields, x);
    var ks := Kept(idents, fields);
    var ks' := Kept(idents + [x], fields);
    assert ks' == ks + [|idents|];
    var ni, np, ids, rs := newIdents + [x], newImpls + [q], idents + [x], rewritten + [q];
    assert |ni| == |np| == |ks'| && |ids| == |rs|;
    forall k | 0 <= k < |ks'|
      ensures ni[k] == ids[ks'[k]] && np[k] == rs[ks'[k]]
    {
      if k < |ks| {
        var m := ks[k];
        assert ks'[k] == m && m < |idents|;
        assert ni[k] == newIdents[k] && np[k] == newImpls[k];
        assert ids[m] == idents[m] && rs[m] == rewritten[m];
      } else {
        assert ks'[k] == |idents|;
      }
    }
  }

  /** The implementors needing a field are those whose identifier names no field of the
      struct, in their order, each listed with its identifier and its rewritten path. */
  lemma {:induction false} ResolveNewFields(impls: seq<Path>, params: seq<GenericParam>, fields: Fields)
    requires ValidImplementors(impls)
    ensures var r := ResolveAll(impls, params, fields).resolved;
      Selects(r.newIdents, r.newImpls, r.idents, ProcHelpers.Rewritten(impls), fields)
  {
    if impls != [] {
      var init, p := impls[..|impls| - 1], impls[|impls| - 1];
      InitNonEmpty(impls);
      ResolveNewFields(init, params, fields);
      var r := ResolveAll(init, params, fields).resolved;
      var base := BaseName(p);
      var ident := IdentName(base, CountEqual(r.idents, base));
      if HasField(fields, ident) {
        SelectsSkip(r.newIdents, r.newImpls, r.idents, ProcHelpers.Rewritten(init), fields, ident, ProcHelpers.RewritePath(p));
      } else {
        SelectsAdd(r.newIdents, r.newImpls, r.idents, ProcHelpers.Rewritten(init), fields, ident, ProcHelpers.RewritePath(p));
      }
    }
  }

  /** How many of `impls` have the base name `base`. */
  function CountBase(impls: seq<Path>, base: string): nat
    requires forall i :: 0 <= i < |impls| ==> impls[i] != []
  {
    if impls == [] then 0
    else CountBase(impls[..|impls| - 1], base) + (if BaseName(impls[|impls| - 1]) == base then 1 else 0)
  }

  /** The identifiers numbered as evidently intended: the repeat count of an implementor is
      the number of earlier implementors with the same lowercased name. */
  function IntendedIdents(impls: seq<Path>): (r: seq<string>)
    requires ValidImplementors(impls)
    ensures |r| == |impls|
  {
    if impls == [] then []
    else
      var init, p := impls[..|impls| - 1], impls[|impls| - 1];
      InitNonEmpty(impls);
      IntendedIdents(init) + [IdentName(BaseName(p), CountBase(init, BaseName(p)))]
  }

  /** The intended identifier of the `i`-th implementor. */
  function IntendedAt(impls: seq<Path>, i: nat): string
    requires ValidImplementors(impls) && i < |impls|
  {
    assert forall k :: 0 <= k < i ==> impls[..i][k] == impls[k];
    IdentName(BaseName(impls[i]), CountBase(impls[..i], BaseName(impls[i])))
  }

  lemma {:induction false} IntendedAtPrefix(impls: seq<Path>, n: nat, i: nat)
    requires ValidImplementors(impls) && i < n <= |impls|
    ensures ValidImplementors(impls[..n]) && IntendedAt(impls[..n], i) == IntendedAt(impls, i)
  {
    assert forall k :: 0 <= k < n ==> impls[..n][k] == impls[k];
    assert impls[..n][..i] == impls[..i];
  }

  /** The intended identifier of each implementor, position by position. */
  lemma {:induction false} IntendedIdentsSpec(impls: seq<Path>)
    requires ValidImplementors(impls)
    ensures forall i :: 0 <= i < |impls| ==> IntendedIdents(impls)[i] == IntendedAt(impls, i)
  {
    if impls != [] {
      var init := impls[..|impls| - 1];
      InitNonEmpty(impls);
      IntendedIdentsSpec(init);
      forall i | 0 <= i < |impls|
        ensures IntendedIdents(impls)[i] == IntendedAt(impls, i)
      {
        if i < |init| {
          IntendedAtPrefix(impls, |init|, i);
        } else {
          assert impls[..i] == init;
        }
      }
    }
  }

  lemma {:induction false} CountBaseGrows(impls: seq<Path>, i: nat, j: nat, base: string)
    requires ValidImplementors(impls)
    requires i < j <= |impls| && BaseName(impls[i]) == base
    ensures CountBase(impls[..j], base) > CountBase(impls[..i], base)
    decreases j
  {
    assert impls[..j][..j - 1] == impls[..j - 1];
    if j - 1 > i {
      CountBaseGrows(impls, i, j - 1, base);
    } else {
      assert impls[..j - 1] == impls[..i];
    }
  }

  lemma {:induction false} CountBaseZero(impls: seq<Path>, base: string)
    requires ValidImplementors(impls)
    requires forall k :: 0 <= k < |impls| ==> BaseName(impls[k]) != base
    ensures CountBase(impls, base) == 0
  {
    if impls != [] {
      InitNonEmpty(impls);
      CountBaseZero(impls[..|impls| - 1], base);
    }
  }

  /** With the intended count, implementors with the same lowercased name get different
      identifiers: `bar`, `bar_1`, `bar_2`, ... */
  lemma {:induction false} RepeatsNumberedApart(impls: seq<Path>, i: nat, j: nat)
    requires ValidImplementors(impls)
    requires i < j < |impls| && BaseName(impls[i]) == BaseName(impls[j])
    ensures IntendedIdents(impls)[i] != IntendedIdents(impls)[j]
  {
    IntendedIdentsSpec(impls);
    var base := BaseName(impls[j]);
    CountBaseGrows(impls, i, j, base);
    if IntendedIdents(impls)[i] == IntendedIdents(impls)[j] {
      IdentNameInjective(base, CountBase(impls[..i], base), CountBase(impls[..j], base));
    }
  }

  /** With the intended count, the first implementor of a lowercased name is named by that
      name alone. */
  lemma {:induction false} FirstOccurrenceBare(impls: seq<Path>, i: nat)
    requires ValidImplementors(impls) && i < |impls|
    requires forall k :: 0 <= k < i ==> BaseName(impls[k]) != BaseName(impls[i])
    ensures IntendedIdents(impls)[i] == BaseName(impls[i])
  {
    IntendedIdentsSpec(impls);
    assert ValidImplementors(impls[..i]) by {
      assert forall k :: 0 <= k < i ==> impls[..i][k] == impls[k];
    }
    CountBaseZero(impls[..i], BaseName(impls[i]));
  }

  /** `Bar`, a path of one segment without arguments. */
  const Bar: Path := [Segment("Bar", NoArguments)]

  lemma {:induction false} BarLower()
    ensures BaseName(Bar) == "bar"
  {
    assert Last(Bar).ident == "Bar";
    ToLowerSpec("Bar");
    var l := ToLower("Bar");
    assert l[0] == LowerChar('B') == 'b';
    assert l[1] == 'a' && l[2] == 'r';
    assert l == "bar";
  }

  lemma {:induction false} BarsValid()
    ensures ValidImplementors([Bar]) && ValidImplementors([Bar, Bar]) && ValidImplementors([Bar, Bar, Bar])
    ensures [Bar, Bar][..1] == [Bar] && [Bar, Bar, Bar][..2] == [Bar, Bar] && [Bar][..0] == []
  {
  }

  lemma {:induction false} BarAlone()
    ensures ValidImplementors([Bar])
    ensures ResolveAll([Bar], [], Unit).resolved.idents == ["bar"]
    ensures IntendedIdents([Bar]) == ["bar"]
  {
    BarsValid();
    BarLower();
    ResolveAllPush([], Bar, [], Unit);
    assert [] + [Bar] == [Bar];
  }

  lemma {:induction false} BarTwice()
    ensures ValidImplementors([Bar, Bar])
    ensures ResolveAll([Bar, Bar], [], Unit).resolved.idents == ["bar", "bar_1"]
    ensures IntendedIdents([Bar, Bar]) == ["bar", "bar_1"]
  {
    BarAlone();
    BarLower();
    ResolveAllPush([Bar], Bar, [], Unit);
    assert [Bar] + [Bar] == [Bar, Bar];
    assert CountEqual(["bar"], "bar") == 1 by {
      assert ["bar"][..0] == [];
    }
    assert CountBase([Bar], "bar") == 1 by {
      assert [Bar][..0] == [];
    }
    assert Decimal(1) == "1";
    assert IdentName("bar", 1) == "bar_1";
  }

  /** As written, a third repeat of `Bar` is named `bar_1` like the second, so the
      generated struct would declare that field twice. */
  lemma {:induction false} AsWrittenThirdRepeatCollides()
    ensures ValidImplementors([Bar, Bar, Bar])
    ensures ResolveAll([Bar, Bar, Bar], [], Unit).resolved.idents == ["bar", "bar_1", "bar_1"]
  {
    BarTwice();
    BarLower();
    ResolveAllPush([Bar, Bar], Bar, [], Unit);
    assert [Bar, Bar] + [Bar] == [Bar, Bar, Bar];
    assert CountEqual(["bar", "bar_1"], "bar") == 1 by {
      assert ["bar", "bar_1"][..1] == ["bar"];
      assert ["bar"][..0] == [];
    }
    assert Decimal(1) == "1";
    assert IdentName("bar", 1) == "bar_1";
  }

  /** Counted over the earlier implementors' names, the third repeat is `bar_2`. */
  lemma {:induction false} CorrectedThirdRepeatApart()
    ensures ValidImplementors([Bar, Bar, Bar]) && IntendedIdents([Bar, Bar, Bar]) == ["bar", "bar_1", "bar_2"]
  {
    BarTwice();
    BarLower();
    BarsValid();
    assert CountBase([Bar, Bar], "bar") == 2 by {
      assert [Bar, Bar][..1] == [Bar];
      assert CountBase([Bar], "bar") == 1 by {
        assert [Bar][..0] == [];
      }
    }
    assert Decimal(2) == "2";
    assert IdentName("bar", 2) == "bar_2";
  }
}
