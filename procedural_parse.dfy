/** `MacroFinderMutatorParsed::try_from` of `rust_writer_procedural`
    (rust_writer_procedural/src/parse/parse_mutator_finder_macros.rs): the struct is
    validated, the crate implementors and then the local ones are resolved against it, each
    pass adding their generics to the struct, and new fields are listed for the implementors
    whose field the struct does not have. */
module ProceduralParse {
  import opened Wrappers
  import opened Syntax
  import opened ParseAttrs
  import opened MacroParse
  import opened ProceduralHelpers
  import opened ProceduralResolveFacts
  import ProcHelpers

  /** `MacroFinderMutatorParsed` without the constant index `one` and the parts
      `extract_generics` derives; `generics` are those of the struct it holds. */
  datatype Parsed = Parsed(
    crateIdents: seq<string>,
    localIdents: seq<string>,
    alreadyExpanded: bool,
    implFrom: bool,
    count: nat,
    crateIndexes: seq<nat>,
    localIndexes: seq<nat>,
    newFields: seq<Field>,
    generics: seq<GenericParam>)

  /** The parsed parts from the validation flags (expanded, needs `From`), the two
      resolutions and the struct's generics after both. */
  function Assemble(flags: (bool, bool), crate: Resolution, local: Resolution, generics: seq<GenericParam>): Parsed {
    var c, l := |crate.idents|, |local.idents|;
    Parsed(crate.idents, local.idents, flags.0, flags.1, c + l, Range(0, c), Range(c, c + l),
           ZipFields(crate.newIdents, crate.newImpls) + ZipFields(local.newIdents, local.newImpls),
           generics)
  }

  /** What `try_from` yields for the implementors `impls` and a struct with attributes
      `attrs`, generic parameters `params` and fields `fields`. */
  function TryFromSpec(impls: seq<MacroAttr>, attrs: seq<Attr>, params: seq<GenericParam>, fields: Fields): Result<Parsed, MacroError>
    requires ValidAttrs(impls)
  {
    SplitSpec(impls);
    var v := ValidateStruct(attrs, fields, impls);
    if v.Failure? then Failure(v.error)
    else
      var crate := ResolveAll(CratePaths(impls), params, fields);
      var local := ResolveAll(LocalPaths(impls), crate.generics, fields);
      Success(Assemble(InnerAttrParse(v.value), crate.resolved, local.resolved, local.generics))
  }

  /** The indexes and the new fields: collected from the crate pairs, then pushed from the
      local ones. */
  method AssembleParts(flags: (bool, bool), crate: Resolution, local: Resolution, generics: seq<GenericParam>) returns (p: Parsed)
    ensures p == Assemble(flags, crate, local, generics)
  {
    var c, l := |crate.idents|, |local.idents|;
    var newFields := ZipFields(crate.newIdents, crate.newImpls);
    newFields := PushFields(newFields, local.newIdents, local.newImpls);
    p := Parsed(crate.idents, local.idents, flags.0, flags.1, c + l, Range(0, c), Range(c, c + l),
                newFields, generics);
  }

  /** `try_from`: on success the struct holds the generics of both passes; its attributes,
      identifier and fields are kept. */
  method TryFrom(impls: seq<MacroAttr>, s: ItemStruct) returns (r: Result<Parsed, MacroError>)
    requires ValidAttrs(impls)
    modifies s
    ensures r == TryFromSpec(impls, old(s.attrs), old(s.generics), old(s.fields))
    ensures s.generics == if r.Success? then r.value.generics else old(s.generics)
    ensures s.ident == old(s.ident) && s.attrs == old(s.attrs) && s.fields == old(s.fields)
  {
    SplitSpec(impls);
    var v := ValidateStruct(s.attrs, s.fields, impls);
    if v.Failure? {
      return Failure(v.error);
    }
    var crate := ResolveImplementorsForStruct(CratePaths(impls), s);
    var local := ResolveImplementorsForStruct(LocalPaths(impls), s);
    var p := AssembleParts(InnerAttrParse(v.value), crate, local, s.generics);
    r := Success(p);
  }

  /** Validation decides: `try_from` fails exactly when validation does, with its error, and
      on success the flags are those of the struct's attributes. */
  lemma {:induction false} ValidationDecides(impls: seq<MacroAttr>, attrs: seq<Attr>, params: seq<GenericParam>, fields: Fields)
    requires ValidAttrs(impls)
    ensures var v, r := ValidateStruct(attrs, fields, impls), TryFromSpec(impls, attrs, params, fields);
      (r.Failure? <==> v.Failure?) && (v.Failure? ==> r.error == v.error) &&
      (r.Success? ==> (r.value.alreadyExpanded <==> IsAlreadyExpanded(attrs)) &&
                      (r.value.implFrom <==> NeedsImplFrom(attrs) && !IsAlreadyExpanded(attrs)))
  {
    var v := ValidateStruct(attrs, fields, impls);
    if v.Success? && fields.Named? && IsAlreadyExpanded(attrs) {
      var s := StrippedImplementors(impls);
      match Position(FieldPaths(fields.named), s[0])
      case Some(p) =>
      case None =>
    }
  }

  /** Counts and indexes: one per implementor, whether it gets a new field or not, the crate
      ones numbered first from zero and the local ones after them. */
  lemma {:induction false} ParsedIndexes(impls: seq<MacroAttr>, attrs: seq<Attr>, params: seq<GenericParam>, fields: Fields)
    requires ValidAttrs(impls) && TryFromSpec(impls, attrs, params, fields).Success?
    ensures var p := TryFromSpec(impls, attrs, params, fields).value;
      p.count == |impls| &&
      |p.crateIdents| == |p.crateIndexes| == |CratePaths(impls)| &&
      |p.localIdents| == |p.localIndexes| == |LocalPaths(impls)| &&
      p.crateIndexes + p.localIndexes == Range(0, p.count) &&
      (forall i :: i in p.crateIndexes ==> i !in p.localIndexes) &&
      (forall i :: i in p.crateIndexes + p.localIndexes <==> 0 <= i < p.count)
  {
    SplitSpec(impls);
    var crate := ResolveAll(CratePaths(impls), params, fields);
    IdentsCount(CratePaths(impls), params, fields);
    IdentsCount(LocalPaths(impls), crate.generics, fields);
    var p := TryFromSpec(impls, attrs, params, fields).value;
    RangesPartition(|CratePaths(impls)|, p.count);
  }

  /** The fields listed from one resolution: exactly one per implementor whose identifier
      names no field of the struct, in the implementors' order, each with its rewritten path;
      so none is named like a field the struct has, and every such implementor is listed. */
  lemma {:induction false} SelectedFields(newIdents: seq<string>, newImpls: seq<Path>, idents: seq<string>, rewritten: seq<Path>, fields: Fields)
    requires Selects(newIdents, newImpls, idents, rewritten, fields)
    ensures var z, ks := ZipFields(newIdents, newImpls), Kept(idents, fields);
      |z| == |ks| &&
      (forall k :: 0 <= k < |z| ==> z[k] == Field(idents[ks[k]], PathType(rewritten[ks[k]])))
    ensures var z := ZipFields(newIdents, newImpls);
      |z| <= |idents| &&
      (forall f :: f in z ==> !HasField(fields, f.name)) &&
      (forall i :: 0 <= i < |idents| && !HasField(fields, idents[i]) ==> Field(idents[i], PathType(rewritten[i])) in z)
  {
    var z, ks := ZipFields(newIdents, newImpls), Kept(idents, fields);
    KeptSpec(idents, fields);
    forall f | f in z ensures !HasField(fields, f.name) {
      var k :| 0 <= k < |z| && z[k] == f;
      assert ks[k] in ks;
    }
    forall i | 0 <= i < |idents| && !HasField(fields, idents[i])
      ensures Field(idents[i], PathType(rewritten[i])) in z
    {
      assert i in ks;
      var k :| 0 <= k < |ks| && ks[k] == i;
      assert z[k] == Field(idents[i], PathType(rewritten[i]));
    }
  }

  /** The fields listed for the implementors `paths`, numbered `idents`: one per implementor
      whose identifier names no field of the struct, in the implementors' order, named by
      that identifier and typed by the rewritten path. */
  function KeptFields(idents: seq<string>, paths: seq<Path>, fields: Fields): (r: seq<Field>)
    requires |idents| == |paths| && ValidImplementors(paths)
    ensures |r| == |Kept(idents, fields)| <= |paths|
  {
    var ks := Kept(idents, fields);
    seq(|ks|, k requires 0 <= k < |ks| => Field(idents[ks[k]], PathType(ProcHelpers.RewritePath(paths[ks[k]]))))
  }

  /** A resolution that selects from the rewritten `paths` lists exactly their kept fields. */
  lemma {:induction false} SelectedKeptFields(newIdents: seq<string>, newImpls: seq<Path>, idents: seq<string>, paths: seq<Path>, fields: Fields)
    requires ValidImplementors(paths) && |idents| == |paths|
    requires Selects(newIdents, newImpls, idents, ProcHelpers.Rewritten(paths), fields)
    ensures ZipFields(newIdents, newImpls) == KeptFields(idents, paths, fields)
  {
    ProcHelpers.RewrittenSpec(paths);
    SelectedFields(newIdents, newImpls, idents, ProcHelpers.Rewritten(paths), fields);
  }

  /** The new fields of `p` for the crate paths `crate`, the local paths `local` and the
      struct's fields `fields`: exactly the kept fields of the crate implementors followed by
      those of the local ones; so none is named like a field the struct has, and every
      implementor whose identifier names no field of the struct has its field, typed by its
      rewritten path. */
  predicate NewFieldsFor(p: Parsed, crate: seq<Path>, local: seq<Path>, fields: Fields)
    requires ValidImplementors(crate) && ValidImplementors(local)
  {
    |p.crateIdents| == |crate| && |p.localIdents| == |local| &&
    p.newFields == KeptFields(p.crateIdents, crate, fields) + KeptFields(p.localIdents, local, fields) &&
    |p.newFields| <= p.count &&
    (forall f :: f in p.newFields ==> !HasField(fields, f.name)) &&
    (forall i :: 0 <= i < |crate| && !HasField(fields, p.crateIdents[i]) ==>
      Field(p.crateIdents[i], PathType(ProcHelpers.RewritePath(crate[i]))) in p.newFields) &&
    (forall i :: 0 <= i < |local| && !HasField(fields, p.localIdents[i]) ==>
      Field(p.localIdents[i], PathType(ProcHelpers.RewritePath(local[i]))) in p.newFields)
  }

  /** The new fields of an assembly whose two resolutions select their implementors from the
      paths `crate` and `local`. */
  lemma {:induction false} AssembledFields(flags: (bool, bool), rc: Resolution, rl: Resolution, generics: seq<GenericParam>,
                                           crate: seq<Path>, local: seq<Path>, fields: Fields)
    requires ValidImplementors(crate) && ValidImplementors(local)
    requires |rc.idents| == |crate| && |rl.idents| == |local|
    requires Selects(rc.newIdents, rc.newImpls, rc.idents, ProcHelpers.Rewritten(crate), fields)
    requires Selects(rl.newIdents, rl.newImpls, rl.idents, ProcHelpers.Rewritten(local), fields)
    ensures NewFieldsFor(Assemble(flags, rc, rl, generics), crate, local, fields)
  {
    ProcHelpers.RewrittenSpec(crate);
    ProcHelpers.RewrittenSpec(local);
    SelectedFields(rc.newIdents, rc.newImpls, rc.idents, ProcHelpers.Rewritten(crate), fields);
    SelectedFields(rl.newIdents, rl.newImpls, rl.idents, ProcHelpers.Rewritten(local), fields);
    SelectedKeptFields(rc.newIdents, rc.newImpls, rc.idents, crate, fields);
    SelectedKeptFields(rl.newIdents, rl.newImpls, rl.idents, local, fields);
  }

  /** The new fields `try_from` yields, expanded struct or not. */
  lemma {:induction false} ParsedNewFields(impls: seq<MacroAttr>, attrs: seq<Attr>, params: seq<GenericParam>, fields: Fields)
    requires ValidAttrs(impls) && TryFromSpec(impls, attrs, params, fields).Success?
    ensures ValidImplementors(CratePaths(impls)) && ValidImplementors(LocalPaths(impls))
    ensures NewFieldsFor(TryFromSpec(impls, attrs, params, fields).value, CratePaths(impls), LocalPaths(impls), fields)
  {
    SplitSpec(impls);
    var crate, local := CratePaths(impls), LocalPaths(impls);
    var oc := ResolveAll(crate, params, fields);
    var ol := ResolveAll(local, oc.generics, fields);
    var rc, rl := oc.resolved, ol.resolved;
    IdentsCount(crate, params, fields);
    IdentsCount(local, oc.generics, fields);
    ResolveNewFields(crate, params, fields);
    ResolveNewFields(local, oc.generics, fields);
    var v := ValidateStruct(attrs, fields, impls);
    assert TryFromSpec(impls, attrs, params, fields).value == Assemble(InnerAttrParse(v.value), rc, rl, ol.generics);
    AssembledFields(InnerAttrParse(v.value), rc, rl, ol.generics, crate, local, fields);
  }

  /** The struct's generics after both passes: its own, with the arguments of the crate and
      then the local implementors added, each of those arguments covered at the end, and the
      new lifetimes in front of the old parameters with the new types behind them. */
  lemma {:induction false} ParsedGenerics(impls: seq<MacroAttr>, attrs: seq<Attr>, params: seq<GenericParam>, fields: Fields)
    requires ValidAttrs(impls) && TryFromSpec(impls, attrs, params, fields).Success?
    ensures var p, crate, local := TryFromSpec(impls, attrs, params, fields).value, CratePaths(impls), LocalPaths(impls);
      ValidImplementors(crate) && ValidImplementors(local) &&
      p.generics == AddArgs(params, ProcHelpers.Candidates(crate) + ProcHelpers.Candidates(local)) &&
      (forall i, a :: 0 <= i < |impls| && a in ArgsOf(Last(impls[i].path)) ==> Covers(p.generics, a))
  {
    GenericsAssembled(impls, attrs, params, fields);
    SplitSpec(impls);
    var args := ProcHelpers.Candidates(CratePaths(impls)) + ProcHelpers.Candidates(LocalPaths(impls));
    AddArgsSpec(params, args);
    forall i, a | 0 <= i < |impls| && a in ArgsOf(Last(impls[i].path))
      ensures a in args
    {
      ImplementorCandidate(impls, i, a);
    }
  }

  /** The generics `try_from` ends with: the crate candidates, then the local ones, added to
      the struct's parameters. */
  lemma {:induction false} GenericsAssembled(impls: seq<MacroAttr>, attrs: seq<Attr>, params: seq<GenericParam>, fields: Fields)
    requires ValidAttrs(impls) && TryFromSpec(impls, attrs, params, fields).Success?
    ensures var crate, local := CratePaths(impls), LocalPaths(impls);
      ValidImplementors(crate) && ValidImplementors(local) &&
      TryFromSpec(impls, attrs, params, fields).value.generics == AddArgs(params, ProcHelpers.Candidates(crate) + ProcHelpers.Candidates(local))
  {
    SplitSpec(impls);
    var crate, local := CratePaths(impls), LocalPaths(impls);
    var oc := ResolveAll(crate, params, fields);
    ResolveGenerics(crate, params, fields);
    ResolveGenerics(local, oc.generics, fields);
    AddArgsAppend(params, ProcHelpers.Candidates(crate), ProcHelpers.Candidates(local));
  }

  /** Every argument of an implementor is among the candidates of its list. */
  lemma {:induction false} ImplementorCandidate(impls: seq<MacroAttr>, i: nat, a: GenericParam)
    requires ValidAttrs(impls) && i < |impls| && a in ArgsOf(Last(impls[i].path))
    ensures ValidImplementors(CratePaths(impls)) && ValidImplementors(LocalPaths(impls))
    ensures a in ProcHelpers.Candidates(CratePaths(impls)) + ProcHelpers.Candidates(LocalPaths(impls))
  {
    SplitSpec(impls);
    SplitMembers(impls);
    var crate, local := CratePaths(impls), LocalPaths(impls);
    var q := impls[i].path;
    if impls[i].CrateImplementor? {
      assert CrateImplementor(q) in impls;
      var j :| 0 <= j < |crate| && crate[j] == q;
      CandidatesContain(crate, j, a);
    } else {
      assert LocalImplementor(q) in impls;
      var j :| 0 <= j < |local| && local[j] == q;
      CandidatesContain(local, j, a);
    }
  }
}
