/** `MacroFinderMutatorParsed::try_from` of `rust_writer_proc`
    (rust_writer_proc/src/parse/parse_mutator_finder_macros.rs): the struct is validated,
    the crate and the local implementors are resolved against it separately, and the parts
    the generated code needs are put together. */
module ProcParse {
  import opened Wrappers
  import opened Text
  import opened Syntax
  import opened ParseAttrs
  import opened MacroParse
  import ProcHelpers
  import ProcResolveFacts

  /** `MacroFinderMutatorParsed`, without the struct itself (which `try_from` hands back
      unchanged) and without the constant index `one`. */
  datatype Parsed = Parsed(
    crateIdents: seq<string>,
    localIdents: seq<string>,
    alreadyExpanded: bool,
    implFrom: bool,
    count: nat,
    crateIndexes: seq<nat>,
    localIndexes: seq<nat>,
    introduced: seq<GenericParam>,
    newFields: seq<Field>)

  /** The parsed parts from the validation flags (expanded, needs `From`) and the two
      resolutions. */
  function Assemble(flags: (bool, bool), crate: ProcHelpers.Resolved, local: ProcHelpers.Resolved): Parsed {
    var c, l := |crate.idents|, |local.idents|;
    Parsed(crate.idents, local.idents, flags.0, flags.1, c + l, Range(0, c), Range(c, c + l),
           crate.introduced + local.introduced,
           if flags.0 then [] else ZipFields(crate.idents, crate.paths) + ZipFields(local.idents, local.paths))
  }

  /** What `try_from` yields for the implementors `impls` and a struct with attributes
      `attrs`, generic parameters `params` and fields `fields`. */
  function TryFromSpec(impls: seq<MacroAttr>, attrs: seq<Attr>, params: seq<GenericParam>, fields: Fields): Result<Parsed, MacroError>
    requires ValidAttrs(impls)
  {
    SplitSpec(impls);
    var v := ValidateStruct(attrs, fields, impls);
    if v.Failure? then Failure(v.error)
    else Success(Assemble(InnerAttrParse(v.value),
                          ProcHelpers.ResolveAll(CratePaths(impls), params),
                          ProcHelpers.ResolveAll(LocalPaths(impls), params)))
  }

  /** The indexes, the introduced generics extended by the local ones, and the new fields
      pushed one by one unless the struct is expanded. */
  method AssembleParts(flags: (bool, bool), crate: ProcHelpers.Resolved, local: ProcHelpers.Resolved) returns (p: Parsed)
    ensures p == Assemble(flags, crate, local)
  {
    var c, l := |crate.idents|, |local.idents|;
    var introduced := crate.introduced;
    introduced := introduced + local.introduced;
    var newFields: seq<Field> := [];
    if !flags.0 {
      newFields := PushFields(newFields, crate.idents, crate.paths);
      newFields := PushFields(newFields, local.idents, local.paths);
    }
    p := Parsed(crate.idents, local.idents, flags.0, flags.1, c + l, Range(0, c), Range(c, c + l),
                introduced, newFields);
  }

  /** `try_from`: the struct is only read. */
  method TryFrom(impls: seq<MacroAttr>, s: ItemStruct) returns (r: Result<Parsed, MacroError>)
    requires ValidAttrs(impls)
    ensures r == TryFromSpec(impls, s.attrs, s.generics, s.fields)
  {
    SplitSpec(impls);
    var v := ValidateStruct(s.attrs, s.fields, impls);
    if v.Failure? {
      return Failure(v.error);
    }
    var crate := ProcHelpers.ResolveImplementorsForStruct(CratePaths(impls), s);
    var local := ProcHelpers.ResolveImplementorsForStruct(LocalPaths(impls), s);
    var p := AssembleParts(InnerAttrParse(v.value), crate, local);
    r := Success(p);
  }

  /** Validation decides: `try_from` fails exactly when validation does, with its error, and
      on success the struct is taken as expanded exactly when it carries
      `#[already_expanded]`, and as needing `From` exactly when it carries `#[impl_from]`
      and is not expanded. */
  lemma {:induction false} ValidationDecides(impls: seq<MacroAttr>, attrs: seq<Attr>, params: seq<GenericParam>, fields: Fields)
    requires ValidAttrs(impls)
    ensures var v, r := ValidateStruct(attrs, fields, impls), TryFromSpec(impls, attrs, params, fields);
      (r.Failure? <==> v.Failure?) && (v.Failure? ==> r.error == v.error) &&
      (r.Success? ==> (r.value.alreadyExpanded <==> IsAlreadyExpanded(attrs)) &&
                      (r.value.implFrom <==> NeedsImplFrom(attrs) && !IsAlreadyExpanded(attrs)))
  {
    var v := ValidateStruct(attrs, fields, impls);
    if v.Success? && fields.Named? && IsAlreadyExpanded(attrs) {
      var s := StrippedImplementors(impls);
      match Position(FieldPaths(fields.named), s[0])
      case Some(p) =>
      case None =>
    }
  }

  /** Counts and indexes: one per implementor, the crate ones numbered first from zero and the
      local ones after them, so that together they are `0..count`, each once. */
  lemma {:induction false} ParsedIndexes(impls: seq<MacroAttr>, attrs: seq<Attr>, params: seq<GenericParam>, fields: Fields)
    requires ValidAttrs(impls) && TryFromSpec(impls, attrs, params, fields).Success?
    ensures var p := TryFromSpec(impls, attrs, params, fields).value;
      p.count == |impls| &&
      |p.crateIdents| == |p.crateIndexes| == |CratePaths(impls)| &&
      |p.localIdents| == |p.localIndexes| == |LocalPaths(impls)| &&
      p.crateIndexes + p.localIndexes == Range(0, p.count) &&
      (forall i :: i in p.crateIndexes ==> i !in p.localIndexes) &&
      (forall i :: i in p.crateIndexes + p.localIndexes <==> 0 <= i < p.count)
  {
    SplitSpec(impls);
    ProcResolveFacts.ResolveIdents(CratePaths(impls), params);
    ProcResolveFacts.ResolveIdents(LocalPaths(impls), params);
    var p := TryFromSpec(impls, attrs, params, fields).value;
    RangesPartition(|CratePaths(impls)|, p.count);
  }

  /** Each list is numbered on its own: a local implementor's identifier counts only the
      earlier rewritten local paths ending in its last segment, whatever the crate ones are. */
  lemma {:induction false} LocalNumberingRestarts(impls: seq<MacroAttr>, attrs: seq<Attr>, params: seq<GenericParam>, fields: Fields)
    requires ValidAttrs(impls) && TryFromSpec(impls, attrs, params, fields).Success?
    ensures var p, local := TryFromSpec(impls, attrs, params, fields).value, LocalPaths(impls);
      ValidImplementors(local) && |p.localIdents| == |local| &&
      forall i :: 0 <= i < |local| ==>
        p.localIdents[i] == ProcResolveFacts.IdentAt(local, i)
  {
    SplitSpec(impls);
    ProcResolveFacts.ResolveIdents(LocalPaths(impls), params);
  }

  /** The new fields of an assembly: none when expanded, otherwise the crate pairs and then
      the local ones. */
  lemma {:induction false} AssembleFields(flags: (bool, bool), crate: ProcHelpers.Resolved, local: ProcHelpers.Resolved)
    requires |crate.idents| == |crate.paths| && |local.idents| == |local.paths|
    ensures var p := Assemble(flags, crate, local);
      (p.alreadyExpanded ==> p.newFields == []) &&
      (!p.alreadyExpanded ==>
        |p.newFields| == p.count &&
        (forall k :: 0 <= k < |crate.idents| ==> p.newFields[k] == Field(crate.idents[k], PathType(crate.paths[k]))) &&
        (forall k :: 0 <= k < |local.idents| ==>
          p.newFields[|crate.idents| + k] == Field(local.idents[k], PathType(local.paths[k]))))
  {
    var p := Assemble(flags, crate, local);
    if !flags.0 {
      var front, back := ZipFields(crate.idents, crate.paths), ZipFields(local.idents, local.paths);
      assert p.newFields == front + back;
      assert forall k :: 0 <= k < |local.idents| ==> p.newFields[|crate.idents| + k] == back[k];
    }
  }

  /** The new fields of `p` for the crate paths `crate` and the local paths `local`: none when
      the struct is expanded; otherwise one per implementor, the crate ones first, each named
      by the implementor's identifier and typed by its rewritten path. */
  predicate NewFieldsFor(p: Parsed, crate: seq<Path>, local: seq<Path>)
    requires ValidImplementors(crate) && ValidImplementors(local)
  {
    |p.crateIdents| == |crate| && |p.localIdents| == |local| &&
    (p.alreadyExpanded ==> p.newFields == []) &&
    (!p.alreadyExpanded ==>
      |p.newFields| == p.count == |crate| + |local| &&
      (forall k :: 0 <= k < |crate| ==>
        p.newFields[k] == Field(p.crateIdents[k], PathType(ProcHelpers.RewritePath(crate[k])))) &&
      (forall k :: 0 <= k < |local| ==>
        p.newFields[|crate| + k] == Field(p.localIdents[k], PathType(ProcHelpers.RewritePath(local[k])))))
  }

  /** The new fields of an assembly whose resolutions rewrote the paths `crate` and
      `local`. */
  lemma {:induction false} AssembledFields(flags: (bool, bool), rc: ProcHelpers.Resolved, rl: ProcHelpers.Resolved, crate: seq<Path>, local: seq<Path>)
    requires ValidImplementors(crate) && ValidImplementors(local)
    requires |rc.idents| == |rc.paths| == |crate| && |rl.idents| == |rl.paths| == |local|
    requires forall i :: 0 <= i < |crate| ==> rc.paths[i] == ProcHelpers.RewritePath(crate[i])
    requires forall i :: 0 <= i < |local| ==> rl.paths[i] == ProcHelpers.RewritePath(local[i])
    ensures NewFieldsFor(Assemble(flags, rc, rl), crate, local)
  {
    AssembleFields(flags, rc, rl);
    var p := Assemble(flags, rc, rl);
    if !flags.0 {
      forall k | 0 <= k < |crate|
        ensures p.newFields[k] == Field(p.crateIdents[k], PathType(ProcHelpers.RewritePath(crate[k])))
      {
        assert rc.paths[k] == ProcHelpers.RewritePath(crate[k]);
      }
      forall k | 0 <= k < |local|
        ensures p.newFields[|crate| + k] == Field(p.localIdents[k], PathType(ProcHelpers.RewritePath(local[k])))
      {
        assert p.newFields[|rc.idents| + k] == Field(rl.idents[k], PathType(rl.paths[k]));
        assert rl.paths[k] == ProcHelpers.RewritePath(local[k]);
      }
    }
  }

  /** The new fields `try_from` yields: none for an expanded struct; otherwise one per
      implementor, the crate ones first, each named by the implementor's identifier and typed
      by its rewritten path. */
  lemma {:induction false} ParsedNewFields(impls: seq<MacroAttr>, attrs: seq<Attr>, params: seq<GenericParam>, fields: Fields)
    requires ValidAttrs(impls) && TryFromSpec(impls, attrs, params, fields).Success?
    ensures ValidImplementors(CratePaths(impls)) && ValidImplementors(LocalPaths(impls))
    ensures NewFieldsFor(TryFromSpec(impls, attrs, params, fields).value, CratePaths(impls), LocalPaths(impls))
  {
    SplitSpec(impls);
    var crate, local := CratePaths(impls), LocalPaths(impls);
    ProcResolveFacts.ResolveIdents(crate, params);
    ProcResolveFacts.ResolveIdents(local, params);
    ProcResolveFacts.ResolvePaths(crate, params);
    ProcResolveFacts.ResolvePaths(local, params);
    var rc, rl := ProcHelpers.ResolveAll(crate, params), ProcHelpers.ResolveAll(local, params);
    var v := ValidateStruct(attrs, fields, impls);
    assert TryFromSpec(impls, attrs, params, fields).value == Assemble(InnerAttrParse(v.value), rc, rl);
    AssembledFields(InnerAttrParse(v.value), rc, rl, crate, local);
  }

  /** The introduced generics: those the crate implementors introduce, then those the local
      ones introduce, neither part with a repeat nor with a parameter the struct declares. */
  lemma {:induction false} ParsedIntroduced(impls: seq<MacroAttr>, attrs: seq<Attr>, params: seq<GenericParam>, fields: Fields)
    requires ValidAttrs(impls) && TryFromSpec(impls, attrs, params, fields).Success?
    ensures var p, crate, local := TryFromSpec(impls, attrs, params, fields).value, CratePaths(impls), LocalPaths(impls);
      ValidImplementors(crate) && ValidImplementors(local) &&
      p.introduced == ProcResolveFacts.FirstUndeclared(params, ProcHelpers.Candidates(crate)) +
                      ProcResolveFacts.FirstUndeclared(params, ProcHelpers.Candidates(local)) &&
      forall g :: g in p.introduced ==> !ProcHelpers.Declared(params, g)
  {
    SplitSpec(impls);
    ProcResolveFacts.IntroducedGenerics(CratePaths(impls), params);
    ProcResolveFacts.IntroducedGenerics(LocalPaths(impls), params);
  }
}
