/** The arguments of the `#[finder]`/`#[mutator]` attributes and the check of the struct they
    decorate (rust_writer_procedural/src/parse/parse_attrs.rs). */
module ParseAttrs {
  import opened Wrappers
  import opened Syntax

  /** `MacroAttr`: an implementor of `rust_writer`, or a local one written `local = path`. */
  datatype MacroAttr = CrateImplementor(path: Path) | LocalImplementor(path: Path)

  /** One comma-separated entry of the attribute, as the parser sees it: whether it starts
      with the keyword `local` followed by `=`, and the path that parses from the rest of it
      (after `local =` when present, the whole entry otherwise), if one does. */
  datatype Entry = Entry(localEq: bool, path: Option<Path>)

  /** A parse or validation error: one of the messages below, or the error syn itself
      reports for a malformed path after `local =`. */
  datatype MacroError = Message(kind: ErrorKind) | PathSyntax

  /** The messages the macros report, each with its text. */
  datatype ErrorKind = MacroAttrParseErr | TooFewImplementorsMsg | UnitAlreadyExpandedMsg | CombinedMacrosMsg | UnitOrNamedMsg

  function MessageText(k: ErrorKind): string {
    match k
    case MacroAttrParseErr => "Expected a path to a rust_writer implementor or 'local =' followed by a local implementor path"
    case TooFewImplementorsMsg => "Expected at least two implementors."
    case UnitAlreadyExpandedMsg => "Cannot use #[already_expanded] attribute in an unit struct"
    case CombinedMacrosMsg => "#[mutator]/#[finder] combination is only possible if the set of implementors in both attributes is the same."
    case UnitOrNamedMsg => "Expected unit struct or named-field struct."
  }

  /** `MacroAttr::parse`. A path after `local =` that does not parse keeps syn's own error;
      any other entry that is not a path gets `MacroAttrParseErr`. */
  function ParseMacroAttr(e: Entry): (r: Result<MacroAttr, MacroError>)
    ensures r.Success? <==> e.path.Some?
    ensures r.Success? ==> r.value.path == e.path.value && (r.value.LocalImplementor? <==> e.localEq)
    ensures r.Failure? ==> r.error == (if e.localEq then PathSyntax else Message(MacroAttrParseErr))
  {
    if e.localEq then
      match e.path
      case Some(p) => Success(LocalImplementor(p))
      case None => Failure(PathSyntax)
    else
      match e.path
      case Some(p) => Success(CrateImplementor(p))
      case None => Failure(Message(MacroAttrParseErr))
  }

  /** `parse_terminated`: the entries parsed in order, stopping at the first error. */
  function ParseEach(entries: seq<Entry>): Result<seq<MacroAttr>, MacroError> {
    if entries == [] then Success([])
    else
      var head := ParseMacroAttr(entries[0]);
      if head.Failure? then Failure(head.error)
      else
        var tail := ParseEach(entries[1..]);
        if tail.Failure? then tail else Success([head.value] + tail.value)
  }

  /** Parsing the entries succeeds exactly when each of them is a path, and then gives one
      attribute per entry, in order; otherwise the error is that of the first entry that is
      not. */
  lemma {:induction false} ParseEachSpec(entries: seq<Entry>)
    ensures ParseEach(entries).Success? <==> forall i :: 0 <= i < |entries| ==> entries[i].path.Some?
    ensures ParseEach(entries).Success? ==>
      |ParseEach(entries).value| == |entries| &&
      forall i :: 0 <= i < |entries| ==> Success(ParseEach(entries).value[i]) == ParseMacroAttr(entries[i])
    ensures ParseEach(entries).Failure? ==>
      exists i :: 0 <= i < |entries| && entries[i].path.None? &&
        (forall j :: 0 <= j < i ==> entries[j].path.Some?) &&
        Failure(ParseEach(entries).error) == ParseMacroAttr(entries[i])
  {
    if entries != [] {
      ParseEachSpec(entries[1..]);
      var head := ParseMacroAttr(entries[0]);
      if head.Success? {
        var tail := ParseEach(entries[1..]);
        assert forall i :: 1 <= i < |entries| ==> entries[1..][i - 1] == entries[i];
        if tail.Failure? {
          var i :| 0 <= i < |entries[1..]| && entries[1..][i].path.None? &&
            (forall j :: 0 <= j < i ==> entries[1..][j].path.Some?) &&
            Failure(tail.error) == ParseMacroAttr(entries[1..][i]);
          assert entries[i + 1] == entries[1..][i];
          assert forall j :: 1 <= j < i + 1 ==> entries[j] == entries[1..][j - 1];
        }
      }
    }
  }

  /** `MacroAttrs::parse`: every entry parsed, and at least two of them. The list is
      accepted exactly when every entry is a path and there are at least two of them; with
      every entry a path but fewer than two, the error is `TooFewImplementorsMsg`. */
  function ParseMacroAttrs(entries: seq<Entry>): (r: Result<seq<MacroAttr>, MacroError>)
    ensures r.Success? <==> |entries| >= 2 && forall i :: 0 <= i < |entries| ==> entries[i].path.Some?
    ensures r.Success? ==> r == ParseEach(entries)
    ensures (forall i :: 0 <= i < |entries| ==> entries[i].path.Some?) && |entries| < 2 ==>
      r == Failure(Message(TooFewImplementorsMsg))
  {
    ParseEachSpec(entries);
    var r := ParseEach(entries);
    if r.Failure? then r
    else if |r.value| < 2 then Failure(Message(TooFewImplementorsMsg))
    else r
  }

  /** An entry gives a local implementor exactly when it starts with `local =`. */
  lemma {:induction false} LocalIffMarked(entries: seq<Entry>, i: nat)
    requires ParseMacroAttrs(entries).Success? && i < |entries|
    ensures |ParseMacroAttrs(entries).value| == |entries|
    ensures ParseMacroAttrs(entries).value[i].LocalImplementor? <==> entries[i].localEq
    ensures entries[i].path == Some(ParseMacroAttrs(entries).value[i].path)
  {
    ParseEachSpec(entries);
  }

  /** `InnerAttr`: what the struct's own attributes ask of the macro. */
  datatype InnerAttr = Nothing | AlreadyExpanded | ImplFrom

  /** `InnerAttr::parse`: the pair (struct already expanded, struct needs `From`). */
  function InnerAttrParse(a: InnerAttr): (r: (bool, bool))
    ensures r.0 <==> a == AlreadyExpanded
    ensures r.1 <==> a == ImplFrom
    ensures !(r.0 && r.1)
  {
    match a
    case Nothing => (false, false)
    case AlreadyExpanded => (true, false)
    case ImplFrom => (false, true)
  }

  /** The three spellings of `#[already_expanded]`. */
  const AlreadyExpandedAttrs: seq<Attr> := [
    Attr(["rust_writer", "ast", "already_expanded"], Word),
    Attr(["rust_writer_procedural", "already_expanded"], Word),
    Attr(["already_expanded"], Word)
  ]

  /** The struct carries one of the spellings of `#[already_expanded]`, exactly. */
  predicate IsAlreadyExpanded(attrs: seq<Attr>) {
    exists k :: 0 <= k < |AlreadyExpandedAttrs| && AlreadyExpandedAttrs[k] in attrs
  }

  /** The struct carries `#[impl_from]` exactly (an `impl_from` with arguments does not
      count here). */
  predicate NeedsImplFrom(attrs: seq<Attr>) {
    ImplFromAttr in attrs
  }

  /** The path standing for a field whose type is not a path, chosen so that no implementor
      is expected to equal it. */
  const ToyPath: Path := [
    Segment("some", NoArguments), Segment("unlikely", NoArguments), Segment("used", NoArguments),
    Segment("path", NoArguments), Segment("segment", NoArguments), Segment("as_", NoArguments),
    Segment("implementor", NoArguments), Segment("name", NoArguments)
  ]

  /** The path a field contributes to the comparison. */
  function FieldPath(f: Field): Path {
    match f.ty
    case PathType(p) => p
    case OtherType(_) => ToyPath
  }

  /** `struct_path_values`: the path of each named field, in order. */
  function FieldPaths(fs: seq<Field>): (r: seq<Path>)
    ensures |r| == |fs| && forall i :: 0 <= i < |fs| ==> r[i] == FieldPath(fs[i])
  {
    if fs == [] then [] else [FieldPath(fs[0])] + FieldPaths(fs[1..])
  }

  /** A constrained type argument `T: Bound` becomes the plain type `T`; other arguments are
      kept. */
  function StripConstraint(g: GenericParam): (r: GenericParam)
    ensures r.Lifetime? <==> g.Lifetime?
    ensures r.name == g.name
  {
    if g.TypeParam? then TypeParam(g.name, []) else g
  }

  function StripConstraints(args: seq<GenericParam>): (r: seq<GenericParam>)
    ensures |r| == |args| && forall j :: 0 <= j < |args| ==> r[j] == StripConstraint(args[j])
  {
    if args == [] then [] else StripConstraints(args[..|args| - 1]) + [StripConstraint(args[|args| - 1])]
  }

  /** The `iter_mut` over the last segment's arguments, in place. */
  method StripConstraintsInPlace(args: array<GenericParam>)
    modifies args
    ensures args[..] == StripConstraints(old(args[..]))
  {
    for j := 0 to args.Length
      invariant forall k :: 0 <= k < j ==> args[k] == StripConstraint(old(args[k]))
      invariant forall k :: j <= k < args.Length ==> args[k] == old(args[k])
    {
      if args[j].TypeParam? {
        args[j] := TypeParam(args[j].name, []);
      }
    }
  }

  /** The implementor path as it is compared with the field types: the last segment's
      constrained arguments reduced to their identifiers. */
  function StripPath(p: Path): (r: Path)
    requires p != []
    ensures |r| == |p| && r[..|p| - 1] == p[..|p| - 1] && r[|p| - 1].ident == Last(p).ident
  {
    var last := Last(p);
    if last.arguments.AngleBracketed? then p[..|p| - 1] + [Segment(last.ident, AngleBracketed(StripConstraints(last.arguments.args)))]
    else p
  }

  /** `implementors_vec`: every implementor, crate or local, stripped. */
  function StrippedImplementors(impls: seq<MacroAttr>): (r: seq<Path>)
    requires forall i :: 0 <= i < |impls| ==> impls[i].path != []
    ensures |r| == |impls| && forall i :: 0 <= i < |impls| ==> r[i] == StripPath(impls[i].path)
  {
    if impls == [] then [] else [StripPath(impls[0].path)] + StrippedImplementors(impls[1..])
  }

  /** `position`: the first index holding `x`. */
  function Position(values: seq<Path>, x: Path): (r: Option<nat>)
    ensures r.Some? ==> r.value < |values| && values[r.value] == x && forall k :: 0 <= k < r.value ==> values[k] != x
    ensures r.None? ==> forall k :: 0 <= k < |values| ==> values[k] != x
  {
    if values == [] then None
    else if values[0] == x then Some(0)
    else
      match Position(values[1..], x)
      case Some(k) => Some(k + 1)
      case None => None
  }

  /** The check of an already expanded named struct: its field paths, from the first equal
      to the first implementor, must be exactly the implementors. */
  function CheckCombination(values: seq<Path>, implementors: seq<Path>): Result<InnerAttr, MacroError>
    requires implementors != []
  {
    match Position(values, implementors[0])
    case Some(p) => if values[p..] == implementors then Success(AlreadyExpanded) else Failure(Message(CombinedMacrosMsg))
    case None => Failure(Message(CombinedMacrosMsg))
  }

  /** An already expanded named struct needs at least one implementor to compare with (the
      parsed attribute list always has two). */
  predicate ValidateDemands(attrs: seq<Attr>, fields: Fields, impls: seq<MacroAttr>) {
    (forall i :: 0 <= i < |impls| ==> impls[i].path != []) &&
    (fields.Named? && IsAlreadyExpanded(attrs) ==> impls != [])
  }

  /** `MacroAttrs::validate_struct`, the decision table over the struct's fields and its two
      attributes. */
  function ValidateStruct(attrs: seq<Attr>, fields: Fields, impls: seq<MacroAttr>): (r: Result<InnerAttr, MacroError>)
    requires ValidateDemands(attrs, fields, impls)
    ensures r.Success? ==> (r.value == AlreadyExpanded <==> IsAlreadyExpanded(attrs))
    ensures r.Success? ==> (r.value == ImplFrom <==> !IsAlreadyExpanded(attrs) && NeedsImplFrom(attrs))
    ensures r.Failure? ==> r.error.Message? && r.error.kind != MacroAttrParseErr && r.error.kind != TooFewImplementorsMsg
  {
    var expanded, implFrom := IsAlreadyExpanded(attrs), NeedsImplFrom(attrs);
    match fields
    case Unit =>
      if expanded then Failure(Message(UnitAlreadyExpandedMsg))
      else if implFrom then Success(ImplFrom) else Success(Nothing)
    case Named(named) =>
      if expanded then CheckCombination(FieldPaths(named), StrippedImplementors(impls))
      else if implFrom then Success(ImplFrom) else Success(Nothing)
    case Unnamed(_) => Failure(Message(UnitOrNamedMsg))
  }

  /** A unit struct with any spelling of `#[already_expanded]` is rejected. */
  lemma {:induction false} UnitAlreadyExpandedRejected(attrs: seq<Attr>, impls: seq<MacroAttr>, k: nat)
    requires forall i :: 0 <= i < |impls| ==> impls[i].path != []
    requires k < |AlreadyExpandedAttrs| && AlreadyExpandedAttrs[k] in attrs
    ensures ValidateStruct(attrs, Unit, impls) == Failure(Message(UnitAlreadyExpandedMsg))
  {
  }

  /** Without `#[already_expanded]`, a unit or named struct is accepted, asking for `From`
      exactly when it carries `#[impl_from]`. */
  lemma {:induction false} NotExpandedAccepted(attrs: seq<Attr>, fields: Fields, impls: seq<MacroAttr>)
    requires forall i :: 0 <= i < |impls| ==> impls[i].path != []
    requires !fields.Unnamed? && forall k :: 0 <= k < |AlreadyExpandedAttrs| ==> AlreadyExpandedAttrs[k] !in attrs
    ensures ValidateStruct(attrs, fields, impls) == Success(if ImplFromAttr in attrs then ImplFrom else Nothing)
  {
  }

  /** A tuple struct is rejected, whatever its attributes. */
  lemma {:induction false} TupleStructRejected(attrs: seq<Attr>, types: seq<FieldType>, impls: seq<MacroAttr>)
    requires forall i :: 0 <= i < |impls| ==> impls[i].path != []
    ensures ValidateStruct(attrs, Unnamed(types), impls) == Failure(Message(UnitOrNamedMsg))
  {
  }

  /** An already expanded named struct is recognised exactly when, from the first field whose
      path equals the first stripped implementor, the field paths are the stripped
      implementors; it is rejected with `CombinedMacrosMsg` otherwise. */
  lemma {:induction false} ExpandedNamedChecked(attrs: seq<Attr>, named: seq<Field>, impls: seq<MacroAttr>)
    requires ValidateDemands(attrs, Named(named), impls) && IsAlreadyExpanded(attrs)
    ensures ValidateStruct(attrs, Named(named), impls) == Success(AlreadyExpanded) <==>
      EndsWithFrom(FieldPaths(named), StrippedImplementors(impls))
    ensures ValidateStruct(attrs, Named(named), impls).Success? ==> ValidateStruct(attrs, Named(named), impls) == Success(AlreadyExpanded)
    ensures ValidateStruct(attrs, Named(named), impls).Failure? ==>
      ValidateStruct(attrs, Named(named), impls) == Failure(Message(CombinedMacrosMsg))
  {
    var values, expected := FieldPaths(named), StrippedImplementors(impls);
    assert ValidateStruct(attrs, Named(named), impls) == CheckCombination(values, expected);
    CombinationChecked(values, expected);
  }

  /** From the first value equal to the first expected path on, the values are exactly the
      expected paths. */
  predicate EndsWithFrom(values: seq<Path>, expected: seq<Path>) {
    expected != [] &&
    exists p :: 0 <= p < |values| && values[p] == expected[0] &&
      (forall k :: 0 <= k < p ==> values[k] != expected[0]) && values[p..] == expected
  }

  /** The comparison itself: it succeeds exactly when the values, from the first one equal to
      the first implementor, are the implementors, and it fails with `CombinedMacrosMsg`. */
  lemma {:induction false} CombinationChecked(values: seq<Path>, expected: seq<Path>)
    requires expected != []
    ensures CheckCombination(values, expected) == Success(AlreadyExpanded) <==> EndsWithFrom(values, expected)
    ensures CheckCombination(values, expected).Success? ==> CheckCombination(values, expected) == Success(AlreadyExpanded)
    ensures CheckCombination(values, expected).Failure? ==> CheckCombination(values, expected) == Failure(Message(CombinedMacrosMsg))
  {
    forall p | 0 <= p < |values| && values[p] == expected[0] && (forall k :: 0 <= k < p ==> values[k] != expected[0])
      ensures Position(values, expected[0]) == Some(p)
    {
      PositionUnique(values, expected[0], p);
    }
  }

  /** The first index holding `x` is the one `Position` finds. */
  lemma {:induction false} PositionUnique(values: seq<Path>, x: Path, p: nat)
    requires p < |values| && values[p] == x && forall k :: 0 <= k < p ==> values[k] != x
    ensures Position(values, x) == Some(p)
  {
    if p > 0 {
      assert values[0] != x;
      assert forall k :: 0 <= k < p - 1 ==> values[1..][k] == values[k + 1];
      PositionUnique(values[1..], x, p - 1);
    }
  }

  /** When the struct's field paths end with exactly the stripped implementors, and the
      first of them does not occur earlier, the struct is recognised as expanded. */
  lemma {:induction false} ExpandedStructRecognised(attrs: seq<Attr>, named: seq<Field>, impls: seq<MacroAttr>, p: nat)
    requires ValidateDemands(attrs, Named(named), impls) && IsAlreadyExpanded(attrs)
    requires p <= |named| && FieldPaths(named)[p..] == StrippedImplementors(impls)
    requires forall k :: 0 <= k < p ==> FieldPaths(named)[k] != StrippedImplementors(impls)[0]
    ensures ValidateStruct(attrs, Named(named), impls) == Success(AlreadyExpanded)
  {
    ExpandedNamedChecked(attrs, named, impls);
    assert FieldPaths(named)[p] == FieldPaths(named)[p..][0];
  }

  /** Unless an implementor is the stand-in path itself, a field whose type is not a path is
      never part of the fields matched against the implementors. */
  lemma {:induction false} NonPathFieldsNeverMatch(attrs: seq<Attr>, named: seq<Field>, impls: seq<MacroAttr>)
    requires ValidateDemands(attrs, Named(named), impls) && IsAlreadyExpanded(attrs)
    requires forall i :: 0 <= i < |impls| ==> StripPath(impls[i].path) != ToyPath
    requires ValidateStruct(attrs, Named(named), impls) == Success(AlreadyExpanded)
    ensures var pos := Position(FieldPaths(named), StrippedImplementors(impls)[0]);
      pos.Some? && forall k :: pos.value <= k < |named| ==> named[k].ty.PathType?
  {
    var values, expected := FieldPaths(named), StrippedImplementors(impls);
    var q := Position(values, expected[0]).value;
    assert values[q..] == expected;
    forall k | q <= k < |named| ensures named[k].ty.PathType? {
      assert values[k] == values[q..][k - q] == expected[k - q];
    }
  }

  /** Stripping keeps the lifetimes where they are: it never reorders the arguments. */
  lemma {:induction false} StripKeepsLifetimes(args: seq<GenericParam>)
    ensures Lifetimes(StripConstraints(args)) == Lifetimes(args)
  {
    if args != [] {
      var init, a := args[..|args| - 1], args[|args| - 1];
      StripKeepsLifetimes(init);
      LifetimesPush(StripConstraints(init), StripConstraint(a));
      LifetimesPush(init, a);
      assert args == init + [a];
    }
  }

  /** `Pair<'a, 'b>`, and the same path with its lifetimes in the order the struct helpers
      write them into a field type. */
  const PairPath: Path := [Segment("Pair", AngleBracketed([Lifetime("'a", []), Lifetime("'b", [])]))]
  const PairField: Path := [Segment("Pair", AngleBracketed([Lifetime("'b", []), Lifetime("'a", [])]))]
  const PlainPath: Path := [Segment("Plain", NoArguments)]

  lemma {:induction false} PairStripped()
    ensures StripPath(PairPath) == PairPath && StripPath(PlainPath) == PlainPath
  {
    var a, b := Lifetime("'a", []), Lifetime("'b", []);
    assert StripConstraints([a, b]) == [a, b] by {
      assert [a, b][..1] == [a] && [a][..0] == [];
    }
    assert PairPath[..0] == [];
  }

  /** Comparing field types with the implementors keeps their lifetimes in the written
      order, so a struct whose field for `Pair<'a, 'b>` has the type `Pair<'b, 'a>` is not
      recognised as expanded by the same implementors. */
  lemma {:induction false} ReorderedLifetimesNotRecognised()
    ensures var attrs, impls := [Attr(["already_expanded"], Word)], [CrateImplementor(PairPath), CrateImplementor(PlainPath)];
      ValidateDemands(attrs, Named([Field("pair", PathType(PairField)), Field("plain", PathType(PlainPath))]), impls) &&
      ValidateStruct(attrs, Named([Field("pair", PathType(PairField)), Field("plain", PathType(PlainPath))]), impls) ==
        Failure(Message(CombinedMacrosMsg))
  {
    var attrs, impls := [Attr(["already_expanded"], Word)], [CrateImplementor(PairPath), CrateImplementor(PlainPath)];
    var named := [Field("pair", PathType(PairField)), Field("plain", PathType(PlainPath))];
    assert IsAlreadyExpanded(attrs) by {
      assert AlreadyExpandedAttrs[2] in attrs;
    }
    PairStripped();
    assert StrippedImplementors(impls)[0] == PairPath;
    var values := FieldPaths(named);
    assert values[0] == PairField && values[1] == PlainPath;
    assert PairField[0] != PairPath[0] by {
      assert PairField[0].arguments.args[0] != PairPath[0].arguments.args[0];
    }
    assert PlainPath != PairPath by {
      assert PlainPath[0].ident != PairPath[0].ident;
    }
    assert Position(values, PairPath).None?;
  }
}
