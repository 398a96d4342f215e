/** The struct-layout helper of the `#[finder]`/`#[mutator]` macros of
    `rust_writer_procedural` (rust_writer_procedural/src/helpers.rs). Unlike its
    `rust_writer_proc` counterpart it adds the implementors' generics to the struct as it
    goes, and it leaves out the implementors whose field the struct already has. */
module ProceduralHelpers {
  import opened Text
  import opened Syntax
  import ProcHelpers

  /** `ResolvedImplementors`: the identifiers and rewritten paths of the implementors that
      need a new field, and the identifiers of all implementors. */
  datatype Resolution = Resolution(newIdents: seq<string>, newImpls: seq<Path>, idents: seq<string>)

  /** The resolution together with the struct's generic parameters after it. */
  datatype Outcome = Outcome(resolved: Resolution, generics: seq<GenericParam>)

  /** The struct has a named field of this identifier. */
  predicate HasField(fields: Fields, ident: string) {
    fields.Named? && exists f :: f in fields.named && f.name == ident
  }

  /** The struct's parameters already cover the argument: an equal parameter, or for a type
      argument a const parameter of the same identifier. */
  predicate Covers(params: seq<GenericParam>, a: GenericParam) {
    a in params || (!a.Lifetime? && exists q :: q in params && q.Const? && q.name == a.name)
  }

  /** One argument added to the struct's parameters: a lifetime at the front, a type at the
      back, and nothing when it is covered already. */
  function AddArg(params: seq<GenericParam>, a: GenericParam): seq<GenericParam> {
    if Covers(params, a) then params else if a.Lifetime? then [a] + params else params + [a]
  }

  function AddArgs(params: seq<GenericParam>, args: seq<GenericParam>): seq<GenericParam> {
    if args == [] then params else AddArg(AddArgs(params, args[..|args| - 1]), args[|args| - 1])
  }

  /** The name a field for the implementor starts from: its last segment's identifier,
      lowercased. */
  function BaseName(p: Path): string
    requires p != []
  {
    ToLower(Last(p).ident)
  }

  /** How many of the identifiers `idents` are `x`. */
  function CountEqual(idents: seq<string>, x: string): nat {
    if idents == [] then 0
    else CountEqual(idents[..|idents| - 1], x) + (if idents[|idents| - 1] == x then 1 else 0)
  }

  /** `resolve_implementors_for_struct`, implementor by implementor, from the struct's
      parameters `params` and fields `fields`. The repeat count of an identifier is the
      number of earlier identifiers equal to the bare lowercased name. */
  function ResolveAll(impls: seq<Path>, params: seq<GenericParam>, fields: Fields): Outcome
    requires ValidImplementors(impls)
  {
    if impls == [] then Outcome(Resolution([], [], []), params)
    else
      var init, p := impls[..|impls| - 1], impls[|impls| - 1];
      assert ValidImplementor(p);
      var o := ResolveAll(init, params, fields);
      var base := BaseName(p);
      var ident := IdentName(base, CountEqual(o.resolved.idents, base));
      var generics := AddArgs(o.generics, ArgsOf(Last(p)));
      var r := o.resolved;
      var needed := !HasField(fields, ident);
      Outcome(Resolution(if needed then r.newIdents + [ident] else r.newIdents,
                         if needed then r.newImpls + [ProcHelpers.RewritePath(p)] else r.newImpls,
                         r.idents + [ident]),
              generics)
  }

  lemma {:induction false} ResolveAllPush(impls: seq<Path>, p: Path, params: seq<GenericParam>, fields: Fields)
    requires ValidImplementors(impls) && ValidImplementor(p)
    ensures ValidImplementors(impls + [p])
    ensures var o := ResolveAll(impls, params, fields);
      var base := BaseName(p);
      var ident := IdentName(base, CountEqual(o.resolved.idents, base));
      var r := o.resolved;
      var needed := !HasField(fields, ident);
      ResolveAll(impls + [p], params, fields) ==
        Outcome(Resolution(if needed then r.newIdents + [ident] else r.newIdents,
                           if needed then r.newImpls + [ProcHelpers.RewritePath(p)] else r.newImpls,
                           r.idents + [ident]),
                AddArgs(o.generics, ArgsOf(Last(p))))
  {
    assert (impls + [p])[..|impls|] == impls;
  }

  /** The step of the loop: resolving one more implementor of the list. */
  lemma {:induction false} ResolveAllStep(impls: seq<Path>, i: nat, params: seq<GenericParam>, fields: Fields)
    requires ValidImplementors(impls) && i < |impls|
    ensures var o, p := ResolveAll(impls[..i], params, fields), impls[i];
      var base := BaseName(p);
      var ident := IdentName(base, CountEqual(o.resolved.idents, base));
      var r := o.resolved;
      var needed := !HasField(fields, ident);
      ResolveAll(impls[..i + 1], params, fields) ==
        Outcome(Resolution(if needed then r.newIdents + [ident] else r.newIdents,
                           if needed then r.newImpls + [ProcHelpers.RewritePath(p)] else r.newImpls,
                           r.idents + [ident]),
                AddArgs(o.generics, ArgsOf(Last(p))))
  {
    assert impls[..i + 1][..i] == impls[..i];
  }

  lemma {:induction false} AddArgsPush(params: seq<GenericParam>, args: seq<GenericParam>, a: GenericParam)
    ensures AddArgs(params, args + [a]) == AddArg(AddArgs(params, args), a)
  {
    assert (args + [a])[..|args|] == args;
  }

  /** The `for_each` over the last segment's arguments: builds the rewritten arguments and
      adds each argument the struct does not cover to its parameters. A const argument
      cannot occur (the source marks it unreachable). */
  method AddImplementorGenerics(s: ItemStruct, args: seq<GenericParam>) returns (pathArgs: seq<GenericParam>)
    requires forall a :: a in args ==> !a.Const?
    modifies s
    ensures pathArgs == ProcHelpers.RewriteArgs(args)
    ensures s.generics == AddArgs(old(s.generics), args)
    ensures s.ident == old(s.ident) && s.attrs == old(s.attrs) && s.fields == old(s.fields)
  {
    pathArgs := [];
    var j := 0;
    while j < |args|
      invariant j <= |args|
      invariant pathArgs == ProcHelpers.RewriteArgs(args[..j])
      invariant s.generics == AddArgs(old(s.generics), args[..j])
      invariant s.ident == old(s.ident) && s.attrs == old(s.attrs) && s.fields == old(s.fields)
    {
      var a := args[j];
      assert args[..j + 1] == args[..j] + [a];
      ProcHelpers.RewriteArgsPush(args[..j], a);
      AddArgsPush(old(s.generics), args[..j], a);
      if a.Lifetime? {
        pathArgs := [a] + pathArgs;
        if a !in s.generics {
          s.generics := [a] + s.generics;
        }
      } else {
        pathArgs := pathArgs + [TypeParam(a.name, [])];
        if !(a in s.generics || exists q :: q in s.generics && q.Const? && q.name == a.name) {
          s.generics := s.generics + [a];
        }
      }
      j := j + 1;
    }
    assert args[..j] == args;
  }

  /** One implementor's path rewritten, its arguments added to the struct's generics. */
  method RewriteImplementor(s: ItemStruct, implementor: Path) returns (rewritten: Path)
    requires ValidImplementor(implementor)
    modifies s
    ensures rewritten == ProcHelpers.RewritePath(implementor)
    ensures s.generics == AddArgs(old(s.generics), ArgsOf(Last(implementor)))
    ensures s.ident == old(s.ident) && s.attrs == old(s.attrs) && s.fields == old(s.fields)
  {
    var last := implementor[|implementor| - 1];
    var segment := last;
    if last.arguments.AngleBracketed? {
      var pathArgs := AddImplementorGenerics(s, last.arguments.args);
      segment := Segment(last.ident, AngleBracketed(pathArgs));
    }
    rewritten := implementor[..|implementor| - 1] + [segment];
  }

  /** The loop of `resolve_implementors_for_struct`: the struct's generics grow, its other
      parts are only read. */
  method ResolveImplementorsForStruct(impls: seq<Path>, s: ItemStruct) returns (r: Resolution)
    requires ValidImplementors(impls)
    modifies s
    ensures Outcome(r, s.generics) == ResolveAll(impls, old(s.generics), s.fields)
    ensures s.ident == old(s.ident) && s.attrs == old(s.attrs) && s.fields == old(s.fields)
  {
    var newIdents: seq<string> := [];
    var newImpls: seq<Path> := [];
    var idents: seq<string> := [];
    var i := 0;
    while i < |impls|
      invariant i <= |impls|
      invariant s.ident == old(s.ident) && s.attrs == old(s.attrs) && s.fields == old(s.fields)
      invariant Outcome(Resolution(newIdents, newImpls, idents), s.generics) == ResolveAll(impls[..i], old(s.generics), s.fields)
    {
      var implementor := impls[i];
      var base := BaseName(implementor);
      var ident := IdentName(base, CountEqual(idents, base));
      var rewritten := RewriteImplementor(s, implementor);
      ResolveAllStep(impls, i, old(s.generics), s.fields);
      if s.fields.Named? && exists f :: f in s.fields.named && f.name == ident {
        idents := idents + [ident];
      } else {
        newIdents := newIdents + [ident];
        newImpls := newImpls + [rewritten];
        idents := idents + [ident];
      }
      i := i + 1;
    }
    assert impls[..i] == impls;
    r := Resolution(newIdents, newImpls, idents);
  }
}
