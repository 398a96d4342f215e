/** The struct-layout helpers of the `#[finder]`/`#[mutator]` macros of `rust_writer_proc`
    (rust_writer_proc/src/helpers.rs): naming one field per implementor, rewriting the
    implementor paths, and collecting the generic parameters they introduce. */
module ProcHelpers {
  import opened Text
  import opened Syntax

  /** `remove_impl_from_attr`: the struct keeps exactly its attributes other than
      `impl_from`, in order. */
  method RemoveImplFromAttr(s: ItemStruct)
    modifies s
    ensures s.attrs == WithoutImplFrom(old(s.attrs))
    ensures s.ident == old(s.ident) && s.generics == old(s.generics) && s.fields == old(s.fields)
  {
    s.attrs := WithoutImplFrom(s.attrs);
  }

  /** `ResolvedImplementors`: one identifier and one rewritten path per implementor, and the
      generic parameters the implementors bring in. */
  datatype Resolved = Resolved(idents: seq<string>, paths: seq<Path>, introduced: seq<GenericParam>)

  /** A type or const parameter of the struct with this identifier. */
  predicate DeclaresTypeName(params: seq<GenericParam>, name: string) {
    exists q :: q in params && (q.TypeParam? || q.Const?) && q.name == name
  }

  /** The struct already has the parameter: an equal lifetime, or a type or const parameter
      of the same identifier for a type argument. */
  predicate Declared(params: seq<GenericParam>, g: GenericParam) {
    if g.Lifetime? then g in params else DeclaresTypeName(params, g.name)
  }

  /** One argument considered for introduction: it is added unless the struct declares it or
      it was introduced before. */
  function Introduce(params: seq<GenericParam>, introduced: seq<GenericParam>, g: GenericParam): seq<GenericParam> {
    if Declared(params, g) || g in introduced then introduced else introduced + [g]
  }

  function IntroduceAll(params: seq<GenericParam>, introduced: seq<GenericParam>, args: seq<GenericParam>): seq<GenericParam> {
    if args == [] then introduced
    else Introduce(params, IntroduceAll(params, introduced, args[..|args| - 1]), args[|args| - 1])
  }

  /** One argument of the rewritten path: a lifetime is inserted at the front, a type
      argument is pushed at the back reduced to its identifier. */
  function RewriteArg(acc: seq<GenericParam>, a: GenericParam): seq<GenericParam> {
    if a.Lifetime? then [a] + acc else acc + [TypeParam(a.name, [])]
  }

  function RewriteArgs(args: seq<GenericParam>): seq<GenericParam> {
    if args == [] then [] else RewriteArg(RewriteArgs(args[..|args| - 1]), args[|args| - 1])
  }

  function RewriteSegment(s: Segment): Segment {
    if s.arguments.AngleBracketed? then Segment(s.ident, AngleBracketed(RewriteArgs(s.arguments.args))) else s
  }

  /** The implementor path with its last segment's arguments rewritten. */
  function RewritePath(p: Path): (r: Path)
    requires p != []
    ensures r != [] && |r| == |p|
  {
    p[..|p| - 1] + [RewriteSegment(Last(p))]
  }

  /** How many of `paths` end in the segment `s`. */
  function CountLast(paths: seq<Path>, s: Segment): nat {
    if paths == [] then 0
    else
      var n := if paths[|paths| - 1] != [] && Last(paths[|paths| - 1]) == s then 1 else 0;
      CountLast(paths[..|paths| - 1], s) + n
  }

  /** The arguments of every implementor's last segment, in order. */
  function Candidates(impls: seq<Path>): seq<GenericParam>
    requires forall i :: 0 <= i < |impls| ==> impls[i] != []
  {
    if impls == [] then [] else Candidates(impls[..|impls| - 1]) + ArgsOf(Last(impls[|impls| - 1]))
  }

  /** The rewritten path of every implementor, in order. */
  function Rewritten(impls: seq<Path>): (r: seq<Path>)
    requires ValidImplementors(impls)
    ensures |r| == |impls|
  {
    if impls == [] then []
    else
      assert ValidImplementors(impls[..|impls| - 1]) by {
        assert forall i :: 0 <= i < |impls| - 1 ==> impls[..|impls| - 1][i] == impls[i];
      }
      Rewritten(impls[..|impls| - 1]) + [RewritePath(impls[|impls| - 1])]
  }

  lemma {:induction false} RewrittenSpec(impls: seq<Path>)
    requires ValidImplementors(impls)
    ensures forall i :: 0 <= i < |impls| ==> Rewritten(impls)[i] == RewritePath(impls[i])
  {
    if impls != [] {
      var init := impls[..|impls| - 1];
      assert forall i :: 0 <= i < |init| ==> init[i] == impls[i];
      RewrittenSpec(init);
    }
  }

  /** `resolve_implementors_for_struct`, implementor by implementor. The repeat count of an
      identifier is the number of earlier rewritten paths whose last segment equals this
      implementor's last segment before it is rewritten. */
  function ResolveAll(impls: seq<Path>, params: seq<GenericParam>): Resolved
    requires ValidImplementors(impls)
  {
    if impls == [] then Resolved([], [], [])
    else
      var r, p := ResolveAll(impls[..|impls| - 1], params), impls[|impls| - 1];
      assert ValidImplementor(p);
      Resolved(r.idents + [IdentName(ToLower(Last(p).ident), CountLast(r.paths, Last(p)))],
               r.paths + [RewritePath(p)],
               IntroduceAll(params, r.introduced, ArgsOf(Last(p))))
  }

  lemma {:induction false} ResolveAllPush(impls: seq<Path>, p: Path, params: seq<GenericParam>)
    requires ValidImplementors(impls)
    requires ValidImplementor(p)
    ensures ValidImplementors(impls + [p])
    ensures var r, r' := ResolveAll(impls, params), ResolveAll(impls + [p], params);
      r'.idents == r.idents + [IdentName(ToLower(Last(p).ident), CountLast(r.paths, Last(p)))] &&
      r'.paths == r.paths + [RewritePath(p)] &&
      r'.introduced == IntroduceAll(params, r.introduced, ArgsOf(Last(p)))
  {
    assert (impls + [p])[..|impls|] == impls;
  }

  /** The step of the loop: resolving one more implementor of the list. */
  lemma {:induction false} ResolveAllStep(impls: seq<Path>, i: nat, params: seq<GenericParam>)
    requires ValidImplementors(impls) && i < |impls|
    ensures var r, r', p := ResolveAll(impls[..i], params), ResolveAll(impls[..i + 1], params), impls[i];
      r'.idents == r.idents + [IdentName(ToLower(Last(p).ident), CountLast(r.paths, Last(p)))] &&
      r'.paths == r.paths + [RewritePath(p)] &&
      r'.introduced == IntroduceAll(params, r.introduced, ArgsOf(Last(p)))
  {
    assert impls[..i + 1][..i] == impls[..i];
  }

  lemma {:induction false} RewriteArgsPush(args: seq<GenericParam>, a: GenericParam)
    ensures RewriteArgs(args + [a]) == RewriteArg(RewriteArgs(args), a)
  {
    assert (args + [a])[..|args|] == args;
  }

  lemma {:induction false} IntroduceAllPush(params: seq<GenericParam>, introduced: seq<GenericParam>, cs: seq<GenericParam>, c: GenericParam)
    ensures IntroduceAll(params, introduced, cs + [c]) == Introduce(params, IntroduceAll(params, introduced, cs), c)
  {
    assert (cs + [c])[..|cs|] == cs;
  }

  /** The `for_each` over the last segment's arguments: builds the rewritten arguments with
      `insert(0)`/`push` and extends the introduced generics. A const argument cannot occur
      (the source marks it unreachable). */
  method RewriteArguments(args: seq<GenericParam>, params: seq<GenericParam>, introduced: seq<GenericParam>)
    returns (pathArgs: seq<GenericParam>, introduced': seq<GenericParam>)
    requires forall a :: a in args ==> !a.Const?
    ensures pathArgs == RewriteArgs(args)
    ensures introduced' == IntroduceAll(params, introduced, args)
  {
    pathArgs, introduced' := [], introduced;
    var j := 0;
    while j < |args|
      invariant j <= |args|
      invariant pathArgs == RewriteArgs(args[..j])
      invariant introduced' == IntroduceAll(params, introduced, args[..j])
    {
      var a := args[j];
      assert args[..j + 1] == args[..j] + [a];
      RewriteArgsPush(args[..j], a);
      IntroduceAllPush(params, introduced, args[..j], a);
      if a.Lifetime? {
        pathArgs := [a] + pathArgs;
        if !(a in params || a in introduced') {
          introduced' := introduced' + [a];
        }
      } else {
        pathArgs := pathArgs + [TypeParam(a.name, [])];
        if !(DeclaresTypeName(params, a.name) || a in introduced') {
          introduced' := introduced' + [a];
        }
      }
      j := j + 1;
    }
    assert args[..j] == args;
  }

  /** One implementor's path rewritten, the arguments of its last segment considered for
      introduction. */
  method RewriteImplementor(implementor: Path, params: seq<GenericParam>, introduced: seq<GenericParam>)
    returns (rewritten: Path, introduced': seq<GenericParam>)
    requires ValidImplementor(implementor)
    ensures rewritten == RewritePath(implementor)
    ensures introduced' == IntroduceAll(params, introduced, ArgsOf(Last(implementor)))
  {
    var last := implementor[|implementor| - 1];
    var segment := last;
    introduced' := introduced;
    if last.arguments.AngleBracketed? {
      var pathArgs;
      pathArgs, introduced' := RewriteArguments(last.arguments.args, params, introduced);
      segment := Segment(last.ident, AngleBracketed(pathArgs));
    }
    rewritten := implementor[..|implementor| - 1] + [segment];
  }

  /** The loop of `resolve_implementors_for_struct`. The struct is only read. */
  method ResolveImplementorsForStruct(impls: seq<Path>, s: ItemStruct) returns (r: Resolved)
    requires ValidImplementors(impls)
    ensures r == ResolveAll(impls, s.generics)
  {
    var idents: seq<string> := [];
    var paths: seq<Path> := [];
    var introduced: seq<GenericParam> := [];
    var i := 0;
    while i < |impls|
      invariant i <= |impls|
      invariant Resolved(idents, paths, introduced) == ResolveAll(impls[..i], s.generics)
    {
      var implementor := impls[i];
      assert ValidImplementor(implementor);
      var last := implementor[|implementor| - 1];
      var ident := IdentName(ToLower(last.ident), CountLast(paths, last));
      var rewritten;
      rewritten, introduced := RewriteImplementor(implementor, s.generics, introduced);
      idents := idents + [ident];
      paths := paths + [rewritten];
      ResolveAllStep(impls, i, s.generics);
      i := i + 1;
    }
    assert impls[..i] == impls;
    r := Resolved(idents, paths, introduced);
  }

  /** The parameters placed so far around `mid`: the lifetimes among the first `i` of
      `generics`, last first, in front and the others, in order, at the back. */
  function Placed(generics: seq<GenericParam>, i: nat, mid: seq<GenericParam>): seq<GenericParam>
    requires i <= |generics|
  {
    Reverse(Lifetimes(generics[..i])) + mid + NonLifetimes(generics[..i])
  }

  /** One lifetime more is placed in front. */
  lemma {:induction false} PlacedLifetime(generics: seq<GenericParam>, i: nat, mid: seq<GenericParam>)
    requires i < |generics| && generics[i].Lifetime?
    ensures Placed(generics, i + 1, mid) == [generics[i]] + Placed(generics, i, mid)
  {
    var g, done := generics[i], generics[..i];
    assert generics[..i + 1] == done + [g];
    LifetimesPush(done, g);
    var r, n := Reverse(Lifetimes(done)), NonLifetimes(done);
    ReversePush(Lifetimes(done), g);
    Assoc([g], r, mid);
    Assoc([g], r + mid, n);
  }

  /** One parameter other than a lifetime more is placed at the back. */
  lemma {:induction false} PlacedOther(generics: seq<GenericParam>, i: nat, mid: seq<GenericParam>)
    requires i < |generics| && !generics[i].Lifetime?
    ensures Placed(generics, i + 1, mid) == Placed(generics, i, mid) + [generics[i]]
  {
    var g, done := generics[i], generics[..i];
    assert generics[..i + 1] == done + [g];
    LifetimesPush(done, g);
    Assoc(Reverse(Lifetimes(done)) + mid, NonLifetimes(done), [g]);
  }

  /** `add_new_implementors_generics`: each lifetime is inserted at the front, one at a time,
      and every other parameter pushed at the back. */
  method AddNewImplementorsGenerics(s: ItemStruct, generics: seq<GenericParam>)
    modifies s
    ensures s.generics == Reverse(Lifetimes(generics)) + old(s.generics) + NonLifetimes(generics)
    ensures s.ident == old(s.ident) && s.attrs == old(s.attrs) && s.fields == old(s.fields)
  {
    var i := 0;
    assert generics[..0] == [];
    while i < |generics|
      invariant i <= |generics|
      invariant s.generics == Placed(generics, i, old(s.generics))
      invariant s.ident == old(s.ident) && s.attrs == old(s.attrs) && s.fields == old(s.fields)
    {
      var g := generics[i];
      if g.Lifetime? {
        PlacedLifetime(generics, i, old(s.generics));
        s.generics := [g] + s.generics;
      } else {
        PlacedOther(generics, i, old(s.generics));
        s.generics := s.generics + [g];
      }
      i := i + 1;
    }
    assert generics[..i] == generics;
  }
}
