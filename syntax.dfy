/** The few pieces of Rust syntax (the `syn` crate's types) that the `#[finder]`/`#[mutator]`
    macros inspect and rewrite, as plain values, and `ItemStruct`, the struct definition the
    macros edit in place. */
module Syntax {
  import opened Text

  /** `syn::GenericParam`. An angle-bracketed argument of an implementor path is re-parsed
      into one of these: `'a` is a lifetime, `T` or `T: Bound` a type parameter. */
  datatype GenericParam =
    | Lifetime(name: string, bounds: seq<string>)
    | TypeParam(name: string, bounds: seq<string>)
    | Const(name: string, ty: string)

  /** `syn::PathArguments` of a path segment. */
  datatype PathArguments =
    | NoArguments
    | AngleBracketed(args: seq<GenericParam>)
    | Parenthesized(inputs: seq<string>)

  /** `syn::PathSegment`: an identifier and its arguments. */
  datatype Segment = Segment(ident: string, arguments: PathArguments)

  /** `syn::Path`, as its segments. */
  type Path = seq<Segment>

  /** The arguments of an attribute: `#[a]`, `#[a(...)]` or `#[a = ...]`. */
  datatype Meta = Word | List(tokens: string) | NameValue(value: string)

  /** `syn::Attribute`: the path of the attribute (its identifiers) and its arguments. */
  datatype Attr = Attr(path: seq<string>, meta: Meta)

  /** The type of a field: a path type, or any other type. */
  datatype FieldType = PathType(path: Path) | OtherType(text: string)

  datatype Field = Field(name: string, ty: FieldType)

  /** `syn::Fields`: a unit struct, named fields or tuple fields. */
  datatype Fields = Unit | Named(named: seq<Field>) | Unnamed(types: seq<FieldType>)

  /** `syn::ItemStruct`, which the macros edit in place. */
  class ItemStruct {
    var ident: string
    var attrs: seq<Attr>
    var generics: seq<GenericParam>
    var fields: Fields

    constructor (ident: string, attrs: seq<Attr>, generics: seq<GenericParam>, fields: Fields)
      ensures this.ident == ident && this.attrs == attrs && this.generics == generics
      ensures this.fields == fields
    {
      this.ident := ident;
      this.attrs := attrs;
      this.generics := generics;
      this.fields := fields;
    }
  }

  /** `#[impl_from]`. */
  const ImplFromAttr: Attr := Attr(["impl_from"], Word)

  /** `attr.path().is_ident("impl_from")`: the path is the single identifier `impl_from`,
      whatever arguments follow it. */
  predicate IsImplFrom(a: Attr) {
    a.path == ["impl_from"]
  }

  /** The attributes that are not `impl_from`, in their order. */
  function WithoutImplFrom(attrs: seq<Attr>): seq<Attr> {
    if attrs == [] then []
    else (if IsImplFrom(attrs[0]) then [] else [attrs[0]]) + WithoutImplFrom(attrs[1..])
  }

  /** Filtering keeps exactly the attributes that are not `impl_from`: each one kept is one
      of the originals, none of them is `impl_from`, and every other original survives. */
  lemma {:induction false} WithoutImplFromSpec(attrs: seq<Attr>)
    ensures |WithoutImplFrom(attrs)| <= |attrs|
    ensures forall a :: a in WithoutImplFrom(attrs) <==> a in attrs && !IsImplFrom(a)
  {
    if attrs != [] {
      WithoutImplFromSpec(attrs[1..]);
      assert attrs == [attrs[0]] + attrs[1..];
    }
  }

  /** Without any `impl_from` attribute, filtering changes nothing. */
  lemma {:induction false} WithoutImplFromUnchanged(attrs: seq<Attr>)
    requires forall a :: a in attrs ==> !IsImplFrom(a)
    ensures WithoutImplFrom(attrs) == attrs
  {
    if attrs != [] {
      assert attrs[0] in attrs;
      assert forall a :: a in attrs[1..] ==> a in attrs;
      WithoutImplFromUnchanged(attrs[1..]);
      assert attrs == [attrs[0]] + attrs[1..];
    }
  }

  /** A second filtering has no effect. */
  lemma {:induction false} WithoutImplFromIdempotent(attrs: seq<Attr>)
    ensures WithoutImplFrom(WithoutImplFrom(attrs)) == WithoutImplFrom(attrs)
  {
    WithoutImplFromSpec(attrs);
    WithoutImplFromUnchanged(WithoutImplFrom(attrs));
  }

  /** Filtering preserves the relative order of the attributes it keeps. */
  lemma {:induction false} WithoutImplFromAppend(a: seq<Attr>, b: seq<Attr>)
    ensures WithoutImplFrom(a + b) == WithoutImplFrom(a) + WithoutImplFrom(b)
  {
    if a != [] {
      assert (a + b)[0] == a[0] && (a + b)[1..] == a[1..] + b;
      WithoutImplFromAppend(a[1..], b);
    } else {
      assert a + b == b;
    }
  }

  /** The identifier of a generated field: the base name, followed by `_n` when `n` earlier
      implementors were counted as repeats. */
  function IdentName(base: string, count: nat): string {
    if count > 0 then base + "_" + Decimal(count) else base
  }

  /** Different repeat counts give different identifiers for the same base name. */
  lemma {:induction false} IdentNameInjective(base: string, n: nat, m: nat)
    requires IdentName(base, n) == IdentName(base, m)
    ensures n == m
  {
    if n > 0 && m > 0 {
      var b := base + "_";
      assert IdentName(base, n)[|b|..] == Decimal(n);
      assert IdentName(base, m)[|b|..] == Decimal(m);
      DecimalInjective(n, m);
    }
  }

  /** The last segment of a non-empty path. */
  function Last(p: Path): Segment
    requires p != []
  {
    p[|p| - 1]
  }

  /** The angle-bracketed arguments of a segment, none for any other kind. */
  function ArgsOf(s: Segment): seq<GenericParam> {
    if s.arguments.AngleBracketed? then s.arguments.args else []
  }

  /** A path the macros accept as an implementor: it has a last segment, and none of that
      segment's arguments is a const parameter (syn cannot produce one there). */
  predicate ValidImplementor(p: Path) {
    p != [] && forall a :: a in ArgsOf(Last(p)) ==> !a.Const?
  }

  /** Every path of the list is a valid implementor. */
  predicate ValidImplementors(impls: seq<Path>) {
    forall i :: 0 <= i < |impls| ==> impls[i] != [] && forall a :: a in ArgsOf(Last(impls[i])) ==> !a.Const?
  }

  /** `seq` reversal, built from the back. */
  function Reverse<T>(s: seq<T>): (r: seq<T>)
    ensures |r| == |s|
  {
    if s == [] then [] else [s[|s| - 1]] + Reverse(s[..|s| - 1])
  }

  lemma {:induction false} ReverseSpec<T>(s: seq<T>)
    ensures forall i :: 0 <= i < |s| ==> Reverse(s)[i] == s[|s| - 1 - i]
  {
    if s != [] {
      ReverseSpec(s[..|s| - 1]);
    }
  }

  lemma {:induction false} ReverseMembers<T>(s: seq<T>)
    ensures forall x :: x in Reverse(s) <==> x in s
  {
    if s != [] {
      ReverseMembers(s[..|s| - 1]);
      assert s == s[..|s| - 1] + [s[|s| - 1]];
    }
  }

  /** The lifetimes of a list of generic parameters, in order. */
  function Lifetimes(gs: seq<GenericParam>): seq<GenericParam> {
    if gs == [] then []
    else Lifetimes(gs[..|gs| - 1]) + (if gs[|gs| - 1].Lifetime? then [gs[|gs| - 1]] else [])
  }

  /** The parameters that are not lifetimes, in order. */
  function NonLifetimes(gs: seq<GenericParam>): seq<GenericParam> {
    if gs == [] then []
    else NonLifetimes(gs[..|gs| - 1]) + (if gs[|gs| - 1].Lifetime? then [] else [gs[|gs| - 1]])
  }

  lemma {:induction false} ReversePush<T>(s: seq<T>, x: T)
    ensures Reverse(s + [x]) == [x] + Reverse(s)
  {
    assert (s + [x])[..|s|] == s;
  }

  lemma {:induction false} LifetimesPush(gs: seq<GenericParam>, g: GenericParam)
    ensures g.Lifetime? ==> Lifetimes(gs + [g]) == Lifetimes(gs) + [g] && NonLifetimes(gs + [g]) == NonLifetimes(gs)
    ensures !g.Lifetime? ==> Lifetimes(gs + [g]) == Lifetimes(gs) && NonLifetimes(gs + [g]) == NonLifetimes(gs) + [g]
  {
    assert (gs + [g])[..|gs|] == gs;
    assert Lifetimes(gs) + [] == Lifetimes(gs) && NonLifetimes(gs) + [] == NonLifetimes(gs);
  }

  lemma {:induction false} LifetimesSpec(gs: seq<GenericParam>)
    ensures forall g :: g in Lifetimes(gs) <==> g in gs && g.Lifetime?
    ensures forall g :: g in NonLifetimes(gs) <==> g in gs && !g.Lifetime?
    ensures |Lifetimes(gs)| + |NonLifetimes(gs)| == |gs|
  {
    if gs != [] {
      var init, g := gs[..|gs| - 1], gs[|gs| - 1];
      LifetimesSpec(init);
      assert gs == init + [g];
      LifetimesPush(init, g);
    }
  }

  lemma {:induction false} Assoc<T>(a: seq<T>, b: seq<T>, c: seq<T>)
    ensures a + (b + c) == (a + b) + c
  {
  }

  /** No element appears twice. */
  predicate NoDup<T(==)>(s: seq<T>) {
    forall i, j :: 0 <= i < j < |s| ==> s[i] != s[j]
  }
}
