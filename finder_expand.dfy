/** `expand_finder` of `rust_writer_proc` (rust_writer_proc/src/finder/expand.rs): the edits
    made to the annotated struct, and the runtime behaviour of the finder wrapper and of the
    local finder that the macros generate. */
module FinderExpand {
  import opened Wrappers
  import opened Syntax
  import opened ParseAttrs
  import ProcHelpers
  import ProcParse

  /** The name of the generated wrapper type. */
  function WrapperName(ident: string): string {
    ident + "FinderWrapper"
  }

  /** Different structs get different wrapper names. */
  lemma {:induction false} WrapperNameInjective(a: string, b: string)
    requires WrapperName(a) == WrapperName(b)
    ensures a == b
  {
    assert |a| == |b|;
    assert a == WrapperName(a)[..|a|];
  }

  /** `#[rust_writer::ast::already_expanded]`, the mark left on an expanded struct. */
  const ExpandedMark: Attr := AlreadyExpandedAttrs[0]

  /** `#[derive(Debug, Clone)]`. */
  const DeriveAttr: Attr := Attr(["derive"], List("Debug, Clone"))

  /** The `From<(T0, T1, ...)>` implementation: the tuple's types, and for each field the
      tuple position that initialises it. */
  datatype FromImpl = FromImpl(types: seq<FieldType>, inits: seq<(string, nat)>)

  function FromTuple(fields: seq<Field>): (r: FromImpl)
    ensures |r.types| == |r.inits| == |fields|
  {
    FromImpl(seq(|fields|, i requires 0 <= i < |fields| => fields[i].ty),
             seq(|fields|, i requires 0 <= i < |fields| => (fields[i].name, i)))
  }

  /** The values a `From` implementation gives the fields for a tuple: field by field, the
      name with the tuple entry at its position. */
  function Construct<V>(inits: seq<(string, nat)>, tuple: seq<V>): seq<(string, V)>
    requires forall k :: 0 <= k < |inits| ==> inits[k].1 < |tuple|
  {
    seq(|inits|, k requires 0 <= k < |inits| => (inits[k].0, tuple[inits[k].1]))
  }

  /** The tuple's types are the field types in field order, and building the struct from a
      tuple puts the i-th tuple entry into the i-th field. */
  lemma {:induction false} FromTupleSpec<V>(fields: seq<Field>, tuple: seq<V>)
    requires |tuple| == |fields|
    ensures var f := FromTuple(fields);
      (forall i :: 0 <= i < |fields| ==> f.types[i] == fields[i].ty) &&
      (forall k :: 0 <= k < |f.inits| ==> f.inits[k].1 < |tuple|) &&
      var built := Construct(f.inits, tuple);
      |built| == |fields| && forall i :: 0 <= i < |fields| ==> built[i] == (fields[i].name, tuple[i])
  {
  }

  /** The struct's parts after `expand_finder`, and the `From` implementation if one is made. */
  datatype Expanded = Expanded(attrs: seq<Attr>, generics: seq<GenericParam>, fields: Fields, from: Option<FromImpl>)

  /** What `expand_finder` makes of a struct with attributes `attrs`, generics `generics` and
      fields `fields`. A tuple struct never reaches it unexpanded (the parser rejects it). */
  function Expand(attrs: seq<Attr>, generics: seq<GenericParam>, fields: Fields, p: ProcParse.Parsed): Expanded
    requires !p.alreadyExpanded ==> !fields.Unnamed?
  {
    var g := Reverse(Lifetimes(p.introduced)) + generics + NonLifetimes(p.introduced);
    if p.alreadyExpanded then Expanded(attrs, g, fields, None)
    else
      var marked := attrs + [ExpandedMark, DeriveAttr];
      var named := (if fields.Unit? then [] else fields.named) + p.newFields;
      if p.implFrom then Expanded(WithoutImplFrom(marked), g, Named(named), Some(FromTuple(named)))
      else Expanded(marked, g, Named(named), None)
  }

  /** `expand_finder`'s edits of the struct, in the source's order. */
  method ExpandFinder(s: ItemStruct, p: ProcParse.Parsed) returns (from: Option<FromImpl>, wrapperName: string)
    requires !p.alreadyExpanded ==> !s.fields.Unnamed?
    modifies s
    ensures Expanded(s.attrs, s.generics, s.fields, from) == Expand(old(s.attrs), old(s.generics), old(s.fields), p)
    ensures s.ident == old(s.ident) && wrapperName == WrapperName(s.ident)
  {
    wrapperName := s.ident + "FinderWrapper";
    ProcHelpers.AddNewImplementorsGenerics(s, p.introduced);
    from := None;
    if !p.alreadyExpanded {
      s.attrs := s.attrs + [ExpandedMark];
      s.attrs := s.attrs + [DeriveAttr];
      assert s.attrs == old(s.attrs) + [ExpandedMark, DeriveAttr];
      var structFields: seq<Field>;
      match s.fields {
        case Unit =>
          s.fields := Named(p.newFields);
          structFields := p.newFields;
        case Named(named) =>
          s.fields := Named(named + p.newFields);
          structFields := s.fields.named;
      }
      assert s.fields == Named(structFields);
      if p.implFrom {
        from := Some(FromTuple(structFields));
        ProcHelpers.RemoveImplFromAttr(s);
      }
    }
  }

  /** An expanded struct is left as it is, apart from the generics. An unexpanded one keeps
      its fields and gets the new ones after them; it is marked, so that the next
      `#[finder]`/`#[mutator]` sees it as expanded; and `#[impl_from]` is replaced by the
      `From` implementation over all its fields. */
  lemma {:induction false} ExpandSpec(attrs: seq<Attr>, generics: seq<GenericParam>, fields: Fields, p: ProcParse.Parsed)
    requires !p.alreadyExpanded ==> !fields.Unnamed?
    ensures var e := Expand(attrs, generics, fields, p);
      (p.alreadyExpanded ==> e.attrs == attrs && e.fields == fields && e.from == None) &&
      (!p.alreadyExpanded ==>
        e.fields.Named? &&
        e.fields.named == (if fields.Unit? then [] else fields.named) + p.newFields &&
        IsAlreadyExpanded(e.attrs) && DeriveAttr in e.attrs &&
        (forall a :: a in attrs && !IsImplFrom(a) ==> a in e.attrs) &&
        (p.implFrom ==> (forall a :: a in e.attrs ==> !IsImplFrom(a)) && e.from == Some(FromTuple(e.fields.named))) &&
        (!p.implFrom ==> e.attrs == attrs + [ExpandedMark, DeriveAttr] && e.from == None))
  {
    var marked := attrs + [ExpandedMark, DeriveAttr];
    assert marked[|attrs|] == AlreadyExpandedAttrs[0];
    if !p.alreadyExpanded && p.implFrom {
      WithoutImplFromSpec(marked);
      assert ExpandedMark in marked && !IsImplFrom(ExpandedMark);
      assert DeriveAttr in marked && !IsImplFrom(DeriveAttr);
    }
  }

  /** `add_new_implementors_generics`' result: the old parameters in order, the added
      lifetimes in front of them and the added types behind, each added parameter present. */
  lemma {:induction false} AddedGenerics(generics: seq<GenericParam>, added: seq<GenericParam>)
    ensures var ls, g := Lifetimes(added), Reverse(Lifetimes(added)) + generics + NonLifetimes(added);
      |g| == |generics| + |added| &&
      g[|ls|..|ls| + |generics|] == generics &&
      (forall i :: 0 <= i < |ls| ==> g[i].Lifetime?) &&
      (forall i :: |ls| + |generics| <= i < |g| ==> !g[i].Lifetime?) &&
      (forall q :: q in added ==> q in g)
  {
    FrontLifetimes(added);
    BackTypes(added);
    Members(added);
    var ls := Lifetimes(added);
    var front := Reverse(ls);
    assert |front| == |ls|;
    Placed(front, generics, NonLifetimes(added), added);
  }

  lemma {:induction false} FrontLifetimes(added: seq<GenericParam>)
    ensures forall i :: 0 <= i < |Lifetimes(added)| ==> Reverse(Lifetimes(added))[i].Lifetime?
  {
    LifetimesSpec(added);
    ReverseMembers(Lifetimes(added));
    var front := Reverse(Lifetimes(added));
    forall i | 0 <= i < |front| ensures front[i].Lifetime? {
      assert front[i] in Lifetimes(added);
    }
  }

  lemma {:induction false} BackTypes(added: seq<GenericParam>)
    ensures forall i :: 0 <= i < |NonLifetimes(added)| ==> !NonLifetimes(added)[i].Lifetime?
  {
    LifetimesSpec(added);
    var ts := NonLifetimes(added);
    forall i | 0 <= i < |ts| ensures !ts[i].Lifetime? {
      assert ts[i] in ts;
    }
  }

  lemma {:induction false} Members(added: seq<GenericParam>)
    ensures |Lifetimes(added)| + |NonLifetimes(added)| == |added|
    ensures forall q :: q in added ==> q in Reverse(Lifetimes(added)) || q in NonLifetimes(added)
  {
    LifetimesSpec(added);
    ReverseMembers(Lifetimes(added));
  }

  /** Lifetimes placed in front of the old parameters and the rest behind them. */
  lemma {:induction false} Placed(front: seq<GenericParam>, generics: seq<GenericParam>, back: seq<GenericParam>, added: seq<GenericParam>)
    requires |front| + |back| == |added|
    requires forall i :: 0 <= i < |front| ==> front[i].Lifetime?
    requires forall i :: 0 <= i < |back| ==> !back[i].Lifetime?
    requires forall q :: q in added ==> q in front || q in back
    ensures var g := front + generics + back;
      |g| == |generics| + |added| &&
      g[|front|..|front| + |generics|] == generics &&
      (forall i :: 0 <= i < |front| ==> g[i].Lifetime?) &&
      (forall i :: |front| + |generics| <= i < |g| ==> !g[i].Lifetime?) &&
      (forall q :: q in added ==> q in g)
  {
    var g := front + generics + back;
    assert forall i :: |front| + |generics| <= i < |g| ==> g[i] == back[i - |front| - |generics|];
  }

  /** The struct's generics after expansion, whether it was expanded before or not. */
  lemma {:induction false} ExpandGenerics(attrs: seq<Attr>, generics: seq<GenericParam>, fields: Fields, p: ProcParse.Parsed)
    requires !p.alreadyExpanded ==> !fields.Unnamed?
    ensures var ls, g := Lifetimes(p.introduced), Expand(attrs, generics, fields, p).generics;
      |g| == |generics| + |p.introduced| &&
      g[|ls|..|ls| + |generics|] == generics &&
      (forall i :: 0 <= i < |ls| ==> g[i].Lifetime?) &&
      (forall i :: |ls| + |generics| <= i < |g| ==> !g[i].Lifetime?) &&
      (forall q :: q in p.introduced ==> q in g)
  {
    assert Expand(attrs, generics, fields, p).generics == Reverse(Lifetimes(p.introduced)) + generics + NonLifetimes(p.introduced);
    AddedGenerics(generics, p.introduced);
  }

  /** An index is selected when no list is given or the list contains it. */
  predicate Selected(indexes: Option<seq<nat>>, i: nat) {
    indexes.None? || i in indexes.value
  }

  /** The flags after `find`: a selected entry takes the outcome of its implementor's search,
      the others keep their value. */
  function Updated(found: seq<bool>, indexes: Option<seq<nat>>, outcomes: seq<bool>): (r: seq<bool>)
    requires |outcomes| == |found|
    ensures |r| == |found|
  {
    seq(|found|, i requires 0 <= i < |found| => if Selected(indexes, i) then outcomes[i] else found[i])
  }

  /** `find`'s answer: every selected flag is set. */
  function AllSelectedFound(found: seq<bool>, indexes: Option<seq<nat>>): bool {
    if found == [] then true
    else AllSelectedFound(found[..|found| - 1], indexes) && (!Selected(indexes, |found| - 1) || found[|found| - 1])
  }

  lemma {:induction false} AllSelectedFoundSpec(found: seq<bool>, indexes: Option<seq<nat>>)
    ensures AllSelectedFound(found, indexes) <==> forall i :: 0 <= i < |found| && Selected(indexes, i) ==> found[i]
  {
    if found != [] {
      var init := found[..|found| - 1];
      AllSelectedFoundSpec(init, indexes);
      assert forall i :: 0 <= i < |init| ==> init[i] == found[i];
    }
  }

  /** The ascending indexes of the unset flags. */
  function Missing(found: seq<bool>): (r: seq<nat>)
    ensures forall k :: 0 <= k < |r| ==> r[k] < |found|
  {
    if found == [] then []
    else Missing(found[..|found| - 1]) + (if found[|found| - 1] then [] else [|found| - 1])
  }

  lemma {:induction false} MissingSpec(found: seq<bool>)
    ensures forall i :: i in Missing(found) <==> 0 <= i < |found| && !found[i]
    ensures forall k, l :: 0 <= k < l < |Missing(found)| ==> Missing(found)[k] < Missing(found)[l]
  {
    if found != [] {
      var init := found[..|found| - 1];
      MissingSpec(init);
      assert forall i :: 0 <= i < |init| ==> init[i] == found[i];
    }
  }

  /** `get_missing_indexes` on the flags: the missing indexes, or nothing when there are
      none. */
  function MissingIndexes(found: seq<bool>): Option<seq<nat>> {
    var m := Missing(found);
    if |m| > 0 then Some(m) else None
  }

  /** `MissingIndexes` is `None` exactly when every flag is set; otherwise it lists, in
      ascending order, exactly the unset ones. */
  lemma {:induction false} MissingIndexesSpec(found: seq<bool>)
    ensures MissingIndexes(found).None? <==> forall i :: 0 <= i < |found| ==> found[i]
    ensures MissingIndexes(found).Some? ==>
      var m := MissingIndexes(found).value;
      m != [] &&
      (forall i :: i in m <==> 0 <= i < |found| && !found[i]) &&
      (forall k, l :: 0 <= k < l < |m| ==> m[k] < m[l])
  {
    MissingSpec(found);
    var m := Missing(found);
    if |m| > 0 {
      assert m[0] in m;
    }
  }

  /** `Finder<'_, T, N>` as the wrapper holds it: one flag per implementor. */
  class FinderWrapper {
    var found: array<bool>

    /** `to_find`: a finder for `count` implementors, none found yet. */
    constructor ToFind(count: nat)
      ensures found.Length == count && forall i :: 0 <= i < count ==> !found[i]
      ensures fresh(found)
    {
      found := new bool[count](_ => false);
    }

    /** `find(file, indexes)`: each selected implementor is searched for, in index order
        (the crate indexes, then the local ones, which together are `0..count`);
        `outcomes[i]` is what the search of implementor `i` in the file answers. The result
        says whether every selected implementor is now found. */
    method Find(indexes: Option<seq<nat>>, outcomes: seq<bool>) returns (b: bool)
      requires |outcomes| == found.Length
      modifies found
      ensures found[..] == Updated(old(found[..]), indexes, outcomes)
      ensures b == AllSelectedFound(found[..], indexes)
    {
      var i := 0;
      while i < found.Length
        invariant i <= found.Length
        invariant forall j :: 0 <= j < i ==> found[j] == if Selected(indexes, j) then outcomes[j] else old(found[j])
        invariant forall j :: i <= j < found.Length ==> found[j] == old(found[j])
      {
        if indexes.None? || i in indexes.value {
          found[i] := outcomes[i];
        }
        i := i + 1;
      }
      assert found[..] == Updated(old(found[..]), indexes, outcomes);
      b := AllFound(found, indexes);
    }

    /** The `filter`/`all` pipeline over the flags. */
    static method AllFound(found: array<bool>, indexes: Option<seq<nat>>) returns (b: bool)
      ensures b == AllSelectedFound(found[..], indexes)
    {
      b := true;
      var i := 0;
      while i < found.Length
        invariant i <= found.Length
        invariant b == AllSelectedFound(found[..i], indexes)
      {
        assert found[..i + 1][..i] == found[..i];
        b := b && (!(indexes.None? || i in indexes.value) || found[i]);
        i := i + 1;
      }
      assert found[..i] == found[..];
    }

    /** `get_missing_indexes`: nothing when every flag is set, otherwise the indexes of the
        unset flags in ascending order. */
    function GetMissingIndexes(): (r: Option<seq<nat>>)
      reads this, found
      ensures r.None? <==> forall i :: 0 <= i < found.Length ==> found[i]
      ensures r.Some? ==>
        r.value != [] &&
        (forall i :: i in r.value <==> 0 <= i < found.Length && !found[i]) &&
        (forall k, l :: 0 <= k < l < |r.value| ==> r.value[k] < r.value[l])
    {
      MissingIndexesSpec(found[..]);
      MissingIndexes(found[..])
    }
  }

  /** The answer of `find` depends only on the outcomes of the selected implementors: it is
      true exactly when each of those searches succeeded. */
  lemma {:induction false} FindAnswer(found: seq<bool>, indexes: Option<seq<nat>>, outcomes: seq<bool>)
    requires |outcomes| == |found|
    ensures AllSelectedFound(Updated(found, indexes, outcomes), indexes) <==>
      forall i :: 0 <= i < |found| && Selected(indexes, i) ==> outcomes[i]
  {
    AllSelectedFoundSpec(Updated(found, indexes, outcomes), indexes);
  }

  /** A partial `find` leaves the other flags alone, and repeating it changes nothing more. */
  lemma {:induction false} FindPartial(found: seq<bool>, indexes: Option<seq<nat>>, outcomes: seq<bool>)
    requires |outcomes| == |found|
    ensures forall i :: 0 <= i < |found| && !Selected(indexes, i) ==> Updated(found, indexes, outcomes)[i] == found[i]
    ensures forall i :: 0 <= i < |found| && Selected(indexes, i) ==> Updated(found, indexes, outcomes)[i] == outcomes[i]
    ensures Updated(Updated(found, indexes, outcomes), indexes, outcomes) == Updated(found, indexes, outcomes)
  {
  }

  /** After a `find` over all implementors, nothing is missing exactly when it answered true. */
  lemma {:induction false} FindAllThenMissing(found: seq<bool>, outcomes: seq<bool>)
    requires |outcomes| == |found|
    ensures var after := Updated(found, None, outcomes);
      MissingIndexes(after).None? <==> AllSelectedFound(after, None)
  {
    var after := Updated(found, None, outcomes);
    MissingIndexesSpec(after);
    AllSelectedFoundSpec(after, None);
  }

  /** The local finder generated for a struct with a `found` array. */
  class LocalFinder {
    var found: array<bool>

    constructor (found: array<bool>)
      ensures this.found == found
    {
      this.found := found;
    }

    /** `find`: the struct's own `visit_file` runs over the file and then the answer is
        whether every flag is set. The visit is the user's code; `visited` stands for the
        flags it leaves. */
    method Find(visited: seq<bool>) returns (b: bool)
      requires |visited| == found.Length
      modifies found
      ensures found[..] == visited
      ensures b == AllSelectedFound(visited, None)
    {
      forall i | 0 <= i < found.Length {
        found[i] := visited[i];
      }
      b := FinderWrapper.AllFound(found, None);
    }

    /** `finder_reset`: every flag unset, the length kept. */
    method FinderReset()
      modifies found
      ensures found[..] == seq(found.Length, _ => false)
    {
      var i := 0;
      while i < found.Length
        invariant i <= found.Length
        invariant forall j :: 0 <= j < i ==> !found[j]
      {
        found[i] := false;
        i := i + 1;
      }
    }
  }

  /** The flags left by a visit that, like the documented local finders, only sets the flag
      of each implementor it finds: `marks[i]` says whether it found implementor `i`. */
  function Marked(flags: seq<bool>, marks: seq<bool>): (r: seq<bool>)
    requires |marks| == |flags|
    ensures |r| == |flags| && forall i :: 0 <= i < |flags| ==> (r[i] <==> flags[i] || marks[i])
  {
    seq(|flags|, i requires 0 <= i < |flags| => flags[i] || marks[i])
  }

  /** With such a visit, `find` after `finder_reset` answers true exactly when this visit
      found every implementor, whereas without the reset a finder that answered true before
      keeps answering true whatever the visit finds. */
  lemma {:induction false} ResetThenFind(flags: seq<bool>, marks: seq<bool>)
    requires |marks| == |flags|
    ensures AllSelectedFound(Marked(seq(|flags|, _ => false), marks), None) <==> forall i :: 0 <= i < |marks| ==> marks[i]
    ensures AllSelectedFound(flags, None) ==> AllSelectedFound(Marked(flags, marks), None)
  {
    var reset := seq(|flags|, _ => false);
    AllSelectedFoundSpec(Marked(reset, marks), None);
    AllSelectedFoundSpec(Marked(flags, marks), None);
    AllSelectedFoundSpec(flags, None);
  }

  /** A wrapper fresh from `to_find` reports every index missing, or nothing when it has no
      implementors. */
  lemma {:induction false} FreshAllMissing(n: nat)
    ensures n == 0 ==> MissingIndexes(seq(n, _ => false)).None?
    ensures n > 0 ==> MissingIndexes(seq(n, _ => false)) == Some(seq(n, i => i))
  {
    if n > 0 {
      ResetMissing(n);
    } else {
      assert Missing(seq(n, _ => false)) == [];
    }
  }

  lemma {:induction false} ResetMissing(n: nat)
    ensures Missing(seq(n, _ => false)) == seq(n, i => i)
  {
    if n > 0 {
      var s: seq<bool> := seq(n, _ => false);
      assert s[..n - 1] == seq(n - 1, _ => false);
      ResetMissing(n - 1);
      assert seq(n, i => i) == seq(n - 1, i => i) + [n - 1];
    }
  }
}
