/** What the two `MacroFinderMutatorParsed::try_from` share: splitting the attribute list
    into crate and local implementors, the index ranges, and the fields built from
    identifier and path pairs. */
module MacroParse {
  import opened Syntax
  import opened ParseAttrs

  /** The attribute list as `MacroAttrs` gives it: at least two implementors, each a path
      with a last segment and no const argument there. */
  predicate ValidAttrs(impls: seq<MacroAttr>) {
    |impls| >= 2 &&
    forall i :: 0 <= i < |impls| ==> impls[i].path != [] && forall a :: a in ArgsOf(Last(impls[i].path)) ==> !a.Const?
  }

  /** The paths of the crate implementors, in order (the first `filter_map`). */
  function CratePaths(impls: seq<MacroAttr>): seq<Path> {
    if impls == [] then []
    else (if impls[0].CrateImplementor? then [impls[0].path] else []) + CratePaths(impls[1..])
  }

  /** The paths of the local implementors, in order (the second `filter_map`). */
  function LocalPaths(impls: seq<MacroAttr>): seq<Path> {
    if impls == [] then []
    else (if impls[0].LocalImplementor? then [impls[0].path] else []) + LocalPaths(impls[1..])
  }

  /** Every implementor is either a crate or a local one: the two lists together are as long
      as the attribute list, and every path in them is a valid implementor. */
  lemma {:induction false} SplitSpec(impls: seq<MacroAttr>)
    requires forall i :: 0 <= i < |impls| ==> impls[i].path != [] && forall a :: a in ArgsOf(Last(impls[i].path)) ==> !a.Const?
    ensures |CratePaths(impls)| + |LocalPaths(impls)| == |impls|
    ensures ValidImplementors(CratePaths(impls)) && ValidImplementors(LocalPaths(impls))
  {
    if impls != [] {
      assert forall i :: 0 <= i < |impls| - 1 ==> impls[1..][i] == impls[i + 1];
      SplitSpec(impls[1..]);
      assert ValidImplementor(impls[0].path);
      var c, l := CratePaths(impls[1..]), LocalPaths(impls[1..]);
      if impls[0].CrateImplementor? {
        assert forall i :: 1 <= i < |c| + 1 ==> ([impls[0].path] + c)[i] == c[i - 1];
      } else {
        assert forall i :: 1 <= i < |l| + 1 ==> ([impls[0].path] + l)[i] == l[i - 1];
      }
    }
  }

  /** A path is among the crate paths exactly when a crate implementor has it, and likewise
      for the local ones. */
  lemma {:induction false} SplitMembers(impls: seq<MacroAttr>)
    ensures forall p :: p in CratePaths(impls) <==> CrateImplementor(p) in impls
    ensures forall p :: p in LocalPaths(impls) <==> LocalImplementor(p) in impls
  {
    if impls != [] {
      SplitMembers(impls[1..]);
      assert impls == [impls[0]] + impls[1..];
    }
  }

  /** `(lo..hi).map(Index::from).collect()`. */
  function Range(lo: nat, hi: nat): (r: seq<nat>)
    requires lo <= hi
    ensures |r| == hi - lo && forall i :: 0 <= i < |r| ==> r[i] == lo + i
  {
    seq(hi - lo, i => lo + i)
  }

  /** The crate indexes followed by the local ones are all the indexes, each once. */
  lemma {:induction false} RangesPartition(c: nat, n: nat)
    requires c <= n
    ensures Range(0, c) + Range(c, n) == Range(0, n)
    ensures forall i :: i in Range(0, c) <==> 0 <= i < c
    ensures forall i :: i in Range(c, n) <==> c <= i < n
    ensures forall i :: i in Range(0, c) ==> i !in Range(c, n)
  {
    forall i: nat | i < c ensures i in Range(0, c) {
      assert Range(0, c)[i] == i;
    }
    forall i: nat | c <= i < n ensures i in Range(c, n) {
      assert Range(c, n)[i - c] == i;
    }
  }

  /** One field `name: path` per pair, as far as both lists go (`zip`). */
  function ZipFields(names: seq<string>, paths: seq<Path>): (r: seq<Field>)
    ensures |r| == if |names| <= |paths| then |names| else |paths|
    ensures forall i :: 0 <= i < |r| ==> r[i] == Field(names[i], PathType(paths[i]))
  {
    var n := if |names| <= |paths| then |names| else |paths|;
    seq(n, i requires 0 <= i < n => Field(names[i], PathType(paths[i])))
  }

  /** The `for_each` that pushes one field per pair onto `fields`. */
  method PushFields(fields: seq<Field>, names: seq<string>, paths: seq<Path>) returns (fields': seq<Field>)
    ensures fields' == fields + ZipFields(names, paths)
  {
    fields' := fields;
    var n := if |names| <= |paths| then |names| else |paths|;
    var i := 0;
    while i < n
      invariant i <= n
      invariant fields' == fields + ZipFields(names[..i], paths[..i])
    {
      fields' := fields' + [Field(names[i], PathType(paths[i]))];
      i := i + 1;
      assert ZipFields(names[..i], paths[..i]) == ZipFields(names[..i - 1], paths[..i - 1]) + [Field(names[i - 1], PathType(paths[i - 1]))];
    }
    assert ZipFields(names[..n], paths[..n]) == ZipFields(names, paths);
  }
}
