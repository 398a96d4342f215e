/** `apply_preservers` (rust_writer/src/preserver.rs): the line-by-line pass that keeps the
    lines a preserver selects as code and turns every other line into a temporary doc
    comment, so that a parser keeps them in the syntax tree.

    The pass is specified by the mutually recursive functions `Apply`, `Scan` and `Collect`,
    which produce the pieces the source pushes onto its `result` vector; `ApplyPreservers`
    is the imperative pass, proved equal to `Apply`. Each preserver is seen through its
    chain of lookups (`Chain`). */
module Preservation {
  import opened Wrappers
  import opened Text
  import opened PreserverTypes

  const TempDoc: string := "///TEMP_DOC"
  const MarkerLine: string := "type temp_marker = ();\n"

  /** Every preserver has at least its own lookup. */
  predicate WellFormed(chains: seq<seq<string>>) {
    forall k :: 0 <= k < |chains| ==> chains[k] != []
  }

  /** The lookup chains of a slice of preservers. */
  ghost function Chains(ps: seq<Preserver>): (r: seq<seq<string>>)
    reads ps
    ensures |r| == |ps| && forall k :: 0 <= k < |ps| ==> r[k] == ps[k].Chain
  {
    if ps == [] then [] else [ps[0].Chain] + Chains(ps[1..])
  }

  /** `preservers.iter().position(|p| trimmed.starts_with(p.lookup()))`: the first preserver
      whose lookup starts the trimmed line. */
  function Position(trimmed: string, chains: seq<seq<string>>): (r: Option<nat>)
    requires WellFormed(chains)
    ensures r.Some? ==> r.value < |chains|
  {
    if chains == [] then None
    else if StartsWith(trimmed, chains[0][0]) then Some(0)
    else match Position(trimmed, chains[1..])
      case None => None
      case Some(k) => Some(k + 1)
  }

  /** `position` finds a preserver exactly when some lookup starts the line, and then the
      first one in list order. */
  lemma {:induction false} PositionSpec(trimmed: string, chains: seq<seq<string>>)
    requires WellFormed(chains)
    ensures var r := Position(trimmed, chains);
      (r.None? <==> forall k :: 0 <= k < |chains| ==> !StartsWith(trimmed, chains[k][0])) &&
      (r.Some? ==> StartsWith(trimmed, chains[r.value][0])) &&
      (r.Some? ==> forall k :: 0 <= k < r.value ==> !StartsWith(trimmed, chains[k][0]))
  {
    if chains != [] && !StartsWith(trimmed, chains[0][0]) {
      PositionSpec(trimmed, chains[1..]);
    }
  }

  /** A plain `//` comment (neither `///` nor `//!`) or an inner attribute `#![`. */
  predicate CommentOrInnerAttribute(trimmed: string) {
    (StartsWith(trimmed, "//") && !StartsWith(trimmed, "///") && !StartsWith(trimmed, "//!")) ||
    StartsWith(trimmed, "#![")
  }

  /** The pieces written for a line that no preserver selects while the tally is not complete. */
  function UnbalancedPieces(line: string): seq<string> {
    var trimmed := TrimStart(line);
    if CommentOrInnerAttribute(trimmed) then [TempDoc + line + "\n" + MarkerLine]
    else if trimmed == [] then [TempDoc + "\n" + MarkerLine]
    else [line, "\n"]
  }

  /** The text `apply_preservers` returns for `code`: the pieces of its lines, then the
      final marker, joined. */
  function Apply(code: string, chains: seq<seq<string>>): string
    requires WellFormed(chains)
    decreases |code| + 1, 2
  {
    LinesLen(code);
    Concat(Scan(Lines(code), chains, Zero) + [MarkerLine])
  }

  /** The pieces the outer `while let` loop pushes for `lines`, the tally being `t`. */
  function Scan(lines: seq<string>, chains: seq<seq<string>>, t: Tally): seq<string>
    requires WellFormed(chains)
    decreases Len(lines), 1
  {
    if lines == [] then []
    else
      var line := lines[0];
      match Position(TrimStart(line), chains)
      case Some(k) =>
        if |chains[k]| > 1 then [line, "\n"] + Collect(lines[1..], chains, Counted(t, line), chains[k][1..], "")
        else [line, "\n"] + Scan(lines[1..], chains, Counted(t, line))
      case None =>
        if Balanced(t) then [TempDoc + line + "\n"] + Scan(lines[1..], chains, t)
        else UnbalancedPieces(line) + Scan(lines[1..], chains, Counted(t, line))
  }

  /** The inner `for` loop after a line selected by a preserver with an inner one: the lines
      of the block are appended to `code` until the tally is complete again; that text is
      then preserved with the inner preserver alone and written before the line that
      completed the tally. When the lines run out first, the gathered text is not written. */
  function Collect(rest: seq<string>, chains: seq<seq<string>>, t: Tally, inner: seq<string>, code: string): seq<string>
    requires WellFormed(chains) && inner != []
    decreases |code| + Len(rest), 3, |rest|
  {
    if rest == [] then []
    else
      var t1 := Counted(t, rest[0]);
      if Balanced(t1) then [Apply(code, [inner]), rest[0], "\n"] + Scan(rest[1..], chains, t1)
      else Collect(rest[1..], chains, t1, inner, code + rest[0] + "\n")
  }

  /** One step of `Scan` or `Collect`, one lemma per branch. */
  lemma {:induction false} ScanKeeps(lines: seq<string>, chains: seq<seq<string>>, t: Tally, k: nat)
    requires WellFormed(chains) && lines != [] && Position(TrimStart(lines[0]), chains) == Some(k)
    requires k < |chains| && |chains[k]| == 1
    ensures Scan(lines, chains, t) == [lines[0], "\n"] + Scan(lines[1..], chains, Counted(t, lines[0]))
  {
  }

  lemma {:induction false} ScanOpens(lines: seq<string>, chains: seq<seq<string>>, t: Tally, k: nat)
    requires WellFormed(chains) && lines != [] && Position(TrimStart(lines[0]), chains) == Some(k)
    requires k < |chains| && |chains[k]| > 1
    ensures Scan(lines, chains, t) ==
      [lines[0], "\n"] + Collect(lines[1..], chains, Counted(t, lines[0]), chains[k][1..], "")
  {
  }

  lemma {:induction false} ScanDocs(lines: seq<string>, chains: seq<seq<string>>, t: Tally)
    requires WellFormed(chains) && lines != [] && Position(TrimStart(lines[0]), chains) == None
    requires Balanced(t)
    ensures Scan(lines, chains, t) == [TempDoc + lines[0] + "\n"] + Scan(lines[1..], chains, t)
  {
  }

  lemma {:induction false} ScanUnbalanced(lines: seq<string>, chains: seq<seq<string>>, t: Tally)
    requires WellFormed(chains) && lines != [] && Position(TrimStart(lines[0]), chains) == None
    requires !Balanced(t)
    ensures Scan(lines, chains, t) == UnbalancedPieces(lines[0]) + Scan(lines[1..], chains, Counted(t, lines[0]))
  {
  }

  lemma {:induction false} CollectCloses(rest: seq<string>, chains: seq<seq<string>>, t: Tally, inner: seq<string>, code: string)
    requires WellFormed(chains) && inner != [] && rest != [] && Balanced(Counted(t, rest[0]))
    ensures Collect(rest, chains, t, inner, code) ==
      [Apply(code, [inner]), rest[0], "\n"] + Scan(rest[1..], chains, Counted(t, rest[0]))
  {
  }

  lemma {:induction false} CollectGathers(rest: seq<string>, chains: seq<seq<string>>, t: Tally, inner: seq<string>, code: string)
    requires WellFormed(chains) && inner != [] && rest != [] && !Balanced(Counted(t, rest[0]))
    ensures Collect(rest, chains, t, inner, code) ==
      Collect(rest[1..], chains, Counted(t, rest[0]), inner, code + rest[0] + "\n")
  {
  }

  lemma {:induction false} AppendAssoc(a: seq<string>, b: seq<string>, c: seq<string>)
    ensures a + b + c == a + (b + c)
  {
  }

  /** The tally after counting `lines` one after the other. */
  function CountAll(t: Tally, lines: seq<string>): Tally {
    if lines == [] then t else Counted(CountAll(t, lines[..|lines| - 1]), lines[|lines| - 1])
  }

  /** The tally after counting the first `n` lines of `rest`. */
  function TallyAfter(t: Tally, rest: seq<string>, n: nat): Tally
    requires n <= |rest|
  {
    CountAll(t, rest[..n])
  }

  lemma {:induction false} TallyAfterNext(t: Tally, rest: seq<string>, n: nat)
    requires n < |rest|
    ensures TallyAfter(t, rest, n + 1) == Counted(TallyAfter(t, rest, n), rest[n])
  {
    assert rest[..n + 1][..n] == rest[..n];
  }

  lemma {:induction false} UnlinesPrefix(rest: seq<string>, j: nat)
    requires 0 < j <= |rest|
    ensures Unlines(rest[..j]) == Unlines(rest[..j - 1]) + rest[j - 1] + "\n"
  {
    assert rest[..j][..j - 1] == rest[..j - 1];
  }

  /** While no prefix of `rest` up to its `j`-th line completes the tally, those lines are
      only appended to the gathered text. */
  lemma {:induction false} GathersUpTo(rest: seq<string>, chains: seq<seq<string>>, t: Tally, inner: seq<string>, code: string, j: nat)
    requires WellFormed(chains) && inner != [] && j <= |rest|
    requires forall n :: 0 < n <= j ==> !Balanced(TallyAfter(t, rest, n))
    ensures Collect(rest, chains, t, inner, code) ==
      Collect(rest[j..], chains, TallyAfter(t, rest, j), inner, code + Unlines(rest[..j]))
    decreases j
  {
    if j == 0 {
      assert rest[..0] == [] && rest[0..] == rest && code + "" == code;
    } else {
      GathersUpTo(rest, chains, t, inner, code, j - 1);
      GathersOne(rest, chains, t, inner, code, j);
    }
  }

  /** One more line gathered: the `j`-th line of `rest` leaves the tally incomplete. */
  lemma {:induction false} GathersOne(rest: seq<string>, chains: seq<seq<string>>, t: Tally, inner: seq<string>, code: string, j: nat)
    requires WellFormed(chains) && inner != [] && 0 < j <= |rest|
    requires !Balanced(TallyAfter(t, rest, j))
    ensures Collect(rest[j - 1..], chains, TallyAfter(t, rest, j - 1), inner, code + Unlines(rest[..j - 1])) ==
      Collect(rest[j..], chains, TallyAfter(t, rest, j), inner, code + Unlines(rest[..j]))
  {
    var before, gathered, r := TallyAfter(t, rest, j - 1), code + Unlines(rest[..j - 1]), rest[j - 1..];
    assert r[0] == rest[j - 1] && r[1..] == rest[j..];
    TallyAfterNext(t, rest, j - 1);
    CollectGathers(r, chains, before, inner, gathered);
    UnlinesPrefix(rest, j);
    assert gathered + rest[j - 1] + "\n" == code + Unlines(rest[..j]);
  }

  /** The block after a selected line: when line `j` of `rest` is the first whose counting
      completes the tally, the lines before it are preserved as a text of their own with the
      inner preserver alone; line `j` follows, and the outer loop resumes after it with the
      tally it completed. */
  lemma {:induction false} BlockPreserved(rest: seq<string>, chains: seq<seq<string>>, t: Tally, inner: seq<string>, j: nat)
    requires WellFormed(chains) && inner != [] && j < |rest|
    requires forall n :: 0 < n <= j ==> !Balanced(TallyAfter(t, rest, n))
    requires Balanced(TallyAfter(t, rest, j + 1))
    ensures Collect(rest, chains, t, inner, "") ==
      [Apply(Unlines(rest[..j]), [inner]), rest[j], "\n"] +
      Scan(rest[j + 1..], chains, TallyAfter(t, rest, j + 1))
  {
    GathersUpTo(rest, chains, t, inner, "", j);
    assert "" + Unlines(rest[..j]) == Unlines(rest[..j]);
    var r := rest[j..];
    assert r[0] == rest[j] && r[1..] == rest[j + 1..];
    TallyAfterNext(t, rest, j);
    CollectCloses(r, chains, TallyAfter(t, rest, j), inner, Unlines(rest[..j]));
  }

  /** When no line of `rest` completes the tally, the block is never closed and nothing
      more is written: the gathered lines are dropped. */
  lemma {:induction false} UnclosedBlockDropped(rest: seq<string>, chains: seq<seq<string>>, t: Tally, inner: seq<string>, code: string)
    requires WellFormed(chains) && inner != []
    requires forall n :: 0 < n <= |rest| ==> !Balanced(TallyAfter(t, rest, n))
    ensures Collect(rest, chains, t, inner, code) == []
  {
    GathersUpTo(rest, chains, t, inner, code, |rest|);
    assert rest[|rest|..] == [];
  }

  /** No count of the first lines of `rest`, one to `j` of them, completes the tally `t`. */
  predicate OpenThrough(t: Tally, rest: seq<string>, j: nat)
    requires j <= |rest|
  {
    forall n :: 0 < n <= j ==> !Balanced(TallyAfter(t, rest, n))
  }

  lemma {:induction false} OpenThroughNext(t: Tally, rest: seq<string>, j: nat)
    requires j < |rest| && OpenThrough(t, rest, j) && !Balanced(TallyAfter(t, rest, j + 1))
    ensures OpenThrough(t, rest, j + 1)
  {
  }

  /** The `position` search of the outer loop: the index of the first preserver whose
      lookup starts `trimmed`, or `|preservers|` when there is none. */
  method FindPreserver(trimmed: string, preservers: seq<Preserver>, ghost chains: seq<seq<string>>) returns (index: nat)
    requires |chains| == |preservers|
    requires forall k :: 0 <= k < |preservers| ==> preservers[k].Valid() && chains[k] == preservers[k].Chain
    ensures WellFormed(chains) && index <= |preservers|
    ensures index == |preservers| <==> Position(trimmed, chains) == None
    ensures index < |preservers| ==> Position(trimmed, chains) == Some(index)
  {
    PositionSpec(trimmed, chains);
    index := 0;
    while index < |preservers| && !StartsWith(trimmed, preservers[index].Lookup())
      invariant 0 <= index <= |preservers|
      invariant forall k :: 0 <= k < index ==> !StartsWith(trimmed, chains[k][0])
    {
      index := index + 1;
    }
  }

  /** The inner `for` loop: feeds the lines from `start` on to the tally until it is complete,
      appending them to `innerCode`; on the line that completes it, the gathered text is
      preserved with `inner` alone and pushed before that line. Returns the pieces pushed
      and the index of the first line left to the outer loop. */
  method PreserveBlock(lines: seq<string>, start: nat, ghost chains: seq<seq<string>>, counts: DelimitersCount, inner: Preserver)
    returns (out: seq<string>, next: nat)
    requires start <= |lines| && WellFormed(chains)
    requires counts.Valid() && inner.Valid() && counts.counts !in inner.Repr
    modifies counts.counts
    ensures counts.Valid() && start <= next <= |lines|
    ensures out + Scan(lines[next..], chains, counts.counts[..]) ==
      Collect(lines[start..], chains, old(counts.counts[..]), inner.Chain, "")
    decreases Len(lines[start..]), 5
  {
    ghost var t := counts.counts[..];
    var innerCode, closed;
    innerCode, closed, next := GatherBlock(lines, start, counts);
    if closed {
      BlockClosed(lines, start, next, chains, t, counts.counts[..], inner.Chain, innerCode);
      out := CloseBlock(innerCode, lines[next - 1], inner);
    } else {
      BlockUnclosed(lines, start, chains, t, inner.Chain);
      out := [];
    }
  }

  /** What `GatherBlock` finds when the block closes, in terms of `Collect`. */
  lemma {:induction false} BlockClosed(lines: seq<string>, start: nat, next: nat, chains: seq<seq<string>>, t: Tally, t': Tally,
                                       inner: seq<string>, innerCode: string)
    requires start < next <= |lines| && WellFormed(chains) && inner != []
    requires t' == TallyAfter(t, lines[start..], next - start) && Balanced(t')
    requires innerCode == Unlines(lines[start..][..next - 1 - start])
    requires forall n :: 0 < n <= next - 1 - start ==> !Balanced(TallyAfter(t, lines[start..], n))
    ensures [Apply(innerCode, [inner]), lines[next - 1], "\n"] + Scan(lines[next..], chains, t') ==
      Collect(lines[start..], chains, t, inner, "")
  {
    var rest, j := lines[start..], next - 1 - start;
    BlockPreserved(rest, chains, t, inner, j);
    assert rest[j] == lines[next - 1] && rest[j + 1..] == lines[next..];
  }

  /** What `GatherBlock` finds when the lines run out, in terms of `Collect`. */
  lemma {:induction false} BlockUnclosed(lines: seq<string>, start: nat, chains: seq<seq<string>>, t: Tally, inner: seq<string>)
    requires start <= |lines| && WellFormed(chains) && inner != []
    requires forall n :: 0 < n <= |lines| - start ==> !Balanced(TallyAfter(t, lines[start..], n))
    ensures [] + Scan(lines[|lines|..], chains, TallyAfter(t, lines[start..], |lines| - start)) ==
      Collect(lines[start..], chains, t, inner, "")
  {
    UnclosedBlockDropped(lines[start..], chains, t, inner, "");
    assert lines[|lines|..] == [];
  }

  /** The lines of the block: from `start` on, each line is counted; the lines that leave
      the tally incomplete are appended to `innerCode`, and the first one that completes it
      ends the block (`closed`), `next` being the line after it. When the lines run out
      first, every line has been counted and none completed the tally. */
  method GatherBlock(lines: seq<string>, start: nat, counts: DelimitersCount)
    returns (innerCode: string, closed: bool, next: nat)
    requires start <= |lines| && counts.Valid()
    modifies counts.counts
    ensures counts.Valid() && start <= next <= |lines|
    ensures counts.counts[..] == TallyAfter(old(counts.counts[..]), lines[start..], next - start)
    ensures closed ==> start < next && Balanced(counts.counts[..])
    ensures closed ==> innerCode == Unlines(lines[start..][..next - 1 - start]) && |innerCode| < Len(lines[start..])
    ensures !closed ==> next == |lines|
    ensures OpenThrough(old(counts.counts[..]), lines[start..], if closed then next - 1 - start else |lines| - start)
  {
    ghost var t, rest := counts.counts[..], lines[start..];
    innerCode := "";
    var i := start;
    assert rest[..0] == [];
    while i < |lines|
      invariant start <= i <= |lines| && counts.Valid()
      invariant counts.counts[..] == TallyAfter(t, rest, i - start)
      invariant innerCode == Unlines(rest[..i - start])
      invariant |innerCode| + Len(lines[i..]) == Len(rest)
      invariant OpenThrough(t, rest, i - start)
      decreases |lines| - i
    {
      var line := lines[i];
      ghost var j := i - start;
      assert rest[j] == line;
      assert lines[i..][0] == line && lines[i..][1..] == lines[i + 1..];
      assert Len(lines[i..]) == |line| + 1 + Len(lines[i + 1..]);
      TallyAfterNext(t, rest, j);
      counts.Count(line);
      if counts.IsComplete() {
        return innerCode, true, i + 1;
      }
      OpenThroughNext(t, rest, j);
      UnlinesPrefix(rest, j + 1);
      innerCode := innerCode + line + "\n";
      i := i + 1;
    }
    closed, next := false, i;
  }

  /** The line that completes a block: the gathered text preserved with `inner` alone, then
      the line itself. */
  method CloseBlock(innerCode: string, line: string, inner: Preserver) returns (out: seq<string>)
    requires inner.Valid()
    ensures out == [Apply(innerCode, [inner.Chain]), line, "\n"]
    decreases |innerCode| + 1, 4
  {
    var innerPreserved := ApplyPreservers(innerCode, [inner]);
    assert Chains([inner]) == [inner.Chain];
    out := [innerPreserved, line, "\n"];
  }

  /** The branch of the outer loop for a line selected by preserver `p`, the first whose
      lookup starts it: the line is counted and kept, followed by its block when `p` has an
      inner preserver. */
  method PreserveSelected(lines: seq<string>, i: nat, p: Preserver, ghost chains: seq<seq<string>>, ghost index: nat, counts: DelimitersCount)
    returns (out: seq<string>, next: nat)
    requires i < |lines| && counts.Valid() && WellFormed(chains)
    requires Position(TrimStart(lines[i]), chains) == Some(index)
    requires index < |chains| && p.Valid() && counts.counts !in p.Repr && chains[index] == p.Chain
    modifies counts.counts
    ensures counts.Valid() && i < next <= |lines|
    ensures out + Scan(lines[next..], chains, counts.counts[..]) == Scan(lines[i..], chains, old(counts.counts[..]))
    decreases Len(lines[i..]), 1
  {
    var line := lines[i];
    ghost var t, rest := counts.counts[..], lines[i..];
    assert rest[0] == line && rest[1..] == lines[i + 1..];
    next := i + 1;
    counts.Count(line);
    out := [line, "\n"];
    var innerPreserver := p.GetInner();
    if innerPreserver != null {
      ScanOpens(rest, chains, t, index);
      var block;
      block, next := PreserveBlock(lines, i + 1, chains, counts, innerPreserver);
      AppendAssoc(out, block, Scan(lines[next..], chains, counts.counts[..]));
      out := out + block;
    } else {
      ScanKeeps(rest, chains, t, index);
    }
  }

  /** One turn of the outer loop, on the line at `i`: a line selected by a preserver is
      kept (followed by its block when the preserver has an inner one); any other line is
      written as a temporary doc comment while the tally is complete, and otherwise kept,
      with comments, inner attributes and blank lines turned into doc comments followed by
      a marker. Returns the pieces pushed and the index of the next line. */
  method PreserveLine(lines: seq<string>, i: nat, preservers: seq<Preserver>, ghost chains: seq<seq<string>>, counts: DelimitersCount)
    returns (out: seq<string>, next: nat)
    requires i < |lines| && counts.Valid() && |chains| == |preservers|
    requires forall k :: 0 <= k < |preservers| ==>
      preservers[k].Valid() && counts.counts !in preservers[k].Repr && chains[k] == preservers[k].Chain
    modifies counts.counts
    ensures WellFormed(chains) && counts.Valid() && i < next <= |lines|
    ensures out + Scan(lines[next..], chains, counts.counts[..]) == Scan(lines[i..], chains, old(counts.counts[..]))
    decreases Len(lines[i..]), 2
  {
    var line := lines[i];
    var trimmed := TrimStart(line);
    ghost var t, rest := counts.counts[..], lines[i..];
    assert rest[0] == line && rest[1..] == lines[i + 1..];
    var index := FindPreserver(trimmed, preservers, chains);
    next := i + 1;
    if index < |preservers| {
      out, next := PreserveSelected(lines, i, preservers[index], chains, index, counts);
    } else if counts.IsComplete() {
      ScanDocs(rest, chains, t);
      out := [TempDoc + line + "\n"];
    } else {
      ScanUnbalanced(rest, chains, t);
      if CommentOrInnerAttribute(trimmed) {
        out := [TempDoc + line + "\n" + MarkerLine];
      } else if trimmed == [] {
        out := [TempDoc + "\n" + MarkerLine];
      } else {
        out := [line, "\n"];
      }
      counts.Count(line);
    }
  }

  /** `apply_preservers(code, preservers)`: the outer loop pushes pieces onto `result`,
      which is closed by the marker line and joined. */
  method ApplyPreservers(code: string, preservers: seq<Preserver>) returns (preserved: string)
    requires forall k :: 0 <= k < |preservers| ==> preservers[k].Valid()
    ensures WellFormed(Chains(preservers)) && preserved == Apply(code, Chains(preservers))
    decreases |code| + 1, 3
  {
    ghost var chains := Chains(preservers);
    var counts := new DelimitersCount();
    var lines := Lines(code);
    LinesLen(code);
    ghost var pieces := Scan(lines, chains, Zero);
    var result: seq<string> := [];
    var i := 0;
    while i < |lines|
      invariant 0 <= i <= |lines| && Len(lines[i..]) <= |code| + 1
      invariant counts.Valid() && fresh(counts.counts)
      invariant |chains| == |preservers|
      invariant forall k :: 0 <= k < |preservers| ==>
        preservers[k].Valid() && counts.counts !in preservers[k].Repr && chains[k] == preservers[k].Chain
      invariant result + Scan(lines[i..], chains, counts.counts[..]) == pieces
      decreases |lines| - i
    {
      var out, next := PreserveLine(lines, i, preservers, chains, counts);
      LenSuffix(lines, i, next);
      AppendAssoc(result, out, Scan(lines[next..], chains, counts.counts[..]));
      result, i := result + out, next;
    }
    assert lines[i..] == [];
    assert result + [] == result;
    result := result + [MarkerLine];
    preserved := Concat(result);
    assert Chains(preservers) == chains;
  }
}
