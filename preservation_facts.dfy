/** What `apply_preservers` promises about its output (rust_writer/src/preserver.rs:214-279),
    proved about the specification `Apply` that `ApplyPreservers` is shown to compute. */
module PreservationFacts {
  import opened Wrappers
  import opened Text
  import opened PreserverTypes
  import opened Preservation

  lemma {:induction false} ConcatPush(xs: seq<string>, x: string)
    ensures Concat(xs + [x]) == Concat(xs) + x
  {
    assert (xs + [x])[..|xs|] == xs;
  }

  /** The text always ends with the line `type temp_marker = ();`. */
  lemma {:induction false} ApplyEndsWithMarker(code: string, chains: seq<seq<string>>)
    requires WellFormed(chains)
    ensures |MarkerLine| <= |Apply(code, chains)|
    ensures Apply(code, chains)[|Apply(code, chains)| - |MarkerLine|..] == MarkerLine
  {
    ConcatPush(Scan(Lines(code), chains, Zero), MarkerLine);
  }

  /** An empty input gives exactly the marker line. */
  lemma {:induction false} ApplyEmpty(chains: seq<seq<string>>)
    requires WellFormed(chains)
    ensures Apply("", chains) == MarkerLine
  {
    assert Lines("") == [];
    ConcatPush([], MarkerLine);
  }

  /** Every line turned into a temporary doc comment. */
  function DocPieces(lines: seq<string>): (r: seq<string>)
    ensures |r| == |lines| && forall i :: 0 <= i < |lines| ==> r[i] == TempDoc + lines[i] + "\n"
  {
    if lines == [] then [] else [TempDoc + lines[0] + "\n"] + DocPieces(lines[1..])
  }

  /** Without preservers no line is selected and, the tally never leaving complete, every
      line becomes a temporary doc comment. */
  lemma {:induction false} ScanWithoutPreservers(lines: seq<string>, t: Tally)
    requires Balanced(t)
    ensures Scan(lines, [], t) == DocPieces(lines)
    decreases |lines|
  {
    if lines != [] {
      ScanWithoutPreservers(lines[1..], t);
    }
  }

  lemma {:induction false} ApplyWithoutPreservers(code: string)
    ensures Apply(code, []) == Concat(DocPieces(Lines(code)) + [MarkerLine])
  {
    ScanWithoutPreservers(Lines(code), Zero);
  }

  /** The first preserver in list order whose lookup starts the line is the one `position`
      finds. */
  lemma {:induction false} FirstMatchIsPosition(trimmed: string, chains: seq<seq<string>>, k: nat)
    requires WellFormed(chains) && k < |chains| && StartsWith(trimmed, chains[k][0])
    requires forall j :: 0 <= j < k ==> !StartsWith(trimmed, chains[j][0])
    ensures Position(trimmed, chains) == Some(k)
  {
    PositionSpec(trimmed, chains);
  }

  /** A selected line is written as it is with its newline and its delimiters are counted;
      the lines after it go to the block of the preserver's inner one, if it has one. */
  lemma {:induction false} SelectedLineKept(lines: seq<string>, chains: seq<seq<string>>, t: Tally, k: nat)
    requires WellFormed(chains) && lines != [] && k < |chains|
    requires StartsWith(TrimStart(lines[0]), chains[k][0])
    requires forall j :: 0 <= j < k ==> !StartsWith(TrimStart(lines[0]), chains[j][0])
    ensures |chains[k]| == 1 ==>
      Scan(lines, chains, t) == [lines[0], "\n"] + Scan(lines[1..], chains, Counted(t, lines[0]))
    ensures |chains[k]| > 1 ==>
      Scan(lines, chains, t) ==
        [lines[0], "\n"] + Collect(lines[1..], chains, Counted(t, lines[0]), chains[k][1..], "")
  {
    FirstMatchIsPosition(TrimStart(lines[0]), chains, k);
  }

  /** A line no preserver selects, while the tally is complete, becomes a temporary doc
      comment, and the tally is left as it is. */
  lemma {:induction false} UnselectedLineWhileComplete(lines: seq<string>, chains: seq<seq<string>>, t: Tally)
    requires WellFormed(chains) && lines != [] && Balanced(t)
    requires forall k :: 0 <= k < |chains| ==> !StartsWith(TrimStart(lines[0]), chains[k][0])
    ensures Scan(lines, chains, t) == [TempDoc + lines[0] + "\n"] + Scan(lines[1..], chains, t)
  {
    PositionSpec(TrimStart(lines[0]), chains);
  }

  /** A line no preserver selects, while the tally is not complete, is written by
      `UnbalancedPieces` and then counted. */
  lemma {:induction false} UnselectedLineWhileOpen(lines: seq<string>, chains: seq<seq<string>>, t: Tally)
    requires WellFormed(chains) && lines != [] && !Balanced(t)
    requires forall k :: 0 <= k < |chains| ==> !StartsWith(TrimStart(lines[0]), chains[k][0])
    ensures Scan(lines, chains, t) == UnbalancedPieces(lines[0]) + Scan(lines[1..], chains, Counted(t, lines[0]))
  {
    PositionSpec(TrimStart(lines[0]), chains);
  }

  /** The text written for such a line: a plain comment or an inner attribute becomes a doc
      comment followed by a marker, a blank line an empty doc comment followed by a marker,
      and any other line is kept. */
  lemma {:induction false} UnbalancedText(line: string)
    ensures CommentOrInnerAttribute(TrimStart(line)) ==>
      Concat(UnbalancedPieces(line)) == TempDoc + line + "\n" + MarkerLine
    ensures !CommentOrInnerAttribute(TrimStart(line)) && TrimStart(line) == [] ==>
      Concat(UnbalancedPieces(line)) == TempDoc + "\n" + MarkerLine
    ensures !CommentOrInnerAttribute(TrimStart(line)) && TrimStart(line) != [] ==>
      Concat(UnbalancedPieces(line)) == line + "\n"
  {
    var trimmed := TrimStart(line);
    if CommentOrInnerAttribute(trimmed) {
      ConcatPush([], TempDoc + line + "\n" + MarkerLine);
    } else if trimmed == [] {
      ConcatPush([], TempDoc + "\n" + MarkerLine);
    } else {
      ConcatPush([], line);
      ConcatPush([line], "\n");
    }
  }

  /** A line is blank (`trim_start` leaves nothing) exactly when it is all whitespace. */
  lemma {:induction false} BlankMeansWhitespace(line: string)
    ensures TrimStart(line) == [] <==> forall i :: 0 <= i < |line| ==> IsWhitespace(line[i])
  {
    TrimStartSpec(line);
  }

  /** Re-splitting the gathered text gives back the gathered lines (without a trailing
      carriage return): preserving the text is preserving those lines. */
  lemma {:induction false} ApplyOfGathered(ls: seq<string>, chains: seq<seq<string>>)
    requires WellFormed(chains) && forall i :: 0 <= i < |ls| ==> '\n' !in ls[i]
    ensures Apply(Unlines(ls), chains) == Concat(Scan(StripEach(ls), chains, Zero) + [MarkerLine])
  {
    LinesOfUnlines(ls);
  }
}
