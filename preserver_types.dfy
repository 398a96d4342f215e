/** The two building blocks of the preservation transform (rust_writer/src/preserver/types.rs):
    `Preserver`, a chain of line-prefix lookups, and `DelimitersCount`, a running tally of
    the six bracket characters. */
module PreserverTypes {
  import opened Text

  /** Rust's `u8`. */
  newtype u8 = x: int | 0 <= x < 256

  /** The six counters of `DelimitersCount`, in the order `{ } ( ) [ ]`. */
  type Tally = t: seq<u8> | |t| == 6 witness [0, 0, 0, 0, 0, 0]

  const Delimiters: seq<char> := ['{', '}', '(', ')', '[', ']']

  const Zero: Tally := [0, 0, 0, 0, 0, 0]

  /** `n as u8` for a `usize` count: truncation to the low eight bits. */
  function Truncate(n: nat): u8 {
    (n % 256) as u8
  }

  /** `a += b` on `u8` as a release build runs it: wrapping at 256. */
  function WrappingAdd(a: u8, b: u8): u8 {
    ((a as int + b as int) % 256) as u8
  }

  /** The tally after `count(line)`. */
  function Counted(t: Tally, line: string): (r: Tally) {
    [CountedAt(t, line, 0), CountedAt(t, line, 1), CountedAt(t, line, 2),
     CountedAt(t, line, 3), CountedAt(t, line, 4), CountedAt(t, line, 5)]
  }

  function CountedAt(t: Tally, line: string, i: nat): u8
    requires i < 6
  {
    WrappingAdd(t[i], Truncate(Occurrences(line, Delimiters[i])))
  }

  /** What `is_complete` answers: every opening count equals its closing count. */
  predicate Balanced(t: Tally) {
    t[0] == t[1] && t[2] == t[3] && t[4] == t[5]
  }

  /** A line that opens exactly as many brackets of each kind as it closes. */
  predicate LineBalanced(line: string) {
    Occurrences(line, '{') == Occurrences(line, '}') &&
    Occurrences(line, '(') == Occurrences(line, ')') &&
    Occurrences(line, '[') == Occurrences(line, ']')
  }

  /** No counter goes past 255 when `line` is counted into `t`. */
  predicate FitsInU8(t: Tally, line: string) {
    forall i :: 0 <= i < 6 ==> t[i] as int + Occurrences(line, Delimiters[i]) < 256
  }

  /** Without wrap-around, a counter grows by exactly the occurrences of its delimiter. */
  lemma {:induction false} CountedAtExact(t: Tally, line: string, i: nat)
    requires i < 6 && t[i] as int + Occurrences(line, Delimiters[i]) < 256
    ensures CountedAt(t, line, i) as int == t[i] as int + Occurrences(line, Delimiters[i])
  {
    var n := Occurrences(line, Delimiters[i]);
    assert n % 256 == n;
    assert (t[i] as int + n) % 256 == t[i] as int + n;
  }

  /** Without wrap-around, `count` adds to each counter exactly the occurrences of its
      delimiter in the line. */
  lemma {:induction false} CountedExact(t: Tally, line: string)
    requires FitsInU8(t, line)
    ensures forall i :: 0 <= i < 6 ==> Counted(t, line)[i] as int == t[i] as int + Occurrences(line, Delimiters[i])
  {
    CountedAtExact(t, line, 0);
    CountedAtExact(t, line, 1);
    CountedAtExact(t, line, 2);
    CountedAtExact(t, line, 3);
    CountedAtExact(t, line, 4);
    CountedAtExact(t, line, 5);
  }

  /** Counting a balanced line keeps a complete tally complete, wrap-around included. */
  lemma {:induction false} BalancedLineKeepsComplete(t: Tally, line: string)
    requires Balanced(t) && LineBalanced(line)
    ensures Balanced(Counted(t, line))
  {
  }

  /** Conversely, when nothing wraps, a complete tally stays complete only if the line
      counted into it is itself balanced. */
  lemma {:induction false} CompleteAfterLineMeansLineBalanced(t: Tally, line: string)
    requires Balanced(t) && FitsInU8(t, line) && Balanced(Counted(t, line))
    ensures LineBalanced(line)
  {
    CountedExact(t, line);
    assert Delimiters[0] == '{' && Delimiters[1] == '}' && Delimiters[2] == '(';
    assert Delimiters[3] == ')' && Delimiters[4] == '[' && Delimiters[5] == ']';
  }

  /** `Preserver`: a lookup string and an optional boxed inner preserver. The ghost `Chain`
      lists the lookups from this node down to the innermost one. */
  class Preserver {
    var lookup: string
    var inner: Preserver?
    ghost var Chain: seq<string>
    ghost var Repr: set<object>

    ghost predicate Valid()
      reads this, Repr
      decreases Repr
    {
      this in Repr && Chain != [] && Chain[0] == lookup &&
      (inner == null ==> Chain == [lookup]) &&
      (inner != null ==>
        inner in Repr && inner.Repr <= Repr && this !in inner.Repr &&
        inner.Chain != [] && Chain == [lookup] + inner.Chain && inner.Valid())
    }

    /** `Preserver::new(lookup)`: the given lookup and no inner preserver. */
    constructor (lookup: string)
      ensures Valid() && fresh(Repr)
      ensures this.lookup == lookup && inner == null && Chain == [lookup] && Repr == {this}
    {
      this.lookup := lookup;
      inner := null;
      Chain := [lookup];
      Repr := {this};
    }

    /** `preserver.lookup()`. */
    function Lookup(): (r: string)
      reads this, Repr
      requires Valid()
      ensures r == Chain[0]
    {
      lookup
    }

    /** `get_inner`: a non-consuming read of the inner preserver. */
    function GetInner(): (r: Preserver?)
      reads this, Repr
      requires Valid()
      ensures r == null <==> |Chain| == 1
      ensures r != null ==> r in Repr && r.Repr <= Repr && r.Valid() && r.Chain == Chain[1..]
    {
      inner
    }

    /** `take_inner`: hands out the inner preserver and leaves `inner` empty. */
    method TakeInner() returns (r: Preserver?)
      requires Valid()
      modifies this
      ensures Valid() && lookup == old(lookup) && inner == null && Chain == [lookup]
      ensures r == old(inner)
      ensures r != null ==> r.Valid() && r.Chain == old(Chain)[1..] && this !in r.Repr
    {
      r := inner;
      inner := null;
      Chain := [lookup];
      Repr := {this};
    }

    /** `add_inners(lookups)`: walks a cursor down from this preserver, giving each node a
        fresh inner preserver per lookup. A non-empty list replaces any earlier chain; an
        empty one leaves the preserver untouched. */
    method AddInners(lookups: seq<string>)
      requires Valid()
      modifies Repr
      ensures Valid() && fresh(Repr - old(Repr)) && lookup == old(lookup)
      ensures lookups == [] ==> Chain == old(Chain) && inner == old(inner)
      ensures lookups != [] ==> Chain == [lookup] + lookups
    {
      if lookups == [] {
        return;
      }
      var current := this;
      ghost var nodes: seq<Preserver> := [this];
      var i := 0;
      while i < |lookups|
        invariant 0 <= i <= |lookups|
        invariant |nodes| == i + 1 && nodes[0] == this && nodes[i] == current
        invariant lookup == old(lookup)
        invariant forall k :: 1 <= k < |nodes| ==> fresh(nodes[k])
        invariant forall k, l :: 0 <= k < l < |nodes| ==> nodes[k] != nodes[l]
        invariant forall k :: 0 <= k < i ==> nodes[k].inner == nodes[k + 1]
        invariant forall k :: 1 <= k <= i ==> nodes[k].lookup == lookups[k - 1]
        invariant i > 0 ==> current.inner == null && current.Chain == [current.lookup] && current.Repr == {current}
      {
        var next := new Preserver(lookups[i]);
        current.inner := next;
        current := next;
        nodes := nodes + [next];
        i := i + 1;
      }
      Relink(nodes, lookups, lookup);
    }
  }

  /** The ghost fields of every node of the linked list `nodes` above the last one, rebuilt
      bottom-up, so that each node's chain is its lookup followed by those below it. */
  ghost method Relink(nodes: seq<Preserver>, lookups: seq<string>, first: string)
    requires |nodes| == |lookups| + 1 && nodes[0].lookup == first
    requires forall j :: 0 <= j < |nodes| - 1 ==> nodes[j].inner == nodes[j + 1]
    requires forall j :: 1 <= j < |nodes| ==> nodes[j].lookup == lookups[j - 1]
    requires forall j, l :: 0 <= j < l < |nodes| ==> nodes[j] != nodes[l]
    requires var last := nodes[|nodes| - 1];
      last.inner == null && last.Chain == [last.lookup] && last.Repr == {last}
    modifies nodes
    ensures nodes[0].Valid() && nodes[0].lookup == first && nodes[0].Chain == [first] + lookups
    ensures forall o :: o in nodes[0].Repr ==> o in nodes
    decreases |nodes|
  {
    if |nodes| > 1 {
      var rest := nodes[1..];
      Relink(rest, lookups[1..], nodes[1].lookup);
      assert nodes[0] !in rest;
      assert lookups == [lookups[0]] + lookups[1..];
      LinkAbove(nodes[0], nodes[1]);
    }
  }

  /** One node rebuilt over the node below it, which is already valid. */
  ghost method LinkAbove(node: Preserver, below: Preserver)
    requires below.Valid() && node.inner == below && node !in below.Repr
    modifies node
    ensures node.Valid() && node.Chain == [node.lookup] + below.Chain && node.Repr == {node} + below.Repr
    ensures node.lookup == old(node.lookup) && node.inner == old(node.inner)
  {
    node.Chain := [node.lookup] + below.Chain;
    node.Repr := {node} + below.Repr;
  }

  /** `DelimitersCount`: the six counters, a fixed-size array. */
  class DelimitersCount {
    var counts: array<u8>

    ghost predicate Valid()
      reads this
    {
      counts.Length == 6
    }

    /** `DelimitersCount::new()`: every counter is zero, so the tally is complete. */
    constructor ()
      ensures Valid() && fresh(counts) && counts[..] == Zero && Balanced(counts[..])
    {
      counts := new u8[6](_ => 0);
    }

    /** `is_complete()`. */
    predicate IsComplete()
      reads this, counts
      requires Valid()
      ensures IsComplete() <==> Balanced(counts[..])
    {
      counts[0] == counts[1] && counts[2] == counts[3] && counts[4] == counts[5]
    }

    /** `count(line)`: each counter grows by the occurrences of its delimiter in `line`. */
    method Count(line: string)
      requires Valid()
      modifies counts
      ensures Valid() && counts[..] == Counted(old(counts[..]), line)
    {
      counts[0] := WrappingAdd(counts[0], Truncate(Occurrences(line, '{')));
      counts[1] := WrappingAdd(counts[1], Truncate(Occurrences(line, '}')));
      counts[2] := WrappingAdd(counts[2], Truncate(Occurrences(line, '(')));
      counts[3] := WrappingAdd(counts[3], Truncate(Occurrences(line, ')')));
      counts[4] := WrappingAdd(counts[4], Truncate(Occurrences(line, '[')));
      counts[5] := WrappingAdd(counts[5], Truncate(Occurrences(line, ']')));
    }
  }
}
