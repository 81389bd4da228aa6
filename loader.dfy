/**
 * The sizing logic of the edge-list loader, over the pairs of ids its lines
 * parse to. Pass 1 folds the largest id seen into a running maximum and adds
 * one; pass 2 records every pair as an edge. Reading and parsing the text
 * itself is not modelled.
 */
module Loader {
  import opened Entities
  import opened Adjacency

  /** One parsed line: a start id and an end id. */
  type Line = (nat, nat)

  function Max(a: nat, b: nat): nat
  {
    if a <= b then b else a
  }

  /** The running maximum of pass 1 after all the lines, starting from 0. */
  function MaxId(lines: seq<Line>): nat
  {
    if lines == [] then 0
    else Max(MaxId(lines[..|lines| - 1]), Max(lines[|lines| - 1].0, lines[|lines| - 1].1))
  }

  /** The vertex size pass 1 returns: the running maximum plus one. */
  function Capacity(lines: seq<Line>): nat
  {
    MaxId(lines) + 1
  }

  /** Every id on every line is at most the running maximum. */
  lemma {:induction false} MaxIdBounds(lines: seq<Line>)
    ensures forall i :: 0 <= i < |lines| ==> lines[i].0 <= MaxId(lines) && lines[i].1 <= MaxId(lines)
  {
    if lines != [] {
      var init := lines[..|lines| - 1];
      MaxIdBounds(init);
      assert forall i :: 0 <= i < |init| ==> init[i] == lines[i];
    }
  }

  /** On a non-empty sequence the running maximum is an id that occurs on some line. */
  lemma {:induction false} MaxIdAttained(lines: seq<Line>)
    requires lines != []
    ensures exists i :: 0 <= i < |lines| && (lines[i].0 == MaxId(lines) || lines[i].1 == MaxId(lines))
  {
    var init := lines[..|lines| - 1];
    var last := |lines| - 1;
    if init != [] && MaxId(init) >= Max(lines[last].0, lines[last].1) {
      MaxIdAttained(init);
      var i :| 0 <= i < |init| && (init[i].0 == MaxId(init) || init[i].1 == MaxId(init));
      assert init[i] == lines[i];
    } else {
      assert lines[last].0 == MaxId(lines) || lines[last].1 == MaxId(lines);
    }
  }

  /**
   * The capacity pass 1 computes is exactly one more than the largest id on
   * any line (1 for no lines), so every id on every line is below it.
   */
  lemma CapacityCoversLines(lines: seq<Line>)
    ensures forall i :: 0 <= i < |lines| ==> lines[i].0 < Capacity(lines) && lines[i].1 < Capacity(lines)
    ensures lines == [] ==> Capacity(lines) == 1
    ensures lines != [] ==>
      exists i :: 0 <= i < |lines| && (lines[i].0 == Capacity(lines) - 1 || lines[i].1 == Capacity(lines) - 1)
  {
    MaxIdBounds(lines);
    if lines != [] {
      MaxIdAttained(lines);
    }
  }

  /** Pass 1: a running maximum over both ids of every line, plus one. */
  method VertexSizeFromLines(lines: seq<Line>) returns (size: nat)
    ensures size == Capacity(lines)
    ensures forall i :: 0 <= i < |lines| ==> lines[i].0 < size && lines[i].1 < size
    ensures lines == [] ==> size == 1
  {
    var maxId := 0;
    var i := 0;
    while i < |lines|
      invariant i <= |lines|
      invariant maxId == MaxId(lines[..i])
    {
      var (s, e) := lines[i];
      assert lines[..i + 1][..i] == lines[..i];
      maxId := Max(maxId, Max(s, e));
      i := i + 1;
    }
    assert lines[..i] == lines;
    CapacityCoversLines(lines);
    return maxId + 1;
  }

  /** Every id on every line is below n. */
  ghost predicate LinesBelow(lines: seq<Line>, n: nat)
  {
    forall i :: 0 <= i < |lines| ==> lines[i].0 < n && lines[i].1 < n
  }

  /** Pass 2's effect on links: the first n lines recorded in order. */
  function AddAll(links: Links, lines: seq<Line>, n: nat): (r: Links)
    requires n <= |lines| && LinesBelow(lines, |links|)
    ensures |r| == |links|
  {
    if n == 0 then links
    else Linked(AddAll(links, lines, n - 1), lines[n - 1].0, lines[n - 1].1)
  }

  /** Pass 2's effect on edges: the unordered pairs of the first n lines. */
  function LineKeys(lines: seq<Line>, n: nat): set<EdgeKey>
    requires n <= |lines|
  {
    if n == 0 then {}
    else LineKeys(lines, n - 1) + {KeyOf(lines[n - 1].0, lines[n - 1].1)}
  }

  /** One more line of pass 2 adds its pair to the edge set. */
  lemma LineKeysNext(lines: seq<Line>, i: nat, before: set<EdgeKey>, after: set<EdgeKey>)
    requires i < |lines|
    requires before == LineKeys(lines, i)
    requires after == before + {KeyOf(lines[i].0, lines[i].1)}
    ensures after == LineKeys(lines, i + 1)
  {
  }

  /** The pair of each of the first n lines is in the pass-2 edge set. */
  lemma {:induction false} LineKeysContainLines(lines: seq<Line>, n: nat)
    requires n <= |lines|
    ensures forall i :: 0 <= i < n ==> KeyOf(lines[i].0, lines[i].1) in LineKeys(lines, n)
  {
    if n > 0 {
      LineKeysContainLines(lines, n - 1);
    }
  }

  /** Adding the pairs of the first n lines is adding those of the first n - 1, then the pair of line n - 1. */
  lemma UnionNext(edges: set<EdgeKey>, lines: seq<Line>, n: nat)
    requires 0 < n <= |lines|
    ensures edges + LineKeys(lines, n) == edges + LineKeys(lines, n - 1) + {KeyOf(lines[n - 1].0, lines[n - 1].1)}
  {
  }

  /** Recording lines into a consistent structure leaves it consistent with their pairs added. */
  lemma {:induction false} AddAllConsistent(links: Links, edges: set<EdgeKey>, lines: seq<Line>, n: nat)
    requires Consistent(links, edges) && LinesBelow(lines, |links|) && n <= |lines|
    ensures Consistent(AddAll(links, lines, n), edges + LineKeys(lines, n))
  {
    if n > 0 {
      AddAllConsistent(links, edges, lines, n - 1);
      AddAllConsistentStep(links, edges, lines, n);
    }
  }

  /** Recording line n - 1 keeps the invariant. */
  lemma AddAllConsistentStep(links: Links, edges: set<EdgeKey>, lines: seq<Line>, n: nat)
    requires LinesBelow(lines, |links|) && 0 < n <= |lines|
    requires Consistent(AddAll(links, lines, n - 1), edges + LineKeys(lines, n - 1))
    ensures Consistent(AddAll(links, lines, n), edges + LineKeys(lines, n))
  {
    var last := lines[n - 1];
    UnionNext(edges, lines, n);
    LinkedConsistent(AddAll(links, lines, n - 1), edges + LineKeys(lines, n - 1), last.0, last.1);
  }

  /** Recording lines into a consistent structure records both directions of each line. */
  lemma AddAllRecordsLines(links: Links, edges: set<EdgeKey>, lines: seq<Line>)
    requires Consistent(links, edges) && LinesBelow(lines, |links|)
    ensures forall i :: 0 <= i < |lines| ==>
      lines[i].1 in AddAll(links, lines, |lines|)[lines[i].0] &&
      lines[i].0 in AddAll(links, lines, |lines|)[lines[i].1]
  {
    AddAllConsistent(links, edges, lines, |lines|);
    LineKeysContainLines(lines, |lines|);
    var links' := AddAll(links, lines, |lines|);
    var edges' := edges + LineKeys(lines, |lines|);
    forall i | 0 <= i < |lines|
      ensures lines[i].1 in links'[lines[i].0] && lines[i].0 in links'[lines[i].1]
    {
      EdgeRecordedBothWays(links', edges', lines[i].0, lines[i].1);
    }
  }

  /**
   * After loading, both directions of every line are recorded: the end id
   * is a neighbour of the start id and the start id a neighbour of the end id.
   */
  lemma LoadedRecordsEveryLine(lines: seq<Line>)
    ensures LinesBelow(lines, Capacity(lines))
    ensures forall i :: 0 <= i < |lines| ==>
      lines[i].1 in AddAll(Empties(Capacity(lines)), lines, |lines|)[lines[i].0] &&
      lines[i].0 in AddAll(Empties(Capacity(lines)), lines, |lines|)[lines[i].1]
  {
    CapacityCoversLines(lines);
    EmptiesConsistent(Capacity(lines));
    AddAllRecordsLines(Empties(Capacity(lines)), {}, lines);
  }
}
