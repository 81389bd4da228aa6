/**
 * Two small edge lists loaded into four slots, and what the connectivity
 * check answers for them: two disjoint edges are not one component, a path
 * through all four ids is.
 */
module Scenarios {
  import opened Adjacency
  import opened Reachability
  import opened Loader

  /** The lines 0-1 and 2-3 give two components: 2 cannot be reached from 0. */
  lemma TwoDisjointEdgesAreTwoComponents()
    ensures Capacity([(0, 1), (2, 3)]) == 4
    ensures !Connected(AddAll(Empties(4), [(0, 1), (2, 3)], 2))
  {
    var lines: seq<Line> := [(0, 1), (2, 3)];
    CapacityCoversLines(lines);
    var step1 := AddAll(Empties(4), lines, 1);
    assert step1 == Linked(Empties(4), 0, 1);
    LinkedAt(Empties(4), 0, 1);
    assert step1[0] == [1] && step1[1] == [0] && step1[2] == [] && step1[3] == [];
    var links := AddAll(Empties(4), lines, 2);
    assert links == Linked(step1, 2, 3);
    LinkedAt(step1, 2, 3);
    assert links[0] == [1] && links[1] == [0] && links[2] == [3] && links[3] == [2];
    if Reachable(links, 0, 2) {
      ReachableStaysInside(links, 0, 2, {0, 1});
    }
  }

  /** The lists the path 0-1, 1-2, 2-3 loads into. */
  lemma PathLinks(lines: seq<Line>)
    requires lines == [(0, 1), (1, 2), (2, 3)]
    ensures LinesBelow(lines, 4)
    ensures var links := AddAll(Empties(4), lines, 3);
      links[0] == [1] && links[1] == [0, 2] && links[2] == [1, 3] && links[3] == [2]
  {
    assert lines[0] == (0, 1) && lines[1] == (1, 2) && lines[2] == (2, 3);
    assert AddAll(Empties(4), lines, 0) == Empties(4);
    var step1 := AddAll(Empties(4), lines, 1);
    assert step1 == Linked(Empties(4), 0, 1);
    LinkedAt(Empties(4), 0, 1);
    assert step1[0] == [1] && step1[1] == [0] && step1[2] == [] && step1[3] == [];
    var step2 := AddAll(Empties(4), lines, 2);
    assert step2 == Linked(step1, 1, 2);
    LinkedAt(step1, 1, 2);
    assert step2[0] == [1] && step2[1] == [0, 2] && step2[2] == [1] && step2[3] == [];
    var links := AddAll(Empties(4), lines, 3);
    assert links == Linked(step2, 2, 3);
    LinkedAt(step2, 2, 3);
  }

  /** The lines 0-1, 1-2 and 2-3 form a path, which is one component. */
  lemma PathIsOneComponent()
    ensures Capacity([(0, 1), (1, 2), (2, 3)]) == 4
    ensures Connected(AddAll(Empties(4), [(0, 1), (1, 2), (2, 3)], 3))
  {
    var lines: seq<Line> := [(0, 1), (1, 2), (2, 3)];
    CapacityCoversLines(lines);
    PathLinks(lines);
    var links := AddAll(Empties(4), lines, 3);
    EmptiesConsistent(4);
    AddAllConsistent(Empties(4), {}, lines, 3);
    assert 1 in links[0] && 2 in links[1] && 3 in links[2];
    ReachableSelf(links, 0);
    ReachableStep(links, 0, 0, 1);
    ReachableStep(links, 0, 1, 2);
    ReachableStep(links, 0, 2, 3);
    SeedDecidesConnected(links, 0);
  }
}
