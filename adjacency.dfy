/**
 * The adjacency structure of the graph as a value: `links[u]` is the list of
 * neighbour ids of vertex u, in insertion order, with repetitions. This module
 * says what a consistent structure is, and how growing it and recording an
 * edge in it change it.
 */
module Adjacency {
  import opened Entities

  type Links = seq<seq<nat>>

  /** Every stored neighbour id names a slot of links. */
  ghost predicate InRange(links: Links)
  {
    forall u, j :: 0 <= u < |links| && 0 <= j < |links[u]| ==> links[u][j] < |links|
  }

  /** v occurs in links[u] exactly as often as u occurs in links[v]. */
  ghost predicate Symmetric(links: Links)
  {
    forall u, v :: 0 <= u < |links| && 0 <= v < |links| ==>
      multiset(links[u])[v] == multiset(links[v])[u]
  }

  /** The edge set holds exactly the unordered pairs recorded in links. */
  ghost predicate EdgesMatch(links: Links, edges: set<EdgeKey>)
  {
    && (forall k :: k in edges ==> k.0 <= k.1 < |links| && k.1 in links[k.0])
    && (forall u, x :: 0 <= u < |links| && x in links[u] ==> (u, x) in edges || (x, u) in edges)
  }

  /** The invariant that every operation of the graph keeps. */
  ghost predicate Consistent(links: Links, edges: set<EdgeKey>)
  {
    InRange(links) && Symmetric(links) && EdgesMatch(links, edges)
  }

  /** Every registered vertex id names a slot of a links of size n. */
  ghost predicate VerticesInRange(vertices: set<nat>, n: nat)
  {
    forall v :: v in vertices ==> v < n
  }

  /** In a symmetric structure a neighbour's list names the vertex back. */
  lemma NeighbourBack(links: Links, x: nat, y: nat)
    requires InRange(links) && Symmetric(links)
    requires x < |links| && y in links[x]
    ensures y < |links| && x in links[y]
  {
    var j :| 0 <= j < |links[x]| && links[x][j] == y;
    assert multiset(links[x])[y] > 0;
    assert multiset(links[y])[x] > 0;
  }

  /** Every pair in a matching edge set is recorded in both directions. */
  lemma EdgeRecordedBothWays(links: Links, edges: set<EdgeKey>, s: nat, e: nat)
    requires Consistent(links, edges) && KeyOf(s, e) in edges
    ensures s < |links| && e < |links| && e in links[s] && s in links[e]
  {
    var k := KeyOf(s, e);
    assert k.1 in links[k.0];
    NeighbourBack(links, k.0, k.1);
  }

  /** n empty neighbour lists. */
  function Empties(n: nat): (r: Links)
    ensures |r| == n
    ensures forall u :: 0 <= u < n ==> r[u] == []
  {
    seq(n, _ => [])
  }

  /** links resized to n slots: the old lists kept, the new ones empty. */
  function Grown(links: Links, n: nat): (r: Links)
    requires |links| <= n
    ensures |r| == n
    ensures forall u :: 0 <= u < |links| ==> r[u] == links[u]
    ensures forall u :: |links| <= u < n ==> r[u] == []
  {
    links + Empties(n - |links|)
  }

  /**
   * links after recording the edge {u, v}: v appended at the back of links[u],
   * then u appended at the back of links[v] (a self-loop appends u twice).
   */
  function Linked(links: Links, u: nat, v: nat): (r: Links)
    requires u < |links| && v < |links|
    ensures |r| == |links|
  {
    var once := links[u := links[u] + [v]];
    once[v := once[v] + [u]]
  }

  /**
   * Recording {u, v} appends to exactly two lists: v goes at the back of
   * links[u] and u at the back of links[v]; every other list is untouched.
   */
  lemma LinkedAt(links: Links, u: nat, v: nat)
    requires u < |links| && v < |links|
    ensures forall w :: 0 <= w < |links| ==>
      Linked(links, u, v)[w] == links[w] + (if w == u then [v] else []) + (if w == v then [u] else [])
  {
  }

  /** The empty structure of any size is consistent with the empty edge set. */
  lemma EmptiesConsistent(n: nat)
    ensures Consistent(Empties(n), {})
  {
  }

  /** Growing keeps the structure consistent with the same edge set. */
  lemma GrownConsistent(links: Links, edges: set<EdgeKey>, n: nat)
    requires Consistent(links, edges)
    requires |links| <= n
    ensures Consistent(Grown(links, n), edges)
  {
    GrownSymmetric(links, n);
    var r := Grown(links, n);
    forall u, x | 0 <= u < |r| && x in r[u] ensures (u, x) in edges || (x, u) in edges {
      assert r[u] == links[u];
    }
  }

  lemma GrownSymmetric(links: Links, n: nat)
    requires InRange(links) && Symmetric(links)
    requires |links| <= n
    ensures Symmetric(Grown(links, n))
  {
    var r := Grown(links, n);
    forall u, v | 0 <= u < n && 0 <= v < n
      ensures multiset(r[u])[v] == multiset(r[v])[u]
    {
      if u < |links| && v < |links| {
        assert r[u] == links[u] && r[v] == links[v];
      } else if u < |links| {
        assert v !in links[u];
      } else if v < |links| {
        assert u !in links[v];
      }
    }
  }

  /** Recording an edge keeps the structure consistent once its pair joins the edge set. */
  lemma LinkedConsistent(links: Links, edges: set<EdgeKey>, u: nat, v: nat)
    requires Consistent(links, edges)
    requires u < |links| && v < |links|
    ensures Consistent(Linked(links, u, v), edges + {KeyOf(u, v)})
  {
    LinkedInRange(links, u, v);
    LinkedSymmetric(links, u, v);
    LinkedEdgesMatch(links, edges, u, v);
  }

  lemma LinkedInRange(links: Links, u: nat, v: nat)
    requires InRange(links)
    requires u < |links| && v < |links|
    ensures InRange(Linked(links, u, v))
  {
    var r := Linked(links, u, v);
    LinkedAt(links, u, v);
    forall w, j | 0 <= w < |r| && 0 <= j < |r[w]| ensures r[w][j] < |r| {
      if j < |links[w]| {
        assert r[w][j] == links[w][j];
      }
    }
  }

  lemma LinkedSymmetric(links: Links, u: nat, v: nat)
    requires Symmetric(links)
    requires u < |links| && v < |links|
    ensures Symmetric(Linked(links, u, v))
  {
    var r := Linked(links, u, v);
    forall w, x | 0 <= w < |r| && 0 <= x < |r|
      ensures multiset(r[w])[x] == multiset(r[x])[w]
    {
      LinkedCount(links, u, v, w, x);
      LinkedCount(links, u, v, x, w);
    }
  }

  /** How often x occurs in a list after recording {u, v}. */
  lemma LinkedCount(links: Links, u: nat, v: nat, w: nat, x: nat)
    requires u < |links| && v < |links| && w < |links|
    ensures multiset(Linked(links, u, v)[w])[x] == multiset(links[w])[x]
      + (if w == u && x == v then 1 else 0) + (if w == v && x == u then 1 else 0)
  {
    var A: seq<nat> := if w == u then [v] else [];
    var B: seq<nat> := if w == v then [u] else [];
    LinkedAt(links, u, v);
    assert Linked(links, u, v)[w] == links[w] + A + B;
    assert multiset(links[w] + A + B) == multiset(links[w]) + multiset(A) + multiset(B);
  }

  lemma LinkedEdgesMatch(links: Links, edges: set<EdgeKey>, u: nat, v: nat)
    requires EdgesMatch(links, edges)
    requires u < |links| && v < |links|
    ensures EdgesMatch(Linked(links, u, v), edges + {KeyOf(u, v)})
  {
    var r := Linked(links, u, v);
    var edges' := edges + {KeyOf(u, v)};
    LinkedAt(links, u, v);
    forall k | k in edges' ensures k.0 <= k.1 < |r| && k.1 in r[k.0] {
      if k in edges {
        assert k.1 in links[k.0];
        assert r[k.0][..|links[k.0]|] == links[k.0];
      } else if u <= v {
        assert r[u][|links[u]|] == v;
      } else {
        assert r[v][|r[v]| - 1] == u;
      }
    }
    forall w, x | 0 <= w < |r| && x in r[w] ensures (w, x) in edges' || (x, w) in edges' {
      if x in links[w] {
        assert (w, x) in edges || (x, w) in edges;
      }
    }
  }

  /** Adding a pair to an edge set grows it by one exactly when the pair is new. */
  lemma InsertCount(edges: set<EdgeKey>, k: EdgeKey)
    ensures |edges + {k}| == |edges| + if k in edges then 0 else 1
  {
    if k in edges {
      assert edges + {k} == edges;
    }
  }

  /** The ids 0 .. n-1. */
  function Slots(n: nat): (r: set<nat>)
    ensures forall v: int :: v in r <==> 0 <= v < n
    ensures |r| == n
  {
    if n == 0 then {} else Slots(n - 1) + {n - 1}
  }

  /** The number of registered vertices is bounded by the size of links. */
  lemma VerticesWithinCapacity(vertices: set<nat>, n: nat)
    requires VerticesInRange(vertices, n)
    ensures |vertices| <= n
  {
    SubsetCardinality(vertices, Slots(n));
  }

  lemma {:induction false} SubsetCardinality(a: set<nat>, b: set<nat>)
    requires a <= b
    ensures |a| <= |b|
    decreases |a|
  {
    if a != {} {
      var x :| x in a;
      SubsetCardinality(a - {x}, b - {x});
    }
  }

  /** With a matching edge set, the edge set is empty exactly when every list is empty. */
  lemma NoEdgesIffNoNeighbours(links: Links, edges: set<EdgeKey>)
    requires EdgesMatch(links, edges)
    ensures edges == {} <==> forall u :: 0 <= u < |links| ==> links[u] == []
  {
    if edges != {} {
      var k :| k in edges;
      assert k.1 in links[k.0];
    }
    if exists u :: 0 <= u < |links| && links[u] != [] {
      var u :| 0 <= u < |links| && links[u] != [];
      assert links[u][0] in links[u];
    }
  }
}
