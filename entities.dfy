/**
 * The two value types of the graph: a vertex, which is nothing but its id,
 * and an edge, which stores its endpoints in the order it was built with
 * but compares equal to its own reverse.
 */
module Entities {

  /** A vertex of the graph; its id is its whole identity. */
  datatype Vertex = Vertex(id: nat)

  /** An undirected edge, stored as the ordered pair it was built from. */
  datatype Edge = Edge(startVertex: Vertex, endVertex: Vertex)

  /** An unordered endpoint pair, normalised so that the first id is the smaller. */
  type EdgeKey = (nat, nat)

  /** The normalised unordered pair {u, v}. */
  function KeyOf(u: nat, v: nat): (k: EdgeKey)
    ensures k.0 <= k.1
    ensures {k.0, k.1} == {u, v}
  {
    if u <= v then (u, v) else (v, u)
  }

  /** The unordered endpoint pair of an edge. */
  function Key(e: Edge): EdgeKey
  {
    KeyOf(e.startVertex.id, e.endVertex.id)
  }

  /** operator== on vertices: equal ids. */
  function VertexEquals(a: Vertex, b: Vertex): (r: bool)
    ensures r <==> a == b
  {
    a.id == b.id
  }

  /** operator== on edges: same endpoints in the same order, or in the reverse order. */
  function EdgeEquals(a: Edge, b: Edge): (r: bool)
    ensures r <==> Key(a) == Key(b)
  {
    (VertexEquals(a.startVertex, b.startVertex) && VertexEquals(a.endVertex, b.endVertex)) ||
    (VertexEquals(a.startVertex, b.endVertex) && VertexEquals(a.endVertex, b.startVertex))
  }

  /** Edge equality holds exactly when both edges join the same set of endpoints. */
  lemma EdgeEqualsIffSameEndpoints(a: Edge, b: Edge)
    ensures EdgeEquals(a, b) <==>
            {a.startVertex.id, a.endVertex.id} == {b.startVertex.id, b.endVertex.id}
  {
    var s, t := a.startVertex.id, a.endVertex.id;
    var x, y := b.startVertex.id, b.endVertex.id;
    if {s, t} == {x, y} {
      assert s in {x, y} && t in {x, y} && x in {s, t} && y in {s, t};
    }
  }

  /** Edge equality ignores orientation and is an equivalence relation. */
  lemma EdgeEqualsIsEquivalence(a: Edge, b: Edge, c: Edge)
    ensures EdgeEquals(a, Edge(a.endVertex, a.startVertex))
    ensures EdgeEquals(a, a)
    ensures EdgeEquals(a, b) ==> EdgeEquals(b, a)
    ensures EdgeEquals(a, b) && EdgeEquals(b, c) ==> EdgeEquals(a, c)
  {
  }

  /** The number of values of `unsigned`, the type of the end id of the two-id Edge constructor. */
  const UnsignedModulus: nat := 0x1_0000_0000

  /**
   * The two-id Edge constructor as written: its end-id parameter is
   * `unsigned`, so an end id passed as `unsigned long` is reduced modulo 2^32.
   */
  function EdgeOfIdsAsWritten(startId: nat, endId: nat): (e: Edge)
    ensures e.startVertex.id == startId
    ensures e.endVertex.id < UnsignedModulus
    ensures e.endVertex.id == endId <==> endId < UnsignedModulus
  {
    Edge(Vertex(startId), Vertex(endId % UnsignedModulus))
  }

  /**
   * The line 0 -> 2^32 becomes, as written, the self-loop at 0, which is not
   * the edge the line names.
   */
  lemma EdgeOfIdsAsWrittenLosesEndId()
    ensures Key(EdgeOfIdsAsWritten(0, UnsignedModulus)) == (0, 0)
    ensures !EdgeEquals(EdgeOfIdsAsWritten(0, UnsignedModulus), Edge(Vertex(0), Vertex(UnsignedModulus)))
  {
  }

  /** The two-id Edge constructor as intended: both ids are kept whole. */
  function EdgeOfIds(startId: nat, endId: nat): (e: Edge)
    ensures e.startVertex.id == startId && e.endVertex.id == endId
    ensures Key(e) == KeyOf(startId, endId)
  {
    Edge(Vertex(startId), Vertex(endId))
  }

  /** std::hash of a vertex: its id, as a 64-bit size_t. */
  function VertexHash(v: Vertex): (h: bv64)
    ensures v.id < 0x1_0000_0000_0000_0000 ==> h == v.id as bv64
  {
    (v.id % 0x1_0000_0000_0000_0000) as bv64
  }

  /** std::hash of an edge as written: the start hash xor the end hash shifted left by one. */
  function EdgeHashAsWritten(e: Edge): (h: bv64)
    ensures h & 1 == VertexHash(e.startVertex) & 1
    ensures h ^ (VertexHash(e.endVertex) << 1) == VertexHash(e.startVertex)
  {
    VertexHash(e.startVertex) ^ (VertexHash(e.endVertex) << 1)
  }

  /** An edge with its endpoints the other way round. */
  function Reversed(e: Edge): (r: Edge)
    ensures EdgeEquals(e, r) && Key(r) == Key(e)
  {
    Edge(e.endVertex, e.startVertex)
  }

  /** For distinct a and b, a ^ (b << 1) and b ^ (a << 1) differ: equality would make a ^ b its own double. */
  lemma ShiftXorSeparates(a: bv64, b: bv64)
    requires a != b
    ensures a ^ (b << 1) != b ^ (a << 1)
  {
  }

  /**
   * The edge hash as written tells an edge from its reverse whenever the two
   * endpoints hash differently, although operator== calls them equal.
   */
  lemma EdgeHashAsWrittenSeparatesReverse(e: Edge)
    requires VertexHash(e.startVertex) != VertexHash(e.endVertex)
    ensures EdgeEquals(e, Reversed(e))
    ensures EdgeHashAsWritten(e) != EdgeHashAsWritten(Reversed(e))
  {
    ShiftXorSeparates(VertexHash(e.startVertex), VertexHash(e.endVertex));
  }

  /**
   * unordered_set<Edge>::insert as libstdc++ and libc++ implement it: an element is found only when
   * its cached hash code matches and operator== holds; otherwise the edge is
   * added.
   */
  function InsertAsWritten(stored: set<Edge>, e: Edge): (r: set<Edge>)
    ensures stored <= r <= stored + {e} && |r| <= |stored| + 1
    ensures exists x :: x in r && EdgeHashAsWritten(x) == EdgeHashAsWritten(e) && EdgeEquals(x, e)
    ensures r == stored <==> exists x :: x in stored && EdgeHashAsWritten(x) == EdgeHashAsWritten(e) && EdgeEquals(x, e)
  {
    if exists x :: x in stored && EdgeHashAsWritten(x) == EdgeHashAsWritten(e) && EdgeEquals(x, e) then stored
    else stored + {e}
  }

  /** As written, inserting 0-1 and then 1-0 stores two elements, although they are equal. */
  lemma InsertAsWrittenKeepsBothOrientations()
    ensures EdgeEquals(Edge(Vertex(0), Vertex(1)), Edge(Vertex(1), Vertex(0)))
    ensures |InsertAsWritten(InsertAsWritten({}, Edge(Vertex(0), Vertex(1))), Edge(Vertex(1), Vertex(0)))| == 2
  {
    var e, f := Edge(Vertex(0), Vertex(1)), Edge(Vertex(1), Vertex(0));
    assert VertexHash(Vertex(0)) == 0 && VertexHash(Vertex(1)) == 1;
    assert EdgeHashAsWritten(e) == 2 && EdgeHashAsWritten(f) == 1;
    var once := InsertAsWritten({}, e);
    assert once == {e};
    assert !exists x :: x in once && EdgeHashAsWritten(x) == EdgeHashAsWritten(f) && EdgeEquals(x, f);
    assert InsertAsWritten(once, f) == {e, f};
  }

  /**
   * The edge set as intended, keyed by the unordered pair: an edge and its
   * reverse have one key, so inserting both stores it once.
   */
  lemma KeyIgnoresOrientation(edges: set<EdgeKey>, e: Edge)
    ensures Key(Reversed(e)) == Key(e)
    ensures edges + {Key(e)} + {Key(Reversed(e))} == edges + {Key(e)}
    ensures |edges + {Key(e)} + {Key(Reversed(e))}| == |edges| + if Key(e) in edges then 0 else 1
  {
    if Key(e) in edges {
      assert edges + {Key(e)} == edges;
    }
  }
}
