/**
 * The graph container: adjacency lists indexed by vertex id, the set of
 * registered vertex ids and the set of recorded edges, with the operations
 * that change them in place and the connectivity query.
 *
 * Both insertion paths of the program are here: `AddEdge` checks the two ids
 * against the size of links and records the edge, as the loader uses it;
 * `AddEdgeWithVertices` registers the two ids as vertices first, each with
 * its own bounds check, and gives up at the first that fails.
 */
module Graphs {
  import opened Entities
  import opened Faults
  import opened Adjacency
  import opened Reachability
  import opened Connectivity
  import opened Loader

  class Graph {
    var links: Links
    var vertices: set<nat>
    var edges: set<EdgeKey>

    /**
     * The object invariant: neighbour ids are in range, the lists are
     * mutually consistent, the edge set is what the lists record, and every
     * registered vertex id is in range.
     */
    ghost predicate Valid()
      reads this
    {
      Consistent(links, edges) && VerticesInRange(vertices, |links|)
    }

    /**
     * The loading constructor over the parsed lines: pass 1 sizes links to
     * one more than the largest id, pass 2 records every line with AddEdge,
     * and the lists are then compacted. No pass-2 insertion is ever refused,
     * so building never aborts.
     */
    constructor Load(lines: seq<Line>)
      ensures Valid()
      ensures |links| == Capacity(lines) && LinesBelow(lines, |links|)
      ensures links == AddAll(Empties(Capacity(lines)), lines, |lines|)
      ensures edges == LineKeys(lines, |lines|)
      ensures vertices == {}
    {
      links, vertices, edges := [], {}, {};
      new;
      EmptiesConsistent(0);
      var capacity := VertexSizeFromLines(lines);
      var sized := SetVertexSize(capacity);
      assert sized == Pass;
      assert links == Empties(capacity);
      RecordLines(lines);
      ShrinkMemory();
    }

    /**
     * Pass 2 of the loader: every line is recorded with AddEdge, in order.
     * Both ids of every line are in range, so no insertion is ever refused
     * and "add edge to graph failed" is never thrown.
     */
    method RecordLines(lines: seq<Line>)
      requires Valid() && LinesBelow(lines, |links|) && edges == {}
      modifies this
      ensures Valid()
      ensures links == AddAll(old(links), lines, |lines|)
      ensures edges == LineKeys(lines, |lines|)
      ensures vertices == old(vertices)
    {
      ghost var base := links;
      var i := 0;
      while i < |lines|
        invariant i <= |lines|
        invariant Valid() && vertices == old(vertices)
        invariant links == AddAll(base, lines, i)
        invariant edges == LineKeys(lines, i)
      {
        var (s, e) := lines[i];
        ghost var before := edges;
        var added := AddEdge(EdgeOfIds(s, e));
        assert added;
        LineKeysNext(lines, i, before, edges);
        i := i + 1;
      }
    }

    /** getVertexSize: the number of slots of links, not the number of registered vertices. */
    function VertexSize(): (n: nat)
      reads this
      ensures n == |links|
      ensures Valid() ==> forall v :: v in vertices ==> v < n
    {
      |links|
    }

    /** getEdgeSize: the number of recorded edges. */
    function EdgeSize(): (n: nat)
      reads this
      ensures n == |edges|
    {
      |edges|
    }

    /** The number of registered vertices never exceeds the vertex size. */
    lemma VertexSizeBoundsVertices()
      requires Valid()
      ensures |vertices| <= VertexSize()
    {
      VerticesWithinCapacity(vertices, |links|);
    }

    /** The edge size is zero exactly when no vertex has a neighbour. */
    lemma EdgeSizeZeroIffNoNeighbours()
      requires Valid()
      ensures EdgeSize() == 0 <==> forall u :: 0 <= u < |links| ==> links[u] == []
    {
      NoEdgesIffNoNeighbours(links, edges);
    }

    /**
     * setVertexSize: refuses to shrink links; otherwise every existing list
     * is kept and the new slots are empty.
     */
    method SetVertexSize(size: nat) returns (r: Outcome)
      requires Valid()
      modifies this
      ensures Valid()
      ensures r == if size < old(|links|) then Fail(ShrinkRejected) else Pass
      ensures links == if r.Pass? then Grown(old(links), size) else old(links)
      ensures vertices == old(vertices) && edges == old(edges)
    {
      if size < VertexSize() {
        return Fail(ShrinkRejected);
      }
      GrownConsistent(links, edges, size);
      links := Grown(links, size);
      return Pass;
    }

    /** shrinkMemory: releases spare capacity list by list; no list's contents change. */
    method ShrinkMemory()
      modifies this
      ensures links == old(links) && vertices == old(vertices) && edges == old(edges)
    {
      var i := 0;
      while i < |links|
        invariant i <= |links|
        invariant links == old(links) && vertices == old(vertices) && edges == old(edges)
      {
        links := links[i := links[i]];
        i := i + 1;
      }
    }

    /** addVertex: registers an id below the vertex size; refuses any other. */
    method AddVertex(vertex: Vertex) returns (ok: bool)
      requires Valid()
      modifies this
      ensures Valid()
      ensures ok <==> vertex.id < |links|
      ensures vertices == if ok then old(vertices) + {vertex.id} else old(vertices)
      ensures links == old(links) && edges == old(edges)
    {
      if vertex.id >= VertexSize() {
        return false;
      }
      vertices := vertices + {vertex.id};
      return true;
    }

    /**
     * The common tail of both insertion paths: the end vertex is appended to
     * the start vertex's list, the start vertex to the end vertex's list, and
     * the edge joins the edge set.
     */
    method Record(edge: Edge)
      requires Valid()
      requires edge.startVertex.id < |links| && edge.endVertex.id < |links|
      modifies this
      ensures Valid()
      ensures links == Linked(old(links), edge.startVertex.id, edge.endVertex.id)
      ensures edges == old(edges) + {Key(edge)}
      ensures vertices == old(vertices)
    {
      var s, e := edge.startVertex.id, edge.endVertex.id;
      var links', edges' := Linked(links, s, e), edges + {KeyOf(s, e)};
      LinkedConsistent(links, edges, s, e);
      assert Consistent(links', edges') && VerticesInRange(vertices, |links'|);
      links, edges := links', edges';
    }

    /**
     * addEdge, bounds-checking form: refuses, changing nothing, when either
     * id is not below the vertex size; otherwise records the edge. In this model, whose edge set holds
     * unordered pairs, adding an edge whose pair is already recorded leaves
     * the edge size as it was.
     */
    method AddEdge(edge: Edge) returns (ok: bool)
      requires Valid()
      modifies this
      ensures Valid()
      ensures ok <==> edge.startVertex.id < old(|links|) && edge.endVertex.id < old(|links|)
      ensures links == if ok then Linked(old(links), edge.startVertex.id, edge.endVertex.id) else old(links)
      ensures edges == if ok then old(edges) + {Key(edge)} else old(edges)
      ensures vertices == old(vertices)
      ensures EdgeSize() == old(EdgeSize()) + if ok && Key(edge) !in old(edges) then 1 else 0
    {
      if edge.startVertex.id >= VertexSize() || edge.endVertex.id >= VertexSize() {
        return false;
      }
      InsertCount(edges, Key(edge));
      Record(edge);
      return true;
    }

    /**
     * addEdge, registering form: the start id is registered first and the end
     * id only if that succeeded; the edge is recorded only if both were. An
     * in-range start id stays registered even when the end id is refused.
     */
    method AddEdgeWithVertices(edge: Edge) returns (ok: bool)
      requires Valid()
      modifies this
      ensures Valid()
      ensures ok <==> edge.startVertex.id < old(|links|) && edge.endVertex.id < old(|links|)
      ensures vertices == old(vertices)
        + (if edge.startVertex.id < old(|links|) then {edge.startVertex.id} else {})
        + (if ok then {edge.endVertex.id} else {})
      ensures links == if ok then Linked(old(links), edge.startVertex.id, edge.endVertex.id) else old(links)
      ensures edges == if ok then old(edges) + {Key(edge)} else old(edges)
    {
      var registered := AddVertex(edge.startVertex);
      if registered {
        registered := AddVertex(edge.endVertex);
      }
      if !registered {
        return false;
      }
      Record(edge);
      return true;
    }

    /**
     * isOneComponent: throws on an empty links and, from the seed scan, when
     * no list is non-empty; otherwise runs the traversal from the first id
     * with a neighbour and then scans from it for a non-isolated id that was
     * never finished. The answer is whether the vertices that have neighbours
     * form one component; isolated ids take no part.
     */
    method IsOneComponent() returns (r: Result<bool>)
      requires Valid()
      ensures r.Ok? <==> |links| > 0 && exists v :: 0 <= v < |links| && links[v] != []
      ensures r.Err? ==> r.fault == NoVertex || r.fault == SeedOutOfRange
      ensures r == Err(NoVertex) <==> |links| == 0
      ensures r == Err(SeedOutOfRange) <==> |links| > 0 && forall v :: 0 <= v < |links| ==> links[v] == []
      ensures r.Ok? ==> forall s :: IsSeed(links, s) ==> (r.value <==> AllReachableFrom(links, s))
      ensures r.Ok? ==> (r.value <==> Connected(links))
    {
      if |links| == 0 {
        return Err(NoVertex);
      }
      var seed := FindSeed(links);
      if seed.Err? {
        return Err(seed.fault);
      }
      var start := seed.value;
      var colors;
      ghost var order;
      colors, order := Traverse(links, start);
      SeedDecidesConnected(links, start);
      var finished := NoUnfinishedFrom(links, colors, start);
      return Ok(finished);
    }
  }
}
