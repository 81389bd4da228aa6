/**
 * The two loops of the connectivity check: the scan for the first vertex
 * with a neighbour, and the tri-colour breadth-first traversal from it with
 * an explicit FIFO queue and a colour array local to the call.
 */
module Connectivity {
  import opened Faults
  import opened Adjacency
  import opened Reachability

  /** WHITE: never seen; GRAY: queued; BLACK: dequeued and its neighbours looked at. */
  datatype Color = White | Gray | Black

  /** The ids still white. */
  ghost function Whites(colors: seq<Color>): set<nat>
  {
    set v: nat | v < |colors| && colors[v] == White
  }

  lemma WhitesAfterMark(colors: seq<Color>, w: nat, c: Color)
    requires w < |colors| && colors[w] == White && c != White
    ensures Whites(colors[w := c]) == Whites(colors) - {w}
    ensures |Whites(colors[w := c])| == |Whites(colors)| - 1
  {
    assert Whites(colors[w := c]) == Whites(colors) - {w};
  }

  lemma WhitesAfterRecolour(colors: seq<Color>, w: nat, c: Color)
    requires w < |colors| && colors[w] != White && c != White
    ensures Whites(colors[w := c]) == Whites(colors)
  {
    assert Whites(colors[w := c]) == Whites(colors);
  }

  /** No id occurs twice. */
  ghost predicate Distinct(s: seq<nat>)
  {
    forall i, j :: 0 <= i < j < |s| ==> s[i] != s[j]
  }

  /**
   * The queue discipline of the traversal: the queue holds exactly the gray
   * ids, each once; `order` holds every id ever queued, each once, and these
   * are exactly the non-white ids; every non-white id is reachable from seed.
   */
  ghost predicate Frontier(links: Links, seed: nat, colors: seq<Color>, queue: seq<nat>, order: seq<nat>)
  {
    && |colors| == |links| && seed < |links| && colors[seed] != White
    && (forall i :: 0 <= i < |queue| ==> queue[i] < |links| && colors[queue[i]] == Gray)
    && (forall v :: 0 <= v < |links| && colors[v] == Gray ==> v in queue)
    && Distinct(queue) && Distinct(order)
    && (forall i :: 0 <= i < |order| ==> order[i] < |links|)
    && (forall v :: 0 <= v < |links| ==> (colors[v] != White <==> v in order))
    && (forall v :: 0 <= v < |links| && colors[v] != White ==> Reachable(links, seed, v))
  }

  /** No black id other than `except` has a white neighbour. */
  ghost predicate ClosedExcept(links: Links, colors: seq<Color>, except: int)
    requires |colors| == |links| && InRange(links)
  {
    forall u, j :: 0 <= u < |links| && u != except && colors[u] == Black && 0 <= j < |links[u]| ==>
      colors[links[u][j]] != White
  }

  /** Dequeuing the front id and turning it black keeps the discipline. */
  lemma FinishStep(links: Links, seed: nat, colors: seq<Color>, queue: seq<nat>, order: seq<nat>)
    requires InRange(links) && Frontier(links, seed, colors, queue, order)
    requires ClosedExcept(links, colors, -1) && queue != []
    ensures colors[queue[0]] == Gray
    ensures Frontier(links, seed, colors[queue[0] := Black], queue[1..], order)
    ensures ClosedExcept(links, colors[queue[0] := Black], queue[0])
    ensures Whites(colors[queue[0] := Black]) == Whites(colors)
  {
    var c := queue[0];
    var colors' := colors[c := Black];
    WhitesAfterRecolour(colors, c, Black);
    forall v | 0 <= v < |links| && colors'[v] == Gray ensures v in queue[1..] {
      assert v in queue && v != c;
      var i :| 0 <= i < |queue| && queue[i] == v;
      assert i > 0;
      assert queue[1..][i - 1] == v;
    }
    assert Distinct(queue[1..]) by {
      forall i, j | 0 <= i < j < |queue[1..]| ensures queue[1..][i] != queue[1..][j] {
        assert queue[1..][i] == queue[i + 1] && queue[1..][j] == queue[j + 1];
      }
    }
    forall i | 0 <= i < |queue[1..]| ensures queue[1..][i] < |links| && colors'[queue[1..][i]] == Gray {
      assert queue[1..][i] == queue[i + 1] && queue[i + 1] != c;
    }
  }

  /** Queuing the white neighbour w of the black id current keeps the discipline. */
  lemma DiscoverStep(links: Links, seed: nat, colors: seq<Color>, queue: seq<nat>, order: seq<nat>,
                     current: nat, w: nat)
    requires InRange(links) && Frontier(links, seed, colors, queue, order)
    requires ClosedExcept(links, colors, current)
    requires current < |links| && colors[current] == Black && w in links[current]
    requires colors[w] == White
    ensures Frontier(links, seed, colors[w := Gray], queue + [w], order + [w])
    ensures ClosedExcept(links, colors[w := Gray], current)
    ensures |Whites(colors[w := Gray])| == |Whites(colors)| - 1
  {
    var colors' := colors[w := Gray];
    ReachableStep(links, seed, current, w);
    WhitesAfterMark(colors, w, Gray);
    assert w !in queue && w !in order;
    assert Distinct(queue + [w]) && Distinct(order + [w]);
  }

  /**
   * The ids a scan of the neighbour list `ns` queues, in the order it queues
   * them, when the colours before the scan are `colors`: each id that was
   * white, at its first occurrence in `ns`.
   */
  function Discovered(ns: seq<nat>, colors: seq<Color>): (d: seq<nat>)
    ensures |d| <= |ns|
  {
    if ns == [] then []
    else
      var earlier := Discovered(ns[..|ns| - 1], colors);
      var w := ns[|ns| - 1];
      if w < |colors| && colors[w] == White && w !in earlier then earlier + [w] else earlier
  }

  /** One more neighbour looked at: it is queued exactly when it is white and not yet queued. */
  lemma DiscoveredStep(ns: seq<nat>, k: nat, colors: seq<Color>)
    requires k < |ns|
    ensures Discovered(ns[..k + 1], colors) ==
      if ns[k] < |colors| && colors[ns[k]] == White && ns[k] !in Discovered(ns[..k], colors)
      then Discovered(ns[..k], colors) + [ns[k]]
      else Discovered(ns[..k], colors)
  {
    assert ns[..k + 1][..k] == ns[..k];
  }

  /** The scan queues exactly the white ids of the list, each once. */
  lemma {:induction false} DiscoveredMembers(ns: seq<nat>, colors: seq<Color>)
    ensures forall v :: v in Discovered(ns, colors) <==> v in ns && v < |colors| && colors[v] == White
    ensures Distinct(Discovered(ns, colors))
  {
    if ns != [] {
      var init := ns[..|ns| - 1];
      DiscoveredMembers(init, colors);
      assert ns == init + [ns[|ns| - 1]];
    }
  }

  /** colors is before with exactly the ids of d turned gray. */
  ghost predicate Recoloured(colors: seq<Color>, before: seq<Color>, d: seq<nat>)
  {
    |colors| == |before| &&
    forall v :: 0 <= v < |before| ==> colors[v] == if v in d then Gray else before[v]
  }

  /** One step of the neighbour scan keeps the queue and the colours in step with Discovered. */
  lemma ScanStep(ns: seq<nat>, k: nat, before: seq<Color>, colors: seq<Color>, queue: seq<nat>, q: seq<nat>)
    requires k < |ns| && ns[k] < |before|
    requires q == queue + Discovered(ns[..k], before)
    requires Recoloured(colors, before, Discovered(ns[..k], before))
    ensures colors[ns[k]] == White ==>
      q + [ns[k]] == queue + Discovered(ns[..k + 1], before) &&
      Recoloured(colors[ns[k] := Gray], before, Discovered(ns[..k + 1], before))
    ensures colors[ns[k]] != White ==>
      q == queue + Discovered(ns[..k + 1], before) &&
      Recoloured(colors, before, Discovered(ns[..k + 1], before))
  {
    var found := Discovered(ns[..k], before);
    DiscoveredStep(ns, k, before);
    if colors[ns[k]] == White {
      assert q + [ns[k]] == queue + (found + [ns[k]]);
    }
  }

  /**
   * What holds after the scan of current's list has looked at its first k
   * entries, starting from the colours `before`, the queue `queue` and the
   * log of queued ids `log`.
   */
  ghost predicate Scanned(links: Links, seed: nat, current: nat, k: nat, before: seq<Color>, queue: seq<nat>,
                          log: seq<nat>, colors: seq<Color>, q: seq<nat>, order: seq<nat>)
  {
    && InRange(links) && current < |links| && k <= |links[current]|
    && q == queue + Discovered(links[current][..k], before)
    && order == log + Discovered(links[current][..k], before)
    && Recoloured(colors, before, Discovered(links[current][..k], before))
    && Frontier(links, seed, colors, q, order)
    && ClosedExcept(links, colors, current)
    && colors[current] == Black
    && |Whites(colors)| <= |Whites(before)|
    && |Whites(colors)| + |q| == |Whites(before)| + |queue|
  }

  /** Looking at entry k of current's list, queuing it if it is white, keeps Scanned. */
  lemma ScannedStep(links: Links, seed: nat, current: nat, k: nat, before: seq<Color>, queue: seq<nat>,
                    log: seq<nat>, colors: seq<Color>, q: seq<nat>, order: seq<nat>)
    requires Scanned(links, seed, current, k, before, queue, log, colors, q, order)
    requires k < |links[current]|
    ensures links[current][k] < |colors|
    ensures colors[links[current][k]] == White ==>
      Scanned(links, seed, current, k + 1, before, queue, log, colors[links[current][k] := Gray],
              q + [links[current][k]], order + [links[current][k]])
    ensures colors[links[current][k]] != White ==>
      Scanned(links, seed, current, k + 1, before, queue, log, colors, q, order)
  {
    var ns := links[current];
    var w := ns[k];
    assert w in ns;
    ScanStep(ns, k, before, colors, queue, q);
    ScanStep(ns, k, before, colors, log, order);
    if colors[w] == White {
      DiscoverStep(links, seed, colors, q, order, current, w);
    }
  }

  /** Before the scan has looked at anything, Scanned holds of the unchanged state. */
  lemma ScannedStart(links: Links, seed: nat, current: nat, colors: seq<Color>, queue: seq<nat>, order: seq<nat>)
    requires InRange(links) && Frontier(links, seed, colors, queue, order)
    requires current < |links| && colors[current] == Black
    requires ClosedExcept(links, colors, current)
    ensures Scanned(links, seed, current, 0, colors, queue, order, colors, queue, order)
  {
    assert links[current][..0] == [];
  }

  /** A finished scan leaves current closed: none of its neighbours is white any more. */
  lemma ScannedAll(links: Links, seed: nat, current: nat, before: seq<Color>, queue: seq<nat>,
                   log: seq<nat>, colors: seq<Color>, q: seq<nat>, order: seq<nat>)
    requires current < |links|
    requires Scanned(links, seed, current, |links[current]|, before, queue, log, colors, q, order)
    ensures q == queue + Discovered(links[current], before)
    ensures order == log + Discovered(links[current], before)
    ensures Recoloured(colors, before, Discovered(links[current], before))
    ensures Frontier(links, seed, colors, q, order)
    ensures ClosedExcept(links, colors, -1)
    ensures |Whites(colors)| <= |Whites(before)|
    ensures |Whites(colors)| + |q| == |Whites(before)| + |queue|
  {
    var ns := links[current];
    assert ns[..|ns|] == ns;
    DiscoveredMembers(ns, before);
    forall j | 0 <= j < |ns| ensures colors[ns[j]] != White {
      assert ns[j] in ns;
    }
  }

  /**
   * The body of the traversal for one dequeued id `current`, already black:
   * every white neighbour, in list order, is turned gray and queued at the
   * back and logged in `order`; no other colour changes.
   */
  method VisitNeighbours(links: Links, seed: nat, color: array<Color>, current: nat,
                         queue: seq<nat>, ghost order: seq<nat>)
    returns (queue': seq<nat>, ghost order': seq<nat>)
    requires InRange(links) && Frontier(links, seed, color[..], queue, order)
    requires current < |links| && color[current] == Black
    requires ClosedExcept(links, color[..], current)
    modifies color
    ensures queue' == queue + Discovered(links[current], old(color[..]))
    ensures order' == order + Discovered(links[current], old(color[..]))
    ensures Recoloured(color[..], old(color[..]), Discovered(links[current], old(color[..])))
    ensures Frontier(links, seed, color[..], queue', order')
    ensures ClosedExcept(links, color[..], -1)
    ensures |Whites(color[..])| <= |Whites(old(color[..]))|
    ensures |Whites(color[..])| + |queue'| == |Whites(old(color[..]))| + |queue|
  {
    ghost var before := color[..];
    queue', order' := queue, order;
    var neighbours := links[current];
    var k := 0;
    ScannedStart(links, seed, current, before, queue, order);
    while k < |neighbours|
      invariant 0 <= k <= |neighbours|
      invariant Scanned(links, seed, current, k, before, queue, order, color[..], queue', order')
    {
      var w := neighbours[k];
      ghost var now := color[..];
      ScannedStep(links, seed, current, k, before, queue, order, now, queue', order');
      if color[w] == White {
        color[w] := Gray;
        assert color[..] == now[w := Gray];
        queue' := queue' + [w];
        order' := order' + [w];
      }
      k := k + 1;
    }
    ScannedAll(links, seed, current, before, queue, order, color[..], queue', order');
  }

  /**
   * What the traversal knows once its queue has drained: no id is gray and
   * every neighbour of a black id is non-white, so black means reachable.
   */
  lemma DrainedTraversal(links: Links, seed: nat, colors: seq<Color>, order: seq<nat>)
    requires InRange(links) && Frontier(links, seed, colors, [], order)
    requires ClosedExcept(links, colors, -1)
    ensures forall v :: 0 <= v < |links| ==> colors[v] != Gray
    ensures forall v :: 0 <= v < |links| ==> (colors[v] == Black <==> Reachable(links, seed, v))
    ensures forall v: nat :: v in order <==> v < |links| && Reachable(links, seed, v)
  {
    var finished := set v: nat | v < |links| && colors[v] == Black;
    forall v | 0 <= v < |links| && Reachable(links, seed, v) ensures colors[v] == Black {
      ReachableStaysInside(links, seed, v, finished);
    }
    forall v: nat | v in order ensures v < |links| && Reachable(links, seed, v) {
      var i :| 0 <= i < |order| && order[i] == v;
    }
  }

  /** s is the first id whose list is non-empty. */
  ghost predicate IsSeed(links: Links, s: nat)
  {
    s < |links| && links[s] != [] && forall v :: 0 <= v < s ==> links[v] == []
  }

  /**
   * The seed scan: starting at id 0, step over empty lists. When every list
   * is empty the scan runs off the end of links, which throws out_of_range.
   */
  method FindSeed(links: Links) returns (r: Result<nat>)
    ensures r.Ok? ==> IsSeed(links, r.value)
    ensures r.Err? ==> r.fault == SeedOutOfRange && forall v :: 0 <= v < |links| ==> links[v] == []
  {
    var start := 0;
    while start < |links| && links[start] == []
      invariant start <= |links|
      invariant forall v :: 0 <= v < start ==> links[v] == []
    {
      start := start + 1;
    }
    if start == |links| {
      return Err(SeedOutOfRange);
    }
    return Ok(start);
  }

  /**
   * The final scan: from id `start` to the end of links, look for an id that
   * has a neighbour but was never finished.
   */
  method NoUnfinishedFrom(links: Links, colors: seq<Color>, start: nat) returns (b: bool)
    requires |colors| == |links| && start <= |links|
    ensures b <==> forall v :: start <= v < |links| && links[v] != [] ==> colors[v] == Black
  {
    var id := start;
    while id < |links|
      invariant start <= id <= |links|
      invariant forall v :: start <= v < id && links[v] != [] ==> colors[v] == Black
    {
      if colors[id] != Black && links[id] != [] {
        return false;
      }
      id := id + 1;
    }
    return true;
  }

  /** The queue is the most recent part of the log of queued ids. */
  ghost predicate QueueIsLogTail(queue: seq<nat>, order: seq<nat>)
  {
    |queue| <= |order| && queue == order[|order| - |queue|..]
  }

  /** Dequeuing the front and then queuing d at the back of both keeps the queue a tail of the log. */
  lemma LogTailStep(queue: seq<nat>, order: seq<nat>, d: seq<nat>)
    requires queue != [] && QueueIsLogTail(queue, order)
    ensures QueueIsLogTail(queue[1..] + d, order + d)
    ensures (order + d)[..|order|] == order
  {
    var i := |order| - |queue|;
    assert order[i + 1..] == queue[1..];
    assert (order + d)[i + 1..] == order[i + 1..] + d;
  }

  /**
   * Breadth-first traversal from seed. A vertex is queued only while white
   * and is turned gray as it is queued; a dequeued vertex is turned black and
   * its white neighbours are queued. When the queue drains, the black ids are
   * exactly those reachable from seed, no id is gray, and `order`, the ids in
   * the order they were queued, lists each reachable id exactly once.
   */
  method Traverse(links: Links, seed: nat) returns (colors: seq<Color>, ghost order: seq<nat>)
    requires InRange(links) && seed < |links|
    ensures |colors| == |links|
    ensures forall v :: 0 <= v < |links| ==> colors[v] != Gray
    ensures forall v :: 0 <= v < |links| ==> (colors[v] == Black <==> Reachable(links, seed, v))
    ensures |order| > 0 && order[0] == seed
    ensures Distinct(order)
    ensures forall v: nat :: v in order <==> v < |links| && Reachable(links, seed, v)
  {
    var color := new Color[|links|](_ => White);
    color[seed] := Gray;
    var queue: seq<nat> := [seed];
    order := [seed];
    ReachableSelf(links, seed);
    assert Frontier(links, seed, color[..], queue, order);
    while queue != []
      invariant Frontier(links, seed, color[..], queue, order)
      invariant ClosedExcept(links, color[..], -1)
      invariant QueueIsLogTail(queue, order)
      invariant |order| > 0 && order[0] == seed
      decreases |Whites(color[..])|, |queue|
    {
      FinishStep(links, seed, color[..], queue, order);
      var current := queue[0];
      assert queue == [current] + queue[1..];
      queue := queue[1..];
      // Each id is queued once and stays gray until it is dequeued, so the
      // source's skip of an already black dequeued id never fires.
      assert color[current] == Gray;
      color[current] := Black;
      ghost var queue0, order0, colors0 := queue, order, color[..];
      queue, order := VisitNeighbours(links, seed, color, current, queue, order);
      LogTailStep([current] + queue0, order0, Discovered(links[current], colors0));
    }
    colors := color[..];
    DrainedTraversal(links, seed, colors, order);
  }
}
