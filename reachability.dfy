/**
 * Walks along the adjacency lists, reachability, and what "one component"
 * means for the graph: every vertex with at least one neighbour can reach
 * every other such vertex. Vertices with empty lists take no part.
 */
module Reachability {
  import opened Adjacency

  /** p is a walk: each id after the first is a neighbour of the one before it. */
  ghost predicate IsWalk(links: Links, p: seq<nat>)
  {
    |p| > 0 &&
    forall i :: 0 <= i < |p| - 1 ==> p[i] < |links| && p[i + 1] in links[p[i]]
  }

  /** Some walk leads from s to t. */
  ghost predicate Reachable(links: Links, s: nat, t: nat)
  {
    exists p :: IsWalk(links, p) && p[0] == s && p[|p| - 1] == t
  }

  /** Every vertex with a neighbour is reachable from s. */
  ghost predicate AllReachableFrom(links: Links, s: nat)
  {
    forall v :: 0 <= v < |links| && links[v] != [] ==> Reachable(links, s, v)
  }

  /** Any two vertices that have neighbours are joined by a walk. */
  ghost predicate Connected(links: Links)
  {
    forall u, v :: 0 <= u < |links| && 0 <= v < |links| && links[u] != [] && links[v] != [] ==>
      Reachable(links, u, v)
  }

  /** Every vertex reaches itself by the one-element walk. */
  lemma ReachableSelf(links: Links, s: nat)
    ensures Reachable(links, s, s)
  {
    assert IsWalk(links, [s]);
  }

  /** A walk to c extends by one step to any neighbour of c. */
  lemma ReachableStep(links: Links, s: nat, c: nat, w: nat)
    requires Reachable(links, s, c)
    requires c < |links| && w in links[c]
    ensures Reachable(links, s, w)
  {
    var p :| IsWalk(links, p) && p[0] == s && p[|p| - 1] == c;
    var p' := p + [w];
    assert IsWalk(links, p') by {
      forall i | 0 <= i < |p'| - 1 ensures p'[i] < |links| && p'[i + 1] in links[p'[i]] {
        if i < |p| - 1 {
          assert p'[i] == p[i] && p'[i + 1] == p[i + 1];
        }
      }
    }
  }

  /** Reachability is transitive: walks concatenate. */
  lemma ReachableTrans(links: Links, a: nat, b: nat, c: nat)
    requires Reachable(links, a, b) && Reachable(links, b, c)
    ensures Reachable(links, a, c)
  {
    var p :| IsWalk(links, p) && p[0] == a && p[|p| - 1] == b;
    var q :| IsWalk(links, q) && q[0] == b && q[|q| - 1] == c;
    var pq := p + q[1..];
    assert IsWalk(links, pq) by {
      forall i | 0 <= i < |pq| - 1 ensures pq[i] < |links| && pq[i + 1] in links[pq[i]] {
        if i < |p| - 1 {
          assert pq[i] == p[i] && pq[i + 1] == p[i + 1];
        } else {
          var k := i - (|p| - 1);
          assert pq[i] == q[k] && pq[i + 1] == q[k + 1];
        }
      }
    }
    assert pq[|pq| - 1] == c by {
      if |q| == 1 {
        assert pq == p;
      } else {
        assert pq[|pq| - 1] == q[|q| - 1];
      }
    }
  }

  /** Walking a walk backwards: the last id reaches the first. */
  lemma {:induction false} WalkReversed(links: Links, p: seq<nat>)
    requires InRange(links) && Symmetric(links)
    requires IsWalk(links, p)
    ensures Reachable(links, p[|p| - 1], p[0])
    decreases |p|
  {
    if |p| == 1 {
      ReachableSelf(links, p[0]);
    } else {
      var p' := p[..|p| - 1];
      assert IsWalk(links, p') by {
        forall i | 0 <= i < |p'| - 1 ensures p'[i] < |links| && p'[i + 1] in links[p'[i]] {
          assert p'[i] == p[i] && p'[i + 1] == p[i + 1];
        }
      }
      WalkReversed(links, p');
      var x, y := p[|p| - 2], p[|p| - 1];
      NeighbourBack(links, x, y);
      ReachableSelf(links, y);
      ReachableStep(links, y, y, x);
      ReachableTrans(links, y, x, p[0]);
    }
  }

  /** Since both directions of every edge are recorded, reachability is symmetric. */
  lemma ReachableSymmetric(links: Links, a: nat, b: nat)
    requires InRange(links) && Symmetric(links)
    requires Reachable(links, a, b)
    ensures Reachable(links, b, a)
  {
    var p :| IsWalk(links, p) && p[0] == a && p[|p| - 1] == b;
    WalkReversed(links, p);
  }

  /** A walk that starts inside a set closed under taking neighbours stays inside it. */
  lemma {:induction false} WalkStaysInside(links: Links, p: seq<nat>, inside: set<nat>)
    requires IsWalk(links, p) && p[0] in inside
    requires forall u, j :: u in inside && u < |links| && 0 <= j < |links[u]| ==> links[u][j] in inside
    ensures p[|p| - 1] in inside
    decreases |p|
  {
    if |p| > 1 {
      var p' := p[..|p| - 1];
      assert IsWalk(links, p') by {
        forall i | 0 <= i < |p'| - 1 ensures p'[i] < |links| && p'[i + 1] in links[p'[i]] {
          assert p'[i] == p[i] && p'[i + 1] == p[i + 1];
        }
      }
      WalkStaysInside(links, p', inside);
      var x := p[|p| - 2];
      var j :| 0 <= j < |links[x]| && links[x][j] == p[|p| - 1];
    }
  }

  /** Everything reachable from a member of a closed set is in the set. */
  lemma ReachableStaysInside(links: Links, s: nat, t: nat, inside: set<nat>)
    requires Reachable(links, s, t) && s in inside
    requires forall u, j :: u in inside && u < |links| && 0 <= j < |links[u]| ==> links[u][j] in inside
    ensures t in inside
  {
    var p :| IsWalk(links, p) && p[0] == s && p[|p| - 1] == t;
    WalkStaysInside(links, p, inside);
  }

  /** Reachability from an in-range vertex never leaves the id range. */
  lemma ReachableInRange(links: Links, s: nat, t: nat)
    requires InRange(links) && s < |links|
    requires Reachable(links, s, t)
    ensures t < |links|
  {
    var inside := Slots(|links|);
    ReachableStaysInside(links, s, t, inside);
  }

  /**
   * For a vertex s that has a neighbour, reaching every non-isolated vertex
   * from s is the same as the graph being one component.
   */
  lemma SeedDecidesConnected(links: Links, s: nat)
    requires InRange(links) && Symmetric(links)
    requires s < |links| && links[s] != []
    ensures AllReachableFrom(links, s) <==> Connected(links)
  {
    if AllReachableFrom(links, s) {
      forall u, v | 0 <= u < |links| && 0 <= v < |links| && links[u] != [] && links[v] != []
        ensures Reachable(links, u, v)
      {
        ReachableSymmetric(links, s, u);
        ReachableTrans(links, u, s, v);
      }
    }
  }

  /** Growing links adds no step: the walks of the grown structure are those of the original. */
  lemma WalkInGrown(links: Links, n: nat, p: seq<nat>)
    requires |links| <= n
    ensures IsWalk(Grown(links, n), p) <==> IsWalk(links, p)
  {
    var g := Grown(links, n);
    if IsWalk(g, p) {
      forall i | 0 <= i < |p| - 1 ensures p[i] < |links| && p[i + 1] in links[p[i]] {
        assert p[i] < n && p[i + 1] in g[p[i]];
      }
    }
    if IsWalk(links, p) {
      forall i | 0 <= i < |p| - 1 ensures p[i] < n && p[i + 1] in g[p[i]] {
        assert g[p[i]] == links[p[i]];
      }
    }
  }

  /** Growing links does not change who reaches whom. */
  lemma ReachableInGrown(links: Links, n: nat, s: nat, t: nat)
    requires |links| <= n
    ensures Reachable(Grown(links, n), s, t) <==> Reachable(links, s, t)
  {
    var g := Grown(links, n);
    if Reachable(g, s, t) {
      var p :| IsWalk(g, p) && p[0] == s && p[|p| - 1] == t;
      WalkInGrown(links, n, p);
    }
    if Reachable(links, s, t) {
      var p :| IsWalk(links, p) && p[0] == s && p[|p| - 1] == t;
      WalkInGrown(links, n, p);
    }
  }

  /**
   * The new slots of a resize are isolated vertices, and isolated vertices do
   * not affect whether the graph is one component.
   */
  lemma ConnectedInGrown(links: Links, n: nat)
    requires |links| <= n
    ensures Connected(Grown(links, n)) <==> Connected(links)
  {
    var g := Grown(links, n);
    forall u, v | 0 <= u < n && 0 <= v < n
      ensures (g[u] != [] && g[v] != []) <==> (u < |links| && v < |links| && links[u] != [] && links[v] != [])
      ensures Reachable(g, u, v) <==> Reachable(links, u, v)
    {
      ReachableInGrown(links, n, u, v);
    }
  }
}
