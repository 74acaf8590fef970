/** The graph of blocked senders: slot p has one edge, to next[p], when p is sending. */
module SendGraph {

  type Graph = seq<int>

  ghost predicate HasEdge(g: Graph, a: int) {
    0 <= a < |g| && 0 <= g[a] < |g|
  }

  /** There is a walk of exactly k edges from a to b. */
  ghost predicate Walk(g: Graph, a: int, b: int, k: nat)
    decreases k
  {
    if k == 0 then a == b else HasEdge(g, a) && Walk(g, g[a], b, k - 1)
  }

  ghost predicate Reaches(g: Graph, a: int, b: int) {
    exists k: nat :: Walk(g, a, b, k)
  }

  ghost predicate Acyclic(g: Graph) {
    forall a: int, k: nat :: 0 < k ==> !Walk(g, a, a, k)
  }

  lemma {:induction false} WalkAppend(g: Graph, a: int, b: int, c: int, j: nat, k: nat)
    requires Walk(g, a, b, j) && Walk(g, b, c, k)
    ensures Walk(g, a, c, j + k)
    decreases j
  {
    if j > 0 {
      WalkAppend(g, g[a], b, c, j - 1, k);
    }
  }

  lemma LoopIsWalk(g: Graph, a: int)
    requires HasEdge(g, a) && g[a] == a
    ensures Walk(g, a, a, 1)
  {
    assert Walk(g, g[a], a, 0);
  }

  /** Removing edges removes walks. */
  lemma {:induction false} WalkInSupergraph(g: Graph, sub: Graph, a: int, b: int, k: nat)
    requires |sub| == |g| && forall p :: HasEdge(sub, p) ==> sub[p] == g[p]
    requires Walk(sub, a, b, k)
    ensures Walk(g, a, b, k)
    decreases k
  {
    if k > 0 {
      WalkInSupergraph(g, sub, g[a], b, k - 1);
    }
  }

  lemma SubgraphAcyclic(g: Graph, sub: Graph)
    requires Acyclic(g)
    requires |sub| == |g| && forall p :: HasEdge(sub, p) ==> sub[p] == g[p]
    ensures Acyclic(sub)
  {
    forall a: int, k: nat | 0 < k && Walk(sub, a, a, k)
      ensures false
    {
      WalkInSupergraph(g, sub, a, a, k);
    }
  }

  /** A walk after adding s -> d either avoids the new edge or can be cut at its first use. */
  lemma {:induction false} CutAtNewEdge(g: Graph, s: int, d: int, a: int, b: int, k: nat)
      returns (kept: bool, j: nat)
    requires 0 <= s < |g| && 0 <= d < |g| && !HasEdge(g, s)
    requires Walk(g[s := d], a, b, k)
    ensures kept ==> Walk(g, a, b, k)
    ensures !kept ==> j < k && Walk(g, a, s, j) && Walk(g[s := d], d, b, k - 1 - j)
    decreases k
  {
    if k == 0 {
      return true, 0;
    }
    if a == s {
      return false, 0;
    }
    kept, j := CutAtNewEdge(g, s, d, g[a], b, k - 1);
    if !kept {
      j := j + 1;
    }
  }

  /** Adding an edge to an acyclic graph closes a cycle exactly when the new target reaches the source. */
  lemma AddEdgeAcyclic(g: Graph, s: int, d: int)
    requires Acyclic(g)
    requires 0 <= s < |g| && 0 <= d < |g| && !HasEdge(g, s)
    ensures Acyclic(g[s := d]) <==> !Reaches(g, d, s)
  {
    var h := g[s := d];
    if k: nat :| Walk(g, d, s, k) {
      WalkInSupergraph(h, g, d, s, k);
      assert Walk(h, s, s, k + 1);
    } else {
      forall a: int, k: nat | 0 < k && Walk(h, a, a, k)
        ensures false
      {
        var kept, j := CutAtNewEdge(g, s, d, a, a, k);
        if !kept {
          var kept2, j2 := CutAtNewEdge(g, s, d, d, a, k - 1 - j);
          if kept2 {
            WalkAppend(g, d, a, s, k - 1 - j, j);
          }
        }
      }
    }
  }
}
