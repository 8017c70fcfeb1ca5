/** Directed graphs as the gyp tools load them: a map from a node to the list of its successors. */
module Graph {
  type Edges = map<string, seq<string>>

  ghost predicate Edge(edges: Edges, a: string, b: string) {
    a in edges && b in edges[a]
  }

  ghost predicate Path(edges: Edges, p: seq<string>) {
    p != [] && forall i :: 0 <= i < |p| - 1 ==> Edge(edges, p[i], p[i + 1])
  }

  ghost predicate PathFrom(edges: Edges, p: seq<string>, a: string, b: string) {
    Path(edges, p) && p[0] == a && p[|p| - 1] == b
  }

  ghost predicate Reaches(edges: Edges, a: string, b: string) {
    exists p :: PathFrom(edges, p, a, b)
  }

  /** a reaches b over at least one edge. */
  ghost predicate Precedes(edges: Edges, a: string, b: string) {
    exists c :: Edge(edges, a, c) && Reaches(edges, c, b)
  }

  ghost predicate Acyclic(edges: Edges) {
    forall a :: !Precedes(edges, a, a)
  }

  /** Every successor is a node. */
  ghost predicate Closed(edges: Edges) {
    forall a, b :: Edge(edges, a, b) ==> b in edges
  }

  lemma ReachesSelf(edges: Edges, a: string)
    ensures Reaches(edges, a, a)
  {
    assert PathFrom(edges, [a], a, a);
  }

  lemma ReachesThenEdge(edges: Edges, a: string, b: string, c: string)
    requires Reaches(edges, a, b) && Edge(edges, b, c)
    ensures Reaches(edges, a, c)
  {
    var p :| PathFrom(edges, p, a, b);
    assert PathFrom(edges, p + [c], a, c);
  }

  lemma EdgeThenReaches(edges: Edges, a: string, b: string, c: string)
    requires Edge(edges, a, b) && Reaches(edges, b, c)
    ensures Reaches(edges, a, c) && Precedes(edges, a, c)
  {
    var p :| PathFrom(edges, p, b, c);
    assert PathFrom(edges, [a] + p, a, c);
  }

  lemma PrecedesThenEdge(edges: Edges, a: string, b: string, c: string)
    requires Precedes(edges, a, b) && Edge(edges, b, c)
    ensures Precedes(edges, a, c)
  {
    var d :| Edge(edges, a, d) && Reaches(edges, d, b);
    ReachesThenEdge(edges, d, b, c);
  }

  /** A set of nodes that no edge leaves keeps every path that starts in it. */
  lemma {:induction false} ClosedSetKeepsPaths(edges: Edges, s: set<string>, p: seq<string>, i: nat)
    requires Path(edges, p) && p[0] in s && i < |p|
    requires forall a, b :: a in s && Edge(edges, a, b) ==> b in s
    ensures p[i] in s
  {
    if i == 0 {
    } else {
      ClosedSetKeepsPaths(edges, s, p, i - 1);
      assert Edge(edges, p[i - 1], p[i]);
    }
  }
}
