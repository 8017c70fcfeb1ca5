/** The edge filter of the graph printer: everything reachable from the given targets. */
module Reachability {
  import opened Graph

  datatype Result = Loaded(edges: Edges) | KeyError(key: string)

  ghost predicate FromTargets(edges: Edges, targets: seq<string>, n: string) {
    exists t :: t in targets && Reaches(edges, t, n)
  }

  ghost function Reachable(edges: Edges, targets: seq<string>): iset<string> {
    iset n | FromTargets(edges, targets, n)
  }

  function Elements(s: seq<string>): set<string> {
    set x | x in s
  }

  /** Visited nodes are in `all` and keep their edges; what they point to is visited or still to visit. */
  ghost predicate Progress(edges: Edges, all: iset<string>, visited: Edges, toVisit: set<string>) {
    && (forall n :: n in visited ==> n in edges && visited[n] == edges[n] && n in all)
    && (forall n :: n in toVisit ==> n in all)
    && (forall n, d :: n in visited && Edge(edges, n, d) ==> d in visited || d in toVisit)
  }

  lemma Finish(edges: Edges, targets: seq<string>, visited: Edges)
    requires Progress(edges, Reachable(edges, targets), visited, {}) && Elements(targets) <= visited.Keys
    ensures forall n :: n in visited <==> FromTargets(edges, targets, n)
  {
    forall n | FromTargets(edges, targets, n) ensures n in visited { Done(edges, targets, visited, n); }
    forall n | n in visited ensures FromTargets(edges, targets, n) { assert n in Reachable(edges, targets); }
  }

  lemma ReachableIsClosed(edges: Edges, targets: seq<string>)
    ensures forall t :: t in targets ==> t in Reachable(edges, targets)
    ensures forall n, d :: n in Reachable(edges, targets) && Edge(edges, n, d) ==> d in Reachable(edges, targets)
  {
    forall t | t in targets ensures FromTargets(edges, targets, t) { ReachesSelf(edges, t); }
    forall n, d | FromTargets(edges, targets, n) && Edge(edges, n, d) ensures FromTargets(edges, targets, d) {
      var t :| t in targets && Reaches(edges, t, n);
      ReachesThenEdge(edges, t, n, d);
    }
  }

  lemma Visit(edges: Edges, all: iset<string>, visited: Edges, rest: set<string>, src: string, successors: set<string>)
    requires Progress(edges, all, visited, rest + {src}) && src in edges && successors == Elements(edges[src])
    requires forall n, d :: n in all && Edge(edges, n, d) ==> d in all
    ensures Progress(edges, all, visited[src := edges[src]], rest + successors)
  {
    assert src in rest + {src};
    forall d | d in successors ensures d in all { assert Edge(edges, src, d); }
    forall n | n in rest ensures n in all { assert n in rest + {src}; }
  }

  /** Nothing left to visit and all targets visited: everything reachable is visited. */
  lemma Done(edges: Edges, targets: seq<string>, visited: Edges, n: string)
    requires FromTargets(edges, targets, n)
    requires forall t :: t in targets ==> t in visited
    requires forall n, d :: n in visited && Edge(edges, n, d) ==> d in visited
    ensures n in visited
  {
    var t :| t in targets && Reaches(edges, t, n);
    var p :| PathFrom(edges, p, t, n);
    ClosedSetKeepsPaths(edges, visited.Keys, p, |p| - 1);
  }

  /** The walk itself; `all` is a set that holds the targets and that no edge leaves. */
  method Walk(edges: Edges, targets: seq<string>, ghost all: iset<string>) returns (r: Result)
    requires forall t :: t in Elements(targets) ==> t in all
    requires forall n, d :: n in all && Edge(edges, n, d) ==> d in all
    ensures r.Loaded? ==> Progress(edges, all, r.edges, {}) && Elements(targets) <= r.edges.Keys
    ensures r.KeyError? ==> r.key in all && r.key !in edges
  {
    var targetEdges: Edges := map[];
    var toVisit := targets;
    while toVisit != []
      invariant Progress(edges, all, targetEdges, Elements(toVisit))
      invariant Elements(targets) <= targetEdges.Keys + Elements(toVisit)
      decreases edges.Keys - targetEdges.Keys, |toVisit|
    {
      var src, rest := toVisit[|toVisit| - 1], toVisit[..|toVisit| - 1];
      assert toVisit == rest + [src] && Elements(toVisit) == Elements(rest) + {src};
      toVisit := rest;
      if src in targetEdges {
        continue;
      }
      if src !in edges {
        return KeyError(src);
      }
      Visit(edges, all, targetEdges, Elements(rest), src, Elements(edges[src]));
      targetEdges := targetEdges[src := edges[src]];
      toVisit := toVisit + edges[src];
      assert Elements(toVisit) == Elements(rest) + Elements(edges[src]);
    }
    return Loaded(targetEdges);
  }

  /**
   Ends on every graph and every target list, cycles and repeated targets included. The result is
   the edge map restricted to what the targets reach; looking up a node without an entry fails,
   which happens exactly when such a node is reachable.
   */
  method LoadEdges(edges: Edges, targets: seq<string>) returns (r: Result)
    ensures r.Loaded? ==> forall n :: n in r.edges <==> FromTargets(edges, targets, n)
    ensures r.Loaded? ==> forall n :: n in r.edges ==> n in edges && r.edges[n] == edges[n]
    ensures r.KeyError? ==> FromTargets(edges, targets, r.key) && r.key !in edges
  {
    ReachableIsClosed(edges, targets);
    r := Walk(edges, targets, Reachable(edges, targets));
    if r.Loaded? {
      Finish(edges, targets, r.edges);
    } else {
      assert r.key in Reachable(edges, targets);
    }
  }
}
