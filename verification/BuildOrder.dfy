/** The build order of the solution printer: a depth-first walk over the dependencies. */
module BuildOrder {
  import opened Wrappers
  import opened Graph

  /** No project twice, and every project after all of its dependencies. */
  ghost predicate Ordered(built: seq<string>, deps: Edges) {
    && (forall i, j :: 0 <= i < j < |built| ==> built[i] != built[j])
    && (forall i :: 0 <= i < |built| ==> built[i] in deps && forall d :: d in deps[built[i]] ==> d in built[..i])
  }

  lemma AppendOrdered(built: seq<string>, deps: Edges, project: string)
    requires Ordered(built, deps) && project in deps && project !in built
    requires forall d :: d in deps[project] ==> d in built
    ensures Ordered(built + [project], deps)
  {
    var all := built + [project];
    forall i | 0 <= i < |all| ensures all[i] in deps && forall d :: d in deps[all[i]] ==> d in all[..i] {
      assert all[..i] == built[..i];
    }
  }

  /** A project without an entry that `from` needs, directly or not. */
  ghost predicate Missing(deps: Edges, from: string, key: string) {
    key !in deps && Reaches(deps, from, key)
  }

  class SolutionPrinter {
    var built: seq<string>

    /**
     Builds what `project` needs, then `project`; or fails with the key of a project that has no
     entry. `waiting` holds the projects whose build is under way: they all need this one, so on an
     acyclic map the recursion ends.
     */
    method BuildProject(project: string, deps: Edges, ghost waiting: set<string>) returns (keyError: Option<string>)
      requires Acyclic(deps) && project !in built
      requires waiting <= deps.Keys && forall a :: a in waiting ==> Precedes(deps, a, project)
      requires Ordered(built, deps)
      modifies this
      ensures Ordered(built, deps) && old(built) <= built
      ensures keyError.Some? ==> Missing(deps, project, keyError.value)
      ensures keyError.None? ==> built != [] && built[|built| - 1] == project
      ensures forall p :: p in built && p !in old(built) ==> Reaches(deps, project, p)
      decreases deps.Keys - waiting
    {
      ReachesSelf(deps, project);
      if project !in deps {
        return Some(project);
      }
      assert project !in waiting;
      var needed := deps[project];
      for i := 0 to |needed|
        invariant Ordered(built, deps) && old(built) <= built && project !in built
        invariant forall j :: 0 <= j < i ==> needed[j] in built
        invariant forall p :: p in built && p !in old(built) ==> Reaches(deps, project, p)
      {
        var dep := needed[i];
        if dep !in built {
          ghost var before := built;
          assert Edge(deps, project, dep);
          forall a | a in waiting + {project} ensures Precedes(deps, a, dep) {
            ReachesSelf(deps, dep);
            if a in waiting { PrecedesThenEdge(deps, a, project, dep); }
          }
          keyError := BuildProject(dep, deps, waiting + {project});
          forall p | Reaches(deps, dep, p) ensures Reaches(deps, project, p) && p != project {
            EdgeThenReaches(deps, project, dep, p);
          }
          if keyError.Some? { return; }
        }
      }
      AppendOrdered(built, deps, project);
      built := built + [project];
      keyError := None;
    }

    /**
     `keys` are the keys of the map, sorted. On an acyclic map the walk ends; it fails exactly when
     some dependency has no entry, and otherwise lists every project once, after its dependencies.
     */
    method PrintBuildOrder(deps: Edges, keys: seq<string>) returns (keyError: Option<string>)
      requires Acyclic(deps) && forall k :: k in keys <==> k in deps
      modifies this
      ensures keyError.None? <==> Closed(deps)
      ensures keyError.None? ==> Ordered(built, deps) && forall p :: p in built <==> p in deps
    {
      built := [];
      for i := 0 to |keys|
        invariant Ordered(built, deps)
        invariant forall j :: 0 <= j < i ==> keys[j] in built
      {
        if keys[i] !in built {
          keyError := BuildProject(keys[i], deps, {});
          if keyError.Some? {
            MissingMeansOpen(deps, keys[i], keyError.value);
            return;
          }
        }
      }
      keyError := None;
      CompleteMeansClosed(built, deps);
    }
  }

  lemma MissingMeansOpen(deps: Edges, from: string, key: string)
    requires from in deps && Missing(deps, from, key)
    ensures !Closed(deps)
  {
    var p :| PathFrom(deps, p, from, key);
    if Closed(deps) {
      ClosedSetKeepsPaths(deps, deps.Keys, p, |p| - 1);
    }
  }

  lemma CompleteMeansClosed(built: seq<string>, deps: Edges)
    requires Ordered(built, deps) && forall p :: p in deps ==> p in built
    ensures Closed(deps)
  {
    forall a, b | Edge(deps, a, b) ensures b in deps {
      var i :| 0 <= i < |built| && built[i] == a;
      assert b in built[..i];
    }
  }

  lemma {:induction false} PathsGoBack(built: seq<string>, deps: Edges, p: seq<string>, i: nat, at: nat)
    requires Ordered(built, deps) && Path(deps, p) && i < |p| && at < |built| && built[at] == p[0]
    ensures p[i] in built[..at + 1] && (i > 0 ==> p[i] in built[..at])
  {
    if i == 0 {
    } else {
      PathsGoBack(built, deps, p, i - 1, at);
      var k :| 0 <= k < at + 1 && built[k] == p[i - 1];
      assert Edge(deps, p[i - 1], p[i]);
      assert p[i] in built[..k];
      assert built[..k] <= built[..at];
    }
  }

  /** The condition is needed: a map whose projects can all be put in order has no cycle. */
  lemma OrderMeansAcyclic(built: seq<string>, deps: Edges)
    requires Ordered(built, deps) && forall p :: p in deps ==> p in built
    ensures Acyclic(deps)
  {
    forall a | Precedes(deps, a, a) ensures false {
      var c :| Edge(deps, a, c) && Reaches(deps, c, a);
      var p :| PathFrom(deps, p, c, a);
      NoCycle(built, deps, a, [a] + p);
    }
  }

  lemma NoCycle(built: seq<string>, deps: Edges, a: string, p: seq<string>)
    requires Ordered(built, deps) && a in built && Path(deps, p) && |p| > 1
    requires p[0] == a
    ensures p[|p| - 1] != a
  {
    var at :| 0 <= at < |built| && built[at] == a;
    PathsGoBack(built, deps, p, |p| - 1, at);
  }
}
