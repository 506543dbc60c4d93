/** The graph search `reaches` of components/WorkflowDefinitionEditor.tsx:90 and its use in `contextSources`. */
module Reaches {

  datatype Edge = Edge(source: string, target: string)

  predicate HasEdge(edges: seq<Edge>, a: string, b: string) {
    Edge(a, b) in edges
  }

  /** A directed path, as the sequence of its nodes. */
  ghost predicate IsPath(edges: seq<Edge>, path: seq<string>, a: string, b: string) {
    && path != [] && path[0] == a && path[|path| - 1] == b
    && forall i :: 0 <= i < |path| - 1 ==> HasEdge(edges, path[i], path[i + 1])
  }

  ghost predicate Reachable(edges: seq<Edge>, a: string, b: string) {
    exists path :: IsPath(edges, path, a, b)
  }

  ghost predicate Closed(edges: seq<Edge>, seen: set<string>) {
    forall e :: e in edges && e.source in seen ==> e.target in seen
  }

  /** A closed set that holds the source and not the target is why there is no path. */
  lemma {:induction false} ClosedExcludes(edges: seq<Edge>, seen: set<string>, path: seq<string>, a: string, b: string)
    requires Closed(edges, seen) && a in seen && IsPath(edges, path, a, b)
    ensures b in seen
    decreases |path|
  {
    if |path| > 1 {
      assert HasEdge(edges, path[0], path[1]);
      forall i | 0 <= i < |path[1..]| - 1 ensures HasEdge(edges, path[1..][i], path[1..][i + 1]) {
        assert HasEdge(edges, path[i + 1], path[i + 1 + 1]);
      }
      ClosedExcludes(edges, seen, path[1..], path[1], b);
    }
  }

  lemma PathCons(edges: seq<Edge>, a: string, b: string, c: string)
    requires HasEdge(edges, a, b) && Reachable(edges, b, c)
    ensures Reachable(edges, a, c)
  {
    var path :| IsPath(edges, path, b, c);
    var longer := [a] + path;
    forall i | 0 <= i < |longer| - 1 ensures HasEdge(edges, longer[i], longer[i + 1]) {
      if i > 0 { assert HasEdge(edges, path[i - 1], path[i - 1 + 1]); }
    }
    assert IsPath(edges, longer, a, c);
  }

  function Endpoints(edges: seq<Edge>): set<string> {
    (set e | e in edges :: e.source) + (set e | e in edges :: e.target)
  }

  class Search {
    const edges: seq<Edge>
    const target: string
    var seen: set<string>

    constructor (edges: seq<Edge>, target: string)
      ensures this.edges == edges && this.target == target && seen == {}
    {
      this.edges, this.target, seen := edges, target, {};
    }

    /** The nodes that `seen` gained over `before` have all their edges inside `seen`. */
    ghost predicate NewOnesClosed(before: set<string>)
      reads this
    {
      forall e :: e in edges && e.source in seen - before ==> e.target in seen
    }

    /** Depth first, with one visited set for the whole search. On failure every node visited on the way is
        finished, except those the caller itself is still busy with. */
    method Visit(id: string) returns (found: bool)
      requires target !in seen
      modifies this
      ensures found ==> Reachable(edges, id, target)
      ensures !found ==> old(seen) <= seen && id in seen && target !in seen && NewOnesClosed(old(seen))
      decreases Endpoints(edges) + {id} - seen, 1
    {
      if id == target {
        assert IsPath(edges, [id], id, target);
        return true;
      }
      if id in seen { return false; }
      seen := seen + {id};
      found := VisitTargets(id, old(seen));
    }

    /** The `some` over the edges that leave id. */
    method VisitTargets(id: string, ghost before: set<string>) returns (found: bool)
      requires target !in seen && id in seen && seen == before + {id} && id !in before
      modifies this
      ensures found ==> Reachable(edges, id, target)
      ensures !found ==> before <= seen && id in seen && target !in seen && NewOnesClosed(before)
      decreases Endpoints(edges) + {id} - before, 0
    {
      var n := 0;
      while n < |edges|
        invariant n <= |edges|
        invariant before + {id} <= seen && target !in seen
        invariant forall i :: 0 <= i < n && edges[i].source == id ==> edges[i].target in seen
        invariant forall e :: e in edges && e.source in seen - (before + {id}) ==> e.target in seen
      {
        var e := edges[n];
        if e.source == id {
          assert e.source in Endpoints(edges) && e.target in Endpoints(edges);
          ghost var entry := seen;
          found := Visit(e.target);
          if found {
            assert HasEdge(edges, id, e.target);
            PathCons(edges, id, e.target, target);
            return true;
          }
        }
        n := n + 1;
      }
      found := false;
    }
  }

  /** True exactly when a path of zero or more edges leads from source to target, in any graph, cyclic or not. */
  method ReachesTarget(edges: seq<Edge>, source: string, target: string) returns (r: bool)
    ensures r <==> Reachable(edges, source, target)
  {
    var search := new Search(edges, target);
    r := search.Visit(source);
    if !r {
      assert Closed(edges, search.seen);
      forall path | IsPath(edges, path, source, target) ensures false {
        ClosedExcludes(edges, search.seen, path, source, target);
      }
    }
  }

  datatype Node = Node(id: string, agent: bool, publishesOutput: bool)

  /** The nodes whose output the consumer may include (components/WorkflowDefinitionEditor.tsx:91), before the
      list is sorted for display: publishing agents upstream of it, however far, and never itself. */
  method ContextSources(nodes: seq<Node>, edges: seq<Edge>, consumer: string) returns (r: seq<Node>)
    ensures forall n :: n in r <==>
      n in nodes && n.agent && n.id != consumer && n.publishesOutput && Reachable(edges, n.id, consumer)
  {
    r := [];
    for i := 0 to |nodes|
      invariant forall n :: n in r <==>
        n in nodes[..i] && n.agent && n.id != consumer && n.publishesOutput && Reachable(edges, n.id, consumer)
    {
      var candidate := nodes[i];
      var upstream := ReachesTarget(edges, candidate.id, consumer);
      if candidate.agent && candidate.id != consumer && candidate.publishesOutput && upstream {
        r := r + [candidate];
      }
    }
    assert nodes[..|nodes|] == nodes;
  }
}
