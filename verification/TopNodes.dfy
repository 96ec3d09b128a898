/** The worklist search for root ancestors, FindTopNodes of internal/graphjob/node.go. */
module TopNodes {
  import opened Walks

  datatype GraphEdge = GraphEdge(edgeId: string, source: string, sourceAnchor: string, target: string, targetAnchor: string)

  ghost function EdgesOf(edges: seq<GraphEdge>): Edges {
    iset e | e in edges :: (e.source, e.target)
  }

  predicate HasIncoming(edges: seq<GraphEdge>, n: string) {
    exists i :: 0 <= i < |edges| && edges[i].target == n
  }

  function Sources(edges: seq<GraphEdge>, n: string): seq<string> {
    if edges == [] then []
    else
      var e := edges[|edges| - 1];
      Sources(edges[..|edges| - 1], n) + if e.target == n then [e.source] else []
  }

  lemma OneMoreEdge(edges: seq<GraphEdge>, e: GraphEdge, s: string, n: string)
    ensures HasStep(EdgesOf(edges + [e]), s, n) <==> HasStep(EdgesOf(edges), s, n) || (e.source == s && e.target == n)
  {
    var all := edges + [e];
    if HasStep(EdgesOf(all), s, n) {
      var x :| x in all && x.source == s && x.target == n;
      assert x in edges || x == e;
    }
    if HasStep(EdgesOf(edges), s, n) {
      var x :| x in edges && x.source == s && x.target == n;
      assert x in all;
    }
    assert e in all;
  }

  lemma OneMoreIncoming(edges: seq<GraphEdge>, e: GraphEdge, n: string)
    ensures HasIncoming(edges + [e], n) <==> HasIncoming(edges, n) || e.target == n
  {
    var all := edges + [e];
    assert all[|edges|] == e;
    assert forall i :: 0 <= i < |edges| ==> all[i] == edges[i];
  }

  lemma {:induction false} SourcesMeaning(edges: seq<GraphEdge>, n: string)
    ensures forall s :: s in Sources(edges, n) <==> HasStep(EdgesOf(edges), s, n)
    ensures Sources(edges, n) != [] <==> HasIncoming(edges, n)
  {
    hide HasStep, EdgesOf, HasIncoming;
    if edges == [] {
      NoEdges(n);
    } else {
      var init, e := edges[..|edges| - 1], edges[|edges| - 1];
      SourcesMeaning(init, n);
      assert edges == init + [e];
      OneMoreIncoming(init, e, n);
      forall s ensures s in Sources(edges, n) <==> HasStep(EdgesOf(edges), s, n) {
        OneMoreEdge(init, e, s, n);
      }
    }
  }

  lemma NoEdges(n: string)
    ensures forall s :: !HasStep(EdgesOf([]), s, n)
    ensures !HasIncoming([], n)
  {
  }

  ghost predicate Indexed(incoming: map<string, seq<string>>, edges: seq<GraphEdge>) {
    && (forall n :: n in incoming <==> Sources(edges, n) != [])
    && (forall n :: n in incoming ==> incoming[n] == Sources(edges, n))
  }

  lemma IndexOneMore(incoming: map<string, seq<string>>, edges: seq<GraphEdge>, e: GraphEdge)
    requires Indexed(incoming, edges)
    ensures Indexed(incoming[e.target := (if e.target in incoming then incoming[e.target] else []) + [e.source]], edges + [e])
  {
    assert (edges + [e])[..|edges|] == edges;
    assert forall n :: Sources(edges + [e], n) == Sources(edges, n) + if e.target == n then [e.source] else [];
  }

  /** The predecessor index that the search starts by building. */
  method BuildIncoming(edges: seq<GraphEdge>) returns (incoming: map<string, seq<string>>)
    ensures forall n :: n in incoming <==> HasIncoming(edges, n)
    ensures forall n :: n in incoming ==> incoming[n] == Sources(edges, n)
  {
    hide Indexed, Sources, HasIncoming;
    incoming := map[];
    NothingIndexed();
    for i := 0 to |edges|
      invariant Indexed(incoming, edges[..i])
    {
      var e := edges[i];
      IndexOneMore(incoming, edges[..i], e);
      assert edges[..i + 1] == edges[..i] + [e];
      var before := if e.target in incoming then incoming[e.target] else [];
      incoming := incoming[e.target := before + [e.source]];
    }
    assert edges[..|edges|] == edges;
    IndexMeaning(incoming, edges);
  }

  lemma NothingIndexed()
    ensures Indexed(map[], [][..0])
  {
  }

  lemma IndexMeaning(incoming: map<string, seq<string>>, edges: seq<GraphEdge>)
    requires Indexed(incoming, edges)
    ensures forall n :: n in incoming <==> HasIncoming(edges, n)
    ensures forall n :: n in incoming ==> incoming[n] == Sources(edges, n)
  {
    forall n ensures Sources(edges, n) != [] <==> HasIncoming(edges, n) {
      SourcesMeaning(edges, n);
    }
  }

  /** Every node there is. */
  function NodesOf(edges: seq<GraphEdge>, nodeId: string): set<string> {
    {nodeId} + (set e | e in edges :: e.source)
  }

  lemma SourcesAreNodes(edges: seq<GraphEdge>, nodeId: string, n: string, s: string)
    requires s in Sources(edges, n)
    ensures s in NodesOf(edges, nodeId)
  {
    SourcesMeaning(edges, n);
    assert HasStep(EdgesOf(edges), s, n);
  }

  /** The search has found what the stack does not still owe it. */
  ghost predicate SearchOk(edges: seq<GraphEdge>, nodeId: string, visited: set<string>, stack: seq<string>,
                           result: set<string>) {
    && (nodeId in visited || nodeId in stack)
    && visited <= NodesOf(edges, nodeId)
    && (forall n :: n in visited || n in stack ==> Reaches(EdgesOf(edges), n, nodeId))
    && (forall s, n :: n in visited && HasStep(EdgesOf(edges), s, n) ==> s in visited || s in stack)
    && (forall n :: n in result <==> n in visited && !HasIncoming(edges, n))
    && (forall i :: 0 <= i < |stack| ==> stack[i] in NodesOf(edges, nodeId))
  }

  /** Popping a node that was seen before owes nothing. */
  lemma PopSeen(edges: seq<GraphEdge>, nodeId: string, visited: set<string>, stack: seq<string>, result: set<string>)
    requires SearchOk(edges, nodeId, visited, stack, result) && stack != [] && stack[|stack| - 1] in visited
    ensures SearchOk(edges, nodeId, visited, stack[..|stack| - 1], result)
  {
    hide NodesOf, EdgesOf, Reaches, HasIncoming;
    var rest, cur := stack[..|stack| - 1], stack[|stack| - 1];
    assert forall n :: n in stack <==> n in rest || n == cur by { assert stack == rest + [cur]; }
  }

  lemma PopNew(edges: seq<GraphEdge>, nodeId: string, visited: set<string>, stack: seq<string>, result: set<string>)
    requires SearchOk(edges, nodeId, visited, stack, result) && stack != []
    ensures var cur := stack[|stack| - 1];
            SearchOk(edges, nodeId, visited + {cur}, stack[..|stack| - 1] + Sources(edges, cur),
                     if HasIncoming(edges, cur) then result else result + {cur})
  {
    hide NodesOf, EdgesOf, Reaches, HasIncoming, Sources;
    var rest, cur := stack[..|stack| - 1], stack[|stack| - 1];
    assert forall n :: n in stack <==> n in rest || n == cur by { assert stack == rest + [cur]; }
    SourcesMeaning(edges, cur);
    forall s | s in Sources(edges, cur) ensures Reaches(EdgesOf(edges), s, nodeId) && s in NodesOf(edges, nodeId) {
      StepThenReach(EdgesOf(edges), s, cur, nodeId);
      SourcesAreNodes(edges, nodeId, cur, s);
    }
  }

  lemma SearchDone(edges: seq<GraphEdge>, nodeId: string, visited: set<string>, result: set<string>)
    requires SearchOk(edges, nodeId, visited, [], result)
    ensures forall n :: n in result <==> Reaches(EdgesOf(edges), n, nodeId) && !HasIncoming(edges, n)
  {
    hide NodesOf, EdgesOf, HasIncoming;
    forall n | Reaches(EdgesOf(edges), n, nodeId) ensures n in visited {
      var p :| Walk(EdgesOf(edges), p) && p[0] == n && p[|p| - 1] == nodeId;
      ClosedHoldsAncestors(EdgesOf(edges), visited, p);
    }
  }

  /**
   FindTopNodes: exactly the nodes that reach `nodeId` (itself included) and have no incoming edge. It ends on
   every edge list, cyclic ones too: each round visits a new node or shortens the stack.
   */
  method FindTopNodes(edges: seq<GraphEdge>, nodeId: string) returns (result: set<string>)
    ensures forall n :: n in result <==> Reaches(EdgesOf(edges), n, nodeId) && !HasIncoming(edges, n)
  {
    hide Sources, EdgesOf, Reaches, HasIncoming, NodesOf, SearchOk;
    var incoming := BuildIncoming(edges);
    result := {};
    var visited, stack := {}, [nodeId];
    StartOfSearch(edges, nodeId);
    while stack != []
      invariant SearchOk(edges, nodeId, visited, stack, result)
      decreases |NodesOf(edges, nodeId) - visited|, |stack|
    {
      var cur := stack[|stack| - 1];
      if cur in visited {
        PopSeen(edges, nodeId, visited, stack, result);
        stack := stack[..|stack| - 1];
        continue;
      }
      PopNew(edges, nodeId, visited, stack, result);
      FewerUnvisited(edges, nodeId, visited, stack, result);
      visited := visited + {cur};
      stack := stack[..|stack| - 1];
      if cur !in incoming {
        SourcesMeaning(edges, cur);
        assert stack + Sources(edges, cur) == stack;
        result := result + {cur};
        continue;
      }
      stack := stack + incoming[cur];
    }
    SearchDone(edges, nodeId, visited, result);
  }

  lemma StartOfSearch(edges: seq<GraphEdge>, nodeId: string)
    ensures SearchOk(edges, nodeId, {}, [nodeId], {})
  {
    ReachesSelf(EdgesOf(edges), nodeId);
  }

  lemma FewerUnvisited(edges: seq<GraphEdge>, nodeId: string, visited: set<string>, stack: seq<string>,
                       result: set<string>)
    requires SearchOk(edges, nodeId, visited, stack, result) && stack != [] && stack[|stack| - 1] !in visited
    ensures |NodesOf(edges, nodeId) - (visited + {stack[|stack| - 1]})| < |NodesOf(edges, nodeId) - visited|
  {
    hide NodesOf, EdgesOf, Reaches, HasIncoming;
    var all, cur := NodesOf(edges, nodeId), stack[|stack| - 1];
    assert all - (visited + {cur}) == (all - visited) - {cur};
    assert cur in all - visited;
  }
}
