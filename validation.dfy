/** Structural validation of a workflow (`validateWorkflow`) and its
    depth-first cycle search (`hasCycle`). */
module Validation {
  import opened Types
  import opened Graph

  const MissingStartMessage := "Workflow must have a Start step."
  const MultipleStartsMessage := "Workflow can only have one Start step."
  const MissingEndMessage := "Workflow must have at least one End step."
  const InvalidStartMessage := "Start step cannot have incoming connections."
  const DisconnectedStartMessage := "Start step must connect to at least one other step."
  const InvalidEndMessage := "End step cannot have outgoing connections."
  const CycleMessage := "Workflow contains a loop. HR workflows should not cycle back."

  function UnconnectedMessage(stepLabel: string): string
  {
    "The \"" + stepLabel + "\" step is not connected to the workflow."
  }

  function UnconnectedError(n: WorkflowNode): ValidationError
  {
    ValidationError(UnconnectedNode, UnconnectedMessage(n.nodeLabel), Some(n.id))
  }

  const CycleError := ValidationError(CycleDetected, CycleMessage, None)

  // ---------------------------------------------------------------------
  // The specification: the error list, group by group, in emission order.
  // ---------------------------------------------------------------------

  /** The start-count and end-count errors. */
  function CountErrors(startCount: nat, endCount: nat): seq<ValidationError>
  {
    ErrorIf(startCount == 0, MissingStart, MissingStartMessage)
    + ErrorIf(startCount > 1, MultipleStarts, MultipleStartsMessage)
    + ErrorIf(endCount == 0, MissingEnd, MissingEndMessage)
  }

  /** One workflow-level error of kind `k` when `cond` holds, none otherwise. */
  function ErrorIf(cond: bool, k: ErrorKind, message: string): seq<ValidationError>
  {
    if cond then [ValidationError(k, message, None)] else []
  }

  /** The errors one start node contributes: an incoming edge, then no outgoing edge. */
  function StartNodeErrors(edges: seq<WorkflowEdge>, s: WorkflowNode): seq<ValidationError>
  {
    (if InDegree(edges, s.id) > 0
     then [ValidationError(InvalidStartConnection, InvalidStartMessage, Some(s.id))] else [])
    + (if OutDegree(edges, s.id) == 0
       then [ValidationError(DisconnectedStart, DisconnectedStartMessage, Some(s.id))] else [])
  }

  function StartErrors(edges: seq<WorkflowEdge>, starts: seq<WorkflowNode>): (r: seq<ValidationError>)
    ensures forall e :: e in r ==> e.kind == InvalidStartConnection || e.kind == DisconnectedStart
  {
    if starts == [] then []
    else StartErrors(edges, starts[..|starts| - 1]) + StartNodeErrors(edges, starts[|starts| - 1])
  }

  function EndNodeErrors(edges: seq<WorkflowEdge>, n: WorkflowNode): seq<ValidationError>
  {
    if OutDegree(edges, n.id) > 0
    then [ValidationError(InvalidEndConnection, InvalidEndMessage, Some(n.id))] else []
  }

  /** One error per end node that some edge leaves. */
  function EndErrors(edges: seq<WorkflowEdge>, ends: seq<WorkflowNode>): (r: seq<ValidationError>)
    ensures forall e :: e in r ==> e.kind == InvalidEndConnection
    ensures r == [] <==> forall n :: n in ends ==> OutDegree(edges, n.id) == 0
  {
    if ends == [] then []
    else
      var init := ends[..|ends| - 1];
      assert ends == init + [ends[|ends| - 1]];
      EndErrors(edges, init) + EndNodeErrors(edges, ends[|ends| - 1])
  }

  predicate IsUnconnected(edges: seq<WorkflowEdge>, n: WorkflowNode)
  {
    n.nodeType != Start && InDegree(edges, n.id) == 0
  }

  function UnconnectedNodeErrors(edges: seq<WorkflowEdge>, n: WorkflowNode): seq<ValidationError>
  {
    if IsUnconnected(edges, n) then [UnconnectedError(n)] else []
  }

  /** One error per non-start node that no edge enters, in node-list order. */
  function UnconnectedErrors(edges: seq<WorkflowEdge>, nodes: seq<WorkflowNode>): (r: seq<ValidationError>)
    ensures |r| <= |nodes|
    ensures forall e :: e in r ==> exists n :: n in nodes && IsUnconnected(edges, n) && e == UnconnectedError(n)
    ensures forall n :: n in nodes && IsUnconnected(edges, n) ==> UnconnectedError(n) in r
  {
    if nodes == [] then []
    else
      var init := nodes[..|nodes| - 1];
      assert nodes == init + [nodes[|nodes| - 1]];
      UnconnectedErrors(edges, init) + UnconnectedNodeErrors(edges, nodes[|nodes| - 1])
  }

  /** What `validateWorkflow` returns for `wf`. */
  ghost function Validation(wf: Workflow): seq<ValidationError>
  {
    var starts := NodesOfType(wf.nodes, Start);
    var ends := NodesOfType(wf.nodes, End);
    CountErrors(|starts|, |ends|)
    + StartErrors(wf.edges, starts)
    + EndErrors(wf.edges, ends)
    + UnconnectedErrors(wf.edges, wf.nodes)
    + (if HasReachableCycle(wf.edges, NodeIds(wf.nodes)) then [CycleError] else [])
  }

  // ---------------------------------------------------------------------
  // hasCycle: three-colour depth-first search.
  // ---------------------------------------------------------------------

  /** Builds `adjList`: every listed id maps to [], then each edge's target is
      appended to its source's list. */
  method BuildAdjacency(wf: Workflow) returns (adj: map<Id, seq<Id>>)
    ensures forall u :: ListOr(adj, u) == Targets(wf.edges, u)
  {
    adj := map[];
    for i := 0 to |wf.nodes|
      invariant forall u :: u in adj ==> adj[u] == []
    {
      adj := adj[wf.nodes[i].id := []];
    }
    for i := 0 to |wf.edges|
      invariant forall u :: ListOr(adj, u) == Targets(wf.edges[..i], u)
    {
      var edge := wf.edges[i];
      assert wf.edges[..i + 1][..i] == wf.edges[..i];
      var list := ListOr(adj, edge.source);
      adj := adj[edge.source := list + [edge.target]];
    }
    assert wf.edges[..|wf.edges|] == wf.edges;
  }

  /** A walk along `adjList`. */
  ghost predicate IsAdjWalk(adj: map<Id, seq<Id>>, w: seq<Id>)
  {
    |w| >= 1 && forall i :: 0 <= i < |w| - 1 ==> w[i + 1] in ListOr(adj, w[i])
  }

  ghost predicate AdjCycleReachable(adj: map<Id, seq<Id>>, roots: set<Id>)
  {
    exists w :: IsAdjWalk(adj, w) && w[0] in roots && HasRepeat(w)
  }

  /** A cycle along `adjList` is a cycle along the edge list it was built from. */
  lemma AdjCycleIsEdgeCycle(adj: map<Id, seq<Id>>, edges: seq<WorkflowEdge>, roots: set<Id>)
    requires forall x :: ListOr(adj, x) == Targets(edges, x)
    ensures AdjCycleReachable(adj, roots) <==> HasReachableCycle(edges, roots)
  {
    if AdjCycleReachable(adj, roots) {
      var w :| IsAdjWalk(adj, w) && w[0] in roots && HasRepeat(w);
      assert IsWalk(edges, w);
    }
    if HasReachableCycle(edges, roots) {
      var w :| IsWalk(edges, w) && w[0] in roots && HasRepeat(w);
      assert IsAdjWalk(adj, w);
    }
  }

  /** The finished ("black") ids with their finishing ranks: every successor
      of a finished id is finished, and finished earlier. */
  ghost predicate RankedClosed(adj: map<Id, seq<Id>>, rank: map<Id, nat>)
  {
    forall v, w :: v in rank && w in ListOr(adj, v) ==> w in rank && rank[w] < rank[v]
  }

  /** Every neighbour is one of `all`. */
  ghost predicate AdjWithin(adj: map<Id, seq<Id>>, all: set<Id>)
  {
    forall x, y :: y in ListOr(adj, x) ==> y in all
  }

  /** The recursion stack holds exactly the ids of the current path. */
  ghost predicate StackIsPath(recStack: set<Id>, path: seq<Id>)
  {
    forall x :: x in recStack <==> x in path
  }

  /** The three colours: a visited id is either on the recursion path
      (grey, in `recStack`) or finished (black, in `rank`), never both. */
  ghost predicate Coloured(visited: set<Id>, recStack: set<Id>, rank: map<Id, nat>)
  {
    forall x :: (x in visited <==> x in recStack || x in rank) && !(x in recStack && x in rank)
  }

  ghost predicate StillFinished(rank: map<Id, nat>, rank': map<Id, nat>)
  {
    forall x :: x in rank ==> x in rank'
  }

  ghost predicate RanksBelow(rank: map<Id, nat>, bound: nat)
  {
    forall v :: v in rank ==> rank[v] < bound
  }

  /** An id already on the recursion path closes a cycle reachable from the root. */
  lemma BackEdgeIsCycle(adj: map<Id, seq<Id>>, roots: set<Id>, walk: seq<Id>, neighbor: Id)
    requires IsAdjWalk(adj, walk) && walk[0] in roots
    requires neighbor in walk && neighbor in ListOr(adj, walk[|walk| - 1])
    ensures AdjCycleReachable(adj, roots)
  {
    var j :| 0 <= j < |walk| && walk[j] == neighbor;
    var w := walk + [neighbor];
    assert w[j] == w[|w| - 1];
    assert IsAdjWalk(adj, w);
  }

  /** Finishing `u` once all its successors are finished keeps the ranks closed. */
  lemma FinishKeepsRanked(adj: map<Id, seq<Id>>, rank: map<Id, nat>, u: Id)
    requires RankedClosed(adj, rank) && RanksBelow(rank, |rank|) && u !in rank
    requires forall w :: w in ListOr(adj, u) ==> w in rank
    ensures RankedClosed(adj, rank[u := |rank|]) && RanksBelow(rank[u := |rank|], |rank[u := |rank|]|)
  {
    assert |rank[u := |rank|]| == |rank| + 1;
  }

  /** The inner `dfs`. The closure's `visited` and `recStack` sets are passed in
      and handed back. `path` is the recursion path (the ids in `recStack`),
      `rank` records the finished ids, and `all` bounds every id the search can meet. */
  method Dfs(adj: map<Id, seq<Id>>, ghost all: set<Id>, ghost roots: set<Id>,
             u: Id, visited: set<Id>, recStack: set<Id>, ghost path: seq<Id>, ghost rank: map<Id, nat>)
    returns (found: bool, visited': set<Id>, recStack': set<Id>, ghost rank': map<Id, nat>)
    requires AdjWithin(adj, all)
    requires u in all && visited <= all && u !in visited
    requires IsAdjWalk(adj, path + [u]) && (path + [u])[0] in roots
    requires StackIsPath(recStack, path)
    requires Coloured(visited, recStack, rank)
    requires RankedClosed(adj, rank) && RanksBelow(rank, |rank|)
    ensures found ==> AdjCycleReachable(adj, roots)
    ensures !found ==> recStack' == recStack && Coloured(visited', recStack', rank')
    ensures !found ==> u in rank' && StillFinished(rank, rank') && visited' <= all
    ensures !found ==> RankedClosed(adj, rank') && RanksBelow(rank', |rank'|)
    decreases all - visited, 1
  {
    var vis := visited + {u};
    var stack := recStack + {u};
    assert vis - {u} == visited;
    ghost var rk;
    found, vis, stack, rk := VisitNeighbors(adj, all, roots, u, vis, stack, path + [u], rank);
    if found {
      return true, vis, stack, rk;
    }
    stack := stack - {u};
    FinishKeepsRanked(adj, rk, u);
    rk := rk[u := |rk|];
    return false, vis, stack, rk;
  }

  /** Every id of `ids` has finished. */
  ghost predicate IdsFinished(ids: seq<Id>, rank: map<Id, nat>)
  {
    forall k :: 0 <= k < |ids| ==> ids[k] in rank
  }

  lemma IdsFinishedGrows(ids: seq<Id>, i: nat, before: map<Id, nat>, rank: map<Id, nat>)
    requires i < |ids| && IdsFinished(ids[..i], before)
    requires StillFinished(before, rank) && ids[i] in rank
    ensures IdsFinished(ids[..i + 1], rank)
  {
    var grown := ids[..i + 1];
    forall k | 0 <= k < |grown| ensures grown[k] in rank {
      if k < i {
        assert ids[..i][k] == grown[k];
      }
    }
  }

  /** The loop of `dfs(u)` over the neighbours of `u`: an unvisited
      neighbour is searched, a neighbour on the recursion path is a cycle. */
  method VisitNeighbors(adj: map<Id, seq<Id>>, ghost all: set<Id>, ghost roots: set<Id>,
                        u: Id, visited: set<Id>, recStack: set<Id>, ghost walk: seq<Id>, ghost rank: map<Id, nat>)
    returns (found: bool, visited': set<Id>, recStack': set<Id>, ghost rank': map<Id, nat>)
    requires AdjWithin(adj, all)
    requires u in all && u in visited && visited <= all
    requires IsAdjWalk(adj, walk) && walk[0] in roots && walk[|walk| - 1] == u
    requires StackIsPath(recStack, walk)
    requires Coloured(visited, recStack, rank)
    requires RankedClosed(adj, rank) && RanksBelow(rank, |rank|)
    ensures found ==> AdjCycleReachable(adj, roots)
    ensures !found ==> recStack' == recStack && Coloured(visited', recStack', rank')
    ensures !found ==> StillFinished(rank, rank') && visited <= visited' <= all
    ensures !found ==> RankedClosed(adj, rank') && RanksBelow(rank', |rank'|)
    ensures !found ==> forall w :: w in ListOr(adj, u) ==> w in rank'
    decreases all - (visited - {u}), 0
  {
    var vis := visited;
    var stack := recStack;
    ghost var rk := rank;
    var neighbors := ListOr(adj, u);
    for i := 0 to |neighbors|
      invariant Coloured(vis, stack, rk) && visited <= vis <= all
      invariant stack == recStack
      invariant StillFinished(rank, rk)
      invariant RankedClosed(adj, rk) && RanksBelow(rk, |rk|)
      invariant IdsFinished(neighbors[..i], rk)
    {
      var neighbor := neighbors[i];
      ghost var before := rk;
      if neighbor !in vis {
        var f;
        f, vis, stack, rk := Dfs(adj, all, roots, neighbor, vis, stack, walk, rk);
        if f {
          return true, vis, stack, rk;
        }
      } else if neighbor in stack {
        BackEdgeIsCycle(adj, roots, walk, neighbor);
        return true, vis, stack, rk;
      }
      IdsFinishedGrows(neighbors, i, before, rk);
    }
    assert neighbors[..|neighbors|] == neighbors;
    return false, vis, stack, rk;
  }

  /** Along a walk through finished ids the rank strictly decreases. */
  lemma {:induction false} RankDecreasesAlongWalk(adj: map<Id, seq<Id>>, rank: map<Id, nat>, w: seq<Id>, i: nat, j: nat)
    requires IsAdjWalk(adj, w) && RankedClosed(adj, rank)
    requires i < j < |w| && w[i] in rank
    ensures w[j] in rank && rank[w[j]] < rank[w[i]]
    decreases j
  {
    if j > i + 1 {
      RankDecreasesAlongWalk(adj, rank, w, i, j - 1);
    }
    assert w[j] in ListOr(adj, w[j - 1]);
  }

  /** Once every root is finished, no cycle can be reached from the roots. */
  lemma NoCycleWhenRanked(adj: map<Id, seq<Id>>, roots: set<Id>, rank: map<Id, nat>)
    requires RankedClosed(adj, rank) && forall r :: r in roots ==> r in rank
    ensures !AdjCycleReachable(adj, roots)
  {
    if AdjCycleReachable(adj, roots) {
      var w :| IsAdjWalk(adj, w) && w[0] in roots && HasRepeat(w);
      var i, j :| 0 <= i < j < |w| && w[i] == w[j];
      if i > 0 {
        RankDecreasesAlongWalk(adj, rank, w, 0, i);
      }
      RankDecreasesAlongWalk(adj, rank, w, i, j);
    }
  }

  /** Every node of `nodes` has finished. */
  ghost predicate AllFinished(nodes: seq<WorkflowNode>, rank: map<Id, nat>)
  {
    forall k :: 0 <= k < |nodes| ==> nodes[k].id in rank
  }

  lemma FinishedGrows(nodes: seq<WorkflowNode>, i: nat, before: map<Id, nat>, rank: map<Id, nat>)
    requires i < |nodes| && AllFinished(nodes[..i], before)
    requires StillFinished(before, rank) && nodes[i].id in rank
    ensures AllFinished(nodes[..i + 1], rank)
  {
    var grown := nodes[..i + 1];
    forall k | 0 <= k < |grown| ensures grown[k].id in rank {
      if k < i {
        assert nodes[..i][k] == grown[k];
      }
    }
  }

  /** `hasCycle`: a depth-first search from every listed id not yet visited. */
  method HasCycle(wf: Workflow) returns (r: bool)
    ensures r <==> HasReachableCycle(wf.edges, NodeIds(wf.nodes))
  {
    var adj := BuildAdjacency(wf);
    ghost var all := NodeIds(wf.nodes) + EdgeTargets(wf.edges);
    r := SearchEachNode(wf.nodes, adj, all);
    AdjCycleIsEdgeCycle(adj, wf.edges, NodeIds(wf.nodes));
  }

  /** The loop of `hasCycle`: a depth-first search from every node not yet visited. */
  method SearchEachNode(nodes: seq<WorkflowNode>, adj: map<Id, seq<Id>>, ghost all: set<Id>) returns (r: bool)
    requires AdjWithin(adj, all) && NodeIds(nodes) <= all
    ensures r <==> AdjCycleReachable(adj, NodeIds(nodes))
  {
    ghost var roots := NodeIds(nodes);
    var visited: set<Id> := {};
    var recStack: set<Id> := {};
    ghost var rank: map<Id, nat> := map[];
    for i := 0 to |nodes|
      invariant recStack == {} && Coloured(visited, recStack, rank) && visited <= all
      invariant RankedClosed(adj, rank) && RanksBelow(rank, |rank|)
      invariant AllFinished(nodes[..i], rank)
    {
      var id := nodes[i].id;
      ghost var before := rank;
      if id !in visited {
        var found;
        found, visited, recStack, rank := Dfs(adj, all, roots, id, visited, recStack, [], rank);
        if found {
          return true;
        }
      }
      FinishedGrows(nodes, i, before, rank);
    }
    AllRanked(nodes, rank);
    NoCycleWhenRanked(adj, roots, rank);
    return false;
  }

  lemma AllRanked(nodes: seq<WorkflowNode>, rank: map<Id, nat>)
    requires AllFinished(nodes[..|nodes|], rank)
    ensures forall r :: r in NodeIds(nodes) ==> r in rank
  {
    assert nodes[..|nodes|] == nodes;
    forall r | r in NodeIds(nodes) ensures r in rank {
      var k :| 0 <= k < |nodes| && nodes[k].id == r;
    }
  }

  // ---------------------------------------------------------------------
  // validateWorkflow
  // ---------------------------------------------------------------------

  /** The count stored under `k`, or 0. */
  function CountOr0(m: map<Id, nat>, k: Id): nat
  {
    if k in m then m[k] else 0
  }

  /** The start guard as written: the comparison with zero binds tighter
      than the logical or, so the guard is the stored count or false, which is
      truthy exactly when a non-zero count is stored for `id`. */
  predicate StartGuardAsWritten(incoming: map<Id, nat>, id: Id)
  {
    id in incoming && incoming[id] != 0
  }

  /** The edge-count maps hold, for every id, its number of edges (absent for 0). */
  ghost predicate CountsMatch(m: map<Id, nat>, edges: seq<WorkflowEdge>, incoming: bool)
  {
    forall v :: CountOr0(m, v) == (if incoming then InDegree(edges, v) else OutDegree(edges, v))
                && (v in m ==> m[v] >= 1)
  }

  /** The guard as written fires exactly when the start node has an incoming edge. */
  lemma StartGuardIsIncoming(incoming: map<Id, nat>, edges: seq<WorkflowEdge>, id: Id)
    requires CountsMatch(incoming, edges, true)
    ensures StartGuardAsWritten(incoming, id) <==> InDegree(edges, id) > 0
  {
    assert CountOr0(incoming, id) == InDegree(edges, id);
  }

  /** The checks on the number of start and end nodes. */
  method CheckCounts(startCount: nat, endCount: nat) returns (errors: seq<ValidationError>)
    ensures errors == CountErrors(startCount, endCount)
  {
    errors := [];
    if startCount == 0 {
      errors := errors + [ValidationError(MissingStart, MissingStartMessage, None)];
    }
    if startCount > 1 {
      errors := errors + [ValidationError(MultipleStarts, MultipleStartsMessage, None)];
    }
    if endCount == 0 {
      errors := errors + [ValidationError(MissingEnd, MissingEndMessage, None)];
    }
  }

  /** The edge-counting loop: `incomingEdges` and `outgoingEdges`. */
  method CountEdges(edges: seq<WorkflowEdge>) returns (incoming: map<Id, nat>, outgoing: map<Id, nat>)
    ensures CountsMatch(incoming, edges, true) && CountsMatch(outgoing, edges, false)
  {
    incoming := map[];
    outgoing := map[];
    for i := 0 to |edges|
      invariant CountsMatch(incoming, edges[..i], true)
      invariant CountsMatch(outgoing, edges[..i], false)
    {
      var edge := edges[i];
      assert edges[..i + 1][..i] == edges[..i];
      incoming := incoming[edge.target := CountOr0(incoming, edge.target) + 1];
      outgoing := outgoing[edge.source := CountOr0(outgoing, edge.source) + 1];
    }
    assert edges[..|edges|] == edges;
  }

  /** The loop over the start nodes. */
  method CheckStarts(edges: seq<WorkflowEdge>, incoming: map<Id, nat>, outgoing: map<Id, nat>,
                     startNodes: seq<WorkflowNode>) returns (errors: seq<ValidationError>)
    requires CountsMatch(incoming, edges, true) && CountsMatch(outgoing, edges, false)
    ensures errors == StartErrors(edges, startNodes)
  {
    errors := [];
    for i := 0 to |startNodes|
      invariant errors == StartErrors(edges, startNodes[..i])
    {
      var node := startNodes[i];
      assert startNodes[..i + 1][..i] == startNodes[..i];
      StartGuardIsIncoming(incoming, edges, node.id);
      assert CountOr0(outgoing, node.id) == OutDegree(edges, node.id);
      var nodeErrors := [];
      if StartGuardAsWritten(incoming, node.id) {
        nodeErrors := nodeErrors + [ValidationError(InvalidStartConnection, InvalidStartMessage, Some(node.id))];
      }
      if CountOr0(outgoing, node.id) == 0 {
        nodeErrors := nodeErrors + [ValidationError(DisconnectedStart, DisconnectedStartMessage, Some(node.id))];
      }
      assert nodeErrors == StartNodeErrors(edges, node);
      errors := errors + nodeErrors;
    }
    assert startNodes[..|startNodes|] == startNodes;
  }

  /** The loop over the end nodes. */
  method CheckEnds(edges: seq<WorkflowEdge>, outgoing: map<Id, nat>, endNodes: seq<WorkflowNode>)
    returns (errors: seq<ValidationError>)
    requires CountsMatch(outgoing, edges, false)
    ensures errors == EndErrors(edges, endNodes)
  {
    errors := [];
    for i := 0 to |endNodes|
      invariant errors == EndErrors(edges, endNodes[..i])
    {
      var node := endNodes[i];
      assert endNodes[..i + 1][..i] == endNodes[..i];
      assert CountOr0(outgoing, node.id) == OutDegree(edges, node.id);
      if CountOr0(outgoing, node.id) > 0 {
        errors := errors + [ValidationError(InvalidEndConnection, InvalidEndMessage, Some(node.id))];
      }
    }
    assert endNodes[..|endNodes|] == endNodes;
  }

  /** The loop over all nodes looking for unconnected ones. */
  method CheckUnconnected(edges: seq<WorkflowEdge>, incoming: map<Id, nat>, nodes: seq<WorkflowNode>)
    returns (errors: seq<ValidationError>)
    requires CountsMatch(incoming, edges, true)
    ensures errors == UnconnectedErrors(edges, nodes)
  {
    errors := [];
    for i := 0 to |nodes|
      invariant errors == UnconnectedErrors(edges, nodes[..i])
    {
      var node := nodes[i];
      assert nodes[..i + 1][..i] == nodes[..i];
      assert CountOr0(incoming, node.id) == InDegree(edges, node.id);
      if node.nodeType != Start && CountOr0(incoming, node.id) == 0 {
        errors := errors + [UnconnectedError(node)];
      }
    }
    assert nodes[..|nodes|] == nodes;
  }

  /** `validateWorkflow`: the count errors, then the start, end, unconnected
      and cycle checks, in that order. */
  method ValidateWorkflow(wf: Workflow) returns (errors: seq<ValidationError>)
    ensures errors == Validation(wf)
  {
    var startNodes := NodesOfType(wf.nodes, Start);
    var endNodes := NodesOfType(wf.nodes, End);
    errors := CheckCounts(|startNodes|, |endNodes|);
    var incoming, outgoing := CountEdges(wf.edges);
    var startErrors := CheckStarts(wf.edges, incoming, outgoing, startNodes);
    var endErrors := CheckEnds(wf.edges, outgoing, endNodes);
    var unconnected := CheckUnconnected(wf.edges, incoming, wf.nodes);
    errors := errors + startErrors + endErrors + unconnected;
    ghost var structural := errors;
    var cycle := HasCycle(wf);
    if cycle {
      errors := errors + [CycleError];
    } else {
      assert errors == structural + [];
    }
  }

  // ---------------------------------------------------------------------
  // What the error list says about the workflow.
  // ---------------------------------------------------------------------

  /** The number of errors of kind `k`. */
  function CountKind(errs: seq<ValidationError>, k: ErrorKind): nat
  {
    if errs == [] then 0
    else CountKind(errs[..|errs| - 1], k) + (if errs[|errs| - 1].kind == k then 1 else 0)
  }

  lemma {:induction false} CountKindAppend(a: seq<ValidationError>, b: seq<ValidationError>, k: ErrorKind)
    ensures CountKind(a + b, k) == CountKind(a, k) + CountKind(b, k)
    decreases |b|
  {
    if b != [] {
      var ab := a + b;
      assert ab[..|ab| - 1] == a + b[..|b| - 1];
      CountKindAppend(a, b[..|b| - 1], k);
    } else {
      assert a + b == a;
    }
  }

  lemma {:induction false} CountKindAbsent(errs: seq<ValidationError>, k: ErrorKind)
    requires forall e :: e in errs ==> e.kind != k
    ensures CountKind(errs, k) == 0
    decreases |errs|
  {
    if errs != [] {
      var init := errs[..|errs| - 1];
      assert forall e :: e in init ==> e in errs;
      CountKindAbsent(init, k);
    }
  }

  /** Some error of kind `k` names the node id `id`. */
  predicate Reports(errs: seq<ValidationError>, k: ErrorKind, id: Id)
  {
    exists e :: e in errs && e.kind == k && e.nodeId == Some(id)
  }

  lemma ReportsAppend(a: seq<ValidationError>, b: seq<ValidationError>, k: ErrorKind, id: Id)
    ensures Reports(a + b, k, id) <==> Reports(a, k, id) || Reports(b, k, id)
  {
    if Reports(a + b, k, id) {
      var e :| e in a + b && e.kind == k && e.nodeId == Some(id);
      assert e in a || e in b;
    }
    if Reports(a, k, id) {
      var e :| e in a && e.kind == k && e.nodeId == Some(id);
      assert e in a + b;
    }
    if Reports(b, k, id) {
      var e :| e in b && e.kind == k && e.nodeId == Some(id);
      assert e in a + b;
    }
  }

  /** The error list split into its five groups. */
  lemma ValidationGroups(wf: Workflow)
    returns (counts: seq<ValidationError>, se: seq<ValidationError>, ee: seq<ValidationError>,
             ue: seq<ValidationError>, cycle: seq<ValidationError>)
    ensures Validation(wf) == counts + se + ee + ue + cycle
    ensures counts == CountErrors(|NodesOfType(wf.nodes, Start)|, |NodesOfType(wf.nodes, End)|)
    ensures se == StartErrors(wf.edges, NodesOfType(wf.nodes, Start))
    ensures ee == EndErrors(wf.edges, NodesOfType(wf.nodes, End))
    ensures ue == UnconnectedErrors(wf.edges, wf.nodes)
    ensures cycle == if HasReachableCycle(wf.edges, NodeIds(wf.nodes)) then [CycleError] else []
  {
    counts := CountErrors(|NodesOfType(wf.nodes, Start)|, |NodesOfType(wf.nodes, End)|);
    se := StartErrors(wf.edges, NodesOfType(wf.nodes, Start));
    ee := EndErrors(wf.edges, NodesOfType(wf.nodes, End));
    ue := UnconnectedErrors(wf.edges, wf.nodes);
    cycle := if HasReachableCycle(wf.edges, NodeIds(wf.nodes)) then [CycleError] else [];
  }

  /** Counting a kind that the three node-level groups never produce. */
  lemma CountAcrossGroups(counts: seq<ValidationError>, se: seq<ValidationError>, ee: seq<ValidationError>,
                          ue: seq<ValidationError>, cycle: seq<ValidationError>, k: ErrorKind)
    requires forall e :: e in se ==> e.kind != k
    requires forall e :: e in ee ==> e.kind != k
    requires forall e :: e in ue ==> e.kind != k
    ensures CountKind(counts + se + ee + ue + cycle, k) == CountKind(counts, k) + CountKind(cycle, k)
  {
    CountKindAppend(counts + se + ee + ue, cycle, k);
    CountKindAppend(counts + se + ee, ue, k);
    CountKindAppend(counts + se, ee, k);
    CountKindAppend(counts, se, k);
    CountKindAbsent(se, k);
    CountKindAbsent(ee, k);
    CountKindAbsent(ue, k);
  }

  lemma CountErrorsKinds(startCount: nat, endCount: nat)
    ensures CountKind(CountErrors(startCount, endCount), MissingStart) == (if startCount == 0 then 1 else 0)
    ensures CountKind(CountErrors(startCount, endCount), MultipleStarts) == (if startCount > 1 then 1 else 0)
    ensures CountKind(CountErrors(startCount, endCount), MissingEnd) == (if endCount == 0 then 1 else 0)
    ensures CountKind(CountErrors(startCount, endCount), CycleDetected) == 0
  {
    CountErrorsKind(startCount, endCount, MissingStart);
    CountErrorsKind(startCount, endCount, MultipleStarts);
    CountErrorsKind(startCount, endCount, MissingEnd);
    CountErrorsKind(startCount, endCount, CycleDetected);
  }

  lemma CountErrorsKind(startCount: nat, endCount: nat, k: ErrorKind)
    ensures CountKind(CountErrors(startCount, endCount), k)
         == (if startCount == 0 && k == MissingStart then 1 else 0)
          + (if startCount > 1 && k == MultipleStarts then 1 else 0)
          + (if endCount == 0 && k == MissingEnd then 1 else 0)
  {
    var a := ErrorIf(startCount == 0, MissingStart, MissingStartMessage);
    var b := ErrorIf(startCount > 1, MultipleStarts, MultipleStartsMessage);
    var c := ErrorIf(endCount == 0, MissingEnd, MissingEndMessage);
    CountKindAppend(a + b, c, k);
    CountKindAppend(a, b, k);
    CountErrorIf(startCount == 0, MissingStart, MissingStartMessage, k);
    CountErrorIf(startCount > 1, MultipleStarts, MultipleStartsMessage, k);
    CountErrorIf(endCount == 0, MissingEnd, MissingEndMessage, k);
  }

  lemma CountErrorIf(cond: bool, kind: ErrorKind, message: string, k: ErrorKind)
    ensures CountKind(ErrorIf(cond, kind, message), k) == if cond && kind == k then 1 else 0
  {
    if cond {
      assert ErrorIf(cond, kind, message)[..0] == [];
    }
  }


  /** A workflow-level kind is counted in the count group and the cycle group only. */
  lemma WorkflowLevelKind(wf: Workflow, k: ErrorKind)
    requires k == MissingStart || k == MultipleStarts || k == MissingEnd || k == CycleDetected
    ensures CountKind(Validation(wf), k) ==
              CountKind(CountErrors(|NodesOfType(wf.nodes, Start)|, |NodesOfType(wf.nodes, End)|), k)
              + (if k == CycleDetected && HasReachableCycle(wf.edges, NodeIds(wf.nodes)) then 1 else 0)
  {
    var counts, se, ee, ue, cycle := ValidationGroups(wf);
    CountAcrossGroups(counts, se, ee, ue, cycle, k);
  }

  /** The start-count errors appear at most once each, exactly when there is
      no start node or more than one. */
  lemma StartCountErrors(wf: Workflow)
    ensures CountKind(Validation(wf), MissingStart) == (if |NodesOfType(wf.nodes, Start)| == 0 then 1 else 0)
    ensures CountKind(Validation(wf), MultipleStarts) == (if |NodesOfType(wf.nodes, Start)| > 1 then 1 else 0)
  {
    CountErrorsKinds(|NodesOfType(wf.nodes, Start)|, |NodesOfType(wf.nodes, End)|);
    WorkflowLevelKind(wf, MissingStart);
    WorkflowLevelKind(wf, MultipleStarts);
  }

  /** The missing-end error appears once exactly when there is no end node. */
  lemma MissingEndOnce(wf: Workflow)
    ensures CountKind(Validation(wf), MissingEnd) == (if |NodesOfType(wf.nodes, End)| == 0 then 1 else 0)
  {
    CountErrorsKinds(|NodesOfType(wf.nodes, Start)|, |NodesOfType(wf.nodes, End)|);
    WorkflowLevelKind(wf, MissingEnd);
  }

  /** The cycle error appears once exactly when a cycle is reachable from a listed node. */
  lemma CycleErrorOnce(wf: Workflow)
    ensures CountKind(Validation(wf), CycleDetected) ==
              (if HasReachableCycle(wf.edges, NodeIds(wf.nodes)) then 1 else 0)
  {
    CountErrorsKinds(|NodesOfType(wf.nodes, Start)|, |NodesOfType(wf.nodes, End)|);
    WorkflowLevelKind(wf, CycleDetected);
  }

  /** The start checks report, for an incoming edge, exactly the start nodes that have one. */
  lemma {:induction false} StartErrorsReportIncoming(edges: seq<WorkflowEdge>, starts: seq<WorkflowNode>, id: Id)
    ensures Reports(StartErrors(edges, starts), InvalidStartConnection, id) <==>
              (exists s :: s in starts && s.id == id) && InDegree(edges, id) > 0
    decreases |starts|
  {
    if starts != [] {
      var init := starts[..|starts| - 1];
      var last := starts[|starts| - 1];
      assert starts == init + [last];
      StartErrorsReportIncoming(edges, init, id);
      ReportsAppend(StartErrors(edges, init), StartNodeErrors(edges, last), InvalidStartConnection, id);
      if Reports(StartNodeErrors(edges, last), InvalidStartConnection, id) {
        assert last.id == id;
      }
      if last.id == id && InDegree(edges, id) > 0 {
        assert ValidationError(InvalidStartConnection, InvalidStartMessage, Some(id)) in StartNodeErrors(edges, last);
      }
    }
  }

  /** The start checks report, for no outgoing edge, exactly the start nodes that have none. */
  lemma {:induction false} StartErrorsReportOutgoing(edges: seq<WorkflowEdge>, starts: seq<WorkflowNode>, id: Id)
    ensures Reports(StartErrors(edges, starts), DisconnectedStart, id) <==>
              (exists s :: s in starts && s.id == id) && OutDegree(edges, id) == 0
    decreases |starts|
  {
    if starts != [] {
      var init := starts[..|starts| - 1];
      var last := starts[|starts| - 1];
      assert starts == init + [last];
      StartErrorsReportOutgoing(edges, init, id);
      ReportsAppend(StartErrors(edges, init), StartNodeErrors(edges, last), DisconnectedStart, id);
      if Reports(StartNodeErrors(edges, last), DisconnectedStart, id) {
        assert last.id == id;
      }
      if last.id == id && OutDegree(edges, id) == 0 {
        assert ValidationError(DisconnectedStart, DisconnectedStartMessage, Some(id)) in StartNodeErrors(edges, last);
      }
    }
  }

  /** The end checks report exactly the end nodes some edge leaves. */
  lemma {:induction false} EndErrorsReport(edges: seq<WorkflowEdge>, ends: seq<WorkflowNode>, id: Id)
    ensures Reports(EndErrors(edges, ends), InvalidEndConnection, id) <==>
              (exists n :: n in ends && n.id == id) && OutDegree(edges, id) > 0
    decreases |ends|
  {
    if ends != [] {
      var init := ends[..|ends| - 1];
      var last := ends[|ends| - 1];
      assert ends == init + [last];
      EndErrorsReport(edges, init, id);
      ReportsAppend(EndErrors(edges, init), EndNodeErrors(edges, last), InvalidEndConnection, id);
      if Reports(EndNodeErrors(edges, last), InvalidEndConnection, id) {
        assert last.id == id;
      }
      if last.id == id && OutDegree(edges, id) > 0 {
        assert ValidationError(InvalidEndConnection, InvalidEndMessage, Some(id)) in EndNodeErrors(edges, last);
      }
    }
  }

  /** The unconnected check reports exactly the non-start nodes no edge enters. */
  lemma UnconnectedReport(edges: seq<WorkflowEdge>, nodes: seq<WorkflowNode>, id: Id)
    ensures Reports(UnconnectedErrors(edges, nodes), UnconnectedNode, id) <==>
              exists n :: n in nodes && n.nodeType != Start && n.id == id && InDegree(edges, id) == 0
  {
    var ue := UnconnectedErrors(edges, nodes);
    if exists n :: n in nodes && n.nodeType != Start && n.id == id && InDegree(edges, id) == 0 {
      var n :| n in nodes && n.nodeType != Start && n.id == id && InDegree(edges, id) == 0;
      assert UnconnectedError(n) in ue;
    }
  }

  /** Kinds that only one group can produce are reported by that group alone. */
  lemma ReportsInGroup(counts: seq<ValidationError>, se: seq<ValidationError>, ee: seq<ValidationError>,
                       ue: seq<ValidationError>, cycle: seq<ValidationError>, id: Id)
    requires forall e :: e in counts ==> e.nodeId == None
    requires forall e :: e in cycle ==> e.nodeId == None
    requires forall e :: e in se ==> e.kind == InvalidStartConnection || e.kind == DisconnectedStart
    requires forall e :: e in ee ==> e.kind == InvalidEndConnection
    requires forall e :: e in ue ==> e.kind == UnconnectedNode
    ensures Reports(counts + se + ee + ue + cycle, InvalidStartConnection, id) <==> Reports(se, InvalidStartConnection, id)
    ensures Reports(counts + se + ee + ue + cycle, DisconnectedStart, id) <==> Reports(se, DisconnectedStart, id)
    ensures Reports(counts + se + ee + ue + cycle, InvalidEndConnection, id) <==> Reports(ee, InvalidEndConnection, id)
    ensures Reports(counts + se + ee + ue + cycle, UnconnectedNode, id) <==> Reports(ue, UnconnectedNode, id)
  {
    forall k | true
      ensures Reports(counts + se + ee + ue + cycle, k, id) <==>
                Reports(se, k, id) || Reports(ee, k, id) || Reports(ue, k, id)
    {
      ReportsAppend(counts + se + ee + ue, cycle, k, id);
      ReportsAppend(counts + se + ee, ue, k, id);
      ReportsAppend(counts + se, ee, k, id);
      ReportsAppend(counts, se, k, id);
    }
  }

  /** Node-level errors: a start node is reported for an incoming edge and for
      having no outgoing edge, an end node for an outgoing edge, and any
      non-start node for having no incoming edge; nothing else is reported. */
  lemma NodeLevelErrors(wf: Workflow, id: Id)
    ensures Reports(Validation(wf), InvalidStartConnection, id) <==>
              (exists s :: s in wf.nodes && s.nodeType == Start && s.id == id) && InDegree(wf.edges, id) > 0
    ensures Reports(Validation(wf), DisconnectedStart, id) <==>
              (exists s :: s in wf.nodes && s.nodeType == Start && s.id == id) && OutDegree(wf.edges, id) == 0
    ensures Reports(Validation(wf), InvalidEndConnection, id) <==>
              (exists n :: n in wf.nodes && n.nodeType == End && n.id == id) && OutDegree(wf.edges, id) > 0
    ensures Reports(Validation(wf), UnconnectedNode, id) <==>
              exists n :: n in wf.nodes && n.nodeType != Start && n.id == id && InDegree(wf.edges, id) == 0
  {
    var counts, se, ee, ue, cycle := ValidationGroups(wf);
    ReportsInGroup(counts, se, ee, ue, cycle, id);
    var starts := NodesOfType(wf.nodes, Start);
    var ends := NodesOfType(wf.nodes, End);
    StartErrorsReportIncoming(wf.edges, starts, id);
    StartErrorsReportOutgoing(wf.edges, starts, id);
    EndErrorsReport(wf.edges, ends, id);
    UnconnectedReport(wf.edges, wf.nodes, id);
  }

  /** A workflow the validator accepts: one start node with no incoming and
      at least one outgoing edge, at least one end node and none with an
      outgoing edge, every other node entered by an edge, and no cycle
      reachable from a listed node. */
  ghost predicate IsExecutable(wf: Workflow)
  {
    var starts := NodesOfType(wf.nodes, Start);
    |starts| == 1
    && InDegree(wf.edges, starts[0].id) == 0 && OutDegree(wf.edges, starts[0].id) > 0
    && NodesOfType(wf.nodes, End) != []
    && (forall n :: n in wf.nodes && n.nodeType == End ==> OutDegree(wf.edges, n.id) == 0)
    && (forall n :: n in wf.nodes && n.nodeType != Start ==> InDegree(wf.edges, n.id) > 0)
    && !HasReachableCycle(wf.edges, NodeIds(wf.nodes))
  }

  lemma EmptyGroups(counts: seq<ValidationError>, se: seq<ValidationError>, ee: seq<ValidationError>,
                    ue: seq<ValidationError>, cycle: seq<ValidationError>)
    ensures counts + se + ee + ue + cycle == [] <==>
              counts == [] && se == [] && ee == [] && ue == [] && cycle == []
  {
    assert |counts + se + ee + ue + cycle| == |counts| + |se| + |ee| + |ue| + |cycle|;
  }

  lemma CountErrorsEmpty(startCount: nat, endCount: nat)
    ensures CountErrors(startCount, endCount) == [] <==> startCount == 1 && endCount > 0
  {
  }

  lemma EndsEmpty(edges: seq<WorkflowEdge>, nodes: seq<WorkflowNode>)
    ensures EndErrors(edges, NodesOfType(nodes, End)) == [] <==>
              forall n :: n in nodes && n.nodeType == End ==> OutDegree(edges, n.id) == 0
  {
    var ends := NodesOfType(nodes, End);
    assert forall n :: n in ends <==> n in nodes && n.nodeType == End;
  }

  lemma UnconnectedEmpty(edges: seq<WorkflowEdge>, nodes: seq<WorkflowNode>)
    ensures UnconnectedErrors(edges, nodes) == [] <==>
              forall n :: n in nodes && n.nodeType != Start ==> InDegree(edges, n.id) > 0
  {
    var ue := UnconnectedErrors(edges, nodes);
    if ue != [] {
      assert ue[0] in ue;
    }
  }

  lemma SingleStartErrors(edges: seq<WorkflowEdge>, starts: seq<WorkflowNode>)
    requires |starts| == 1
    ensures StartErrors(edges, starts) == [] <==>
              InDegree(edges, starts[0].id) == 0 && OutDegree(edges, starts[0].id) > 0
  {
    assert starts[..0] == [];
  }

  /** The error list is empty exactly when each of its groups is. */
  lemma ValidationEmptyGroups(wf: Workflow)
    ensures Validation(wf) == [] <==>
              CountErrors(|NodesOfType(wf.nodes, Start)|, |NodesOfType(wf.nodes, End)|) == []
              && StartErrors(wf.edges, NodesOfType(wf.nodes, Start)) == []
              && EndErrors(wf.edges, NodesOfType(wf.nodes, End)) == []
              && UnconnectedErrors(wf.edges, wf.nodes) == []
              && !HasReachableCycle(wf.edges, NodeIds(wf.nodes))
  {
    var counts, se, ee, ue, cycle := ValidationGroups(wf);
    EmptyGroups(counts, se, ee, ue, cycle);
  }

  /** `validateWorkflow` returns no error exactly for executable workflows. */
  lemma ValidationEmptyIff(wf: Workflow)
    ensures Validation(wf) == [] <==> IsExecutable(wf)
  {
    var starts := NodesOfType(wf.nodes, Start);
    ValidationEmptyGroups(wf);
    CountErrorsEmpty(|starts|, |NodesOfType(wf.nodes, End)|);
    EndsEmpty(wf.edges, wf.nodes);
    UnconnectedEmpty(wf.edges, wf.nodes);
    if |starts| == 1 {
      SingleStartErrors(wf.edges, starts);
    }
  }
}
