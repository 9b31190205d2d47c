/** The readable step list of a workflow (`generateReadableWorkflowDescription`):
    a breadth-first walk from the first Start node that emits one line per
    visited node, each line built by `generateNodeDescription`. */
module Serialization {
  import opened Types
  import opened Graph

  const EndDefault: string := "Workflow completed"

  // ---------------------------------------------------------------------
  // One line per node.
  // ---------------------------------------------------------------------

  /** The `title` a configuration carries, if its record has one. */
  function TitleOf(config: NodeConfig): Option<string>
  {
    match config
    case StartConfig(title, _, _) => Some(title)
    case TaskConfig(title, _, _, _, _) => Some(title)
    case ApprovalConfig(title, _, _) => Some(title)
    case _ => None
  }

  /** The `stepName` a configuration carries, if its record has one. */
  function StepNameOf(config: NodeConfig): Option<string>
  {
    if config.AutomatedConfig? then Some(config.stepName) else None
  }

  /** The `message` a configuration carries, if its record has one and it is set. */
  function MessageOf(config: NodeConfig): Option<string>
  {
    if config.EndConfig? then config.message else None
  }

  /** JavaScript's `value || fallback` on an optional string: a missing or
      empty string falls back. */
  function OrElse(value: Option<string>, fallback: string): string
  {
    if value.Some? && value.value != "" then value.value else fallback
  }

  /** The word that opens the line of a node of type `t`. */
  function KindName(t: NodeType): string
  {
    match t
    case Start => "Start"
    case Task => "Task"
    case Approval => "Approval"
    case Automated => "Automated"
    case End => "End"
  }

  /** The text after the kind name: the title, step name or message when set
      and non-empty, otherwise the node's label, or for an End node the
      fixed "Workflow completed". */
  function Detail(node: WorkflowNode): string
  {
    match node.nodeType
    case Start => OrElse(TitleOf(node.config), node.nodeLabel)
    case Task => OrElse(TitleOf(node.config), node.nodeLabel)
    case Approval => OrElse(TitleOf(node.config), node.nodeLabel)
    case Automated => OrElse(StepNameOf(node.config), node.nodeLabel)
    case End => OrElse(MessageOf(node.config), EndDefault)
  }

  /** `generateNodeDescription(node)`: every line opens with its node's kind
      name and ": ". */
  function NodeDescription(node: WorkflowNode): (line: string)
    ensures KindName(node.nodeType) + ": " <= line
  {
    KindName(node.nodeType) + ": " + Detail(node)
  }

  /** Reads the node type back from a line. */
  function KindOfLine(line: string): Option<NodeType>
  {
    if |line| >= 7 && line[..7] == "Start: " then Some(Start)
    else if |line| >= 6 && line[..6] == "Task: " then Some(Task)
    else if |line| >= 10 && line[..10] == "Approval: " then Some(Approval)
    else if |line| >= 11 && line[..11] == "Automated: " then Some(Automated)
    else if |line| >= 5 && line[..5] == "End: " then Some(End)
    else None
  }

  /** Every line names its node's type: the type can be read back from it,
      so nodes of different types never share a line. */
  lemma KindRoundTrip(node: WorkflowNode)
    ensures KindOfLine(NodeDescription(node)) == Some(node.nodeType)
  {
    var line := NodeDescription(node);
    var head := KindName(node.nodeType) + ": ";
    assert line[..|head|] == head;
    match node.nodeType
    case Start =>
    case Task =>
      assert line[0] == 'T';
      assert |line| < 7 || line[..7][0] != "Start: "[0];
    case Approval =>
      assert line[0] == 'A' && line[1] == 'p';
      assert |line| < 7 || line[..7][0] != "Start: "[0];
      assert line[..6][0] != "Task: "[0];
    case Automated =>
      assert line[0] == 'A' && line[1] == 'u';
      assert line[..7][0] != "Start: "[0];
      assert line[..6][0] != "Task: "[0];
      assert line[..10][1] != "Approval: "[1];
    case End =>
      assert line[0] == 'E';
      assert |line| < 7 || line[..7][0] != "Start: "[0];
      assert |line| < 6 || line[..6][0] != "Task: "[0];
      assert |line| < 10 || line[..10][0] != "Approval: "[0];
      assert |line| < 11 || line[..11][0] != "Automated: "[0];
  }

  /** An End line never shows the node's label: it shows the configured
      message, or "Workflow completed" when the message is missing or empty. */
  lemma EndLineIgnoresLabel(node: WorkflowNode)
    requires node.nodeType == End
    ensures NodeDescription(node) == NodeDescription(node.(nodeLabel := ""))
    ensures var m := MessageOf(node.config);
            m.Some? && m.value != "" ==> NodeDescription(node) == "End: " + m.value
    ensures var m := MessageOf(node.config);
            (m.None? || m.value == "") ==> NodeDescription(node) == "End: Workflow completed"
  {
    var m := MessageOf(node.config);
    var other := node.(nodeLabel := "");
    assert other.nodeType == End && other.config == node.config;
    assert Detail(node) == Detail(other);
    if m.Some? && m.value != "" {
      assert Detail(node) == m.value;
    } else {
      assert Detail(node) == EndDefault;
    }
  }

  /** A Start, Task or Approval line shows the label exactly when the
      configuration has no non-empty `title`. */
  lemma TitledLineFallsBack(node: WorkflowNode)
    requires node.nodeType in {Start, Task, Approval}
    ensures TitleOf(node.config).Some? && TitleOf(node.config).value != "" ==>
              NodeDescription(node) == KindName(node.nodeType) + ": " + TitleOf(node.config).value
    ensures !(TitleOf(node.config).Some? && TitleOf(node.config).value != "") ==>
              NodeDescription(node) == KindName(node.nodeType) + ": " + node.nodeLabel
  {
  }

  /** An Automated line shows the configured `stepName` when it is non-empty,
      and the node's label otherwise. */
  lemma AutomatedLineFallsBack(node: WorkflowNode)
    requires node.nodeType == Automated
    ensures node.config.AutomatedConfig? && node.config.stepName != "" ==>
              NodeDescription(node) == "Automated: " + node.config.stepName
    ensures !(node.config.AutomatedConfig? && node.config.stepName != "") ==>
              NodeDescription(node) == "Automated: " + node.nodeLabel
  {
    assert Detail(node) == OrElse(StepNameOf(node.config), node.nodeLabel);
  }

  // ---------------------------------------------------------------------
  // The node map and the breadth-first walk.
  // ---------------------------------------------------------------------

  /** The node map built from `[id, node]` pairs: a later node with the same
      id replaces an earlier one. */
  function IndexById(nodes: seq<WorkflowNode>): (m: map<Id, WorkflowNode>)
    ensures m.Keys == NodeIds(nodes)
    ensures forall k :: k in m ==> m[k].id == k && m[k] in nodes
  {
    if nodes == [] then map[]
    else
      var init := nodes[..|nodes| - 1];
      var last := nodes[|nodes| - 1];
      assert nodes == init + [last];
      IndexById(init)[last.id := last]
  }

  /** The node kept for an id is the last listed node with that id. */
  lemma {:induction false} IndexByIdLast(nodes: seq<WorkflowNode>, i: nat)
    requires i < |nodes|
    requires forall j :: i < j < |nodes| ==> nodes[j].id != nodes[i].id
    ensures IndexById(nodes)[nodes[i].id] == nodes[i]
  {
    var init := nodes[..|nodes| - 1];
    if i < |nodes| - 1 {
      IndexByIdLast(init, i);
    }
  }

  /** The ids of `ts` that are not in `visited`, in order. */
  function Pending(ts: seq<Id>, visited: set<Id>): (r: seq<Id>)
    ensures forall t :: t in r <==> t in ts && t !in visited
  {
    if ts == [] then []
    else
      var init := ts[..|ts| - 1];
      var last := ts[|ts| - 1];
      assert ts == init + [last];
      Pending(init, visited) + (if last !in visited then [last] else [])
  }

  /** Every id of `queue` is in `bound`. */
  predicate Within(queue: seq<Id>, bound: set<Id>)
  {
    forall q :: q in queue ==> q in bound
  }

  /** Every edge target is in `bound`. */
  ghost predicate Bounds(edges: seq<WorkflowEdge>, bound: set<Id>)
  {
    forall u, v :: v in Targets(edges, u) ==> v in bound
  }

  /** The ids the walk dequeues and marks visited from state (visited, queue),
      in order. An empty id or an already visited one is dropped; an id
      with no node is marked but nothing is enqueued for it; an id with a
      node enqueues its unvisited targets. `bound` holds every id that can
      ever be queued, so each visit leaves fewer unvisited ids in it. */
  function Explore(edges: seq<WorkflowEdge>, nodeMap: map<Id, WorkflowNode>, bound: set<Id>,
                   visited: set<Id>, queue: seq<Id>): (order: seq<Id>)
    requires Within(queue, bound) && Bounds(edges, bound)
    decreases bound - visited, |queue|
  {
    if queue == [] then []
    else
      var cur := queue[0];
      if cur == "" || cur in visited then Explore(edges, nodeMap, bound, visited, queue[1..])
      else
        var seen := visited + {cur};
        var next := if cur in nodeMap then queue[1..] + Pending(Targets(edges, cur), seen) else queue[1..];
        [cur] + Explore(edges, nodeMap, bound, seen, next)
  }

  /** The lines for the visited ids that have a node. */
  function Lines(ids: seq<Id>, nodeMap: map<Id, WorkflowNode>): (lines: seq<string>)
    ensures |lines| <= |ids|
  {
    if ids == [] then []
    else
      var last := ids[|ids| - 1];
      Lines(ids[..|ids| - 1], nodeMap) + (if last in nodeMap then [NodeDescription(nodeMap[last])] else [])
  }

  /** Every id the walk can queue from the first Start node `s`. */
  function WalkBound(wf: Workflow, s: WorkflowNode): (bound: set<Id>)
    ensures Within([s.id], bound) && Bounds(wf.edges, bound)
  {
    {s.id} + EdgeTargets(wf.edges)
  }

  /** The ids visited by `generateReadableWorkflowDescription`: none when
      there is no Start node, otherwise the walk from the first one. */
  function VisitedIds(wf: Workflow): seq<Id>
  {
    match FindOfType(wf.nodes, Start)
    case None => []
    case Some(s) => Explore(wf.edges, IndexById(wf.nodes), WalkBound(wf, s), {}, [s.id])
  }

  /** `generateReadableWorkflowDescription(workflow)` as a function. */
  function Description(wf: Workflow): (steps: seq<string>)
    ensures FindOfType(wf.nodes, Start).None? ==> steps == []
  {
    Lines(VisitedIds(wf), IndexById(wf.nodes))
  }

  // ---------------------------------------------------------------------
  // The imperative walk.
  // ---------------------------------------------------------------------

  /** Pushes every target in `outgoing` that is not yet visited onto the queue. */
  method PushTargets(outgoing: seq<Id>, visited: set<Id>, queue: seq<Id>) returns (queue': seq<Id>)
    ensures queue' == queue + Pending(outgoing, visited)
  {
    queue' := queue;
    for j := 0 to |outgoing|
      invariant queue' == queue + Pending(outgoing[..j], visited)
    {
      assert outgoing[..j + 1][..j] == outgoing[..j];
      if outgoing[j] !in visited {
        queue' := queue' + [outgoing[j]];
      }
    }
    assert outgoing[..|outgoing|] == outgoing;
  }

  /** `generateReadableWorkflowDescription(workflow)` */
  method DescribeWorkflow(wf: Workflow) returns (steps: seq<string>)
    ensures steps == Description(wf)
  {
    var nodeMap := IndexById(wf.nodes);
    var startNode := FindOfType(wf.nodes, Start);
    if startNode.None? {
      return [];
    }
    ghost var bound := WalkBound(wf, startNode.value);
    var visited: set<Id> := {};
    var queue := [startNode.value.id];
    steps := [];
    ghost var order: seq<Id> := [];
    while queue != []
      invariant Within(queue, bound) && Bounds(wf.edges, bound)
      invariant order + Explore(wf.edges, nodeMap, bound, visited, queue) == VisitedIds(wf)
      invariant steps == Lines(order, nodeMap)
      decreases bound - visited, |queue|
    {
      ghost var before := Explore(wf.edges, nodeMap, bound, visited, queue);
      var currentId := queue[0];
      queue := queue[1..];
      if currentId == "" || currentId in visited {
        continue;
      }
      visited := visited + {currentId};
      ghost var order' := order + [currentId];
      assert order'[..|order|] == order;
      if currentId !in nodeMap {
        Associative(order, [currentId], Explore(wf.edges, nodeMap, bound, visited, queue));
        order := order';
        continue;
      }
      var description := NodeDescription(nodeMap[currentId]);
      steps := steps + [description];
      var outgoing := Targets(wf.edges, currentId);
      queue := PushTargets(outgoing, visited, queue);
      Associative(order, [currentId], Explore(wf.edges, nodeMap, bound, visited, queue));
      order := order';
    }
    assert order + [] == order;
  }
}

/** What the readable step list says about the workflow: each node at most
    once, only nodes reachable from the first Start node, and every node
    reachable from it through described nodes. */
module DescriptionProperties {
  import opened Types
  import opened Graph
  import opened Serialization

  function Elems(s: seq<Id>): set<Id>
  {
    set x | x in s
  }

  /** The walk never visits an id twice, never an already visited one and never the empty id. */
  lemma {:induction false} ExploreFresh(edges: seq<WorkflowEdge>, nodeMap: map<Id, WorkflowNode>, bound: set<Id>,
                                        visited: set<Id>, queue: seq<Id>)
    requires Within(queue, bound) && Bounds(edges, bound)
    ensures var order := Explore(edges, nodeMap, bound, visited, queue);
            Distinct(order) && forall v :: v in order ==> v !in visited && v != ""
    decreases bound - visited, |queue|
  {
    if queue != [] {
      var cur := queue[0];
      if cur == "" || cur in visited {
        ExploreFresh(edges, nodeMap, bound, visited, queue[1..]);
      } else {
        var seen := visited + {cur};
        var next := if cur in nodeMap then queue[1..] + Pending(Targets(edges, cur), seen) else queue[1..];
        ExploreFresh(edges, nodeMap, bound, seen, next);
        var rest := Explore(edges, nodeMap, bound, seen, next);
        var order := [cur] + rest;
        forall i, j | 0 <= i < j < |order| ensures order[i] != order[j] {
          if i == 0 {
            assert order[j] == rest[j - 1];
          } else {
            assert order[i] == rest[i - 1] && order[j] == rest[j - 1];
          }
        }
      }
    }
  }

  /** A walk from `s` whose ids are all non-empty and, but for the last, all have nodes. */
  ghost predicate DescribedWalk(edges: seq<WorkflowEdge>, nodeMap: map<Id, WorkflowNode>, w: seq<Id>)
  {
    IsWalk(edges, w) && (forall i :: 0 <= i < |w| ==> w[i] != "")
    && forall i :: 0 <= i < |w| - 1 ==> w[i] in nodeMap
  }

  /** `v` is reached from `s` along a described walk. */
  ghost predicate ReachesDescribed(edges: seq<WorkflowEdge>, nodeMap: map<Id, WorkflowNode>, s: Id, v: Id)
  {
    exists w :: DescribedWalk(edges, nodeMap, w) && w[0] == s && w[|w| - 1] == v
  }

  /** A described walk extends along an edge out of a node to a non-empty id. */
  lemma DescribedStep(edges: seq<WorkflowEdge>, nodeMap: map<Id, WorkflowNode>, s: Id, u: Id, v: Id)
    requires ReachesDescribed(edges, nodeMap, s, u) && u in nodeMap && v in Targets(edges, u) && v != ""
    ensures ReachesDescribed(edges, nodeMap, s, v)
  {
    var w :| DescribedWalk(edges, nodeMap, w) && w[0] == s && w[|w| - 1] == u;
    WalkExtends(edges, w, v);
    var w' := w + [v];
    assert forall i :: 0 <= i < |w| ==> w'[i] == w[i];
    assert DescribedWalk(edges, nodeMap, w');
    assert w'[0] == s && w'[|w'| - 1] == v;
  }

  lemma WalkExtends(edges: seq<WorkflowEdge>, w: seq<Id>, v: Id)
    requires IsWalk(edges, w) && v in Targets(edges, w[|w| - 1])
    ensures IsWalk(edges, w + [v])
  {
    var w' := w + [v];
    forall i | 0 <= i < |w'| - 1 ensures w'[i + 1] in Targets(edges, w'[i]) {
      if i < |w| - 1 {
        assert w'[i] == w[i] && w'[i + 1] == w[i + 1];
      }
    }
  }

  /** Everything the walk visits is reached from `s` along a described walk
      when every non-empty queued id is. */
  lemma {:induction false} ExploreReachable(edges: seq<WorkflowEdge>, nodeMap: map<Id, WorkflowNode>, bound: set<Id>,
                                            visited: set<Id>, queue: seq<Id>, s: Id)
    requires Within(queue, bound) && Bounds(edges, bound)
    requires forall q :: q in queue && q != "" ==> ReachesDescribed(edges, nodeMap, s, q)
    ensures forall v :: v in Explore(edges, nodeMap, bound, visited, queue) ==> ReachesDescribed(edges, nodeMap, s, v)
    decreases bound - visited, |queue|
  {
    if queue != [] {
      var cur := queue[0];
      if cur == "" || cur in visited {
        ExploreReachable(edges, nodeMap, bound, visited, queue[1..], s);
      } else {
        var seen := visited + {cur};
        var next := if cur in nodeMap then queue[1..] + Pending(Targets(edges, cur), seen) else queue[1..];
        forall q | q in next && q != "" ensures ReachesDescribed(edges, nodeMap, s, q) {
          if q !in queue[1..] {
            DescribedStep(edges, nodeMap, s, cur, q);
          }
        }
        ExploreReachable(edges, nodeMap, bound, seen, next, s);
      }
    }
  }

  /** Every target of a visited id with a node is visited or still queued. */
  ghost predicate ClosedSoFar(edges: seq<WorkflowEdge>, nodeMap: map<Id, WorkflowNode>,
                              visited: set<Id>, queue: seq<Id>)
  {
    forall u, t :: u in visited && u in nodeMap && t in Targets(edges, u) && t != "" ==> t in visited || t in queue
  }

  /** The set of ids visited once the walk from (visited, queue) is over. */
  function Explored(edges: seq<WorkflowEdge>, nodeMap: map<Id, WorkflowNode>, bound: set<Id>,
                    visited: set<Id>, queue: seq<Id>): set<Id>
    requires Within(queue, bound) && Bounds(edges, bound)
  {
    visited + Elems(Explore(edges, nodeMap, bound, visited, queue))
  }

  /** When the walk is over, every queued non-empty id was visited and the
      visited ids are closed under the edges of those that have a node. */
  lemma {:induction false} ExploreClosed(edges: seq<WorkflowEdge>, nodeMap: map<Id, WorkflowNode>, bound: set<Id>,
                                         visited: set<Id>, queue: seq<Id>)
    requires Within(queue, bound) && Bounds(edges, bound)
    requires ClosedSoFar(edges, nodeMap, visited, queue)
    ensures var fin := Explored(edges, nodeMap, bound, visited, queue);
            (forall q :: q in queue && q != "" ==> q in fin)
            && ClosedSoFar(edges, nodeMap, fin, [])
    decreases bound - visited, |queue|
  {
    if queue != [] {
      var cur := queue[0];
      var fin := Explored(edges, nodeMap, bound, visited, queue);
      if cur == "" || cur in visited {
        ExploreClosed(edges, nodeMap, bound, visited, queue[1..]);
        assert fin == Explored(edges, nodeMap, bound, visited, queue[1..]);
        forall q | q in queue && q != "" ensures q in fin {
          if q != cur {
            assert q in queue[1..];
          }
        }
      } else {
        var seen := visited + {cur};
        var next := if cur in nodeMap then queue[1..] + Pending(Targets(edges, cur), seen) else queue[1..];
        var rest := Explore(edges, nodeMap, bound, seen, next);
        assert ClosedSoFar(edges, nodeMap, seen, next) by {
          forall u, t | u in seen && u in nodeMap && t in Targets(edges, u) && t != ""
            ensures t in seen || t in next
          {
            if u != cur && t != cur && t !in visited {
              assert t in queue;
              assert t in queue[1..];
            }
          }
        }
        ExploreClosed(edges, nodeMap, bound, seen, next);
        assert Elems([cur] + rest) == {cur} + Elems(rest);
        assert fin == Explored(edges, nodeMap, bound, seen, next);
        forall q | q in queue && q != "" ensures q in fin {
          if q != cur {
            assert q in queue[1..];
          }
        }
      }
    }
  }

  lemma {:induction false} WalkStaysInside(edges: seq<WorkflowEdge>, nodeMap: map<Id, WorkflowNode>,
                                           fin: set<Id>, w: seq<Id>, k: nat)
    requires DescribedWalk(edges, nodeMap, w) && k < |w|
    requires w[0] in fin && ClosedSoFar(edges, nodeMap, fin, [])
    ensures w[k] in fin
  {
    if k > 0 {
      WalkStaysInside(edges, nodeMap, fin, w, k - 1);
      assert w[k] in Targets(edges, w[k - 1]);
    }
  }

  /** Visited ids, from the first Start node. */
  lemma VisitedFromStart(wf: Workflow, s: WorkflowNode)
    requires FindOfType(wf.nodes, Start) == Some(s)
    ensures Within([s.id], WalkBound(wf, s)) && Bounds(wf.edges, WalkBound(wf, s))
    ensures VisitedIds(wf) == Explore(wf.edges, IndexById(wf.nodes), WalkBound(wf, s), {}, [s.id])
  {
  }

  /** The walk visits each id at most once, and only non-empty ids. */
  lemma VisitedDistinct(wf: Workflow)
    ensures Distinct(VisitedIds(wf)) && "" !in VisitedIds(wf)
  {
    var r := FindOfType(wf.nodes, Start);
    if r.Some? {
      ExploreFresh(wf.edges, IndexById(wf.nodes), WalkBound(wf, r.value), {}, [r.value.id]);
    }
  }

  /** Every visited id is reached from the first Start node along a walk of
      non-empty ids that all have nodes (but perhaps the last). */
  lemma VisitedReachable(wf: Workflow, s: WorkflowNode)
    requires FindOfType(wf.nodes, Start) == Some(s)
    ensures forall v :: v in VisitedIds(wf) ==> ReachesDescribed(wf.edges, IndexById(wf.nodes), s.id, v)
  {
    var nodeMap := IndexById(wf.nodes);
    VisitedFromStart(wf, s);
    StartReached(wf.edges, nodeMap, s.id);
    ExploreReachable(wf.edges, nodeMap, WalkBound(wf, s), {}, [s.id], s.id);
  }

  lemma StartReached(edges: seq<WorkflowEdge>, nodeMap: map<Id, WorkflowNode>, s: Id)
    ensures forall q :: q in [s] && q != "" ==> ReachesDescribed(edges, nodeMap, s, q)
  {
    if s != "" {
      assert IsWalk(edges, [s]);
      assert DescribedWalk(edges, nodeMap, [s]);
    }
  }

  /** Every id reached from the first Start node along a walk of non-empty
      ids that all have nodes (but perhaps the last) is visited. */
  lemma VisitedComplete(wf: Workflow, s: WorkflowNode, w: seq<Id>)
    requires FindOfType(wf.nodes, Start) == Some(s)
    requires DescribedWalk(wf.edges, IndexById(wf.nodes), w) && w[0] == s.id
    ensures w[|w| - 1] in VisitedIds(wf)
  {
    var nodeMap := IndexById(wf.nodes);
    var bound := WalkBound(wf, s);
    ExploreClosed(wf.edges, nodeMap, bound, {}, [s.id]);
    var fin := Explored(wf.edges, nodeMap, bound, {}, [s.id]);
    WalkStaysInside(wf.edges, nodeMap, fin, w, |w| - 1);
  }

  /** The walk visits exactly the ids reached from the first Start node along
      a described walk. */
  lemma VisitedExactly(wf: Workflow, s: WorkflowNode, v: Id)
    requires FindOfType(wf.nodes, Start) == Some(s)
    ensures v in VisitedIds(wf) <==> ReachesDescribed(wf.edges, IndexById(wf.nodes), s.id, v)
  {
    VisitedReachable(wf, s);
    if ReachesDescribed(wf.edges, IndexById(wf.nodes), s.id, v) {
      var w :| DescribedWalk(wf.edges, IndexById(wf.nodes), w) && w[0] == s.id && w[|w| - 1] == v;
      VisitedComplete(wf, s, w);
    }
  }

  /** The ids that get a line: visited ids with a node. */
  function Described(ids: seq<Id>, nodeMap: map<Id, WorkflowNode>): set<Id>
  {
    set x | x in ids && x in nodeMap
  }

  lemma {:induction false} LinesCount(ids: seq<Id>, nodeMap: map<Id, WorkflowNode>)
    requires Distinct(ids)
    ensures |Lines(ids, nodeMap)| == |Described(ids, nodeMap)|
  {
    if ids != [] {
      var init := ids[..|ids| - 1];
      var last := ids[|ids| - 1];
      assert ids == init + [last];
      LinesCount(init, nodeMap);
      assert last !in init by {
        forall j | 0 <= j < |init| ensures init[j] != last {
          assert init[j] == ids[j];
        }
      }
      if last in nodeMap {
        assert Described(ids, nodeMap) == Described(init, nodeMap) + {last};
      } else {
        assert Described(ids, nodeMap) == Described(init, nodeMap);
      }
    }
  }

  lemma {:induction false} NodeIdsCount(nodes: seq<WorkflowNode>)
    ensures |NodeIds(nodes)| <= |nodes|
  {
    if nodes != [] {
      var init := nodes[..|nodes| - 1];
      assert nodes == init + [nodes[|nodes| - 1]];
      NodeIdsCount(init);
      assert NodeIds(nodes) == NodeIds(init) + {nodes[|nodes| - 1].id};
    }
  }

  lemma SubsetCount(a: set<Id>, b: set<Id>)
    requires a <= b
    ensures |a| <= |b|
  {
    assert b == a + (b - a);
  }

  /** One line per distinct described node: never more lines than nodes. */
  lemma DescriptionLength(wf: Workflow)
    ensures |Description(wf)| == |Described(VisitedIds(wf), IndexById(wf.nodes))|
    ensures |Description(wf)| <= |wf.nodes|
  {
    var ids, nodeMap := VisitedIds(wf), IndexById(wf.nodes);
    VisitedDistinct(wf);
    LinesCount(ids, nodeMap);
    NodeIdsCount(wf.nodes);
    SubsetCount(Described(ids, nodeMap), NodeIds(wf.nodes));
  }

  /** When the first Start node's id is non-empty, the first line describes
      the node kept for that id. */
  lemma DescriptionStartsAtStart(wf: Workflow, s: WorkflowNode)
    requires FindOfType(wf.nodes, Start) == Some(s) && s.id != ""
    ensures Description(wf) != [] && Description(wf)[0] == NodeDescription(IndexById(wf.nodes)[s.id])
  {
    var ids := VisitedIds(wf);
    assert ids[0] == s.id;
    LinesPrefix(ids, IndexById(wf.nodes));
  }

  lemma {:induction false} LinesPrefix(ids: seq<Id>, nodeMap: map<Id, WorkflowNode>)
    requires ids != [] && ids[0] in nodeMap
    ensures Lines(ids, nodeMap) != [] && Lines(ids, nodeMap)[0] == NodeDescription(nodeMap[ids[0]])
    decreases |ids|
  {
    if |ids| > 1 {
      var init := ids[..|ids| - 1];
      LinesPrefix(init, nodeMap);
    }
  }
}
