/** The editor's workflow store (`useWorkflowStore`): the current workflow,
    the selected node and the last validation errors, and the operations
    that replace them. Each operation is a pure update of the workflow
    (`WithNode`, `UpdateNodes`, `RemoveNode`, `WithEdge`, `RemoveEdge`)
    applied by a method of the `WorkflowStore` class. */
module Store {
  import opened Types
  import opened Graph

  /** The workflow a new or reset store holds. */
  const InitialWorkflow: Workflow := Workflow("workflow-1", [], [])

  /** A `Partial<WorkflowNode>`: a field that is `Some` replaces the node's. */
  datatype NodeUpdate = NodeUpdate(
    id: Option<Id>,
    nodeType: Option<NodeType>,
    nodeLabel: Option<string>,
    config: Option<NodeConfig>,
    position: Option<Position>)

  function Pick<T>(update: Option<T>, current: T): T
  {
    if update.Some? then update.value else current
  }

  /** The node with every field the update sets replaced. */
  function Merge(node: WorkflowNode, u: NodeUpdate): WorkflowNode
  {
    WorkflowNode(Pick(u.id, node.id), Pick(u.nodeType, node.nodeType), Pick(u.nodeLabel, node.nodeLabel),
                 Pick(u.config, node.config), Pick(u.position, node.position))
  }

  // ---------------------------------------------------------------------
  // The workflow updates.
  // ---------------------------------------------------------------------

  /** `addNode`: the node goes last; nothing checks that its id is new. */
  function WithNode(wf: Workflow, node: WorkflowNode): (r: Workflow)
    ensures r.id == wf.id && r.edges == wf.edges && |r.nodes| == |wf.nodes| + 1
    ensures r.nodes[..|wf.nodes|] == wf.nodes && r.nodes[|wf.nodes|..] == [node]
  {
    wf.(nodes := wf.nodes + [node])
  }

  /** `updateNode`: every node with id `id` is merged with the update, the
      others are kept, and the order is unchanged. */
  function UpdateNodes(nodes: seq<WorkflowNode>, id: Id, u: NodeUpdate): (r: seq<WorkflowNode>)
    ensures |r| == |nodes|
    ensures forall i :: 0 <= i < |nodes| && nodes[i].id != id ==> r[i] == nodes[i]
    ensures forall i :: 0 <= i < |nodes| && nodes[i].id == id ==> r[i] == Merge(nodes[i], u)
  {
    if nodes == [] then []
    else [if nodes[0].id == id then Merge(nodes[0], u) else nodes[0]] + UpdateNodes(nodes[1..], id, u)
  }

  /** The nodes whose id is not `id`, in order. */
  function KeepNodes(nodes: seq<WorkflowNode>, id: Id): (r: seq<WorkflowNode>)
    ensures |r| <= |nodes|
    ensures forall n :: n in r <==> n in nodes && n.id != id
  {
    if nodes == [] then []
    else (if nodes[0].id != id then [nodes[0]] else []) + KeepNodes(nodes[1..], id)
  }

  /** The edges that neither leave nor enter `id`, in order. */
  function KeepDetached(edges: seq<WorkflowEdge>, id: Id): (r: seq<WorkflowEdge>)
    ensures |r| <= |edges|
    ensures forall e :: e in r <==> e in edges && e.source != id && e.target != id
  {
    if edges == [] then []
    else (if edges[0].source != id && edges[0].target != id then [edges[0]] else []) + KeepDetached(edges[1..], id)
  }

  /** The edges whose id is not `id`, in order. */
  function KeepOtherEdges(edges: seq<WorkflowEdge>, id: Id): (r: seq<WorkflowEdge>)
    ensures |r| <= |edges|
    ensures forall e :: e in r <==> e in edges && e.id != id
  {
    if edges == [] then []
    else (if edges[0].id != id then [edges[0]] else []) + KeepOtherEdges(edges[1..], id)
  }

  /** `deleteNode`: the nodes with that id go, and so does every edge that
      leaves or enters it. */
  function RemoveNode(wf: Workflow, id: Id): (r: Workflow)
    ensures r.id == wf.id
    ensures id !in NodeIds(r.nodes)
    ensures forall n :: n in r.nodes <==> n in wf.nodes && n.id != id
    ensures forall e :: e in r.edges <==> e in wf.edges && e.source != id && e.target != id
  {
    Workflow(wf.id, KeepNodes(wf.nodes, id), KeepDetached(wf.edges, id))
  }

  /** `addEdge`: an edge between a pair of ids that some edge already joins
      leaves the workflow as it is; any other edge goes last. */
  function WithEdge(wf: Workflow, edge: WorkflowEdge): (r: Workflow)
    ensures r.id == wf.id && r.nodes == wf.nodes
    ensures HasEdge(r.edges, edge.source, edge.target)
    ensures HasEdge(wf.edges, edge.source, edge.target) ==> r == wf
    ensures !HasEdge(wf.edges, edge.source, edge.target) ==> r.edges == wf.edges + [edge]
  {
    if HasEdge(wf.edges, edge.source, edge.target) then wf
    else
      var r := wf.(edges := wf.edges + [edge]);
      assert r.edges[|wf.edges|] == edge;
      r
  }

  /** `deleteEdge`: every edge with that id goes. */
  function RemoveEdge(wf: Workflow, id: Id): (r: Workflow)
    ensures r.id == wf.id && r.nodes == wf.nodes
    ensures forall e :: e in r.edges <==> e in wf.edges && e.id != id
  {
    wf.(edges := KeepOtherEdges(wf.edges, id))
  }

  // ---------------------------------------------------------------------
  // Consistency: edges join listed nodes, and no pair is joined twice.
  // ---------------------------------------------------------------------

  /** Both ends of every edge are ids of listed nodes. */
  ghost predicate EdgesAttached(wf: Workflow)
  {
    forall e :: e in wf.edges ==> e.source in NodeIds(wf.nodes) && e.target in NodeIds(wf.nodes)
  }

  /** No two edges join the same source to the same target. */
  predicate NoDuplicatePairs(edges: seq<WorkflowEdge>)
  {
    forall i, j :: 0 <= i < j < |edges| ==> edges[i].source != edges[j].source || edges[i].target != edges[j].target
  }

  ghost predicate Consistent(wf: Workflow)
  {
    EdgesAttached(wf) && NoDuplicatePairs(wf.edges)
  }

  // ---------------------------------------------------------------------
  // What the updates keep and undo.
  // ---------------------------------------------------------------------

  /** Deleting a node never leaves an edge hanging. */
  lemma RemoveNodeKeepsAttached(wf: Workflow, id: Id)
    requires EdgesAttached(wf)
    ensures EdgesAttached(RemoveNode(wf, id))
  {
    var r := RemoveNode(wf, id);
    forall e | e in r.edges ensures e.source in NodeIds(r.nodes) && e.target in NodeIds(r.nodes) {
      var i :| 0 <= i < |wf.nodes| && wf.nodes[i].id == e.source;
      var j :| 0 <= j < |wf.nodes| && wf.nodes[j].id == e.target;
      assert wf.nodes[i] in r.nodes && wf.nodes[j] in r.nodes;
    }
  }

  /** Filtering edges keeps them pairwise distinct. */
  lemma {:induction false} KeepDetachedNoDuplicates(edges: seq<WorkflowEdge>, id: Id)
    requires NoDuplicatePairs(edges)
    ensures NoDuplicatePairs(KeepDetached(edges, id))
  {
    if edges != [] {
      KeepDetachedNoDuplicates(edges[1..], id);
      ConsNoDuplicates(edges, KeepDetached(edges[1..], id));
    }
  }

  lemma {:induction false} KeepOtherEdgesNoDuplicates(edges: seq<WorkflowEdge>, id: Id)
    requires NoDuplicatePairs(edges)
    ensures NoDuplicatePairs(KeepOtherEdges(edges, id))
  {
    if edges != [] {
      KeepOtherEdgesNoDuplicates(edges[1..], id);
      ConsNoDuplicates(edges, KeepOtherEdges(edges[1..], id));
    }
  }

  /** The first edge followed by any duplicate-free selection of the rest is duplicate-free. */
  lemma ConsNoDuplicates(edges: seq<WorkflowEdge>, rest: seq<WorkflowEdge>)
    requires edges != [] && NoDuplicatePairs(edges) && NoDuplicatePairs(rest)
    requires forall e :: e in rest ==> e in edges[1..]
    ensures NoDuplicatePairs([edges[0]] + rest)
  {
    var r := [edges[0]] + rest;
    forall i, j | 0 <= i < j < |r| ensures r[i].source != r[j].source || r[i].target != r[j].target {
      if i == 0 {
        assert r[j] == rest[j - 1];
        assert rest[j - 1] in rest;
        var k :| 0 <= k < |edges| - 1 && edges[1..][k] == rest[j - 1];
        assert edges[k + 1] == r[j];
      } else {
        assert r[i] == rest[i - 1] && r[j] == rest[j - 1];
      }
    }
  }

  /** Deleting a node keeps the workflow consistent. */
  lemma RemoveNodeConsistent(wf: Workflow, id: Id)
    requires Consistent(wf)
    ensures Consistent(RemoveNode(wf, id))
  {
    RemoveNodeKeepsAttached(wf, id);
    KeepDetachedNoDuplicates(wf.edges, id);
  }

  /** Deleting an edge keeps the workflow consistent. */
  lemma RemoveEdgeConsistent(wf: Workflow, id: Id)
    requires Consistent(wf)
    ensures Consistent(RemoveEdge(wf, id))
  {
    KeepOtherEdgesNoDuplicates(wf.edges, id);
  }

  /** Adding an edge never creates a duplicate pair, and adding it again changes nothing. */
  lemma WithEdgeNoDuplicates(wf: Workflow, edge: WorkflowEdge)
    requires NoDuplicatePairs(wf.edges)
    ensures NoDuplicatePairs(WithEdge(wf, edge).edges)
    ensures WithEdge(WithEdge(wf, edge), edge) == WithEdge(wf, edge)
  {
    var r := WithEdge(wf, edge);
    if !HasEdge(wf.edges, edge.source, edge.target) {
      forall i, j | 0 <= i < j < |r.edges|
        ensures r.edges[i].source != r.edges[j].source || r.edges[i].target != r.edges[j].target
      {
        if j == |wf.edges| {
          assert r.edges[i] == wf.edges[i];
        } else {
          assert r.edges[i] == wf.edges[i] && r.edges[j] == wf.edges[j];
        }
      }
    }
  }

  /** An edge between listed nodes keeps the workflow consistent. */
  lemma WithEdgeConsistent(wf: Workflow, edge: WorkflowEdge)
    requires Consistent(wf)
    requires edge.source in NodeIds(wf.nodes) && edge.target in NodeIds(wf.nodes)
    ensures Consistent(WithEdge(wf, edge))
  {
    WithEdgeNoDuplicates(wf, edge);
  }

  /** Adding a node keeps the workflow consistent. */
  lemma WithNodeConsistent(wf: Workflow, node: WorkflowNode)
    requires Consistent(wf)
    ensures Consistent(WithNode(wf, node))
  {
    var r := WithNode(wf, node);
    assert forall n :: n in wf.nodes ==> n in r.nodes;
    forall v | v in NodeIds(wf.nodes) ensures v in NodeIds(r.nodes) {
      var i :| 0 <= i < |wf.nodes| && wf.nodes[i].id == v;
      assert r.nodes[i] == wf.nodes[i];
    }
  }

  /** Adding a node whose id is new and that no edge mentions, then deleting
      it, gives back the workflow. */
  lemma AddThenDeleteNode(wf: Workflow, node: WorkflowNode)
    requires node.id !in NodeIds(wf.nodes)
    requires forall e :: e in wf.edges ==> e.source != node.id && e.target != node.id
    ensures RemoveNode(WithNode(wf, node), node.id) == wf
  {
    KeepNodesAllBut(wf.nodes, node);
    KeepDetachedAll(wf.edges, node.id);
  }

  lemma {:induction false} KeepNodesAllBut(nodes: seq<WorkflowNode>, node: WorkflowNode)
    requires node.id !in NodeIds(nodes)
    ensures KeepNodes(nodes + [node], node.id) == nodes
  {
    if nodes != [] {
      assert (nodes + [node])[1..] == nodes[1..] + [node];
      assert nodes[0].id in NodeIds(nodes);
      KeepNodesAllBut(nodes[1..], node);
    } else {
      assert KeepNodes([node], node.id) == [] + KeepNodes([], node.id);
    }
  }

  lemma {:induction false} KeepDetachedAll(edges: seq<WorkflowEdge>, id: Id)
    requires forall e :: e in edges ==> e.source != id && e.target != id
    ensures KeepDetached(edges, id) == edges
  {
    if edges != [] {
      KeepDetachedAll(edges[1..], id);
      assert edges == [edges[0]] + edges[1..];
    }
  }

  /** Adding an edge whose id and pair are both new, then deleting it by id,
      gives back the workflow. */
  lemma AddThenDeleteEdge(wf: Workflow, edge: WorkflowEdge)
    requires !HasEdge(wf.edges, edge.source, edge.target)
    requires forall e :: e in wf.edges ==> e.id != edge.id
    ensures RemoveEdge(WithEdge(wf, edge), edge.id) == wf
  {
    KeepOtherEdgesAllBut(wf.edges, edge);
  }

  lemma {:induction false} KeepOtherEdgesAllBut(edges: seq<WorkflowEdge>, edge: WorkflowEdge)
    requires forall e :: e in edges ==> e.id != edge.id
    ensures KeepOtherEdges(edges + [edge], edge.id) == edges
  {
    if edges != [] {
      assert (edges + [edge])[1..] == edges[1..] + [edge];
      KeepOtherEdgesAllBut(edges[1..], edge);
    } else {
      assert KeepOtherEdges([edge], edge.id) == [] + KeepOtherEdges([], edge.id);
    }
  }

  /** Applying the same update twice is the same as applying it once. */
  lemma UpdateIdempotent(nodes: seq<WorkflowNode>, id: Id, u: NodeUpdate)
    ensures UpdateNodes(UpdateNodes(nodes, id, u), id, u) == UpdateNodes(nodes, id, u)
  {
    var once := UpdateNodes(nodes, id, u);
    var twice := UpdateNodes(once, id, u);
    forall i | 0 <= i < |nodes| ensures twice[i] == once[i] {
      if nodes[i].id == id {
        assert Merge(Merge(nodes[i], u), u) == Merge(nodes[i], u);
      }
    }
  }

  /** An update that leaves ids alone keeps the set of node ids. */
  lemma UpdateKeepsIds(nodes: seq<WorkflowNode>, id: Id, u: NodeUpdate)
    requires u.id.None?
    ensures NodeIds(UpdateNodes(nodes, id, u)) == NodeIds(nodes)
  {
    var r := UpdateNodes(nodes, id, u);
    forall v | v in NodeIds(r) ensures v in NodeIds(nodes) {
      var i :| 0 <= i < |r| && r[i].id == v;
      assert nodes[i].id == v;
    }
    forall v | v in NodeIds(nodes) ensures v in NodeIds(r) {
      var i :| 0 <= i < |nodes| && nodes[i].id == v;
      assert r[i].id == v;
    }
  }

  /** An update that leaves ids alone keeps the workflow consistent. */
  lemma UpdateConsistent(wf: Workflow, id: Id, u: NodeUpdate)
    requires u.id.None? && Consistent(wf)
    ensures Consistent(wf.(nodes := UpdateNodes(wf.nodes, id, u)))
  {
    UpdateKeepsIds(wf.nodes, id, u);
  }

  // ---------------------------------------------------------------------
  // The store.
  // ---------------------------------------------------------------------

  class WorkflowStore {
    var workflow: Workflow
    var selectedNodeId: Option<Id>
    var validationErrors: seq<ValidationError>

    /** A fresh store: the initial empty workflow, no selection, no errors. */
    constructor()
      ensures workflow == InitialWorkflow && selectedNodeId == None && validationErrors == []
      ensures Valid()
    {
      workflow := InitialWorkflow;
      selectedNodeId := None;
      validationErrors := [];
    }

    ghost predicate Valid()
      reads this
    {
      Consistent(workflow)
    }

    method AddNode(node: WorkflowNode)
      modifies this
      ensures workflow == WithNode(old(workflow), node)
      ensures selectedNodeId == old(selectedNodeId) && validationErrors == old(validationErrors)
      ensures old(Valid()) ==> Valid()
    {
      if Consistent(workflow) {
        WithNodeConsistent(workflow, node);
      }
      workflow := WithNode(workflow, node);
    }

    method UpdateNode(id: Id, updates: NodeUpdate)
      modifies this
      ensures workflow == old(workflow).(nodes := UpdateNodes(old(workflow).nodes, id, updates))
      ensures selectedNodeId == old(selectedNodeId) && validationErrors == old(validationErrors)
      ensures old(Valid()) && updates.id.None? ==> Valid()
    {
      if updates.id.None? && Consistent(workflow) {
        UpdateConsistent(workflow, id, updates);
      }
      workflow := workflow.(nodes := UpdateNodes(workflow.nodes, id, updates));
    }

    /** Deletes the node and its edges, and clears the selection if it was that node. */
    method DeleteNode(id: Id)
      modifies this
      ensures workflow == RemoveNode(old(workflow), id)
      ensures selectedNodeId == if old(selectedNodeId) == Some(id) then None else old(selectedNodeId)
      ensures validationErrors == old(validationErrors)
      ensures old(Valid()) ==> Valid()
    {
      if Consistent(workflow) {
        RemoveNodeConsistent(workflow, id);
      }
      workflow := RemoveNode(workflow, id);
      if selectedNodeId == Some(id) {
        selectedNodeId := None;
      }
    }

    method SelectNode(id: Option<Id>)
      modifies this
      ensures selectedNodeId == id
      ensures workflow == old(workflow) && validationErrors == old(validationErrors)
    {
      selectedNodeId := id;
    }

    method AddEdge(edge: WorkflowEdge)
      modifies this
      ensures workflow == WithEdge(old(workflow), edge)
      ensures selectedNodeId == old(selectedNodeId) && validationErrors == old(validationErrors)
      ensures old(Valid()) && edge.source in NodeIds(workflow.nodes) && edge.target in NodeIds(workflow.nodes)
              ==> Valid()
    {
      if Consistent(workflow) && edge.source in NodeIds(workflow.nodes) && edge.target in NodeIds(workflow.nodes) {
        WithEdgeConsistent(workflow, edge);
      }
      var present := HasEdge(workflow.edges, edge.source, edge.target);
      if present {
        return;
      }
      workflow := workflow.(edges := workflow.edges + [edge]);
    }

    method DeleteEdge(id: Id)
      modifies this
      ensures workflow == RemoveEdge(old(workflow), id)
      ensures selectedNodeId == old(selectedNodeId) && validationErrors == old(validationErrors)
      ensures old(Valid()) ==> Valid()
    {
      if Consistent(workflow) {
        RemoveEdgeConsistent(workflow, id);
      }
      workflow := RemoveEdge(workflow, id);
    }

    method SetWorkflow(wf: Workflow)
      modifies this
      ensures workflow == wf
      ensures selectedNodeId == old(selectedNodeId) && validationErrors == old(validationErrors)
    {
      workflow := wf;
    }

    method SetValidationErrors(errors: seq<ValidationError>)
      modifies this
      ensures validationErrors == errors
      ensures workflow == old(workflow) && selectedNodeId == old(selectedNodeId)
    {
      validationErrors := errors;
    }

    /** Back to the initial empty workflow, with no selection and no errors. */
    method ResetWorkflow()
      modifies this
      ensures workflow == InitialWorkflow && selectedNodeId == None && validationErrors == []
      ensures Valid()
    {
      workflow := InitialWorkflow;
      selectedNodeId := None;
      validationErrors := [];
    }
  }
}
