/** Adjacency views of a workflow's edge list and the walks they allow.
    Every edge-list fold is defined from the end of the list, so that a loop
    that visits the edges in order extends the fold by one edge per step. */
module Graph {
  import opened Types

  /** The targets of the edges leaving `u`, in edge-list order (an outgoing list). */
  function Targets(edges: seq<WorkflowEdge>, u: Id): (ts: seq<Id>)
    ensures |ts| <= |edges|
  {
    if edges == [] then []
    else
      var last := edges[|edges| - 1];
      Targets(edges[..|edges| - 1], u) + (if last.source == u then [last.target] else [])
  }

  /** The sources of the edges entering `v`, in edge-list order (an incoming list). */
  function Sources(edges: seq<WorkflowEdge>, v: Id): (ss: seq<Id>)
    ensures |ss| <= |edges|
  {
    if edges == [] then []
    else
      var last := edges[|edges| - 1];
      Sources(edges[..|edges| - 1], v) + (if last.target == v then [last.source] else [])
  }

  /** Extending an edge-list prefix by one edge extends each list by at most that edge. */
  lemma PrefixStep(edges: seq<WorkflowEdge>, i: nat, u: Id)
    requires i < |edges|
    ensures Targets(edges[..i + 1], u) ==
              Targets(edges[..i], u) + (if edges[i].source == u then [edges[i].target] else [])
    ensures Sources(edges[..i + 1], u) ==
              Sources(edges[..i], u) + (if edges[i].target == u then [edges[i].source] else [])
  {
    assert edges[..i + 1][..i] == edges[..i];
  }

  /** The list stored under `id` in an adjacency map, or the empty list
      when there is none. */
  function ListOr(m: map<Id, seq<Id>>, id: Id): seq<Id>
  {
    if id in m then m[id] else []
  }

  lemma Associative(a: seq<Id>, b: seq<Id>, c: seq<Id>)
    ensures (a + b) + c == a + (b + c)
  {
  }

  /** Number of edges whose target is `v`. */
  function InDegree(edges: seq<WorkflowEdge>, v: Id): nat
  {
    |Sources(edges, v)|
  }

  /** Number of edges whose source is `u`. */
  function OutDegree(edges: seq<WorkflowEdge>, u: Id): nat
  {
    |Targets(edges, u)|
  }

  /** An edge u -> v is in the list iff some edge has source u and target v. */
  predicate HasEdge(edges: seq<WorkflowEdge>, u: Id, v: Id)
  {
    exists i :: 0 <= i < |edges| && edges[i].source == u && edges[i].target == v
  }

  lemma {:induction false} TargetsMember(edges: seq<WorkflowEdge>, u: Id, v: Id)
    ensures v in Targets(edges, u) <==> HasEdge(edges, u, v)
  {
    if edges != [] {
      var init := edges[..|edges| - 1];
      TargetsMember(init, u, v);
      if HasEdge(init, u, v) {
        var i :| 0 <= i < |init| && init[i].source == u && init[i].target == v;
        assert edges[i] == init[i];
      }
      if HasEdge(edges, u, v) && !HasEdge(init, u, v) {
        var i :| 0 <= i < |edges| && edges[i].source == u && edges[i].target == v;
        assert i == |init|;
      }
    }
  }

  lemma {:induction false} SourcesMember(edges: seq<WorkflowEdge>, u: Id, v: Id)
    ensures u in Sources(edges, v) <==> HasEdge(edges, u, v)
  {
    if edges != [] {
      var init := edges[..|edges| - 1];
      SourcesMember(init, u, v);
      if HasEdge(init, u, v) {
        var i :| 0 <= i < |init| && init[i].source == u && init[i].target == v;
        assert edges[i] == init[i];
      }
      if HasEdge(edges, u, v) && !HasEdge(init, u, v) {
        var i :| 0 <= i < |edges| && edges[i].source == u && edges[i].target == v;
        assert i == |init|;
      }
    }
  }

  /** A node that some edge leaves towards `v` gives `v` a positive in-degree. */
  lemma TargetHasIncoming(edges: seq<WorkflowEdge>, u: Id, v: Id)
    requires v in Targets(edges, u)
    ensures InDegree(edges, v) > 0
  {
    TargetsMember(edges, u, v);
    SourcesMember(edges, u, v);
  }

  /** The set of ids of a node list. */
  function NodeIds(nodes: seq<WorkflowNode>): (ids: set<Id>)
    ensures forall i :: 0 <= i < |nodes| ==> nodes[i].id in ids
    ensures forall v :: v in ids ==> exists i :: 0 <= i < |nodes| && nodes[i].id == v
  {
    set n | n in nodes :: n.id
  }

  /** The set of ids that some edge points at. */
  function EdgeTargets(edges: seq<WorkflowEdge>): (ts: set<Id>)
    ensures forall u, v :: v in Targets(edges, u) ==> v in ts
  {
    var ts := set e | e in edges :: e.target;
    forall u, v | v in Targets(edges, u) ensures v in ts {
      TargetsMember(edges, u, v);
    }
    ts
  }

  /** The nodes of the given type, in list order (the source's `filter`). */
  function NodesOfType(nodes: seq<WorkflowNode>, t: NodeType): (r: seq<WorkflowNode>)
    ensures |r| <= |nodes|
    ensures forall n :: n in r <==> n in nodes && n.nodeType == t
  {
    if nodes == [] then []
    else
      var last := nodes[|nodes| - 1];
      assert nodes == nodes[..|nodes| - 1] + [last];
      NodesOfType(nodes[..|nodes| - 1], t) + (if last.nodeType == t then [last] else [])
  }

  /** The first node of the given type (the source's `find`). */
  function FindOfType(nodes: seq<WorkflowNode>, t: NodeType): (r: Option<WorkflowNode>)
    ensures r.None? <==> forall n :: n in nodes ==> n.nodeType != t
    ensures r.Some? ==> r.value in nodes && r.value.nodeType == t
  {
    if nodes == [] then None
    else if nodes[0].nodeType == t then Some(nodes[0])
    else
      assert forall n :: n in nodes ==> n == nodes[0] || n in nodes[1..];
      FindOfType(nodes[1..], t)
  }

  /** The node found is the first of its type: every node before it has
      another type. */
  lemma {:induction false} FindOfTypeFirst(nodes: seq<WorkflowNode>, t: NodeType)
    ensures var r := FindOfType(nodes, t);
            r.Some? ==> exists i :: 0 <= i < |nodes| && nodes[i] == r.value &&
                          forall j :: 0 <= j < i ==> nodes[j].nodeType != t
  {
    if nodes != [] && nodes[0].nodeType != t {
      var r := FindOfType(nodes[1..], t);
      FindOfTypeFirst(nodes[1..], t);
      if r.Some? {
        var i :| 0 <= i < |nodes[1..]| && nodes[1..][i] == r.value &&
                 forall j :: 0 <= j < i ==> nodes[1..][j].nodeType != t;
        assert nodes[i + 1] == r.value;
        assert forall j :: 0 <= j < i + 1 ==> nodes[j].nodeType != t by {
          forall j | 0 <= j < i + 1 ensures nodes[j].nodeType != t {
            if j > 0 { assert nodes[j] == nodes[1..][j - 1]; }
          }
        }
      }
    }
  }

  /** When exactly one node has type `t`, the search finds that node. */
  lemma FindOnlyOfType(nodes: seq<WorkflowNode>, t: NodeType, n: WorkflowNode)
    requires |NodesOfType(nodes, t)| == 1
    requires n in nodes && n.nodeType == t
    ensures FindOfType(nodes, t) == Some(n)
  {
    var found := FindOfType(nodes, t);
    SingleMember(NodesOfType(nodes, t), n, found.value);
  }

  lemma SingleMember(xs: seq<WorkflowNode>, a: WorkflowNode, b: WorkflowNode)
    requires |xs| == 1 && a in xs && b in xs
    ensures a == b
  {
  }

  /** No id occurs twice. */
  predicate Distinct(s: seq<Id>)
  {
    forall i, j :: 0 <= i < j < |s| ==> s[i] != s[j]
  }

  /** The ids of `s` without repeats, each kept at its first occurrence. */
  function FirstOccurrences(s: seq<Id>): (r: seq<Id>)
    ensures Distinct(r)
    ensures forall k :: k in r <==> k in s
  {
    if s == [] then []
    else
      var init := FirstOccurrences(s[..|s| - 1]);
      var last := s[|s| - 1];
      assert forall k :: k in s <==> k in s[..|s| - 1] || k == last;
      if last in init then init else init + [last]
  }

  /** A list without repeats is its own first occurrences. */
  lemma {:induction false} FirstOccurrencesOfDistinct(s: seq<Id>)
    requires Distinct(s)
    ensures FirstOccurrences(s) == s
  {
    if s != [] {
      FirstOccurrencesOfDistinct(s[..|s| - 1]);
      assert s == s[..|s| - 1] + [s[|s| - 1]];
    }
  }

  /** A walk: a non-empty sequence of ids in which every step follows an edge. */
  ghost predicate IsWalk(edges: seq<WorkflowEdge>, w: seq<Id>)
  {
    |w| >= 1 && forall i :: 0 <= i < |w| - 1 ==> w[i + 1] in Targets(edges, w[i])
  }

  /** Some id occurs twice in `w`. */
  ghost predicate HasRepeat(w: seq<Id>)
  {
    exists i, j :: 0 <= i < j < |w| && w[i] == w[j]
  }

  /** A directed cycle (a self-loop included) can be reached from one of `roots`:
      some walk that starts at a root visits an id twice. */
  ghost predicate HasReachableCycle(edges: seq<WorkflowEdge>, roots: set<Id>)
  {
    exists w :: IsWalk(edges, w) && w[0] in roots && HasRepeat(w)
  }
}
