/** The hierarchical auto-layout (`calculateHierarchicalLayout`): in-degree-0
    nodes are level 0, a breadth-first pass raises the levels of the nodes
    they lead to, and every node is placed by its level and by its index
    among the ids of that level. */
module Layout {
  import opened Types
  import opened Graph

  const HorizontalSpacing: int := 250
  const VerticalSpacing: int := 120
  const StartX: int := 50
  const StartY: int := 150

  /** Every node id starts with an empty incoming and an empty outgoing list. */
  method EmptyLists(nodes: seq<WorkflowNode>) returns (incoming: map<Id, seq<Id>>, outgoing: map<Id, seq<Id>>)
    ensures forall v :: v in incoming <==> v in NodeIds(nodes)
    ensures forall u :: u in outgoing <==> u in NodeIds(nodes)
    ensures forall v :: v in incoming ==> incoming[v] == []
    ensures forall u :: u in outgoing ==> outgoing[u] == []
  {
    incoming := map[];
    outgoing := map[];
    for i := 0 to |nodes|
      invariant forall v :: v in incoming <==> v in NodeIds(nodes[..i])
      invariant forall u :: u in outgoing <==> u in NodeIds(nodes[..i])
      invariant forall v :: v in incoming ==> incoming[v] == []
      invariant forall u :: u in outgoing ==> outgoing[u] == []
    {
      assert forall v :: v in NodeIds(nodes[..i + 1]) <==> v in NodeIds(nodes[..i]) || v == nodes[i].id by {
        assert nodes[..i + 1] == nodes[..i] + [nodes[i]];
      }
      incoming := incoming[nodes[i].id := []];
      outgoing := outgoing[nodes[i].id := []];
    }
    assert nodes[..|nodes|] == nodes;
  }

  /** Each edge appends its source to its target's incoming list and its
      target to its source's outgoing list; an edge is recorded only under an
      id that already has a list. */
  method RecordEdges(edges: seq<WorkflowEdge>, incoming0: map<Id, seq<Id>>, outgoing0: map<Id, seq<Id>>)
    returns (incoming: map<Id, seq<Id>>, outgoing: map<Id, seq<Id>>)
    requires forall v :: v in incoming0 ==> incoming0[v] == []
    requires forall u :: u in outgoing0 ==> outgoing0[u] == []
    ensures incoming.Keys == incoming0.Keys && outgoing.Keys == outgoing0.Keys
    ensures forall v :: v in incoming ==> incoming[v] == Sources(edges, v)
    ensures forall u :: u in outgoing ==> outgoing[u] == Targets(edges, u)
  {
    incoming := incoming0;
    outgoing := outgoing0;
    for i := 0 to |edges|
      invariant incoming.Keys == incoming0.Keys && outgoing.Keys == outgoing0.Keys
      invariant forall v :: v in incoming ==> incoming[v] == Sources(edges[..i], v)
      invariant forall u :: u in outgoing ==> outgoing[u] == Targets(edges[..i], u)
    {
      var edge := edges[i];
      if edge.target in incoming {
        incoming := incoming[edge.target := incoming[edge.target] + [edge.source]];
      }
      if edge.source in outgoing {
        outgoing := outgoing[edge.source := outgoing[edge.source] + [edge.target]];
      }
      forall v | v in incoming ensures incoming[v] == Sources(edges[..i + 1], v) {
        PrefixStep(edges, i, v);
      }
      forall u | u in outgoing ensures outgoing[u] == Targets(edges[..i + 1], u) {
        PrefixStep(edges, i, u);
      }
    }
    assert edges[..|edges|] == edges;
  }

  /** The root ids: the ids of the nodes whose incoming list is
      empty, in node-list order (a repeated id is repeated). */
  function RootIds(nodes: seq<WorkflowNode>, incoming: map<Id, seq<Id>>): (r: seq<Id>)
    ensures forall id :: id in r <==> exists n :: n in nodes && n.id == id && |ListOr(incoming, id)| == 0
  {
    if nodes == [] then []
    else
      var last := nodes[|nodes| - 1];
      assert nodes == nodes[..|nodes| - 1] + [last];
      RootIds(nodes[..|nodes| - 1], incoming) + (if |ListOr(incoming, last.id)| == 0 then [last.id] else [])
  }

  /** The `levels` map: a JavaScript `Map` remembers the order in which its
      keys were first set, so it is modelled as that order plus the values. */
  datatype LevelMap = LevelMap(order: seq<Id>, levels: map<Id, nat>)
  {
    ghost predicate Valid()
    {
      Distinct(order) && forall k :: k in levels <==> k in order
    }

    /** Sets the level of `id`: a new key goes to the end of the order. */
    function Set(id: Id, v: nat): (m: LevelMap)
      requires Valid()
      ensures m.Valid()
      ensures m.levels == levels[id := v]
      ensures m.order == if id in levels then order else order + [id]
    {
      if id in levels then LevelMap(order, levels[id := v]) else LevelMap(order + [id], levels[id := v])
    }
  }

  /** `outgoingEdges` lists `v` under some id. */
  ghost predicate IsTarget(outgoing: map<Id, seq<Id>>, v: Id)
  {
    exists u :: u in outgoing && v in outgoing[u]
  }

  /** Every root id gets level 0, in root order: a repeated root keeps the
      place of its first occurrence. */
  method InitialLevels(roots: seq<Id>) returns (lm: LevelMap)
    ensures lm.Valid()
    ensures lm.order == FirstOccurrences(roots)
    ensures forall k :: k in lm.levels <==> k in roots
    ensures forall k :: k in lm.levels ==> lm.levels[k] == 0
  {
    lm := LevelMap([], map[]);
    for i := 0 to |roots|
      invariant lm.Valid()
      invariant lm.order == FirstOccurrences(roots[..i])
      invariant forall k :: k in lm.levels <==> k in roots[..i]
      invariant forall k :: k in lm.levels ==> lm.levels[k] == 0
    {
      assert roots[..i + 1] == roots[..i] + [roots[i]];
      assert roots[..i + 1][..i] == roots[..i];
      lm := lm.Set(roots[i], 0);
    }
    assert roots[..|roots|] == roots;
  }

  /** The relaxation of one target of the current id. */
  method RelaxTarget(lm: LevelMap, queue: seq<Id>, targetId: Id, newLevel: nat)
    returns (lm': LevelMap, queue': seq<Id>)
    requires lm.Valid()
    ensures lm'.Valid()
    ensures targetId !in lm.levels ==> queue' == queue + [targetId] && lm'.order == lm.order + [targetId]
    ensures targetId in lm.levels ==> queue' == queue && lm'.order == lm.order
    ensures lm'.levels == if targetId !in lm.levels || newLevel > lm.levels[targetId]
                          then lm.levels[targetId := newLevel] else lm.levels
  {
    var targetLevel: int := if targetId in lm.levels then lm.levels[targetId] else -1;
    lm' := lm;
    queue' := queue;
    if targetLevel == -1 {
      lm' := lm.Set(targetId, newLevel);
      queue' := queue + [targetId];
    } else if newLevel > targetLevel {
      lm' := lm.Set(targetId, newLevel);
    }
  }

  /** The facts the relaxation of the targets in `done` establishes. */
  ghost predicate RelaxedSoFar(lm: LevelMap, queue: seq<Id>, done: seq<Id>, current: nat,
                               lm': LevelMap, queue': seq<Id>, added: seq<Id>)
  {
    lm'.Valid()
    && queue' == queue + added && lm'.order == lm.order + added
    && (forall k :: k in added ==> k in done && k !in lm.levels)
    && (forall k :: k in lm'.levels <==> k in lm.levels || k in added)
    && (forall k :: k in lm.levels ==> lm'.levels[k] >= lm.levels[k])
    && (forall k :: k in lm'.levels && k !in done ==> k in lm.levels && lm'.levels[k] == lm.levels[k])
    && (forall t :: t in done ==> t in lm'.levels && lm'.levels[t] >= current + 1)
  }

  lemma RelaxStep(lm: LevelMap, queue: seq<Id>, done: seq<Id>, current: nat,
                  lm1: LevelMap, queue1: seq<Id>, added: seq<Id>, t: Id, lm2: LevelMap, queue2: seq<Id>)
    returns (added2: seq<Id>)
    requires RelaxedSoFar(lm, queue, done, current, lm1, queue1, added)
    requires lm2.Valid()
    requires t !in lm1.levels ==> queue2 == queue1 + [t] && lm2.order == lm1.order + [t]
    requires t in lm1.levels ==> queue2 == queue1 && lm2.order == lm1.order
    requires lm2.levels == if t !in lm1.levels || current + 1 > lm1.levels[t]
                           then lm1.levels[t := current + 1] else lm1.levels
    ensures added2 == if t !in lm1.levels then added + [t] else added
    ensures queue2 == queue + added2 && lm2.order == lm.order + added2
    ensures forall k :: k in added2 ==> k in done + [t] && k !in lm.levels
    ensures forall k :: k in lm2.levels <==> k in lm.levels || k in added2
    ensures forall k :: k in lm.levels ==> lm2.levels[k] >= lm.levels[k]
    ensures forall k :: k in lm2.levels && k !in done + [t] ==> k in lm.levels && lm2.levels[k] == lm.levels[k]
    ensures forall u :: u in done + [t] ==> u in lm2.levels && lm2.levels[u] >= current + 1
  {
    added2 := if t !in lm1.levels then added + [t] else added;
    if t !in lm1.levels {
      Associative(queue, added, [t]);
      Associative(lm.order, added, [t]);
    }
    assert forall k :: k in added2 ==> k in added || k == t;
  }

  /** The relaxation step of the breadth-first pass, over the outgoing list: an id without a
      level gets `current + 1` and is enqueued; an id with a smaller level is
      raised to `current + 1` without being enqueued again. */
  method RelaxTargets(lm: LevelMap, queue: seq<Id>, targets: seq<Id>, current: nat)
    returns (lm': LevelMap, queue': seq<Id>, ghost added: seq<Id>)
    requires lm.Valid()
    ensures lm'.Valid()
    ensures queue' == queue + added && lm'.order == lm.order + added
    ensures forall k :: k in added ==> k in targets && k !in lm.levels
    ensures forall k :: k in lm'.levels <==> k in lm.levels || k in added
    ensures forall k :: k in lm.levels ==> lm'.levels[k] >= lm.levels[k]
    ensures forall k :: k in lm'.levels && k !in targets ==> k in lm.levels && lm'.levels[k] == lm.levels[k]
    ensures forall t :: t in targets ==> t in lm'.levels && lm'.levels[t] >= current + 1
  {
    lm' := lm;
    queue' := queue;
    added := [];
    assert queue + [] == queue && lm.order + [] == lm.order;
    for i := 0 to |targets|
      invariant RelaxedSoFar(lm, queue, targets[..i], current, lm', queue', added)
    {
      var targetId := targets[i];
      assert targets[..i + 1] == targets[..i] + [targetId];
      ghost var lm1, queue1 := lm', queue';
      lm', queue' := RelaxTarget(lm', queue', targetId, current + 1);
      added := RelaxStep(lm, queue, targets[..i], current, lm1, queue1, added, targetId, lm', queue');
    }
    assert targets[..|targets|] == targets;
  }

  /** The keys a level map gained: `added` follows the old order and its ids are exactly the new keys. */
  lemma OrderGrowth(lm0: LevelMap, lm: LevelMap, added: seq<Id>)
    requires lm0.Valid() && lm.Valid() && lm.order == lm0.order + added
    ensures Distinct(added)
    ensures forall k :: k in added <==> k in lm.levels && k !in lm0.levels
  {
    forall i, j | 0 <= i < j < |added| ensures added[i] != added[j] {
      assert lm.order[|lm0.order| + i] == added[i] && lm.order[|lm0.order| + j] == added[j];
    }
    forall k | k in added ensures k !in lm0.levels {
      var i :| 0 <= i < |added| && added[i] == k;
      assert lm.order[|lm0.order| + i] == k;
      forall j | 0 <= j < |lm0.order| ensures lm0.order[j] != k {
        assert lm.order[j] == lm0.order[j];
      }
    }
  }

  // The invariant of the breadth-first pass, one predicate per fact.

  /** Every id an outgoing list names is in `all`. */
  ghost predicate TargetsWithin(outgoing: map<Id, seq<Id>>, all: set<Id>)
  {
    forall u, v :: u in outgoing && v in outgoing[u] ==> v in all
  }

  ghost predicate KeysWithin(lm: LevelMap, all: set<Id>)
  {
    forall k :: k in lm.levels ==> k in all
  }

  /** Every levelled id has been dequeued or is still queued, and only levelled ids are. */
  ghost predicate Scheduled(lm: LevelMap, queue: seq<Id>, processed: set<Id>)
  {
    (forall k :: k in lm.levels ==> k in processed || k in queue)
    && (forall k :: k in processed ==> k in lm.levels)
    && (forall k :: k in queue ==> k in lm.levels)
  }

  /** An id levelled by the pass has a level of at least 1. */
  ghost predicate Raised(lm0: LevelMap, lm: LevelMap)
  {
    forall k :: k in lm.levels && k !in lm0.levels ==> lm.levels[k] >= 1
  }

  /** An id levelled by the pass was listed by a dequeued non-empty id, its parent. */
  ghost predicate Discovered(lm0: LevelMap, lm: LevelMap, outgoing: map<Id, seq<Id>>,
                             parent: map<Id, Id>, processed: set<Id>)
  {
    forall k :: k in lm.levels && k !in lm0.levels ==>
      k in parent && parent[k] in processed && parent[k] != "" && k in ListOr(outgoing, parent[k])
  }

  /** Everything a dequeued non-empty id lists has a level. */
  ghost predicate Closed(lm: LevelMap, outgoing: map<Id, seq<Id>>, processed: set<Id>)
  {
    forall u, v :: u in processed && u != "" && v in ListOr(outgoing, u) ==> v in lm.levels
  }

  /** An id that no outgoing list names keeps level 0. */
  ghost predicate UntargetedAtZero(lm: LevelMap, outgoing: map<Id, seq<Id>>)
  {
    forall v :: v in lm.levels && !IsTarget(outgoing, v) ==> lm.levels[v] == 0
  }

  ghost predicate BfsState(lm0: LevelMap, outgoing: map<Id, seq<Id>>, all: set<Id>, lm: LevelMap,
                           queue: seq<Id>, parent: map<Id, Id>, processed: set<Id>)
  {
    KeysWithin(lm, all) && Scheduled(lm, queue, processed) && Raised(lm0, lm)
    && Discovered(lm0, lm, outgoing, parent, processed) && Closed(lm, outgoing, processed)
    && UntargetedAtZero(lm, outgoing)
  }

  lemma KeepScheduled(lm: LevelMap, lm': LevelMap, queue: seq<Id>, added: seq<Id>, processed: set<Id>)
    requires queue != [] && Scheduled(lm, queue, processed)
    requires forall k :: k in lm'.levels <==> k in lm.levels || k in added
    ensures Scheduled(lm', queue[1..] + added, processed + {queue[0]})
  {
    assert forall k :: k in queue ==> k == queue[0] || k in queue[1..];
  }

  lemma KeepDiscovered(lm0: LevelMap, lm: LevelMap, lm': LevelMap, outgoing: map<Id, seq<Id>>,
                       parent: map<Id, Id>, processed: set<Id>, x: Id, added: seq<Id>)
    requires Discovered(lm0, lm, outgoing, parent, processed) && x != ""
    requires forall k :: k in lm'.levels <==> k in lm.levels || k in added
    requires forall k :: k in added ==> k in ListOr(outgoing, x) && k !in lm.levels
    ensures Discovered(lm0, lm', outgoing, parent + map k | k in added :: x, processed + {x})
  {
    var parent' := parent + map k | k in added :: x;
    forall k | k in lm'.levels && k !in lm0.levels
      ensures k in parent' && parent'[k] in processed + {x} && parent'[k] != "" && k in ListOr(outgoing, parent'[k])
    {
      if k in added {
        assert parent'[k] == x;
      } else {
        assert parent'[k] == parent[k];
      }
    }
  }

  lemma KeepUntargeted(lm: LevelMap, lm': LevelMap, outgoing: map<Id, seq<Id>>, x: Id, added: seq<Id>)
    requires UntargetedAtZero(lm, outgoing)
    requires forall k :: k in lm'.levels && k !in ListOr(outgoing, x) ==> k in lm.levels && lm'.levels[k] == lm.levels[k]
    ensures UntargetedAtZero(lm', outgoing)
  {
    forall v | v in lm'.levels && !IsTarget(outgoing, v) ensures lm'.levels[v] == 0 {
      assert x in outgoing ==> v !in outgoing[x];
    }
  }

  /** Relaxing either adds no key or adds at least one new key. */
  lemma KeysGrowth(before: LevelMap, after: LevelMap, added: seq<Id>)
    requires forall k :: k in after.levels <==> k in before.levels || k in added
    requires forall k :: k in added ==> k !in before.levels
    ensures added == [] ==> after.levels.Keys == before.levels.Keys
    ensures added != [] ==> added[0] !in before.levels
  {
  }

  lemma KeepClosed(lm: LevelMap, lm': LevelMap, outgoing: map<Id, seq<Id>>, processed: set<Id>, x: Id)
    requires Closed(lm, outgoing, processed)
    requires forall k :: k in lm.levels ==> k in lm'.levels
    requires forall t :: t in ListOr(outgoing, x) ==> t in lm'.levels
    ensures Closed(lm', outgoing, processed + {x})
  {
  }

  lemma KeepRaised(lm0: LevelMap, lm: LevelMap, lm': LevelMap, outgoing: map<Id, seq<Id>>, x: Id, current: nat)
    requires Raised(lm0, lm)
    requires forall k :: k in lm.levels ==> k in lm'.levels && lm'.levels[k] >= lm.levels[k]
    requires forall t :: t in ListOr(outgoing, x) ==> t in lm'.levels && lm'.levels[t] >= current + 1
    requires forall k :: k in lm'.levels && k !in ListOr(outgoing, x) ==> k in lm.levels
    ensures Raised(lm0, lm')
  {
  }

  lemma KeepWithin(lm: LevelMap, lm': LevelMap, outgoing: map<Id, seq<Id>>, all: set<Id>, x: Id, added: seq<Id>)
    requires KeysWithin(lm, all)
    requires TargetsWithin(outgoing, all)
    requires forall k :: k in lm'.levels <==> k in lm.levels || k in added
    requires forall k :: k in added ==> k in ListOr(outgoing, x)
    ensures KeysWithin(lm', all) && lm.levels.Keys <= lm'.levels.Keys <= all
  {
  }

  /** One turn of the queue loop: the head id is dequeued, then, when it is
      non-empty, comes the relaxation of its outgoing list. */
  method VisitHead(outgoing: map<Id, seq<Id>>, lm: LevelMap, queue: seq<Id>, ghost lm0: LevelMap,
                   ghost all: set<Id>, ghost parent: map<Id, Id>, ghost processed: set<Id>)
    returns (lm': LevelMap, queue': seq<Id>, ghost added: seq<Id>, ghost parent': map<Id, Id>,
             ghost processed': set<Id>)
    requires queue != [] && lm.Valid()
    requires TargetsWithin(outgoing, all)
    requires BfsState(lm0, outgoing, all, lm, queue, parent, processed)
    ensures lm'.Valid() && lm'.order == lm.order + added && queue' == queue[1..] + added
    ensures BfsState(lm0, outgoing, all, lm', queue', parent', processed')
    ensures Progress(all, lm, queue, lm', queue')
  {
    var nodeId := queue[0];
    processed' := processed + {nodeId};
    if nodeId == "" {
      lm', queue', added, parent' := lm, queue[1..], [], parent;
      KeepScheduled(lm, lm', queue, added, processed);
      assert queue[1..] + [] == queue[1..];
      return;
    }
    var currentLevel := if nodeId in lm.levels then lm.levels[nodeId] else 0;
    var outgoingIds := ListOr(outgoing, nodeId);
    lm', queue', added := RelaxTargets(lm, queue[1..], outgoingIds, currentLevel);
    parent' := parent + map k | k in added :: nodeId;
    KeepScheduled(lm, lm', queue, added, processed);
    KeepDiscovered(lm0, lm, lm', outgoing, parent, processed, nodeId, added);
    KeepUntargeted(lm, lm', outgoing, nodeId, added);
    KeepClosed(lm, lm', outgoing, processed, nodeId);
    KeepRaised(lm0, lm, lm', outgoing, nodeId, currentLevel);
    KeepWithin(lm, lm', outgoing, all, nodeId, added);
    KeysGrowth(lm, lm', added);
    if added != [] {
      assert added[0] in lm'.levels.Keys - lm.levels.Keys;
    }
  }

  /** Each step of the pass levels a new id, or keeps the levelled ids and shortens the queue. */
  ghost predicate Progress(all: set<Id>, lm: LevelMap, queue: seq<Id>, lm': LevelMap, queue': seq<Id>)
  {
    all - lm'.levels.Keys < all - lm.levels.Keys
    || (all - lm'.levels.Keys == all - lm.levels.Keys && |queue'| < |queue|)
  }

  /** Moving the head of the queue to the dequeued ids and appending to the
      queue keeps dequeued ids followed by the queue equal to everything enqueued. */
  lemma QueueShift(dequeued: seq<Id>, queue: seq<Id>, enqueued: seq<Id>, added: seq<Id>)
    requires queue != [] && dequeued + queue == enqueued
    ensures (dequeued + [queue[0]]) + (queue[1..] + added) == enqueued + added
  {
    assert queue == [queue[0]] + queue[1..];
  }

  /** What the invariant says once the queue is empty. */
  lemma PassComplete(roots: seq<Id>, lm0: LevelMap, outgoing: map<Id, seq<Id>>, all: set<Id>, lm: LevelMap,
                     pushed: seq<Id>, parent: map<Id, Id>, processed: set<Id>)
    requires lm0.Valid() && forall k :: k in lm0.levels <==> k in roots
    requires lm.Valid() && lm.order == lm0.order + pushed
    requires BfsState(lm0, outgoing, all, lm, [], parent, processed)
    ensures Distinct(pushed)
    ensures forall k :: k in pushed <==> k in lm.levels && k !in roots
    ensures forall k :: k in pushed ==> lm.levels[k] >= 1
    ensures forall k :: k in pushed ==>
              k in parent && parent[k] in lm.levels && parent[k] != "" && k in ListOr(outgoing, parent[k])
    ensures forall u, v :: u in lm.levels && u != "" && v in ListOr(outgoing, u) ==> v in lm.levels
    ensures forall v :: v in lm.levels && !IsTarget(outgoing, v) ==> lm.levels[v] == 0
  {
    OrderGrowth(lm0, lm, pushed);
  }

  /** The breadth-first pass: `queue` starts as the root ids, an empty id is
      skipped, and every other dequeued id relaxes its outgoing list.
      `pushed` is every id the pass enqueues, in order, `dequeued` every id
      it takes off the queue, in order, and `parent[k]` the id whose
      outgoing list enqueued `k`. */
  method AssignLevels(roots: seq<Id>, lm0: LevelMap, outgoing: map<Id, seq<Id>>, ghost all: set<Id>)
    returns (lm: LevelMap, ghost pushed: seq<Id>, ghost dequeued: seq<Id>, ghost parent: map<Id, Id>)
    requires lm0.Valid()
    requires forall k :: k in lm0.levels <==> k in roots
    requires forall k :: k in lm0.levels ==> lm0.levels[k] == 0
    requires forall r :: r in roots ==> r in all
    requires TargetsWithin(outgoing, all)
    ensures lm.Valid() && lm.order == lm0.order + pushed && Distinct(pushed)
    ensures dequeued == roots + pushed
    ensures forall k :: k in pushed <==> k in lm.levels && k !in roots
    ensures forall k :: k in pushed ==> lm.levels[k] >= 1
    ensures forall k :: k in pushed ==>
              k in parent && parent[k] in lm.levels && parent[k] != "" && k in ListOr(outgoing, parent[k])
    ensures forall u, v :: u in lm.levels && u != "" && v in ListOr(outgoing, u) ==> v in lm.levels
    ensures forall v :: v in lm.levels && !IsTarget(outgoing, v) ==> lm.levels[v] == 0
  {
    lm := lm0;
    var queue := roots;
    pushed := [];
    dequeued := [];
    parent := map[];
    ghost var processed: set<Id> := {};
    while queue != []
      invariant lm.Valid() && lm.order == lm0.order + pushed
      invariant dequeued + queue == roots + pushed
      invariant BfsState(lm0, outgoing, all, lm, queue, parent, processed)
      decreases all - lm.levels.Keys, |queue|
    {
      ghost var added;
      ghost var head := queue[0];
      ghost var before := queue;
      lm, queue, added, parent, processed := VisitHead(outgoing, lm, queue, lm0, all, parent, processed);
      Associative(lm0.order, pushed, added);
      QueueShift(dequeued, before, roots + pushed, added);
      dequeued := dequeued + [head];
      Associative(roots, pushed, added);
      pushed := pushed + added;
    }
    assert dequeued + [] == dequeued;
    PassComplete(roots, lm0, outgoing, all, lm, pushed, parent, processed);
  }

  // ---------------------------------------------------------------------
  // Level groups and positions.
  // ---------------------------------------------------------------------

  /** The ids of `order` whose level is `l`, in order. */
  function Members(order: seq<Id>, levels: map<Id, nat>, l: nat): (r: seq<Id>)
    requires forall k :: k in order ==> k in levels
    ensures forall k :: k in r <==> k in order && levels[k] == l
  {
    if order == [] then []
    else
      var init := order[..|order| - 1];
      var last := order[|order| - 1];
      assert order == init + [last];
      Members(init, levels, l) + (if levels[last] == l then [last] else [])
  }

  lemma {:induction false} MembersDistinct(order: seq<Id>, levels: map<Id, nat>, l: nat)
    requires forall k :: k in order ==> k in levels
    requires Distinct(order)
    ensures Distinct(Members(order, levels, l))
    decreases |order|
  {
    if order != [] {
      var init := order[..|order| - 1];
      var last := order[|order| - 1];
      assert forall k :: k in init ==> k in order;
      MembersDistinct(init, levels, l);
      assert last !in init by {
        forall j | 0 <= j < |init| ensures init[j] != last {
          assert init[j] == order[j];
        }
      }
    }
  }

  /** The group of level `l`, or the empty list when there is none. */
  function GroupOr(groups: map<nat, seq<Id>>, l: nat): seq<Id>
  {
    if l in groups then groups[l] else []
  }

  /** The groups built from the ids of `order` so far. */
  ghost predicate GroupsOf(groups: map<nat, seq<Id>>, order: seq<Id>, levels: map<Id, nat>)
    requires forall k :: k in order ==> k in levels
  {
    (forall l :: GroupOr(groups, l) == Members(order, levels, l))
    && (forall l :: l in groups ==> groups[l] != [])
  }

  lemma GroupsStep(groups: map<nat, seq<Id>>, order: seq<Id>, levels: map<Id, nat>, i: nat)
    requires i < |order|
    requires forall k :: k in order ==> k in levels
    requires GroupsOf(groups, order[..i], levels)
    ensures var level := levels[order[i]];
            GroupsOf(groups[level := GroupOr(groups, level) + [order[i]]], order[..i + 1], levels)
  {
    var grown := order[..i + 1];
    var level := levels[order[i]];
    var groups' := groups[level := GroupOr(groups, level) + [order[i]]];
    assert grown[..i] == order[..i];
    assert grown[i] == order[i];
    forall l ensures GroupOr(groups', l) == Members(grown, levels, l) {
      assert Members(grown, levels, l)
          == Members(order[..i], levels, l) + (if levels[order[i]] == l then [order[i]] else []);
    }
  }

  /** Groups the ids by level, in the order of the level map: each id is
      appended to its level's group, which is created the first time its
      level is met. */
  method GroupByLevel(lm: LevelMap) returns (groups: map<nat, seq<Id>>)
    requires lm.Valid()
    ensures forall l :: GroupOr(groups, l) == Members(lm.order, lm.levels, l)
    ensures forall l :: l in groups ==> groups[l] != []
  {
    groups := map[];
    for i := 0 to |lm.order|
      invariant GroupsOf(groups, lm.order[..i], lm.levels)
    {
      var nodeId := lm.order[i];
      var level := lm.levels[nodeId];
      GroupsStep(groups, lm.order, lm.levels, i);
      var group := if level in groups then groups[level] else [];
      groups := groups[level := group + [nodeId]];
    }
    assert lm.order[..|lm.order|] == lm.order;
  }

  /** `indexOf`: the first position of `x` in `s`, or -1. */
  function IndexOf(s: seq<Id>, x: Id): (i: int)
    ensures -1 <= i < |s|
    ensures i == -1 <==> x !in s
    ensures i >= 0 ==> s[i] == x && forall j :: 0 <= j < i ==> s[j] != x
  {
    if s == [] then -1
    else if s[0] == x then 0
    else
      var i := IndexOf(s[1..], x);
      assert forall j :: 1 <= j < |s| ==> s[j] == s[1..][j - 1];
      if i == -1 then -1 else i + 1
  }

  /** A coordinate clamped from below at 0. */
  function Clamp(v: real): real
  {
    if v < 0.0 then 0.0 else v
  }

  /** The column of a level: 250 apart, starting at 50. */
  function LevelX(level: nat): real
  {
    (StartX + level * HorizontalSpacing) as real
  }

  /** The row of the `index`-th of `size` ids on a level: 120 apart,
      centred on 150. */
  function OffsetY(index: int, size: nat): real
  {
    StartY as real + (index as real - (size as real - 1.0) / 2.0) * VerticalSpacing as real
  }

  /** The layout of one node: a node without a level is placed as level 0
      with index -1 in the level-0 group. */
  function PlaceNode(node: WorkflowNode, lm: LevelMap, groups: map<nat, seq<Id>>): (r: WorkflowNode)
    ensures r == node.(position := r.position)
    ensures r.position.x >= 0.0 && r.position.y >= 0.0
  {
    var level := if node.id in lm.levels then lm.levels[node.id] else 0;
    var nodesInLevel := GroupOr(groups, level);
    var indexInLevel := IndexOf(nodesInLevel, node.id);
    node.(position := Position(Clamp(LevelX(level)), Clamp(OffsetY(indexInLevel, |nodesInLevel|))))
  }

  // ---------------------------------------------------------------------
  // What the levels mean, stated over the edge list.
  // ---------------------------------------------------------------------

  /** A listed node without incoming edges is a root: it sits at level 0. */
  ghost predicate RootsAtZero(nodes: seq<WorkflowNode>, edges: seq<WorkflowEdge>, lm: LevelMap)
  {
    forall n :: n in nodes && InDegree(edges, n.id) == 0 ==> n.id in lm.levels && lm.levels[n.id] == 0
  }

  /** Every target of a levelled, listed, non-empty id has a level, so every
      node reachable from a root has one. */
  ghost predicate LevelsClosed(nodes: seq<WorkflowNode>, edges: seq<WorkflowEdge>, lm: LevelMap)
  {
    forall u, v :: u in lm.levels && u != "" && u in NodeIds(nodes) && v in Targets(edges, u) ==> v in lm.levels
  }

  /** A levelled id is a root at level 0, or sits at level 1 or more and is
      the target of a levelled, listed, non-empty id. */
  ghost predicate LevelsDiscovered(nodes: seq<WorkflowNode>, edges: seq<WorkflowEdge>, lm: LevelMap)
  {
    forall k :: k in lm.levels ==>
      (k in NodeIds(nodes) && InDegree(edges, k) == 0 && lm.levels[k] == 0)
      || (lm.levels[k] >= 1 && exists p :: p in lm.levels && p != "" && p in NodeIds(nodes) && k in Targets(edges, p))
  }

  /** The ids of the listed nodes without incoming edges, in node-list order. */
  function RootOrder(nodes: seq<WorkflowNode>, edges: seq<WorkflowEdge>): (r: seq<Id>)
    ensures forall id :: id in r <==> exists n :: n in nodes && n.id == id && InDegree(edges, id) == 0
  {
    if nodes == [] then []
    else
      var last := nodes[|nodes| - 1];
      assert nodes == nodes[..|nodes| - 1] + [last];
      RootOrder(nodes[..|nodes| - 1], edges) + (if InDegree(edges, last.id) == 0 then [last.id] else [])
  }

  /** Built from lists that hold each listed node's sources, the root ids are
      the listed nodes without incoming edges, in the same order. */
  lemma {:induction false} RootIdsInOrder(nodes: seq<WorkflowNode>, edges: seq<WorkflowEdge>,
                                          incoming: map<Id, seq<Id>>)
    requires forall n :: n in nodes ==> n.id in incoming
    requires forall v :: v in incoming ==> incoming[v] == Sources(edges, v)
    ensures RootIds(nodes, incoming) == RootOrder(nodes, edges)
  {
    if nodes != [] {
      var last := nodes[|nodes| - 1];
      assert last in nodes;
      RootIdsInOrder(nodes[..|nodes| - 1], edges, incoming);
    }
  }

  /** The order in which `levels` received its keys: the roots in node-list
      order without repeats, then the ids the breadth-first pass enqueued, in
      the order it enqueued them; each of those sits at level 1 or more and
      is no root. */
  ghost predicate KeyOrder(nodes: seq<WorkflowNode>, edges: seq<WorkflowEdge>, lm: LevelMap, pushed: seq<Id>)
  {
    lm.order == FirstOccurrences(RootOrder(nodes, edges)) + pushed
    && (forall k :: k in pushed <==> k in lm.levels && k !in RootOrder(nodes, edges))
    && (forall k :: k in pushed ==> lm.levels[k] >= 1)
  }

  /** Each level group lists that level's ids in the order they were first levelled. */
  ghost predicate GroupsByLevel(lm: LevelMap, groups: map<nat, seq<Id>>)
  {
    lm.Valid() && forall l :: GroupOr(groups, l) == Members(lm.order, lm.levels, l)
  }

  ghost predicate LayoutLevels(nodes: seq<WorkflowNode>, edges: seq<WorkflowEdge>, lm: LevelMap,
                               groups: map<nat, seq<Id>>)
  {
    RootsAtZero(nodes, edges, lm) && LevelsClosed(nodes, edges, lm)
    && LevelsDiscovered(nodes, edges, lm) && GroupsByLevel(lm, groups)
  }

  /** The adjacency lists hold exactly the edges between listed ids' sources. */
  ghost predicate ListsEdges(nodes: seq<WorkflowNode>, edges: seq<WorkflowEdge>,
                             incoming: map<Id, seq<Id>>, outgoing: map<Id, seq<Id>>)
  {
    (forall v :: v in incoming <==> v in NodeIds(nodes))
    && (forall u :: u in outgoing <==> u in NodeIds(nodes))
    && (forall v :: v in incoming ==> incoming[v] == Sources(edges, v))
    && (forall u :: u in outgoing ==> outgoing[u] == Targets(edges, u))
  }

  lemma RootsNotTargets(nodes: seq<WorkflowNode>, edges: seq<WorkflowEdge>,
                        incoming: map<Id, seq<Id>>, outgoing: map<Id, seq<Id>>, roots: seq<Id>, lm: LevelMap)
    requires ListsEdges(nodes, edges, incoming, outgoing)
    requires forall id :: id in roots <==> exists n :: n in nodes && n.id == id && |ListOr(incoming, id)| == 0
    requires forall k :: k in roots ==> k in lm.levels
    requires forall v :: v in lm.levels && !IsTarget(outgoing, v) ==> lm.levels[v] == 0
    ensures RootsAtZero(nodes, edges, lm)
  {
    forall n | n in nodes && InDegree(edges, n.id) == 0
      ensures n.id in lm.levels && lm.levels[n.id] == 0
    {
      assert n.id in roots;
      if IsTarget(outgoing, n.id) {
        var u :| u in outgoing && n.id in outgoing[u];
        TargetHasIncoming(edges, u, n.id);
        assert false;
      }
    }
  }

  lemma ClosedOverEdges(nodes: seq<WorkflowNode>, edges: seq<WorkflowEdge>,
                        incoming: map<Id, seq<Id>>, outgoing: map<Id, seq<Id>>, lm: LevelMap)
    requires ListsEdges(nodes, edges, incoming, outgoing)
    requires forall u, v :: u in lm.levels && u != "" && v in ListOr(outgoing, u) ==> v in lm.levels
    ensures LevelsClosed(nodes, edges, lm)
  {
    forall u, v | u in lm.levels && u != "" && u in NodeIds(nodes) && v in Targets(edges, u)
      ensures v in lm.levels
    {
      assert v in ListOr(outgoing, u);
    }
  }

  lemma DiscoveredOverEdges(nodes: seq<WorkflowNode>, edges: seq<WorkflowEdge>,
                            incoming: map<Id, seq<Id>>, outgoing: map<Id, seq<Id>>, roots: seq<Id>,
                            lm: LevelMap, pushed: seq<Id>, parent: map<Id, Id>)
    requires ListsEdges(nodes, edges, incoming, outgoing)
    requires forall id :: id in roots <==> exists n :: n in nodes && n.id == id && |ListOr(incoming, id)| == 0
    requires RootsAtZero(nodes, edges, lm)
    requires forall k :: k in pushed <==> k in lm.levels && k !in roots
    requires forall k :: k in pushed ==> lm.levels[k] >= 1
    requires forall k :: k in pushed ==>
               k in parent && parent[k] in lm.levels && parent[k] != "" && k in ListOr(outgoing, parent[k])
    ensures LevelsDiscovered(nodes, edges, lm)
  {
    forall k | k in lm.levels
      ensures (k in NodeIds(nodes) && InDegree(edges, k) == 0 && lm.levels[k] == 0)
              || (lm.levels[k] >= 1 && exists p :: p in lm.levels && p != "" && p in NodeIds(nodes) && k in Targets(edges, p))
    {
      if k in roots {
        var n :| n in nodes && n.id == k && |ListOr(incoming, k)| == 0;
        assert InDegree(edges, k) == 0;
      } else {
        var p := parent[k];
        assert p in outgoing;
        assert k in Targets(edges, p);
      }
    }
  }

  /** The first half of `calculateHierarchicalLayout`: the adjacency lists,
      the roots and the breadth-first level assignment. */
  method ComputeLevels(nodes: seq<WorkflowNode>, edges: seq<WorkflowEdge>)
    returns (lm: LevelMap, ghost pushed: seq<Id>, ghost dequeued: seq<Id>)
    ensures lm.Valid()
    ensures RootsAtZero(nodes, edges, lm) && LevelsClosed(nodes, edges, lm) && LevelsDiscovered(nodes, edges, lm)
    ensures KeyOrder(nodes, edges, lm, pushed)
    ensures dequeued == RootOrder(nodes, edges) + pushed
  {
    var incoming, outgoing := EmptyLists(nodes);
    incoming, outgoing := RecordEdges(edges, incoming, outgoing);
    assert ListsEdges(nodes, edges, incoming, outgoing);
    var startIds := RootIds(nodes, incoming);
    ghost var all := NodeIds(nodes) + EdgeTargets(edges);
    RootIdsInOrder(nodes, edges, incoming);
    var lm0 := InitialLevels(startIds);
    ghost var parent;
    lm, pushed, dequeued, parent := AssignLevels(startIds, lm0, outgoing, all);
    RootsNotTargets(nodes, edges, incoming, outgoing, startIds, lm);
    ClosedOverEdges(nodes, edges, incoming, outgoing, lm);
    DiscoveredOverEdges(nodes, edges, incoming, outgoing, startIds, lm, pushed, parent);
  }

  /** `calculateHierarchicalLayout(nodes, edges)`. The extra results are the
      final `levels` map, `levelGroups`, and the ids the breadth-first pass
      enqueued, in order. */
  method HierarchicalLayout(nodes: seq<WorkflowNode>, edges: seq<WorkflowEdge>)
    returns (result: seq<WorkflowNode>, lm: LevelMap, groups: map<nat, seq<Id>>, ghost pushed: seq<Id>)
    ensures nodes == [] ==> result == nodes
    ensures |result| == |nodes|
    ensures forall i :: 0 <= i < |nodes| ==> result[i] == nodes[i].(position := result[i].position)
    ensures forall i :: 0 <= i < |nodes| ==> result[i].position.x >= 0.0 && result[i].position.y >= 0.0
    ensures nodes != [] ==> forall i :: 0 <= i < |nodes| ==> result[i] == PlaceNode(nodes[i], lm, groups)
    ensures nodes != [] ==> LayoutLevels(nodes, edges, lm, groups)
    ensures nodes != [] ==> KeyOrder(nodes, edges, lm, pushed)
  {
    lm := LevelMap([], map[]);
    groups := map[];
    pushed := [];
    if |nodes| == 0 {
      return nodes, lm, groups, pushed;
    }
    ghost var dequeued;
    lm, pushed, dequeued := ComputeLevels(nodes, edges);
    groups := GroupByLevel(lm);
    assert LayoutLevels(nodes, edges, lm, groups) && KeyOrder(nodes, edges, lm, pushed);
    result := seq(|nodes|, i requires 0 <= i < |nodes| => PlaceNode(nodes[i], lm, groups));
  }
}

module LayoutProperties {
  import opened Types
  import opened Graph
  import opened Layout

  /** The vertical offset is a whole number: the centring term `(n - 1) / 2`
      times the spacing of 120 is always 60 * (n - 1). */
  lemma OffsetYWhole(index: int, size: nat)
    ensures OffsetY(index, size) == (150 + 120 * index - 60 * (size - 1)) as real
  {
    calc {
      OffsetY(index, size);
      150.0 + (index as real - (size as real - 1.0) / 2.0) * 120.0;
      150.0 + 120.0 * index as real - 60.0 * (size as real - 1.0);
    }
  }

  /** The ids of one level are centred on y = 150: the i-th from the top and
      the i-th from the bottom are symmetric about it. */
  lemma GroupCentred(i: int, size: nat)
    ensures OffsetY(i, size) + OffsetY(size - 1 - i, size) == 300.0
  {
    OffsetYWhole(i, size);
    OffsetYWhole(size - 1 - i, size);
  }

  /** Deeper levels lie strictly further right. */
  lemma LevelsOrderedLeftToRight(a: nat, b: nat)
    ensures a < b <==> LevelX(a) < LevelX(b)
    ensures LevelX(a) >= 50.0
  {
  }

  /** A levelled node is placed at x = 50 + 250 * level, and at the y of its
      position among the ids of its level. */
  lemma PlacedByLevel(node: WorkflowNode, lm: LevelMap, groups: map<nat, seq<Id>>)
    requires GroupsByLevel(lm, groups)
    requires node.id in lm.levels
    ensures var group := Members(lm.order, lm.levels, lm.levels[node.id]);
            var k := IndexOf(group, node.id);
            0 <= k < |group|
            && PlaceNode(node, lm, groups).position
               == Position((50 + 250 * lm.levels[node.id]) as real,
                           Clamp((150 + 120 * k - 60 * (|group| - 1)) as real))
  {
    var group := Members(lm.order, lm.levels, lm.levels[node.id]);
    OffsetYWhole(IndexOf(group, node.id), |group|);
  }

  /** A node the pass never levelled is placed as level 0 at index -1 of the
      level-0 group: in the first column, one row above that group's first row. */
  lemma UnlevelledPlacement(node: WorkflowNode, lm: LevelMap, groups: map<nat, seq<Id>>)
    requires GroupsByLevel(lm, groups)
    requires node.id !in lm.levels
    ensures PlaceNode(node, lm, groups).position
            == Position(50.0, Clamp((30 - 60 * (|GroupOr(groups, 0)| - 1)) as real))
  {
    var group := GroupOr(groups, 0);
    assert node.id !in group;
    OffsetYWhole(-1, |group|);
  }

  /** Two nodes the pass never levelled land on the same position. */
  lemma UnlevelledOverlap(a: WorkflowNode, b: WorkflowNode, lm: LevelMap, groups: map<nat, seq<Id>>)
    requires GroupsByLevel(lm, groups)
    requires a.id !in lm.levels && b.id !in lm.levels
    ensures PlaceNode(a, lm, groups).position == PlaceNode(b, lm, groups).position
  {
    UnlevelledPlacement(a, lm, groups);
    UnlevelledPlacement(b, lm, groups);
  }

  /** Two different ids on one level get different offsets before clamping. */
  lemma SameLevelDistinctOffsets(lm: LevelMap, groups: map<nat, seq<Id>>, a: WorkflowNode, b: WorkflowNode)
    requires GroupsByLevel(lm, groups)
    requires a.id in lm.levels && b.id in lm.levels && a.id != b.id
    requires lm.levels[a.id] == lm.levels[b.id]
    ensures var group := Members(lm.order, lm.levels, lm.levels[a.id]);
            OffsetY(IndexOf(group, a.id), |group|) != OffsetY(IndexOf(group, b.id), |group|)
  {
    var group := Members(lm.order, lm.levels, lm.levels[a.id]);
    OffsetYWhole(IndexOf(group, a.id), |group|);
    OffsetYWhole(IndexOf(group, b.id), |group|);
  }

  /** With at most five ids on a level, clamping at 0 keeps them apart. */
  lemma SmallLevelSeparated(lm: LevelMap, groups: map<nat, seq<Id>>, a: WorkflowNode, b: WorkflowNode)
    requires GroupsByLevel(lm, groups)
    requires a.id in lm.levels && b.id in lm.levels && a.id != b.id
    requires lm.levels[a.id] == lm.levels[b.id]
    requires |Members(lm.order, lm.levels, lm.levels[a.id])| <= 5
    ensures PlaceNode(a, lm, groups).position != PlaceNode(b, lm, groups).position
  {
    var group := Members(lm.order, lm.levels, lm.levels[a.id]);
    var ka, kb := IndexOf(group, a.id), IndexOf(group, b.id);
    PlacedByLevel(a, lm, groups);
    PlacedByLevel(b, lm, groups);
    ClampKeepsApart(ka, kb, |group|);
  }

  lemma ClampKeepsApart(ka: int, kb: int, size: nat)
    requires 0 <= ka < size && 0 <= kb < size && ka != kb && size <= 5
    ensures Clamp((150 + 120 * ka - 60 * (size - 1)) as real) != Clamp((150 + 120 * kb - 60 * (size - 1)) as real)
  {
    var ya, yb := 150 + 120 * ka - 60 * (size - 1), 150 + 120 * kb - 60 * (size - 1);
    assert ya != yb;
    assert ya > 0 || yb > 0;
  }

  /** With six ids on a level the first two both clamp to y = 0 and overlap. */
  lemma SixOnALevelOverlap()
    ensures Clamp(OffsetY(0, 6)) == Clamp(OffsetY(1, 6)) == 0.0
  {
    OffsetYWhole(0, 6);
    OffsetYWhole(1, 6);
  }
}
