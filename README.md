# HR workflow designer: a verified model of its core

The HR workflow designer lets a user build an HR process as a directed
graph of typed steps. There are five step types: Start, Task, Approval,
Automated and End. The designer checks that the graph can be executed,
lays it out, describes it as readable steps and simulates it. This
project models the core of the designer in Dafny and proves properties of
that model:

- **Validation** (`validation.dfy`, module `Validation`): `validateWorkflow`
  and its depth-first cycle search `hasCycle`. The method `ValidateWorkflow`
  is proved equal to the ghost function `Validation`, which builds the error
  list group by group in emission order. `Validation` returns no error
  exactly for the workflows the predicate `IsExecutable` describes.
  `HasCycle` returns true exactly when a walk from a listed node repeats an
  id. Shared graph helpers live in `graph.dfy` (module `Graph`).
- **Hierarchical layout** (`layout.dfy`, modules `Layout` and
  `LayoutProperties`): `calculateHierarchicalLayout`. It builds adjacency
  lists, assigns levels with a breadth-first relaxation, groups ids by
  level, then places each node by its level and its index in the group. A
  JavaScript `Map` keeps its keys in insertion order, so the `levels` map is
  a `LevelMap` that holds the key order next to the values.
- **Readable description** (`serialization.dfy`, modules `Serialization`
  and `DescriptionProperties`): `generateReadableWorkflowDescription` and
  `generateNodeDescription`. The method `DescribeWorkflow` is proved equal to
  the function `Description`, a breadth-first walk from the first Start
  node. Lemmas show that the walk visits each id at most once. They also
  show that it visits exactly the ids reached from the Start node along a
  walk of non-empty ids in which every id but the last has a node.
- **Simulation** (`simulation.dfy`, module `Simulation`): `simulateWorkflow`,
  composed from the two methods above.
- **Store** (`store.dfy`, module `Store`): the editor's workflow store. It
  is modelled as the class `WorkflowStore`, whose methods reassign its
  fields. Each method's update is a pure function on `Workflow`, proved
  against the consistency invariant `Consistent`. That invariant says every
  edge joins two listed nodes and no two edges join the same pair.
- **Id generator** (`autoid.dfy`, module `AutoId`): `useAutoId`, modelled as
  the class `IdGenerator` with a per-prefix `counter` map. A ghost set holds
  every id handed out, and `GenerateId` is proved never to repeat one.

The data model is in `types.dfy` (module `Types`).

## Model

| member | source | states |
|---|---|---|
| Graph.TargetsMember | hr-workflow-designer/app/utils/serialization.ts:35 | an id is among the targets of `u` exactly when some edge goes from `u` to it |
| Graph.SourcesMember | hr-workflow-designer/app/utils/layout.ts:30-33 | an id is among the sources of `v` exactly when some edge goes from it to `v` |
| Graph.TargetHasIncoming | hr-workflow-designer/app/utils/validation.ts:25-28 | a target of some edge has a positive in-degree |
| Graph.NodeIds | hr-workflow-designer/app/utils/validation.ts:83-85 | the id set holds the id of every listed node and nothing else |
| Graph.NodesOfType | hr-workflow-designer/app/utils/validation.ts:7 | the filter keeps exactly the nodes of the given type and is no longer than the list |
| Graph.FindOfType | hr-workflow-designer/app/utils/serialization.ts:16 | nothing is found exactly when no node has the type; a found node is listed and has the type |
| Graph.FindOfTypeFirst | hr-workflow-designer/app/utils/serialization.ts:16 | the node found is the first of its type in list order |
| Graph.FirstOccurrences | hr-workflow-designer/app/utils/layout.ts:41-43 | the result has no repeats and holds exactly the ids of the input |
| Graph.FirstOccurrencesOfDistinct | hr-workflow-designer/app/utils/layout.ts:41-43 | a list without repeats is unchanged |
| Graph.FindOnlyOfType | hr-workflow-designer/app/utils/serialization.ts:16 | with exactly one node of a type, the search finds that node |
| Validation.StartErrors | hr-workflow-designer/app/utils/validation.ts:31-46 | the start checks emit only incoming-connection and disconnected-start errors |
| Validation.EndErrors | hr-workflow-designer/app/utils/validation.ts:49-57 | the end checks emit only invalid-end errors, and none exactly when no end node has an outgoing edge |
| Validation.UnconnectedErrors | hr-workflow-designer/app/utils/validation.ts:60-68 | one error per node that is not a Start node and has no incoming edge, every error from such a node, never more errors than nodes |
| Validation.BuildAdjacency | hr-workflow-designer/app/utils/validation.ts:79-91 | the neighbour list of every id is the targets of its edges, in edge order |
| Validation.AdjCycleIsEdgeCycle | hr-workflow-designer/app/utils/validation.ts:83-91 | a reachable cycle along the adjacency lists is exactly a reachable cycle along the edges |
| Validation.BackEdgeIsCycle | hr-workflow-designer/app/utils/validation.ts:101-102 | a neighbour already on the recursion stack closes a cycle reachable from a root |
| Validation.Dfs | hr-workflow-designer/app/utils/validation.ts:93-108 | `dfs` returns true only when a cycle is reachable; otherwise it pops its id from the stack and leaves it finished, with every finished id ranked above its successors |
| Validation.VisitNeighbors | hr-workflow-designer/app/utils/validation.ts:97-104 | the neighbour loop reports a cycle only when one exists; otherwise every neighbour has finished and the stack is unchanged |
| Validation.RankDecreasesAlongWalk | hr-workflow-designer/app/utils/validation.ts:93-108 | along a walk that starts at a finished id the finishing rank strictly decreases |
| Validation.NoCycleWhenRanked | hr-workflow-designer/app/utils/validation.ts:110-116 | when every root has finished with consistent ranks, no cycle is reachable from the roots |
| Validation.SearchEachNode | hr-workflow-designer/app/utils/validation.ts:110-116 | the outer loop returns true exactly when a cycle is reachable from a listed node |
| Validation.HasCycle | hr-workflow-designer/app/utils/validation.ts:78-117 | `hasCycle` returns true exactly when a walk from a listed node along the edges repeats an id |
| Validation.StartGuardIsIncoming | hr-workflow-designer/app/utils/validation.ts:32 | the start guard, with its precedence as written, fires exactly when the start node has an incoming edge |
| Validation.CheckCounts | hr-workflow-designer/app/utils/validation.ts:6-19 | the start-count and end-count checks emit the count errors in source order |
| Validation.CountEdges | hr-workflow-designer/app/utils/validation.ts:22-28 | the count maps hold every id's in-degree and out-degree, with no entry for a count of 0 |
| Validation.CheckStarts | hr-workflow-designer/app/utils/validation.ts:31-46 | the loop over start nodes emits exactly the start errors |
| Validation.CheckEnds | hr-workflow-designer/app/utils/validation.ts:49-57 | the loop over end nodes emits exactly the end errors |
| Validation.CheckUnconnected | hr-workflow-designer/app/utils/validation.ts:59-68 | the loop over all nodes emits exactly the unconnected-node errors |
| Validation.ValidateWorkflow | hr-workflow-designer/app/utils/validation.ts:3-76 | `validateWorkflow` returns the count, start, end, unconnected and cycle errors in that order |
| Validation.CountErrorsKinds | hr-workflow-designer/app/utils/validation.ts:7-19 | the count checks emit MISSING_START once iff there is no Start node, MULTIPLE_STARTS once iff there are several, and MISSING_END once iff there is no End node |
| Validation.StartCountErrors | hr-workflow-designer/app/utils/validation.ts:7-13 | the full list holds MISSING_START once iff there is no Start node, and MULTIPLE_STARTS once iff there are several |
| Validation.MissingEndOnce | hr-workflow-designer/app/utils/validation.ts:16-19 | the full list holds MISSING_END once iff there is no End node, otherwise not at all |
| Validation.CycleErrorOnce | hr-workflow-designer/app/utils/validation.ts:70-73 | the full list holds CYCLE_DETECTED once iff a cycle is reachable, otherwise not at all |
| Validation.StartErrorsReportIncoming | hr-workflow-designer/app/utils/validation.ts:31-38 | an incoming-connection error names an id iff it is a Start node's id with an incoming edge |
| Validation.StartErrorsReportOutgoing | hr-workflow-designer/app/utils/validation.ts:39-45 | a disconnected-start error names an id iff it is a Start node's id without an outgoing edge |
| Validation.EndErrorsReport | hr-workflow-designer/app/utils/validation.ts:49-57 | an invalid-end error names an id iff it is an End node's id with an outgoing edge |
| Validation.UnconnectedReport | hr-workflow-designer/app/utils/validation.ts:60-68 | an unconnected error names an id iff some node with that id is not a Start node and has no incoming edge |
| Validation.NodeLevelErrors | hr-workflow-designer/app/utils/validation.ts:30-68 | in the full list, each node-level error kind names exactly the ids that break its rule |
| Validation.CountErrorsEmpty | hr-workflow-designer/app/utils/validation.ts:7-19 | the count checks are silent exactly when there is one Start node and at least one End node |
| Validation.EndsEmpty | hr-workflow-designer/app/utils/validation.ts:49-57 | the end checks are silent exactly when no End node has an outgoing edge |
| Validation.UnconnectedEmpty | hr-workflow-designer/app/utils/validation.ts:60-68 | the unconnected checks are silent exactly when every node that is not a Start node has an incoming edge |
| Validation.SingleStartErrors | hr-workflow-designer/app/utils/validation.ts:31-46 | for one Start node the start checks are silent exactly when it has no incoming and some outgoing edge |
| Validation.ValidationEmptyGroups | hr-workflow-designer/app/utils/validation.ts:3-76 | the error list is empty exactly when every group of checks is silent and no cycle is reachable |
| Validation.ValidationEmptyIff | hr-workflow-designer/app/utils/validation.ts:3-76 | `validateWorkflow` returns no error exactly for executable workflows: one Start node with no incoming and some outgoing edge, End nodes present and none with an outgoing edge, every other node entered, no reachable cycle |
| Layout.EmptyLists | hr-workflow-designer/app/utils/layout.ts:25-28 | every node id, and only those, starts with empty incoming and outgoing lists |
| Layout.RecordEdges | hr-workflow-designer/app/utils/layout.ts:30-33 | after the edge loop each listed id holds its edge sources and targets in edge order; no id gains a list |
| Layout.RootIds | hr-workflow-designer/app/utils/layout.ts:36-40 | the roots are exactly the ids of nodes with an empty incoming list |
| Layout.LevelMap.Set | hr-workflow-designer/app/utils/layout.ts:58-61 | setting a level updates the value and appends a new key at the end of the key order |
| Layout.InitialLevels | hr-workflow-designer/app/utils/layout.ts:41-43 | every root, and nothing else, starts at level 0; the key order is the roots in order, each at its first occurrence |
| Layout.RelaxTarget | hr-workflow-designer/app/utils/layout.ts:53-63 | a target without a level gets the next level and is enqueued; a target with a lower level is raised but not enqueued; otherwise nothing changes |
| Layout.RelaxTargets | hr-workflow-designer/app/utils/layout.ts:53-63 | after the outgoing loop every target has at least the next level, levels never drop, only new targets are enqueued and ids off the list keep their level |
| Layout.VisitHead | hr-workflow-designer/app/utils/layout.ts:46-63 | one turn of the queue loop keeps the search invariant and either levels a new id or shortens the queue |
| Layout.QueueShift | hr-workflow-designer/app/utils/layout.ts:46-59 | taking the head off the queue and appending to it keeps the dequeued ids followed by the queue equal to everything enqueued |
| Layout.PassComplete | hr-workflow-designer/app/utils/layout.ts:46-64 | when the queue is empty every level is closed over the outgoing lists, and every id levelled after the roots has level at least 1 and a levelled, non-empty parent that lists it |
| Layout.AssignLevels | hr-workflow-designer/app/utils/layout.ts:46-64 | the pass terminates; the key order grows by exactly the enqueued ids, in enqueue order, and the ids are dequeued as the roots then those ids; every levelled id that is not a root has level at least 1 and was enqueued once by a levelled, non-empty parent that lists it; an id no list names ends at level 0 |
| Layout.Members | hr-workflow-designer/app/utils/layout.ts:66-73 | a group holds exactly the ids at its level |
| Layout.MembersDistinct | hr-workflow-designer/app/utils/layout.ts:66-73 | no id appears twice in a level group |
| Layout.GroupByLevel | hr-workflow-designer/app/utils/layout.ts:67-73 | each level's group lists that level's ids in the key order of the levels map, and no group is empty |
| Layout.IndexOf | hr-workflow-designer/app/utils/layout.ts:85 | the index is -1 iff the id is absent, and otherwise its first position |
| Layout.PlaceNode | hr-workflow-designer/app/utils/layout.ts:82-94 | placing a node changes only its position, and both coordinates are at least 0 |
| Layout.RootsNotTargets | hr-workflow-designer/app/utils/layout.ts:35-44 | every node without an incoming edge ends at level 0 |
| Layout.ClosedOverEdges | hr-workflow-designer/app/utils/layout.ts:46-64 | every target of a levelled node with a non-empty id has a level |
| Layout.DiscoveredOverEdges | hr-workflow-designer/app/utils/layout.ts:46-64 | every levelled id is a root at level 0 or has level at least 1 and is the target of a levelled node |
| Layout.RootOrder | hr-workflow-designer/app/utils/layout.ts:35 | the roots are exactly the ids of listed nodes without an incoming edge |
| Layout.RootIdsInOrder | hr-workflow-designer/app/utils/layout.ts:25-35 | the roots read off the incoming lists are the nodes without incoming edges, in node-list order |
| Layout.ComputeLevels | hr-workflow-designer/app/utils/layout.ts:21-64 | the levels satisfy the three properties above; the key order is the roots in node-list order without repeats, then the enqueued ids in enqueue order, each non-root at level 1 or more; the ids are dequeued as the roots then the enqueued ids |
| Layout.HierarchicalLayout | hr-workflow-designer/app/utils/layout.ts:12-97 | an empty list is returned as is; otherwise each node keeps everything but its position, is placed by its level and group index, and the levels and groups satisfy the properties above, and the key order, which orders each group, is the roots then the enqueued ids |
| LayoutProperties.OffsetYWhole | hr-workflow-designer/app/utils/layout.ts:88 | the unclamped row is a whole number: 150 + 120 times the index, minus 60 times one less than the group size |
| LayoutProperties.GroupCentred | hr-workflow-designer/app/utils/layout.ts:88 | mirrored positions in a group are symmetric about y = 150 |
| LayoutProperties.LevelsOrderedLeftToRight | hr-workflow-designer/app/utils/layout.ts:87 | a higher level is further right, and every column is at x of 50 or more |
| LayoutProperties.PlacedByLevel | hr-workflow-designer/app/utils/layout.ts:82-94 | a levelled node is placed at its level's column and at the clamped row of its index within its group |
| LayoutProperties.UnlevelledPlacement | hr-workflow-designer/app/utils/layout.ts:83-93 | a node the pass never levelled is placed as level 0 at index -1 of the level-0 group: x = 50 and y = max(0, 30 - 60 * (size of that group - 1)) |
| LayoutProperties.UnlevelledOverlap | hr-workflow-designer/app/utils/layout.ts:83-93 | any two never-levelled nodes land on the same position |
| LayoutProperties.SameLevelDistinctOffsets | hr-workflow-designer/app/utils/layout.ts:84-88 | two ids on the same level get different unclamped rows |
| LayoutProperties.SmallLevelSeparated | hr-workflow-designer/app/utils/layout.ts:84-92 | on a level with at most 5 ids, two different nodes get different positions even after clamping |
| LayoutProperties.SixOnALevelOverlap | hr-workflow-designer/app/utils/layout.ts:88-92 | with 6 ids on a level, clamping puts the first two at the same row y = 0 |
| Serialization.NodeDescription | hr-workflow-designer/app/utils/serialization.ts:46-61 | every line opens with its node's kind name and ": " |
| Serialization.KindRoundTrip | hr-workflow-designer/app/utils/serialization.ts:46-61 | a node's type can be read back from its line |
| Serialization.AutomatedLineFallsBack | hr-workflow-designer/app/utils/serialization.ts:54-55 | an Automated line shows the non-empty step name, and falls back to the label otherwise |
| Serialization.EndLineIgnoresLabel | hr-workflow-designer/app/utils/serialization.ts:56-57 | an End line never shows the label: it shows the non-empty message, or "Workflow completed" |
| Serialization.TitledLineFallsBack | hr-workflow-designer/app/utils/serialization.ts:48-53 | a Start, Task or Approval line shows the non-empty title, and falls back to the label otherwise |
| Serialization.IndexById | hr-workflow-designer/app/utils/serialization.ts:13 | the node map has exactly the listed ids as keys, each mapped to a listed node with that id |
| Serialization.IndexByIdLast | hr-workflow-designer/app/utils/serialization.ts:13 | with duplicate ids, the last node with an id wins |
| Serialization.Pending | hr-workflow-designer/app/utils/serialization.ts:36-40 | the pending targets are exactly the targets not yet visited |
| Serialization.PushTargets | hr-workflow-designer/app/utils/serialization.ts:35-40 | the loop appends exactly the unvisited targets, in edge order |
| Serialization.Lines | hr-workflow-designer/app/utils/serialization.ts:27-32 | there are never more lines than visited ids |
| Serialization.Description | hr-workflow-designer/app/utils/serialization.ts:16-17 | without a Start node the description is empty |
| Serialization.DescribeWorkflow | hr-workflow-designer/app/utils/serialization.ts:11-44 | the queue loop produces exactly the breadth-first description |
| DescriptionProperties.ExploreFresh | hr-workflow-designer/app/utils/serialization.ts:22-26 | the walk visits each id at most once, never an empty id and never one already visited |
| DescriptionProperties.DescribedStep | hr-workflow-designer/app/utils/serialization.ts:35-40 | a walk of non-empty ids, all but the last with a node, extends along an edge out of a node to a non-empty id |
| DescriptionProperties.ExploreReachable | hr-workflow-designer/app/utils/serialization.ts:22-40 | everything the walk visits is reached along such a walk when every non-empty queued id is |
| DescriptionProperties.ExploreClosed | hr-workflow-designer/app/utils/serialization.ts:22-40 | once the walk ends, every queued non-empty id was visited, and so was every non-empty target of a visited id that has a node |
| DescriptionProperties.WalkStaysInside | hr-workflow-designer/app/utils/serialization.ts:35-40 | a walk through non-empty ids with nodes never leaves a visited set that is closed over the edges |
| DescriptionProperties.VisitedFromStart | hr-workflow-designer/app/utils/serialization.ts:16-20 | the visit order is the walk from the first Start node's id |
| DescriptionProperties.VisitedDistinct | hr-workflow-designer/app/utils/serialization.ts:19-26 | no id is visited twice, and the empty id never is |
| DescriptionProperties.VisitedReachable | hr-workflow-designer/app/utils/serialization.ts:22-40 | every visited id is reached from the Start node along a walk of non-empty ids, all but the last with a node |
| DescriptionProperties.VisitedComplete | hr-workflow-designer/app/utils/serialization.ts:22-40 | the end of every walk from the Start node through non-empty ids, all but the last with a node, is visited |
| DescriptionProperties.VisitedExactly | hr-workflow-designer/app/utils/serialization.ts:16-40 | an id is visited exactly when such a walk from the Start node reaches it |
| DescriptionProperties.LinesCount | hr-workflow-designer/app/utils/serialization.ts:27-32 | there is one line per visited id that has a node |
| DescriptionProperties.DescriptionLength | hr-workflow-designer/app/utils/serialization.ts:11-44 | the description has one line per visited id with a node, and never more lines than nodes |
| DescriptionProperties.DescriptionStartsAtStart | hr-workflow-designer/app/utils/serialization.ts:16-32 | when the first Start node's id is non-empty, the first line describes the node stored under that id |
| DescriptionProperties.LinesPrefix | hr-workflow-designer/app/utils/serialization.ts:27-32 | the first line describes the first visited id when it has a node |
| Simulation.Outcome | hr-workflow-designer/app/api/simulation.ts:10-32 | the result is an error iff there are validation errors, with no steps or warnings; a success carries the steps, no errors and the complexity warning iff there are more than 10 nodes |
| Simulation.SimulateWorkflow | hr-workflow-designer/app/api/simulation.ts:6-33 | `simulateWorkflow` is the outcome of the validation errors and the description |
| Simulation.Report | hr-workflow-designer/app/api/simulation.ts:10-32 | after validation, the result is the outcome for those errors |
| Simulation.SimulationFailsIffInvalid | hr-workflow-designer/app/api/simulation.ts:6-33 | a simulation fails exactly when the workflow is not executable; a success has no more steps than nodes |
| Simulation.SuccessStartsAtStart | hr-workflow-designer/app/api/simulation.ts:6-19 | on an executable workflow whose Start id is non-empty, the first step describes the Start node |
| Store.WithNode | hr-workflow-designer/app/store/workflow-store.ts:36-42 | the node is appended after the unchanged nodes; id and edges stay |
| Store.UpdateNodes | hr-workflow-designer/app/store/workflow-store.ts:48 | nodes with the id are merged with the update, the others stay, in place |
| Store.KeepNodes | hr-workflow-designer/app/store/workflow-store.ts:56 | exactly the nodes with another id remain |
| Store.KeepDetached | hr-workflow-designer/app/store/workflow-store.ts:57 | exactly the edges that neither leave nor enter the id remain |
| Store.KeepOtherEdges | hr-workflow-designer/app/store/workflow-store.ts:85 | exactly the edges with another id remain |
| Store.RemoveNode | hr-workflow-designer/app/store/workflow-store.ts:52-58 | the node and every edge touching it go; nothing else does |
| Store.WithEdge | hr-workflow-designer/app/store/workflow-store.ts:67-79 | a new pair of ids is appended; an existing pair leaves the workflow unchanged |
| Store.RemoveEdge | hr-workflow-designer/app/store/workflow-store.ts:81-87 | exactly the edges with another id remain; nodes stay |
| Store.RemoveNodeConsistent | hr-workflow-designer/app/store/workflow-store.ts:52-60 | deleting a node keeps every edge attached and no pair duplicated |
| Store.RemoveEdgeConsistent | hr-workflow-designer/app/store/workflow-store.ts:81-87 | deleting an edge keeps the workflow consistent |
| Store.WithEdgeNoDuplicates | hr-workflow-designer/app/store/workflow-store.ts:69-71 | adding an edge never duplicates a pair, and adding it twice is the same as once |
| Store.WithEdgeConsistent | hr-workflow-designer/app/store/workflow-store.ts:67-79 | adding an edge between listed nodes keeps the workflow consistent |
| Store.WithNodeConsistent | hr-workflow-designer/app/store/workflow-store.ts:36-42 | adding a node keeps the workflow consistent |
| Store.AddThenDeleteNode | hr-workflow-designer/app/store/workflow-store.ts:36-60 | deleting a fresh node just added restores the workflow |
| Store.AddThenDeleteEdge | hr-workflow-designer/app/store/workflow-store.ts:67-87 | deleting a fresh edge just added restores the workflow |
| Store.UpdateIdempotent | hr-workflow-designer/app/store/workflow-store.ts:44-50 | applying the same update twice is the same as once |
| Store.UpdateKeepsIds | hr-workflow-designer/app/store/workflow-store.ts:44-50 | an update that sets no id keeps the set of node ids |
| Store.UpdateConsistent | hr-workflow-designer/app/store/workflow-store.ts:44-50 | an update that sets no id keeps the workflow consistent |
| Store.WorkflowStore.constructor | hr-workflow-designer/app/store/workflow-store.ts:25-34 | the store starts with the initial workflow, no selection and no errors |
| Store.WorkflowStore.AddNode | hr-workflow-designer/app/store/workflow-store.ts:36-42 | the workflow gains the node; selection and errors stay; consistency is kept |
| Store.WorkflowStore.UpdateNode | hr-workflow-designer/app/store/workflow-store.ts:44-50 | the nodes are updated in place; selection and errors stay; an update that sets no id keeps consistency |
| Store.WorkflowStore.DeleteNode | hr-workflow-designer/app/store/workflow-store.ts:52-60 | the node and its edges go; the selection is cleared iff it was that id; consistency is kept |
| Store.WorkflowStore.SelectNode | hr-workflow-designer/app/store/workflow-store.ts:62-65 | only the selection changes |
| Store.WorkflowStore.AddEdge | hr-workflow-designer/app/store/workflow-store.ts:67-79 | the edge is added unless its pair is already joined; an edge between listed nodes keeps consistency |
| Store.WorkflowStore.DeleteEdge | hr-workflow-designer/app/store/workflow-store.ts:81-87 | the edges with that id go; consistency is kept |
| Store.WorkflowStore.SetWorkflow | hr-workflow-designer/app/store/workflow-store.ts:89-92 | only the workflow changes |
| Store.WorkflowStore.SetValidationErrors | hr-workflow-designer/app/store/workflow-store.ts:94-97 | only the error list changes |
| Store.WorkflowStore.ResetWorkflow | hr-workflow-designer/app/store/workflow-store.ts:99-104 | the store returns to its initial state, which is consistent |
| AutoId.Decimal | hr-workflow-designer/app/hooks/use-auto-id.ts:6 | a count prints as a non-empty string of decimal digits, one digit exactly below 10 |
| AutoId.DecimalInjective | hr-workflow-designer/app/hooks/use-auto-id.ts:6 | different counts print differently |
| AutoId.LastDash | hr-workflow-designer/app/hooks/use-auto-id.ts:6 | the dash after the prefix is the last dash of an id |
| AutoId.FormatInjective | hr-workflow-designer/app/hooks/use-auto-id.ts:4-7 | an id determines its prefix and its count |
| AutoId.IdGenerator.constructor | hr-workflow-designer/app/hooks/use-auto-id.ts:1-2 | a new generator has no counters and has issued nothing |
| AutoId.IdGenerator.GenerateId | hr-workflow-designer/app/hooks/use-auto-id.ts:4-7 | the prefix's counter goes up by one; the id is the prefix, a dash and the new count, and it was never issued before |

## Left out

- `calculateForceDirectedLayout` (layout.ts): it is an iterative simulation on floating-point numbers, outside this model.
- `serializeWorkflow` and `deserializeWorkflow` (serialization.ts): JSON printing and parsing are left out.
- The import check in `use-export-import.ts` and `getNodeColor` and `getNodeTextColor` (validation.ts): file I/O and styling only.
- React components, templates, the automation catalogue, the promise around `simulateWorkflow` and its timers are left out. `SimulateWorkflow` returns its result directly.
- JavaScript numbers: positions are `real`s and levels and counts are unbounded integers. No float rounding or overflow is modelled.
- Serialization.NodeDescription: the `default` branch, which returns the label, is unreachable because `NodeType` has exactly five values. `node.config?.…` never meets a missing config, because `config` is required in `WorkflowNode`.
- Store.UpdateNodes: a `Partial<WorkflowNode>` is a record of optional fields. A key present with the value `undefined`, which would overwrite a field with `undefined`, is not modelled.
- AutoId.IdGenerator.GenerateId: the counter is a map in which every prefix is an ordinary key. In the source it is a plain object, whose `Object.prototype` names behave differently. With the prefix `"__proto__"` the lookup yields `Object.prototype` and the assignment is ignored, so every call returns `"__proto__-[object Object]"` and ids repeat. With `"constructor"`, `"toString"` and the other inherited names, the first id is the prefix, a dash and the inherited function's text followed by `1` (for example `"constructor-function Object() { [native code] }1"`). The never-issued guarantee holds only for prefixes that name no `Object.prototype` member.
- AutoId.IdGenerator: each call of `useAutoId` creates a fresh counter. The model is one generator, the closure that one call returns.
- Layout.HierarchicalLayout: the `nodeMap` copy at layout.ts:19 is never read, so it is not modelled.
- Layout.AssignLevels: an id raised to a higher level is not enqueued again, so its successors are not raised after it. The model therefore does not claim that every edge climbs at least one level. It proves that every target of a levelled node has a level, and that every id levelled after the roots has level at least 1 and a levelled, non-empty parent that lists it; it does not claim the id sits above that parent (with edges S→A, A→B, B→C, S→C and C→D, D ends at level 2 below C at level 3).
- Layout.GroupByLevel: ids within a level are in the order they were first levelled, not in node-list order. The model follows the code.
- Validation.StartGuardAsWritten: with JavaScript precedence, the start guard at validation.ts:32 reads the incoming count or `false`. That is truthy exactly when the start node has an incoming edge, so the rule does fire. The model follows the code and proves this equivalence in `Validation.StartGuardIsIncoming`.
- LayoutProperties.SameLevelDistinctOffsets: rows are distinct before clamping. With six or more ids on a level, clamping at 0 can make rows coincide (`LayoutProperties.SixOnALevelOverlap`). Distinct positions are proved only for at most five ids per level (`LayoutProperties.SmallLevelSeparated`).
