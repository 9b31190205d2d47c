/** The workflow data model: node kinds, per-kind configuration records,
    nodes, edges, workflows, validation errors and simulation results. */
module Types {

  datatype Option<+T> = None | Some(value: T)

  /** Node and edge identifiers are plain strings. */
  type Id = string

  datatype NodeType = Start | Task | Approval | Automated | End

  datatype FieldType = Text | Dropdown | Checkbox | Textarea

  datatype CustomField = CustomField(id: string, fieldLabel: string, fieldType: FieldType, required: bool)

  /** The configuration of a node, one variant per configuration record.
      Nothing ties the variant to the node's `nodeType`: the source's
      `NodeConfig` is an untagged union, so a node may carry any of them. */
  datatype NodeConfig =
    | StartConfig(title: string, description: Option<string>, tags: Option<seq<string>>)
    | TaskConfig(title: string, description: Option<string>, assignee: Option<string>,
                 dueDays: Option<real>, customFields: Option<seq<CustomField>>)
    | ApprovalConfig(title: string, approverRole: Option<string>, autoApprovalThreshold: Option<real>)
    | AutomatedConfig(stepName: string, automationType: Option<string>,
                      parameters: Option<map<string, string>>)
    | EndConfig(message: Option<string>, showSummary: Option<bool>, summaryFields: Option<seq<string>>)

  datatype Position = Position(x: real, y: real)

  datatype WorkflowNode = WorkflowNode(id: Id, nodeType: NodeType, nodeLabel: string,
                                       config: NodeConfig, position: Position)

  datatype WorkflowEdge = WorkflowEdge(id: Id, source: Id, target: Id, edgeLabel: Option<string>)

  datatype Workflow = Workflow(id: string, nodes: seq<WorkflowNode>, edges: seq<WorkflowEdge>)

  /** The error kinds `validateWorkflow` produces. */
  datatype ErrorKind =
    | MissingStart
    | MultipleStarts
    | MissingEnd
    | InvalidStartConnection
    | DisconnectedStart
    | InvalidEndConnection
    | UnconnectedNode
    | CycleDetected

  datatype ValidationError = ValidationError(kind: ErrorKind, message: string, nodeId: Option<Id>)

  datatype SimulationStatus = Success | Error

  datatype SimulationResult = SimulationResult(
    status: SimulationStatus,
    steps: seq<string>,
    warnings: Option<seq<string>>,
    errors: Option<seq<ValidationError>>)
}
