/** The mock simulation (`simulateWorkflow`): validate first, and describe
    the steps only when validation found nothing. */
module Simulation {
  import opened Types
  import opened Graph
  import opened Validation
  import opened Serialization
  import opened DescriptionProperties

  const ComplexWarning: string := "This is a complex workflow with many steps. Consider breaking it down."

  /** Above this many nodes a successful simulation warns. */
  const ComplexThreshold: nat := 10

  /** The result `simulateWorkflow` resolves to, given the validation errors
      and the readable steps of the workflow. An error result carries no
      `warnings` field; a success result carries an empty `errors` list. */
  function Outcome(errors: seq<ValidationError>, steps: seq<string>, nodeCount: nat): (r: SimulationResult)
    ensures r.status == Error <==> errors != []
    ensures r.status == Error ==> r.steps == [] && r.warnings == None && r.errors == Some(errors)
    ensures r.status == Success ==> r.steps == steps && r.errors == Some([]) && r.warnings.Some?
    ensures r.status == Success ==> (r.warnings.value != [] <==> nodeCount > 10)
    ensures r.status == Success ==> forall m :: m in r.warnings.value ==> m == ComplexWarning
    ensures r.warnings.Some? ==> |r.warnings.value| <= 1
  {
    if |errors| > 0 then SimulationResult(Error, [], None, Some(errors))
    else
      var warnings := if nodeCount > ComplexThreshold then [ComplexWarning] else [];
      SimulationResult(Success, steps, Some(warnings), Some([]))
  }

  /** `simulateWorkflow(workflow)`, without the promise around it. */
  method SimulateWorkflow(wf: Workflow) returns (result: SimulationResult)
    ensures result == Outcome(Validation.Validation(wf), Description(wf), |wf.nodes|)
  {
    var validationErrors := ValidateWorkflow(wf);
    result := Report(wf, validationErrors);
  }

  /** The part of `simulateWorkflow` after validation: an error result, or
      the readable steps with the complexity warning. */
  method Report(wf: Workflow, validationErrors: seq<ValidationError>) returns (result: SimulationResult)
    ensures result == Outcome(validationErrors, Description(wf), |wf.nodes|)
  {
    if |validationErrors| > 0 {
      return SimulationResult(Error, [], None, Some(validationErrors));
    }
    var steps := DescribeWorkflow(wf);
    var warnings: seq<string> := [];
    if |wf.nodes| > ComplexThreshold {
      warnings := warnings + [ComplexWarning];
    }
    assert validationErrors == [];
    assert warnings == if |wf.nodes| > ComplexThreshold then [ComplexWarning] else [];
    result := SimulationResult(Success, steps, Some(warnings), Some([]));
  }

  /** A simulation fails exactly when the workflow is not executable: then it
      reports every validation error and no steps; otherwise it reports the
      readable steps, never more than there are nodes. */
  lemma SimulationFailsIffInvalid(wf: Workflow)
    ensures var r := Outcome(Validation.Validation(wf), Description(wf), |wf.nodes|);
            (r.status == Error <==> !IsExecutable(wf))
            && (r.status == Success ==> |r.steps| <= |wf.nodes|)
  {
    ValidationEmptyIff(wf);
    DescriptionLength(wf);
  }

  /** A successful simulation starts from the only Start node: when its id is
      non-empty the first step describes it. */
  lemma SuccessStartsAtStart(wf: Workflow, s: WorkflowNode)
    requires IsExecutable(wf)
    requires s in wf.nodes && s.nodeType == Start && s.id != ""
    ensures var r := Outcome(Validation.Validation(wf), Description(wf), |wf.nodes|);
            r.steps != [] && r.steps[0] == NodeDescription(IndexById(wf.nodes)[s.id])
  {
    ValidationEmptyIff(wf);
    FindOnlyOfType(wf.nodes, Start, s);
    DescriptionStartsAtStart(wf, s);
  }
}
