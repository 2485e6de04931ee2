/** Values shared by the firewall, rollback and audit components. */
module Common {
  datatype Option<+T> = None | Some(value: T)

  datatype Result<+T, +E> = Success(value: T) | Failure(error: E)

  /** Identifier of a firewall rule. */
  datatype RuleId = RuleId(text: string)

  /** What the firewall backend answers to a removal. */
  datatype BackendAnswer = Removed | NotFound | Refused
  {
    /** The rule is certainly no longer installed. */
    predicate Confirms() { Removed? || NotFound? }
  }

  datatype BackendCall = BackendCall(ruleId: RuleId, answer: BackendAnswer)

  /** The firewall backend: it may answer anything, and every removal it is asked for is recorded. */
  class Backend {
    var calls: seq<BackendCall>

    constructor ()
      ensures calls == []
    {
      calls := [];
    }

    method RemoveRule(ruleId: RuleId) returns (answer: BackendAnswer)
      modifies this
      ensures calls == old(calls) + [BackendCall(ruleId, answer)]
    {
      answer := *;
      calls := calls + [BackendCall(ruleId, answer)];
    }
  }
}
