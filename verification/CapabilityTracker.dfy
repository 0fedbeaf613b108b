/** Governed calls: every call of a governed capability is checked against the envelope and recorded. */
module CapabilityTracker {
  import opened Collections
  import opened Authorization

  datatype DenialClass = NoDenial | UndeclaredUse | Denied | AdmittedUnavailable | AuthorizationDrift

  datatype Observed = Blocked | Failure | Success

  datatype Record = Record(
    capability: string,
    declared: bool,
    admitted: bool,
    observed: Observed,
    sideEffect: bool,
    denial: DenialClass,
    errorCode: string)

  /** What a provider does when it is run. `ok` is the result's `ok` attribute, if it has one. */
  datatype Behaviour = Returns(ok: Option<bool>, sideEffect: bool) | Raises(errorType: string)

  /** A call of the tracker. A wrapper without a delegate passes no operation. */
  datatype Call = Call(capability: string, operation: Option<Behaviour>)

  /** Unless the call is refused, its operation was run. */
  datatype Reply = Refused(code: string) | Failed(errorType: string) | Returned

  /** Why a call is refused, in the order the tracker checks. */
  function Denial(e: Envelope, call: Call): (r: DenialClass) {
    if call.capability !in e.declared then UndeclaredUse
    else if call.capability !in e.admitted then Denied
    else if call.operation.None? then AdmittedUnavailable
    else NoDenial
  }

  function DenialText(d: DenialClass): (r: string) {
    match d
    case UndeclaredUse => "undeclared_use"
    case Denied => "denied"
    case AdmittedUnavailable => "admitted_unavailable"
    case AuthorizationDrift => "authorization_drift"
    case NoDenial => ""
  }

  function DenialCode(d: DenialClass): (r: string) {
    match d
    case UndeclaredUse => "E_SDK_CAPABILITY_UNDECLARED_USE"
    case Denied => "E_SDK_CAPABILITY_DENIED"
    case AdmittedUnavailable => "E_SDK_CAPABILITY_UNAVAILABLE"
    case AuthorizationDrift => "E_SDK_CAPABILITY_AUTHORIZATION_DRIFT"
    case NoDenial => ""
  }

  function BlockedRecord(e: Envelope, capability: string, d: DenialClass): (r: Record) {
    Record(capability, capability in e.declared, capability in e.admitted, Blocked, false, d, DenialCode(d))
  }

  function RecordOf(e: Envelope, call: Call): (r: Record) {
    var d := Denial(e, call);
    if d != NoDenial then BlockedRecord(e, call.capability, d)
    else
      match call.operation.value
      case Raises(t) => Record(call.capability, true, true, Failure, false, NoDenial, t)
      case Returns(ok, effect) =>
        Record(call.capability, true, true, if ok == Some(false) then Failure else Success, effect, NoDenial, "")
  }

  /** Why a call is refused: exactly one cause each, and none is left out. */
  lemma DenialCauses(e: Envelope, call: Call)
    ensures Denial(e, call) == UndeclaredUse <==> call.capability !in e.declared
    ensures Denial(e, call) == Denied <==> call.capability in e.declared && call.capability !in e.admitted
    ensures Denial(e, call) == AdmittedUnavailable <==>
            call.capability in e.declared && call.capability in e.admitted && call.operation.None?
    ensures Denial(e, call) == NoDenial <==>
            call.capability in e.declared && call.capability in e.admitted && call.operation.Some?
  {
  }

  /** What a record says of its call: blocked exactly when it was refused; otherwise how the operation went. */
  lemma RecordMeaning(e: Envelope, call: Call)
    ensures var r := RecordOf(e, call);
            var ran := call.capability in e.declared && call.capability in e.admitted && call.operation.Some?;
            && r.capability == call.capability
            && (r.declared <==> call.capability in e.declared) && (r.admitted <==> call.capability in e.admitted)
            && (r.observed == Blocked <==> !ran)
            && (r.observed == Success <==> ran && call.operation.value.Returns? && call.operation.value.ok != Some(false))
            && (r.sideEffect <==> ran && call.operation.value.Returns? && call.operation.value.sideEffect)
            && (ran && call.operation.value.Raises? ==> r.errorCode == call.operation.value.errorType)
            && (ran && call.operation.value.Returns? ==> r.errorCode == "")
            && (call.capability !in e.declared ==> r.errorCode == "E_SDK_CAPABILITY_UNDECLARED_USE")
            && (call.capability in e.declared && call.capability !in e.admitted ==> r.errorCode == "E_SDK_CAPABILITY_DENIED")
            && (call.capability in e.declared && call.capability in e.admitted && call.operation.None? ==>
                  r.errorCode == "E_SDK_CAPABILITY_UNAVAILABLE")
  {
  }

  class SdkCapabilityTracker {
    const envelope: Envelope
    var usedCapabilities: set<string>
    var callRecords: seq<Record>

    constructor (e: Envelope)
      ensures envelope == e && usedCapabilities == {} && callRecords == []
    {
      envelope := e;
      usedCapabilities, callRecords := {}, [];
    }

    /** One governed call: one record, one used capability, and the operation is run exactly when nothing denies it. */
    method Invoke(call: Call) returns (reply: Reply)
      modifies this
      ensures callRecords == old(callRecords) + [RecordOf(envelope, call)]
      ensures usedCapabilities == old(usedCapabilities) + {call.capability}
      ensures reply.Refused? <==> Denial(envelope, call) != NoDenial
      ensures reply.Refused? ==> reply.code == DenialCode(Denial(envelope, call))
      ensures reply.Failed? <==> Denial(envelope, call) == NoDenial && call.operation.value.Raises?
      ensures reply.Failed? ==> reply.errorType == call.operation.value.errorType
    {
      var declared := call.capability in envelope.declared;
      var admitted := call.capability in envelope.admitted;
      usedCapabilities := usedCapabilities + {call.capability};
      if !declared {
        reply := Block(call.capability, UndeclaredUse);
        return;
      }
      if !admitted {
        reply := Block(call.capability, Denied);
        return;
      }
      match call.operation {
        case None =>
          reply := Block(call.capability, AdmittedUnavailable);
        case Some(Raises(errorType)) =>
          callRecords := callRecords + [Record(call.capability, declared, admitted, Failure, false, NoDenial, errorType)];
          reply := Failed(errorType);
        case Some(Returns(ok, effect)) =>
          var observed := if ok == Some(false) then Failure else Success;
          callRecords := callRecords + [Record(call.capability, declared, admitted, observed, effect, NoDenial, "")];
          reply := Returned;
      }
    }

    method Block(capability: string, denial: DenialClass) returns (reply: Reply)
      modifies this`callRecords
      ensures callRecords == old(callRecords) + [BlockedRecord(envelope, capability, denial)]
      ensures reply == Refused(DenialCode(denial))
    {
      callRecords := callRecords + [BlockedRecord(envelope, capability, denial)];
      reply := Refused(DenialCode(denial));
    }
  }
}
