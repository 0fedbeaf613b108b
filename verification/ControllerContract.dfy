/** The controller workload contract: caps, error codes, the guards on a child, and the run summary's validator. */
module ControllerContract {
  import opened Collections

  datatype WorkloadId = WorkloadId(text: string)

  const DEFAULT_MAX_DEPTH: nat := 1
  const DEFAULT_MAX_FANOUT: nat := 5
  const DEFAULT_CHILD_TIMEOUT_SECONDS: nat := 900

  datatype ErrorCode =
    | EnvelopeInvalid | ChildSdkRequired | MaxDepthExceeded | MaxFanoutExceeded | ChildTimeoutInvalid
    | RecursionDenied | CycleDenied | ChildExecutionFailed | ObservabilityEmitFailed | DisabledByPolicy

  function CodeText(code: ErrorCode): (r: string)
    ensures r != ""
  {
    match code
    case EnvelopeInvalid => "controller.envelope_invalid"
    case ChildSdkRequired => "controller.child_sdk_required"
    case MaxDepthExceeded => "controller.max_depth_exceeded"
    case MaxFanoutExceeded => "controller.max_fanout_exceeded"
    case ChildTimeoutInvalid => "controller.child_timeout_invalid"
    case RecursionDenied => "controller.recursion_denied"
    case CycleDenied => "controller.cycle_denied"
    case ChildExecutionFailed => "controller.child_execution_failed"
    case ObservabilityEmitFailed => "controller.observability_emit_failed"
    case DisabledByPolicy => "controller.disabled_by_policy"
  }

  /** Codes for which a run that completed no child counts as blocked. */
  predicate Blocks(code: ErrorCode) {
    code != ChildExecutionFailed && code != ObservabilityEmitFailed
  }

  predicate Contains(text: string, part: string) {
    part <= text || (text != "" && Contains(text[1..], part))
  }

  /** The part stands somewhere in the text. */
  lemma {:induction false} ContainsMeaning(text: string, part: string)
    ensures Contains(text, part) <==> exists i :: 0 <= i <= |text| && part <= text[i..]
  {
    if part <= text {
      assert text[0..] == text;
    } else if text != "" {
      ContainsMeaning(text[1..], part);
      if i :| 0 <= i <= |text[1..]| && part <= text[1..][i..] {
        assert text[i + 1..] == text[1..][i..];
      }
      if i :| 0 <= i <= |text| && part <= text[i..] {
        assert i > 0 by { assert text[0..] == text; }
        assert text[1..][i - 1..] == text[i..];
      }
    }
  }

  /**
   The first known code, in the order the process iterates its set of codes, that the text
   contains. The order is not fixed by the program, so it is an input.
   */
  function NormalizeError(text: string, order: seq<ErrorCode>): (code: ErrorCode)
    ensures Contains(text, CodeText(code)) || code == ChildExecutionFailed
    ensures (exists c :: c in order && Contains(text, CodeText(c))) ==> Contains(text, CodeText(code))
  {
    if order == [] then ChildExecutionFailed
    else if Contains(text, CodeText(order[0])) then order[0]
    else NormalizeError(text, order[1..])
  }

  /** An order in which a process may iterate its set of codes: every known code once. */
  ghost predicate Iterates(order: seq<ErrorCode>, known: set<ErrorCode>) {
    NoRepeats(order) && Elements(order) == known
  }

  ghost predicate Names(text: string, known: set<ErrorCode>, c: ErrorCode) {
    c in known && Contains(text, CodeText(c))
  }

  ghost predicate NamesAtMostOne(text: string, known: set<ErrorCode>) {
    forall c, d :: Names(text, known, c) && Names(text, known, d) ==> c == d
  }

  ghost predicate OrderIsIrrelevant(text: string, known: set<ErrorCode>) {
    forall o, o' :: Iterates(o, known) && Iterates(o', known) ==> NormalizeError(text, o) == NormalizeError(text, o')
  }

  /** A code that some text names comes out when it is iterated first. */
  lemma FirstNamedWins(text: string, known: set<ErrorCode>, c: ErrorCode) returns (order: seq<ErrorCode>)
    requires Names(text, known, c)
    ensures Iterates(order, known) && NormalizeError(text, order) == c
  {
    var rest := Listing(known - {c});
    assert forall x :: x in rest ==> x in Elements(rest);
    order := [c] + rest;
    assert Elements(order) == {c} + Elements(rest);
  }

  /** All iteration orders give the same code exactly when the text names at most one of the known codes. */
  lemma NormalizeIsFixedIffOneName(text: string, known: set<ErrorCode>)
    ensures OrderIsIrrelevant(text, known) <==> NamesAtMostOne(text, known)
  {
    if NamesAtMostOne(text, known) {
      forall o, o' | Iterates(o, known) && Iterates(o', known) ensures NormalizeError(text, o) == NormalizeError(text, o') {
        NormalizePicks(text, o);
        NormalizePicks(text, o');
        assert forall c :: c in known <==> c in o;
        assert forall c :: c in known <==> c in o';
        assert forall c :: c in o && Contains(text, CodeText(c)) ==> Names(text, known, c);
        assert forall c :: c in o' && Contains(text, CodeText(c)) ==> Names(text, known, c);
      }
    } else {
      var c, d :| Names(text, known, c) && Names(text, known, d) && c != d;
      var o := FirstNamedWins(text, known, c);
      var o' := FirstNamedWins(text, known, d);
    }
  }

  /** The first code in iteration order that the text contains is the result. */
  lemma {:induction false} FirstMatchWins(text: string, order: seq<ErrorCode>, i: nat)
    requires i < |order| && Contains(text, CodeText(order[i]))
    requires forall j :: 0 <= j < i ==> !Contains(text, CodeText(order[j]))
    ensures NormalizeError(text, order) == order[i]
  {
    if i > 0 {
      FirstMatchWins(text, order[1..], i - 1);
    }
  }

  /** The result is a code the text contains, or else the execution failure, and then it contains none. */
  lemma {:induction false} NormalizePicks(text: string, order: seq<ErrorCode>)
    ensures var code := NormalizeError(text, order);
            || (code in order && Contains(text, CodeText(code)))
            || (code == ChildExecutionFailed && forall c :: c in order ==> !Contains(text, CodeText(c)))
  {
    if order != [] && !Contains(text, CodeText(order[0])) {
      NormalizePicks(text, order[1..]);
    }
  }

  // ----- Caps -----

  datatype Caps = Caps(maxDepth: Option<nat>, maxFanout: Option<nat>, childTimeoutSeconds: Option<nat>)

  /** What the model's field constraints leave: fanout and timeout, when given, are at least 1. */
  ghost predicate ValidCaps(c: Caps) {
    (c.maxFanout.Some? ==> c.maxFanout.value >= 1) && (c.childTimeoutSeconds.Some? ==> c.childTimeoutSeconds.value >= 1)
  }

  /** `value or default`: a zero counts as missing. */
  function OrDefault(x: Option<nat>, d: nat): (n: nat) {
    if x.Some? && x.value != 0 then x.value else d
  }

  function Min(a: nat, b: nat): (r: nat) {
    if a <= b then a else b
  }

  /** What the caller asked for, or the policy's value where it did not ask. */
  function Requested(asked: Option<nat>, policy: Option<nat>, d: nat): (n: nat) {
    if asked.Some? then asked.value else OrDefault(policy, d)
  }

  function Enforced(asked: Option<nat>, policy: Option<nat>, d: nat): (n: nat) {
    Min(OrDefault(Some(Requested(asked, policy, d)), d), OrDefault(policy, d))
  }

  datatype ResolvedCaps = ResolvedCaps(requested: Caps, enforced: Caps)

  function ResolveCaps(policy: Caps, asked: Option<Caps>): (r: ResolvedCaps) {
    var a := if asked.Some? then asked.value else Caps(None, None, None);
    ResolvedCaps(
      Caps(Some(Requested(a.maxDepth, policy.maxDepth, DEFAULT_MAX_DEPTH)),
           Some(Requested(a.maxFanout, policy.maxFanout, DEFAULT_MAX_FANOUT)),
           Some(Requested(a.childTimeoutSeconds, policy.childTimeoutSeconds, DEFAULT_CHILD_TIMEOUT_SECONDS))),
      Caps(Some(Enforced(a.maxDepth, policy.maxDepth, DEFAULT_MAX_DEPTH)),
           Some(Enforced(a.maxFanout, policy.maxFanout, DEFAULT_MAX_FANOUT)),
           Some(Enforced(a.childTimeoutSeconds, policy.childTimeoutSeconds, DEFAULT_CHILD_TIMEOUT_SECONDS))))
  }

  /** No request raises a cap above the policy, and every enforced cap is at least 1. */
  lemma EnforcedWithinPolicy(policy: Caps, asked: Option<Caps>)
    ensures var e := ResolveCaps(policy, asked).enforced;
            && 1 <= e.maxDepth.value <= OrDefault(policy.maxDepth, DEFAULT_MAX_DEPTH)
            && 1 <= e.maxFanout.value <= OrDefault(policy.maxFanout, DEFAULT_MAX_FANOUT)
            && 1 <= e.childTimeoutSeconds.value <= OrDefault(policy.childTimeoutSeconds, DEFAULT_CHILD_TIMEOUT_SECONDS)
  {
  }

  /**
   `e` is what a cap comes to: the smaller of the policy's value and the one asked for. A policy
   value that is missing or 0 counts as the default, a request of 0 too, and no request asks for
   the policy's value.
   */
  ghost predicate Clamped(e: Option<nat>, asked: Option<nat>, policy: Option<nat>, d: nat) {
    var limit := if policy.Some? && policy.value > 0 then policy.value else d;
    var wish := if asked.None? then limit else if asked.value > 0 then asked.value else d;
    e.Some? && e.value <= limit && e.value <= wish && (e.value == limit || e.value == wish)
  }

  /** Every cap is the smaller of what is asked and what the policy allows, and the request is recorded as made. */
  lemma CapsMeaning(policy: Caps, asked: Option<Caps>)
    ensures var r := ResolveCaps(policy, asked);
            var a := if asked.Some? then asked.value else Caps(None, None, None);
            && Clamped(r.enforced.maxDepth, a.maxDepth, policy.maxDepth, 1)
            && Clamped(r.enforced.maxFanout, a.maxFanout, policy.maxFanout, 5)
            && Clamped(r.enforced.childTimeoutSeconds, a.childTimeoutSeconds, policy.childTimeoutSeconds, 900)
            && (a.maxDepth.Some? ==> r.requested.maxDepth == a.maxDepth)
            && (a.maxFanout.Some? ==> r.requested.maxFanout == a.maxFanout)
            && (a.childTimeoutSeconds.Some? ==> r.requested.childTimeoutSeconds == a.childTimeoutSeconds)
            && (a.maxDepth.None? ==> r.requested.maxDepth == r.enforced.maxDepth)
            && (a.maxFanout.None? ==> r.requested.maxFanout == r.enforced.maxFanout)
            && (a.childTimeoutSeconds.None? ==> r.requested.childTimeoutSeconds == r.enforced.childTimeoutSeconds)
  {
  }

  /**
   The documented clamp rule, enforced = min(requested or default, policy), holds of the depth
   exactly when that minimum is not 0: a depth of 0 is coerced to the default of 1.
   */
  lemma ClampRuleHoldsUnlessZero(policy: nat, asked: Option<nat>)
    ensures var documented := Min(if asked.Some? then asked.value else policy, policy);
            Enforced(asked, Some(policy), DEFAULT_MAX_DEPTH) == documented <==> documented != 0
  {
  }

  /** An environment variable that should hold an integer. */
  datatype EnvInt = Unset | NotAnInteger | Value(n: int)

  datatype Result<T> = Ok(value: T) | Err(error: ErrorCode)

  /** The variable holds something, and not an integer of at least `minimum`. */
  predicate Refused(raw: EnvInt, minimum: nat) {
    raw.NotAnInteger? || (raw.Value? && raw.n < minimum)
  }

  function ReadEnvInt(raw: EnvInt, fallback: nat, minimum: nat): (r: Result<nat>)
    ensures r.Err? <==> Refused(raw, minimum)
  {
    match raw
    case Unset => Ok(fallback)
    case NotAnInteger => Err(EnvelopeInvalid)
    case Value(n) => if n < minimum then Err(EnvelopeInvalid) else Ok(n)
  }

  /**
   The policy in force. It is refused exactly when some variable is; otherwise every cap is set
   and valid, each variable that is set decides its cap, the given caps decide the others, 0 counting
   as missing, the defaults are 1, 5 and 900, and only the environment can set a depth of 0.
   */
  function RuntimePolicy(given: Option<Caps>, depth: EnvInt, fanout: EnvInt, timeout: EnvInt): (r: Result<Caps>)
    ensures r.Err? <==> Refused(depth, 0) || Refused(fanout, 1) || Refused(timeout, 1)
    ensures r.Ok? ==> ValidCaps(r.value)
    ensures r.Ok? ==> r.value.maxDepth.Some? && r.value.maxFanout.Some? && r.value.childTimeoutSeconds.Some?
    ensures r.Ok? && depth.Value? ==> r.value.maxDepth == Some(depth.n)
    ensures r.Ok? && fanout.Value? ==> r.value.maxFanout == Some(fanout.n)
    ensures r.Ok? && timeout.Value? ==> r.value.childTimeoutSeconds == Some(timeout.n)
    ensures r.Ok? && depth.Unset? ==>
              r.value.maxDepth == match given { case Some(Caps(Some(n), _, _)) => Some(if n > 0 then n else 1) case _ => Some(1) }
    ensures r.Ok? && fanout.Unset? ==>
              r.value.maxFanout == match given { case Some(Caps(_, Some(n), _)) => Some(if n > 0 then n else 5) case _ => Some(5) }
    ensures r.Ok? && timeout.Unset? ==>
              r.value.childTimeoutSeconds
                == match given { case Some(Caps(_, _, Some(n))) => Some(if n > 0 then n else 900) case _ => Some(900) }
    ensures r.Ok? && r.value.maxDepth == Some(0) ==> depth == Value(0)
  {
    var base := if given.Some? then given.value
                else Caps(Some(DEFAULT_MAX_DEPTH), Some(DEFAULT_MAX_FANOUT), Some(DEFAULT_CHILD_TIMEOUT_SECONDS));
    var d := ReadEnvInt(depth, OrDefault(base.maxDepth, DEFAULT_MAX_DEPTH), 0);
    if d.Err? then Err(d.error)
    else
      var f := ReadEnvInt(fanout, OrDefault(base.maxFanout, DEFAULT_MAX_FANOUT), 1);
      if f.Err? then Err(f.error)
      else
        var t := ReadEnvInt(timeout, OrDefault(base.childTimeoutSeconds, DEFAULT_CHILD_TIMEOUT_SECONDS), 1);
        if t.Err? then Err(t.error) else Ok(Caps(Some(d.value), Some(f.value), Some(t.value)))
  }

  // ----- Children -----

  datatype ContractStyle = SdkV0 | OtherStyle

  /** A declared child. Its payload matters only where it names a depth, an ancestry or a controller id of its own. */
  datatype ChildCall = ChildCall(
    target: WorkloadId,
    style: ContractStyle,
    timeoutSeconds: Option<nat>,
    payloadDepth: Option<nat>,
    payloadAncestry: Option<seq<WorkloadId>>,
    payloadController: Option<WorkloadId>)

  datatype ChildStatus = Success | Failed | NotAttempted

  datatype ChildResult = ChildResult(
    target: WorkloadId,
    status: ChildStatus,
    requestedTimeout: Option<nat>,
    enforcedTimeout: Option<nat>,
    requestedCaps: Option<Caps>,
    enforcedCaps: Option<Caps>,
    normalizedError: Option<ErrorCode>)

  function GuardChild(child: ChildCall, controller: WorkloadId, activeAncestry: seq<WorkloadId>): (r: Option<ErrorCode>) {
    if child.target == controller then Some(RecursionDenied)
    else if child.target in activeAncestry then Some(CycleDenied)
    else if child.style != SdkV0 then Some(ChildSdkRequired)
    else None
  }

  function RequestedTimeout(requested: Caps, child: ChildCall): (r: Option<nat>) {
    if child.timeoutSeconds.Some? then child.timeoutSeconds else requested.childTimeoutSeconds
  }

  function EnforcedTimeout(enforced: Caps, requested: Option<nat>): (r: Option<nat>) {
    if requested.None? then enforced.childTimeoutSeconds
    else if enforced.childTimeoutSeconds.None? then requested
    else Some(Min(requested.value, enforced.childTimeoutSeconds.value))
  }

  /** Every attempted child runs under a timeout, no longer than it asked for and no longer than the policy allows. */
  lemma TimeoutWithinPolicy(policy: Caps, asked: Option<Caps>, child: ChildCall)
    ensures var caps := ResolveCaps(policy, asked);
            var want := RequestedTimeout(caps.requested, child);
            var got := EnforcedTimeout(caps.enforced, want);
            && want.Some? && got.Some? && got.value <= want.value
            && got.value <= OrDefault(policy.childTimeoutSeconds, DEFAULT_CHILD_TIMEOUT_SECONDS)
            && (child.timeoutSeconds.Some? ==> got.value <= child.timeoutSeconds.value)
            && want == (if child.timeoutSeconds.Some? then child.timeoutSeconds else caps.requested.childTimeoutSeconds)
            && (got == want || got == caps.enforced.childTimeoutSeconds)
  {
  }

  // ----- Run summaries -----

  datatype RunStatus = RunSuccess | RunFailed | RunBlocked

  datatype RunSummary = RunSummary(
    controller: WorkloadId,
    status: RunStatus,
    requestedCaps: Option<Caps>,
    enforcedCaps: Option<Caps>,
    childResults: seq<ChildResult>,
    errorCode: Option<ErrorCode>)

  ghost predicate HasStatus(results: seq<ChildResult>, status: ChildStatus) {
    exists i :: 0 <= i < |results| && results[i].status == status
  }

  /** `_validate_result_error_invariants` */
  ghost predicate Validates(s: RunSummary) {
    && !(s.status == RunSuccess && s.errorCode.Some?)
    && !(s.status == RunSuccess && HasStatus(s.childResults, Failed))
    && !(s.status != RunSuccess && (s.errorCode.None? || CodeText(s.errorCode.value) == ""))
    && !(s.status == RunBlocked && HasStatus(s.childResults, Success))
  }

  function AnySucceeded(results: seq<ChildResult>): (b: bool)
    ensures b <==> HasStatus(results, Success)
  {
    exists i :: 0 <= i < |results| && results[i].status == Success
  }

  function ResolveRunStatus(errorCode: Option<ErrorCode>, results: seq<ChildResult>): (r: RunStatus) {
    if errorCode.None? then RunSuccess
    else if Blocks(errorCode.value) && !AnySucceeded(results) then RunBlocked
    else RunFailed
  }

  function FailedSummary(controller: WorkloadId, errorCode: ErrorCode, results: seq<ChildResult>,
                         requested: Option<Caps>, enforced: Option<Caps>): (s: RunSummary) {
    RunSummary(controller, ResolveRunStatus(Some(errorCode), results), requested, enforced, results, Some(errorCode))
  }

  /** A failed summary always passes the validator, whatever its children did. */
  lemma FailedSummaryValidates(controller: WorkloadId, code: ErrorCode, results: seq<ChildResult>,
                               requested: Option<Caps>, enforced: Option<Caps>)
    ensures Validates(FailedSummary(controller, code, results, requested, enforced))
  {
  }
}
