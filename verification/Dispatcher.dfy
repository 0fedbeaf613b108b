/** `ControllerDispatcher._dispatch_envelope`: the gates, then the children one by one until one fails. */
module Dispatcher {
  import opened Collections
  import opened ControllerContract

  datatype Envelope = Envelope(
    controller: WorkloadId,
    parentDepth: nat,
    ancestry: seq<WorkloadId>,
    requestedCaps: Option<Caps>,
    children: seq<ChildCall>)

  /** What the extension manager answers for a child, were it asked. */
  datatype Answer =
    | NoManifestEntry
    | NotSdkContract
    | TimedOut
    | Raised(text: string)
    | MalformedSummary
    | Finished(ok: bool)

  /** What a child workload is started with, and the controller id its payload names. */
  datatype ChildInput = ChildInput(target: WorkloadId, depth: nat, ancestry: seq<WorkloadId>, named: Option<WorkloadId>)

  // ----- What the run must come to -----

  /** The first gate that refuses the whole envelope. */
  function GateError(caps: Caps, env: Envelope): (r: Option<ErrorCode>) {
    if |env.children| > OrDefault(caps.maxFanout, DEFAULT_MAX_FANOUT) then Some(MaxFanoutExceeded)
    else if env.parentDepth + 1 > OrDefault(caps.maxDepth, DEFAULT_MAX_DEPTH) then Some(MaxDepthExceeded)
    else if env.ancestry != [] && env.ancestry[|env.ancestry| - 1] == env.controller then Some(RecursionDenied)
    else if env.controller in env.ancestry then Some(CycleDenied)
    else None
  }

  function Active(env: Envelope): (r: seq<WorkloadId>) {
    env.ancestry + [env.controller]
  }

  /** A child's workload is started at all: it passes the guard and the manager knows it as an SDK workload. */
  predicate Launches(env: Envelope, child: ChildCall, answer: Answer) {
    GuardChild(child, env.controller, Active(env)).None? && !answer.NoManifestEntry? && !answer.NotSdkContract?
  }

  /** The error a child ends with, if any. */
  function ChildError(env: Envelope, child: ChildCall, answer: Answer, order: seq<ErrorCode>): (r: Option<ErrorCode>) {
    if GuardChild(child, env.controller, Active(env)).Some? then GuardChild(child, env.controller, Active(env))
    else
      match answer
      case NotSdkContract => Some(ChildSdkRequired)
      case Raised(text) => Some(NormalizeError(text, order))
      case Finished(ok) => if ok then None else Some(ChildExecutionFailed)
      case _ => Some(ChildExecutionFailed)
  }

  function InputOf(env: Envelope, child: ChildCall): (r: ChildInput) {
    ChildInput(child.target,
               if child.payloadDepth.Some? then child.payloadDepth.value else env.parentDepth + 1,
               if child.payloadAncestry.Some? then child.payloadAncestry.value else Active(env),
               child.payloadController)
  }

  function AttemptedResult(caps: ResolvedCaps, child: ChildCall, error: Option<ErrorCode>): (r: ChildResult) {
    var want := RequestedTimeout(caps.requested, child);
    ChildResult(child.target, if error.None? then Success else Failed, want, EnforcedTimeout(caps.enforced, want),
                Some(caps.requested), Some(caps.enforced), error)
  }

  function NotAttemptedResult(caps: ResolvedCaps, child: ChildCall): (r: ChildResult) {
    ChildResult(child.target, NotAttempted, RequestedTimeout(caps.requested, child), None, Some(caps.requested), None, None)
  }

  /** Children before `k` succeeded, child `k` failed unless all succeeded, the rest were not attempted. */
  ghost predicate StopsAt(caps: ResolvedCaps, env: Envelope, answers: seq<Answer>, order: seq<ErrorCode>,
                          results: seq<ChildResult>, k: nat)
    requires |answers| == |env.children|
  {
    && k <= |env.children| && |results| == |env.children|
    && (forall i :: 0 <= i < k ==>
          && ChildError(env, env.children[i], answers[i], order) == None
          && results[i] == AttemptedResult(caps, env.children[i], None))
    && (k < |env.children| ==>
          var e := ChildError(env, env.children[k], answers[k], order);
          e.Some? && results[k] == AttemptedResult(caps, env.children[k], e))
    && (forall i :: k < i < |env.children| ==> results[i] == NotAttemptedResult(caps, env.children[i]))
  }

  /** The workloads started: the children up to and including the one that failed, if that one got started. */
  ghost predicate LaunchedUpTo(env: Envelope, answers: seq<Answer>, launched: seq<ChildInput>, k: nat)
    requires |answers| == |env.children|
  {
    && k <= |env.children|
    && |launched| == k + (if k < |env.children| && Launches(env, env.children[k], answers[k]) then 1 else 0)
    && forall i :: 0 <= i < |launched| ==> launched[i] == InputOf(env, env.children[i])
  }

  /** The whole outcome of a dispatch. */
  ghost predicate Dispatched(policy: Caps, order: seq<ErrorCode>, env: Envelope, answers: seq<Answer>,
                             s: RunSummary, launched: seq<ChildInput>, k: nat)
    requires |answers| == |env.children|
  {
    var caps := ResolveCaps(policy, env.requestedCaps);
    var gate := GateError(caps.enforced, env);
    && s.controller == env.controller
    && s.requestedCaps == Some(caps.requested) && s.enforcedCaps == Some(caps.enforced)
    && s.status == ResolveRunStatus(s.errorCode, s.childResults)
    && (gate.Some? ==> s.errorCode == gate && s.childResults == [] && launched == [] && k == 0)
    && (gate.None? ==>
          && StopsAt(caps, env, answers, order, s.childResults, k)
          && LaunchedUpTo(env, answers, launched, k)
          && s.errorCode == (if k == |env.children| then None else ChildError(env, env.children[k], answers[k], order)))
  }

  // ----- The dispatcher -----

  method RunChild(env: Envelope, child: ChildCall, caps: ResolvedCaps, answer: Answer, order: seq<ErrorCode>)
    returns (result: ChildResult, error: Option<ErrorCode>, launched: seq<ChildInput>)
    ensures error == ChildError(env, child, answer, order)
    ensures result == AttemptedResult(caps, child, error)
    ensures launched == if Launches(env, child, answer) then [InputOf(env, child)] else []
  {
    var want := RequestedTimeout(caps.requested, child);
    var got := EnforcedTimeout(caps.enforced, want);
    launched := [];
    error := GuardChild(child, env.controller, Active(env));
    if error.None? {
      if answer.NoManifestEntry? {
        error := Some(ChildExecutionFailed);
      } else if answer.NotSdkContract? {
        error := Some(ChildSdkRequired);
      } else {
        var depth := if child.payloadDepth.Some? then child.payloadDepth.value else env.parentDepth + 1;
        var ancestry := if child.payloadAncestry.Some? then child.payloadAncestry.value else Active(env);
        launched := [ChildInput(child.target, depth, ancestry, child.payloadController)];
        match answer {
          case Raised(text) => error := Some(NormalizeError(text, order));
          case Finished(ok) => error := if ok then None else Some(ChildExecutionFailed);
          case _ => error := Some(ChildExecutionFailed);
        }
      }
    }
    result := ChildResult(child.target, if error.None? then Success else Failed, want, got,
                          Some(caps.requested), Some(caps.enforced), error);
  }

  /** The first `k` children all succeeded and were started. */
  ghost predicate AllPassed(caps: ResolvedCaps, env: Envelope, answers: seq<Answer>, order: seq<ErrorCode>,
                            results: seq<ChildResult>, launched: seq<ChildInput>, k: nat)
    requires |answers| == |env.children|
  {
    && k == |results| == |launched| <= |env.children|
    && forall i :: 0 <= i < k ==>
         && ChildError(env, env.children[i], answers[i], order) == None
         && results[i] == AttemptedResult(caps, env.children[i], None)
         && launched[i] == InputOf(env, env.children[i])
  }

  method NotAttemptedResults(caps: ResolvedCaps, children: seq<ChildCall>) returns (r: seq<ChildResult>)
    ensures |r| == |children| && forall i :: 0 <= i < |children| ==> r[i] == NotAttemptedResult(caps, children[i])
  {
    r := seq(|children|, i requires 0 <= i < |children| => NotAttemptedResult(caps, children[i]));
  }

  /** A failing child after `k` successes, with the rest not attempted, is where the run stops. */
  lemma StopsHere(caps: ResolvedCaps, env: Envelope, answers: seq<Answer>, order: seq<ErrorCode>,
                  results: seq<ChildResult>, launched: seq<ChildInput>, k: nat, rest: seq<ChildResult>)
    requires |answers| == |env.children| && k < |env.children|
    requires AllPassed(caps, env, answers, order, results, launched, k)
    requires ChildError(env, env.children[k], answers[k], order).Some?
    requires |rest| == |env.children| - k - 1
    requires forall i :: 0 <= i < |rest| ==> rest[i] == NotAttemptedResult(caps, env.children[k + 1 + i])
    ensures var failed := AttemptedResult(caps, env.children[k], ChildError(env, env.children[k], answers[k], order));
            StopsAt(caps, env, answers, order, results + [failed] + rest, k)
  {
    var failed := AttemptedResult(caps, env.children[k], ChildError(env, env.children[k], answers[k], order));
    var all := results + [failed] + rest;
    assert all[k] == failed;
    forall i | k < i < |env.children| ensures all[i] == NotAttemptedResult(caps, env.children[i]) {
      assert all[i] == rest[i - k - 1];
    }
  }

  /** Fail fast: run the children in order, stop at the first failure, mark the rest as not attempted. */
  method RunChildren(env: Envelope, caps: ResolvedCaps, answers: seq<Answer>, order: seq<ErrorCode>)
    returns (results: seq<ChildResult>, error: Option<ErrorCode>, launched: seq<ChildInput>, k: nat)
    requires |answers| == |env.children|
    ensures StopsAt(caps, env, answers, order, results, k) && LaunchedUpTo(env, answers, launched, k)
    ensures error == if k == |env.children| then None else ChildError(env, env.children[k], answers[k], order)
  {
    results, launched, k := [], [], 0;
    for index := 0 to |env.children|
      invariant k == index && AllPassed(caps, env, answers, order, results, launched, k)
    {
      var result, childError, started := RunChild(env, env.children[index], caps, answers[index], order);
      if childError.Some? {
        var rest := NotAttemptedResults(caps, env.children[index + 1..]);
        StopsHere(caps, env, answers, order, results, launched, k, rest);
        results, launched, error := results + [result] + rest, launched + started, childError;
        return;
      }
      results, launched, k := results + [result], launched + started, k + 1;
    }
    error := None;
  }

  method DispatchEnvelope(policy: Caps, order: seq<ErrorCode>, env: Envelope, answers: seq<Answer>)
    returns (s: RunSummary, launched: seq<ChildInput>, k: nat)
    requires |answers| == |env.children|
    ensures Dispatched(policy, order, env, answers, s, launched, k)
    ensures Validates(s)
  {
    var caps := ResolveCaps(policy, env.requestedCaps);
    var gate := GateError(caps.enforced, env);
    if gate.Some? {
      launched, k := [], 0;
      s := FailedSummary(env.controller, gate.value, [], Some(caps.requested), Some(caps.enforced));
      FailedSummaryValidates(env.controller, gate.value, [], Some(caps.requested), Some(caps.enforced));
      return;
    }
    var results, error;
    results, error, launched, k := RunChildren(env, caps, answers, order);
    if error.Some? {
      s := FailedSummary(env.controller, error.value, results, Some(caps.requested), Some(caps.enforced));
      FailedSummaryValidates(env.controller, error.value, results, Some(caps.requested), Some(caps.enforced));
    } else {
      s := RunSummary(env.controller, RunSuccess, Some(caps.requested), Some(caps.enforced), results, None);
    }
  }

  // ----- What a summary tells -----

  /** Successes, then at most one failure, then not attempted; or nothing at all. */
  ghost predicate FailFastShape(env: Envelope, results: seq<ChildResult>) {
    || results == []
    || (&& |results| == |env.children|
        && (forall i :: 0 <= i < |results| ==> results[i].target == env.children[i].target)
        && exists k :: TurnsAt(results, k))
  }

  ghost predicate TurnsAt(results: seq<ChildResult>, k: nat) {
    && k <= |results|
    && (forall i :: 0 <= i < k ==> results[i].status == Success)
    && (k < |results| ==> results[k].status == Failed)
    && (forall i :: k < i < |results| ==> results[i].status == NotAttempted)
  }

  /** Reading the children: they have the fail-fast shape, and some succeeded exactly when the first did. */
  lemma ChildrenMeaning(caps: ResolvedCaps, env: Envelope, answers: seq<Answer>, order: seq<ErrorCode>,
                        results: seq<ChildResult>, k: nat)
    requires |answers| == |env.children| && StopsAt(caps, env, answers, order, results, k)
    ensures FailFastShape(env, results)
    ensures HasStatus(results, Success) <==> k > 0
    ensures HasStatus(results, Failed) <==> k < |env.children|
    ensures k == |env.children| <==>
            forall i :: 0 <= i < |env.children| ==> ChildError(env, env.children[i], answers[i], order) == None
    ensures forall i :: 0 <= i < |results| ==>
              && results[i].normalizedError == (if i == k then ChildError(env, env.children[i], answers[i], order) else None)
              && results[i].requestedCaps == Some(caps.requested)
              && results[i].requestedTimeout == RequestedTimeout(caps.requested, env.children[i])
              && (i <= k ==> results[i].enforcedCaps == Some(caps.enforced)
                             && results[i].enforcedTimeout == EnforcedTimeout(caps.enforced, results[i].requestedTimeout))
              && (i > k ==> results[i].enforcedCaps == None && results[i].enforcedTimeout == None)
  {
    forall i | 0 <= i < |results|
      ensures results[i].target == env.children[i].target
      ensures results[i].status == if i < k then Success else if i == k then Failed else NotAttempted
    {
    }
    assert TurnsAt(results, k);
    assert k > 0 ==> results[0].status == Success;
    assert k < |results| ==> results[k].status == Failed;
  }

  /** Which gate refuses an envelope, and when. */
  lemma GateMeaning(caps: Caps, env: Envelope)
    requires caps.maxFanout.Some? && caps.maxFanout.value > 0 && caps.maxDepth.Some? && caps.maxDepth.value > 0
    ensures var wide := |env.children| > caps.maxFanout.value;
            var deep := env.parentDepth + 1 > caps.maxDepth.value;
            var own := env.ancestry != [] && env.ancestry[|env.ancestry| - 1] == env.controller;
            match GateError(caps, env)
            case None => !wide && !deep && env.controller !in env.ancestry
            case Some(MaxFanoutExceeded) => wide
            case Some(MaxDepthExceeded) => !wide && deep
            case Some(RecursionDenied) => !wide && !deep && own
            case Some(CycleDenied) => !wide && !deep && !own && env.controller in env.ancestry
            case _ => false
  {
  }

  /** The child is neither the controller nor one of its ancestors, and follows the SDK contract. */
  predicate PassesGuard(env: Envelope, child: ChildCall) {
    child.target != env.controller && child.target !in env.ancestry && child.style == SdkV0
  }

  /**
   How a child ends, over child and answer: it succeeds exactly when it passes the guard and
   finishes well; every error has its exact cause; and it is started exactly when it passes the
   guard and the manager knows it as an SDK workload.
   */
  lemma ChildMeaning(env: Envelope, child: ChildCall, answer: Answer, order: seq<ErrorCode>)
    ensures var e := ChildError(env, child, answer, order);
            && (e == None <==> PassesGuard(env, child) && answer == Finished(true))
            && (child.target == env.controller ==> e == Some(RecursionDenied))
            && (child.target != env.controller && child.target in env.ancestry ==> e == Some(CycleDenied))
            && (child.target != env.controller && child.target !in env.ancestry && child.style != SdkV0 ==>
                  e == Some(ChildSdkRequired))
            && (PassesGuard(env, child) ==>
                  match answer
                  case NoManifestEntry => e == Some(ChildExecutionFailed)
                  case NotSdkContract => e == Some(ChildSdkRequired)
                  case TimedOut => e == Some(ChildExecutionFailed)
                  case MalformedSummary => e == Some(ChildExecutionFailed)
                  case Finished(ok) => e == if ok then None else Some(ChildExecutionFailed)
                  case Raised(text) =>
                    || (exists c :: c in order && Contains(text, CodeText(c)) && e == Some(c))
                    || (e == Some(ChildExecutionFailed) && forall c :: c in order ==> !Contains(text, CodeText(c))))
    ensures Launches(env, child, answer) <==> PassesGuard(env, child) && answer != NoManifestEntry && answer != NotSdkContract
  {
    if answer.Raised? {
      NormalizePicks(answer.text, order);
    }
  }

  /** The envelope fits the enforced caps, and the controller is not among its own ancestors. */
  predicate PassesGates(caps: Caps, env: Envelope)
    requires caps.maxFanout.Some? && caps.maxDepth.Some?
  {
    && |env.children| <= caps.maxFanout.value && env.parentDepth + 1 <= caps.maxDepth.value
    && env.controller !in env.ancestry
  }

  /**
   Reading a summary, over the inputs alone: it says success exactly when the envelope passes the
   gates and every child passes the guard and finishes well; it says blocked exactly when a gate
   refuses the envelope, or the first child is refused by the guard, is no SDK workload, or raises an
   error that names a code other than the two of execution and observability; and it is consistent.
   */
  lemma SummaryMeaning(policy: Caps, order: seq<ErrorCode>, env: Envelope, answers: seq<Answer>,
                       s: RunSummary, launched: seq<ChildInput>, k: nat)
    requires |answers| == |env.children|
    requires Dispatched(policy, order, env, answers, s, launched, k)
    ensures FailFastShape(env, s.childResults)
    ensures ResolveCaps(policy, env.requestedCaps).enforced.maxFanout.Some?
    ensures ResolveCaps(policy, env.requestedCaps).enforced.maxDepth.Some?
    ensures s.status == RunSuccess <==>
            && PassesGates(ResolveCaps(policy, env.requestedCaps).enforced, env)
            && forall i :: 0 <= i < |env.children| ==> PassesGuard(env, env.children[i]) && answers[i] == Finished(true)
    ensures s.status == RunBlocked <==>
            || !PassesGates(ResolveCaps(policy, env.requestedCaps).enforced, env)
            || (&& env.children != []
                && (|| !PassesGuard(env, env.children[0])
                    || answers[0] == NotSdkContract
                    || (&& answers[0].Raised?
                        && NormalizeError(answers[0].text, order) != ChildExecutionFailed
                        && NormalizeError(answers[0].text, order) != ObservabilityEmitFailed)))
    ensures s.errorCode.None? <==> s.status == RunSuccess
    ensures s.status == RunSuccess ==> forall i :: 0 <= i < |s.childResults| ==> s.childResults[i].status == Success
    ensures s.status == RunBlocked ==> forall i :: 0 <= i < |s.childResults| ==> s.childResults[i].status != Success
    ensures Validates(s)
  {
    var caps := ResolveCaps(policy, env.requestedCaps);
    EnforcedWithinPolicy(policy, env.requestedCaps);
    GateMeaning(caps.enforced, env);
    GateIffPasses(caps.enforced, env);
    SummaryStatus(policy, order, env, answers, s, launched, k);
    forall i | 0 <= i < |env.children|
      ensures ChildError(env, env.children[i], answers[i], order) == None <==>
              PassesGuard(env, env.children[i]) && answers[i] == Finished(true)
    {
      ChildMeaning(env, env.children[i], answers[i], order);
    }
    if env.children != [] {
      FirstChildMeaning(env, answers, order);
    }
  }

  lemma GateIffPasses(caps: Caps, env: Envelope)
    requires caps.maxFanout.Some? && caps.maxFanout.value > 0 && caps.maxDepth.Some? && caps.maxDepth.value > 0
    ensures GateError(caps, env).None? <==> PassesGates(caps, env)
  {
  }

  lemma FirstChildMeaning(env: Envelope, answers: seq<Answer>, order: seq<ErrorCode>)
    requires |answers| == |env.children| && env.children != []
    ensures FirstChildBlocks(env, answers, order) <==>
            || !PassesGuard(env, env.children[0])
            || answers[0] == NotSdkContract
            || (&& answers[0].Raised?
                && NormalizeError(answers[0].text, order) != ChildExecutionFailed
                && NormalizeError(answers[0].text, order) != ObservabilityEmitFailed)
  {
    ChildMeaning(env, env.children[0], answers[0], order);
  }

  lemma SummaryStatus(policy: Caps, order: seq<ErrorCode>, env: Envelope, answers: seq<Answer>,
                      s: RunSummary, launched: seq<ChildInput>, k: nat)
    requires |answers| == |env.children|
    requires Dispatched(policy, order, env, answers, s, launched, k)
    ensures FailFastShape(env, s.childResults)
    ensures s.status == RunSuccess <==>
            && GateError(ResolveCaps(policy, env.requestedCaps).enforced, env) == None
            && forall i :: 0 <= i < |env.children| ==> ChildError(env, env.children[i], answers[i], order) == None
    ensures s.status == RunBlocked <==>
            || GateError(ResolveCaps(policy, env.requestedCaps).enforced, env).Some?
            || FirstChildBlocks(env, answers, order)
    ensures s.errorCode.None? <==> s.status == RunSuccess
    ensures s.status == RunSuccess ==> forall i :: 0 <= i < |s.childResults| ==> s.childResults[i].status == Success
    ensures s.status == RunBlocked ==> forall i :: 0 <= i < |s.childResults| ==> s.childResults[i].status != Success
    ensures Validates(s)
  {
    var caps := ResolveCaps(policy, env.requestedCaps);
    if GateError(caps.enforced, env).None? {
      ChildrenMeaning(caps, env, answers, order, s.childResults, k);
    }
  }

  /** The first child's guard, manifest check or run ends with a blocking code. */
  ghost predicate FirstChildBlocks(env: Envelope, answers: seq<Answer>, order: seq<ErrorCode>)
    requires |answers| == |env.children|
  {
    && env.children != []
    && var e := ChildError(env, env.children[0], answers[0], order);
       e.Some? && Blocks(e.value)
  }

  /**
   A first child that was started, and raised an error whose text names blocking codes only, makes
   the run blocked although a child workload ran.
   */
  lemma RaisedBlockingCodeBlocks(env: Envelope, answers: seq<Answer>, order: seq<ErrorCode>, text: string, known: set<ErrorCode>)
    requires |answers| == |env.children| && env.children != [] && answers[0] == Raised(text)
    requires Launches(env, env.children[0], answers[0]) && Iterates(order, known)
    ensures (forall c :: Names(text, known, c) ==> Blocks(c)) && (exists c :: Names(text, known, c))
            ==> FirstChildBlocks(env, answers, order)
  {
    NormalizePicks(text, order);
    assert forall c :: c in known <==> c in order;
    if (forall c :: Names(text, known, c) ==> Blocks(c)) && (exists c :: Names(text, known, c)) {
      var c :| Names(text, known, c);
      assert Names(text, known, NormalizeError(text, order));
    }
  }

  /** Whatever was started had passed the guard. */
  lemma LaunchedPassedGuard(env: Envelope, caps: ResolvedCaps, answers: seq<Answer>, order: seq<ErrorCode>,
                            results: seq<ChildResult>, launched: seq<ChildInput>, k: nat, i: nat)
    requires |answers| == |env.children| && i < |launched|
    requires StopsAt(caps, env, answers, order, results, k) && LaunchedUpTo(env, answers, launched, k)
    ensures i < |env.children| && GuardChild(env.children[i], env.controller, Active(env)).None?
  {
    if i < k {
      assert ChildError(env, env.children[i], answers[i], order) == None;
    }
  }

  lemma GuardPassedIsNew(child: ChildCall, controller: WorkloadId, active: seq<WorkloadId>)
    requires GuardChild(child, controller, active).None?
    ensures child.target !in active
  {
  }

  lemma OneStop(env: Envelope, caps: ResolvedCaps, answers: seq<Answer>, order: seq<ErrorCode>,
                results: seq<ChildResult>, k: nat, results': seq<ChildResult>, k': nat)
    requires |answers| == |env.children|
    requires StopsAt(caps, env, answers, order, results, k) && StopsAt(caps, env, answers, order, results', k')
    ensures k == k'
  {
  }

  lemma OneOutcomePerStop(env: Envelope, caps: ResolvedCaps, answers: seq<Answer>, order: seq<ErrorCode>, k: nat,
                          results: seq<ChildResult>, launched: seq<ChildInput>,
                          results': seq<ChildResult>, launched': seq<ChildInput>)
    requires |answers| == |env.children|
    requires StopsAt(caps, env, answers, order, results, k) && StopsAt(caps, env, answers, order, results', k)
    requires LaunchedUpTo(env, answers, launched, k) && LaunchedUpTo(env, answers, launched', k)
    ensures results == results' && launched == launched'
  {
    forall i | 0 <= i < |results| ensures results[i] == results'[i] {
      assert i < k || i == k || i > k;
    }
  }

  /** The description leaves nothing open: an envelope and its answers have one outcome. */
  lemma OutcomeIsDetermined(policy: Caps, order: seq<ErrorCode>, env: Envelope, answers: seq<Answer>,
                            s: RunSummary, launched: seq<ChildInput>, k: nat,
                            s': RunSummary, launched': seq<ChildInput>, k': nat)
    requires |answers| == |env.children|
    requires Dispatched(policy, order, env, answers, s, launched, k)
    requires Dispatched(policy, order, env, answers, s', launched', k')
    ensures k == k' && s == s' && launched == launched'
  {
    var caps := ResolveCaps(policy, env.requestedCaps);
    if GateError(caps.enforced, env).None? {
      OneStop(env, caps, answers, order, s.childResults, k, s'.childResults, k');
      OneOutcomePerStop(env, caps, answers, order, k, s.childResults, launched, s'.childResults, launched');
    }
  }
}
