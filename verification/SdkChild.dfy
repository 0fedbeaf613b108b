/** A workload's run in the child process, from the host's envelope to the result the host reports. */
module SdkChild {
  import opened Collections
  import opened PyText
  import opened Utf8Order
  import opened Authorization
  import opened CapabilityRegistry
  import opened GovernedRegistry
  import opened CapabilityTracker

  // ----- What a workload can do -----

  /** What a provider does when it is run. `ok` is the result's `ok` attribute, if it has one. */
  datatype Answer = Answers(ok: Option<bool>) | Throws(errorType: string)

  /**
   A workload uses a capability through the tracker, or probes it: `is_available` and `list_voices`
   go to the delegate with no check and no record. `reading` tells the turn state from turn control,
   which share a capability.
   */
  datatype Action = Use(capability: string, reading: bool, answer: Answer) | Probe(capability: string)

  const PROBED: set<string> := {"model.generate", "tts.speak"}

  datatype Reach = Reach(capability: string, provider: Provider)

  /** Whether a wrapper counts a successful call as a side effect. */
  predicate Effect(capability: string, reading: bool, silent: bool, ok: Option<bool>) {
    match Needed(capability)
    case Memory => capability == WRITE && ok == Some(true)
    case TurnControl => !reading && ok == Some(true)
    case Player => !silent
    case _ => false
  }

  /** The operation a wrapper hands to the tracker. */
  function Operation(capability: string, reading: bool, answer: Answer, delegate: Option<Provider>): (r: Option<Behaviour>) {
    if delegate.None? then None
    else
      match answer
      case Throws(t) => Some(Raises(t))
      case Answers(ok) => Some(Returns(ok, Effect(capability, reading, NullPlayer in delegate.value.interfaces, ok)))
  }

  /** The tracker's call behind a use of a first-slice capability. */
  function CallOf(raw: map<string, Provider>, a: Action): (r: Call)
    requires a.Use?
  {
    Call(a.capability, Operation(a.capability, a.reading, a.answer, Delegate(raw, a.capability)))
  }

  function RecordsBy(e: Envelope, raw: map<string, Provider>, a: Action): (r: seq<Record>) {
    if a.Use? && a.capability in FIRST_SLICE then [RecordOf(e, CallOf(raw, a))] else []
  }

  /** The provider whose code an action runs. Outside the first slice, that is whatever is registered. */
  function ReachedBy(e: Envelope, raw: map<string, Provider>, a: Action): (r: seq<Reach>) {
    var c := a.capability;
    if c !in FIRST_SLICE then (if c in raw then [Reach(c, raw[c])] else [])
    else if Delegate(raw, c).None? then []
    else if (if a.Use? then Denial(e, CallOf(raw, a)) == NoDenial else c in PROBED) then [Reach(c, Delegate(raw, c).value)]
    else []
  }

  function Parts<T>(part: Action -> seq<T>, actions: seq<Action>): (r: seq<seq<T>>)
    ensures |r| == |actions| && forall i :: 0 <= i < |actions| ==> r[i] == part(actions[i])
  {
    seq(|actions|, i requires 0 <= i < |actions| => part(actions[i]))
  }

  lemma PartsGrow<T>(part: Action -> seq<T>, actions: seq<Action>, i: nat)
    requires i < |actions|
    ensures Flat(Parts(part, actions[..i + 1])) == Flat(Parts(part, actions[..i])) + part(actions[i])
  {
    assert Parts(part, actions[..i + 1]) == Parts(part, actions[..i]) + [part(actions[i])];
    FlatAppend(Parts(part, actions[..i]), part(actions[i]));
  }

  function RecordsWith(e: Envelope, raw: map<string, Provider>): (r: Action -> seq<Record>) {
    a => RecordsBy(e, raw, a)
  }

  function ReachedWith(e: Envelope, raw: map<string, Provider>): (r: Action -> seq<Reach>) {
    a => ReachedBy(e, raw, a)
  }

  function RecordsOf(e: Envelope, raw: map<string, Provider>, actions: seq<Action>): (r: seq<Record>) {
    Flat(Parts(RecordsWith(e, raw), actions))
  }

  function Reached(e: Envelope, raw: map<string, Provider>, actions: seq<Action>): (r: seq<Reach>) {
    Flat(Parts(ReachedWith(e, raw), actions))
  }

  /** A workload does whatever it likes and swallows every error: the tracker keeps all governed calls, in order. */
  method RunWorkload(tracker: SdkCapabilityTracker, governed: Registry<Entry>, actions: seq<Action>,
                     ghost raw: map<string, Provider>)
    returns (reached: seq<Reach>)
    requires tracker.callRecords == [] && IsGoverned(raw, governed.providers)
    modifies tracker
    ensures tracker.callRecords == RecordsOf(tracker.envelope, raw, actions)
    ensures reached == Reached(tracker.envelope, raw, actions)
  {
    reached := [];
    for i := 0 to |actions|
      invariant tracker.callRecords == RecordsOf(tracker.envelope, raw, actions[..i])
      invariant reached == Reached(tracker.envelope, raw, actions[..i])
    {
      PartsGrow(RecordsWith(tracker.envelope, raw), actions, i);
      PartsGrow(ReachedWith(tracker.envelope, raw), actions, i);
      var now := Act(tracker, governed, actions[i], raw);
      reached := reached + now;
    }
    assert actions[..|actions|] == actions;
  }

  method Act(tracker: SdkCapabilityTracker, governed: Registry<Entry>, a: Action, ghost raw: map<string, Provider>)
    returns (reached: seq<Reach>)
    requires IsGoverned(raw, governed.providers)
    modifies tracker
    ensures tracker.callRecords == old(tracker.callRecords) + RecordsBy(tracker.envelope, raw, a)
    ensures reached == ReachedBy(tracker.envelope, raw, a)
  {
    reached := [];
    if a.capability in governed.providers {
      match governed.providers[a.capability]
      case Plain(p) =>
        reached := [Reach(a.capability, p)];
      case Governed(delegate) =>
        if a.Use? {
          var reply := tracker.Invoke(Call(a.capability, Operation(a.capability, a.reading, a.answer, delegate)));
          if !reply.Refused? {
            reached := [Reach(a.capability, delegate.value)];
          }
        } else if a.capability in PROBED && delegate.Some? {
          reached := [Reach(a.capability, delegate.value)];
        }
    }
  }

  // ----- The child process -----

  /** How the workload ends: with a result, or with an exception of some type. */
  datatype Ending = Completed(ok: bool) | Raised(errorType: string)

  /** The result file: an error code when the child reports an error, the result's `ok` and the call records. */
  datatype ChildResult = ChildResult(errorCode: Option<string>, ok: bool, records: seq<Record>)

  function Finish(end: Ending, records: seq<Record>): (r: ChildResult) {
    match end
    case Completed(ok) => ChildResult(None, ok, records)
    case Raised(errorType) => ChildResult(Some(errorType), false, records)
  }

  function DriftRecords(e: Envelope, ids: seq<string>): (r: seq<Record>)
    ensures |r| == |ids| && forall i :: 0 <= i < |ids| ==> r[i] == BlockedRecord(e, ids[i], AuthorizationDrift)
  {
    seq(|ids|, i requires 0 <= i < |ids| => BlockedRecord(e, ids[i], AuthorizationDrift))
  }

  /** What the child reports and whom it reached: on drift nothing runs and every drifted capability is a blocked record. */
  ghost predicate Ran(e: Envelope, raw: map<string, Provider>, actions: seq<Action>, end: Ending,
                      result: ChildResult, reached: seq<Reach>) {
    match Revalidate(e, raw.Keys)
    case Drift(ids) =>
      reached == [] && result == ChildResult(Some(DenialCode(AuthorizationDrift)), false, DriftRecords(e, SortedKeys(ids)))
    case Instantiated(_) =>
      reached == Reached(e, raw, actions) && result == Finish(end, RecordsOf(e, raw, actions))
  }

  ghost predicate IsRun(e: Envelope, config: Configuration, extra: set<string>, actions: seq<Action>, end: Ending,
                        result: ChildResult, reached: seq<Reach>) {
    exists raw :: IsBuilt(raw, config, Some(Elements(e.admitted)), extra) && Ran(e, raw, actions, end, result, reached)
  }

  /** The child: registry from the envelope and the configuration, revalidation, governed registry, workload. */
  method RunRequest(e: Envelope, config: Configuration, extra: set<string>, actions: seq<Action>, end: Ending)
    returns (result: ChildResult, reached: seq<Reach>)
    ensures IsRun(e, config, extra, actions, end, result, reached)
  {
    var registry := BuildRegistry(config, Some(Elements(e.admitted)), extra);
    ghost var raw := registry.providers;
    match Revalidate(e, registry.providers.Keys) {
      case Drift(drift) =>
        var ids := SortedListing(drift);
        reached := [];
        result := ChildResult(Some(DenialCode(AuthorizationDrift)), false, DriftRecords(e, ids));
      case Instantiated(_) =>
        var governed, raised := BuildGovernedRegistry(registry);
        assert !raised;
        var tracker := new SdkCapabilityTracker(e);
        reached := RunWorkload(tracker, governed, actions, raw);
        result := Finish(end, tracker.callRecords);
    }
    assert Ran(e, raw, actions, end, result, reached);
  }

  datatype HostOutcome = Rejected(names: set<string>) | Finished(envelope: Envelope, result: ChildResult, reached: seq<Reach>)

  /** The whole way: the host's envelope, its payload as the child reads it, and the child's run. */
  method RunOnHost(extensionId: string, workloadId: string, runId: string, declaredCapabilities: seq<string>,
                   admitOnly: seq<string>, digest: string, config: Configuration, extra: set<string>,
                   actions: seq<Action>, end: Ending)
    returns (outcome: HostOutcome)
    ensures outcome.Rejected? <==> !(Names(declaredCapabilities) <= VOCABULARY)
    ensures outcome.Finished? ==>
              var e := outcome.envelope;
              && HostIssued(e) && Elements(e.declared) == Names(declaredCapabilities)
              && NarrowedTo(e, admitOnly)
              && IsRun(e, config, extra, actions, end, outcome.result, outcome.reached)
    ensures outcome.Finished? ==>
              forall r :: r in outcome.reached && r.capability in FIRST_SLICE ==>
                r.capability in Names(declaredCapabilities) && (admitOnly != [] ==> r.capability in admitOnly)
  {
    var built := BuildHostAuthorizationEnvelope(extensionId, workloadId, runId, declaredCapabilities, admitOnly, digest);
    match built {
      case Invalid(names) =>
        outcome := Rejected(names);
      case Built(envelope) =>
        var e := PayloadRoundTrip(envelope);
        var result, reached := RunRequest(e, config, extra, actions, end);
        forall r | r in reached && r.capability in FIRST_SLICE
          ensures r.capability in Elements(e.declared) && (admitOnly != [] ==> r.capability in admitOnly)
        {
          EndToEnd(e, config, extra, actions, end, result, reached, r);
        }
        outcome := Finished(e, result, reached);
    }
  }

  // ----- The two kinds of run -----

  /** Some capability asked for on top was not admitted. */
  predicate Drifts(e: Envelope, extra: set<string>) {
    exists c :: c in extra && c in FIRST_SLICE && c !in e.admitted
  }

  /** A run is the drift report, or the workload's own run in a child that passed revalidation. */
  lemma RunOf(e: Envelope, config: Configuration, extra: set<string>, actions: seq<Action>, end: Ending,
              result: ChildResult, reached: seq<Reach>)
    returns (raw: map<string, Provider>)
    requires HostIssued(e) && IsRun(e, config, extra, actions, end, result, reached)
    ensures Drifts(e, extra) ==>
              && Revalidate(e, raw.Keys).Drift? && Revalidate(e, raw.Keys).ids != {} && reached == []
              && Revalidate(e, raw.Keys).ids == extra * FIRST_SLICE - Elements(e.admitted)
              && result.records == DriftRecords(e, SortedKeys(Revalidate(e, raw.Keys).ids))
    ensures !Drifts(e, extra) ==>
              && PassedChild(e, config, extra, raw) && reached == Reached(e, raw, actions)
              && result == Finish(end, RecordsOf(e, raw, actions))
  {
    raw :| IsBuilt(raw, config, Some(Elements(e.admitted)), extra) && Ran(e, raw, actions, end, result, reached);
    DriftIsTheUnadmittedExtra(e, config.items, extra);
  }

  // ----- Whose code runs -----

  /** A use that will be refused, told from the envelope and the configuration alone. */
  predicate WillBeRefused(e: Envelope, config: Configuration, a: Action) {
    && a.Use? && a.capability in FIRST_SLICE
    && (a.capability !in e.admitted || Unserved(config, e.admitted, a.capability))
  }

  lemma DenialMeaning(e: Envelope, config: Configuration, extra: set<string>, raw: map<string, Provider>, a: Action)
    requires PassedChild(e, config, extra, raw) && a.Use? && a.capability in FIRST_SLICE
    ensures Denial(e, CallOf(raw, a)) != NoDenial <==> WillBeRefused(e, config, a)
  {
    if a.capability in e.admitted {
      FirstSliceIsAdmitted(e, config, extra, raw, a.capability);
      UnavailableIffUnserved(e, config, extra, raw, a.capability);
    }
  }

  lemma ReachedMember(e: Envelope, raw: map<string, Provider>, actions: seq<Action>, r: Reach)
    ensures r in Reached(e, raw, actions) <==> exists i :: 0 <= i < |actions| && r in ReachedBy(e, raw, actions[i])
  {
    FlatMember(Parts(ReachedWith(e, raw), actions), r);
  }

  /** `p` is what the child registered under `a`. */
  ghost predicate RegisteredAs(config: Configuration, a: string, p: Provider) {
    BuiltProvider(config, a) == Some(p)
  }

  ghost predicate Authorized(e: Envelope, a: string) {
    a in FIRST_SLICE && a in e.admitted && a in e.declared
  }

  /** One provider stands for both memory capabilities. */
  predicate SharesProvider(a: string, c: string) {
    a == c || {a, c} == {WRITE, QUERY}
  }

  lemma ProbedIsNoMemory()
    ensures WRITE !in PROBED && QUERY !in PROBED
    ensures forall c :: c in PROBED <==> c == "model.generate" || c == "tts.speak"
  {
    assert WRITE[1] == 'e' && QUERY[1] == 'e' && "model.generate"[1] == 'o' && "tts.speak"[1] == 't';
  }

  /** An action on a first-slice capability reaches code exactly when it is admitted, served, and used or probed. */
  lemma ReachedIff(e: Envelope, config: Configuration, extra: set<string>, raw: map<string, Provider>, a: Action)
    requires PassedChild(e, config, extra, raw) && a.capability in FIRST_SLICE
    ensures ReachedBy(e, raw, a) != [] <==>
            && a.capability in e.admitted && !Unserved(config, e.admitted, a.capability)
            && (a.Use? || a.capability == "model.generate" || a.capability == "tts.speak")
  {
    ProbedIsNoMemory();
    FirstSliceIsAdmitted(e, config, extra, raw, a.capability);
    if a.capability in e.admitted {
      UnavailableIffUnserved(e, config, extra, raw, a.capability);
    }
  }

  /** Outside the first slice an action reaches code exactly when its id is configured or a root. */
  lemma PlainReachedIff(e: Envelope, config: Configuration, extra: set<string>, raw: map<string, Provider>, a: Action)
    requires PassedChild(e, config, extra, raw) && a.capability !in FIRST_SLICE
    ensures ReachedBy(e, raw, a) != [] <==>
            || a.capability == "workspace.root" || a.capability == "artifact.root"
            || (a.capability != "" && exists i :: 0 <= i < |config.items| && config.items[i].key == a.capability)
  {
    BuiltMeaning(config.items, Elements(e.admitted), extra, a.capability);
  }

  lemma ReachMeaning(e: Envelope, raw: map<string, Provider>, a: Action, r: Reach)
    requires r in ReachedBy(e, raw, a)
    ensures r.capability == a.capability && ReachedBy(e, raw, a) != []
    ensures r.capability in FIRST_SLICE ==> Delegate(raw, r.capability) == Some(r.provider)
    ensures r.capability !in FIRST_SLICE ==> r.capability in raw && raw[r.capability] == r.provider
  {
  }

  lemma ReachIsAuthorized(e: Envelope, config: Configuration, extra: set<string>, raw: map<string, Provider>, a: Action, r: Reach)
    requires PassedChild(e, config, extra, raw) && r in ReachedBy(e, raw, a) && r.capability in FIRST_SLICE
    ensures Authorized(e, r.capability)
    ensures exists b :: RegisteredAs(config, b, r.provider) && Authorized(e, b) && SharesProvider(b, r.capability)
  {
    ReachMeaning(e, raw, a, r);
    ReachedIff(e, config, extra, raw, a);
    FirstSliceIsAdmitted(e, config, extra, raw, r.capability);
    var b := DelegatesAreAdmitted(e, config, extra, raw, r.capability);
    assert RegisteredAs(config, b, r.provider);
  }

  /**
   From host to provider: whatever is configured, asked for on top and done by the workload, probes
   included, a first-slice provider's code runs only behind an admitted and declared capability, and
   it is the provider registered for that capability or, between the two memory ones, for another
   admitted and declared one. Under a narrowing nothing outside it is reached. Outside the first
   slice nothing is governed.
   */
  lemma EndToEnd(e: Envelope, config: Configuration, extra: set<string>, actions: seq<Action>, end: Ending,
                 result: ChildResult, reached: seq<Reach>, r: Reach)
    requires HostIssued(e) && IsRun(e, config, extra, actions, end, result, reached) && r in reached
    ensures r.capability in FIRST_SLICE ==> Authorized(e, r.capability)
    ensures r.capability in FIRST_SLICE ==>
              exists b :: RegisteredAs(config, b, r.provider) && Authorized(e, b) && SharesProvider(b, r.capability)
    ensures r.capability !in FIRST_SLICE ==> RegisteredAs(config, r.capability, r.provider)
    ensures forall only :: NarrowedTo(e, only) && only != [] && r.capability in FIRST_SLICE ==> r.capability in only
  {
    var raw := RunOf(e, config, extra, actions, end, result, reached);
    ReachedMember(e, raw, actions, r);
    var i :| 0 <= i < |actions| && r in ReachedBy(e, raw, actions[i]);
    ReachMeaning(e, raw, actions[i], r);
    if r.capability in FIRST_SLICE {
      ReachIsAuthorized(e, config, extra, raw, actions[i], r);
    }
  }

  /** The record of a use that is let run: how the provider answered, or what it threw. */
  lemma UseMeaning(e: Envelope, config: Configuration, extra: set<string>, raw: map<string, Provider>, a: Action)
    requires PassedChild(e, config, extra, raw) && a.Use? && a.capability in FIRST_SLICE && !WillBeRefused(e, config, a)
    ensures |RecordsBy(e, raw, a)| == 1
    ensures var r := RecordsBy(e, raw, a)[0];
            && r.capability == a.capability && r.declared && r.admitted
            && (match a.answer
                case Throws(t) => r.observed == Failure && r.errorCode == t && !r.sideEffect
                case Answers(ok) => r.observed == (if ok == Some(false) then Failure else Success) && r.errorCode == "")
  {
    DenialMeaning(e, config, extra, raw, a);
    DenialCauses(e, CallOf(raw, a));
    RecordMeaning(e, CallOf(raw, a));
  }

  // ----- What the host reports -----

  datatype ResultClass = BLOCKED | FAILED | SUCCESS

  function SdkResultClass(r: ChildResult): (c: ResultClass) {
    if exists x :: x in r.records && x.observed == Blocked then BLOCKED
    else if r.errorCode.Some? || !r.ok then FAILED
    else SUCCESS
  }

  /** The first blocked record. */
  function FirstBlocked(records: seq<Record>): (r: Option<Record>) {
    if records == [] then None
    else
      var before, last := FirstBlocked(records[..|records| - 1]), records[|records| - 1];
      if before.Some? then before else if last.observed == Blocked then Some(last) else None
  }

  function BlockedReason(records: seq<Record>): (r: string) {
    match FirstBlocked(records)
    case None => ""
    case Some(x) => Strip(if x.denial != NoDenial then DenialText(x.denial) else x.errorCode)
  }

  function SdkFailureClass(r: ChildResult): (c: string) {
    if BlockedReason(r.records) != "" then "sdk_capability_" + BlockedReason(r.records)
    else if r.errorCode.Some? then
      "sdk_workload_" + (if r.errorCode.value != "" then r.errorCode.value else "SdkSubprocessRunError")
    else "sdk_workload_failed"
  }

  predicate SdkSideEffectObserved(r: ChildResult) {
    exists x :: x in r.records && x.sideEffect
  }

  lemma RecordMember(e: Envelope, raw: map<string, Provider>, actions: seq<Action>, r: Record)
    ensures r in RecordsOf(e, raw, actions) <==> exists i :: 0 <= i < |actions| && r in RecordsBy(e, raw, actions[i])
  {
    FlatMember(Parts(RecordsWith(e, raw), actions), r);
  }

  /** The uses that are refused are exactly those with a blocked record. */
  lemma BlockedMeaning(e: Envelope, config: Configuration, extra: set<string>, raw: map<string, Provider>, actions: seq<Action>)
    requires PassedChild(e, config, extra, raw)
    ensures (exists x :: x in RecordsOf(e, raw, actions) && x.observed == Blocked)
            <==> exists i :: 0 <= i < |actions| && WillBeRefused(e, config, actions[i])
  {
    forall i | 0 <= i < |actions| && actions[i].Use? && actions[i].capability in FIRST_SLICE
      ensures WillBeRefused(e, config, actions[i]) <==> RecordOf(e, CallOf(raw, actions[i])).observed == Blocked
      ensures RecordOf(e, CallOf(raw, actions[i])) in RecordsOf(e, raw, actions)
    {
      DenialMeaning(e, config, extra, raw, actions[i]);
      RecordMember(e, raw, actions, RecordOf(e, CallOf(raw, actions[i])));
    }
    if x :| x in RecordsOf(e, raw, actions) && x.observed == Blocked {
      RecordMember(e, raw, actions, x);
    }
  }

  lemma DriftIsBlocked(e: Envelope, ids: set<string>)
    requires ids != {}
    ensures exists x :: x in DriftRecords(e, SortedKeys(ids)) && x.observed == Blocked
  {
    var c :| c in ids;
    assert c in SortedKeys(ids);
    var i :| 0 <= i < |SortedKeys(ids)| && SortedKeys(ids)[i] == c;
    assert DriftRecords(e, SortedKeys(ids))[i].observed == Blocked;
  }

  /** One blocked record for each of these capabilities, in this order. */
  ghost predicate BlockedFor(records: seq<Record>, ids: seq<string>) {
    |records| == |ids| && forall i :: 0 <= i < |ids| ==> records[i].capability == ids[i] && records[i].observed == Blocked
  }

  /**
   The result class over the inputs: BLOCKED exactly when a capability asked for on top was not
   admitted, so that nothing ran, or some use is refused; otherwise it is how the workload ended.
   */
  lemma ResultMeaning(e: Envelope, config: Configuration, extra: set<string>, actions: seq<Action>, end: Ending,
                      result: ChildResult, reached: seq<Reach>)
    requires HostIssued(e) && IsRun(e, config, extra, actions, end, result, reached)
    ensures SdkResultClass(result) == BLOCKED <==>
            Drifts(e, extra) || exists i :: 0 <= i < |actions| && WillBeRefused(e, config, actions[i])
    ensures SdkResultClass(result) == SUCCESS ==> end == Completed(true)
    ensures SdkResultClass(result) == FAILED ==> end != Completed(true)
    ensures Drifts(e, extra) ==> reached == []
    ensures Drifts(e, extra) ==> BlockedFor(result.records, SortedKeys(extra * FIRST_SLICE - Elements(e.admitted)))
  {
    var raw := RunOf(e, config, extra, actions, end, result, reached);
    if Drifts(e, extra) {
      DriftIsBlocked(e, Revalidate(e, raw.Keys).ids);
    } else {
      BlockedMeaning(e, config, extra, raw, actions);
    }
  }

  lemma {:induction false} FirstBlockedFound(rs: seq<Record>)
    ensures FirstBlocked(rs).Some? <==> exists x :: x in rs && x.observed == Blocked
    ensures FirstBlocked(rs).Some? ==> FirstBlocked(rs).value in rs && FirstBlocked(rs).value.observed == Blocked
    decreases |rs|
  {
    if rs != [] {
      var n := |rs| - 1;
      FirstBlockedFound(rs[..n]);
      assert rs == rs[..n] + [rs[n]];
    }
  }

  lemma {:induction false} FirstBlockedAppend(rs: seq<Record>, more: seq<Record>)
    ensures FirstBlocked(rs + more) == if FirstBlocked(rs).Some? then FirstBlocked(rs) else FirstBlocked(more)
    decreases |more|
  {
    if more == [] {
      assert rs + more == rs;
    } else {
      var n := |more| - 1;
      FirstBlockedAppend(rs, more[..n]);
      assert (rs + more)[..|rs| + n] == rs + more[..n];
    }
  }

  /** Among parts, the first blocked record is that of the first part that has one. */
  lemma {:induction false} FirstBlockedPart(parts: seq<seq<Record>>, i: nat)
    requires i < |parts| && FirstBlocked(parts[i]).Some?
    requires forall j :: 0 <= j < i ==> FirstBlocked(parts[j]).None?
    ensures FirstBlocked(Flat(parts)) == FirstBlocked(parts[i])
    decreases |parts|
  {
    var n := |parts| - 1;
    FirstBlockedAppend(Flat(parts[..n]), parts[n]);
    if i < n {
      FirstBlockedPart(parts[..n], i);
    } else {
      NothingBlocked(parts[..n]);
    }
  }

  lemma {:induction false} NothingBlocked(parts: seq<seq<Record>>)
    requires forall j :: 0 <= j < |parts| ==> FirstBlocked(parts[j]).None?
    ensures FirstBlocked(Flat(parts)).None?
    decreases |parts|
  {
    if parts != [] {
      var n := |parts| - 1;
      NothingBlocked(parts[..n]);
      FirstBlockedAppend(Flat(parts[..n]), parts[n]);
    }
  }

  /** Which refusal a use meets. */
  function Refusal(e: Envelope, capability: string): (d: DenialClass) {
    if capability !in e.declared then UndeclaredUse else if capability !in e.admitted then Denied else AdmittedUnavailable
  }

  lemma RefusalRecorded(e: Envelope, config: Configuration, extra: set<string>, raw: map<string, Provider>, a: Action)
    requires PassedChild(e, config, extra, raw)
    ensures FirstBlocked(RecordsBy(e, raw, a)) ==
            if WillBeRefused(e, config, a) then Some(BlockedRecord(e, a.capability, Refusal(e, a.capability))) else None
  {
    if a.Use? && a.capability in FIRST_SLICE {
      DenialMeaning(e, config, extra, raw, a);
      FirstBlockedAppend([], RecordsBy(e, raw, a));
    }
  }

  /** The first blocked record is that of the first refused use. */
  lemma FirstRefusalRecorded(e: Envelope, config: Configuration, extra: set<string>, raw: map<string, Provider>,
                             actions: seq<Action>, i: nat)
    requires PassedChild(e, config, extra, raw)
    requires i < |actions| && WillBeRefused(e, config, actions[i])
    requires forall j :: 0 <= j < i ==> !WillBeRefused(e, config, actions[j])
    ensures FirstBlocked(RecordsOf(e, raw, actions))
         == Some(BlockedRecord(e, actions[i].capability, Refusal(e, actions[i].capability)))
  {
    forall j | 0 <= j < i ensures FirstBlocked(RecordsBy(e, raw, actions[j])).None? {
      RefusalRecorded(e, config, extra, raw, actions[j]);
    }
    RefusalRecorded(e, config, extra, raw, actions[i]);
    FirstBlockedPart(Parts(RecordsWith(e, raw), actions), i);
  }

  lemma DenialTextIsBare(d: DenialClass)
    requires d != NoDenial
    ensures DenialText(d) != "" && Strip(DenialText(d)) == DenialText(d)
  {
    var t := DenialText(d);
    assert !IsSpace(t[0]) && !IsSpace(t[|t| - 1]);
  }

  lemma FailureOfBlocked(r: ChildResult)
    requires FirstBlocked(r.records).Some? && FirstBlocked(r.records).value.denial != NoDenial
    ensures SdkFailureClass(r) == "sdk_capability_" + DenialText(FirstBlocked(r.records).value.denial)
  {
    DenialTextIsBare(FirstBlocked(r.records).value.denial);
  }

  lemma FirstBlockedOfDrift(e: Envelope, ids: set<string>)
    requires ids != {}
    ensures var x := FirstBlocked(DriftRecords(e, SortedKeys(ids))); x.Some? && x.value.denial == AuthorizationDrift
  {
    DriftIsBlocked(e, ids);
    FirstBlockedFound(DriftRecords(e, SortedKeys(ids)));
  }

  /** The failure class names the denial of the first refused use. */
  lemma FailureNamesFirstRefusal(e: Envelope, config: Configuration, extra: set<string>, actions: seq<Action>, end: Ending,
                                 result: ChildResult, reached: seq<Reach>, i: nat)
    requires HostIssued(e) && IsRun(e, config, extra, actions, end, result, reached) && !Drifts(e, extra)
    requires i < |actions| && WillBeRefused(e, config, actions[i])
    requires forall j :: 0 <= j < i ==> !WillBeRefused(e, config, actions[j])
    ensures SdkFailureClass(result) ==
            if actions[i].capability !in e.declared then "sdk_capability_undeclared_use"
            else if actions[i].capability !in e.admitted then "sdk_capability_denied"
            else "sdk_capability_admitted_unavailable"
  {
    var raw := RunOf(e, config, extra, actions, end, result, reached);
    FirstRefusalRecorded(e, config, extra, raw, actions, i);
    FailureOfBlocked(result);
    ClassTexts();
  }

  /** On drift the failure class names the drift. */
  lemma FailureNamesDrift(e: Envelope, config: Configuration, extra: set<string>, actions: seq<Action>, end: Ending,
                          result: ChildResult, reached: seq<Reach>)
    requires HostIssued(e) && IsRun(e, config, extra, actions, end, result, reached) && Drifts(e, extra)
    ensures SdkFailureClass(result) == "sdk_capability_authorization_drift"
  {
    var raw := RunOf(e, config, extra, actions, end, result, reached);
    FirstBlockedOfDrift(e, Revalidate(e, raw.Keys).ids);
    FailureOfBlocked(result);
    ClassTexts();
  }

  lemma ClassTexts()
    ensures "sdk_capability_" + DenialText(AuthorizationDrift) == "sdk_capability_authorization_drift"
    ensures "sdk_capability_" + DenialText(UndeclaredUse) == "sdk_capability_undeclared_use"
    ensures "sdk_capability_" + DenialText(Denied) == "sdk_capability_denied"
    ensures "sdk_capability_" + DenialText(AdmittedUnavailable) == "sdk_capability_admitted_unavailable"
  {
  }

  lemma FailureOfUnblocked(end: Ending, records: seq<Record>)
    requires FirstBlocked(records).None?
    ensures var c := SdkFailureClass(Finish(end, records));
            match end
            case Completed(_) => c == "sdk_workload_failed"
            case Raised(t) => c == if t == "" then "sdk_workload_SdkSubprocessRunError" else "sdk_workload_" + t
  {
    assert "sdk_workload_" + "SdkSubprocessRunError" == "sdk_workload_SdkSubprocessRunError";
  }

  /** With neither drift nor refused use it tells how the workload ended. */
  lemma FailureNamesEnding(e: Envelope, config: Configuration, extra: set<string>, actions: seq<Action>, end: Ending,
                           result: ChildResult, reached: seq<Reach>)
    requires HostIssued(e) && IsRun(e, config, extra, actions, end, result, reached) && !Drifts(e, extra)
    requires forall j :: 0 <= j < |actions| ==> !WillBeRefused(e, config, actions[j])
    ensures end.Completed? ==> SdkFailureClass(result) == "sdk_workload_failed"
    ensures end.Raised? && end.errorType != "" ==> SdkFailureClass(result) == "sdk_workload_" + end.errorType
    ensures end == Raised("") ==> SdkFailureClass(result) == "sdk_workload_SdkSubprocessRunError"
  {
    var raw := RunOf(e, config, extra, actions, end, result, reached);
    forall j | 0 <= j < |actions| ensures FirstBlocked(RecordsBy(e, raw, actions[j])).None? {
      RefusalRecorded(e, config, extra, raw, actions[j]);
    }
    NothingBlocked(Parts(RecordsWith(e, raw), actions));
    FailureOfUnblocked(end, RecordsOf(e, raw, actions));
  }

  // ----- Side effects -----

  /** A governed use that is let run, does not throw, and that its wrapper counts as a side effect. */
  predicate HasEffect(e: Envelope, config: Configuration, a: Action) {
    && a.Use? && a.capability in FIRST_SLICE && !WillBeRefused(e, config, a)
    && a.answer.Answers? && Effect(a.capability, a.reading, Silent(config, a.capability), a.answer.ok)
  }

  lemma EffectRecorded(e: Envelope, config: Configuration, extra: set<string>, raw: map<string, Provider>, a: Action)
    requires PassedChild(e, config, extra, raw)
    ensures HasEffect(e, config, a) <==> exists x :: x in RecordsBy(e, raw, a) && x.sideEffect
  {
    if a.Use? && a.capability in FIRST_SLICE {
      DenialMeaning(e, config, extra, raw, a);
      if Needed(a.capability) == Player && Delegate(raw, a.capability).Some? {
        SilentMeaning(e, config, extra, raw, a.capability);
      }
      assert RecordOf(e, CallOf(raw, a)) in RecordsBy(e, raw, a);
    }
  }

  lemma EffectsRecorded(e: Envelope, config: Configuration, extra: set<string>, raw: map<string, Provider>, actions: seq<Action>)
    requires PassedChild(e, config, extra, raw)
    ensures (exists x :: x in RecordsOf(e, raw, actions) && x.sideEffect) <==>
            exists i :: 0 <= i < |actions| && HasEffect(e, config, actions[i])
  {
    if x :| x in RecordsOf(e, raw, actions) && x.sideEffect {
      RecordMember(e, raw, actions, x);
      var i :| 0 <= i < |actions| && x in RecordsBy(e, raw, actions[i]);
      EffectRecorded(e, config, extra, raw, actions[i]);
    }
    if i :| 0 <= i < |actions| && HasEffect(e, config, actions[i]) {
      EffectRecorded(e, config, extra, raw, actions[i]);
      var x :| x in RecordsBy(e, raw, actions[i]) && x.sideEffect;
      RecordMember(e, raw, actions, x);
    }
  }

  /**
   A run reports a side effect exactly when, without drift, a use is let run that acts outside:
   a memory write or turn control that succeeds, or a player that is not silent.
   */
  lemma SideEffectMeaning(e: Envelope, config: Configuration, extra: set<string>, actions: seq<Action>, end: Ending,
                          result: ChildResult, reached: seq<Reach>)
    requires HostIssued(e) && IsRun(e, config, extra, actions, end, result, reached)
    ensures SdkSideEffectObserved(result) <==>
            && !Drifts(e, extra)
            && exists i :: 0 <= i < |actions| && ActsOutside(config, actions[i]) && !WillBeRefused(e, config, actions[i])
  {
    var raw := RunOf(e, config, extra, actions, end, result, reached);
    if !Drifts(e, extra) {
      EffectsRecorded(e, config, extra, raw, actions);
      forall i | 0 <= i < |actions|
        ensures HasEffect(e, config, actions[i]) <==>
                ActsOutside(config, actions[i]) && !WillBeRefused(e, config, actions[i])
      {
        EffectIsOutside(e, config, actions[i]);
      }
    }
  }

  /** The uses that change something outside: a write, turn control, or a player with sound. */
  predicate ActsOutside(config: Configuration, a: Action) {
    && a.Use? && a.answer.Answers?
    && (|| ((a.capability == WRITE || (a.capability == "voice.turn_control" && !a.reading)) && a.answer.ok == Some(true))
        || ((a.capability == "audio.play" || a.capability == "speech.play_clip") && !Silent(config, a.capability)))
  }

  lemma EffectIsOutside(e: Envelope, config: Configuration, a: Action)
    ensures HasEffect(e, config, a) <==> ActsOutside(config, a) && !WillBeRefused(e, config, a)
  {
    if a.capability in FIRST_SLICE {
      PlayersAreTwo(a.capability);
    }
  }

  lemma PlayersAreTwo(c: string)
    requires c in FIRST_SLICE
    ensures Needed(c) == Player <==> c == "audio.play" || c == "speech.play_clip"
    ensures Needed(c) == TurnControl <==> c == "voice.turn_control"
  {
  }
}
