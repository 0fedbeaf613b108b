/**
 SDK capability authorization: which capabilities a workload declared, which of them the host
 admits, what the child process registers, and the check that it registered no more.
 */
module Authorization {
  import opened Collections
  import opened PyText
  import opened Utf8Order

  const AUTHORIZATION_SURFACE := "host_authorized_capability_registry_v1"
  const AUTHORIZATION_POLICY_VERSION := "extension_capability_authorization.v1"

  const FIRST_SLICE: set<string> := {
    "audio.play", "memory.query", "memory.write", "model.generate",
    "speech.play_clip", "speech.transcribe", "tts.speak", "voice.turn_control"
  }

  const VOCABULARY: set<string> := FIRST_SLICE + {"workspace.root", "artifact.root", "time.now", "rng", "screen.render"}

  const ROOTS: set<string> := {"workspace.root", "artifact.root"}

  // ----- Capability lists -----

  /** Stripped, non-blank, repeat-free, in code-point order. */
  ghost predicate Normal(s: seq<string>) {
    && NoRepeats(s) && Ordered(s, PythonOrder())
    && forall i :: 0 <= i < |s| ==> s[i] != "" && Strip(s[i]) == s[i]
  }

  ghost function Names(values: seq<string>): (r: set<string>) {
    set i | 0 <= i < |values| && Strip(values[i]) != "" :: Strip(values[i])
  }

  /** `_normalize_capability_list`: the distinct stripped names, sorted. */
  method NormalizeCapabilityList(values: seq<string>) returns (r: seq<string>)
    ensures Normal(r) && Elements(r) == Names(values)
  {
    var seen: set<string> := {};
    r := [];
    for i := 0 to |values|
      invariant NoRepeats(r) && Elements(r) == seen == Names(values[..i])
      invariant forall k :: 0 <= k < |r| ==> r[k] != "" && Strip(r[k]) == r[k]
    {
      NamesGrow(values, i);
      StripSettles(values[i]);
      var id := Strip(values[i]);
      if id != "" && id !in seen {
        seen := seen + {id};
        ElementsGrow(r, id);
        r := r + [id];
      }
    }
    assert values[..|values|] == values;
    NormalSort(r);
    r := Sort(r, PythonOrder());
  }

  lemma NamesGrow(values: seq<string>, i: nat)
    requires i < |values|
    ensures Names(values[..i + 1]) == Names(values[..i]) + (if Strip(values[i]) != "" then {Strip(values[i])} else {})
  {
    var a, b := values[..i], values[..i + 1];
    forall x | x in Names(b) ensures x in Names(a) || x == Strip(values[i]) {
      var k :| 0 <= k < |b| && Strip(b[k]) != "" && x == Strip(b[k]);
      if k < i { assert a[k] == b[k]; }
    }
    forall x | x in Names(a) ensures x in Names(b) {
      var k :| 0 <= k < |a| && Strip(a[k]) != "" && x == Strip(a[k]);
      assert a[k] == b[k];
    }
    assert b[i] == values[i];
  }

  lemma ElementsGrow(r: seq<string>, x: string)
    requires NoRepeats(r) && x !in Elements(r)
    ensures NoRepeats(r + [x]) && Elements(r + [x]) == Elements(r) + {x}
  {
    assert forall y :: y in r ==> y in Elements(r);
  }

  lemma NormalSort(r: seq<string>)
    requires NoRepeats(r) && forall k :: 0 <= k < |r| ==> r[k] != "" && Strip(r[k]) == r[k]
    ensures Normal(Sort(r, PythonOrder())) && Elements(Sort(r, PythonOrder())) == Elements(r)
  {
    PythonOrderIsTotal();
    SortFacts(r, PythonOrder());
    var s := Sort(r, PythonOrder());
    forall k | 0 <= k < |s| ensures s[k] != "" && Strip(s[k]) == s[k] {
      assert s[k] in r;
    }
  }

  /** A normal list is the only normal list of its names. */
  lemma NormalIsUnique(s: seq<string>, t: seq<string>)
    requires Normal(s) && Normal(t) && Elements(s) == Elements(t)
    ensures s == t
  {
    ListingIsUnique(s, t);
  }

  lemma NamesOfNormal(s: seq<string>)
    requires Normal(s)
    ensures Names(s) == Elements(s)
  {
    forall x | x in Elements(s) ensures x in Names(s) {
      var i :| 0 <= i < |s| && s[i] == x;
      assert Strip(s[i]) == x;
    }
  }

  // ----- The envelope -----

  datatype Envelope = Envelope(
    extensionId: string,
    workloadId: string,
    runId: string,
    declared: seq<string>,
    admitted: seq<string>,
    basis: string,
    policyVersion: string,
    digest: string)

  /** Which declared capabilities a narrowing admits: an empty narrowing narrows nothing. */
  predicate Admits(narrowed: set<string>, capability: string) {
    capability !in FIRST_SLICE || narrowed == {} || capability in narrowed
  }

  function Filter(s: seq<string>, narrowed: set<string>): (r: seq<string>) {
    if s == [] then []
    else (if Admits(narrowed, s[0]) then [s[0]] else []) + Filter(s[1..], narrowed)
  }

  lemma {:induction false} FilterElements(s: seq<string>, narrowed: set<string>)
    ensures forall x :: x in Filter(s, narrowed) <==> x in s && Admits(narrowed, x)
  {
    if s != [] {
      FilterElements(s[1..], narrowed);
      assert forall x :: x in s <==> x == s[0] || x in s[1..];
    }
  }

  lemma NormalRest(s: seq<string>)
    requires Normal(s) && s != []
    ensures Normal(s[1..]) && forall x :: x in s[1..] ==> x != s[0] && PythonOrder()(s[0], x)
  {
    forall x | x in s[1..] ensures x != s[0] && PythonOrder()(s[0], x) {
      var j :| 0 <= j < |s[1..]| && s[1..][j] == x;
      assert s[j + 1] == x;
    }
  }

  lemma NormalCons(x: string, s: seq<string>)
    requires Normal(s) && x != "" && Strip(x) == x
    requires forall y :: y in s ==> y != x && PythonOrder()(x, y)
    ensures Normal([x] + s)
  {
    OrderedCons(x, s, PythonOrder());
  }

  lemma {:induction false} FilterNormal(s: seq<string>, narrowed: set<string>)
    requires Normal(s)
    ensures Normal(Filter(s, narrowed))
    decreases |s|
  {
    if s != [] {
      var rest := Filter(s[1..], narrowed);
      NormalRest(s);
      FilterNormal(s[1..], narrowed);
      FilterElements(s[1..], narrowed);
      if Admits(narrowed, s[0]) {
        NormalCons(s[0], rest);
      } else {
        assert Filter(s, narrowed) == rest;
      }
    }
  }

  /** What the host issues: normal lists, and nothing admitted that was not declared. */
  ghost predicate HostIssued(e: Envelope) {
    Normal(e.declared) && Normal(e.admitted) && Elements(e.admitted) <= Elements(e.declared)
  }

  /**
   What a narrowing leaves: an empty one admits everything declared; any other admits, of the first
   slice, exactly what is both declared and in it, and everything else that is declared.
   */
  ghost predicate NarrowedTo(e: Envelope, admitOnly: seq<string>) {
    && (admitOnly == [] ==> e.admitted == e.declared)
    && (admitOnly != [] ==> forall c :: c in FIRST_SLICE ==> (c in e.admitted <==> c in e.declared && c in admitOnly))
    && (forall c :: c !in FIRST_SLICE ==> (c in e.admitted <==> c in e.declared))
  }

  lemma AdmitsNarrows(e: Envelope, admitOnly: seq<string>)
    requires Normal(e.declared) && Normal(e.admitted)
    requires forall c :: c in e.admitted <==> c in e.declared && Admits(Elements(admitOnly), c)
    ensures NarrowedTo(e, admitOnly)
  {
    if admitOnly == [] {
      assert Elements(admitOnly) == {};
      assert Elements(e.admitted) == Elements(e.declared);
      NormalIsUnique(e.admitted, e.declared);
    } else {
      assert admitOnly[0] in Elements(admitOnly);
    }
  }

  datatype Built = Built(envelope: Envelope) | Invalid(names: set<string>)

  /**
   The host's envelope. Undeclarable names are reported together; otherwise the admitted
   capabilities are exactly the declared ones the narrowing lets through.
   */
  method BuildHostAuthorizationEnvelope(extensionId: string, workloadId: string, runId: string,
                                        declaredCapabilities: seq<string>, admitOnly: seq<string>, digest: string)
    returns (r: Built)
    ensures r.Invalid? <==> !(Names(declaredCapabilities) <= VOCABULARY)
    ensures r.Invalid? ==> r.names == Names(declaredCapabilities) - VOCABULARY
    ensures r.Built? ==> HostIssued(r.envelope)
    ensures r.Built? ==> Elements(r.envelope.declared) == Names(declaredCapabilities)
    ensures r.Built? ==> NarrowedTo(r.envelope, admitOnly)
    ensures r.Built? ==> r.envelope == Envelope(extensionId, workloadId, runId, r.envelope.declared, r.envelope.admitted,
                                                AUTHORIZATION_SURFACE, AUTHORIZATION_POLICY_VERSION, digest)
  {
    var declared := NormalizeCapabilityList(declaredCapabilities);
    var invalid := Elements(declared) - VOCABULARY;
    if invalid != {} {
      return Invalid(invalid);
    }
    var narrowed := Elements(admitOnly);
    FilterElements(declared, narrowed);
    FilterNormal(declared, narrowed);
    r := Built(Envelope(extensionId, workloadId, runId, declared, Filter(declared, narrowed),
                        AUTHORIZATION_SURFACE, AUTHORIZATION_POLICY_VERSION, digest));
    AdmitsNarrows(r.envelope, admitOnly);
  }

  /** The payload the host hands the child: the same fields, lists as lists. */
  datatype Payload = Payload(
    extensionId: string,
    workloadId: string,
    runId: string,
    declaredCapabilities: seq<string>,
    admittedCapabilities: seq<string>,
    basis: string,
    policyVersion: string,
    digest: string)

  function ToPayload(e: Envelope): (p: Payload) {
    Payload(e.extensionId, e.workloadId, e.runId, e.declared, e.admitted, e.basis, e.policyVersion, e.digest)
  }

  /** The child's reading of a payload: lists are normalised again. */
  method FromPayload(p: Payload) returns (e: Envelope)
    ensures Normal(e.declared) && Elements(e.declared) == Names(p.declaredCapabilities)
    ensures Normal(e.admitted) && Elements(e.admitted) == Names(p.admittedCapabilities)
    ensures e == Envelope(p.extensionId, p.workloadId, p.runId, e.declared, e.admitted, p.basis, p.policyVersion, p.digest)
  {
    var declared := NormalizeCapabilityList(p.declaredCapabilities);
    var admitted := NormalizeCapabilityList(p.admittedCapabilities);
    e := Envelope(p.extensionId, p.workloadId, p.runId, declared, admitted, p.basis, p.policyVersion, p.digest);
  }

  /** An envelope survives the trip to the child unchanged exactly when its lists are normal, as the host's always are. */
  method PayloadRoundTrip(e: Envelope) returns (back: Envelope)
    ensures back == e <==> Normal(e.declared) && Normal(e.admitted)
  {
    back := FromPayload(ToPayload(e));
    if Normal(e.declared) && Normal(e.admitted) {
      NamesOfNormal(e.declared);
      NamesOfNormal(e.admitted);
      NormalIsUnique(e.declared, back.declared);
      NormalIsUnique(e.admitted, back.admitted);
    }
  }
}
