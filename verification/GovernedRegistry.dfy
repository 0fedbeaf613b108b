/** The registry a workload sees: the first slice behind governed wrappers, everything else passed through. */
module GovernedRegistry {
  import opened Collections
  import opened Utf8Order
  import opened Authorization
  import opened CapabilityRegistry

  datatype Entry = Plain(provider: Provider) | Governed(delegate: Option<Provider>)

  const WRITE := "memory.write"
  const QUERY := "memory.query"

  /** The wrappers, in the order they are registered. */
  const WRAPPERS: seq<string> := [
    "model.generate", WRITE, QUERY, "speech.transcribe", "tts.speak", "audio.play", "speech.play_clip", "voice.turn_control"
  ]

  /** The interface a wrapper asks of its delegate. */
  function Needed(capability: string): (r: Interface) {
    if capability == "model.generate" then LLM
    else if capability == WRITE || capability == QUERY then Memory
    else if capability == "speech.transcribe" then STT
    else if capability == "tts.speak" then TTS
    else if capability == "voice.turn_control" then TurnControl
    else Player
  }

  function Get(providers: map<string, Provider>, id: string): (r: Option<Provider>) {
    if id in providers then Some(providers[id]) else None
  }

  /** Python's `a or b`. */
  function FirstTruthy(a: Option<Provider>, b: Option<Provider>): (r: Option<Provider>) {
    if a.Some? && a.value.truthy then a else b
  }

  /** What stands behind a wrapper before its interface is looked at. The two memory wrappers share one. */
  function Candidate(raw: map<string, Provider>, capability: string): (r: Option<Provider>) {
    if capability == WRITE || capability == QUERY then FirstTruthy(Get(raw, WRITE), Get(raw, QUERY))
    else Get(raw, capability)
  }

  /** The provider a governed capability delegates to. */
  function Delegate(raw: map<string, Provider>, capability: string): (r: Option<Provider>) {
    var candidate := Candidate(raw, capability);
    if candidate.Some? && Needed(capability) in candidate.value.interfaces then candidate else None
  }

  ghost predicate IsGoverned(raw: map<string, Provider>, governed: map<string, Entry>) {
    && governed.Keys == raw.Keys + FIRST_SLICE
    && forall k :: k in governed ==>
         governed[k] == if k in FIRST_SLICE then Governed(Delegate(raw, k)) else Plain(raw[k])
  }

  lemma WrappersDiffer()
    ensures NoRepeats(WRAPPERS)
  {
    var w := WRAPPERS;
    assert w[1][7] == 'w' && w[2][7] == 'q';
    assert forall i, j :: 0 <= i < j < |w| && !(i == 1 && j == 2) ==> |w[i]| != |w[j]|;
  }

  lemma WrapperIsFirstSlice(i: nat)
    requires i < |WRAPPERS|
    ensures WRAPPERS[i] in FIRST_SLICE && WRAPPERS[i] != ""
  {
    assert i == 0 || i == 1 || i == 2 || i == 3 || i == 4 || i == 5 || i == 6 || i == 7;
  }

  lemma FirstSliceIsWrapped(c: string)
    requires c in FIRST_SLICE
    ensures c in WRAPPERS
  {
    var w := WRAPPERS;
    assert w[0] in w && w[1] in w && w[2] in w && w[3] in w && w[4] in w && w[5] in w && w[6] in w && w[7] in w;
  }

  lemma WrappersAreTheFirstSlice()
    ensures Elements(WRAPPERS) == FIRST_SLICE && "" !in Elements(WRAPPERS)
  {
    forall c | c in FIRST_SLICE ensures c in Elements(WRAPPERS) {
      FirstSliceIsWrapped(c);
    }
    forall c | c in Elements(WRAPPERS) ensures c in FIRST_SLICE && c != "" {
      var i :| 0 <= i < |WRAPPERS| && WRAPPERS[i] == c;
      WrapperIsFirstSlice(i);
    }
  }

  /** Every registration is accepted, unless the raw registry holds the blank id, as no built one does. */
  method BuildGovernedRegistry(raw: Registry<Provider>) returns (governed: Registry<Entry>, raised: bool)
    ensures fresh(governed)
    ensures raised <==> "" in raw.providers
    ensures !raised ==> IsGoverned(raw.providers, governed.providers)
  {
    governed := new Registry();
    var ids := SortedListing(raw.providers.Keys);
    raised := RegisterPlain(raw, governed, ids);
    ghost var plain := governed.providers;
    WrappersDiffer();
    WrappersAreTheFirstSlice();
    var refused := RegisterWrappers(raw.providers, governed, WRAPPERS);
    raised := raised || refused;
    if !raised {
      PlainAndWrapped(raw.providers, plain, governed.providers);
    }
  }

  lemma PlainAndWrapped(raw: map<string, Provider>, plain: map<string, Entry>, governed: map<string, Entry>)
    requires plain.Keys == raw.Keys - FIRST_SLICE && (forall k :: k in plain ==> plain[k] == Plain(raw[k]))
    requires governed.Keys == plain.Keys + FIRST_SLICE
    requires forall k :: k in governed ==> governed[k] == if k in plain then plain[k] else Governed(Delegate(raw, k))
    ensures IsGoverned(raw, governed)
  {
  }

  /** Wrappers under new ids are all accepted. */
  method RegisterWrappers(raw: map<string, Provider>, governed: Registry<Entry>, order: seq<string>) returns (refused: bool)
    requires NoRepeats(order) && "" !in Elements(order) && Elements(order) !! governed.providers.Keys
    modifies governed
    ensures !refused
    ensures governed.providers.Keys == old(governed.providers.Keys) + Elements(order)
    ensures forall k :: k in governed.providers ==>
              governed.providers[k]
                == if k in old(governed.providers) then old(governed.providers)[k] else Governed(Delegate(raw, k))
  {
    refused := false;
    for i := 0 to |order|
      invariant governed.providers.Keys == old(governed.providers.Keys) + Elements(order[..i])
      invariant forall k :: k in governed.providers ==>
                  governed.providers[k]
                    == if k in old(governed.providers) then old(governed.providers)[k] else Governed(Delegate(raw, k))
      invariant !refused
    {
      assert order[i] in Elements(order);
      assert order[..i + 1] == order[..i] + [order[i]];
      var accepted := governed.Register(order[i], Governed(Delegate(raw, order[i])));
      refused := refused || !accepted;
    }
    assert order[..|order|] == order;
  }

  /** The ids outside the first slice keep their providers. */
  method RegisterPlain(raw: Registry<Provider>, governed: Registry<Entry>, ids: seq<string>) returns (raised: bool)
    requires NoRepeats(ids) && Elements(ids) == raw.providers.Keys && governed.providers == map[]
    modifies governed
    ensures raised <==> "" in raw.providers
    ensures !raised ==> governed.providers.Keys == raw.providers.Keys - FIRST_SLICE
    ensures governed.providers.Keys <= raw.providers.Keys - FIRST_SLICE
    ensures forall k :: k in governed.providers ==> governed.providers[k] == Plain(raw.providers[k])
  {
    raised := false;
    for i := 0 to |ids|
      invariant raised <==> "" in ids[..i]
      invariant governed.providers.Keys == Elements(ids[..i]) - FIRST_SLICE - {""}
      invariant governed.providers.Keys <= raw.providers.Keys
      invariant forall k :: k in governed.providers ==> governed.providers[k] == Plain(raw.providers[k])
    {
      assert ids[..i + 1] == ids[..i] + [ids[i]];
      assert ids[i] in Elements(ids);
      if ids[i] !in FIRST_SLICE {
        var accepted := governed.Register(ids[i], Plain(raw.providers[ids[i]]));
        raised := raised || !accepted;
      }
    }
    assert ids[..|ids|] == ids;
    assert "" in ids <==> "" in Elements(ids);
  }

  // ----- What stands behind the wrappers -----

  /** A child that got past revalidation: the host's envelope, and the registry built from it, the configuration and extras. */
  ghost predicate PassedChild(e: Envelope, config: Configuration, extra: set<string>, raw: map<string, Provider>) {
    && HostIssued(e)
    && IsBuilt(raw, config, Some(Elements(e.admitted)), extra)
    && Revalidate(e, raw.Keys).Instantiated?
  }

  /** Such a child's registry holds a first-slice capability exactly when it was admitted. */
  lemma FirstSliceIsAdmitted(e: Envelope, config: Configuration, extra: set<string>, raw: map<string, Provider>, c: string)
    requires PassedChild(e, config, extra, raw) && c in FIRST_SLICE
    ensures c in raw <==> c in e.admitted
    ensures c in raw ==> c in e.declared
  {
    FirstSliceIsWhatWasEnabled(config.items, Elements(e.admitted), extra);
    assert c in raw <==> c in (Elements(e.admitted) + extra) * FIRST_SLICE;
    assert c in raw && c !in e.admitted ==> c in raw.Keys * FIRST_SLICE - Elements(e.admitted);
    assert c in e.admitted ==> c in Elements(e.declared);
  }

  /** Whatever a wrapper delegates to is the registered provider of an admitted capability, its own or the other memory one. */
  lemma DelegatesAreAdmitted(e: Envelope, config: Configuration, extra: set<string>, raw: map<string, Provider>, c: string)
    returns (a: string)
    requires PassedChild(e, config, extra, raw) && c in FIRST_SLICE && Delegate(raw, c).Some?
    ensures a in FIRST_SLICE && a in raw && raw[a] == Delegate(raw, c).value
    ensures a in e.admitted && a in e.declared
    ensures a == c || {a, c} == {WRITE, QUERY}
  {
    var memory := c == WRITE || c == QUERY;
    a := if !memory then c else if WRITE in raw && raw[WRITE].truthy then WRITE else QUERY;
    assert WRITE in FIRST_SLICE && QUERY in FIRST_SLICE;
    FirstSliceIsAdmitted(e, config, extra, raw, a);
  }

  // ----- When an admitted capability is unavailable -----

  /** Nothing is configured under the id, or what is implements the interface its wrapper asks for. */
  predicate Fits(config: Configuration, id: string) {
    FirstFor(config.items, id).None? || Needed(id) in FirstFor(config.items, id).value.interfaces
  }

  predicate Falsy(config: Configuration, id: string) {
    FirstFor(config.items, id).Some? && !FirstFor(config.items, id).value.truthy
  }

  /**
   The capabilities left without a delegate, told from the configuration and the admissions
   alone. A writer configured with a true value decides for both memory capabilities.
   */
  predicate Unserved(config: Configuration, admitted: seq<string>, c: string) {
    if c != WRITE && c != QUERY then !Fits(config, c)
    else if WRITE in admitted && !Falsy(config, WRITE) then !Fits(config, WRITE)
    else QUERY !in admitted || !Fits(config, QUERY)
  }

  lemma FallbackServes(sound: bool, c: string)
    requires c in FIRST_SLICE
    ensures var p := FirstFor(AsConfigured(Fallbacks(sound)), c);
            && p.Some? && Needed(c) in p.value.interfaces && p.value.truthy
            && (Needed(c) == Player ==> (NullPlayer in p.value.interfaces <==> !sound || c == "speech.play_clip"))
  {
    var fs := Fallbacks(sound);
    var items := AsConfigured(fs);
    FallbacksCoverFirstSlice(sound);
    FirstForFound(items, c);
    var i :| 0 <= i < |fs| && fs[i].0 == c;
    assert items[i].key == c;
    var p := FirstFor(items, c).value;
    var j :| 0 <= j < |items| && items[j] == Configured(c, p);
    FallbackFits(sound, j);
  }

  lemma FallbackFits(sound: bool, j: nat)
    requires j < |Fallbacks(sound)|
    ensures var f := Fallbacks(sound)[j];
            && Needed(f.0) in f.1.interfaces && f.1.truthy
            && (Needed(f.0) == Player ==> (NullPlayer in f.1.interfaces <==> !sound || f.0 == "speech.play_clip"))
  {
  }

  /** What a passed child has registered under an admitted first-slice id. */
  lemma AdmittedProvider(e: Envelope, config: Configuration, extra: set<string>, raw: map<string, Provider>, c: string)
    requires PassedChild(e, config, extra, raw) && c in FIRST_SLICE && c in e.admitted
    ensures c in raw
    ensures Needed(c) in raw[c].interfaces <==> Fits(config, c)
    ensures raw[c].truthy <==> !Falsy(config, c)
  {
    FirstSliceIsAdmitted(e, config, extra, raw, c);
    RootsAreNoSlice();
    FallbackServes(config.sound, c);
    assert Some(raw[c]) == BuiltProvider(config, c);
  }

  /** An admitted capability is unavailable exactly when the configuration leaves it without a delegate. */
  lemma UnavailableIffUnserved(e: Envelope, config: Configuration, extra: set<string>, raw: map<string, Provider>, c: string)
    requires PassedChild(e, config, extra, raw) && c in FIRST_SLICE && c in e.admitted
    ensures Delegate(raw, c).None? <==> Unserved(config, e.admitted, c)
  {
    AdmittedProvider(e, config, extra, raw, c);
    if c == WRITE || c == QUERY {
      MemoryProvider(e, config, extra, raw, WRITE);
      MemoryProvider(e, config, extra, raw, QUERY);
    }
  }

  lemma MemoryProvider(e: Envelope, config: Configuration, extra: set<string>, raw: map<string, Provider>, c: string)
    requires PassedChild(e, config, extra, raw) && (c == WRITE || c == QUERY)
    ensures c in raw <==> c in e.admitted
    ensures c in raw ==> (Memory in raw[c].interfaces <==> Fits(config, c)) && (raw[c].truthy <==> !Falsy(config, c))
  {
    assert WRITE in FIRST_SLICE && QUERY in FIRST_SLICE;
    FirstSliceIsAdmitted(e, config, extra, raw, c);
    if c in e.admitted {
      AdmittedProvider(e, config, extra, raw, c);
    }
  }

  // ----- Players -----

  /** The player behind a capability only pretends: a configured null player, or a fallback without sound. */
  predicate Silent(config: Configuration, c: string) {
    if FirstFor(config.items, c).Some? then NullPlayer in FirstFor(config.items, c).value.interfaces
    else !config.sound || c == "speech.play_clip"
  }

  lemma SilentMeaning(e: Envelope, config: Configuration, extra: set<string>, raw: map<string, Provider>, c: string)
    requires PassedChild(e, config, extra, raw) && c in FIRST_SLICE && Needed(c) == Player && Delegate(raw, c).Some?
    ensures NullPlayer in Delegate(raw, c).value.interfaces <==> Silent(config, c)
  {
    RootsAreNoSlice();
    FallbackServes(config.sound, c);
    assert Some(raw[c]) == BuiltProvider(config, c);
  }
}
