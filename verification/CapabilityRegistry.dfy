/** The child's registry: what the configuration and the host's admission put into it, and the check for drift. */
module CapabilityRegistry {
  import opened Collections
  import opened Authorization

  /** A provider is opaque but for the interfaces it implements and its truth value. */
  datatype Interface = LLM | Memory | STT | TTS | Player | NullPlayer | TurnControl
  datatype Provider = Provider(name: string, interfaces: set<Interface>, truthy: bool)

  class Registry<P> {
    var providers: map<string, P>

    constructor ()
      ensures providers == map[]
    {
      providers := map[];
    }

    /** Registering a blank id or one already taken is refused and changes nothing. */
    method Register(id: string, provider: P) returns (ok: bool)
      modifies this
      ensures ok <==> id != "" && id !in old(providers)
      ensures providers == if ok then old(providers)[id := provider] else old(providers)
    {
      if id == "" || id in providers {
        return false;
      }
      providers := providers[id := provider];
      return true;
    }
  }

  /** `_capability_enabled`: without an admitted set everything is; otherwise the first slice needs admission. */
  predicate Enabled(id: string, admitted: Option<set<string>>, extra: set<string>) {
    admitted.None? || id !in FIRST_SLICE || id in admitted.value || id in extra
  }

  /** A configured provider under its stripped key. */
  datatype Configured = Configured(key: string, provider: Provider)

  /** The configured providers, and whether the host has a sound device for the fallback player. */
  datatype Configuration = Configuration(items: seq<Configured>, sound: bool)

  ghost function ConfiguredIds(items: seq<Configured>, admitted: Option<set<string>>, extra: set<string>): (r: set<string>) {
    set i | 0 <= i < |items| && items[i].key != "" && Enabled(items[i].key, admitted, extra) :: items[i].key
  }

  /** What the built registry holds, said in one line. */
  ghost function BuiltKeys(items: seq<Configured>, admitted: Option<set<string>>, extra: set<string>): (r: set<string>) {
    ROOTS + ConfiguredIds(items, admitted, extra) + (set c | c in FIRST_SLICE && Enabled(c, admitted, extra))
  }

  /** The fallback of each first-slice capability, in the order the builder tries them. */
  function Fallbacks(sound: bool): (r: seq<(string, Provider)>) {
    [("tts.speak", Provider("tts", {TTS}, true)),
     ("audio.play", Provider("player", if sound then {Player} else {Player, NullPlayer}, true)),
     ("model.generate", Provider("local model", {LLM}, true)),
     ("memory.write", Provider("sqlite memory", {Memory}, true)),
     ("memory.query", Provider("sqlite memory", {Memory}, true)),
     ("speech.transcribe", Provider("host stt", {STT}, true)),
     ("voice.turn_control", Provider("host turn control", {TurnControl}, true)),
     ("speech.play_clip", Provider("null player", {Player, NullPlayer}, true))]
  }

  lemma FallbacksCoverFirstSlice(sound: bool)
    ensures forall c :: c in FIRST_SLICE <==> exists i :: 0 <= i < |Fallbacks(sound)| && Fallbacks(sound)[i].0 == c
  {
    var f := Fallbacks(sound);
    assert f[0].0 == "tts.speak" && f[1].0 == "audio.play" && f[2].0 == "model.generate" && f[3].0 == "memory.write";
    assert f[4].0 == "memory.query" && f[5].0 == "speech.transcribe";
    assert f[6].0 == "voice.turn_control" && f[7].0 == "speech.play_clip";
  }

  /** The provider of the first item configured under a key. */
  function FirstFor(items: seq<Configured>, key: string): (r: Option<Provider>) {
    if items == [] then None
    else
      var before, last := FirstFor(items[..|items| - 1], key), items[|items| - 1];
      if before.Some? then before else if last.key == key then Some(last.provider) else None
  }

  lemma {:induction false} FirstForFound(items: seq<Configured>, key: string)
    ensures FirstFor(items, key).Some? <==> exists i :: 0 <= i < |items| && items[i].key == key
    ensures FirstFor(items, key).Some? ==> Configured(key, FirstFor(items, key).value) in items
    decreases |items|
  {
    if items != [] {
      var n := |items| - 1;
      FirstForFound(items[..n], key);
      if i :| 0 <= i < n && items[..n][i].key == key {
        assert items[i].key == key;
      }
      if i :| 0 <= i < n && items[i].key == key {
        assert items[..n][i].key == key;
      }
    }
  }

  /** Of several items under a key the first one counts. */
  lemma {:induction false} FirstForIsFirst(items: seq<Configured>, key: string, i: nat)
    requires i < |items| && items[i].key == key && forall j :: 0 <= j < i ==> items[j].key != key
    ensures FirstFor(items, key) == Some(items[i].provider)
    decreases |items|
  {
    var n := |items| - 1;
    if i < n {
      FirstForIsFirst(items[..n], key, i);
    } else {
      FirstForFound(items[..n], key);
    }
  }

  lemma FirstForIsRegistered(items: seq<Configured>, admitted: Option<set<string>>, extra: set<string>, key: string)
    requires key != "" && Enabled(key, admitted, extra)
    ensures key in ConfiguredIds(items, admitted, extra) <==> FirstFor(items, key).Some?
  {
    FirstForFound(items, key);
  }

  /** Registers each listed provider that is enabled, non-blank and not yet taken: the first one listed wins. */
  method RegisterEnabled(registry: Registry<Provider>, items: seq<Configured>, admitted: Option<set<string>>, extra: set<string>)
    modifies registry
    ensures registry.providers.Keys == old(registry.providers.Keys) + ConfiguredIds(items, admitted, extra)
    ensures forall k :: k in registry.providers ==>
              Some(registry.providers[k]) == if k in old(registry.providers) then Some(old(registry.providers)[k]) else FirstFor(items, k)
  {
    for i := 0 to |items|
      invariant registry.providers.Keys == old(registry.providers.Keys) + ConfiguredIds(items[..i], admitted, extra)
      invariant forall k :: k in registry.providers ==>
                  Some(registry.providers[k])
                    == if k in old(registry.providers) then Some(old(registry.providers)[k]) else FirstFor(items[..i], k)
    {
      ConfiguredGrow(items, i, admitted, extra);
      var key := items[i].key;
      assert items[..i + 1][..i] == items[..i];
      if Enabled(key, admitted, extra) {
        if key != "" && key !in registry.providers {
          FirstForIsRegistered(items[..i], admitted, extra, key);
          var _ := registry.Register(key, items[i].provider);
        }
      }
    }
    assert items[..|items|] == items;
  }

  lemma ConfiguredGrow(items: seq<Configured>, i: nat, admitted: Option<set<string>>, extra: set<string>)
    requires i < |items|
    ensures ConfiguredIds(items[..i + 1], admitted, extra) == ConfiguredIds(items[..i], admitted, extra)
         + (if items[i].key != "" && Enabled(items[i].key, admitted, extra) then {items[i].key} else {})
  {
    var a, b := items[..i], items[..i + 1];
    forall x | x in ConfiguredIds(b, admitted, extra) ensures x in ConfiguredIds(a, admitted, extra) || x == items[i].key {
      var k :| 0 <= k < |b| && b[k].key != "" && Enabled(b[k].key, admitted, extra) && x == b[k].key;
      if k < i { assert a[k] == b[k]; }
    }
    forall x | x in ConfiguredIds(a, admitted, extra) ensures x in ConfiguredIds(b, admitted, extra) {
      var k :| 0 <= k < |a| && a[k].key != "" && Enabled(a[k].key, admitted, extra) && x == a[k].key;
      assert a[k] == b[k];
    }
    assert b[i] == items[i];
  }

  function AsConfigured(fs: seq<(string, Provider)>): (r: seq<Configured>)
    ensures |r| == |fs| && forall i :: 0 <= i < |fs| ==> r[i] == Configured(fs[i].0, fs[i].1)
  {
    seq(|fs|, i requires 0 <= i < |fs| => Configured(fs[i].0, fs[i].1))
  }

  function RootProvider(id: string): (p: Provider) {
    Provider(id, {}, true)
  }

  /** The provider an id ends up with: a root's own, else the first configured one, else the fallback. */
  ghost function BuiltProvider(config: Configuration, id: string): (r: Option<Provider>) {
    if id in ROOTS then Some(RootProvider(id))
    else if FirstFor(config.items, id).Some? then FirstFor(config.items, id)
    else FirstFor(AsConfigured(Fallbacks(config.sound)), id)
  }

  /** `raw` is the registry built from a configuration, the admitted capabilities and the extra ones. */
  ghost predicate IsBuilt(raw: map<string, Provider>, config: Configuration, admitted: Option<set<string>>, extra: set<string>) {
    && raw.Keys == BuiltKeys(config.items, admitted, extra)
    && forall k :: k in raw ==> Some(raw[k]) == BuiltProvider(config, k)
  }

  /** The registry, step by step: the two roots, the configured providers, then the fallbacks. */
  method BuildRegistry(config: Configuration, admitted: Option<set<string>>, extra: set<string>)
    returns (registry: Registry<Provider>)
    ensures fresh(registry) && "" !in registry.providers
    ensures IsBuilt(registry.providers, config, admitted, extra)
  {
    registry := new Registry();
    var _ := registry.Register("workspace.root", RootProvider("workspace.root"));
    var _ := registry.Register("artifact.root", RootProvider("artifact.root"));
    assert registry.providers.Keys == ROOTS;
    RegisterEnabled(registry, config.items, admitted, extra);
    ghost var configured := registry.providers;
    RegisterEnabled(registry, AsConfigured(Fallbacks(config.sound)), admitted, extra);
    FallbackIds(config.sound, admitted, extra);
    forall k | k in registry.providers && k !in configured ensures FirstFor(config.items, k).None? {
      assert k in ConfiguredIds(AsConfigured(Fallbacks(config.sound)), admitted, extra);
      FirstForIsRegistered(config.items, admitted, extra, k);
    }
  }

  lemma FallbackIds(sound: bool, admitted: Option<set<string>>, extra: set<string>)
    ensures ConfiguredIds(AsConfigured(Fallbacks(sound)), admitted, extra)
         == set c | c in FIRST_SLICE && Enabled(c, admitted, extra)
  {
    FallbacksCoverFirstSlice(sound);
    var items := AsConfigured(Fallbacks(sound));
    forall c | c in FIRST_SLICE && Enabled(c, admitted, extra) ensures c in ConfiguredIds(items, admitted, extra) {
      var i :| 0 <= i < |Fallbacks(sound)| && Fallbacks(sound)[i].0 == c;
      assert items[i].key == c && c != "";
    }
    forall c | c in ConfiguredIds(items, admitted, extra) ensures c in FIRST_SLICE {
      var i :| 0 <= i < |items| && items[i].key == c;
      assert Fallbacks(sound)[i].0 == c;
    }
  }

  /**
   What a registry built under an admission holds: the two roots; of the first slice what was
   admitted or asked for on top; of everything else exactly what is configured.
   */
  lemma BuiltMeaning(items: seq<Configured>, admitted: set<string>, extra: set<string>, id: string)
    ensures id in BuiltKeys(items, Some(admitted), extra) <==>
            || id == "workspace.root" || id == "artifact.root"
            || (id in FIRST_SLICE && (id in admitted || id in extra))
            || (id !in FIRST_SLICE && id != "" && exists i :: 0 <= i < |items| && items[i].key == id)
  {
    if id != "" {
      FirstForFound(items, id);
    }
  }

  /** Without an admission everything configured and the whole first slice are registered. */
  lemma BuiltUnrestricted(items: seq<Configured>, extra: set<string>, id: string)
    ensures id in BuiltKeys(items, None, extra) <==>
            || id == "workspace.root" || id == "artifact.root" || id in FIRST_SLICE
            || (id != "" && exists i :: 0 <= i < |items| && items[i].key == id)
  {
  }

  // ----- Drift -----

  /** The first-slice part of the registry is what was admitted or asked for on top, whatever the configuration says. */
  lemma FirstSliceIsWhatWasEnabled(items: seq<Configured>, admitted: set<string>, extra: set<string>)
    ensures BuiltKeys(items, Some(admitted), extra) * FIRST_SLICE == (admitted + extra) * FIRST_SLICE
  {
    RootsAreNoSlice();
  }

  lemma RootsAreNoSlice()
    ensures ROOTS !! FIRST_SLICE
  {
    forall r | r in ROOTS ensures r !in FIRST_SLICE {
      assert r[0] == 'w' || r[4] == 'f';
    }
  }

  datatype Revalidation = Instantiated(ids: set<string>) | Drift(ids: set<string>)

  /** `revalidate_child_capabilities`: the registry may hold no first-slice capability the envelope does not admit. */
  function Revalidate(e: Envelope, registered: set<string>): (r: Revalidation) {
    var drift := registered * FIRST_SLICE - Elements(e.admitted);
    if drift != {} then Drift(drift) else Instantiated(registered)
  }

  /**
   Built with the envelope's own admissions, the registry passes exactly when every extra
   first-slice capability was admitted too; otherwise the drift names exactly the others.
   */
  lemma DriftIsTheUnadmittedExtra(e: Envelope, items: seq<Configured>, extra: set<string>)
    ensures var r := Revalidate(e, BuiltKeys(items, Some(Elements(e.admitted)), extra));
            && (r.Instantiated? <==> forall c :: c in extra && c in FIRST_SLICE ==> c in e.admitted)
            && (r.Drift? ==> r.ids == extra * FIRST_SLICE - Elements(e.admitted))
  {
    FirstSliceIsWhatWasEnabled(items, Elements(e.admitted), extra);
    var keys := BuiltKeys(items, Some(Elements(e.admitted)), extra);
    var over := extra * FIRST_SLICE - Elements(e.admitted);
    assert keys * FIRST_SLICE - Elements(e.admitted) == over;
    forall c ensures c in over <==> c in extra && c in FIRST_SLICE && c !in e.admitted {
    }
    if c :| c in over {
      assert over != {};
    } else {
      assert over == {};
    }
  }
}
