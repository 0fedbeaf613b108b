/**
 The SDK's `canonical_json`: Python's side of the canonical text. It sorts keys by code point while
 normalising, then prints with `json.dumps(sort_keys=True, separators=(",", ":"), ensure_ascii=False)`.
 */
module PythonJson {
  import opened Collections
  import opened JsonText
  import opened Utf8Order
  import opened CanonicalJson

  // ----- Normalising -----

  /** `_normalize_for_canonical_json`: entries in code-point order of their keys, at every level. */
  function Normalize(v: Js): (r: Js)
    decreases v, 1
  {
    match v
    case JsArray(items) => JsArray(NormalizeItems(v, |items|))
    case JsObject(entries) =>
      PythonSortKeepsKeys(entries);
      JsObject(NormalizeFields(v, Sort(Keys(entries), PythonOrder())))
    case _ => v
  }

  function NormalizeItems(v: Js, k: nat): (r: seq<Js>)
    requires v.JsArray? && k <= |v.items|
    ensures |r| == k
    decreases v, 0, k
  {
    if k == 0 then [] else NormalizeItems(v, k - 1) + [Normalize(v.items[k - 1])]
  }

  function NormalizeFields(v: Js, keys: seq<string>): (r: seq<Entry>)
    requires v.JsObject? && forall k :: k in keys ==> k in Keys(v.entries)
    ensures |r| == |keys|
    decreases v, 0, |keys|
  {
    if keys == [] then []
    else
      var last := keys[|keys| - 1];
      NormalizeFields(v, keys[..|keys| - 1]) + [Entry(last, Normalize(v.entries[Find(v.entries, last)].value))]
  }

  lemma PythonSortKeepsKeys(entries: seq<Entry>)
    ensures forall k :: k in Sort(Keys(entries), PythonOrder()) <==> k in Keys(entries)
  {
    PythonOrderIsTotal();
    SortFacts(Keys(entries), PythonOrder());
  }

  // ----- Printing -----

  function Hex4(n: int): (r: string)
    requires 0 <= n < 65536
  {
    [HexDigit(n / 4096), HexDigit(n / 256 % 16), HexDigit(n / 16 % 16), HexDigit(n % 16)]
  }

  /** The encoder's table: seven short escapes, `\u` and four digits for the other controls. */
  function PyEscape(c: char): (r: string) {
    if c == '\\' then "\\\\" else if c == '\"' then "\\\"" else if c == '\n' then "\\n" else if c == '\r' then "\\r"
    else if c == '\t' then "\\t" else if c as int == 12 then "\\f" else if c as int == 8 then "\\b"
    else if c as int < 32 then "\\u" + Hex4(c as int)
    else [c]
  }

  function PyEscapeAll(s: string): (r: string) {
    if s == "" then "" else PyEscape(s[0]) + PyEscapeAll(s[1..])
  }

  function PyQuote(s: string): (r: string) {
    "\"" + PyEscapeAll(s) + "\""
  }

  lemma EscapesAgree(c: char)
    ensures PyEscape(c) == Escape(c)
  {
    if c as int < 32 {
      assert c as int / 4096 == 0 && c as int / 256 % 16 == 0 && c as int / 16 % 16 == c as int / 16;
      assert Hex4(c as int) == ['0', '0', HexDigit(c as int / 16), HexDigit(c as int % 16)];
    }
  }

  lemma {:induction false} QuotesAgree(s: string)
    ensures PyEscapeAll(s) == EscapeAll(s) && PyQuote(s) == Quote(s)
  {
    if s != "" {
      EscapesAgree(s[0]);
      QuotesAgree(s[1..]);
    }
  }

  /** `json.dumps` with sorted keys. */
  function Dumps(v: Js): (r: string)
    requires Supported(v)
    decreases v, 1
  {
    match v
    case JsNull => "null"
    case JsBool(b) => if b then "true" else "false"
    case JsInt(n) => IntText(n)
    case JsString(s) => PyQuote(s)
    case JsArray(items) => "[" + Join(DumpItems(v, |items|)) + "]"
    case JsObject(entries) =>
      PythonSortKeepsKeys(entries);
      "{" + Join(DumpFields(v, Sort(Keys(entries), PythonOrder()))) + "}"
  }

  function DumpItems(v: Js, k: nat): (r: seq<string>)
    requires v.JsArray? && Supported(v) && k <= |v.items|
    ensures |r| == k
    decreases v, 0, k
  {
    if k == 0 then [] else DumpItems(v, k - 1) + [Dumps(v.items[k - 1])]
  }

  function DumpFields(v: Js, keys: seq<string>): (r: seq<string>)
    requires v.JsObject? && Supported(v) && forall k :: k in keys ==> k in Keys(v.entries)
    decreases v, 0, |keys|
  {
    if keys == [] then []
    else
      var last := keys[|keys| - 1];
      DumpFields(v, keys[..|keys| - 1]) + [PyQuote(last) + ":" + Dumps(v.entries[Find(v.entries, last)].value)]
  }

  // ----- Printing renders the meaning -----

  lemma {:induction false} DumpItemAt(v: Js, k: nat, i: nat)
    requires v.JsArray? && Supported(v) && i < k <= |v.items|
    ensures DumpItems(v, k)[i] == Dumps(v.items[i])
    decreases k
  {
    if i < k - 1 { DumpItemAt(v, k - 1, i); }
  }

  lemma ArrayDumpsRenders(v: Js)
    requires v.JsArray? && Supported(v)
    requires forall i :: 0 <= i < |v.items| ==> Dumps(v.items[i]) == Render(Denote(v.items[i]))
    ensures Dumps(v) == Render(Denote(v))
  {
    var ps, qs := DumpItems(v, |v.items|), ItemTexts(Denote(v));
    forall i | 0 <= i < |v.items| ensures ps[i] == qs[i] {
      DumpItemAt(v, |v.items|, i);
      ItemTextAt(v, i);
    }
    assert ps == qs;
  }

  lemma {:induction false} DumpFieldsRender(v: Js, keys: seq<string>)
    requires v.JsObject? && Supported(v) && forall k :: k in keys ==> k in Keys(v.entries)
    requires forall i :: 0 <= i < |v.entries| ==> Dumps(v.entries[i].value) == Render(Denote(v.entries[i].value))
    ensures forall k :: k in keys ==> k in Denote(v).fields
    ensures DumpFields(v, keys) == FieldTexts(Denote(v), keys)
    decreases |keys|
  {
    if keys != [] {
      var front, key := keys[..|keys| - 1], keys[|keys| - 1];
      DumpFieldsRender(v, front);
      assert key in keys;
      DenoteField(v, key);
      QuotesAgree(key);
    }
  }

  lemma {:induction false} DumpsRenders(v: Js)
    requires WellFormed(v) && Supported(v)
    ensures Dumps(v) == Render(Denote(v))
    decreases v
  {
    match v
    case JsString(s) => QuotesAgree(s);
    case JsArray(items) =>
      forall i | 0 <= i < |items| ensures Dumps(items[i]) == Render(Denote(items[i])) {
        DumpsRenders(items[i]);
      }
      ArrayDumpsRenders(v);
    case JsObject(entries) =>
      forall i | 0 <= i < |entries| ensures Dumps(entries[i].value) == Render(Denote(entries[i].value)) {
        DumpsRenders(entries[i].value);
      }
      ObjectDumpsRenders(v);
    case _ =>
  }

  lemma ObjectDumps(v: Js, keys: seq<string>)
    requires v.JsObject? && Supported(v) && keys == Sort(Keys(v.entries), PythonOrder())
    requires forall k :: k in keys ==> k in Keys(v.entries)
    ensures Dumps(v) == "{" + Join(DumpFields(v, keys)) + "}"
  {
  }

  lemma ObjectDumpsRenders(v: Js)
    requires v.JsObject? && WellFormed(v) && Supported(v)
    requires forall i :: 0 <= i < |v.entries| ==> Dumps(v.entries[i].value) == Render(Denote(v.entries[i].value))
    ensures Dumps(v) == Render(Denote(v))
  {
    var keys := Sort(Keys(v.entries), PythonOrder());
    PythonSortKeepsKeys(v.entries);
    KeysListed(v);
    KeyOrdersAgree(Keys(v.entries));
    DumpFieldsRender(v, keys);
    ObjectDumps(v, keys);
    ObjectRendered(Denote(v));
  }

  // ----- Normalising keeps the meaning -----

  lemma {:induction false} NormalizeItemAt(v: Js, k: nat, i: nat)
    requires v.JsArray? && i < k <= |v.items|
    ensures NormalizeItems(v, k)[i] == Normalize(v.items[i])
    decreases k
  {
    if i < k - 1 { NormalizeItemAt(v, k - 1, i); }
  }

  lemma {:induction false} NormalizeFieldAt(v: Js, keys: seq<string>, i: nat)
    requires v.JsObject? && (forall k :: k in keys ==> k in Keys(v.entries)) && i < |keys|
    ensures keys[i] in Keys(v.entries)
    ensures NormalizeFields(v, keys)[i] == Entry(keys[i], Normalize(v.entries[Find(v.entries, keys[i])].value))
    decreases |keys|
  {
    if i < |keys| - 1 { NormalizeFieldAt(v, keys[..|keys| - 1], i); }
  }

  /** The same JSON value, still well formed and supported. */
  ghost predicate SameValue(v: Js, r: Js)
    requires Supported(v)
  {
    WellFormed(r) && Supported(r) && Denote(r) == Denote(v)
  }

  lemma {:induction false} NormalizeKeeps(v: Js)
    requires WellFormed(v) && Supported(v)
    ensures SameValue(v, Normalize(v))
    decreases v
  {
    match v
    case JsArray(items) =>
      forall i | 0 <= i < |items| ensures SameValue(items[i], Normalize(v).items[i]) {
        NormalizeKeeps(items[i]);
        NormalizeItemAt(v, |items|, i);
      }
      assert Denote(Normalize(v)).items == Denote(v).items;
    case JsObject(entries) =>
      forall i | 0 <= i < |entries| ensures SameValue(entries[i].value, Normalize(entries[i].value)) {
        NormalizeKeeps(entries[i].value);
      }
      ObjectNormalizeKeeps(v);
    case _ =>
  }

  /** The normalised entries: the sorted keys, each with its normalised value. */
  lemma NormalizedEntries(v: Js)
    requires v.JsObject? && WellFormed(v) && Supported(v)
    requires forall i :: 0 <= i < |v.entries| ==> SameValue(v.entries[i].value, Normalize(v.entries[i].value))
    ensures var r := Normalize(v);
            && WellFormed(r) && Supported(r)
            && (forall k :: k in Keys(r.entries) <==> k in Keys(v.entries))
            && forall i :: 0 <= i < |r.entries| ==>
                 && r.entries[i].key in Keys(v.entries)
                 && SameValue(v.entries[Find(v.entries, r.entries[i].key)].value, r.entries[i].value)
  {
    var keys := Sort(Keys(v.entries), PythonOrder());
    PythonSortKeepsKeys(v.entries);
    PythonOrderIsTotal();
    SortFacts(Keys(v.entries), PythonOrder());
    var r := Normalize(v);
    assert |r.entries| == |keys|;
    forall i | 0 <= i < |keys|
      ensures r.entries[i].key == keys[i] && keys[i] in Keys(v.entries)
      ensures SameValue(v.entries[Find(v.entries, keys[i])].value, r.entries[i].value)
    {
      NormalizedAt(v, i);
    }
    assert Keys(r.entries) == keys;
    PartsSuffice(r);
  }

  lemma NormalizedAt(v: Js, i: nat)
    requires v.JsObject? && i < |v.entries|
    ensures var keys := Sort(Keys(v.entries), PythonOrder());
            && |Normalize(v).entries| == |v.entries| && keys[i] in Keys(v.entries)
            && Normalize(v).entries[i] == Entry(keys[i], Normalize(v.entries[Find(v.entries, keys[i])].value))
  {
    PythonSortKeepsKeys(v.entries);
    NormalizeFieldAt(v, Sort(Keys(v.entries), PythonOrder()), i);
  }

  lemma PartsSuffice(r: Js)
    requires r.JsObject? && NoRepeats(Keys(r.entries))
    requires forall i :: 0 <= i < |r.entries| ==> WellFormed(r.entries[i].value) && Supported(r.entries[i].value)
    ensures WellFormed(r) && Supported(r)
  {
  }

  lemma ObjectNormalizeKeeps(v: Js)
    requires v.JsObject? && WellFormed(v) && Supported(v)
    requires forall i :: 0 <= i < |v.entries| ==> SameValue(v.entries[i].value, Normalize(v.entries[i].value))
    ensures SameValue(v, Normalize(v))
  {
    NormalizedEntries(v);
    var r := Normalize(v);
    forall k | k in Keys(v.entries) ensures k in Denote(r).fields && Denote(r).fields[k] == Denote(v).fields[k] {
      DenoteField(r, k);
      DenoteField(v, k);
    }
    SameDenotation(v, r);
  }

  function CanonicalText(v: Js): (r: string)
    requires Supported(Normalize(v))
  {
    Dumps(Normalize(v))
  }

  /** JavaScript and Python print every supported value to the same text, so their digests agree. */
  lemma TextsAgree(v: Js)
    requires WellFormed(v) && Supported(v)
    ensures Supported(Normalize(v)) && Canonicalize(v) == Ok(CanonicalText(v))
  {
    NormalizeKeeps(v);
    DumpsRenders(Normalize(v));
    CanonicalizeRenders(v);
  }
}
