/**
 `canonicalize`: prints a JavaScript value as JSON text with its keys in UTF-8 byte order, so
 that equal values have equal texts and a digest of the text identifies the value.
 */
module CanonicalJson {
  import opened Collections
  import opened JsonText
  import opened Utf8Order

  /** A value as the program holds it. Object entries stand in insertion order. */
  datatype Js =
    | JsNull
    | JsBool(b: bool)
    | JsInt(n: int)
    | JsFraction
    | JsString(s: string)
    | JsArray(items: seq<Js>)
    | JsObject(entries: seq<Entry>)
    | JsOther

  datatype Entry = Entry(key: string, value: Js)

  datatype JsError = NonInteger | UnsupportedType

  datatype Outcome<T> = Ok(value: T) | Throws(error: JsError)

  /** A JSON value: object entries have no order. */
  datatype Value =
    | VNull
    | VBool(b: bool)
    | VInt(n: int)
    | VString(s: string)
    | VArray(items: seq<Value>)
    | VObject(fields: map<string, Value>)

  function Keys(entries: seq<Entry>): (r: seq<string>)
    ensures |r| == |entries| && forall i :: 0 <= i < |entries| ==> r[i] == entries[i].key
  {
    seq(|entries|, i requires 0 <= i < |entries| => entries[i].key)
  }

  /** The position of a key. */
  function Find(entries: seq<Entry>, key: string): (i: nat)
    requires key in Keys(entries)
    ensures i < |entries| && entries[i].key == key
  {
    if entries[0].key == key then 0
    else
      assert Keys(entries)[1..] == Keys(entries[1..]);
      1 + Find(entries[1..], key)
  }

  // ----- The printer -----

  function Canonicalize(v: Js): (r: Outcome<string>)
    decreases v, 1
  {
    match v
    case JsNull => Ok("null")
    case JsBool(b) => Ok(if b then "true" else "false")
    case JsInt(n) => Ok(IntText(n))
    case JsFraction => Throws(NonInteger)
    case JsString(s) => Ok(Quote(s))
    case JsArray(items) =>
      var parts := CanonicalizeItems(v, |items|);
      if parts.Throws? then Throws(parts.error) else Ok("[" + Join(parts.value) + "]")
    case JsObject(entries) =>
      SortKeepsKeys(entries);
      var parts := CanonicalizeFields(v, Sort(Keys(entries), JsOrder()));
      if parts.Throws? then Throws(parts.error) else Ok("{" + Join(parts.value) + "}")
    case JsOther => Throws(UnsupportedType)
  }

  /** The texts of the first `k` items; the first item that throws decides. */
  function CanonicalizeItems(v: Js, k: nat): (r: Outcome<seq<string>>)
    requires v.JsArray? && k <= |v.items|
    decreases v, 0, k
  {
    if k == 0 then Ok([])
    else
      var before := CanonicalizeItems(v, k - 1);
      if before.Throws? then before
      else
        var last := Canonicalize(v.items[k - 1]);
        if last.Throws? then Throws(last.error) else Ok(before.value + [last.value])
  }

  /** The texts `"key":value` for the given keys in turn. */
  function CanonicalizeFields(v: Js, keys: seq<string>): (r: Outcome<seq<string>>)
    requires v.JsObject? && forall k :: k in keys ==> k in Keys(v.entries)
    decreases v, 0, |keys|
  {
    if keys == [] then Ok([])
    else
      var before := CanonicalizeFields(v, keys[..|keys| - 1]);
      if before.Throws? then before
      else
        var key := keys[|keys| - 1];
        var text := Canonicalize(v.entries[Find(v.entries, key)].value);
        if text.Throws? then Throws(text.error) else Ok(before.value + [Quote(key) + ":" + text.value])
  }

  lemma JsOrderIsTotal()
    ensures TotalPreorder(JsOrder())
  {
    PythonOrderIsTotal();
    forall a, b ensures JsOrder()(a, b) == PythonOrder()(a, b) {
      BytesAgree(b, a);
    }
  }

  lemma SortKeepsKeys(entries: seq<Entry>)
    ensures forall k :: k in Sort(Keys(entries), JsOrder()) <==> k in Keys(entries)
  {
    JsOrderIsTotal();
    SortFacts(Keys(entries), JsOrder());
  }

  // ----- What a value means -----

  /** Objects have distinct keys at every level. */
  ghost predicate WellFormed(v: Js)
    decreases v
  {
    match v
    case JsArray(items) => forall i :: 0 <= i < |items| ==> WellFormed(items[i])
    case JsObject(entries) =>
      NoRepeats(Keys(entries)) && forall i :: 0 <= i < |entries| ==> WellFormed(entries[i].value)
    case _ => true
  }

  /** Nothing in the value is a fraction or of an unsupported type. */
  ghost predicate Supported(v: Js)
    decreases v
  {
    match v
    case JsFraction => false
    case JsOther => false
    case JsArray(items) => forall i :: 0 <= i < |items| ==> Supported(items[i])
    case JsObject(entries) => forall i :: 0 <= i < |entries| ==> Supported(entries[i].value)
    case _ => true
  }

  ghost function Denote(v: Js): (r: Value)
    requires Supported(v)
    decreases v
  {
    match v
    case JsNull => VNull
    case JsBool(b) => VBool(b)
    case JsInt(n) => VInt(n)
    case JsString(s) => VString(s)
    case JsArray(items) => VArray(seq(|items|, i requires 0 <= i < |items| => Denote(items[i])))
    case JsObject(entries) => VObject(map k | k in Keys(entries) :: Denote(entries[Find(entries, k)].value))
  }

  /** The text of a JSON value, by its keys in code-point order. */
  ghost function Render(v: Value): (r: string)
    decreases v, 2
  {
    match v
    case VNull => "null"
    case VBool(b) => if b then "true" else "false"
    case VInt(n) => IntText(n)
    case VString(s) => Quote(s)
    case VArray(items) => "[" + Join(ItemTexts(v)) + "]"
    case VObject(fields) =>
      SortedKeysExist(fields.Keys);
      "{" + Join(FieldTexts(v, SortedKeys(fields.Keys))) + "}"
  }

  ghost function ItemTexts(v: Value): (r: seq<string>)
    requires v.VArray?
    decreases v, 1
  {
    seq(|v.items|, i requires 0 <= i < |v.items| => Render(v.items[i]))
  }

  ghost function FieldTexts(v: Value, keys: seq<string>): (r: seq<string>)
    requires v.VObject? && forall k :: k in keys ==> k in v.fields
    ensures |r| == |keys|
    decreases v, 1, |keys|
  {
    if keys == [] then []
    else
      var last := keys[|keys| - 1];
      FieldTexts(v, keys[..|keys| - 1]) + [FieldText(last, Render(v.fields[last]))]
  }

  function FieldText(key: string, text: string): (r: string) {
    Quote(key) + ":" + text
  }

  // ----- The printer renders the meaning -----

  lemma ItemTextAt(v: Js, i: nat)
    requires v.JsArray? && Supported(v) && i < |v.items|
    ensures |ItemTexts(Denote(v))| == |v.items| && ItemTexts(Denote(v))[i] == Render(Denote(v.items[i]))
  {
  }

  lemma OneItemMore(v: Js, k: nat, before: seq<string>, text: string)
    requires v.JsArray? && 0 < k <= |v.items|
    requires CanonicalizeItems(v, k - 1) == Ok(before) && Canonicalize(v.items[k - 1]) == Ok(text)
    ensures CanonicalizeItems(v, k) == Ok(before + [text])
  {
  }

  lemma TakeOneMore<T>(s: seq<T>, k: nat)
    requires 0 < k <= |s|
    ensures s[..k] == s[..k - 1] + [s[k - 1]]
  {
  }

  lemma {:induction false} ItemsRender(v: Js, k: nat)
    requires v.JsArray? && k <= |v.items| && Supported(v)
    requires forall i :: 0 <= i < k ==> Canonicalize(v.items[i]) == Ok(Render(Denote(v.items[i])))
    ensures |ItemTexts(Denote(v))| == |v.items| && CanonicalizeItems(v, k) == Ok(ItemTexts(Denote(v))[..k])
    decreases k
  {
    if k > 0 {
      var texts := ItemTexts(Denote(v));
      ItemsRender(v, k - 1);
      ItemTextAt(v, k - 1);
      OneItemMore(v, k, texts[..k - 1], texts[k - 1]);
      TakeOneMore(texts, k);
    }
  }

  lemma DenoteKeys(v: Js)
    requires v.JsObject? && Supported(v)
    ensures Denote(v).VObject? && Denote(v).fields.Keys == Elements(Keys(v.entries))
  {
  }

  lemma DenoteField(v: Js, key: string)
    requires v.JsObject? && Supported(v) && key in Keys(v.entries)
    ensures key in Denote(v).fields && Denote(v).fields[key] == Denote(v.entries[Find(v.entries, key)].value)
  {
  }

  lemma {:induction false} FieldTextAt(v: Value, keys: seq<string>, i: nat)
    requires v.VObject? && i < |keys| && forall k :: k in keys ==> k in v.fields
    ensures keys[i] in v.fields && FieldTexts(v, keys)[i] == FieldText(keys[i], Render(v.fields[keys[i]]))
    decreases |keys|
  {
    if i < |keys| - 1 {
      FieldTextAt(v, keys[..|keys| - 1], i);
    }
  }

  lemma {:induction false} FieldsRender(v: Js, keys: seq<string>)
    requires v.JsObject? && Supported(v) && forall k :: k in keys ==> k in Keys(v.entries)
    requires forall i :: 0 <= i < |v.entries| ==> Canonicalize(v.entries[i].value) == Ok(Render(Denote(v.entries[i].value)))
    ensures forall k :: k in keys ==> k in Denote(v).fields
    ensures CanonicalizeFields(v, keys) == Ok(FieldTexts(Denote(v), keys))
    decreases |keys|
  {
    if keys == [] {
    } else {
      var front, key := keys[..|keys| - 1], keys[|keys| - 1];
      FieldsRender(v, front);
      assert key in keys;
      DenoteField(v, key);
    }
  }

  /** The sorted keys of an object are the one ascending listing of its fields. */
  lemma KeysListed(v: Js)
    requires v.JsObject? && WellFormed(v) && Supported(v)
    ensures Sort(Keys(v.entries), JsOrder()) == SortedKeys(Denote(v).fields.Keys)
  {
    var keys := Keys(v.entries);
    KeyOrdersAgree(keys);
    PythonOrderIsTotal();
    SortFacts(keys, PythonOrder());
    var s := Sort(keys, PythonOrder());
    assert Elements(s) == Denote(v).fields.Keys;
    ListingIsUnique(s, SortedKeys(Denote(v).fields.Keys));
  }

  lemma ArrayRenders(v: Js)
    requires v.JsArray? && Supported(v)
    requires forall i :: 0 <= i < |v.items| ==> Canonicalize(v.items[i]) == Ok(Render(Denote(v.items[i])))
    ensures Canonicalize(v) == Ok(Render(Denote(v)))
  {
    ItemsRender(v, |v.items|);
    assert ItemTexts(Denote(v))[..|v.items|] == ItemTexts(Denote(v));
  }

  lemma ObjectPrints(v: Js, texts: seq<string>)
    requires v.JsObject?
    requires forall k :: k in Sort(Keys(v.entries), JsOrder()) ==> k in Keys(v.entries)
    requires CanonicalizeFields(v, Sort(Keys(v.entries), JsOrder())) == Ok(texts)
    ensures Canonicalize(v) == Ok("{" + Join(texts) + "}")
  {
  }

  lemma ObjectRendered(v: Value)
    requires v.VObject?
    ensures Render(v) == "{" + Join(FieldTexts(v, SortedKeys(v.fields.Keys))) + "}"
  {
  }

  lemma ObjectRenders(v: Js)
    requires v.JsObject? && WellFormed(v) && Supported(v)
    requires forall i :: 0 <= i < |v.entries| ==> Canonicalize(v.entries[i].value) == Ok(Render(Denote(v.entries[i].value)))
    ensures Canonicalize(v) == Ok(Render(Denote(v)))
  {
    var keys := Sort(Keys(v.entries), JsOrder());
    SortKeepsKeys(v.entries);
    KeysListed(v);
    FieldsRender(v, keys);
    ObjectPrints(v, FieldTexts(Denote(v), keys));
    ObjectRendered(Denote(v));
  }

  /** The printed text depends on the JSON value alone. */
  lemma {:induction false} CanonicalizeRenders(v: Js)
    requires WellFormed(v) && Supported(v)
    ensures Canonicalize(v) == Ok(Render(Denote(v)))
    decreases v
  {
    match v
    case JsArray(items) =>
      forall i | 0 <= i < |items| ensures Canonicalize(items[i]) == Ok(Render(Denote(items[i]))) {
        CanonicalizeRenders(items[i]);
      }
      ArrayRenders(v);
    case JsObject(entries) =>
      forall i | 0 <= i < |entries| ensures Canonicalize(entries[i].value) == Ok(Render(Denote(entries[i].value))) {
        CanonicalizeRenders(entries[i].value);
      }
      ObjectRenders(v);
    case _ =>
  }

  lemma {:induction false} ItemsThrow(v: Js, k: nat, i: nat)
    requires v.JsArray? && i < k <= |v.items| && Canonicalize(v.items[i]).Throws?
    ensures CanonicalizeItems(v, k).Throws?
    decreases k
  {
    if k - 1 > i { ItemsThrow(v, k - 1, i); }
  }

  lemma {:induction false} FieldsThrow(v: Js, keys: seq<string>, i: nat)
    requires v.JsObject? && forall k :: k in keys ==> k in Keys(v.entries)
    requires i < |keys| && Canonicalize(v.entries[Find(v.entries, keys[i])].value).Throws?
    ensures CanonicalizeFields(v, keys).Throws?
    decreases |keys|
  {
    if |keys| - 1 > i { FieldsThrow(v, keys[..|keys| - 1], i); }
  }

  /** The printer succeeds exactly on values without fractions and unsupported parts. */
  lemma {:induction false} SucceedsIffSupported(v: Js)
    requires WellFormed(v)
    ensures Canonicalize(v).Ok? <==> Supported(v)
    decreases v
  {
    if Supported(v) {
      CanonicalizeRenders(v);
    } else {
      match v
      case JsArray(items) =>
        var i :| 0 <= i < |items| && !Supported(items[i]);
        SucceedsIffSupported(items[i]);
        ItemsThrow(v, |items|, i);
      case JsObject(entries) =>
        var j :| 0 <= j < |entries| && !Supported(entries[j].value);
        SucceedsIffSupported(entries[j].value);
        var keys := Sort(Keys(entries), JsOrder());
        SortKeepsKeys(entries);
        assert Keys(entries)[j] in keys;
        var i :| 0 <= i < |keys| && keys[i] == entries[j].key;
        assert Keys(entries)[Find(entries, keys[i])] == Keys(entries)[j];
        FieldsThrow(v, keys, i);
      case _ =>
    }
  }

  // ----- Reading a value back -----

  /** The first character tells the kinds of values apart. */
  lemma RenderHead(v: Value)
    ensures Render(v) != "" && Opens(Render(v))
    ensures var c := Render(v)[0];
            && (c == 'n' <==> v.VNull?) && (c == 't' <==> v == VBool(true)) && (c == 'f' <==> v == VBool(false))
            && (c == '-' || IsDigit(c) <==> v.VInt?) && (c == '\"' <==> v.VString?)
            && (c == '[' <==> v.VArray?) && (c == '{' <==> v.VObject?)
  {
  }

  lemma SameKind(v: Value, w: Value, x: string, y: string)
    requires Render(v) + x == Render(w) + y
    ensures v.VNull? == w.VNull? && v.VBool? == w.VBool? && v.VInt? == w.VInt? && v.VString? == w.VString?
    ensures v.VArray? == w.VArray? && v.VObject? == w.VObject?
    ensures v.VBool? ==> v == w
  {
    RenderHead(v);
    RenderHead(w);
    assert (Render(v) + x)[0] == Render(v)[0] && (Render(w) + y)[0] == Render(w)[0];
  }

  /** Two values whose texts agree, in front of what may follow a value, are equal, and so is what follows. */
  lemma {:induction false} RenderPrefix(v: Value, w: Value, x: string, y: string)
    requires Stops(x) && Stops(y) && Render(v) + x == Render(w) + y
    ensures v == w && x == y
    decreases v, 2
  {
    SameKind(v, w, x, y);
    match v
    case VNull => CutAlike(Render(v), x, Render(w), y);
    case VBool(_) => CutAlike(Render(v), x, Render(w), y);
    case VInt(n) => IntPrefix(n, w.n, x, y);
    case VString(s) => QuotePrefix(s, w.s, x, y);
    case VArray(items) => ArrayPrefix(v, w, x, y);
    case VObject(fields) => ObjectPrefix(v, w, x, y);
  }

  lemma {:induction false} ArrayPrefix(v: Value, w: Value, x: string, y: string)
    requires v.VArray? && w.VArray? && Render(v) + x == Render(w) + y
    ensures v == w && x == y
    decreases v, 1
  {
    var ps, qs := ItemTexts(v), ItemTexts(w);
    forall i, j | 0 <= i < |ps| && 0 <= j < |qs| ensures ReadsBack(ps[i], qs[j]) {
      forall x', y' | Stops(x') && Stops(y') && ps[i] + x' == qs[j] + y' ensures ps[i] == qs[j] && x' == y' {
        RenderPrefix(v.items[i], w.items[j], x', y');
      }
    }
    forall i | 0 <= i < |ps| ensures Opens(ps[i]) { RenderHead(v.items[i]); }
    forall i | 0 <= i < |qs| ensures Opens(qs[i]) { RenderHead(w.items[i]); }
    assert (Render(v) + x)[1..] == Join(ps) + [']'] + x && (Render(w) + y)[1..] == Join(qs) + [']'] + y;
    JoinPrefix(ps, qs, ']', x, y);
    forall i | 0 <= i < |ps| ensures v.items[i] == w.items[i] {
      assert ps[i] == qs[i];
      RenderPrefix(v.items[i], w.items[i], "", "");
    }
  }

  lemma {:induction false} ObjectPrefix(v: Value, w: Value, x: string, y: string)
    requires v.VObject? && w.VObject? && Render(v) + x == Render(w) + y
    ensures v == w && x == y
    decreases v, 1
  {
    var ks, ls := SortedKeys(v.fields.Keys), SortedKeys(w.fields.Keys);
    var ps, qs := FieldTexts(v, ks), FieldTexts(w, ls);
    forall i, j | 0 <= i < |ps| && 0 <= j < |qs| ensures ReadsBack(ps[i], qs[j]) {
      FieldTextAt(v, ks, i);
      FieldTextAt(w, ls, j);
      FieldReadsBack(v, ks[i], w, ls[j]);
    }
    ObjectText(v, x);
    ObjectText(w, y);
    JoinPrefix(ps, qs, '}', x, y);
    SameTexts(v, w, ks, ls);
  }

  lemma ObjectText(v: Value, x: string)
    requires v.VObject?
    ensures var ps := FieldTexts(v, SortedKeys(v.fields.Keys));
            && (Render(v) + x)[1..] == Join(ps) + ['}'] + x
            && forall i :: 0 <= i < |ps| ==> Opens(ps[i])
  {
    var ks := SortedKeys(v.fields.Keys);
    var ps := FieldTexts(v, ks);
    forall i | 0 <= i < |ps| ensures Opens(ps[i]) {
      FieldTextAt(v, ks, i);
    }
    assert Render(v) + x == ['{'] + (Join(ps) + ['}'] + x);
  }

  lemma {:induction false} SameTexts(v: Value, w: Value, ks: seq<string>, ls: seq<string>)
    requires v.VObject? && w.VObject?
    requires (forall k :: k in ks <==> k in v.fields) && (forall l :: l in ls <==> l in w.fields)
    requires FieldTexts(v, ks) == FieldTexts(w, ls)
    ensures v == w
    decreases v, 0, 1
  {
    assert |ks| == |FieldTexts(v, ks)| == |ls|;
    forall i | 0 <= i < |ks| ensures ks[i] == ls[i] && v.fields[ks[i]] == w.fields[ls[i]] {
      FieldTextAt(v, ks, i);
      FieldTextAt(w, ls, i);
      FieldDetermines(v, ks[i], w, ls[i]);
    }
    assert ks == ls;
    assert Elements(ks) == v.fields.Keys == w.fields.Keys;
    SameFields(v.fields, w.fields, ks);
  }

  lemma {:induction false} FieldReadsBack(v: Value, k: string, w: Value, l: string)
    requires v.VObject? && w.VObject? && k in v.fields && l in w.fields
    ensures ReadsBack(FieldText(k, Render(v.fields[k])), FieldText(l, Render(w.fields[l])))
    decreases v, 0
  {
    var p, q := Render(v.fields[k]), Render(w.fields[l]);
    forall x, y | Stops(x) && Stops(y) && FieldText(k, p) + x == FieldText(l, q) + y
      ensures FieldText(k, p) == FieldText(l, q) && x == y
    {
      FieldSplit(k, p, x, l, q, y);
      RenderPrefix(v.fields[k], w.fields[l], x, y);
    }
  }

  lemma {:induction false} FieldDetermines(v: Value, k: string, w: Value, l: string)
    requires v.VObject? && w.VObject? && k in v.fields && l in w.fields
    requires FieldText(k, Render(v.fields[k])) == FieldText(l, Render(w.fields[l]))
    ensures k == l && v.fields[k] == w.fields[l]
    decreases v, 0, 0
  {
    FieldSplit(k, Render(v.fields[k]), "", l, Render(w.fields[l]), "");
    RenderPrefix(v.fields[k], w.fields[l], "", "");
  }

  lemma SameFields(f: map<string, Value>, g: map<string, Value>, ks: seq<string>)
    requires Elements(ks) == f.Keys == g.Keys
    requires forall i :: 0 <= i < |ks| ==> ks[i] in f && ks[i] in g && f[ks[i]] == g[ks[i]]
    ensures f == g
  {
    forall k | k in f ensures k in g && f[k] == g[k] {
      assert k in Elements(ks);
      var i :| 0 <= i < |ks| && ks[i] == k;
    }
  }

  lemma FieldSplit(k: string, p: string, x: string, l: string, q: string, y: string)
    requires FieldText(k, p) + x == FieldText(l, q) + y
    ensures k == l && p + x == q + y
  {
    assert FieldText(k, p) + x == Quote(k) + ([':'] + (p + x));
    assert FieldText(l, q) + y == Quote(l) + ([':'] + (q + y));
    QuotePrefix(k, l, [':'] + (p + x), [':'] + (q + y));
    assert ([':'] + (p + x))[1..] == p + x && ([':'] + (q + y))[1..] == q + y;
  }

  /** `part`, a scalar, occurs somewhere in the value. */
  ghost predicate Has(v: Js, part: Js)
    decreases v
  {
    || v == part
    || (v.JsArray? && exists i :: 0 <= i < |v.items| && Has(v.items[i], part))
    || (v.JsObject? && exists i :: 0 <= i < |v.entries| && Has(v.entries[i].value, part))
  }

  lemma {:induction false} ItemThrew(v: Js, k: nat) returns (i: nat)
    requires v.JsArray? && k <= |v.items| && CanonicalizeItems(v, k).Throws?
    ensures i < k && Canonicalize(v.items[i]) == Throws(CanonicalizeItems(v, k).error)
    decreases k
  {
    if CanonicalizeItems(v, k - 1).Throws? {
      i := ItemThrew(v, k - 1);
    } else {
      i := k - 1;
    }
  }

  lemma {:induction false} FieldThrew(v: Js, keys: seq<string>) returns (i: nat)
    requires v.JsObject? && (forall k :: k in keys ==> k in Keys(v.entries)) && CanonicalizeFields(v, keys).Throws?
    ensures i < |v.entries| && Canonicalize(v.entries[i].value) == Throws(CanonicalizeFields(v, keys).error)
    decreases |keys|
  {
    var front, key := keys[..|keys| - 1], keys[|keys| - 1];
    assert key in keys;
    if CanonicalizeFields(v, front).Throws? {
      i := FieldThrew(v, front);
    } else {
      i := Find(v.entries, key);
    }
  }

  /** An error names a kind of part that does occur in the value. */
  lemma {:induction false} ErrorNamesAPart(v: Js)
    requires Canonicalize(v).Throws?
    ensures Canonicalize(v).error == NonInteger ==> Has(v, JsFraction)
    ensures Canonicalize(v).error == UnsupportedType ==> Has(v, JsOther)
    decreases v
  {
    match v
    case JsArray(items) =>
      var i := ItemThrew(v, |items|);
      ErrorNamesAPart(items[i]);
    case JsObject(entries) =>
      SortKeepsKeys(entries);
      var i := FieldThrew(v, Sort(Keys(entries), JsOrder()));
      ErrorNamesAPart(entries[i].value);
    case _ =>
  }

  /** Two supported values have the same canonical text exactly when they are equal as JSON values. */
  lemma CanonicalIffEqual(a: Js, b: Js)
    requires WellFormed(a) && WellFormed(b) && Supported(a) && Supported(b)
    ensures Canonicalize(a) == Canonicalize(b) <==> Denote(a) == Denote(b)
  {
    CanonicalizeRenders(a);
    CanonicalizeRenders(b);
    if Render(Denote(a)) == Render(Denote(b)) {
      RenderPrefix(Denote(a), Denote(b), "", "");
    }
  }

  lemma SameMap<K, V>(m: map<K, V>, n: map<K, V>)
    requires m.Keys == n.Keys && forall k :: k in m ==> m[k] == n[k]
    ensures m == n
  {
  }

  lemma SameDenotation(v: Js, r: Js)
    requires v.JsObject? && r.JsObject? && Supported(v) && Supported(r)
    requires forall k :: k in Keys(r.entries) <==> k in Keys(v.entries)
    requires forall k :: k in Keys(v.entries) ==> k in Denote(r).fields && Denote(r).fields[k] == Denote(v).fields[k]
    ensures Denote(r) == Denote(v)
  {
    DenoteKeys(v);
    DenoteKeys(r);
    assert Elements(Keys(r.entries)) == Elements(Keys(v.entries));
    SameMap(Denote(r).fields, Denote(v).fields);
  }

  /** In particular the order in which an object's entries were written does not show in the text. */
  lemma EntryOrderIsIrrelevant(a: seq<Entry>, b: seq<Entry>)
    requires WellFormed(JsObject(a)) && WellFormed(JsObject(b)) && Supported(JsObject(a)) && Supported(JsObject(b))
    requires forall e :: e in a <==> e in b
    ensures Canonicalize(JsObject(a)) == Canonicalize(JsObject(b))
  {
    var va, vb := JsObject(a), JsObject(b);
    forall k ensures k in Keys(a) <==> k in Keys(b) {
      SameEntry(a, b, k);
      SameEntry(b, a, k);
    }
    forall k | k in Keys(a) ensures k in Denote(vb).fields && Denote(vb).fields[k] == Denote(va).fields[k] {
      SameEntry(a, b, k);
      DenoteField(va, k);
      DenoteField(vb, k);
    }
    SameDenotation(va, vb);
    CanonicalIffEqual(va, vb);
  }

  lemma SameEntry(a: seq<Entry>, b: seq<Entry>, k: string)
    requires NoRepeats(Keys(b)) && forall e :: e in a ==> e in b
    ensures k in Keys(a) ==> k in Keys(b) && a[Find(a, k)] == b[Find(b, k)]
  {
    if k in Keys(a) {
      var e := a[Find(a, k)];
      assert e in b;
      var j :| 0 <= j < |b| && b[j] == e;
      assert Keys(b)[j] == k;
      assert Keys(b)[Find(b, k)] == Keys(b)[j];
    }
  }
}
