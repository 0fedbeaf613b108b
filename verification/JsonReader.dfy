/**
 A reader of JSON text, written from the grammar of RFC 8259 and not from the printers, and that it
 reads every canonical text back to the value that was printed.
 */
module JsonReader {
  import opened Collections
  import opened Utf8Order
  import opened JsonText
  import opened CanonicalJson
  import opened PythonJson

  /** What was read from the front of a text, and what is left of it. */
  datatype Reading<T> = Fail | Got(value: T, rest: string)

  // ----- Section 6: integers -----

  /** How many digits a text starts with. */
  function DigitRun(w: string): (n: nat)
    ensures n <= |w| && (forall i :: 0 <= i < n ==> IsDigit(w[i])) && (n < |w| ==> !IsDigit(w[n]))
  {
    if w == "" || !IsDigit(w[0]) then 0 else 1 + DigitRun(w[1..])
  }

  /** A digit, or several of which the first is not 0. */
  function ReadNat(w: string): (r: Reading<int>)
    ensures r.Got? ==> |r.rest| < |w|
  {
    var n := DigitRun(w);
    if n == 0 || (n > 1 && w[0] == '0') then Fail else Got(DigitsValue(w[..n]), w[n..])
  }

  function ReadInt(w: string): (r: Reading<int>)
    ensures r.Got? ==> |r.rest| < |w|
  {
    if w != "" && w[0] == '-' then
      match ReadNat(w[1..])
      case Fail => Fail
      case Got(n, rest) => Got(-n, rest)
    else ReadNat(w)
  }

  lemma {:induction false} OnlyZeroStartsWithZero(n: nat)
    ensures Digits(n)[0] == '0' <==> n == 0
    ensures |Digits(n)| > 1 <==> n >= 10
  {
    if n >= 10 {
      OnlyZeroStartsWithZero(n / 10);
      assert Digits(n)[0] == Digits(n / 10)[0];
    }
  }

  lemma DigitRunOf(s: string, x: string)
    requires (forall i :: 0 <= i < |s| ==> IsDigit(s[i])) && Stops(x)
    ensures DigitRun(s + x) == |s|
  {
    PeekJoin(s, x, |s|);
    PeekJoin(s, x, DigitRun(s + x));
  }

  lemma ReadsDigits(n: nat, x: string)
    requires Stops(x)
    ensures ReadNat(Digits(n) + x) == Got(n, x)
  {
    var s := Digits(n);
    DigitRunOf(s, x);
    OnlyZeroStartsWithZero(n);
    DigitsRoundTrip(n);
    assert (s + x)[..|s|] == s && (s + x)[|s|..] == x && (s + x)[0] == s[0];
  }

  /** The text of an integer denotes that integer. */
  lemma ReadsInt(n: int, x: string)
    requires Stops(x)
    ensures ReadInt(IntText(n) + x) == Got(n, x)
  {
    var w := IntText(n) + x;
    IntHead(n, x);
    if n < 0 {
      ReadsDigits(-n, x);
      ReadsMinus(w, Digits(-n) + x);
    } else {
      ReadsDigits(n, x);
      assert w == Digits(n) + x;
    }
  }

  lemma ReadsMinus(w: string, digits: string)
    requires w != "" && w[0] == '-' && w[1..] == digits && ReadNat(digits).Got?
    ensures ReadInt(w) == Got(-ReadNat(digits).value, ReadNat(digits).rest)
  {
  }

  // ----- Section 7: strings -----

  /** The character that a backslash and a letter stand for. */
  function Unescape(letter: char): (r: Option<char>) {
    match letter
    case '\"' => Some('\"')
    case '\\' => Some('\\')
    case '/' => Some('/')
    case 'b' => Some(8 as char)
    case 'f' => Some(12 as char)
    case 'n' => Some(10 as char)
    case 'r' => Some(13 as char)
    case 't' => Some(9 as char)
    case _ => None
  }

  function HexValue(c: char): (r: Option<nat>)
    ensures r.Some? ==> r.value < 16
  {
    if '0' <= c <= '9' then Some(c as int - '0' as int)
    else if 'a' <= c <= 'f' then Some(c as int - 'a' as int + 10)
    else if 'A' <= c <= 'F' then Some(c as int - 'A' as int + 10)
    else None
  }

  /** Four hex digits; surrogates are no characters. */
  function HexChar(w: string): (r: Option<char>)
    requires |w| == 4
  {
    var a, b, c, d := HexValue(w[0]), HexValue(w[1]), HexValue(w[2]), HexValue(w[3]);
    if a.None? || b.None? || c.None? || d.None? then None
    else
      var n := ((a.value * 16 + b.value) * 16 + c.value) * 16 + d.value;
      if 0xD800 <= n < 0xE000 then None else Some(n as char)
  }

  function ReadChar(w: string): (r: Reading<char>)
    ensures r.Got? ==> |r.rest| < |w|
  {
    if w == "" then Fail
    else if w[0] == '\\' then
      if |w| < 2 then Fail
      else if w[1] == 'u' then
        if |w| < 6 || HexChar(w[2..6]).None? then Fail else Got(HexChar(w[2..6]).value, w[6..])
      else if Unescape(w[1]).None? then Fail
      else Got(Unescape(w[1]).value, w[2..])
    else if w[0] < ' ' then Fail
    else Got(w[0], w[1..])
  }

  /** The rest of a string after its opening quote. */
  function ReadChars(w: string): (r: Reading<string>)
    ensures r.Got? ==> |r.rest| < |w|
    decreases |w|
  {
    if w == "" then Fail
    else if w[0] == '\"' then Got("", w[1..])
    else
      match ReadChar(w)
      case Fail => Fail
      case Got(c, rest) =>
        match ReadChars(rest)
        case Fail => Fail
        case Got(s, rest') => Got([c] + s, rest')
  }

  function ReadString(w: string): (r: Reading<string>)
    ensures r.Got? ==> |r.rest| < |w|
  {
    if w != "" && w[0] == '\"' then ReadChars(w[1..]) else Fail
  }

  lemma ReadsEscape(c: char, x: string)
    ensures ReadChar(Escape(c) + x) == Got(c, x)
  {
    var e := Escape(c);
    var w := e + x;
    assert w[|e|..] == x && w[0] == e[0];
    if |e| == 6 {
      assert w[2..6] == ['0', '0', HexDigit(c as int / 16), HexDigit(c as int % 16)];
      assert c as int == c as int / 16 * 16 + c as int % 16;
      assert HexChar(w[2..6]) == Some(c);
    } else if |e| == 2 {
      assert w[1] == ShortEscape(c);
    }
  }

  lemma {:induction false} ReadsEscaped(s: string, x: string)
    ensures ReadChars(EscapeAll(s) + "\"" + x) == Got(s, x)
    decreases |s|
  {
    QuotedHead(s, x);
    var w := EscapeAll(s) + "\"" + x;
    if s != "" {
      var tail := EscapeAll(s[1..]) + "\"" + x;
      ReadsEscape(s[0], tail);
      ReadsEscaped(s[1..], x);
      assert [s[0]] + s[1..] == s;
    }
  }

  /** The text of a string denotes that string. */
  lemma ReadsQuote(s: string, x: string)
    ensures ReadString(Quote(s) + x) == Got(s, x)
  {
    assert (Quote(s) + x)[1..] == EscapeAll(s) + "\"" + x;
    ReadsEscaped(s, x);
  }

  // ----- Sections 3 to 5: values, objects and arrays, without white space -----

  function ReadValue(w: string): (r: Reading<Js>)
    ensures r.Got? ==> |r.rest| < |w|
    decreases |w|, 1
  {
    if w == "" then Fail
    else if w[0] == '\"' then
      match ReadString(w)
      case Fail => Fail
      case Got(s, rest) => Got(JsString(s), rest)
    else if w[0] == '[' then
      if |w| > 1 && w[1] == ']' then Got(JsArray([]), w[2..])
      else
        match ReadItems(w[1..])
        case Fail => Fail
        case Got(items, rest) => Got(JsArray(items), rest)
    else if w[0] == '{' then
      if |w| > 1 && w[1] == '}' then Got(JsObject([]), w[2..])
      else
        match ReadFields(w[1..])
        case Fail => Fail
        case Got(entries, rest) => Got(JsObject(entries), rest)
    else if w[0] == 'n' then if "null" <= w then Got(JsNull, w[4..]) else Fail
    else if w[0] == 't' then if "true" <= w then Got(JsBool(true), w[4..]) else Fail
    else if w[0] == 'f' then if "false" <= w then Got(JsBool(false), w[5..]) else Fail
    else
      match ReadInt(w)
      case Fail => Fail
      case Got(n, rest) => Got(JsInt(n), rest)
  }

  /** One or more values with commas between them, up to the closing bracket. */
  function ReadItems(w: string): (r: Reading<seq<Js>>)
    ensures r.Got? ==> |r.rest| < |w|
    decreases |w|, 2
  {
    match ReadValue(w)
    case Fail => Fail
    case Got(v, rest) =>
      if rest == "" then Fail
      else if rest[0] == ']' then Got([v], rest[1..])
      else if rest[0] != ',' then Fail
      else
        match ReadItems(rest[1..])
        case Fail => Fail
        case Got(vs, rest') => Got([v] + vs, rest')
  }

  function ReadField(w: string): (r: Reading<Entry>)
    ensures r.Got? ==> |r.rest| < |w|
    decreases |w|, 2
  {
    match ReadString(w)
    case Fail => Fail
    case Got(key, rest) =>
      if rest == "" || rest[0] != ':' then Fail
      else
        match ReadValue(rest[1..])
        case Fail => Fail
        case Got(v, rest') => Got(Entry(key, v), rest')
  }

  /** One or more fields with commas between them, up to the closing brace, in the order they stand. */
  function ReadFields(w: string): (r: Reading<seq<Entry>>)
    ensures r.Got? ==> |r.rest| < |w|
    decreases |w|, 3
  {
    match ReadField(w)
    case Fail => Fail
    case Got(f, rest) =>
      if rest == "" then Fail
      else if rest[0] == '}' then Got([f], rest[1..])
      else if rest[0] != ',' then Fail
      else
        match ReadFields(rest[1..])
        case Fail => Fail
        case Got(fs, rest') => Got([f] + fs, rest')
  }

  /** A whole text. */
  function Read(w: string): (r: Option<Js>) {
    match ReadValue(w)
    case Fail => None
    case Got(v, rest) => if rest == "" then Some(v) else None
  }

  // ----- Texts that read back -----

  /** `p` is read as `v` in front of anything a value may be followed by. */
  ghost predicate Reads(p: string, v: Js) {
    forall y :: Stops(y) ==> ReadValue(p + y) == Got(v, y)
  }

  ghost predicate ReadsField(p: string, e: Entry) {
    forall y :: Stops(y) ==> ReadField(p + y) == Got(e, y)
  }

  lemma LastItem(w: string, v: Js, y: string)
    requires ReadValue(w) == Got(v, y) && y != "" && y[0] == ']'
    ensures ReadItems(w) == Got([v], y[1..])
  {
  }

  lemma ItemAndMore(w: string, v: Js, y: string, vs: seq<Js>, x: string)
    requires ReadValue(w) == Got(v, y) && y != "" && y[0] == ',' && ReadItems(y[1..]) == Got(vs, x)
    ensures ReadItems(w) == Got([v] + vs, x)
  {
  }

  lemma {:induction false} ReadsJoinedItems(ps: seq<string>, vs: seq<Js>, x: string)
    requires ps != [] && |ps| == |vs| && forall i :: 0 <= i < |ps| ==> Reads(ps[i], vs[i])
    ensures ReadItems(ps[0] + (JoinTail(ps[1..]) + "]" + x)) == Got(vs, x)
    decreases |ps|
  {
    var y := JoinTail(ps[1..]) + "]" + x;
    TailHead(ps[1..], ']', x);
    assert Reads(ps[0], vs[0]);
    assert ReadValue(ps[0] + y) == Got(vs[0], y);
    if |ps| == 1 {
      LastItem(ps[0] + y, vs[0], y);
      assert vs == [vs[0]];
    } else {
      ReadsJoinedItems(ps[1..], vs[1..], x);
      ItemAndMore(ps[0] + y, vs[0], y, vs[1..], x);
      assert vs == [vs[0]] + vs[1..];
    }
  }

  lemma LastField(w: string, v: Entry, y: string)
    requires ReadField(w) == Got(v, y) && y != "" && y[0] == '}'
    ensures ReadFields(w) == Got([v], y[1..])
  {
  }

  lemma FieldAndMore(w: string, v: Entry, y: string, vs: seq<Entry>, x: string)
    requires ReadField(w) == Got(v, y) && y != "" && y[0] == ',' && ReadFields(y[1..]) == Got(vs, x)
    ensures ReadFields(w) == Got([v] + vs, x)
  {
  }

  lemma {:induction false} ReadsJoinedFields(ps: seq<string>, es: seq<Entry>, x: string)
    requires ps != [] && |ps| == |es| && forall i :: 0 <= i < |ps| ==> ReadsField(ps[i], es[i])
    ensures ReadFields(ps[0] + (JoinTail(ps[1..]) + "}" + x)) == Got(es, x)
    decreases |ps|
  {
    var y := JoinTail(ps[1..]) + "}" + x;
    TailHead(ps[1..], '}', x);
    assert ReadsField(ps[0], es[0]);
    assert ReadField(ps[0] + y) == Got(es[0], y);
    if |ps| == 1 {
      LastField(ps[0] + y, es[0], y);
      assert es == [es[0]];
    } else {
      ReadsJoinedFields(ps[1..], es[1..], x);
      FieldAndMore(ps[0] + y, es[0], y, es[1..], x);
      assert es == [es[0]] + es[1..];
    }
  }

  lemma FieldRead(w: string, key: string, rest: string, v: Js, y: string)
    requires ReadString(w) == Got(key, rest) && rest != "" && rest[0] == ':' && ReadValue(rest[1..]) == Got(v, y)
    ensures ReadField(w) == Got(Entry(key, v), y)
  {
  }

  lemma FieldShape(key: string, text: string, y: string)
    ensures FieldText(key, text) + y == Quote(key) + (":" + (text + y))
    ensures (":" + (text + y))[1..] == text + y
    ensures FieldText(key, text) != "" && FieldText(key, text)[0] == '\"'
  {
  }

  lemma ReadsFieldText(key: string, text: string, v: Js)
    requires Reads(text, v)
    ensures ReadsField(FieldText(key, text), Entry(key, v))
  {
    forall y | Stops(y) ensures ReadField(FieldText(key, text) + y) == Got(Entry(key, v), y) {
      var rest := ":" + (text + y);
      FieldShape(key, text, y);
      ReadsQuote(key, rest);
      assert ReadValue(text + y) == Got(v, y);
      FieldRead(FieldText(key, text) + y, key, rest, v, y);
    }
  }

  lemma BracketOpens(ps: seq<string>, open: char, close: char, y: string)
    ensures var w := [open] + Join(ps) + [close] + y;
            && w[0] == open
            && (if ps == [] then w[1..] == [close] + y else w[1..] == ps[0] + (JoinTail(ps[1..]) + [close] + y))
  {
    var w := [open] + Join(ps) + [close] + y;
    assert w[1..] == Join(ps) + [close] + y;
    if ps == [] {
      assert Join(ps) + [close] + y == [close] + y;
    } else {
      assert Join(ps) + [close] + y == ps[0] + (JoinTail(ps[1..]) + [close] + y);
    }
  }

  /** What reads as a value is not blank and does not start with a closing bracket. */
  lemma ReadsStart(p: string, v: Js)
    requires Reads(p, v)
    ensures p != "" && p[0] != ']'
  {
    assert ReadValue(p + "") == Got(v, "");
    assert p + "" == p;
  }

  lemma EmptyArray(w: string, y: string)
    requires w != "" && w[0] == '[' && w[1..] == "]" + y
    ensures ReadValue(w) == Got(JsArray([]), y)
  {
    assert w[2..] == w[1..][1..];
  }

  lemma FullArray(w: string, items: seq<Js>, y: string)
    requires w != "" && w[0] == '[' && w[1..] != "" && w[1..][0] != ']' && ReadItems(w[1..]) == Got(items, y)
    ensures ReadValue(w) == Got(JsArray(items), y)
  {
  }

  lemma ReadsArray(ps: seq<string>, vs: seq<Js>)
    requires |ps| == |vs| && forall i :: 0 <= i < |ps| ==> Reads(ps[i], vs[i])
    ensures Reads("[" + Join(ps) + "]", JsArray(vs))
  {
    forall y | Stops(y) ensures ReadValue("[" + Join(ps) + "]" + y) == Got(JsArray(vs), y) {
      var w := "[" + Join(ps) + "]" + y;
      BracketOpens(ps, '[', ']', y);
      if ps == [] {
        EmptyArray(w, y);
      } else {
        ReadsJoinedItems(ps, vs, y);
        ReadsStart(ps[0], vs[0]);
        FullArray(w, vs, y);
      }
    }
  }

  lemma EmptyObject(w: string, y: string)
    requires w != "" && w[0] == '{' && w[1..] == "}" + y
    ensures ReadValue(w) == Got(JsObject([]), y)
  {
    assert w[2..] == w[1..][1..];
  }

  lemma FullObject(w: string, es: seq<Entry>, y: string)
    requires w != "" && w[0] == '{' && w[1..] != "" && w[1..][0] != '}' && ReadFields(w[1..]) == Got(es, y)
    ensures ReadValue(w) == Got(JsObject(es), y)
  {
  }

  lemma ReadsObject(ps: seq<string>, es: seq<Entry>)
    requires |ps| == |es|
    requires forall i :: 0 <= i < |ps| ==> ReadsField(ps[i], es[i]) && ps[i] != "" && ps[i][0] == '\"'
    ensures Reads("{" + Join(ps) + "}", JsObject(es))
  {
    forall y | Stops(y) ensures ReadValue("{" + Join(ps) + "}" + y) == Got(JsObject(es), y) {
      var w := "{" + Join(ps) + "}" + y;
      BracketOpens(ps, '{', '}', y);
      if ps == [] {
        EmptyObject(w, y);
      } else {
        ReadsJoinedFields(ps, es, y);
        FullObject(w, es, y);
      }
    }
  }

  // ----- Canonical texts read back -----

  /** The value as a program holds it, with the keys of every object ascending. */
  ghost function Arranged(v: Value): (r: Js)
    decreases v, 1
  {
    match v
    case VNull => JsNull
    case VBool(b) => JsBool(b)
    case VInt(n) => JsInt(n)
    case VString(s) => JsString(s)
    case VArray(items) => JsArray(seq(|items|, i requires 0 <= i < |items| => Arranged(items[i])))
    case VObject(fields) => JsObject(ArrangedEntries(v, SortedKeys(fields.Keys)))
  }

  ghost function ArrangedEntries(v: Value, keys: seq<string>): (r: seq<Entry>)
    requires v.VObject? && forall k :: k in keys ==> k in v.fields
    ensures |r| == |keys| && forall i :: 0 <= i < |keys| ==> r[i] == Entry(keys[i], Arranged(v.fields[keys[i]]))
    decreases v, 0
  {
    seq(|keys|, i requires 0 <= i < |keys| => Entry(keys[i], Arranged(v.fields[keys[i]])))
  }

  lemma ReadsScalar(v: Value)
    requires !v.VArray? && !v.VObject?
    ensures Reads(Render(v), Arranged(v))
  {
    forall y | Stops(y) ensures ReadValue(Render(v) + y) == Got(Arranged(v), y) {
      var w := Render(v) + y;
      match v
      case VNull => assert w[..4] == "null" && w[4..] == y;
      case VBool(b) => if b { assert w[..4] == "true" && w[4..] == y; } else { assert w[..5] == "false" && w[5..] == y; }
      case VString(s) => ReadsQuote(s, y);
      case VInt(n) => ReadsInt(n, y);
    }
  }

  lemma ReadsObjectText(v: Value)
    requires v.VObject? && forall k :: k in v.fields ==> Reads(Render(v.fields[k]), Arranged(v.fields[k]))
    ensures Reads(Render(v), Arranged(v))
  {
    var keys := SortedKeys(v.fields.Keys);
    var ps, es := FieldTexts(v, keys), ArrangedEntries(v, keys);
    forall i | 0 <= i < |ps| ensures ReadsField(ps[i], es[i]) && ps[i] != "" && ps[i][0] == '\"' {
      FieldTextAt(v, keys, i);
      ReadsFieldText(keys[i], Render(v.fields[keys[i]]), es[i].value);
      FieldShape(keys[i], Render(v.fields[keys[i]]), "");
    }
    ReadsObject(ps, es);
    ObjectRendered(v);
  }

  /** Every rendered value is read back, in front of anything a value may be followed by. */
  lemma {:induction false} ReadsRendered(v: Value)
    ensures Reads(Render(v), Arranged(v))
    decreases v
  {
    match v
    case VArray(items) =>
      var ps, vs := ItemTexts(v), Arranged(v).items;
      forall i | 0 <= i < |ps| ensures Reads(ps[i], vs[i]) {
        ReadsRendered(items[i]);
      }
      ReadsArray(ps, vs);
    case VObject(fields) =>
      forall k | k in fields ensures Reads(Render(fields[k]), Arranged(fields[k])) {
        ReadsRendered(fields[k]);
      }
      ReadsObjectText(v);
    case _ =>
      ReadsScalar(v);
  }

  /** At every level the keys of objects are ascending, without repeats. */
  ghost predicate Ascending(v: Js)
    decreases v
  {
    match v
    case JsArray(items) => forall i :: 0 <= i < |items| ==> Ascending(items[i])
    case JsObject(entries) =>
      && NoRepeats(Keys(entries)) && Ordered(Keys(entries), PythonOrder())
      && forall i :: 0 <= i < |entries| ==> Ascending(entries[i].value)
    case _ => true
  }

  /** `r` holds the value `v`, with ascending keys. */
  ghost predicate HoldsAscending(r: Js, v: Value) {
    Ascending(r) && WellFormed(r) && Supported(r) && Denote(r) == v
  }

  lemma ArrangedObject(v: Value)
    requires v.VObject? && forall k :: k in v.fields ==> HoldsAscending(Arranged(v.fields[k]), v.fields[k])
    ensures HoldsAscending(Arranged(v), v)
  {
    var keys := SortedKeys(v.fields.Keys);
    var r := Arranged(v);
    assert Keys(r.entries) == keys;
    forall i | 0 <= i < |r.entries| ensures HoldsAscending(r.entries[i].value, v.fields[keys[i]]) {
      assert keys[i] in keys;
    }
    PartsSuffice(r);
    DenoteKeys(r);
    forall k | k in v.fields ensures k in Denote(r).fields && Denote(r).fields[k] == v.fields[k] {
      assert k in keys;
      DenoteField(r, k);
    }
    SameMap(Denote(r).fields, v.fields);
  }

  lemma {:induction false} ArrangedHolds(v: Value)
    ensures HoldsAscending(Arranged(v), v)
    decreases v
  {
    match v
    case VArray(items) =>
      forall i | 0 <= i < |items| ensures HoldsAscending(Arranged(v).items[i], items[i]) {
        ArrangedHolds(items[i]);
      }
      assert Denote(Arranged(v)).items == items;
    case VObject(fields) =>
      forall k | k in fields ensures HoldsAscending(Arranged(fields[k]), fields[k]) {
        ArrangedHolds(fields[k]);
      }
      ArrangedObject(v);
    case _ =>
  }

  /** Reading a canonical text gives the value that was printed, and its keys stand in ascending order. */
  lemma CanonicalReadsBack(v: Js)
    requires WellFormed(v) && Supported(v)
    ensures Canonicalize(v).Ok?
    ensures var r := Read(Canonicalize(v).value); r.Some? && HoldsAscending(r.value, Denote(v))
  {
    var text := Render(Denote(v));
    CanonicalizeRenders(v);
    ReadsRendered(Denote(v));
    assert ReadValue(text + "") == Got(Arranged(Denote(v)), "");
    assert text + "" == text;
    ArrangedHolds(Denote(v));
  }

  /** So does reading the text that Python prints. */
  lemma PythonReadsBack(v: Js)
    requires WellFormed(v) && Supported(v)
    ensures Supported(Normalize(v))
    ensures var r := Read(CanonicalText(v)); r.Some? && HoldsAscending(r.value, Denote(v))
  {
    TextsAgree(v);
    CanonicalReadsBack(v);
  }
}
