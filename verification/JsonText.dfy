/** The texts of JSON's scalars, and that each can be read back from in front of whatever follows it. */
module JsonText {

  // ----- Reading a text from the front -----

  /** The character at `i`; a space past the end. */
  function Peek(w: string, i: nat): (c: char) {
    if i < |w| then w[i] else ' '
  }

  lemma PeekJoin(s: string, x: string, i: nat)
    ensures Peek(s + x, i) == if i < |s| then Peek(s, i) else Peek(x, i - |s|)
  {
  }

  lemma CutAlike(s: string, x: string, t: string, y: string)
    requires |s| == |t| && s + x == t + y
    ensures s == t && x == y
  {
    assert s == (s + x)[..|s|] && t == (t + y)[..|t|];
    assert x == (s + x)[|s|..] && y == (t + y)[|t|..];
  }

  // ----- Integers -----

  function DigitChar(d: nat): (c: char)
    requires d < 10
    ensures '0' <= c <= '9' && c as int - '0' as int == d
  {
    '0' + d as char
  }

  predicate IsDigit(c: char) {
    '0' <= c <= '9'
  }

  function Digits(n: nat): (s: string)
    ensures s != "" && forall i :: 0 <= i < |s| ==> IsDigit(s[i])
  {
    if n < 10 then [DigitChar(n)] else Digits(n / 10) + [DigitChar(n % 10)]
  }

  function IntText(n: int): (s: string)
    ensures s != "" && (s[0] == '-' || IsDigit(s[0]))
  {
    if n < 0 then "-" + Digits(-n) else Digits(n)
  }

  function DigitsValue(s: string): (n: int)
    requires forall i :: 0 <= i < |s| ==> IsDigit(s[i])
  {
    if s == "" then 0 else DigitsValue(s[..|s| - 1]) * 10 + (s[|s| - 1] as int - '0' as int)
  }

  lemma {:induction false} DigitsRoundTrip(n: nat)
    ensures DigitsValue(Digits(n)) == n
  {
    if n >= 10 {
      DigitsRoundTrip(n / 10);
      var s := Digits(n);
      assert s[..|s| - 1] == Digits(n / 10);
    }
  }

  /** What may follow a value in a text: nothing, a comma or a closing bracket. */
  predicate Stops(x: string) {
    x == "" || x[0] == ',' || x[0] == ']' || x[0] == '}'
  }

  lemma DigitsPrefix(m: nat, n: nat, x: string, y: string)
    requires Stops(x) && Stops(y) && Digits(m) + x == Digits(n) + y
    ensures m == n && x == y
  {
    var s, t := Digits(m), Digits(n);
    SameRun(s, x, t, y);
    DigitsRoundTrip(m);
    DigitsRoundTrip(n);
  }

  lemma SameRun(s: string, x: string, t: string, y: string)
    requires (forall i :: 0 <= i < |s| ==> IsDigit(s[i])) && (forall i :: 0 <= i < |t| ==> IsDigit(t[i]))
    requires Stops(x) && Stops(y) && s + x == t + y
    ensures s == t && x == y
  {
    PeekJoin(s, x, |s|);
    PeekJoin(t, y, |s|);
    PeekJoin(s, x, |t|);
    PeekJoin(t, y, |t|);
    CutAlike(s, x, t, y);
  }

  lemma IntHead(n: int, x: string)
    ensures Peek(IntText(n) + x, 0) == '-' <==> n < 0
    ensures n < 0 ==> (IntText(n) + x)[1..] == Digits(-n) + x
  {
  }

  lemma IntPrefix(m: int, n: int, x: string, y: string)
    requires Stops(x) && Stops(y) && IntText(m) + x == IntText(n) + y
    ensures m == n && x == y
  {
    IntHead(m, x);
    IntHead(n, y);
    if m < 0 {
      DigitsPrefix(-m, -n, x, y);
    } else {
      DigitsPrefix(m, n, x, y);
    }
  }

  // ----- Strings: section 7 of RFC 8259, with the escapes JSON.stringify chooses -----

  function HexDigit(n: int): (c: char)
    requires 0 <= n < 16
    ensures c as int == if n < 10 then '0' as int + n else 'a' as int + n - 10
  {
    if n < 10 then '0' + n as char else 'a' + (n - 10) as char
  }

  /** The letter after the backslash for the characters that have a short escape; NUL for the others. */
  function ShortEscape(c: char): (e: char) {
    if c == '\"' then '\"' else if c == '\\' then '\\'
    else if c as int == 8 then 'b' else if c as int == 12 then 'f'
    else if c == '\n' then 'n' else if c == '\r' then 'r' else if c == '\t' then 't'
    else '\0'
  }

  function Escape(c: char): (r: string) {
    if ShortEscape(c) != '\0' then ['\\', ShortEscape(c)]
    else if c < ' ' then ['\\', 'u', '0', '0', HexDigit(c as int / 16), HexDigit(c as int % 16)]
    else [c]
  }

  function EscapeAll(s: string): (r: string) {
    if s == "" then "" else Escape(s[0]) + EscapeAll(s[1..])
  }

  function Quote(s: string): (r: string) {
    "\"" + EscapeAll(s) + "\""
  }

  lemma EscapeHead(c: char)
    ensures Escape(c) != "" && Escape(c)[0] != '\"'
    ensures |Escape(c)| > 1 <==> Escape(c)[0] == '\\'
    ensures |Escape(c)| == 1 ==> Escape(c) == [c]
    ensures |Escape(c)| > 1 ==> Escape(c)[1] == (if ShortEscape(c) != '\0' then ShortEscape(c) else 'u')
  {
  }

  /**
   How each character is written: seven have a short escape, the other control characters four hex
   digits in lower case, and everything else stands for itself.
   */
  lemma EscapeForm(c: char)
    ensures var e, n := Escape(c), c as int;
            var short := c == '\"' || c == '\\' || n == 8 || n == 9 || n == 10 || n == 12 || n == 13;
            && (short <==> |e| == 2) && (!short && n < 32 <==> |e| == 6) && (!short && n >= 32 ==> e == [c])
            && (|e| == 6 ==> forall i :: 2 <= i < 6 ==> '0' <= e[i] <= '9' || 'a' <= e[i] <= 'f')
  {
  }

  lemma ShortEscapeInjective(c: char, d: char)
    requires ShortEscape(c) == ShortEscape(d) != '\0'
    ensures c == d
  {
  }

  lemma HexInjective(c: char, d: char)
    requires c < ' ' && d < ' '
    requires HexDigit(c as int / 16) == HexDigit(d as int / 16) && HexDigit(c as int % 16) == HexDigit(d as int % 16)
    ensures c == d
  {
    assert c as int / 16 == d as int / 16 && c as int % 16 == d as int % 16;
  }

  lemma EscapePrefix(c: char, d: char, x: string, y: string)
    requires Escape(c) + x == Escape(d) + y
    ensures c == d && x == y
  {
    var e, f := Escape(c), Escape(d);
    var ex, fy := e + x, f + y;
    EscapeHead(c);
    EscapeHead(d);
    assert ex[0] == e[0] && fy[0] == f[0];
    if |e| == 1 {
      assert c == d;
    } else {
      assert ex[1] == e[1] && fy[1] == f[1];
      if ShortEscape(c) != '\0' {
        assert ShortEscape(d) == ShortEscape(c);
        ShortEscapeInjective(c, d);
      } else {
        assert ShortEscape(d) == '\0';
        assert ex[4] == e[4] && ex[5] == e[5] && fy[4] == f[4] && fy[5] == f[5];
        HexInjective(c, d);
      }
    }
    assert ex[|e|..] == x && fy[|f|..] == y;
  }

  lemma Associate<T>(a: seq<T>, b: seq<T>, c: seq<T>, d: seq<T>)
    ensures a + b + c + d == a + (b + c + d)
  {
  }

  lemma QuotedHead(s: string, x: string)
    ensures var text := EscapeAll(s) + "\"" + x;
            && (Peek(text, 0) == '\"' <==> s == "")
            && (if s == "" then text[1..] == x else text == Escape(s[0]) + (EscapeAll(s[1..]) + "\"" + x))
  {
    if s == "" {
      assert EscapeAll(s) + "\"" + x == "\"" + x;
    } else {
      EscapeHead(s[0]);
      Associate(Escape(s[0]), EscapeAll(s[1..]), "\"", x);
    }
  }

  lemma {:induction false} EscapeAllPrefix(s: string, t: string, x: string, y: string)
    requires EscapeAll(s) + "\"" + x == EscapeAll(t) + "\"" + y
    ensures s == t && x == y
    decreases |s|
  {
    QuotedHead(s, x);
    QuotedHead(t, y);
    if s == "" {
    } else {
      var xs, ys := EscapeAll(s[1..]) + "\"" + x, EscapeAll(t[1..]) + "\"" + y;
      EscapePrefix(s[0], t[0], xs, ys);
      EscapeAllPrefix(s[1..], t[1..], x, y);
      assert s == [s[0]] + s[1..] && t == [t[0]] + t[1..];
    }
  }

  /** A quoted string can be read back from in front of anything. */
  lemma QuotePrefix(s: string, t: string, x: string, y: string)
    requires Quote(s) + x == Quote(t) + y
    ensures s == t && x == y
  {
    assert (Quote(s) + x)[1..] == EscapeAll(s) + "\"" + x && (Quote(t) + y)[1..] == EscapeAll(t) + "\"" + y;
    EscapeAllPrefix(s, t, x, y);
  }

  // ----- Joining -----

  function JoinTail(parts: seq<string>): (r: string) {
    if parts == [] then "" else "," + parts[0] + JoinTail(parts[1..])
  }

  /** `parts.join(",")` */
  function Join(parts: seq<string>): (r: string) {
    if parts == [] then "" else parts[0] + JoinTail(parts[1..])
  }

  /** `p` and `q` can be told apart in front of any text a value may be followed by. */
  ghost predicate ReadsBack(p: string, q: string) {
    forall x, y :: Stops(x) && Stops(y) && p + x == q + y ==> p == q && x == y
  }

  predicate Opens(p: string) {
    p != "" && !Stops(p)
  }

  lemma TailHead(ps: seq<string>, close: char, x: string)
    requires close == ']' || close == '}'
    ensures var text := JoinTail(ps) + [close] + x;
            && Stops(text)
            && Peek(text, 0) == (if ps == [] then close else ',')
            && text[1..] == if ps == [] then x else ps[0] + (JoinTail(ps[1..]) + [close] + x)
  {
    if ps == [] {
      assert JoinTail(ps) + [close] + x == [close] + x;
    } else {
      assert JoinTail(ps) + [close] + x == [','] + (ps[0] + (JoinTail(ps[1..]) + [close] + x));
    }
  }

  lemma {:induction false} JoinTailPrefix(ps: seq<string>, qs: seq<string>, close: char, x: string, y: string)
    requires close == ']' || close == '}'
    requires forall i, j :: 0 <= i < |ps| && 0 <= j < |qs| ==> ReadsBack(ps[i], qs[j])
    requires JoinTail(ps) + [close] + x == JoinTail(qs) + [close] + y
    ensures ps == qs && x == y
    decreases |ps|
  {
    TailHead(ps, close, x);
    TailHead(qs, close, y);
    if ps == [] {
    } else {
      TailHead(ps[1..], close, x);
      TailHead(qs[1..], close, y);
      assert ReadsBack(ps[0], qs[0]);
      JoinTailPrefix(ps[1..], qs[1..], close, x, y);
      assert ps == [ps[0]] + ps[1..] && qs == [qs[0]] + qs[1..];
    }
  }

  lemma JoinHead(ps: seq<string>, close: char, x: string)
    requires close == ']' || close == '}'
    requires forall i :: 0 <= i < |ps| ==> Opens(ps[i])
    ensures var text := Join(ps) + [close] + x;
            && (Stops(text) <==> ps == [])
            && if ps == [] then text[1..] == x else text == ps[0] + (JoinTail(ps[1..]) + [close] + x)
  {
    if ps == [] {
      assert Join(ps) + [close] + x == [close] + x;
    } else {
      assert Opens(ps[0]);
      assert Join(ps) + [close] + x == ps[0] + (JoinTail(ps[1..]) + [close] + x);
    }
  }

  /** A joined list can be read back from in front of its closing bracket. */
  lemma JoinPrefix(ps: seq<string>, qs: seq<string>, close: char, x: string, y: string)
    requires close == ']' || close == '}'
    requires forall i, j :: 0 <= i < |ps| && 0 <= j < |qs| ==> ReadsBack(ps[i], qs[j])
    requires (forall i :: 0 <= i < |ps| ==> Opens(ps[i])) && (forall i :: 0 <= i < |qs| ==> Opens(qs[i]))
    requires Join(ps) + [close] + x == Join(qs) + [close] + y
    ensures ps == qs && x == y
  {
    JoinHead(ps, close, x);
    JoinHead(qs, close, y);
    if ps != [] {
      ConsPrefix(ps, qs, close, x, y);
    }
  }

  lemma ConsPrefix(ps: seq<string>, qs: seq<string>, close: char, x: string, y: string)
    requires close == ']' || close == '}'
    requires ps != [] && qs != []
    requires forall i, j :: 0 <= i < |ps| && 0 <= j < |qs| ==> ReadsBack(ps[i], qs[j])
    requires ps[0] + (JoinTail(ps[1..]) + [close] + x) == qs[0] + (JoinTail(qs[1..]) + [close] + y)
    ensures ps == qs && x == y
  {
    TailHead(ps[1..], close, x);
    TailHead(qs[1..], close, y);
    assert ReadsBack(ps[0], qs[0]);
    JoinTailPrefix(ps[1..], qs[1..], close, x, y);
    assert ps == [ps[0]] + ps[1..] && qs == [qs[0]] + qs[1..];
  }
}
