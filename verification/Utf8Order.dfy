/**
 `compareUtf8Bytes`: JavaScript orders keys by their UTF-8 bytes so as to agree with Python,
 which orders them by code point. A `char` is a Unicode scalar value.
 */
module Utf8Order {
  import opened Collections

  type Bytes = seq<int>

  /** The UTF-8 encoding of one scalar value, section 3 of RFC 3629. */
  function EncodeChar(c: char): (r: Bytes)
    ensures 1 <= |r| <= 4 && forall i :: 0 <= i < |r| ==> 0 <= r[i] < 256
  {
    var n := c as int;
    if n < 0x80 then [n]
    else if n < 0x800 then [0xC0 + n / 64, 0x80 + n % 64]
    else if n < 0x10000 then [0xE0 + n / 64 / 64, 0x80 + n / 64 % 64, 0x80 + n % 64]
    else [0xF0 + n / 64 / 64 / 64, 0x80 + n / 64 / 64 % 64, 0x80 + n / 64 % 64, 0x80 + n % 64]
  }

  function Utf8(s: string): (r: Bytes) {
    if s == "" then [] else EncodeChar(s[0]) + Utf8(s[1..])
  }

  /** Code-point order: what Python's sort of strings uses. */
  predicate Before(a: string, b: string) {
    b != "" && (a == "" || a[0] < b[0] || (a[0] == b[0] && Before(a[1..], b[1..])))
  }

  predicate BytesBefore(x: Bytes, y: Bytes) {
    y != [] && (x == [] || x[0] < y[0] || (x[0] == y[0] && BytesBefore(x[1..], y[1..])))
  }

  /** The lead byte tells the length, and the bits after the markers are the scalar value. */
  lemma EncodeMeaning(c: char)
    ensures var b := EncodeChar(c);
            && (|b| == 1 <==> c as int < 0x80) && (|b| <= 2 <==> c as int < 0x800) && (|b| <= 3 <==> c as int < 0x10000)
            && (forall i :: 1 <= i < |b| ==> 0x80 <= b[i] < 0xC0)
            && (match |b|
                case 1 => b[0] == c as int
                case 2 => 0xC0 <= b[0] < 0xE0 && (b[0] - 0xC0) * 64 + (b[1] - 0x80) == c as int
                case 3 => 0xE0 <= b[0] < 0xF0 && ((b[0] - 0xE0) * 64 + (b[1] - 0x80)) * 64 + (b[2] - 0x80) == c as int
                case _ =>
                  0xF0 <= b[0] < 0xF8
                  && (((b[0] - 0xF0) * 64 + (b[1] - 0x80)) * 64 + (b[2] - 0x80)) * 64 + (b[3] - 0x80) == c as int)
  {
  }

  /** The first difference decides, or else the length. */
  lemma {:induction false} BeforeMeaning(a: string, b: string)
    ensures Before(a, b) <==>
            (a <= b && a != b) || exists i :: 0 <= i < |a| && i < |b| && a[..i] == b[..i] && a[i] < b[i]
  {
    if a != "" && b != "" {
      BeforeMeaning(a[1..], b[1..]);
      if a[0] == b[0] {
        if i :| 0 <= i < |a[1..]| && i < |b[1..]| && a[1..][..i] == b[1..][..i] && a[1..][i] < b[1..][i] {
          assert a[..i + 1] == [a[0]] + a[1..][..i] && b[..i + 1] == [b[0]] + b[1..][..i];
        }
        if i :| 0 <= i < |a| && i < |b| && a[..i] == b[..i] && a[i] < b[i] {
          assert a[1..][..i - 1] == a[..i][1..] && b[1..][..i - 1] == b[..i][1..];
        }
        assert a == [a[0]] + a[1..] && b == [b[0]] + b[1..];
      } else if i :| 0 <= i < |a| && i < |b| && a[..i] == b[..i] && a[i] < b[i] {
        assert i == 0 || a[..i][0] == b[..i][0];
      }
    }
  }

  // ----- Code-point order is a strict total order -----

  lemma {:induction false} BeforeIrreflexive(a: string)
    ensures !Before(a, a)
  {
    if a != "" { BeforeIrreflexive(a[1..]); }
  }

  lemma {:induction false} BeforeTransitive(a: string, b: string, c: string)
    requires Before(a, b) && Before(b, c)
    ensures Before(a, c)
  {
    if a != "" && a[0] == b[0] == c[0] { BeforeTransitive(a[1..], b[1..], c[1..]); }
  }

  lemma {:induction false} BeforeTotal(a: string, b: string)
    ensures a == b || Before(a, b) || Before(b, a)
  {
    if a != "" && b != "" && a[0] == b[0] {
      BeforeTotal(a[1..], b[1..]);
      assert a == [a[0]] + a[1..] && b == [b[0]] + b[1..];
    }
  }

  // ----- Bytes agree with code points -----

  lemma BytesCons(p: int, x: Bytes, q: int, y: Bytes)
    ensures BytesBefore([p] + x, [q] + y) <==> p < q || (p == q && BytesBefore(x, y))
  {
    assert ([p] + x)[1..] == x && ([q] + y)[1..] == y;
  }

  /** Six bits at a time: the smaller number has the smaller quotient, or the same one and the smaller remainder. */
  lemma SixBits(m: int, n: int)
    requires 0 <= m < n
    ensures m / 64 < n / 64 || (m / 64 == n / 64 && m % 64 < n % 64)
  {
  }

  /** `e` and `f` first differ at byte `k`, where `e` is smaller. */
  ghost predicate FirstDifference(e: Bytes, f: Bytes, k: nat) {
    k < |e| && k < |f| && e[k] < f[k] && forall i :: 0 <= i < k ==> e[i] == f[i]
  }

  lemma LeadByte(c: char)
    ensures var n, e := c as int, EncodeChar(c)[0];
            && (n < 0x80 ==> e < 0x80) && (0x80 <= n < 0x800 ==> 0xC0 <= e < 0xE0)
            && (0x800 <= n < 0x10000 ==> 0xE0 <= e < 0xF0) && (0x10000 <= n ==> 0xF0 <= e)
  {
  }

  lemma TwoByteOrder(m: int, n: int) returns (k: nat)
    requires 0x80 <= m < n < 0x800
    ensures FirstDifference([0xC0 + m / 64, 0x80 + m % 64], [0xC0 + n / 64, 0x80 + n % 64], k)
  {
    SixBits(m, n);
    k := if m / 64 < n / 64 then 0 else 1;
  }

  lemma ThreeByteOrder(m: int, n: int) returns (k: nat)
    requires 0x800 <= m < n < 0x10000
    ensures FirstDifference([0xE0 + m / 64 / 64, 0x80 + m / 64 % 64, 0x80 + m % 64],
                            [0xE0 + n / 64 / 64, 0x80 + n / 64 % 64, 0x80 + n % 64], k)
  {
    SixBits(m, n);
    if m / 64 < n / 64 {
      SixBits(m / 64, n / 64);
      k := if m / 64 / 64 < n / 64 / 64 then 0 else 1;
    } else {
      k := 2;
    }
  }

  lemma FourByteOrder(m: int, n: int) returns (k: nat)
    requires 0x10000 <= m < n
    ensures FirstDifference([0xF0 + m / 64 / 64 / 64, 0x80 + m / 64 / 64 % 64, 0x80 + m / 64 % 64, 0x80 + m % 64],
                            [0xF0 + n / 64 / 64 / 64, 0x80 + n / 64 / 64 % 64, 0x80 + n / 64 % 64, 0x80 + n % 64], k)
  {
    SixBits(m, n);
    if m / 64 < n / 64 {
      SixBits(m / 64, n / 64);
      if m / 64 / 64 < n / 64 / 64 {
        SixBits(m / 64 / 64, n / 64 / 64);
        k := if m / 64 / 64 / 64 < n / 64 / 64 / 64 then 0 else 1;
      } else {
        k := 2;
      }
    } else {
      k := 3;
    }
  }

  /** The class of lengths: 1 to 4 bytes. */
  ghost function Class(n: int): (k: nat) {
    if n < 0x80 then 1 else if n < 0x800 then 2 else if n < 0x10000 then 3 else 4
  }

  lemma ShorterIsSmaller(c: char, d: char)
    requires Class(c as int) < Class(d as int)
    ensures FirstDifference(EncodeChar(c), EncodeChar(d), 0)
  {
    LeadByte(c);
    LeadByte(d);
  }

  lemma SameLengthOrder(c: char, d: char) returns (k: nat)
    requires c < d && Class(c as int) == Class(d as int)
    ensures FirstDifference(EncodeChar(c), EncodeChar(d), k)
  {
    var m, n := c as int, d as int;
    if n < 0x80 {
      k := 0;
    } else if n < 0x800 {
      k := TwoByteOrder(m, n);
    } else if n < 0x10000 {
      k := ThreeByteOrder(m, n);
    } else {
      k := FourByteOrder(m, n);
    }
  }

  /** Two different encodings differ at a byte they both have, the first such byte being in order. */
  lemma LeadingDifference(c: char, d: char) returns (k: nat)
    requires c < d
    ensures FirstDifference(EncodeChar(c), EncodeChar(d), k)
  {
    if Class(c as int) == Class(d as int) {
      k := SameLengthOrder(c, d);
    } else {
      k := 0;
      ShorterIsSmaller(c, d);
    }
  }

  /** The smaller scalar value has the smaller encoding, whatever follows. */
  lemma CharOrder(c: char, d: char, x: Bytes, y: Bytes)
    requires c < d
    ensures BytesBefore(EncodeChar(c) + x, EncodeChar(d) + y)
  {
    var k := LeadingDifference(c, d);
    FollowedBy(EncodeChar(c), EncodeChar(d), k, x, y);
  }

  lemma FollowedBy(e: Bytes, f: Bytes, k: nat, x: Bytes, y: Bytes)
    requires FirstDifference(e, f, k)
    ensures BytesBefore(e + x, f + y)
  {
    assert (e + x)[..k] == (f + y)[..k];
    DifferAt(e + x, f + y, k);
  }

  lemma {:induction false} DifferAt(x: Bytes, y: Bytes, k: nat)
    requires k < |x| && k < |y| && x[..k] == y[..k] && x[k] < y[k]
    ensures BytesBefore(x, y) && !BytesBefore(y, x) && x != y
    decreases k
  {
    if k > 0 {
      assert x[..k][0] == y[..k][0];
      assert x[1..][..k - 1] == x[..k][1..] && y[1..][..k - 1] == y[..k][1..];
      DifferAt(x[1..], y[1..], k - 1);
    }
  }

  lemma {:induction false} SamePrefix(p: Bytes, x: Bytes, y: Bytes)
    ensures BytesBefore(p + x, p + y) <==> BytesBefore(x, y)
    decreases |p|
  {
    if p == [] {
      assert p + x == x && p + y == y;
    } else {
      SamePrefix(p[1..], x, y);
      assert p + x == [p[0]] + (p[1..] + x) && p + y == [p[0]] + (p[1..] + y);
      BytesCons(p[0], p[1..] + x, p[0], p[1..] + y);
    }
  }

  /** Byte order and code-point order are the same order. */
  lemma {:induction false} BytesAgree(a: string, b: string)
    ensures BytesBefore(Utf8(a), Utf8(b)) <==> Before(a, b)
    decreases |a|
  {
    if a == "" || b == "" {
    } else if a[0] == b[0] {
      BytesAgree(a[1..], b[1..]);
      SamePrefix(EncodeChar(a[0]), Utf8(a[1..]), Utf8(b[1..]));
    } else if a[0] < b[0] {
      CharOrder(a[0], b[0], Utf8(a[1..]), Utf8(b[1..]));
    } else {
      CharOrder(b[0], a[0], Utf8(b[1..]), Utf8(a[1..]));
      BytesAsymmetric(Utf8(b), Utf8(a));
    }
  }

  lemma {:induction false} BytesAsymmetric(x: Bytes, y: Bytes)
    requires BytesBefore(x, y)
    ensures !BytesBefore(y, x)
  {
    if x != [] && x[0] == y[0] { BytesAsymmetric(x[1..], y[1..]); }
  }

  lemma {:induction false} PrefixOrder(x: Bytes, y: Bytes)
    requires x <= y
    ensures BytesBefore(x, y) <==> |x| < |y|
    ensures !BytesBefore(y, x)
  {
    if x != [] { PrefixOrder(x[1..], y[1..]); }
  }

  /** Different strings have different encodings, and only equal strings compare as equal. */
  lemma Utf8Injective(a: string, b: string)
    ensures Utf8(a) == Utf8(b) <==> a == b
  {
    BeforeTotal(a, b);
    BytesAgree(a, b);
    BytesAgree(b, a);
    BeforeIrreflexive(a);
    BytesAgree(a, a);
  }

  /** The loop over the bytes: negative, zero or positive as byte order says. */
  method CompareBytes(x: Bytes, y: Bytes) returns (r: int)
    ensures r < 0 <==> BytesBefore(x, y)
    ensures r == 0 <==> x == y
    ensures r > 0 <==> BytesBefore(y, x)
  {
    var min := if |x| < |y| then |x| else |y|;
    for i := 0 to min
      invariant x[..i] == y[..i]
    {
      if x[i] != y[i] {
        if x[i] < y[i] { DifferAt(x, y, i); } else { DifferAt(y, x, i); }
        return x[i] - y[i];
      }
    }
    OneIsPrefix(x, y, min);
    return |x| - |y|;
  }

  lemma OneIsPrefix(x: Bytes, y: Bytes, min: nat)
    requires min <= |x| && min <= |y| && (min == |x| || min == |y|) && x[..min] == y[..min]
    ensures BytesBefore(x, y) <==> |x| < |y|
    ensures BytesBefore(y, x) <==> |y| < |x|
    ensures x == y <==> |x| == |y|
  {
    if min == |x| {
      assert x == y[..min];
      PrefixOrder(x, y);
    } else {
      assert y == x[..min];
      PrefixOrder(y, x);
    }
  }

  /** The comparison: negative, zero or positive as code-point order says. */
  method CompareUtf8Bytes(a: string, b: string) returns (r: int)
    ensures r < 0 <==> Before(a, b)
    ensures r == 0 <==> a == b
    ensures r > 0 <==> Before(b, a)
  {
    BytesAgree(a, b);
    BytesAgree(b, a);
    Utf8Injective(a, b);
    r := CompareBytes(Utf8(a), Utf8(b));
  }

  // ----- Sorting keys -----

  /** `compareUtf8Bytes(a, b) <= 0` and Python's `a <= b`. */
  function JsOrder(): (le: (string, string) -> bool) {
    (a, b) => !BytesBefore(Utf8(b), Utf8(a))
  }

  function PythonOrder(): (le: (string, string) -> bool) {
    (a, b) => !Before(b, a)
  }

  lemma {:induction false} SortAgrees<T(!new)>(s: seq<T>, le: (T, T) -> bool, le': (T, T) -> bool)
    requires forall x, y :: le(x, y) == le'(x, y)
    ensures Sort(s, le) == Sort(s, le')
  {
    if s != [] {
      SortAgrees(s[1..], le, le');
      InsertAgrees(s[0], Sort(s[1..], le), le, le');
    }
  }

  lemma {:induction false} InsertAgrees<T(!new)>(x: T, s: seq<T>, le: (T, T) -> bool, le': (T, T) -> bool)
    requires forall x, y :: le(x, y) == le'(x, y)
    ensures Insert(x, s, le) == Insert(x, s, le')
  {
    if s != [] && !le(x, s[0]) { InsertAgrees(x, s[1..], le, le'); }
  }

  /** JavaScript's key order is Python's, for every list of keys. */
  lemma KeyOrdersAgree(keys: seq<string>)
    ensures Sort(keys, JsOrder()) == Sort(keys, PythonOrder())
  {
    forall a, b ensures JsOrder()(a, b) == PythonOrder()(a, b) {
      BytesAgree(b, a);
    }
    SortAgrees(keys, JsOrder(), PythonOrder());
  }

  lemma PythonOrderIsTotal()
    ensures TotalPreorder(PythonOrder())
  {
    forall a, b ensures !Before(b, a) || !Before(a, b) {
      if Before(a, b) && Before(b, a) {
        BeforeTransitive(a, b, a);
        BeforeIrreflexive(a);
      }
    }
    forall a, b, c | !Before(b, a) && !Before(c, b) ensures !Before(c, a) {
      BeforeTotal(a, b);
      BeforeTotal(b, c);
      if Before(c, a) {
        if a == b || b == c {
        } else {
          BeforeTransitive(a, b, c);
          BeforeTransitive(a, c, a);
        }
        BeforeIrreflexive(a);
      }
    }
  }

  /** A repeat-free ascending listing is determined by its elements. */
  lemma {:induction false} ListingIsUnique(s: seq<string>, t: seq<string>)
    requires Ordered(s, PythonOrder()) && Ordered(t, PythonOrder())
    requires NoRepeats(s) && NoRepeats(t) && Elements(s) == Elements(t)
    ensures s == t
    decreases |s|
  {
    NoRepeatsCardinality(s);
    NoRepeatsCardinality(t);
    if s != [] {
      assert s[0] in Elements(t) && t[0] in Elements(s);
      var i :| 0 <= i < |t| && t[i] == s[0];
      var j :| 0 <= j < |s| && s[j] == t[0];
      assert (i > 0 ==> PythonOrder()(t[0], t[i])) && (j > 0 ==> PythonOrder()(s[0], s[j]));
      BeforeTotal(s[0], t[0]);
      assert s[0] == t[0];
      RestElements(s);
      RestElements(t);
      ListingIsUnique(s[1..], t[1..]);
      assert s == [s[0]] + s[1..] && t == [t[0]] + t[1..];
    }
  }

  lemma RestElements(s: seq<string>)
    requires s != [] && NoRepeats(s)
    ensures Elements(s[1..]) == Elements(s) - {s[0]}
    ensures NoRepeats(s[1..]) && (Ordered(s, PythonOrder()) ==> Ordered(s[1..], PythonOrder()))
  {
    forall i | 1 <= i < |s| ensures s[i] != s[0] { }
    assert forall x :: x in s <==> x == s[0] || x in s[1..];
  }

  ghost predicate IsListing(s: seq<string>, keys: set<string>) {
    NoRepeats(s) && Ordered(s, PythonOrder()) && Elements(s) == keys
  }

  ghost function SortedKeys(keys: set<string>): (s: seq<string>)
    ensures IsListing(s, keys) && forall k :: k in s <==> k in keys
  {
    SortedKeysExist(keys);
    var s :| IsListing(s, keys);
    assert forall k :: k in Elements(s) <==> k in s;
    s
  }

  lemma SortedKeysExist(keys: set<string>)
    ensures exists s :: IsListing(s, keys)
  {
    var s := Listing(keys);
    SortIsListing(s);
  }

  lemma SortIsListing(s: seq<string>)
    requires NoRepeats(s)
    ensures IsListing(Sort(s, PythonOrder()), Elements(s))
  {
    PythonOrderIsTotal();
    SortFacts(s, PythonOrder());
    assert forall k :: k in Elements(s) <==> k in s;
  }

  lemma SortLists(s: seq<string>)
    requires NoRepeats(s)
    ensures Sort(s, PythonOrder()) == SortedKeys(Elements(s))
  {
    SortIsListing(s);
    ListingIsUnique(Sort(s, PythonOrder()), SortedKeys(Elements(s)));
  }

  /** `sorted` of a set. */
  method SortedListing(keys: set<string>) returns (r: seq<string>)
    ensures r == SortedKeys(keys)
  {
    var rest := keys;
    r := [];
    while rest != {}
      invariant rest <= keys && NoRepeats(r) && Elements(r) == keys - rest
    {
      var k :| k in rest;
      assert forall x :: x in r ==> x in Elements(r);
      assert Elements(r + [k]) == Elements(r) + {k};
      rest, r := rest - {k}, r + [k];
    }
    assert Elements(r) == keys;
    SortLists(r);
    r := Sort(r, PythonOrder());
  }
}
