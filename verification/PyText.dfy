/** `str(value or "").strip()`: the text normalisation every reader of the source applies to identifiers. */
module PyText {

  /** The characters `str.strip()` removes: those for which `str.isspace()` holds. */
  predicate IsSpace(c: char) {
    var n := c as int;
    || 0x09 <= n <= 0x0D || 0x1C <= n <= 0x20 || n == 0x85 || n == 0xA0 || n == 0x1680
    || 0x2000 <= n <= 0x200A || n == 0x2028 || n == 0x2029 || n == 0x202F || n == 0x205F || n == 0x3000
  }

  function StripLeft(s: string): (r: string)
    ensures r == [] || !IsSpace(r[0])
    ensures r == s || (s != [] && IsSpace(s[0]))
    ensures s != [] && r != [] ==> r[|r| - 1] == s[|s| - 1]
  {
    if s != [] && IsSpace(s[0]) then StripLeft(s[1..]) else s
  }

  function StripRight(s: string): (r: string)
    ensures r <= s
    ensures r == [] || !IsSpace(r[|r| - 1])
    ensures r == s || (s != [] && IsSpace(s[|s| - 1]))
  {
    if s != [] && IsSpace(s[|s| - 1]) then StripRight(s[..|s| - 1]) else s
  }

  function Strip(s: string): (r: string) {
    StripRight(StripLeft(s))
  }

  /** `s` without its first `k` characters, all of them spaces. */
  ghost predicate DropsLeft(s: string, r: string, k: nat) {
    k <= |s| && r == s[k..] && forall i :: 0 <= i < k ==> IsSpace(s[i])
  }

  ghost predicate DropsRight(s: string, r: string, k: nat) {
    k <= |s| && r == s[..k] && forall i :: k <= i < |s| ==> IsSpace(s[i])
  }

  lemma {:induction false} StripLeftDrops(s: string) returns (k: nat)
    ensures DropsLeft(s, StripLeft(s), k)
    decreases |s|
  {
    if s != [] && IsSpace(s[0]) {
      var m := StripLeftDrops(s[1..]);
      k := m + 1;
      assert s[1..][m..] == s[k..];
      forall i | 0 <= i < k ensures IsSpace(s[i]) {
        if i > 0 { assert s[i] == s[1..][i - 1]; }
      }
    } else {
      k := 0;
      assert s[0..] == s;
    }
  }

  lemma {:induction false} StripRightDrops(s: string) returns (k: nat)
    ensures DropsRight(s, StripRight(s), k)
    decreases |s|
  {
    if s != [] && IsSpace(s[|s| - 1]) {
      var front := s[..|s| - 1];
      k := StripRightDrops(front);
      assert front[..k] == s[..k];
      forall i | k <= i < |s| ensures IsSpace(s[i]) {
        if i < |s| - 1 { assert s[i] == front[i]; }
      }
    } else {
      k := |s|;
      assert s[..|s|] == s;
    }
  }

  /** Stripping takes away spaces at both ends, and only spaces, and as many as there are. */
  lemma StripMeaning(s: string) returns (i: nat, middle: string, j: nat)
    ensures DropsLeft(s, middle, i) && DropsRight(middle, Strip(s), j)
    ensures Strip(s) != "" ==> !IsSpace(Strip(s)[0]) && !IsSpace(Strip(s)[|Strip(s)| - 1])
  {
    middle := StripLeft(s);
    i := StripLeftDrops(s);
    j := StripRightDrops(middle);
    StripSettles(s);
  }

  /** Stripped text has no space at either end, and stripping it again changes nothing. */
  lemma StripSettles(s: string)
    ensures Strip(s) != "" ==> !IsSpace(Strip(s)[0]) && !IsSpace(Strip(s)[|Strip(s)| - 1])
    ensures Strip(Strip(s)) == Strip(s)
  {
    var r := Strip(s);
    if r != "" {
      assert r[0] == StripLeft(s)[0];
    }
  }
}
