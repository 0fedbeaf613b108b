/**
 Sequences without repeats, the pigeonhole principle on them, and the stable
 sort that Python's `sorted`/`list.sort` and JavaScript's `Array.sort` promise.
 */
module Collections {

  datatype Option<+T> = None | Some(value: T)

  ghost predicate NoRepeats<T(!new)>(s: seq<T>) {
    forall i, j :: 0 <= i < j < |s| ==> s[i] != s[j]
  }

  function Elements<T>(s: seq<T>): (r: set<T>) {
    set x | x in s
  }

  /** A repeat-free sequence has as many entries as its element set. */
  lemma {:induction false} NoRepeatsCardinality<T(!new)>(s: seq<T>)
    requires NoRepeats(s)
    ensures |Elements(s)| == |s|
  {
    if s == [] {
    } else {
      var front, last := s[..|s| - 1], s[|s| - 1];
      assert s == front + [last];
      NoRepeatsCardinality(front);
      assert Elements(s) == Elements(front) + {last};
    }
  }

  lemma SubsetCardinality<T>(a: set<T>, b: set<T>)
    requires a <= b
    ensures |a| <= |b|
    ensures |a| == |b| ==> a == b
  {
    var rest := b - a;
    assert b == a + rest;
    assert |b| == |a| + |rest|;
  }

  /** Pigeonhole: more entries than the set they come from means a repeat. */
  lemma Pigeonhole<T(!new)>(s: seq<T>, all: set<T>) returns (i: nat, j: nat)
    requires Elements(s) <= all
    requires |s| > |all|
    ensures i < j < |s| && s[i] == s[j]
  {
    if NoRepeats(s) {
      NoRepeatsCardinality(s);
      SubsetCardinality(Elements(s), all);
      assert false;
    }
    i, j :| 0 <= i < j < |s| && s[i] == s[j];
  }

  /** Every finite set can be listed without repeats. */
  lemma {:induction false} Listing<T(!new)>(s: set<T>) returns (r: seq<T>)
    ensures NoRepeats(r) && Elements(r) == s
  {
    if s == {} {
      r := [];
    } else {
      var x :| x in s;
      r := Listing(s - {x});
      assert forall y :: y in Elements(r + [x]) <==> y in Elements(r) || y == x;
      assert NoRepeats(r + [x]) by {
        forall i | 0 <= i < |r| ensures r[i] != x { assert r[i] in Elements(r); }
      }
      r := r + [x];
    }
  }

  /** `r` holds, in order, exactly the items that are to be kept: those at the positions `at`. */
  ghost predicate Picks<T>(r: seq<T>, items: seq<T>, keep: seq<bool>, at: seq<nat>) {
    && |items| == |keep| && |r| == |at|
    && (forall k :: 0 <= k < |at| ==> at[k] < |items| && keep[at[k]] && r[k] == items[at[k]])
    && (forall j, k :: 0 <= j < k < |at| ==> at[j] < at[k])
    && (forall i :: 0 <= i < |items| && keep[i] ==> i in at)
  }

  lemma PicksOneMore<T>(r: seq<T>, items: seq<T>, keep: seq<bool>, at: seq<nat>, x: T, kept: bool)
    requires Picks(r, items, keep, at)
    ensures if kept then Picks(r + [x], items + [x], keep + [true], at + [|items|])
            else Picks(r, items + [x], keep + [false], at)
  {
    if kept {
      var at' := at + [|items|];
      assert at'[|at|] == |items|;
      forall i | 0 <= i < |items| && keep[i] ensures i in at' {
        assert i in at;
      }
    }
  }

  /** `steps[i + 1]` is `steps[i]`, with the `i`-th item after it if that is to be kept. */
  ghost predicate Grows<T>(steps: seq<seq<T>>, items: seq<T>, keep: seq<bool>) {
    && |items| == |keep| && |steps| == |items| + 1 && steps[0] == []
    && forall i :: 0 <= i < |items| ==> steps[i + 1] == steps[i] + (if keep[i] then [items[i]] else [])
  }

  /** What has grown so from nothing holds exactly the kept items, in order. */
  lemma {:induction false} GrownPicks<T>(steps: seq<seq<T>>, items: seq<T>, keep: seq<bool>) returns (at: seq<nat>)
    requires Grows(steps, items, keep)
    ensures Picks(steps[|items|], items, keep, at)
    decreases |items|
  {
    if items == [] {
      at := [];
    } else {
      var n := |items| - 1;
      at := GrownPicks(steps[..n + 1], items[..n], keep[..n]);
      PicksOneMore(steps[n], items[..n], keep[..n], at, items[n], keep[n]);
      assert items[..n] + [items[n]] == items && keep[..n] + [keep[n]] == keep;
      if keep[n] {
        at := at + [n];
      } else {
        assert steps[n + 1] == steps[n];
      }
    }
  }

  /** The parts one after another. */
  function Flat<T>(parts: seq<seq<T>>): (r: seq<T>) {
    if parts == [] then [] else Flat(parts[..|parts| - 1]) + parts[|parts| - 1]
  }

  lemma FlatAppend<T>(parts: seq<seq<T>>, part: seq<T>)
    ensures Flat(parts + [part]) == Flat(parts) + part
  {
    assert (parts + [part])[..|parts|] == parts;
  }

  lemma {:induction false} FlatMember<T>(parts: seq<seq<T>>, x: T)
    ensures x in Flat(parts) <==> exists i :: 0 <= i < |parts| && x in parts[i]
    decreases |parts|
  {
    if parts != [] {
      var n := |parts| - 1;
      FlatMember(parts[..n], x);
      assert forall i :: 0 <= i < n ==> parts[..n][i] == parts[i];
    }
  }

  // ----- Stable sorting -----

  ghost predicate TotalPreorder<T(!new)>(le: (T, T) -> bool) {
    && (forall x, y :: le(x, y) || le(y, x))
    && (forall x, y, z :: le(x, y) && le(y, z) ==> le(x, z))
  }

  function Insert<T>(x: T, s: seq<T>, le: (T, T) -> bool): (r: seq<T>)
    ensures |r| == |s| + 1
  {
    if s == [] || le(x, s[0]) then [x] + s else [s[0]] + Insert(x, s[1..], le)
  }

  /** The sort: ties keep the order they came in. */
  function Sort<T>(s: seq<T>, le: (T, T) -> bool): (r: seq<T>)
    ensures |r| == |s|
  {
    if s == [] then [] else Insert(s[0], Sort(s[1..], le), le)
  }

  ghost predicate Ordered<T(!new)>(s: seq<T>, le: (T, T) -> bool) {
    forall i, j :: 0 <= i < j < |s| ==> le(s[i], s[j])
  }

  /** The entries of `s` that compare equal to `z`, in the order they stand. */
  ghost function Tied<T>(s: seq<T>, z: T, le: (T, T) -> bool): (r: seq<T>) {
    if s == [] then []
    else (if le(s[0], z) && le(z, s[0]) then [s[0]] else []) + Tied(s[1..], z, le)
  }

  /**
   `r` is the stable ascending arrangement of `s`: the same entries with the same
   multiplicities, ascending, and every group of ties as it stood in `s`.
   */
  ghost predicate StableArrangement<T(!new)>(s: seq<T>, r: seq<T>, le: (T, T) -> bool) {
    && multiset(r) == multiset(s)
    && Ordered(r, le)
    && forall z :: z in s ==> Tied(r, z, le) == Tied(s, z, le)
  }

  lemma {:induction false} InsertMultiset<T>(x: T, s: seq<T>, le: (T, T) -> bool)
    ensures multiset(Insert(x, s, le)) == multiset{x} + multiset(s)
  {
    if s == [] || le(x, s[0]) {
    } else {
      InsertMultiset(x, s[1..], le);
      assert s == [s[0]] + s[1..];
    }
  }

  lemma OrderedCons<T(!new)>(x: T, s: seq<T>, le: (T, T) -> bool)
    requires Ordered(s, le)
    requires forall y :: y in s ==> le(x, y)
    ensures Ordered([x] + s, le)
  {
  }

  lemma {:induction false} InsertOrdered<T(!new)>(x: T, s: seq<T>, le: (T, T) -> bool)
    requires TotalPreorder(le) && Ordered(s, le)
    ensures Ordered(Insert(x, s, le), le)
  {
    if s == [] {
    } else if le(x, s[0]) {
      forall y | y in s ensures le(x, y) {
        var j :| 0 <= j < |s| && s[j] == y;
        assert j == 0 || le(s[0], s[j]);
      }
      OrderedCons(x, s, le);
    } else {
      var tail := Insert(x, s[1..], le);
      InsertOrdered(x, s[1..], le);
      InsertMultiset(x, s[1..], le);
      forall y | y in tail ensures le(s[0], y) {
        assert y in multiset(tail);
      }
      OrderedCons(s[0], tail, le);
    }
  }

  lemma {:induction false} InsertTied<T(!new)>(x: T, s: seq<T>, z: T, le: (T, T) -> bool)
    requires TotalPreorder(le) && Ordered(s, le)
    ensures Tied(Insert(x, s, le), z, le) == Tied([x] + s, z, le)
  {
    assert ([x] + s)[1..] == s;
    if s == [] || le(x, s[0]) {
    } else {
      InsertTied(x, s[1..], z, le);
      assert ([x] + s[1..])[1..] == s[1..];
      assert !(le(x, z) && le(z, x)) || !(le(s[0], z) && le(z, s[0]));
    }
  }

  lemma {:induction false} SortKeeps<T(!new)>(s: seq<T>, z: T, le: (T, T) -> bool)
    requires TotalPreorder(le)
    ensures multiset(Sort(s, le)) == multiset(s)
    ensures Ordered(Sort(s, le), le)
    ensures Tied(Sort(s, le), z, le) == Tied(s, z, le)
  {
    if s == [] {
    } else {
      SortKeeps(s[1..], z, le);
      var t := Sort(s[1..], le);
      assert s == [s[0]] + s[1..] && ([s[0]] + t)[1..] == t;
      InsertMultiset(s[0], t, le);
      InsertOrdered(s[0], t, le);
      InsertTied(s[0], t, z, le);
    }
  }

  /** The sort is the stable arrangement of its input, for every input and every total preorder. */
  lemma SortIsStable<T(!new)>(s: seq<T>, le: (T, T) -> bool)
    requires TotalPreorder(le)
    ensures StableArrangement(s, Sort(s, le), le)
  {
    if s != [] {
      SortKeeps(s, s[0], le);
    }
    forall z | z in s ensures Tied(Sort(s, le), z, le) == Tied(s, z, le) {
      SortKeeps(s, z, le);
    }
  }

  /** What most callers need: same entries, ordered, and still repeat-free. */
  lemma SortFacts<T(!new)>(s: seq<T>, le: (T, T) -> bool)
    requires TotalPreorder(le)
    ensures multiset(Sort(s, le)) == multiset(s)
    ensures forall x :: x in Sort(s, le) <==> x in s
    ensures Ordered(Sort(s, le), le)
    ensures NoRepeats(s) ==> NoRepeats(Sort(s, le))
  {
    SortIsStable(s, le);
    var r := Sort(s, le);
    forall x ensures x in r <==> x in s {
      assert x in s <==> x in multiset(s);
      assert x in r <==> x in multiset(r);
    }
    if NoRepeats(s) {
      NoRepeatsCardinality(s);
      assert Elements(s) == Elements(r);
      forall i, j | 0 <= i < j < |r| ensures r[i] != r[j] {
        if r[i] == r[j] {
          RepeatShrinks(r, i, j);
        }
      }
    }
  }

  lemma RepeatShrinks<T(!new)>(s: seq<T>, i: nat, j: nat)
    requires i < j < |s| && s[i] == s[j]
    ensures |Elements(s)| < |s|
  {
    var rest := s[..i] + s[i + 1..];
    assert s[j] == rest[j - 1];
    assert forall x :: x in s ==> x in rest;
    assert Elements(s) == Elements(rest);
    ElementsBound(rest);
  }

  lemma {:induction false} ElementsBound<T(!new)>(s: seq<T>)
    ensures |Elements(s)| <= |s|
  {
    if s == [] {
    } else {
      ElementsBound(s[1..]);
      assert Elements(s) == {s[0]} + Elements(s[1..]);
    }
  }
}
