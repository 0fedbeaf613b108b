/** Walks, reachability and cycles in a finite directed graph given by its edge set. */
module Digraph {
  type Edges<V(==)> = set<(V, V)>

  ghost predicate Step<V(!new)>(es: Edges<V>, w: seq<V>, i: nat)
    requires i + 1 < |w|
  {
    (w[i], w[i + 1]) in es
  }

  ghost predicate Walk<V(!new)>(es: Edges<V>, w: seq<V>) {
    |w| >= 1 && forall i {:trigger Step(es, w, i)} :: 0 <= i < |w| - 1 ==> Step(es, w, i)
  }

  /** One or more edges lead from `a` to `b`. */
  ghost predicate Reaches<V(!new)>(es: Edges<V>, a: V, b: V) {
    exists w :: Walk(es, w) && |w| >= 2 && w[0] == a && w[|w| - 1] == b
  }

  ghost predicate Acyclic<V(!new)>(es: Edges<V>) {
    forall v :: !Reaches(es, v, v)
  }

  /** `v` lies on a cycle or can be reached from one. */
  ghost predicate BelowCycle<V(!new)>(es: Edges<V>, v: V) {
    exists c :: Reaches(es, c, c) && (c == v || Reaches(es, c, v))
  }

  lemma SubWalk<V(!new)>(es: Edges<V>, w: seq<V>, lo: nat, hi: nat)
    requires Walk(es, w)
    requires lo < hi <= |w|
    ensures Walk(es, w[lo..hi])
  {
    forall i | 0 <= i < hi - lo - 1 ensures Step(es, w[lo..hi], i) {
      assert Step(es, w, lo + i);
    }
  }

  lemma JoinWalks<V(!new)>(es: Edges<V>, w: seq<V>, u: seq<V>)
    requires Walk(es, w) && Walk(es, u)
    requires (w[|w| - 1], u[0]) in es
    ensures Walk(es, w + u)
  {
    forall i | 0 <= i < |w + u| - 1 ensures Step(es, w + u, i) {
      if i < |w| - 1 {
        assert Step(es, w, i);
      } else if i >= |w| {
        assert Step(es, u, i - |w|);
      }
    }
  }

  /** A stretch of a walk that closes on itself is a cycle, and it reaches the end of the walk. */
  lemma ClosedStretch<V(!new)>(es: Edges<V>, w: seq<V>, i: nat, j: nat)
    requires Walk(es, w)
    requires i < j < |w| && w[i] == w[j]
    ensures BelowCycle(es, w[|w| - 1])
  {
    SubWalk(es, w, i, j + 1);
    var c := w[i];
    assert Reaches(es, c, c) by {
      var loop := w[i..j + 1];
      assert Walk(es, loop) && loop[0] == c && loop[|loop| - 1] == c;
    }
    if j < |w| - 1 {
      SubWalk(es, w, j, |w|);
      var tail := w[j..];
      assert tail == w[j..|w|];
      assert Walk(es, tail) && tail[0] == c && tail[|tail| - 1] == w[|w| - 1];
      assert Reaches(es, c, w[|w| - 1]);
    }
  }
}
