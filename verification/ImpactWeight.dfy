/**
 `ImpactWeightCalculator`: how much work an issue holds up. The recursion keeps one visited
 set per branch, so on any graph, cyclic or not, it counts paths and it stops.
 */
module ImpactWeight {
  import opened Collections
  import opened Digraph

  /** Which issues each issue blocks. */
  type Blocking<V(==)> = map<V, set<V>>

  function Kids<V(==)>(adj: Blocking<V>, v: V): (r: set<V>) {
    if v in adj then adj[v] else {}
  }

  ghost function BlockEdges<V(!new)>(adj: Blocking<V>): (es: Edges<V>) {
    set u, w | u in adj && w in adj[u] :: (u, w)
  }

  ghost function Blocked<V(!new)>(adj: Blocking<V>): (r: set<V>) {
    set u, w | u in adj && w in adj[u] :: w
  }

  lemma KidsAreBlocked<V(!new)>(adj: Blocking<V>, v: V)
    ensures Kids(adj, v) <= Blocked(adj)
    ensures forall c :: c in Kids(adj, v) <==> (v, c) in BlockEdges(adj)
  {
  }

  // ----- What the weight counts -----

  /** Non-empty paths out of `v` that enter no visited vertex and no vertex twice. `v` itself may be entered once. */
  ghost predicate SimplePath<V(!new)>(adj: Blocking<V>, v: V, visited: set<V>, p: seq<V>) {
    && p != []
    && Walk(BlockEdges(adj), [v] + p)
    && NoRepeats(p)
    && Elements(p) !! visited
  }

  /** The same paths, built branch by branch as the recursion meets them. */
  ghost function Paths<V(!new)>(adj: Blocking<V>, v: V, visited: set<V>): (r: set<seq<V>>)
    decreases Blocked(adj) - visited, 1
  {
    Via(adj, visited, Kids(adj, v) - visited)
  }

  /** Paths whose first vertex is in `starts`. */
  ghost function Via<V(!new)>(adj: Blocking<V>, visited: set<V>, starts: set<V>): (r: set<seq<V>>)
    decreases Blocked(adj) - visited, 0
  {
    set c, q | c in starts * Blocked(adj) - visited && q in {[]} + Paths(adj, c, visited + {c}) :: [c] + q
  }

  lemma SimpleCons<V(!new)>(adj: Blocking<V>, v: V, visited: set<V>, c: V, q: seq<V>)
    ensures SimplePath(adj, v, visited, [c] + q) <==>
            && c in Kids(adj, v) - visited
            && (q == [] || SimplePath(adj, c, visited + {c}, q))
  {
    var es, p := BlockEdges(adj), [c] + q;
    var w := [v] + p;
    KidsAreBlocked(adj, v);
    if SimplePath(adj, v, visited, p) {
      assert Step(es, w, 0);
      assert c in Elements(p);
      if q != [] {
        SubWalk(es, w, 1, |w|);
        assert w[1..|w|] == [c] + q;
        forall i, j | 0 <= i < j < |q| ensures q[i] != q[j] {
          assert p[i + 1] != p[j + 1];
        }
        forall x | x in q ensures x !in visited + {c} {
          var i :| 0 <= i < |q| && q[i] == x;
          assert p[0] != p[i + 1] && p[i + 1] in Elements(p);
        }
      }
    }
    if c in Kids(adj, v) - visited && (q == [] || SimplePath(adj, c, visited + {c}, q)) {
      assert Walk(es, [v]) && Walk(es, [c]);
      JoinWalks(es, [v], p);
      assert forall x :: x in Elements(p) ==> x == c || x in Elements(q);
      forall i, j | 0 <= i < j < |p| ensures p[i] != p[j] {
        if i == 0 { assert p[j] in Elements(q); } else { assert q[i - 1] != q[j - 1]; }
      }
    }
  }

  /** The recursion meets exactly the simple paths. */
  lemma {:induction false} PathsMeaning<V(!new)>(adj: Blocking<V>, v: V, visited: set<V>, p: seq<V>)
    ensures p in Paths(adj, v, visited) <==> SimplePath(adj, v, visited, p)
    decreases |p|
  {
    KidsAreBlocked(adj, v);
    if p == [] {
    } else {
      var c, q := p[0], p[1..];
      assert p == [c] + q;
      SimpleCons(adj, v, visited, c, q);
      if c in Kids(adj, v) - visited {
        PathsMeaning(adj, c, visited + {c}, q);
        if q != [] {
          EmptyIsNoPath(adj, c, visited + {c});
        }
        PrefixSplit(adj, visited, Kids(adj, v) - visited, c, q);
      } else {
        forall c', q' | [c'] + q' == p ensures c' == c { assert ([c'] + q')[0] == p[0]; }
      }
    }
  }

  lemma PrefixSplit<V(!new)>(adj: Blocking<V>, visited: set<V>, starts: set<V>, c: V, q: seq<V>)
    ensures [c] + q in Via(adj, visited, starts) <==>
            c in starts * Blocked(adj) - visited && q in {[]} + Paths(adj, c, visited + {c})
  {
    if [c] + q in Via(adj, visited, starts) {
      var c', q' :| && c' in starts * Blocked(adj) - visited
                    && q' in {[]} + Paths(adj, c', visited + {c'})
                    && [c'] + q' == [c] + q;
      assert ([c'] + q')[0] == ([c] + q)[0] && ([c'] + q')[1..] == ([c] + q)[1..];
      assert c' == c && q' == q;
    }
  }

  lemma EmptyIsNoPath<V(!new)>(adj: Blocking<V>, v: V, visited: set<V>)
    ensures [] !in Paths(adj, v, visited)
  {
  }

  // ----- Counting -----

  ghost function Prepend<V(!new)>(c: V, qs: set<seq<V>>): (r: set<seq<V>>) {
    set q | q in qs :: [c] + q
  }

  lemma {:induction false} PrependCount<V(!new)>(c: V, qs: set<seq<V>>)
    ensures |Prepend(c, qs)| == |qs|
  {
    if qs == {} {
    } else {
      var q :| q in qs;
      PrependCount(c, qs - {q});
      assert [c] + q !in Prepend(c, qs - {q}) by {
        forall q' | q' in qs - {q} ensures [c] + q' != [c] + q {
          assert ([c] + q')[1..] == q' && ([c] + q)[1..] == q;
        }
      }
      assert Prepend(c, qs) == Prepend(c, qs - {q}) + {[c] + q};
    }
  }

  lemma ViaMember<V(!new)>(adj: Blocking<V>, visited: set<V>, starts: set<V>, p: seq<V>)
    ensures p in Via(adj, visited, starts) <==>
            && p != [] && p[0] in starts * Blocked(adj) - visited
            && p[1..] in {[]} + Paths(adj, p[0], visited + {p[0]})
  {
    if p != [] {
      assert p == [p[0]] + p[1..];
      PrefixSplit(adj, visited, starts, p[0], p[1..]);
    }
  }

  lemma PrependMember<V(!new)>(c: V, qs: set<seq<V>>, p: seq<V>)
    ensures p in Prepend(c, qs) <==> p != [] && p[0] == c && p[1..] in qs
  {
    if p != [] && p[0] == c && p[1..] in qs {
      assert p == [c] + p[1..];
    }
    if p in Prepend(c, qs) {
      var q :| q in qs && p == [c] + q;
      assert p[1..] == q;
    }
  }

  lemma DisjointUnionCount<T>(a: set<T>, b: set<T>, ab: set<T>)
    requires forall x :: x in ab <==> x in a || x in b
    requires forall x :: x in a ==> x !in b
    ensures |ab| == |a| + |b|
  {
    assert ab == a + b && a !! b;
  }

  /** Each unvisited child adds itself and its own weight with the branch's visited set. */
  lemma ViaOneMore<V(!new)>(adj: Blocking<V>, visited: set<V>, starts: set<V>, c: V)
    requires c !in starts && c in Blocked(adj) - visited
    ensures |Via(adj, visited, starts + {c})| == |Via(adj, visited, starts)| + 1 + |Paths(adj, c, visited + {c})|
  {
    var below := Paths(adj, c, visited + {c});
    EmptyIsNoPath(adj, c, visited + {c});
    PrependCount(c, {[]} + below);
    forall p
      ensures p in Via(adj, visited, starts + {c}) <==> p in Via(adj, visited, starts) || p in Prepend(c, {[]} + below)
      ensures p in Via(adj, visited, starts) ==> p !in Prepend(c, {[]} + below)
    {
      ViaMember(adj, visited, starts + {c}, p);
      ViaMember(adj, visited, starts, p);
      PrependMember(c, {[]} + below, p);
    }
    DisjointUnionCount(Via(adj, visited, starts), Prepend(c, {[]} + below), Via(adj, visited, starts + {c}));
  }

  /** The weight gathered from the children in `done`. */
  ghost function Gathered<V(!new)>(adj: Blocking<V>, visited: set<V>, done: set<V>): (n: nat) {
    |Via(adj, visited, done - visited)|
  }

  lemma GatherChild<V(!new)>(adj: Blocking<V>, visited: set<V>, done: set<V>, c: V)
    requires c !in done && c in Blocked(adj)
    ensures Gathered(adj, visited, done + {c})
         == Gathered(adj, visited, done) + (if c in visited then 0 else 1 + |Paths(adj, c, visited + {c})|)
  {
    if c in visited {
      assert done + {c} - visited == done - visited;
    } else {
      ViaOneMore(adj, visited, done - visited, c);
      assert done + {c} - visited == done - visited + {c};
    }
  }

  lemma GatherAll<V(!new)>(adj: Blocking<V>, v: V, visited: set<V>)
    ensures Gathered(adj, visited, {}) == 0
    ensures Gathered(adj, visited, Kids(adj, v)) == |Paths(adj, v, visited)|
  {
    assert Via(adj, visited, {}) == {};
    assert {} - visited == {};
  }

  /** `calculate_weight`: stops on every graph, and counts the simple paths out of the issue. */
  method CalculateWeight<V(==, !new)>(issue: V, adj: Blocking<V>, visited: set<V>) returns (weight: nat)
    ensures weight == |Paths(adj, issue, visited)|
    decreases Blocked(adj) - visited
  {
    weight := 0;
    var todo := Kids(adj, issue);
    ghost var done: set<V> := {};
    KidsAreBlocked(adj, issue);
    GatherAll(adj, issue, visited);
    while todo != {}
      invariant done !! todo && done + todo == Kids(adj, issue)
      invariant weight == Gathered(adj, visited, done)
      decreases todo
    {
      var child :| child in todo;
      todo := todo - {child};
      GatherChild(adj, visited, done, child);
      if child !in visited {
        var below := CalculateWeight(child, adj, visited + {child});
        weight := weight + (1 + below);
      }
      done := done + {child};
    }
    assert done == Kids(adj, issue);
  }

  // ----- At least everything transitively blocked -----

  lemma AlongWalk<V(!new)>(adj: Blocking<V>, v: V, p: seq<V>, i: nat)
    requires Walk(BlockEdges(adj), [v] + p) && i < |p|
    ensures Reaches(BlockEdges(adj), v, p[i])
  {
    var w := [v] + p;
    SubWalk(BlockEdges(adj), w, 0, i + 2);
    assert w[0..i + 2][i + 1] == p[i];
  }

  /** A walk out of `v` can be shortened to a simple path with the same end. */
  lemma {:induction false} Shorten<V(!new)>(adj: Blocking<V>, w: seq<V>) returns (p: seq<V>)
    requires Walk(BlockEdges(adj), w) && |w| >= 2
    ensures SimplePath(adj, w[0], {}, p) && p[|p| - 1] == w[|w| - 1]
    decreases |w|
  {
    var es := BlockEdges(adj);
    p := w[1..];
    assert [w[0]] + p == w;
    if !NoRepeats(p) {
      var i, j :| 0 <= i < j < |p| && p[i] == p[j];
      SubWalk(es, w, 0, i + 2);
      var shorter := w[0..i + 2];
      if j + 2 < |w| {
        SubWalk(es, w, j + 2, |w|);
        assert Step(es, w, j + 1);
        JoinWalks(es, shorter, w[j + 2..|w|]);
        shorter := shorter + w[j + 2..|w|];
      }
      p := Shorten(adj, shorter);
    }
  }

  ghost function Ends<V(!new)>(ps: set<seq<V>>): (r: set<V>)
    requires [] !in ps
  {
    set p | p in ps :: p[|p| - 1]
  }

  lemma {:induction false} EndsCount<V(!new)>(ps: set<seq<V>>)
    requires [] !in ps
    ensures |Ends(ps)| <= |ps|
  {
    if ps == {} {
    } else {
      var p :| p in ps;
      EndsCount(ps - {p});
      assert Ends(ps) == Ends(ps - {p}) + {p[|p| - 1]};
    }
  }

  /** The issues `v` transitively blocks form a finite set, and the weight of `v` is at least its size. */
  lemma WeightCoversBlocked<V(!new)>(adj: Blocking<V>, v: V) returns (blocked: set<V>)
    ensures forall u :: u in blocked <==> Reaches(BlockEdges(adj), v, u)
    ensures |Paths(adj, v, {})| >= |blocked|
  {
    var es, ps := BlockEdges(adj), Paths(adj, v, {});
    EmptyIsNoPath(adj, v, {});
    blocked := Ends(ps);
    EndsCount(ps);
    forall u ensures u in blocked <==> Reaches(es, v, u) {
      if u in blocked {
        var p :| p in ps && p[|p| - 1] == u;
        PathsMeaning(adj, v, {}, p);
        AlongWalk(adj, v, p, |p| - 1);
      }
      if Reaches(es, v, u) {
        var w :| Walk(es, w) && |w| >= 2 && w[0] == v && w[|w| - 1] == u;
        var p := Shorten(adj, w);
        PathsMeaning(adj, v, {}, p);
      }
    }
  }

  // ----- Acyclic graphs: the documented recursion -----

  lemma VisitedOutOfReach<V(!new)>(adj: Blocking<V>, v: V, visited: set<V>)
    requires forall x :: x in visited ==> !Reaches(BlockEdges(adj), v, x)
    ensures Paths(adj, v, visited) == Paths(adj, v, {})
  {
    forall p ensures p in Paths(adj, v, visited) <==> p in Paths(adj, v, {}) {
      PathsMeaning(adj, v, visited, p);
      PathsMeaning(adj, v, {}, p);
      if SimplePath(adj, v, {}, p) {
        forall x | x in p ensures x !in visited {
          var i :| 0 <= i < |p| && p[i] == x;
          AlongWalk(adj, v, p, i);
        }
      }
    }
  }

  /** Sum of (1 + f(child)) over a listing of children. */
  ghost function SumOver<V(!new)>(f: V -> nat, children: seq<V>): (n: nat) {
    if children == [] then 0 else 1 + f(children[0]) + SumOver(f, children[1..])
  }

  /** The weight as a function of the issue alone. */
  ghost function WeightIn<V(!new)>(adj: Blocking<V>): (f: V -> nat) {
    v => |Paths(adj, v, {})|
  }

  /** `f` is a solution of the documented recursion, which has no visited set: f(v) is the sum of (1 + f(child)). */
  ghost predicate Unguarded<V(!new)>(adj: Blocking<V>, f: V -> nat) {
    forall v, children :: NoRepeats(children) && Elements(children) == Kids(adj, v) ==> f(v) == SumOver(f, children)
  }

  lemma GatherAcyclic<V(!new)>(adj: Blocking<V>, done: set<V>, c: V)
    requires Acyclic(BlockEdges(adj)) && c !in done && c in Blocked(adj)
    ensures Gathered(adj, {}, done + {c}) == Gathered(adj, {}, done) + 1 + |Paths(adj, c, {})|
  {
    GatherChild(adj, {}, done, c);
    VisitedOutOfReach(adj, c, {c});
    assert {} + {c} == {c};
  }

  lemma HeadAndRest<V(!new)>(s: seq<V>)
    requires s != [] && NoRepeats(s)
    ensures NoRepeats(s[1..]) && Elements(s) == {s[0]} + Elements(s[1..]) && s[0] !in Elements(s[1..])
  {
    assert s == [s[0]] + s[1..];
    forall i | 0 <= i < |s[1..]| ensures s[1..][i] != s[0] {
      assert s[0] != s[i + 1];
    }
  }

  lemma Regroup<V>(done: set<V>, c: V, rest: set<V>)
    ensures done + ({c} + rest) == (done + {c}) + rest
  {
  }

  lemma {:induction false} SumGathers<V(!new)>(adj: Blocking<V>, done: set<V>, children: seq<V>)
    requires Acyclic(BlockEdges(adj))
    requires NoRepeats(children) && Elements(children) !! done && Elements(children) <= Blocked(adj)
    ensures Gathered(adj, {}, done + Elements(children)) == Gathered(adj, {}, done) + SumOver(WeightIn(adj), children)
    decreases |children|
  {
    if children == [] {
      assert done + Elements(children) == done;
    } else {
      var c, rest := children[0], children[1..];
      HeadAndRest(children);
      Regroup(done, c, Elements(rest));
      GatherAcyclic(adj, done, c);
      SumGathers(adj, done + {c}, rest);
    }
  }

  /** On an acyclic graph the weight solves the documented recursion, in any order of the children... */
  lemma AcyclicWeight<V(!new)>(adj: Blocking<V>)
    requires Acyclic(BlockEdges(adj))
    ensures Unguarded(adj, WeightIn(adj))
  {
    forall v, children | NoRepeats(children) && Elements(children) == Kids(adj, v)
      ensures |Paths(adj, v, {})| == SumOver(WeightIn(adj), children)
    {
      KidsAreBlocked(adj, v);
      GatherAll(adj, v, {});
      SumGathers(adj, {}, children);
      assert {} + Elements(children) == Kids(adj, v);
    }
  }

  lemma {:induction false} SumsAgree<V(!new)>(f: V -> nat, g: V -> nat, children: seq<V>)
    requires forall c :: c in children ==> f(c) == g(c)
    ensures SumOver(f, children) == SumOver(g, children)
  {
    if children != [] {
      assert children[0] in children;
      SumsAgree(f, g, children[1..]);
    }
  }

  /** ...and it is the only solution: whatever solves the recursion without a visited set is the weight. */
  lemma {:induction false} UnguardedIsWeight<V(!new)>(adj: Blocking<V>, f: V -> nat, v: V)
    requires Acyclic(BlockEdges(adj)) && Unguarded(adj, f)
    ensures f(v) == |Paths(adj, v, {})|
    decreases |Paths(adj, v, {})|
  {
    AcyclicWeight(adj);
    var children := Listing(Kids(adj, v));
    forall c | c in children ensures f(c) == WeightIn(adj)(c) {
      assert c in Elements(children);
      PrerequisiteOutweighs(adj, v, c);
      UnguardedIsWeight(adj, f, c);
    }
    SumsAgree(f, WeightIn(adj), children);
    assert f(v) == SumOver(f, children) && WeightIn(adj)(v) == SumOver(WeightIn(adj), children);
  }

  /** So a prerequisite outweighs each direct dependent. */
  lemma PrerequisiteOutweighs<V(!new)>(adj: Blocking<V>, v: V, c: V)
    requires Acyclic(BlockEdges(adj)) && c in Kids(adj, v)
    ensures |Paths(adj, v, {})| >= 1 + |Paths(adj, c, {})|
  {
    KidsAreBlocked(adj, v);
    var others := Listing(Kids(adj, v) - {c});
    var children := [c] + others;
    assert children[1..] == others;
    assert forall x :: x in Elements(children) <==> x == c || x in Elements(others);
    assert Elements(children) == Kids(adj, v);
    assert NoRepeats(children) by {
      forall i, j | 0 <= i < j < |children| ensures children[i] != children[j] {
        if i == 0 { assert children[j] in Elements(others); } else { assert others[i - 1] != others[j - 1]; }
      }
    }
    AcyclicWeight(adj);
    assert WeightIn(adj)(v) == SumOver(WeightIn(adj), children);
  }

  // ----- Exactly on acyclic graphs -----

  /** Every issue weighs more than each issue it blocks. */
  ghost predicate WeightsDescend<V(!new)>(adj: Blocking<V>) {
    forall u, c :: (u, c) in BlockEdges(adj) ==> Heavier(adj, u, c)
  }

  ghost predicate Heavier<V(!new)>(adj: Blocking<V>, u: V, c: V) {
    |Paths(adj, u, {})| >= 1 + |Paths(adj, c, {})|
  }

  lemma {:induction false} DescentAlongWalk<V(!new)>(adj: Blocking<V>, w: seq<V>)
    requires WeightsDescend(adj) && Walk(BlockEdges(adj), w)
    ensures |Paths(adj, w[0], {})| >= |w| - 1 + |Paths(adj, w[|w| - 1], {})|
    decreases |w|
  {
    if |w| > 1 {
      assert Step(BlockEdges(adj), w, 0);
      assert Heavier(adj, w[0], w[1]);
      SubWalk(BlockEdges(adj), w, 1, |w|);
      var tail := w[1..|w|];
      DescentAlongWalk(adj, tail);
      assert tail[0] == w[1] && tail[|tail| - 1] == w[|w| - 1];
    }
  }

  /** A prerequisite outweighs each direct dependent everywhere exactly when the graph has no cycle. */
  lemma WeightsDescendIffAcyclic<V(!new)>(adj: Blocking<V>)
    ensures WeightsDescend(adj) <==> Acyclic(BlockEdges(adj))
  {
    var es := BlockEdges(adj);
    if Acyclic(es) {
      forall u, c | (u, c) in es ensures Heavier(adj, u, c) {
        KidsAreBlocked(adj, u);
        PrerequisiteOutweighs(adj, u, c);
      }
    }
    if WeightsDescend(adj) {
      forall v ensures !Reaches(es, v, v) {
        if Reaches(es, v, v) {
          var w :| Walk(es, w) && |w| >= 2 && w[0] == v && w[|w| - 1] == v;
          DescentAlongWalk(adj, w);
        }
      }
    }
  }
}
