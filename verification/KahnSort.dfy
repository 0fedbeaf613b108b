/**
 The topological sort inside `_build_execution_graph`, over any type of node: repeated
 edges, a queue kept in backlog order, and what is left over when no node is free.
 */
module KahnSort {
  import opened Collections
  import opened Digraph

  /** The backlog position of every node. */
  type Index<V> = map<V, nat>

  /** Targets of the edges that leave `u`, in edge order. */
  function Targets<V(==, !new)>(edges: seq<(V, V)>, u: V): (r: seq<V>) {
    if edges == [] then []
    else (if edges[0].0 == u then [edges[0].1] else []) + Targets(edges[1..], u)
  }

  /** How many edges into `v` come from a node not yet listed. */
  function Pending<V(==, !new)>(edges: seq<(V, V)>, v: V, listed: set<V>): (n: nat) {
    if edges == [] then 0
    else (if edges[0].1 == v && edges[0].0 !in listed then 1 else 0) + Pending(edges[1..], v, listed)
  }

  lemma {:induction false} TargetsAppend<V(!new)>(edges: seq<(V, V)>, e: (V, V), u: V)
    ensures Targets(edges + [e], u) == Targets(edges, u) + (if e.0 == u then [e.1] else [])
  {
    if edges == [] {
    } else {
      TargetsAppend(edges[1..], e, u);
      assert (edges + [e])[1..] == edges[1..] + [e];
    }
  }

  lemma {:induction false} PendingAppend<V(!new)>(edges: seq<(V, V)>, e: (V, V), v: V, listed: set<V>)
    ensures Pending(edges + [e], v, listed)
         == Pending(edges, v, listed) + (if e.1 == v && e.0 !in listed then 1 else 0)
  {
    if edges == [] {
    } else {
      PendingAppend(edges[1..], e, v, listed);
      assert (edges + [e])[1..] == edges[1..] + [e];
    }
  }

  lemma {:induction false} PendingZero<V(!new)>(edges: seq<(V, V)>, v: V, listed: set<V>)
    ensures Pending(edges, v, listed) == 0 <==> forall e :: e in edges && e.1 == v ==> e.0 in listed
  {
    if edges == [] {
    } else {
      PendingZero(edges[1..], v, listed);
      assert forall e :: e in edges <==> e == edges[0] || e in edges[1..];
    }
  }

  /** Listing `c` takes off `v` exactly as many pending edges as `c` has edges to `v`. */
  lemma {:induction false} PendingAfter<V(!new)>(edges: seq<(V, V)>, v: V, listed: set<V>, c: V)
    requires c !in listed
    ensures Pending(edges, v, listed) == Pending(edges, v, listed + {c}) + multiset(Targets(edges, c))[v]
  {
    if edges == [] {
    } else {
      PendingAfter(edges[1..], v, listed, c);
    }
  }

  // ----- What an admissible order is -----

  function Rank<V(==, !new)>(index: Index<V>, v: V): (n: nat) {
    if v in index then index[v] else 0
  }

  function ByIndex<V(==, !new)>(index: Index<V>): (le: (V, V) -> bool) {
    (a, b) => Rank(index, a) <= Rank(index, b)
  }

  ghost predicate Injective<V(!new)>(index: Index<V>) {
    forall u, v :: u in index && v in index && index[u] == index[v] ==> u == v
  }

  /** Everything `v` waits for is already listed, and `v` itself is not. */
  ghost predicate Ready<V(!new)>(es: Edges<V>, nodes: set<V>, listed: set<V>, v: V) {
    v in nodes && v !in listed && forall e :: e in es && e.1 == v ==> e.0 in listed
  }

  /** A listing that never runs an item before one it waits for, and runs none twice. */
  ghost predicate RunsInOrder<V(!new)>(es: Edges<V>, nodes: set<V>, order: seq<V>) {
    forall k :: 0 <= k < |order| ==> Ready(es, nodes, Elements(order[..k]), order[k])
  }

  /** Every position holds the ready item that stands first in the backlog. */
  ghost predicate PicksFirst<V(!new)>(es: Edges<V>, index: Index<V>, order: seq<V>) {
    forall k, v :: 0 <= k < |order| && Ready(es, index.Keys, Elements(order[..k]), v)
               ==> Rank(index, order[k]) <= Rank(index, v)
  }

  /** Nothing more can run. */
  ghost predicate Exhausted<V(!new)>(es: Edges<V>, nodes: set<V>, order: seq<V>) {
    forall v :: !Ready(es, nodes, Elements(order), v)
  }

  ghost predicate GreedyOrder<V(!new)>(es: Edges<V>, index: Index<V>, order: seq<V>) {
    RunsInOrder(es, index.Keys, order) && PicksFirst(es, index, order) && Exhausted(es, index.Keys, order)
  }

  lemma RunsInOrderNoRepeats<V(!new)>(es: Edges<V>, nodes: set<V>, order: seq<V>)
    requires RunsInOrder(es, nodes, order)
    ensures NoRepeats(order) && Elements(order) <= nodes
  {
    forall i, j | 0 <= i < j < |order| ensures order[i] != order[j] {
      assert Ready(es, nodes, Elements(order[..j]), order[j]);
      assert order[i] in order[..j];
    }
    forall v | v in order ensures v in nodes {
      var k :| 0 <= k < |order| && order[k] == v;
      assert Ready(es, nodes, Elements(order[..k]), order[k]);
    }
  }

  /** Every dependency of a listed item is listed, and stands strictly before it. */
  lemma DependenciesComeFirst<V(!new)>(es: Edges<V>, nodes: set<V>, order: seq<V>, e: (V, V), k: nat)
    requires RunsInOrder(es, nodes, order)
    requires e in es && k < |order| && order[k] == e.1
    ensures exists j :: 0 <= j < k && order[j] == e.0
  {
    assert Ready(es, nodes, Elements(order[..k]), order[k]);
    assert e.0 in order[..k];
  }

  /**
   The reported order is the lexicographically least one: against any other admissible
   listing, either that listing is a prefix of it, or at the first difference the
   reported order has the item standing earlier in the backlog.
   */
  lemma GreedyIsLeast<V(!new)>(es: Edges<V>, index: Index<V>, order: seq<V>, other: seq<V>, k: nat)
    requires GreedyOrder(es, index, order) && Injective(index)
    requires RunsInOrder(es, index.Keys, other)
    requires k < |other| && k <= |order| && other[..k] == order[..k]
    requires k < |order| ==> other[k] != order[k]
    ensures k < |order| && index.Keys >= {order[k], other[k]} && index[order[k]] < index[other[k]]
  {
    assert Ready(es, index.Keys, Elements(other[..k]), other[k]);
    assert order == order[..|order|];
    assert Ready(es, index.Keys, Elements(order[..k]), order[k]);
    assert Rank(index, order[k]) <= Rank(index, other[k]);
  }

  /** So there is only one such order, and it is also a longest one. */
  lemma GreedyIsUnique<V(!new)>(es: Edges<V>, index: Index<V>, order: seq<V>, other: seq<V>)
    requires GreedyOrder(es, index, order) && Injective(index)
    requires GreedyOrder(es, index, other)
    ensures order == other
  {
    var k := 0;
    while k < |order| && k < |other| && order[k] == other[k]
      invariant k <= |order| && k <= |other| && order[..k] == other[..k]
    {
      k := k + 1;
    }
    if k < |other| { GreedyIsLeast(es, index, order, other, k); }
    if k < |order| { GreedyIsLeast(es, index, other, order, k); }
  }

  // ----- Cycles -----

  /** Along a walk that ends at a listed item, positions in the order strictly increase. */
  lemma {:induction false} WalkBackwards<V(!new)>(es: Edges<V>, nodes: set<V>, order: seq<V>, w: seq<V>, k: nat)
    returns (j: nat)
    requires RunsInOrder(es, nodes, order)
    requires Walk(es, w) && k < |order| && order[k] == w[|w| - 1]
    ensures j + |w| - 1 <= k && order[j] == w[0]
    decreases |w|
  {
    if |w| == 1 {
      j := k;
    } else {
      var n := |w| - 1;
      assert Step(es, w, n - 1);
      DependenciesComeFirst(es, nodes, order, (w[n - 1], w[n]), k);
      var k' :| 0 <= k' < k && order[k'] == w[n - 1];
      SubWalk(es, w, 0, n);
      assert w[0..n][|w[0..n]| - 1] == w[n - 1];
      j := WalkBackwards(es, nodes, order, w[0..n], k');
    }
  }

  /** Nothing on a cycle, or below one, is ever listed. */
  lemma ListedIsNotBelowCycle<V(!new)>(es: Edges<V>, nodes: set<V>, order: seq<V>, v: V)
    requires RunsInOrder(es, nodes, order)
    requires v in order
    ensures !BelowCycle(es, v)
  {
    RunsInOrderNoRepeats(es, nodes, order);
    if BelowCycle(es, v) {
      var c :| Reaches(es, c, c) && (c == v || Reaches(es, c, v));
      var k :| 0 <= k < |order| && order[k] == v;
      var m := k;
      if c != v {
        var w :| Walk(es, w) && |w| >= 2 && w[0] == c && w[|w| - 1] == v;
        m := WalkBackwards(es, nodes, order, w, k);
      }
      var u :| Walk(es, u) && |u| >= 2 && u[0] == c && u[|u| - 1] == c;
      var j := WalkBackwards(es, nodes, order, u, m);
      assert false;
    }
  }

  /** From an item that never becomes ready one can walk backwards forever. */
  lemma {:induction false} UnlistedWalk<V(!new)>(es: Edges<V>, nodes: set<V>, order: seq<V>, v: V, n: nat)
    returns (w: seq<V>)
    requires Exhausted(es, nodes, order)
    requires forall e :: e in es ==> e.0 in nodes
    requires v in nodes && v !in order
    ensures Walk(es, w) && |w| == n + 1 && w[n] == v && Elements(w) <= nodes
    decreases n
  {
    if n == 0 {
      w := [v];
    } else {
      assert !Ready(es, nodes, Elements(order), v);
      var e :| e in es && e.1 == v && e.0 !in Elements(order);
      var u := UnlistedWalk(es, nodes, order, e.0, n - 1);
      assert Walk(es, [v]);
      JoinWalks(es, u, [v]);
      w := u + [v];
    }
  }

  /** What is left over is exactly what lies on a cycle or below one. */
  lemma UnlistedExactlyBelowCycle<V(!new)>(es: Edges<V>, nodes: set<V>, order: seq<V>, v: V)
    requires RunsInOrder(es, nodes, order) && Exhausted(es, nodes, order)
    requires forall e :: e in es ==> e.0 in nodes
    requires v in nodes
    ensures v !in order <==> BelowCycle(es, v)
  {
    if v in order {
      ListedIsNotBelowCycle(es, nodes, order, v);
    } else {
      var w := UnlistedWalk(es, nodes, order, v, |nodes|);
      var i, j := Pigeonhole(w, nodes);
      ClosedStretch(es, w, i, j);
    }
  }

  lemma CycleIffUnlisted<V(!new)>(es: Edges<V>, nodes: set<V>, order: seq<V>)
    requires RunsInOrder(es, nodes, order) && Exhausted(es, nodes, order)
    requires forall e :: e in es ==> e.0 in nodes && e.1 in nodes
    ensures |order| != |nodes| <==> !Acyclic(es)
  {
    RunsInOrderNoRepeats(es, nodes, order);
    NoRepeatsCardinality(order);
    SubsetCardinality(Elements(order), nodes);
    if v :| v in nodes && v !in order {
      UnlistedExactlyBelowCycle(es, nodes, order, v);
      var c :| Reaches(es, c, c) && (c == v || Reaches(es, c, v));
      assert |order| != |nodes|;
    } else {
      assert Elements(order) == nodes;
      forall v ensures !Reaches(es, v, v) {
        if Reaches(es, v, v) {
          var w :| Walk(es, w) && |w| >= 2 && w[0] == v && w[|w| - 1] == v;
          assert Step(es, w, 0);
          assert BelowCycle(es, v);
          ListedIsNotBelowCycle(es, nodes, order, v);
        }
      }
    }
  }

  /** The adjacency and in-degree maps count repeated dependencies once per mention. */
  ghost predicate Tallies<V(!new)>(edges: seq<(V, V)>, index: Index<V>,
                          adjacency: map<V, seq<V>>, inDegree: map<V, nat>) {
    && adjacency.Keys == index.Keys && inDegree.Keys == index.Keys
    && (forall u :: u in index ==> adjacency[u] == Targets(edges, u))
    && (forall v :: v in index ==> inDegree[v] == Pending(edges, v, {}))
  }

  lemma TallyOne<V(!new)>(edges: seq<(V, V)>, e: (V, V), index: Index<V>,
                 adjacency: map<V, seq<V>>, inDegree: map<V, nat>)
    requires Tallies(edges, index, adjacency, inDegree)
    requires e.0 in index && e.1 in index
    ensures Tallies(edges + [e], index, adjacency[e.0 := adjacency[e.0] + [e.1]], inDegree[e.1 := inDegree[e.1] + 1])
  {
    forall u | u in index ensures Targets(edges + [e], u) == Targets(edges, u) + (if e.0 == u then [e.1] else []) {
      TargetsAppend(edges, e, u);
    }
    forall v | v in index ensures Pending(edges + [e], v, {}) == Pending(edges, v, {}) + (if e.1 == v then 1 else 0) {
      PendingAppend(edges, e, v, {});
    }
  }

  /** Both maps after one more edge. */
  method AddEdge<V(==, !new)>(ghost before: seq<(V, V)>, dep: V, target: V, index: Index<V>,
                              adjacency0: map<V, seq<V>>, inDegree0: map<V, nat>)
    returns (adjacency: map<V, seq<V>>, inDegree: map<V, nat>)
    requires Tallies(before, index, adjacency0, inDegree0)
    requires dep in index && target in index
    ensures Tallies(before + [(dep, target)], index, adjacency, inDegree)
  {
    TallyOne(before, (dep, target), index, adjacency0, inDegree0);
    adjacency := adjacency0[dep := adjacency0[dep] + [target]];
    inDegree := inDegree0[target := inDegree0[target] + 1];
  }

  // ----- The topological sort -----

  /** The sort's bookkeeping between two turns: degrees count pending edges, the queue holds what is ready. */
  ghost predicate Bookkeeping<V(!new)>(edges: seq<(V, V)>, index: Index<V>, listed: set<V>,
                              degree: map<V, nat>, queue: seq<V>) {
    && degree.Keys == index.Keys
    && (forall v :: v in index ==> degree[v] == Pending(edges, v, listed))
    && QueueHolds(index, listed, degree, queue)
  }

  ghost predicate QueueHolds<V(!new)>(index: Index<V>, listed: set<V>, degree: map<V, nat>, queue: seq<V>)
    requires degree.Keys == index.Keys
  {
    && NoRepeats(queue)
    && forall v :: v in queue <==> v in index && v !in listed && degree[v] == 0
  }

  ghost predicate KnownEnds<V(!new)>(edges: seq<(V, V)>, index: Index<V>) {
    forall e :: e in edges ==> e.0 in index && e.1 in index
  }

  lemma ByIndexIsPreorder<V(!new)>(index: Index<V>)
    ensures TotalPreorder(ByIndex(index))
  {
  }

  lemma {:induction false} TargetsKnown<V(!new)>(edges: seq<(V, V)>, u: V, v: V)
    ensures v in Targets(edges, u) <==> (u, v) in edges
  {
    if edges == [] {
    } else {
      TargetsKnown(edges[1..], u, v);
      assert forall e :: e in edges <==> e == edges[0] || e in edges[1..];
    }
  }

  /** A queued item is ready, and a ready item is queued. */
  lemma QueueIsReady<V(!new)>(edges: seq<(V, V)>, index: Index<V>, listed: set<V>,
                     degree: map<V, nat>, queue: seq<V>, v: V)
    requires Bookkeeping(edges, index, listed, degree, queue)
    ensures v in queue <==> Ready(Elements(edges), index.Keys, listed, v)
  {
    PendingZero(edges, v, listed);
  }

  /** Halfway through a turn, the degrees also count the edges of the current item still to be taken off. */
  ghost predicate Owes<V(!new)>(edges: seq<(V, V)>, index: Index<V>, listed: set<V>,
                       degree: map<V, nat>, queue: seq<V>, rest: seq<V>) {
    && degree.Keys == index.Keys
    && (forall v :: v in index ==> degree[v] == Pending(edges, v, listed) + multiset(rest)[v])
    && QueueHolds(index, listed, degree, queue)
  }

  lemma OwesAtStart<V(!new)>(edges: seq<(V, V)>, index: Index<V>, listed: set<V>, current: V,
                    neighbors: seq<V>, degree: map<V, nat>, queue: seq<V>)
    requires degree.Keys == index.Keys && current !in listed
    requires multiset(neighbors) == multiset(Targets(edges, current))
    requires forall v :: v in index ==> degree[v] == Pending(edges, v, listed)
    requires QueueHolds(index, listed + {current}, degree, queue)
    ensures Owes(edges, index, listed + {current}, degree, queue, neighbors)
  {
    forall v ensures Pending(edges, v, listed) == Pending(edges, v, listed + {current}) + multiset(neighbors)[v] {
      PendingAfter(edges, v, listed, current);
    }
  }

  lemma OwesOneLess<V(!new)>(edges: seq<(V, V)>, index: Index<V>, listed: set<V>,
                    degree: map<V, nat>, queue: seq<V>, n: V, rest: seq<V>)
    requires Owes(edges, index, listed, degree, queue, [n] + rest)
    requires n in index && n !in listed
    ensures degree[n] > 0
    ensures var degree' := degree[n := degree[n] - 1];
            Owes(edges, index, listed, degree', if degree[n] == 1 then queue + [n] else queue, rest)
  {
    assert multiset([n] + rest) == multiset{n} + multiset(rest);
    assert degree[n] > 0;
  }

  /** A target of the current item is an unlisted backlog id: listed items wait for nothing unlisted. */
  lemma NeighborIsOpen<V(!new)>(edges: seq<(V, V)>, index: Index<V>, listed: set<V>, current: V, n: V)
    requires KnownEnds(edges, index) && current !in listed
    requires forall v :: v in listed || v == current ==> Pending(edges, v, listed) == 0
    requires n in Targets(edges, current)
    ensures n in index && n !in listed + {current}
  {
    TargetsKnown(edges, current, n);
    assert (current, n) in edges;
    PendingZero(edges, n, listed);
  }

  lemma SplitAt<V(!new)>(s: seq<V>, j: nat)
    requires j < |s|
    ensures s[j..] == [s[j]] + s[j + 1..] && s[j] in multiset(s)
  {
  }

  /** One turn's inner loop: take `current`'s edges off their targets and queue what becomes free. */
  method Release<V(==, !new)>(ghost edges: seq<(V, V)>, index: Index<V>, ghost listed: set<V>, current: V,
                 neighbors: seq<V>, degree0: map<V, nat>, queue0: seq<V>)
    returns (degree: map<V, nat>, queue: seq<V>)
    requires degree0.Keys == index.Keys && KnownEnds(edges, index)
    requires multiset(neighbors) == multiset(Targets(edges, current))
    requires current !in listed
    requires forall v :: v in index ==> degree0[v] == Pending(edges, v, listed)
    requires forall v :: v in listed || v == current ==> Pending(edges, v, listed) == 0
    requires QueueHolds(index, listed + {current}, degree0, queue0)
    ensures Bookkeeping(edges, index, listed + {current}, degree, queue)
  {
    degree, queue := degree0, queue0;
    OwesAtStart(edges, index, listed, current, neighbors, degree, queue);
    assert neighbors[0..] == neighbors;
    for j := 0 to |neighbors|
      invariant Owes(edges, index, listed + {current}, degree, queue, neighbors[j..])
    {
      var n := neighbors[j];
      SplitAt(neighbors, j);
      assert n in multiset(Targets(edges, current));
      NeighborIsOpen(edges, index, listed, current, n);
      OwesOneLess(edges, index, listed + {current}, degree, queue, n, neighbors[j + 1..]);
      degree := degree[n := degree[n] - 1];
      if degree[n] == 0 {
        queue := queue + [n];
      }
    }
    assert neighbors[|neighbors|..] == [];
  }

  /** Taking the head of the ordered queue extends an admissible, first-picking order by one. */
  lemma PickedFirst<V(!new)>(edges: seq<(V, V)>, index: Index<V>, order: seq<V>,
                    degree: map<V, nat>, queue: seq<V>)
    requires Bookkeeping(edges, index, Elements(order), degree, queue)
    requires queue != [] && Ordered(queue, ByIndex(index))
    requires RunsInOrder(Elements(edges), index.Keys, order) && PicksFirst(Elements(edges), index, order)
    ensures RunsInOrder(Elements(edges), index.Keys, order + [queue[0]])
    ensures PicksFirst(Elements(edges), index, order + [queue[0]])
  {
    var es, next := Elements(edges), order + [queue[0]];
    forall k | 0 <= k < |next|
      ensures Ready(es, index.Keys, Elements(next[..k]), next[k])
      ensures forall v :: Ready(es, index.Keys, Elements(next[..k]), v) ==> Rank(index, next[k]) <= Rank(index, v)
    {
      if k < |order| {
        assert next[..k] == order[..k];
      } else {
        assert next[..k] == order;
        QueueIsReady(edges, index, Elements(order), degree, queue, queue[0]);
        forall v | Ready(es, index.Keys, Elements(order), v) ensures Rank(index, queue[0]) <= Rank(index, v) {
          QueueIsReady(edges, index, Elements(order), degree, queue, v);
          var i :| 0 <= i < |queue| && queue[i] == v;
          assert i > 0 ==> ByIndex(index)(queue[0], queue[i]);
        }
      }
    }
  }

  lemma ListedStayFree<V(!new)>(edges: seq<(V, V)>, index: Index<V>, order: seq<V>)
    requires RunsInOrder(Elements(edges), index.Keys, order)
    ensures forall v :: v in order ==> Pending(edges, v, Elements(order)) == 0
  {
    forall v | v in order ensures Pending(edges, v, Elements(order)) == 0 {
      var k :| 0 <= k < |order| && order[k] == v;
      assert Ready(Elements(edges), index.Keys, Elements(order[..k]), order[k]);
      PendingZero(edges, v, Elements(order));
    }
  }

  method ZeroDegree<V(==, !new)>(index: Index<V>, ids: seq<V>, inDegree: map<V, nat>) returns (queue: seq<V>)
    requires NoRepeats(ids) && Elements(ids) == index.Keys == inDegree.Keys
    ensures QueueHolds(index, {}, inDegree, queue)
  {
    queue := [];
    assert forall i :: 0 <= i < |ids| ==> ids[i] in Elements(ids);
    for i := 0 to |ids|
      invariant NoRepeats(queue)
      invariant forall v :: v in queue <==> v in ids[..i] && inDegree[v] == 0
    {
      if inDegree[ids[i]] == 0 {
        queue := queue + [ids[i]];
      }
    }
    assert ids[..|ids|] == ids;
    assert forall v :: v in Elements(ids) <==> v in ids;
  }

  /** What holds whenever the sort looks at its queue. */
  ghost predicate Sorting<V(!new)>(edges: seq<(V, V)>, index: Index<V>, order: seq<V>,
                                   degree: map<V, nat>, queue: seq<V>) {
    && Bookkeeping(edges, index, Elements(order), degree, queue)
    && Ordered(queue, ByIndex(index))
    && RunsInOrder(Elements(edges), index.Keys, order)
    && PicksFirst(Elements(edges), index, order)
  }

  lemma QueueTail<V(!new)>(index: Index<V>, listed: set<V>, degree: map<V, nat>, queue: seq<V>)
    requires degree.Keys == index.Keys && QueueHolds(index, listed, degree, queue) && queue != []
    ensures QueueHolds(index, listed + {queue[0]}, degree, queue[1..])
  {
    var rest := queue[1..];
    assert forall v :: v in queue <==> v == queue[0] || v in rest;
    assert queue[0] !in rest;
  }

  /** One turn of the sort: list the head of the queue, release its targets, sort the queue again. */
  method Turn<V(==, !new)>(ghost edges: seq<(V, V)>, index: Index<V>, adjacency: map<V, seq<V>>,
                           order0: seq<V>, degree0: map<V, nat>, queue0: seq<V>)
    returns (order: seq<V>, degree: map<V, nat>, queue: seq<V>)
    requires KnownEnds(edges, index) && adjacency.Keys == index.Keys
    requires forall u :: u in index ==> adjacency[u] == Targets(edges, u)
    requires Sorting(edges, index, order0, degree0, queue0) && queue0 != []
    ensures order == order0 + [queue0[0]] && queue0[0] in index && queue0[0] !in order0
    ensures Sorting(edges, index, order, degree, queue)
  {
    var current := queue0[0];
    ghost var listed := Elements(order0);
    PickedFirst(edges, index, order0, degree0, queue0);
    ListedStayFree(edges, index, order0);
    QueueTail(index, listed, degree0, queue0);
    order := order0 + [current];
    assert Elements(order) == listed + {current};
    ByIndexIsPreorder(index);
    SortFacts(adjacency[current], ByIndex(index));
    degree, queue := Release(edges, index, listed, current, Sort(adjacency[current], ByIndex(index)), degree0, queue0[1..]);
    SortFacts(queue, ByIndex(index));
    queue := Sort(queue, ByIndex(index));
  }

  method TopologicalSort<V(==, !new)>(ghost edges: seq<(V, V)>, index: Index<V>, ids: seq<V>,
                                      adjacency: map<V, seq<V>>, inDegree: map<V, nat>)
    returns (order: seq<V>, degree: map<V, nat>)
    requires Tallies(edges, index, adjacency, inDegree) && KnownEnds(edges, index)
    requires NoRepeats(ids) && Elements(ids) == index.Keys
    ensures GreedyOrder(Elements(edges), index, order)
    ensures degree.Keys == index.Keys
    ensures forall v :: v in index ==> (degree[v] > 0 <==> v !in order)
  {
    ByIndexIsPreorder(index);
    var queue := ZeroDegree(index, ids, inDegree);
    SortFacts(queue, ByIndex(index));
    queue := Sort(queue, ByIndex(index));
    degree := inDegree;
    order := [];
    assert Elements(order) == {};
    while queue != []
      invariant Sorting(edges, index, order, degree, queue)
      decreases index.Keys - Elements(order)
    {
      ghost var before := order;
      order, degree, queue := Turn(edges, index, adjacency, order, degree, queue);
      assert order[|before|] in Elements(order);
    }
    forall v ensures !Ready(Elements(edges), index.Keys, Elements(order), v) {
      QueueIsReady(edges, index, Elements(order), degree, queue, v);
    }
    ListedStayFree(edges, index, order);
  }

  /** Nodes left with a positive degree, in backlog order. */
  method LeftOver<V(==, !new)>(index: Index<V>, ids: seq<V>, degree: map<V, nat>) returns (left: seq<V>)
    requires NoRepeats(ids) && Elements(ids) == index.Keys == degree.Keys
    ensures NoRepeats(left) && Ordered(left, ByIndex(index))
    ensures forall v :: v in left <==> v in index && degree[v] > 0
  {
    left := [];
    assert forall i :: 0 <= i < |ids| ==> ids[i] in Elements(ids);
    for i := 0 to |ids|
      invariant NoRepeats(left)
      invariant forall v :: v in left <==> v in ids[..i] && degree[v] > 0
    {
      if degree[ids[i]] > 0 {
        left := left + [ids[i]];
      }
    }
    assert ids[..|ids|] == ids;
    assert forall v :: v in Elements(ids) <==> v in ids;
    ByIndexIsPreorder(index);
    SortFacts(left, ByIndex(index));
    left := Sort(left, ByIndex(index));
  }

  /** Reading the order off: what it leaves out, and whether it leaves anything out. */
  lemma Verdict<V(!new)>(es: Edges<V>, index: Index<V>, order: seq<V>)
    requires GreedyOrder(es, index, order)
    requires forall e :: e in es ==> e.0 in index && e.1 in index
    ensures |order| != |index| <==> !Acyclic(es)
    ensures forall v :: v in index && v !in order <==> v in index && BelowCycle(es, v)
    ensures |order| == |index| ==> forall v :: v in index ==> v in order
  {
    CycleIffUnlisted(es, index.Keys, order);
    forall v | v in index ensures v !in order <==> BelowCycle(es, v) {
      UnlistedExactlyBelowCycle(es, index.Keys, order, v);
    }
    RunsInOrderNoRepeats(es, index.Keys, order);
    NoRepeatsCardinality(order);
    SubsetCardinality(Elements(order), index.Keys);
    assert |order| == |index| ==> Elements(order) == index.Keys;
    assert forall v :: v in Elements(order) <==> v in order;
  }
}
