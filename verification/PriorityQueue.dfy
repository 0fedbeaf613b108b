/** `get_priority_queue`: the READY issues by base priority plus impact weight. */
module PriorityQueue {
  import opened Collections
  import opened Digraph
  import opened ImpactWeight

  /** A `priority` that is no number counts as 2.0. */
  datatype Priority = Number(value: real) | NotANumber

  /** An issue as the calculator reads it: stripped ids, and whether its status reads `ready`. */
  datatype Issue<V> = Issue(id: V, dependsOn: seq<V>, priority: Priority, ready: bool)

  /** `target` names `dep` among its dependencies, and neither id is blank. */
  ghost predicate DependsOn<V(!new)>(blank: V, issues: seq<Issue<V>>, dep: V, target: V) {
    dep != blank && target != blank && exists i :: 0 <= i < |issues| && issues[i].id == target && dep in issues[i].dependsOn
  }

  /** `adj` records exactly the dependencies, and has no empty entries. */
  ghost predicate Records<V(!new)>(blank: V, issues: seq<Issue<V>>, adj: Blocking<V>) {
    && (forall dep, target :: target in Kids(adj, dep) <==> DependsOn(blank, issues, dep, target))
    && (forall dep :: dep in adj ==> adj[dep] != {})
  }

  method BuildDependencyGraph<V(==, !new)>(blank: V, issues: seq<Issue<V>>) returns (adj: Blocking<V>)
    ensures Records(blank, issues, adj)
  {
    adj := map[];
    for i := 0 to |issues|
      invariant Records(blank, issues[..i], adj)
    {
      adj := AddIssue(blank, issues[i], adj);
      assert issues[..i + 1] == issues[..i] + [issues[i]];
    }
    assert issues[..|issues|] == issues;
  }

  method AddIssue<V(==, !new)>(blank: V, issue: Issue<V>, adj0: Blocking<V>) returns (adj: Blocking<V>)
    requires forall dep :: dep in adj0 ==> adj0[dep] != {}
    ensures forall dep, target :: target in Kids(adj, dep) <==>
              || target in Kids(adj0, dep)
              || (dep != blank && target != blank && issue.id == target && dep in issue.dependsOn)
    ensures forall dep :: dep in adj ==> adj[dep] != {}
  {
    adj := adj0;
    for j := 0 to |issue.dependsOn|
      invariant forall dep, target :: target in Kids(adj, dep) <==>
                  || target in Kids(adj0, dep)
                  || (dep != blank && target != blank && issue.id == target && dep in issue.dependsOn[..j])
      invariant forall dep :: dep in adj ==> adj[dep] != {}
    {
      var dep := issue.dependsOn[j];
      ghost var before := adj;
      if dep != blank && issue.id != blank {
        if dep !in adj {
          adj := adj[dep := {}];
        }
        adj := adj[dep := adj[dep] + {issue.id}];
        assert forall d :: Kids(adj, d) == if d == dep then Kids(before, d) + {issue.id} else Kids(before, d);
      }
      assert forall d :: d in issue.dependsOn[..j + 1] <==> d in issue.dependsOn[..j] || d == dep;
    }
    assert issue.dependsOn[..|issue.dependsOn|] == issue.dependsOn;
  }

  function Base<V>(issue: Issue<V>): (r: real) {
    if issue.priority.Number? then issue.priority.value else 2.0
  }

  /** Base priority plus the number of simple paths of blocked work below the issue. */
  ghost function Score<V(!new)>(adj: Blocking<V>, issue: Issue<V>): (r: real) {
    Base(issue) + |Paths(adj, issue.id, {})| as real
  }

  /** `ps` is the set of simple paths of blocked work below `v`. */
  ghost predicate AllPaths<V(!new)>(adj: Blocking<V>, v: V, ps: set<seq<V>>) {
    forall p :: p in ps <==> SimplePath(adj, v, {}, p)
  }

  lemma PathsAreAll<V(!new)>(adj: Blocking<V>, v: V)
    ensures AllPaths(adj, v, Paths(adj, v, {}))
  {
    forall p ensures p in Paths(adj, v, {}) <==> SimplePath(adj, v, {}, p) {
      PathsMeaning(adj, v, {}, p);
    }
  }

  /** The score is the priority, 2.0 where that is no number, plus the number of simple paths. */
  lemma ScoreMeaning<V(!new)>(adj: Blocking<V>, issue: Issue<V>, ps: set<seq<V>>)
    requires AllPaths(adj, issue.id, ps)
    ensures issue.priority.Number? ==> Score(adj, issue) == issue.priority.value + |ps| as real
    ensures issue.priority.NotANumber? ==> Score(adj, issue) == 2.0 + |ps| as real
  {
    PathsAreAll(adj, issue.id);
    assert ps == Paths(adj, issue.id, {});
  }

  /** Along the queue, priority plus number of simple paths never rises. */
  ghost predicate Descends<V(!new)>(adj: Blocking<V>, queue: seq<Issue<V>>) {
    forall i, j, ps, qs :: 0 <= i < j < |queue| && AllPaths(adj, queue[i].id, ps) && AllPaths(adj, queue[j].id, qs) ==>
      (match queue[i].priority case Number(x) => x case NotANumber => 2.0) + |ps| as real
        >= (match queue[j].priority case Number(y) => y case NotANumber => 2.0) + |qs| as real
  }

  lemma QueueDescends<V(!new)>(adj: Blocking<V>, ready: seq<Issue<V>>, arranged: seq<Issue<V>>)
    requires StableArrangement(ready, arranged, HigherFirst(adj))
    ensures Descends(adj, arranged)
  {
    forall i, j, ps, qs | 0 <= i < j < |arranged| && AllPaths(adj, arranged[i].id, ps) && AllPaths(adj, arranged[j].id, qs)
      ensures (match arranged[i].priority case Number(x) => x case NotANumber => 2.0) + |ps| as real
           >= (match arranged[j].priority case Number(y) => y case NotANumber => 2.0) + |qs| as real
    {
      ScoreMeaning(adj, arranged[i], ps);
      ScoreMeaning(adj, arranged[j], qs);
      assert HigherFirst(adj)(arranged[i], arranged[j]);
    }
  }

  ghost function HigherFirst<V(!new)>(adj: Blocking<V>): (le: (Issue<V>, Issue<V>) -> bool) {
    (a: Issue<V>, b: Issue<V>) => Score(adj, a) >= Score(adj, b)
  }

  function ReadyOnes<V>(issues: seq<Issue<V>>): (r: seq<Issue<V>>) {
    if issues == [] then []
    else ReadyOnes(issues[..|issues| - 1]) + (if issues[|issues| - 1].ready then [issues[|issues| - 1]] else [])
  }

  /** The candidates are exactly the issues that are ready, in list order. */
  lemma ReadyMeaning<V>(issues: seq<Issue<V>>) returns (keep: seq<bool>, at: seq<nat>)
    ensures |keep| == |issues| && forall i :: 0 <= i < |issues| ==> keep[i] == issues[i].ready
    ensures Picks(ReadyOnes(issues), issues, keep, at)
  {
    var n := |issues|;
    keep := seq(n, i requires 0 <= i < n => issues[i].ready);
    var steps := seq(n + 1, i requires 0 <= i <= n => ReadyOnes(issues[..i]));
    forall i | 0 <= i < n ensures steps[i + 1] == steps[i] + (if keep[i] then [issues[i]] else []) {
      assert issues[..i + 1][..i] == issues[..i];
    }
    at := GrownPicks(steps, issues, keep);
    assert issues[..n] == issues;
  }

  function Ids<V>(issues: seq<Issue<V>>): (r: seq<V>)
    ensures |r| == |issues| && forall i :: 0 <= i < |issues| ==> r[i] == issues[i].id
  {
    seq(|issues|, i requires 0 <= i < |issues| => issues[i].id)
  }

  /** The score as the sort key computes it, from the table of weights. */
  function KeyScore<V(==)>(weights: map<V, nat>, issue: Issue<V>): (r: real) {
    Base(issue) + (if issue.id in weights then weights[issue.id] else 0) as real
  }

  function ByKey<V(==)>(weights: map<V, nat>): (le: (Issue<V>, Issue<V>) -> bool) {
    (a: Issue<V>, b: Issue<V>) => KeyScore(weights, a) >= KeyScore(weights, b)
  }

  method Weigh<V(==, !new)>(issues: seq<Issue<V>>, adj: Blocking<V>) returns (weights: map<V, nat>)
    ensures forall i :: 0 <= i < |issues| ==> issues[i].id in weights
    ensures forall v :: v in weights ==> weights[v] == |Paths(adj, v, {})|
  {
    weights := map[];
    for i := 0 to |issues|
      invariant forall k :: 0 <= k < i ==> issues[k].id in weights
      invariant forall v :: v in weights ==> weights[v] == |Paths(adj, v, {})|
    {
      var w := CalculateWeight(issues[i].id, adj, {});
      weights := weights[issues[i].id := w];
    }
  }

  /**
   The queue names the READY issues, each as often as it stands in the list, by score from
   high to low, ties in list order.
   */
  method GetPriorityQueue<V(==, !new)>(blank: V, issues: seq<Issue<V>>)
    returns (queue: seq<V>, ghost adj: Blocking<V>, arranged: seq<Issue<V>>)
    ensures Records(blank, issues, adj)
    ensures StableArrangement(ReadyOnes(issues), arranged, HigherFirst(adj)) && Descends(adj, arranged)
    ensures |queue| == |arranged| && forall i :: 0 <= i < |queue| ==> queue[i] == arranged[i].id
  {
    var graph := BuildDependencyGraph(blank, issues);
    adj := graph;
    var weights := Weigh(issues, graph);
    var ready := [];
    for i := 0 to |issues|
      invariant ready == ReadyOnes(issues[..i])
      invariant forall x :: x in ready ==> x in issues
    {
      assert issues[..i + 1][..i] == issues[..i];
      if issues[i].ready {
        ready := ready + [issues[i]];
      }
    }
    assert issues[..|issues|] == issues;
    arranged := Sort(ready, ByKey(weights));
    SortIsStable(ready, ByKey(weights));
    SameKeys(weights, adj, ready, arranged);
    QueueDescends(adj, ready, arranged);
    queue := Ids(arranged);
  }

  lemma {:induction false} TiedAgree<T(!new)>(s: seq<T>, z: T, le: (T, T) -> bool, le': (T, T) -> bool)
    requires forall x :: x in s ==> le(x, z) == le'(x, z) && le(z, x) == le'(z, x)
    ensures Tied(s, z, le) == Tied(s, z, le')
  {
    if s != [] {
      assert s[0] in s;
      TiedAgree(s[1..], z, le, le');
    }
  }

  /** The table's keys are the scores, on the issues at hand. */
  lemma SameKeys<V(!new)>(weights: map<V, nat>, adj: Blocking<V>, ready: seq<Issue<V>>, arranged: seq<Issue<V>>)
    requires forall x :: x in ready ==> x.id in weights
    requires forall v :: v in weights ==> weights[v] == |Paths(adj, v, {})|
    requires StableArrangement(ready, arranged, ByKey(weights))
    ensures StableArrangement(ready, arranged, HigherFirst(adj))
  {
    forall x | x in arranged ensures x in ready {
      assert x in multiset(arranged);
    }
    forall i, j | 0 <= i < j < |arranged| ensures HigherFirst(adj)(arranged[i], arranged[j]) {
      assert ByKey(weights)(arranged[i], arranged[j]);
      assert arranged[i] in ready && arranged[j] in ready;
    }
    forall z | z in ready ensures Tied(arranged, z, HigherFirst(adj)) == Tied(ready, z, HigherFirst(adj)) {
      TiedAgree(ready, z, ByKey(weights), HigherFirst(adj));
      TiedAgree(arranged, z, ByKey(weights), HigherFirst(adj));
    }
  }

  /** On an acyclic graph a READY prerequisite is queued before a READY dependent of less than one more base priority. */
  lemma PrerequisiteFirst<V(!new)>(
    blank: V, issues: seq<Issue<V>>, adj: Blocking<V>, arranged: seq<Issue<V>>, i: nat, j: nat)
    requires Records(blank, issues, adj) && Acyclic(BlockEdges(adj))
    requires StableArrangement(ReadyOnes(issues), arranged, HigherFirst(adj))
    requires i < |arranged| && j < |arranged|
    requires DependsOn(blank, issues, arranged[i].id, arranged[j].id)
    requires (match arranged[i].priority case Number(x) => x case NotANumber => 2.0) + 1.0
               > (match arranged[j].priority case Number(y) => y case NotANumber => 2.0)
    ensures i < j
  {
    PrerequisiteOutweighs(adj, arranged[i].id, arranged[j].id);
    assert Score(adj, arranged[i]) > Score(adj, arranged[j]);
  }

  // ----- The promise holds exactly on acyclic graphs -----

  /** A queue over the graph in which a dependent of less than one more base priority is not behind its prerequisite. */
  ghost predicate BreaksPromise<V(!new)>(
    blank: V, adj: Blocking<V>, issues: seq<Issue<V>>, arranged: seq<Issue<V>>, i: nat, j: nat) {
    && Records(blank, issues, adj)
    && StableArrangement(ReadyOnes(issues), arranged, HigherFirst(adj))
    && i < |arranged| && j < |arranged| && i != j
    && DependsOn(blank, issues, arranged[i].id, arranged[j].id)
    && (match arranged[i].priority case Number(x) => x case NotANumber => 2.0) + 1.0
               > (match arranged[j].priority case Number(y) => y case NotANumber => 2.0)
    && j < i
  }

  /** The same issues, none of them ready. */
  function Held<V>(issues: seq<Issue<V>>): (r: seq<Issue<V>>)
    ensures |r| == |issues| && forall i :: 0 <= i < |issues| ==> r[i] == issues[i].(ready := false)
  {
    seq(|issues|, i requires 0 <= i < |issues| => issues[i].(ready := false))
  }

  lemma {:induction false} NoneReady<V(!new)>(issues: seq<Issue<V>>)
    requires forall i :: 0 <= i < |issues| ==> !issues[i].ready
    ensures ReadyOnes(issues) == []
    decreases |issues|
  {
    if issues != [] { NoneReady(issues[..|issues| - 1]); }
  }

  lemma ReadyAppend<V(!new)>(issues: seq<Issue<V>>, x: Issue<V>)
    ensures ReadyOnes(issues + [x]) == ReadyOnes(issues) + (if x.ready then [x] else [])
  {
    assert (issues + [x])[..|issues|] == issues;
  }

  lemma OnlyTheTwo<V(!new)>(issues: seq<Issue<V>>, pre: Issue<V>, dep: Issue<V>)
    requires pre.ready && dep.ready
    ensures ReadyOnes(Held(issues) + [pre, dep]) == [pre, dep]
  {
    NoneReady(Held(issues));
    ReadyAppend(Held(issues), pre);
    ReadyAppend(Held(issues) + [pre], dep);
    assert Held(issues) + [pre, dep] == Held(issues) + [pre] + [dep];
  }

  /** Ready copies of an edge's two ends change nothing in the graph. */
  lemma SameGraph<V(!new)>(blank: V, issues: seq<Issue<V>>, adj: Blocking<V>, pre: Issue<V>, dep: Issue<V>)
    requires Records(blank, issues, adj) && dep.id in Kids(adj, pre.id)
    requires pre.dependsOn == [] && dep.dependsOn == [pre.id]
    ensures Records(blank, Held(issues) + [pre, dep], adj)
  {
    var more := Held(issues) + [pre, dep];
    var n := |issues|;
    forall d, t ensures DependsOn(blank, issues, d, t) <==> DependsOn(blank, more, d, t) {
      if DependsOn(blank, issues, d, t) {
        var i :| 0 <= i < n && issues[i].id == t && d in issues[i].dependsOn;
        assert more[i].id == t && d in more[i].dependsOn;
      }
      if DependsOn(blank, more, d, t) {
        var i :| 0 <= i < |more| && more[i].id == t && d in more[i].dependsOn;
        if i < n {
          assert issues[i].id == t && d in issues[i].dependsOn;
        } else {
          assert d == pre.id && t == dep.id;
          assert DependsOn(blank, issues, pre.id, dep.id);
        }
      }
    }
  }

  /** Two ready issues, the second with the higher score, can only be queued the second first. */
  lemma HigherOfTwoFirst<V(!new)>(adj: Blocking<V>, pre: Issue<V>, dep: Issue<V>, arranged: seq<Issue<V>>)
    requires Score(adj, dep) > Score(adj, pre)
    requires StableArrangement([pre, dep], arranged, HigherFirst(adj))
    ensures arranged == [dep, pre]
  {
    assert multiset(arranged) == multiset{pre, dep};
    assert |arranged| == |multiset(arranged)| == 2;
    assert arranged == [arranged[0], arranged[1]];
    assert arranged[0] in multiset(arranged) && arranged[1] in multiset(arranged);
    assert HigherFirst(adj)(arranged[0], arranged[1]);
    assert pre != dep && multiset(arranged)[arranged[0]] == 1;
  }

  /** On every cyclic graph some priorities put a dependent in front of its prerequisite. */
  lemma CycleBreaksPrecedence<V(!new)>(blank: V, issues: seq<Issue<V>>, adj: Blocking<V>)
    returns (example: seq<Issue<V>>, arranged: seq<Issue<V>>)
    requires Records(blank, issues, adj) && !Acyclic(BlockEdges(adj))
    ensures BreaksPromise(blank, adj, example, arranged, 1, 0)
  {
    WeightsDescendIffAcyclic(adj);
    var u, c :| (u, c) in BlockEdges(adj) && !Heavier(adj, u, c);
    KidsAreBlocked(adj, u);
    var pre, dep := Issue(u, [], Number(2.0), true), Issue(c, [u], Number(2.5), true);
    example := Held(issues) + [pre, dep];
    SameGraph(blank, issues, adj, pre, dep);
    OnlyTheTwo(issues, pre, dep);
    arranged := Sort([pre, dep], HigherFirst(adj));
    SortIsStable([pre, dep], HigherFirst(adj));
    HigherOfTwoFirst(adj, pre, dep, arranged);
    assert DependsOn(blank, example, u, c) by {
      assert c in Kids(adj, u);
    }
  }

  /** The promise that a prerequisite goes first holds of every queue over a graph exactly when the graph is acyclic. */
  lemma PrecedenceHoldsIffAcyclic<V(!new)>(blank: V, issues: seq<Issue<V>>, adj: Blocking<V>)
    requires Records(blank, issues, adj)
    ensures (forall some, arranged, i, j :: !BreaksPromise(blank, adj, some, arranged, i, j)) <==> Acyclic(BlockEdges(adj))
  {
    if Acyclic(BlockEdges(adj)) {
      forall some, arranged, i, j ensures !BreaksPromise(blank, adj, some, arranged, i, j) {
        if BreaksPromise(blank, adj, some, arranged, i, j) {
          PrerequisiteFirst(blank, some, adj, arranged, i, j);
        }
      }
    } else {
      var example, arranged := CycleBreaksPrecedence(blank, issues, adj);
    }
  }
}
