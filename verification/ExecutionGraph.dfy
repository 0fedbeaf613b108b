/**
 `_build_execution_graph`: which backlog items wait for which, the order in which
 they can run, and the items that never can because of a dependency cycle.
 */
module ExecutionGraph {
  import opened Collections
  import opened Digraph
  import opened KahnSort
  import opened PyText

  /**
   A backlog item as the builder reads it: its id and the ids it depends on. Nothing but
   equality of ids matters to the graph, so they are of any type; `blank` is the one that
   stands for a missing id.
   */
  datatype Item<V> = Item(id: V, dependsOn: seq<V>)

  datatype Report<V> = Report(executionOrder: seq<V>, hasCycle: bool, cycleNodes: seq<V>)

  // ----- What the graph is -----

  /** `index` gives every id but the blank one the position of the first item that carries it. */
  ghost predicate FirstIndex<V(!new)>(blank: V, items: seq<Item<V>>, index: Index<V>) {
    && (forall v :: v in index ==> v != blank && index[v] < |items| && items[index[v]].id == v)
    && (forall i :: 0 <= i < |items| && items[i].id != blank ==>
          items[i].id in index && index[items[i].id] <= i)
  }

  /** `target` waits for `dep`: an item with that id names it in its `depends_on`, and both are backlog ids. */
  ghost predicate Waits<V(!new)>(blank: V, items: seq<Item<V>>, dep: V, target: V) {
    && dep != blank && target != blank
    && (exists i :: 0 <= i < |items| && items[i].id == dep)
    && exists i, j :: 0 <= i < |items| && 0 <= j < |items[i].dependsOn|
                   && items[i].id == target && items[i].dependsOn[j] == dep
  }

  /** The edge, if any, that the `k`-th dependency of an item stands for. */
  function EdgeAt<V(==, !new)>(item: Item<V>, k: nat, index: Index<V>): (r: seq<(V, V)>)
    requires k < |item.dependsOn|
  {
    var dep, target := item.dependsOn[k], item.id;
    if target in index && dep in index then [(dep, target)] else []
  }

  /** The edges of the first `k` dependencies of an item; repeats are kept. */
  function ItemEdges<V(==, !new)>(item: Item<V>, k: nat, index: Index<V>): (r: seq<(V, V)>)
    requires k <= |item.dependsOn|
  {
    if k == 0 then [] else ItemEdges(item, k - 1, index) + EdgeAt(item, k - 1, index)
  }

  /** The edges of the first `i` items. */
  function BacklogEdges<V(==, !new)>(items: seq<Item<V>>, i: nat, index: Index<V>): (r: seq<(V, V)>)
    requires i <= |items|
  {
    if i == 0 then []
    else BacklogEdges(items, i - 1, index) + ItemEdges(items[i - 1], |items[i - 1].dependsOn|, index)
  }

  ghost predicate GivesEdge<V(!new)>(item: Item<V>, k: nat, index: Index<V>, e: (V, V))
    requires k < |item.dependsOn|
  {
    e.0 in index && e.1 in index && item.id == e.1 && item.dependsOn[k] == e.0
  }

  ghost predicate ItemGives<V(!new)>(item: Item<V>, index: Index<V>, e: (V, V)) {
    exists j :: 0 <= j < |item.dependsOn| && GivesEdge(item, j, index, e)
  }

  lemma {:induction false} ItemEdgesMeaning<V(!new)>(item: Item<V>, k: nat, index: Index<V>, e: (V, V))
    requires k <= |item.dependsOn|
    ensures e in ItemEdges(item, k, index) <==> exists j :: 0 <= j < k && GivesEdge(item, j, index, e)
  {
    if k > 0 {
      ItemEdgesMeaning(item, k - 1, index, e);
      assert e in ItemEdges(item, k, index) <==>
             e in ItemEdges(item, k - 1, index) || GivesEdge(item, k - 1, index, e);
    }
  }

  lemma {:induction false} BacklogEdgesMeaning<V(!new)>(items: seq<Item<V>>, i: nat, index: Index<V>, e: (V, V))
    requires i <= |items|
    ensures e in BacklogEdges(items, i, index) <==> exists n :: 0 <= n < i && ItemGives(items[n], index, e)
  {
    if i > 0 {
      BacklogEdgesMeaning(items, i - 1, index, e);
      var last := items[i - 1];
      assert e in ItemEdges(last, |last.dependsOn|, index) <==> ItemGives(last, index, e) by {
        ItemEdgesMeaning(last, |last.dependsOn|, index, e);
      }
      assert e in BacklogEdges(items, i, index) <==> e in BacklogEdges(items, i - 1, index) || ItemGives(last, index, e);
    }
  }

  /** The edge list holds exactly the waits between backlog ids. */
  lemma EdgesMeaning<V(!new)>(blank: V, items: seq<Item<V>>, index: Index<V>, e: (V, V))
    requires FirstIndex(blank, items, index)
    ensures e in BacklogEdges(items, |items|, index) <==> Waits(blank, items, e.0, e.1)
  {
    BacklogEdgesMeaning(items, |items|, index, e);
    if Waits(blank, items, e.0, e.1) {
      var n, j :| 0 <= n < |items| && 0 <= j < |items[n].dependsOn|
               && items[n].id == e.1 && items[n].dependsOn[j] == e.0;
      assert GivesEdge(items[n], j, index, e);
      assert ItemGives(items[n], index, e);
    }
  }

  // ----- The builder -----

  method IndexItems<V(==, !new)>(blank: V, items: seq<Item<V>>) returns (index: Index<V>, ids: seq<V>)
    ensures FirstIndex(blank, items, index) && Injective(index)
    ensures NoRepeats(ids) && Elements(ids) == index.Keys
  {
    index, ids := map[], [];
    for i := 0 to |items|
      invariant forall v :: v in index ==> v != blank && index[v] < i && items[index[v]].id == v
      invariant forall k :: 0 <= k < i && items[k].id != blank ==>
                  items[k].id in index && index[items[k].id] <= k
      invariant NoRepeats(ids) && forall v :: v in ids <==> v in index
    {
      var id := items[i].id;
      if id != blank && id !in index {
        index := index[id := i];
        ids := ids + [id];
      }
    }
  }

  method BuildEdges<V(==, !new)>(items: seq<Item<V>>, index: Index<V>)
    returns (adjacency: map<V, seq<V>>, inDegree: map<V, nat>)
    ensures Tallies(BacklogEdges(items, |items|, index), index, adjacency, inDegree)
  {
    adjacency := map v | v in index :: [];
    inDegree := map v | v in index :: 0;
    for i := 0 to |items|
      invariant Tallies(BacklogEdges(items, i, index), index, adjacency, inDegree)
    {
      adjacency, inDegree := AddItem(items[i], index, BacklogEdges(items, i, index), adjacency, inDegree);
    }
  }

  method AddItem<V(==, !new)>(item: Item<V>, index: Index<V>, ghost before: seq<(V, V)>,
                              adjacency0: map<V, seq<V>>, inDegree0: map<V, nat>)
    returns (adjacency: map<V, seq<V>>, inDegree: map<V, nat>)
    requires Tallies(before, index, adjacency0, inDegree0)
    ensures Tallies(before + ItemEdges(item, |item.dependsOn|, index), index, adjacency, inDegree)
  {
    if item.id !in index {
      NoEdges(item, |item.dependsOn|, index);
      assert before + [] == before;
      adjacency, inDegree := adjacency0, inDegree0;
    } else {
      adjacency, inDegree := AddDependencies(item, index, before, adjacency0, inDegree0);
    }
  }

  method AddDependencies<V(==, !new)>(item: Item<V>, index: Index<V>, ghost before: seq<(V, V)>,
                                      adjacency0: map<V, seq<V>>, inDegree0: map<V, nat>)
    returns (adjacency: map<V, seq<V>>, inDegree: map<V, nat>)
    requires Tallies(before, index, adjacency0, inDegree0) && item.id in index
    ensures Tallies(before + ItemEdges(item, |item.dependsOn|, index), index, adjacency, inDegree)
  {
    adjacency, inDegree := adjacency0, inDegree0;
    ghost var edges := before;
    for j := 0 to |item.dependsOn|
      invariant edges == before + ItemEdges(item, j, index)
      invariant Tallies(edges, index, adjacency, inDegree)
    {
      adjacency, inDegree := AddDependency(item, j, index, edges, adjacency, inDegree);
      OneMore(before, item, j, index);
      edges := edges + EdgeAt(item, j, index);
    }
  }

  method AddDependency<V(==, !new)>(item: Item<V>, j: nat, index: Index<V>, ghost before: seq<(V, V)>,
                                    adjacency0: map<V, seq<V>>, inDegree0: map<V, nat>)
    returns (adjacency: map<V, seq<V>>, inDegree: map<V, nat>)
    requires Tallies(before, index, adjacency0, inDegree0) && item.id in index && j < |item.dependsOn|
    ensures Tallies(before + EdgeAt(item, j, index), index, adjacency, inDegree)
  {
    var dep := item.dependsOn[j];
    if dep in index {
      adjacency, inDegree := AddEdge(before, dep, item.id, index, adjacency0, inDegree0);
    } else {
      assert before + [] == before;
      adjacency, inDegree := adjacency0, inDegree0;
    }
  }

  lemma OneMore<V(!new)>(before: seq<(V, V)>, item: Item<V>, j: nat, index: Index<V>)
    requires j < |item.dependsOn|
    ensures before + ItemEdges(item, j + 1, index) == (before + ItemEdges(item, j, index)) + EdgeAt(item, j, index)
  {
  }

  lemma {:induction false} NoEdges<V(!new)>(item: Item<V>, k: nat, index: Index<V>)
    requires k <= |item.dependsOn| && item.id !in index
    ensures ItemEdges(item, k, index) == []
  {
    if k > 0 { NoEdges(item, k - 1, index); }
  }

  /**
   The whole report. `es` is the set of waits between backlog ids; the order is the
   greedy one; a cycle is reported exactly when there is one; and the reported nodes are
   exactly those on a cycle or below one, each once, in backlog order.
   */
  method BuildExecutionGraph<V(==, !new)>(blank: V, items: seq<Item<V>>)
    returns (r: Report<V>, index: Index<V>, ghost es: Edges<V>)
    ensures FirstIndex(blank, items, index) && Injective(index)
    ensures forall e :: e in es <==> Waits(blank, items, e.0, e.1)
    ensures GreedyOrder(es, index, r.executionOrder)
    ensures r.hasCycle <==> !Acyclic(es)
    ensures NoRepeats(r.cycleNodes) && Ordered(r.cycleNodes, ByIndex(index))
    ensures forall v :: v in r.cycleNodes <==> v in index && BelowCycle(es, v)
  {
    var ids;
    index, ids := IndexItems(blank, items);
    var adjacency, inDegree := BuildEdges(items, index);
    ghost var edges := BacklogEdges(items, |items|, index);
    es := Elements(edges);
    forall e ensures e in es <==> Waits(blank, items, e.0, e.1) {
      EdgesMeaning(blank, items, index, e);
    }
    assert KnownEnds(edges, index) by {
      forall e | e in edges ensures e.0 in index && e.1 in index {
        assert e in es;
      }
    }
    var order, degree := TopologicalSort(edges, index, ids, adjacency, inDegree);
    var hasCycle := |order| != |index|;
    var left := [];
    if hasCycle {
      left := LeftOver(index, ids, degree);
    }
    r := Report(order, hasCycle, left);
    Verdict(es, index, order);
  }

  // ----- Reading the backlog's texts -----

  /** Every reader of an item strips the texts it finds; a missing text reads as the empty one. */
  function StripAll(texts: seq<string>): (r: seq<string>)
    ensures |r| == |texts| && forall i :: 0 <= i < |texts| ==> r[i] == Strip(texts[i])
  {
    seq(|texts|, i requires 0 <= i < |texts| => Strip(texts[i]))
  }

  function ReadBacklog(raw: seq<Item<string>>): (items: seq<Item<string>>)
    ensures |items| == |raw|
    ensures forall i :: 0 <= i < |raw| ==> items[i] == Item(Strip(raw[i].id), StripAll(raw[i].dependsOn))
  {
    seq(|raw|, i requires 0 <= i < |raw| => Item(Strip(raw[i].id), StripAll(raw[i].dependsOn)))
  }

  /** Stripping once is enough: a backlog that has been read reads as itself. */
  lemma SpacingIsIrrelevant(raw: seq<Item<string>>)
    ensures ReadBacklog(ReadBacklog(raw)) == ReadBacklog(raw)
  {
    var once := ReadBacklog(raw);
    var twice := ReadBacklog(once);
    forall i | 0 <= i < |raw| ensures twice[i] == once[i] {
      StripSettles(raw[i].id);
      forall j | 0 <= j < |raw[i].dependsOn| ensures Strip(once[i].dependsOn[j]) == once[i].dependsOn[j] {
        StripSettles(raw[i].dependsOn[j]);
      }
      assert twice[i].dependsOn == once[i].dependsOn;
    }
  }

  /** The report over a backlog of texts. */
  method BuildFromTexts(raw: seq<Item<string>>)
    returns (r: Report<string>, index: Index<string>, ghost es: Edges<string>)
    ensures FirstIndex("", ReadBacklog(raw), index) && Injective(index)
    ensures forall e :: e in es <==> Waits("", ReadBacklog(raw), e.0, e.1)
    ensures GreedyOrder(es, index, r.executionOrder)
    ensures r.hasCycle <==> !Acyclic(es)
    ensures NoRepeats(r.cycleNodes) && Ordered(r.cycleNodes, ByIndex(index))
    ensures forall v :: v in r.cycleNodes <==> v in index && BelowCycle(es, v)
  {
    r, index, es := BuildExecutionGraph("", ReadBacklog(raw));
  }
}
