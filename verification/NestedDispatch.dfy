/** Controllers that dispatch controllers: how deep and how wide a tree of nested dispatches can get. */
module NestedDispatch {
  import opened Collections
  import opened ControllerContract
  import opened Dispatcher

  /** A dispatch together with what the children it started went on to dispatch. */
  datatype Tree = Tree(env: Envelope, answers: seq<Answer>, summary: RunSummary, launched: seq<ChildInput>, k: nat,
                       below: seq<Below>)

  /** A started child either dispatches nothing, or is a controller itself. */
  datatype Below = Plain | Controller(tree: Tree)

  /** The envelopes that parse: a controller id, at least one child, and every child with a target. */
  predicate Parses(env: Envelope) {
    env.controller.text != "" && env.children != [] && forall i :: 0 <= i < |env.children| ==> env.children[i].target.text != ""
  }

  /** The id a nested controller declares: the one its payload names, unless that is blank, else its workload's own. */
  function Declared(target: WorkloadId, named: Option<WorkloadId>): (id: WorkloadId) {
    if named.Some? && named.value.text != "" then named.value else target
  }

  /** A nested controller's envelope carries the id it declares, and the depth and ancestry it was started with. */
  ghost predicate Inherits(env: Envelope, input: ChildInput) {
    && env.controller == Declared(input.target, input.named)
    && env.parentDepth == input.depth && env.ancestry == input.ancestry
  }

  /** Every node is a dispatch under the same policy, and nested controllers are built from what they were started with. */
  ghost predicate WellNested(policy: Caps, order: seq<ErrorCode>, t: Tree)
    decreases t
  {
    && Parses(t.env) && |t.answers| == |t.env.children|
    && Dispatched(policy, order, t.env, t.answers, t.summary, t.launched, t.k)
    && |t.below| == |t.launched|
    && forall i :: 0 <= i < |t.below| && t.below[i].Controller? ==>
         Inherits(t.below[i].tree.env, t.launched[i]) && WellNested(policy, order, t.below[i].tree)
  }

  /** Where a nested controller's payload names a depth, that exceeds its dispatcher's, as an inherited one would. */
  ghost predicate DepthsDescend(t: Tree)
    decreases t
  {
    forall i :: 0 <= i < |t.below| && i < |t.env.children| && t.below[i].Controller? ==>
      && (t.env.children[i].payloadDepth.Some? ==> t.env.children[i].payloadDepth.value >= t.env.parentDepth + 1)
      && DepthsDescend(t.below[i].tree)
  }

  /** Where a nested controller was started with an ancestry its payload named, that names each workload once. */
  ghost predicate NamedAncestriesDistinct(t: Tree)
    decreases t
  {
    forall i :: 0 <= i < |t.below| && i < |t.env.children| && t.below[i].Controller? ==>
      && (t.env.children[i].payloadAncestry.Some? ==> NoRepeats(t.env.children[i].payloadAncestry.value))
      && NamedAncestriesDistinct(t.below[i].tree)
  }

  /** No nested controller's payload names an ancestry of its own. */
  ghost predicate AncestriesInherited(t: Tree)
    decreases t
  {
    forall i :: 0 <= i < |t.below| && i < |t.env.children| && t.below[i].Controller? ==>
      t.env.children[i].payloadAncestry == None && AncestriesInherited(t.below[i].tree)
  }

  /** Every nested controller declares the id of the workload it is. */
  ghost predicate IdsKept(t: Tree)
    decreases t
  {
    forall i :: 0 <= i < |t.below| && i < |t.env.children| && t.below[i].Controller? ==>
      && Declared(t.env.children[i].target, t.env.children[i].payloadController) == t.env.children[i].target
      && IdsKept(t.below[i].tree)
  }

  function MaxDepth(policy: Caps): (d: nat) {
    OrDefault(policy.maxDepth, DEFAULT_MAX_DEPTH)
  }

  function MaxFanout(policy: Caps): (f: nat) {
    OrDefault(policy.maxFanout, DEFAULT_MAX_FANOUT)
  }

  /** Past the gates: one more level is allowed, the children fit the fanout, and the controller is new to its ancestry. */
  lemma StartingNeedsTheGates(policy: Caps, order: seq<ErrorCode>, t: Tree)
    requires WellNested(policy, order, t) && t.launched != []
    ensures t.env.parentDepth + 1 <= MaxDepth(policy)
    ensures |t.launched| <= MaxFanout(policy) && |t.launched| <= |t.env.children|
    ensures t.env.controller !in t.env.ancestry
    ensures forall i :: 0 <= i < |t.launched| ==> t.launched[i] == InputOf(t.env, t.env.children[i])
  {
    EnforcedWithinPolicy(policy, t.env.requestedCaps);
  }

  /** Past the guard: a started child is no workload of the ancestry, nor its controller. */
  lemma StartedIsNew(policy: Caps, order: seq<ErrorCode>, t: Tree, i: nat)
    requires WellNested(policy, order, t) && i < |t.launched|
    ensures t.launched[i].target !in Active(t.env)
  {
    var caps := ResolveCaps(policy, t.env.requestedCaps);
    LaunchedPassedGuard(t.env, caps, t.answers, order, t.summary.childResults, t.launched, t.k, i);
    GuardPassedIsNew(t.env.children[i], t.env.controller, Active(t.env));
    assert t.launched[i] == InputOf(t.env, t.env.children[i]);
  }

  // ----- Ancestry -----

  ghost predicate AncestriesDistinct(t: Tree)
    decreases t
  {
    && NoRepeats(t.env.ancestry)
    && forall i :: 0 <= i < |t.below| && t.below[i].Controller? ==> AncestriesDistinct(t.below[i].tree)
  }

  /**
   No workload ever stands twice in an ancestry, whatever depths payloads name: repeats come only
   with an ancestry that already has them.
   */
  lemma {:induction false} AncestriesStayDistinct(policy: Caps, order: seq<ErrorCode>, t: Tree)
    requires WellNested(policy, order, t)
    ensures AncestriesDistinct(t) <==> NoRepeats(t.env.ancestry) && NamedAncestriesDistinct(t)
    decreases t
  {
    if NoRepeats(t.env.ancestry) {
      forall i | 0 <= i < |t.below| && t.below[i].Controller?
        ensures AncestriesDistinct(t.below[i].tree) <==>
                && (t.env.children[i].payloadAncestry.Some? ==> NoRepeats(t.env.children[i].payloadAncestry.value))
                && NamedAncestriesDistinct(t.below[i].tree)
      {
        StartingNeedsTheGates(policy, order, t);
        assert t.launched[i] == InputOf(t.env, t.env.children[i]);
        assert NoRepeats(Active(t.env));
        AncestriesStayDistinct(policy, order, t.below[i].tree);
      }
    }
  }

  /** No declared id that starts anything stands among those above it. */
  ghost predicate DeclaredOnce(t: Tree, above: seq<WorkloadId>)
    decreases t
  {
    && (t.launched != [] ==> t.env.controller !in above)
    && forall i :: 0 <= i < |t.below| && t.below[i].Controller? ==> DeclaredOnce(t.below[i].tree, above + [t.env.controller])
  }

  /** Where ancestries are inherited, no declared id repeats on the way down, whatever ids and depths are named. */
  lemma {:induction false} DeclaredIdsDoNotRepeat(policy: Caps, order: seq<ErrorCode>, t: Tree)
    requires WellNested(policy, order, t) && AncestriesInherited(t)
    ensures DeclaredOnce(t, t.env.ancestry)
    decreases t
  {
    if t.launched != [] {
      StartingNeedsTheGates(policy, order, t);
    }
    forall i | 0 <= i < |t.below| && t.below[i].Controller? ensures DeclaredOnce(t.below[i].tree, Active(t.env)) {
      assert t.launched[i] == InputOf(t.env, t.env.children[i]);
      DeclaredIdsDoNotRepeat(policy, order, t.below[i].tree);
    }
  }

  // ----- Which workloads run -----

  /** Nothing started in the tree is already `running`, or was started above itself. */
  ghost predicate StartsOnlyNew(t: Tree, running: seq<WorkloadId>)
    decreases t
  {
    && (forall i :: 0 <= i < |t.launched| ==> t.launched[i].target !in running)
    && forall i :: 0 <= i < |t.below| && i < |t.launched| && t.below[i].Controller? ==>
         StartsOnlyNew(t.below[i].tree, running + [t.launched[i].target])
  }

  /** While nested controllers declare their own ids and inherit ancestries, no workload runs below itself. */
  lemma {:induction false} NestingClosesNoCycle(policy: Caps, order: seq<ErrorCode>, t: Tree)
    requires WellNested(policy, order, t) && AncestriesInherited(t) && IdsKept(t)
    ensures StartsOnlyNew(t, Active(t.env))
    decreases t
  {
    forall i | 0 <= i < |t.launched| ensures t.launched[i].target !in Active(t.env) {
      StartedIsNew(policy, order, t, i);
    }
    forall i | 0 <= i < |t.below| && t.below[i].Controller?
      ensures StartsOnlyNew(t.below[i].tree, Active(t.env) + [t.launched[i].target])
    {
      StartingNeedsTheGates(policy, order, t);
      assert t.launched[i] == InputOf(t.env, t.env.children[i]);
      NestingClosesNoCycle(policy, order, t.below[i].tree);
    }
  }

  // ----- Depth -----

  /** The number of levels at which child workloads run. */
  ghost function Levels(t: Tree): (n: nat)
    decreases t
  {
    if t.below == [] then 0 else 1 + LevelsBelow(t.below)
  }

  ghost function LevelsOf(b: Below): (n: nat)
    decreases b
  {
    if b.Controller? then Levels(b.tree) else 0
  }

  ghost function LevelsBelow(bs: seq<Below>): (n: nat)
    decreases bs
  {
    if bs == [] then 0
    else
      var first := LevelsOf(bs[0]);
      var rest := LevelsBelow(bs[1..]);
      if first >= rest then first else rest
  }

  lemma {:induction false} LevelsBelowBound(bs: seq<Below>, n: nat)
    requires forall i :: 0 <= i < |bs| && bs[i].Controller? ==> Levels(bs[i].tree) <= n
    ensures LevelsBelow(bs) <= n
    decreases |bs|
  {
    if bs != [] {
      LevelsBelowBound(bs[1..], n);
    }
  }

  function Room(policy: Caps, t: Tree): (n: nat) {
    if t.env.parentDepth >= MaxDepth(policy) then 0 else MaxDepth(policy) - t.env.parentDepth
  }

  /** A nested controller has less room than the one that started it. */
  lemma LessRoomBelow(policy: Caps, order: seq<ErrorCode>, t: Tree, i: nat)
    requires WellNested(policy, order, t) && DepthsDescend(t)
    requires i < |t.below| && t.below[i].Controller?
    ensures Room(policy, t.below[i].tree) < Room(policy, t)
  {
    StartingNeedsTheGates(policy, order, t);
    assert t.launched[i] == InputOf(t.env, t.env.children[i]);
  }

  /** Children run on no more levels than the policy depth leaves below the root. */
  lemma {:induction false} NestingIsBounded(policy: Caps, order: seq<ErrorCode>, t: Tree)
    requires WellNested(policy, order, t) && DepthsDescend(t)
    ensures Levels(t) <= Room(policy, t)
    decreases t
  {
    if t.below != [] {
      StartingNeedsTheGates(policy, order, t);
      forall i | 0 <= i < |t.below| && t.below[i].Controller? ensures Levels(t.below[i].tree) <= Room(policy, t) - 1 {
        LessRoomBelow(policy, order, t, i);
        NestingIsBounded(policy, order, t.below[i].tree);
      }
      LevelsBelowBound(t.below, Room(policy, t) - 1);
    }
  }

  // ----- Total work -----

  /** How many child workloads are started in the whole tree. */
  ghost function Runs(t: Tree): (n: nat)
    decreases t
  {
    |t.below| + RunsBelow(t.below)
  }

  ghost function RunsOf(b: Below): (n: nat)
    decreases b
  {
    if b.Controller? then Runs(b.tree) else 0
  }

  ghost function RunsBelow(bs: seq<Below>): (n: nat)
    decreases bs
  {
    if bs == [] then 0
    else RunsOf(bs[0]) + RunsBelow(bs[1..])
  }

  function Power(f: nat, k: nat): (n: nat) {
    if k == 0 then 1 else f * Power(f, k - 1)
  }

  /** f + f^2 + ... + f^k */
  function PowerSum(f: nat, k: nat): (n: nat) {
    if k == 0 then 0 else PowerSum(f, k - 1) + Power(f, k)
  }

  lemma {:induction false} PowerSumStep(f: nat, k: nat)
    requires k > 0
    ensures PowerSum(f, k) == f * (1 + PowerSum(f, k - 1))
  {
    if k > 1 {
      PowerSumStep(f, k - 1);
      var s, p := PowerSum(f, k - 2), Power(f, k - 1);
      assert f * (1 + s) + f * p == f * (1 + s + p);
    } else {
      assert Power(f, 1) == f * Power(f, 0);
    }
  }

  lemma {:induction false} PowerSumGrows(f: nat, j: nat, k: nat)
    requires j <= k
    ensures PowerSum(f, j) <= PowerSum(f, k)
    decreases k
  {
    if j < k {
      PowerSumGrows(f, j, k - 1);
    }
  }

  lemma {:induction false} RunsBelowBound(bs: seq<Below>, n: nat)
    requires forall i :: 0 <= i < |bs| && bs[i].Controller? ==> Runs(bs[i].tree) <= n
    ensures RunsBelow(bs) <= |bs| * n
    decreases |bs|
  {
    if bs != [] {
      RunsBelowBound(bs[1..], n);
      assert |bs| * n == n + (|bs| - 1) * n;
    }
  }

  /** With at most `n` runs below each of `f` children, `m` runs suffice. */
  predicate OneMoreLevel(f: nat, n: nat, m: nat) {
    f * (1 + n) <= m
  }

  lemma RunsFit(t: Tree, f: nat, n: nat, m: nat)
    requires |t.below| <= f && OneMoreLevel(f, n, m)
    requires forall i :: 0 <= i < |t.below| && t.below[i].Controller? ==> Runs(t.below[i].tree) <= n
    ensures Runs(t) <= m
  {
    RunsBelowBound(t.below, n);
    Monotone(|t.below|, f, n);
  }

  lemma Monotone(a: nat, f: nat, n: nat)
    requires a <= f
    ensures a + a * n <= f * (1 + n)
  {
    assert a + a * n == a * (1 + n);
    assert (f - a) * (1 + n) >= 0;
  }

  /** Any bound that grows with the room, and by enough per level, bounds the runs. */
  lemma {:induction false} RunsWithin(policy: Caps, order: seq<ErrorCode>, t: Tree, bound: nat -> nat)
    requires WellNested(policy, order, t) && DepthsDescend(t)
    requires forall j, k :: j <= k ==> bound(j) <= bound(k)
    requires forall d :: d > 0 ==> OneMoreLevel(MaxFanout(policy), bound(d - 1), bound(d))
    ensures Runs(t) <= bound(Room(policy, t))
    decreases t
  {
    if t.below != [] {
      StartingNeedsTheGates(policy, order, t);
      var d := Room(policy, t);
      forall i | 0 <= i < |t.below| && t.below[i].Controller? ensures Runs(t.below[i].tree) <= bound(d - 1) {
        RunsWithin(policy, order, t.below[i].tree, bound);
        LessRoomBelow(policy, order, t, i);
      }
      RunsFit(t, MaxFanout(policy), bound(d - 1), bound(d));
    }
  }

  /** The whole tree starts at most f + f^2 + ... + f^d children: f the policy's fanout, d the depth it leaves. */
  lemma RunsAreBounded(policy: Caps, order: seq<ErrorCode>, t: Tree)
    requires WellNested(policy, order, t) && DepthsDescend(t)
    ensures Runs(t) <= PowerSum(MaxFanout(policy), Room(policy, t))
  {
    var f := MaxFanout(policy);
    var bound := (n: nat) => PowerSum(f, n);
    forall j, k | j <= k ensures bound(j) <= bound(k) {
      PowerSumGrows(f, j, k);
    }
    forall d | d > 0 ensures OneMoreLevel(f, bound(d - 1), bound(d)) {
      PowerSumStep(f, d);
    }
    RunsWithin(policy, order, t, bound);
  }

  /** From the root: depth at most max(1, policy depth), at most f + ... + f^D child runs, and no repeated ancestor. */
  lemma RootIsBounded(policy: Caps, order: seq<ErrorCode>, t: Tree)
    requires WellNested(policy, order, t) && DepthsDescend(t) && NamedAncestriesDistinct(t)
    requires t.env.parentDepth == 0 && t.env.ancestry == []
    requires policy.maxDepth.Some?
    ensures var d := if policy.maxDepth.value == 0 then 1 else policy.maxDepth.value;
            && Levels(t) <= d && Runs(t) <= PowerSum(MaxFanout(policy), d) && AncestriesDistinct(t)
  {
    NestingIsBounded(policy, order, t);
    RunsAreBounded(policy, order, t);
    AncestriesStayDistinct(policy, order, t);
  }

  // ----- Witnesses -----

  function Calling(target: WorkloadId, depth: Option<nat>, ancestry: Option<seq<WorkloadId>>, id: Option<WorkloadId>)
    : (c: ChildCall)
  {
    ChildCall(target, SdkV0, None, depth, ancestry, id)
  }

  /** The summary of a controller whose one child succeeded. */
  function OneSuccess(policy: Caps, env: Envelope): (s: RunSummary)
    requires |env.children| == 1
  {
    var caps := ResolveCaps(policy, None);
    RunSummary(env.controller, RunSuccess, Some(caps.requested), Some(caps.enforced),
               [AttemptedResult(caps, env.children[0], None)], None)
  }

  /** A controller that starts one child, which succeeds. */
  ghost function Node(policy: Caps, env: Envelope, below: Below): (t: Tree)
    requires |env.children| == 1
  {
    Tree(env, [Finished(true)], OneSuccess(policy, env), [InputOf(env, env.children[0])], 1, [below])
  }

  /** An envelope with one child that passes every gate and the guard. */
  ghost predicate StartsOne(policy: Caps, env: Envelope) {
    && Parses(env) && |env.children| == 1 && env.requestedCaps == None && env.children[0].style == SdkV0
    && env.parentDepth + 1 <= MaxDepth(policy)
    && env.controller !in env.ancestry && env.children[0].target !in Active(env)
  }

  lemma OneDispatched(policy: Caps, order: seq<ErrorCode>, env: Envelope)
    requires StartsOne(policy, env)
    ensures Dispatched(policy, order, env, [Finished(true)], OneSuccess(policy, env), [InputOf(env, env.children[0])], 1)
  {
    EnforcedWithinPolicy(policy, None);
    assert env.controller in Active(env);
  }

  lemma NodeIsNested(policy: Caps, order: seq<ErrorCode>, env: Envelope, below: Below)
    requires StartsOne(policy, env)
    requires below.Controller? ==>
               Inherits(below.tree.env, InputOf(env, env.children[0])) && WellNested(policy, order, below.tree)
    ensures WellNested(policy, order, Node(policy, env, below))
  {
    OneDispatched(policy, order, env);
  }

  // ----- Where the bound ends -----

  /** A supply of different workloads. */
  function Workload(i: nat): (w: WorkloadId)
    ensures |w.text| == i + 1
  {
    WorkloadId(seq(i + 1, _ => 'w'))
  }

  function Workloads(i: nat): (ws: seq<WorkloadId>)
    ensures |ws| == i && forall j :: 0 <= j < i ==> ws[j] == Workload(j)
  {
    seq(i, j requires 0 <= j < i => Workload(j))
  }

  /** The `i`-th of a row of different controllers, with the ones before it as ancestry, starts the next one. */
  function Link(depth: nat, named: nat, i: nat): (env: Envelope) {
    Envelope(Workload(i), depth, Workloads(i), None, [Calling(Workload(i + 1), Some(named), None, None)])
  }

  /**
   A chain of different controllers, each started by the one before it. Ancestries are inherited;
   every payload names the depth `named`; the first controller stands at depth `depth`.
   */
  ghost function Chain(policy: Caps, depth: nat, named: nat, i: nat, n: nat): (t: Tree)
    decreases n
  {
    Node(policy, Link(depth, named, i),
         if n == 0 then Plain else Controller(Chain(policy, named, named, i + 1, n - 1)))
  }

  lemma LinkStarts(policy: Caps, depth: nat, named: nat, i: nat)
    requires depth + 1 <= MaxDepth(policy)
    ensures StartsOne(policy, Link(depth, named, i))
  {
    assert Workload(i) !in Workloads(i);
    assert Workload(i + 1) !in Active(Link(depth, named, i));
  }

  /** Nested dispatches with inherited ancestries in which every payload names the depth `named`. */
  ghost predicate AllName(t: Tree, named: nat)
    decreases t
  {
    && (forall i :: 0 <= i < |t.env.children| ==> t.env.children[i].payloadDepth == Some(named))
    && forall i :: 0 <= i < |t.below| && t.below[i].Controller? ==> AllName(t.below[i].tree, named)
  }

  lemma {:induction false} ChainNames(policy: Caps, depth: nat, named: nat, i: nat, n: nat)
    ensures var t := Chain(policy, depth, named, i, n); AncestriesInherited(t) && IdsKept(t) && AllName(t, named)
    decreases n
  {
    if n > 0 { ChainNames(policy, named, named, i + 1, n - 1); }
  }

  lemma {:induction false} ChainLevels(policy: Caps, depth: nat, named: nat, i: nat, n: nat)
    ensures Levels(Chain(policy, depth, named, i, n)) == n + 1
    decreases n
  {
    var t := Chain(policy, depth, named, i, n);
    assert t.below[1..] == [];
    assert LevelsBelow(t.below) == LevelsOf(t.below[0]);
    if n > 0 { ChainLevels(policy, named, named, i + 1, n - 1); }
  }

  lemma LinkInherits(depth: nat, named: nat, i: nat)
    ensures var env := Link(depth, named, i); Inherits(Link(named, named, i + 1), InputOf(env, env.children[0]))
  {
    assert Workloads(i + 1) == Workloads(i) + [Workload(i)];
  }

  lemma {:induction false} ChainIsNested(policy: Caps, order: seq<ErrorCode>, depth: nat, named: nat, i: nat, n: nat)
    requires named <= depth && depth + 1 <= MaxDepth(policy)
    ensures WellNested(policy, order, Chain(policy, depth, named, i, n))
    decreases n
  {
    LinkStarts(policy, depth, named, i);
    if n == 0 {
      NodeIsNested(policy, order, Link(depth, named, i), Plain);
    } else {
      LinkInherits(depth, named, i);
      ChainIsNested(policy, order, named, named, i + 1, n - 1);
      NodeIsNested(policy, order, Link(depth, named, i), Controller(Chain(policy, named, named, i + 1, n - 1)));
    }
  }

  /**
   The condition on depths cannot be relaxed: as soon as payloads may name a depth no greater than
   their dispatcher's, at any depth the policy still lets start children, there is no bound on nesting at
   all - although ancestries are inherited, ids are kept and so no workload runs below itself.
   */
  lemma NamedDepthRemovesTheBound(policy: Caps, order: seq<ErrorCode>, depth: nat, named: nat, n: nat) returns (t: Tree)
    requires named <= depth && depth + 1 <= MaxDepth(policy)
    ensures WellNested(policy, order, t) && AncestriesInherited(t) && IdsKept(t) && AllName(t, named)
    ensures t.env.parentDepth == depth && t.env.ancestry == [] && Levels(t) == n + 1
  {
    t := Chain(policy, depth, named, 0, n);
    ChainIsNested(policy, order, depth, named, 0, n);
    ChainNames(policy, depth, named, 0, n);
    ChainLevels(policy, depth, named, 0, n);
  }

  // ----- Where the cycle check ends -----

  /**
   `a`, at the root, starts `b` with a payload that may name an ancestry and an id; `b` is a
   controller in turn and starts `c`. Depths are inherited.
   */
  ghost predicate StartsThrough(policy: Caps, order: seq<ErrorCode>, a: WorkloadId, b: WorkloadId,
                                ancestry: Option<seq<WorkloadId>>, id: Option<WorkloadId>, c: WorkloadId, t: Tree) {
    && WellNested(policy, order, t)
    && t.env.controller == a && t.env.parentDepth == 0 && t.env.ancestry == []
    && |t.below| == 1 && t.below[0].Controller? && |t.env.children| == 1
    && t.env.children[0] == Calling(b, None, ancestry, id)
    && exists j :: 0 <= j < |t.below[0].tree.launched| && t.below[0].tree.launched[j].target == c
  }

  ghost predicate CanStartThrough(policy: Caps, order: seq<ErrorCode>, a: WorkloadId, b: WorkloadId,
                                  ancestry: Option<seq<WorkloadId>>, id: Option<WorkloadId>, c: WorkloadId) {
    exists t :: StartsThrough(policy, order, a, b, ancestry, id, c, t)
  }

  function OrInherited(a: WorkloadId, ancestry: Option<seq<WorkloadId>>): (r: seq<WorkloadId>) {
    if ancestry.Some? then ancestry.value else [a]
  }

  /** What the parser and the two cycle checks, at `a` and at `b`, leave possible. */
  ghost predicate PassesChecks(policy: Caps, a: WorkloadId, b: WorkloadId, ancestry: Option<seq<WorkloadId>>,
                               id: Option<WorkloadId>, c: WorkloadId) {
    && a.text != "" && b.text != "" && c.text != ""
    && MaxDepth(policy) >= 2 && a != b
    && var own := match id { case Some(WorkloadId(text)) => if text != "" then WorkloadId(text) else b case None => b };
       var above := match ancestry { case Some(names) => names case None => [a] };
       own !in above && c != own && c !in above
  }

  function Outer(a: WorkloadId, b: WorkloadId, ancestry: Option<seq<WorkloadId>>, id: Option<WorkloadId>): (env: Envelope) {
    Envelope(a, 0, [], None, [Calling(b, None, ancestry, id)])
  }

  function Inner(a: WorkloadId, b: WorkloadId, ancestry: Option<seq<WorkloadId>>, id: Option<WorkloadId>, c: WorkloadId)
    : (env: Envelope)
  {
    Envelope(Declared(b, id), 1, OrInherited(a, ancestry), None, [Calling(c, None, None, None)])
  }

  lemma BothStart(policy: Caps, a: WorkloadId, b: WorkloadId, ancestry: Option<seq<WorkloadId>>, id: Option<WorkloadId>,
                  c: WorkloadId)
    requires PassesChecks(policy, a, b, ancestry, id, c)
    ensures StartsOne(policy, Outer(a, b, ancestry, id)) && StartsOne(policy, Inner(a, b, ancestry, id, c))
    ensures var outer := Outer(a, b, ancestry, id);
            Inherits(Inner(a, b, ancestry, id, c), InputOf(outer, outer.children[0]))
  {
  }

  lemma ChecksSuffice(policy: Caps, order: seq<ErrorCode>, a: WorkloadId, b: WorkloadId,
                      ancestry: Option<seq<WorkloadId>>, id: Option<WorkloadId>, c: WorkloadId)
    requires PassesChecks(policy, a, b, ancestry, id, c)
    ensures CanStartThrough(policy, order, a, b, ancestry, id, c)
  {
    var inner := Node(policy, Inner(a, b, ancestry, id, c), Plain);
    var t := Node(policy, Outer(a, b, ancestry, id), Controller(inner));
    BothStart(policy, a, b, ancestry, id, c);
    NodeIsNested(policy, order, inner.env, Plain);
    NodeIsNested(policy, order, t.env, Controller(inner));
    assert inner.launched[0].target == c;
    assert StartsThrough(policy, order, a, b, ancestry, id, c, t);
  }

  /** A started child of a nested controller is new to what that controller was given. */
  lemma InnerChecks(policy: Caps, order: seq<ErrorCode>, inner: Tree, j: nat)
    requires WellNested(policy, order, inner) && j < |inner.launched|
    ensures inner.env.parentDepth + 1 <= MaxDepth(policy) && inner.env.controller !in inner.env.ancestry
    ensures inner.launched[j].target != inner.env.controller && inner.launched[j].target !in inner.env.ancestry
    ensures inner.launched[j].target.text != ""
  {
    StartingNeedsTheGates(policy, order, inner);
    StartedIsNew(policy, order, inner, j);
    assert inner.launched[j] == InputOf(inner.env, inner.env.children[j]);
    assert inner.launched[j].target != inner.env.controller by {
      assert inner.env.controller in Active(inner.env);
    }
    assert forall x :: x in inner.env.ancestry ==> x in Active(inner.env);
  }

  lemma ChecksArePassed(policy: Caps, order: seq<ErrorCode>, a: WorkloadId, b: WorkloadId,
                        ancestry: Option<seq<WorkloadId>>, id: Option<WorkloadId>, c: WorkloadId, t: Tree)
    requires StartsThrough(policy, order, a, b, ancestry, id, c, t)
    ensures PassesChecks(policy, a, b, ancestry, id, c)
  {
    InnerChecks(policy, order, t, 0);
    assert t.launched[0] == InputOf(t.env, t.env.children[0]);
    var inner := t.below[0].tree;
    var j :| 0 <= j < |inner.launched| && inner.launched[j].target == c;
    InnerChecks(policy, order, inner, j);
  }

  /** `b` can start `c` exactly when the checks let it: they ask for declared ids and ancestries, not for workloads. */
  lemma StartsThroughIff(policy: Caps, order: seq<ErrorCode>, a: WorkloadId, b: WorkloadId,
                         ancestry: Option<seq<WorkloadId>>, id: Option<WorkloadId>, c: WorkloadId)
    ensures CanStartThrough(policy, order, a, b, ancestry, id, c) <==> PassesChecks(policy, a, b, ancestry, id, c)
  {
    if t :| StartsThrough(policy, order, a, b, ancestry, id, c, t) {
      ChecksArePassed(policy, order, a, b, ancestry, id, c, t);
    }
    if PassesChecks(policy, a, b, ancestry, id, c) {
      ChecksSuffice(policy, order, a, b, ancestry, id, c);
    }
  }

  /**
   With ancestries and depths inherited, a workload can start itself exactly when its payload
   makes it declare another id, under every policy that allows two levels at all.
   */
  lemma RestartsItselfIffRenamed(policy: Caps, order: seq<ErrorCode>, b: WorkloadId, id: Option<WorkloadId>)
    requires b.text != ""
    ensures (exists a :: CanStartThrough(policy, order, a, b, None, id, b))
       <==> MaxDepth(policy) >= 2 && id.Some? && id.value.text != "" && id.value != b
  {
    if a :| CanStartThrough(policy, order, a, b, None, id, b) {
      StartsThroughIff(policy, order, a, b, None, id, b);
    }
    if MaxDepth(policy) >= 2 && Declared(b, id) != b {
      var a := Workload(|b.text| + |Declared(b, id).text|);
      StartsThroughIff(policy, order, a, b, None, id, b);
    }
  }

  /** With ids and depths inherited, a child can start its dispatcher again exactly when it is given an ancestry without either. */
  lemma RestartsDispatcherIffHidden(policy: Caps, order: seq<ErrorCode>, a: WorkloadId, b: WorkloadId,
                                    ancestry: Option<seq<WorkloadId>>)
    requires a.text != "" && b.text != "" && a != b
    ensures CanStartThrough(policy, order, a, b, ancestry, None, a)
       <==> MaxDepth(policy) >= 2 && ancestry.Some? && a !in ancestry.value && b !in ancestry.value
  {
    StartsThroughIff(policy, order, a, b, ancestry, None, a);
  }
}
