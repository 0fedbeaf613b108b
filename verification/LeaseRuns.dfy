/** What holds over every run of the card store under a clock that never goes back. */
module LeaseRuns {
  import opened Collections
  import opened CardStore

  // ----- Runs of the whole store -----

  type StoreEvent = (CardId, Event)

  function Run(cards: Cards, run: seq<StoreEvent>): (r: (Cards, seq<Reply>))
    decreases run
  {
    if run == [] then (cards, [])
    else
      var (next, reply) := StoreStep(cards, run[0].0, run[0].1);
      var (last, replies) := Run(next, run[1..]);
      (last, [reply] + replies)
  }

  ghost predicate Timed(t: int, run: seq<StoreEvent>)
    decreases run
  {
    run == [] || (t <= run[0].1.check <= run[0].1.grant && Timed(run[0].1.grant, run[1..]))
  }

  ghost function EndOf(t: int, run: seq<StoreEvent>): (r: int)
    decreases run
  {
    if run == [] then t else EndOf(run[0].1.grant, run[1..])
  }

  // ----- Lazy expiry refines eager expiry -----

  /** Every lease that has run out by `now` is gone. */
  ghost function Sweep(cards: Cards, now: int): (r: Cards) {
    map id | id in cards :: Expire(cards[id], now)
  }

  /**
   The eager store: at every reading of the clock all leases that have run out vanish at once,
   and a request finds its card already up to date.
   */
  ghost function EagerStep(cards: Cards, id: CardId, e: Event): (r: (Cards, Reply)) {
    var swept := Sweep(cards, e.check);
    var (acted, reply) :=
      if BadRequest(e.op) then (swept, Rejected(BadLease))
      else if id !in swept then (swept, Rejected(NotFound))
      else
        var (c, reply) := Act(swept[id], e.op, e.grant);
        (swept[id := c], reply);
    (Sweep(acted, e.grant), reply)
  }

  ghost function EagerRun(cards: Cards, run: seq<StoreEvent>): (r: (Cards, seq<Reply>))
    decreases run
  {
    if run == [] then (cards, [])
    else
      var (next, reply) := EagerStep(cards, run[0].0, run[0].1);
      var (last, replies) := EagerRun(next, run[1..]);
      (last, [reply] + replies)
  }

  lemma SweepTwice(cards: Cards, s: int, t: int)
    requires s <= t
    ensures Sweep(Sweep(cards, s), t) == Sweep(cards, t)
  {
  }

  lemma EagerStepSimulates(cards: Cards, t: int, id: CardId, e: Event)
    requires t <= e.check <= e.grant
    ensures EagerStep(Sweep(cards, t), id, e).0 == Sweep(StoreStep(cards, id, e).0, e.grant)
    ensures EagerStep(Sweep(cards, t), id, e).1 == StoreStep(cards, id, e).1
  {
    SweepTwice(cards, t, e.check);
    SweepTwice(cards, e.check, e.grant);
  }

  /** Every reply of the lazy store is the reply of the eager one, and sweeping it gives the eager one's cards. */
  lemma {:induction false} LazyRefinesEager(cards: Cards, t: int, run: seq<StoreEvent>)
    requires Timed(t, run)
    ensures EagerRun(Sweep(cards, t), run).1 == Run(cards, run).1
    ensures EagerRun(Sweep(cards, t), run).0 == Sweep(Run(cards, run).0, EndOf(t, run))
    decreases run
  {
    if run == [] {
    } else {
      var id, e := run[0].0, run[0].1;
      EagerStepSimulates(cards, t, id, e);
      LazyRefinesEager(StoreStep(cards, id, e).0, e.grant, run[1..]);
    }
  }

  /** The looks that `list_cards` consists of. */
  function Looks(ids: seq<CardId>, at: seq<int>, k: nat): (r: seq<StoreEvent>)
    requires k <= |ids| == |at|
  {
    if k == 0 then [] else Looks(ids, at, k - 1) + [(ids[k - 1], Event(Look, at[k - 1], at[k - 1]))]
  }

  /** The cards among the replies that pass the filter. */
  function Shown(replies: seq<Reply>, filter: Option<CardState>): (r: seq<Card>) {
    if replies == [] then []
    else
      var last := replies[|replies| - 1];
      Shown(replies[..|replies| - 1], filter)
        + (if last.Ok? && (filter == None || filter == Some(last.card.state)) then [last.card] else [])
  }

  lemma {:induction false} RunAppend(cards: Cards, run: seq<StoreEvent>, x: StoreEvent)
    ensures Run(cards, run + [x]).0 == StoreStep(Run(cards, run).0, x.0, x.1).0
    ensures Run(cards, run + [x]).1 == Run(cards, run).1 + [StoreStep(Run(cards, run).0, x.0, x.1).1]
    decreases run
  {
    if run == [] {
      assert [x][1..] == [];
    } else {
      RunAppend(StoreStep(cards, run[0].0, run[0].1).0, run[1..], x);
      assert (run + [x])[1..] == run[1..] + [x];
    }
  }

  lemma ShownOneMore(replies: seq<Reply>, last: Reply, filter: Option<CardState>)
    ensures Shown(replies + [last], filter) == Shown(replies, filter)
         + (if last.Ok? && (filter == None || filter == Some(last.card.state)) then [last.card] else [])
  {
    assert (replies + [last])[..|replies|] == replies;
  }

  lemma ListedOneMore(cards: Cards, ids: seq<CardId>, at: seq<int>, filter: Option<CardState>, k: nat)
    requires k < |ids| == |at|
    ensures var (before, shown) := Listed(cards, ids, at, filter, k);
            var (after, last) := StoreStep(before, ids[k], Event(Look, at[k], at[k]));
            Listed(cards, ids, at, filter, k + 1)
              == (after, shown + (if last.Ok? && (filter == None || filter == Some(last.card.state)) then [last.card] else []))
  {
    var shown := Listed(cards, ids, at, filter, k).1;
    assert shown + [] == shown;
  }

  /** A listing is a run of looks, so its cards too are those the eager store would show. */
  lemma {:induction false} ListingIsARun(cards: Cards, ids: seq<CardId>, at: seq<int>, filter: Option<CardState>, k: nat)
    requires k <= |ids| == |at|
    ensures Listed(cards, ids, at, filter, k).0 == Run(cards, Looks(ids, at, k)).0
    ensures Listed(cards, ids, at, filter, k).1 == Shown(Run(cards, Looks(ids, at, k)).1, filter)
    decreases k
  {
    if k > 0 {
      ListingIsARun(cards, ids, at, filter, k - 1);
      var run, x := Looks(ids, at, k - 1), (ids[k - 1], Event(Look, at[k - 1], at[k - 1]));
      RunAppend(cards, run, x);
      ListedOneMore(cards, ids, at, filter, k - 1);
      ShownOneMore(Run(cards, run).1, StoreStep(Run(cards, run).0, x.0, x.1).1, filter);
    }
  }

  /** Whether the `i`-th card, as it is when looked at, passes the filter. */
  ghost predicate Passes(cards: Cards, ids: seq<CardId>, at: seq<int>, filter: Option<CardState>, i: nat)
    requires i < |ids| == |at| && ids[i] in cards
  {
    filter.None? || Expire(cards[ids[i]], at[i]).state == filter.value
  }

  lemma {:induction false} LookedAt(cards: Cards, ids: seq<CardId>, at: seq<int>, filter: Option<CardState>, k: nat)
    requires NoRepeats(ids) && k <= |ids| == |at| && forall i :: 0 <= i < |ids| ==> ids[i] in cards
    ensures var after := Listed(cards, ids, at, filter, k).0;
            && after.Keys == cards.Keys
            && forall i :: 0 <= i < |ids| ==>
                 after[ids[i]] == if i < k then Expire(cards[ids[i]], at[i]) else cards[ids[i]]
    decreases k
  {
    if k > 0 { LookedAt(cards, ids, at, filter, k - 1); }
  }

  lemma OneLookMore(cards: Cards, ids: seq<CardId>, at: seq<int>, filter: Option<CardState>, k: nat)
    requires NoRepeats(ids) && k < |ids| == |at| && forall i :: 0 <= i < |ids| ==> ids[i] in cards
    ensures Listed(cards, ids, at, filter, k + 1).1 == Listed(cards, ids, at, filter, k).1
         + (if Passes(cards, ids, at, filter, k) then [Expire(cards[ids[k]], at[k])] else [])
  {
    LookedAt(cards, ids, at, filter, k);
  }

  /** The cards as they are when looked at. */
  ghost function AsSeen(cards: Cards, ids: seq<CardId>, at: seq<int>): (r: seq<Card>)
    requires |ids| == |at| && forall i :: 0 <= i < |ids| ==> ids[i] in cards
    ensures |r| == |ids| && forall i :: 0 <= i < |ids| ==> r[i] == Expire(cards[ids[i]], at[i])
  {
    seq(|ids|, i requires 0 <= i < |ids| => Expire(cards[ids[i]], at[i]))
  }

  ghost function ListingStages(cards: Cards, ids: seq<CardId>, at: seq<int>, filter: Option<CardState>): (r: seq<seq<Card>>)
    requires |ids| == |at|
    ensures |r| == |ids| + 1 && forall k :: 0 <= k <= |ids| ==> r[k] == Listed(cards, ids, at, filter, k).1
  {
    seq(|ids| + 1, k requires 0 <= k <= |ids| => Listed(cards, ids, at, filter, k).1)
  }

  lemma ListingGrows(cards: Cards, ids: seq<CardId>, at: seq<int>, filter: Option<CardState>, keep: seq<bool>)
    requires NoRepeats(ids) && |ids| == |at| == |keep| && forall i :: 0 <= i < |ids| ==> ids[i] in cards
    requires forall i :: 0 <= i < |ids| ==> keep[i] == Passes(cards, ids, at, filter, i)
    ensures Grows(ListingStages(cards, ids, at, filter), AsSeen(cards, ids, at), keep)
  {
    var stages, seen := ListingStages(cards, ids, at, filter), AsSeen(cards, ids, at);
    forall i | 0 <= i < |ids| ensures stages[i + 1] == stages[i] + (if keep[i] then [seen[i]] else []) {
      OneLookMore(cards, ids, at, filter, i);
    }
  }

  /** A listing shows, in dictionary order, exactly the cards that pass the filter at the instant they are looked at. */
  lemma ListingMeaning(cards: Cards, ids: seq<CardId>, at: seq<int>, filter: Option<CardState>)
    returns (keep: seq<bool>, shown: seq<nat>)
    requires NoRepeats(ids) && |ids| == |at| && forall i :: 0 <= i < |ids| ==> ids[i] in cards
    ensures |keep| == |ids| && forall i :: 0 <= i < |ids| ==>
              (keep[i] <==> filter.None? || Expire(cards[ids[i]], at[i]).state == filter.value)
    ensures Picks(ListingStages(cards, ids, at, filter)[|ids|], AsSeen(cards, ids, at), keep, shown)
  {
    keep := seq(|ids|, i requires 0 <= i < |ids| => Passes(cards, ids, at, filter, i));
    ListingGrows(cards, ids, at, filter, keep);
    shown := GrownPicks(ListingStages(cards, ids, at, filter), AsSeen(cards, ids, at), keep);
  }

  // ----- Cards the store does not have -----

  /** No run adds or removes a card, and a request for an unknown one is refused as such. */
  lemma {:induction false} UnknownStaysUnknown(cards: Cards, run: seq<StoreEvent>)
    ensures Run(cards, run).0.Keys == cards.Keys && |Run(cards, run).1| == |run|
    ensures forall i :: 0 <= i < |run| && run[i].0 !in cards ==>
              Run(cards, run).1[i] ==
                match run[i].1.op {
                  case Claim(_, seconds) => Rejected(if seconds <= 0 then BadLease else NotFound)
                  case Renew(_, seconds) => Rejected(if seconds <= 0 then BadLease else NotFound)
                  case _ => Rejected(NotFound)
                }
    decreases run
  {
    if run != [] {
      UnknownStaysUnknown(StoreStep(cards, run[0].0, run[0].1).0, run[1..]);
    }
  }

  // ----- One card's share of a run -----

  function CardAfter(c: Card, es: seq<Event>): (r: Card)
    decreases es
  {
    if es == [] then c else CardAfter(CardStep(c, es[0]).0, es[1..])
  }

  function RepliesOn(c: Card, es: seq<Event>): (r: seq<Reply>)
    ensures |r| == |es|
    decreases es
  {
    if es == [] then [] else [CardStep(c, es[0]).1] + RepliesOn(CardStep(c, es[0]).0, es[1..])
  }

  ghost predicate CardTimed(t: int, es: seq<Event>)
    decreases es
  {
    es == [] || (t <= es[0].check <= es[0].grant && CardTimed(es[0].grant, es[1..]))
  }

  function Project(run: seq<StoreEvent>, id: CardId): (r: seq<Event>) {
    if run == [] then []
    else (if run[0].0 == id then [run[0].1] else []) + Project(run[1..], id)
  }

  function ProjectReplies(run: seq<StoreEvent>, replies: seq<Reply>, id: CardId): (r: seq<Reply>)
    requires |run| == |replies|
  {
    if run == [] then []
    else (if run[0].0 == id then [replies[0]] else []) + ProjectReplies(run[1..], replies[1..], id)
  }

  lemma {:induction false} RunLength(cards: Cards, run: seq<StoreEvent>)
    ensures |Run(cards, run).1| == |run|
    decreases run
  {
    if run != [] {
      RunLength(StoreStep(cards, run[0].0, run[0].1).0, run[1..]);
    }
  }

  lemma {:induction false} EarlierStart(s: int, t: int, es: seq<Event>)
    requires s <= t && CardTimed(t, es)
    ensures CardTimed(s, es)
  {
  }

  /** A run of the store, seen from one of its cards, is that card's run on its own events. */
  lemma {:induction false} CardsAreIndependent(cards: Cards, t: int, run: seq<StoreEvent>, id: CardId)
    requires id in cards && Timed(t, run)
    ensures |Run(cards, run).1| == |run|
    ensures id in Run(cards, run).0
    ensures Run(cards, run).0[id] == CardAfter(cards[id], Project(run, id))
    ensures ProjectReplies(run, Run(cards, run).1, id) == RepliesOn(cards[id], Project(run, id))
    ensures CardTimed(t, Project(run, id))
    decreases run
  {
    RunLength(cards, run);
    if run == [] {
    } else {
      var e := run[0].1;
      var (next, reply) := StoreStep(cards, run[0].0, e);
      CardsAreIndependent(next, e.grant, run[1..], id);
      assert Run(cards, run).1[1..] == Run(next, run[1..]).1;
      if run[0].0 == id {
        assert Project(run, id)[1..] == Project(run[1..], id);
      } else {
        assert Project(run, id) == Project(run[1..], id);
        EarlierStart(t, e.grant, Project(run[1..], id));
      }
    }
  }

  // ----- Finishing -----

  predicate Finished(c: Card) {
    c.state == DONE || c.state == FAILED
  }

  /** The request that may finish a card: its claimant's, while the lease has not run out. */
  ghost predicate HolderFinishes(c: Card, e: Event) {
    && (e.op.Complete? || e.op.Fail?)
    && c.state == CLAIMED && c.claimedBy == Some(e.op.node)
    && (c.leaseExpiresAt.Some? ==> e.check <= c.leaseExpiresAt.value)
  }

  lemma {:induction false} FinishedStays(c: Card, es: seq<Event>)
    requires Finished(c)
    ensures CardAfter(c, es) == c
    decreases es
  {
    if es != [] {
      FinishedStays(c, es[1..]);
    }
  }

  /**
   A card that ends finished was finished by exactly one request, its holder's with an
   unexpired lease; before that request it was never finished, and after it never changed.
   */
  lemma {:induction false} FinishedExactlyOnce(c: Card, es: seq<Event>) returns (i: nat)
    requires !Finished(c) && Finished(CardAfter(c, es))
    ensures i < |es|
    ensures HolderFinishes(CardAfter(c, es[..i]), es[i])
    ensures forall j :: 0 <= j <= i ==> !Finished(CardAfter(c, es[..j]))
    ensures forall j :: i < j <= |es| ==> CardAfter(c, es[..j]) == CardAfter(c, es)
    ensures var last := CardAfter(c, es);
            && last.state == (if es[i].op.Complete? then DONE else FAILED)
            && last.claimedBy == Some(es[i].op.node) && last.result == es[i].op.result && last.leaseExpiresAt == None
    decreases |es|
  {
    var next := CardStep(c, es[0]).0;
    forall j | 1 <= j <= |es| ensures CardAfter(c, es[..j]) == CardAfter(next, es[1..][..j - 1]) {
      assert es[..j][1..] == es[1..][..j - 1];
    }
    if Finished(next) {
      i := 0;
      FinishedStays(next, es[1..]);
      forall j | 1 <= j <= |es| ensures CardAfter(c, es[..j]) == next {
        FinishedStays(next, es[1..][..j - 1]);
      }
    } else {
      var k := FinishedExactlyOnce(next, es[1..]);
      i := k + 1;
      assert es[i] == es[1..][k];
      forall j | i < j <= |es| ensures CardAfter(c, es[..j]) == CardAfter(c, es) {
        assert CardAfter(next, es[1..][..j - 1]) == CardAfter(next, es[1..]);
      }
      forall j | 0 <= j <= i ensures !Finished(CardAfter(c, es[..j])) {
        if j > 0 { assert !Finished(CardAfter(next, es[1..][..j - 1])); }
      }
    }
  }

  lemma {:induction false} ReplyAt(c: Card, es: seq<Event>, i: nat)
    requires i < |es|
    ensures RepliesOn(c, es)[i] == CardStep(CardAfter(c, es[..i]), es[i]).1
    decreases es
  {
    if i > 0 {
      ReplyAt(CardStep(c, es[0]).0, es[1..], i - 1);
      assert es[..i][1..] == es[1..][..i - 1];
    }
  }

  /**
   How a card answers once a request `finish` has made it `last`: the node whose completion
   finished it is answered with the card each time it completes again, any other is told who came
   first; nothing else is granted.
   */
  ghost predicate AnswersFinished(finish: Event, last: Card, e: Event, reply: Reply)
    requires finish.op.Complete? || finish.op.Fail?
  {
    match e.op
    case Look => reply == Ok(last)
    case Claim(_, seconds) => reply == Rejected(if seconds <= 0 then BadLease else NotClaimable)
    case Renew(_, seconds) => reply == Rejected(if seconds <= 0 then BadLease else NotClaimant)
    case Fail(_, _) => reply == Rejected(NotClaimant)
    case Complete(node, _) =>
      if finish.op.Fail? then reply == Rejected(NotClaimant)
      else if node == finish.op.node then reply == Ok(last)
      else reply == Rejected(DoneByOther)
  }

  /** Over every run: the finishing request is accepted, and every later reply is as said. */
  lemma FinishSettlesReplies(c: Card, es: seq<Event>) returns (i: nat)
    requires !Finished(c) && Finished(CardAfter(c, es))
    ensures i < |es| && (es[i].op.Complete? || es[i].op.Fail?)
    ensures RepliesOn(c, es)[i] == Ok(CardAfter(c, es))
    ensures forall j :: i < j < |es| ==> AnswersFinished(es[i], CardAfter(c, es), es[j], RepliesOn(c, es)[j])
  {
    i := FinishedExactlyOnce(c, es);
    ReplyAt(c, es, i);
    AfterOneMore(c, es, i);
    forall j | i < j < |es| ensures AnswersFinished(es[i], CardAfter(c, es), es[j], RepliesOn(c, es)[j]) {
      ReplyAt(c, es, j);
      assert CardAfter(c, es[..j]) == CardAfter(c, es);
    }
  }

  // ----- Unfinished cards -----

  /** What every run keeps: an open card is nobody's, any other is somebody's, and only a finished one has a result. */
  ghost predicate Coherent(c: Card) {
    && (c.state == OPEN <==> c.claimedBy.None?)
    && (c.state != CLAIMED ==> c.leaseExpiresAt.None?)
    && (!Finished(c) ==> c.result.None?)
  }

  lemma {:induction false} RunsKeepCoherence(c: Card, es: seq<Event>)
    requires Coherent(c)
    ensures Coherent(CardAfter(c, es))
    ensures CardAfter(c, es).id == c.id && CardAfter(c, es).payload == c.payload
    decreases es
  {
    if es != [] {
      RunsKeepCoherence(CardStep(c, es[0]).0, es[1..]);
    }
  }

  /** The card is claimed and its lease, if it has one, has not run out. */
  ghost predicate InForce(c: Card, now: int) {
    c.state == CLAIMED && (c.leaseExpiresAt.Some? ==> now <= c.leaseExpiresAt.value)
  }

  /** A card somebody holds: the holder alone is served, and what it gets is what it asked for. */
  lemma HeldCardAnswers(c: Card, e: Event)
    requires InForce(c, e.check)
    ensures var (next, reply) := CardStep(c, e);
            match e.op
            case Look => next == c && reply == Ok(c)
            case Claim(_, seconds) => next == c && reply == Rejected(if seconds <= 0 then BadLease else NotClaimable)
            case Renew(node, seconds) =>
              if seconds <= 0 then next == c && reply == Rejected(BadLease)
              else if c.claimedBy != Some(node) then next == c && reply == Rejected(NotClaimant)
              else if e.grant + seconds * 1_000_000 > DATETIME_MAX then next == c && reply == Rejected(Overflow)
              else next == c.(leaseExpiresAt := Some(e.grant + seconds * 1_000_000)) && reply == Ok(next)
            case Complete(node, result) =>
              if c.claimedBy != Some(node) then next == c && reply == Rejected(NotClaimant)
              else next == c.(state := DONE, result := result, leaseExpiresAt := None) && reply == Ok(next)
            case Fail(node, result) =>
              if c.claimedBy != Some(node) then next == c && reply == Rejected(NotClaimant)
              else next == c.(state := FAILED, result := result, leaseExpiresAt := None) && reply == Ok(next)
  {
  }

  /** A card nobody holds: it can be claimed for any expressible lease, and nothing else is granted. */
  lemma FreeCardAnswers(c: Card, e: Event)
    requires Coherent(c) && !Finished(c) && !InForce(c, e.check)
    ensures var (next, reply) := CardStep(c, e);
            var free := c.(state := OPEN, claimedBy := None, leaseExpiresAt := None);
            match e.op
            case Look => next == free && reply == Ok(free)
            case Claim(node, seconds) =>
              if seconds <= 0 then next == c && reply == Rejected(BadLease)
              else if e.grant + seconds * 1_000_000 > DATETIME_MAX then
                next == free.(state := CLAIMED, claimedBy := Some(node)) && reply == Rejected(Overflow)
              else
                && next == free.(state := CLAIMED, claimedBy := Some(node),
                                 leaseExpiresAt := Some(e.grant + seconds * 1_000_000), attempts := c.attempts + 1)
                && reply == Ok(next)
            case Renew(_, seconds) =>
              if seconds <= 0 then next == c && reply == Rejected(BadLease) else next == free && reply == Rejected(NotClaimant)
            case _ => next == free && reply == Rejected(NotClaimant)
  {
  }

  // ----- Conservation of attempts -----

  /** Expiries the store performs on the card: requests that find its lease run out. */
  function Expiries(c: Card, es: seq<Event>): (n: nat)
    decreases es
  {
    if es == [] then 0
    else (if !BadRequest(es[0].op) && Expire(c, es[0].check) != c then 1 else 0) + Expiries(CardStep(c, es[0]).0, es[1..])
  }

  /** The request would claim an open card for longer than any instant can express. */
  predicate Overreaches(c: Card, e: Event) {
    && e.op.Claim? && e.op.leaseSeconds > 0
    && Expire(c, e.check).state == OPEN && Deadline(e.grant, e.op.leaseSeconds) > DATETIME_MAX
  }

  /** Claims of an open card whose lease would end at no representable instant. */
  function Overflows(c: Card, es: seq<Event>): (n: nat)
    decreases es
  {
    if es == [] then 0
    else (if Overreaches(c, es[0]) then 1 else 0) + Overflows(CardStep(c, es[0]).0, es[1..])
  }

  /** Those are exactly the claims that end in an error after marking the card. */
  lemma OverflowIsOverreach(c: Card, e: Event)
    ensures Overreaches(c, e) <==> e.op.Claim? && CardStep(c, e).1 == Rejected(Overflow)
  {
  }

  function Busy(c: Card): (n: nat) {
    if c.state == OPEN then 0 else 1
  }

  /** Every time a card leaves OPEN is a counted attempt or an overflowed claim, and every return is an expiry. */
  lemma {:induction false} AttemptsBalance(c: Card, es: seq<Event>)
    ensures CardAfter(c, es).attempts + Overflows(c, es) + Busy(c) == c.attempts + Expiries(c, es) + Busy(CardAfter(c, es))
    decreases es
  {
    if es != [] {
      AttemptsBalance(CardStep(c, es[0]).0, es[1..]);
    }
  }

  /** From a fresh card, `attempts` counts expiries plus the current hold exactly when no claim overflowed. */
  lemma AttemptsCountHolds(c: Card, es: seq<Event>)
    requires c.state == OPEN && c.attempts == 0
    ensures CardAfter(c, es).attempts == Expiries(c, es) + Busy(CardAfter(c, es)) <==> Overflows(c, es) == 0
    ensures (forall e :: e in es && e.op.Claim? ==> Deadline(e.grant, e.op.leaseSeconds) <= DATETIME_MAX)
            ==> Overflows(c, es) == 0
  {
    AttemptsBalance(c, es);
    if forall e :: e in es && e.op.Claim? ==> Deadline(e.grant, e.op.leaseSeconds) <= DATETIME_MAX {
      NoOverflow(c, es);
    }
  }

  lemma {:induction false} NoOverflow(c: Card, es: seq<Event>)
    requires forall e :: e in es && e.op.Claim? ==> Deadline(e.grant, e.op.leaseSeconds) <= DATETIME_MAX
    ensures Overflows(c, es) == 0
    decreases es
  {
    if es != [] {
      assert es[0] in es;
      NoOverflow(CardStep(c, es[0]).0, es[1..]);
    }
  }

  // ----- The card after an overflowed claim -----

  /** Claimed by `node`, with no lease that could run out. */
  ghost predicate Stuck(c: Card, node: NodeId) {
    c.state == CLAIMED && c.claimedBy == Some(node) && c.leaseExpiresAt == None
  }

  /** The marking node finishes the card, or renews it for a lease that can be expressed. */
  predicate Frees(e: Event, node: NodeId) {
    || ((e.op.Complete? || e.op.Fail?) && e.op.node == node)
    || (e.op.Renew? && e.op.node == node && e.op.leaseSeconds > 0 && Deadline(e.grant, e.op.leaseSeconds) <= DATETIME_MAX)
  }

  lemma {:induction false} StuckUntilFreed(c: Card, node: NodeId, es: seq<Event>)
    requires Stuck(c, node) && forall e :: e in es ==> !Frees(e, node)
    ensures CardAfter(c, es) == c
    ensures forall i :: 0 <= i < |es| && es[i].op.Claim? ==> RepliesOn(c, es)[i].Rejected?
    decreases es
  {
    if es != [] {
      assert es[0] in es;
      StuckUntilFreed(c, node, es[1..]);
    }
  }

  /**
   An overflowing claim, of an open card or one just expired, is refused, yet the card is then
   claimed without a lease, its attempt not counted. It stays exactly so, and every claim by anyone
   is refused, for as long as the marking node itself sends no finish and no renewal that can be
   expressed; the first such request ends it.
   */
  lemma {:induction false} OverflowingClaimSticks(c: Card, claim: Event, es: seq<Event>)
    requires Overreaches(c, claim) && (c.state == OPEN ==> c.leaseExpiresAt.None?)
    ensures CardStep(c, claim).1 == Rejected(Overflow)
    ensures Stuck(CardStep(c, claim).0, claim.op.node) && CardStep(c, claim).0.attempts == c.attempts
    ensures (forall j :: 0 <= j <= |es| ==> CardAfter(CardStep(c, claim).0, es[..j]) == CardStep(c, claim).0)
       <==> (forall e :: e in es ==> !Frees(e, claim.op.node))
    ensures (forall e :: e in es ==> !Frees(e, claim.op.node)) ==>
            forall i :: 0 <= i < |es| && es[i].op.Claim? ==> RepliesOn(CardStep(c, claim).0, es)[i].Rejected?
  {
    var stuck, node := CardStep(c, claim).0, claim.op.node;
    if forall e :: e in es ==> !Frees(e, node) {
      forall j | 0 <= j <= |es| ensures CardAfter(stuck, es[..j]) == stuck {
        StuckUntilFreed(stuck, node, es[..j]);
      }
      StuckUntilFreed(stuck, node, es);
    } else {
      var j := FirstFreeing(es, node);
      StuckUntilFreed(stuck, node, es[..j]);
      AfterOneMore(stuck, es, j);
      assert CardAfter(stuck, es[..j + 1]) != stuck;
    }
  }

  lemma {:induction false} FirstFreeing(es: seq<Event>, node: NodeId) returns (j: nat)
    requires exists e :: e in es && Frees(e, node)
    ensures j < |es| && Frees(es[j], node) && forall e :: e in es[..j] ==> !Frees(e, node)
  {
    if Frees(es[0], node) {
      j := 0;
    } else {
      assert forall e :: e in es ==> e == es[0] || e in es[1..];
      var k := FirstFreeing(es[1..], node);
      j := k + 1;
      assert es[..j] == [es[0]] + es[1..][..k];
    }
  }

  lemma {:induction false} AfterOneMore(c: Card, es: seq<Event>, j: nat)
    requires j < |es|
    ensures CardAfter(c, es[..j + 1]) == CardStep(CardAfter(c, es[..j]), es[j]).0
    decreases j
  {
    if j == 0 {
      assert es[..1][1..] == [];
    } else {
      AfterOneMore(CardStep(c, es[0]).0, es[1..], j - 1);
      assert es[..j + 1][1..] == es[1..][..j] && es[..j][1..] == es[1..][..j - 1];
    }
  }

  // ----- Exclusion -----

  /** A lease the store granted: to whom, when, and until when. */
  datatype Grant = Grant(node: NodeId, at: int, until: int)

  function GrantOf(c: Card, e: Event): (g: seq<Grant>) {
    if (e.op.Claim? || e.op.Renew?) && CardStep(c, e).1.Ok?
    then [Grant(e.op.node, e.grant, Deadline(e.grant, e.op.leaseSeconds))]
    else []
  }

  function Grants(c: Card, es: seq<Event>): (gs: seq<Grant>)
    decreases es
  {
    if es == [] then [] else GrantOf(c, es[0]) + Grants(CardStep(c, es[0]).0, es[1..])
  }

  /** Between neighbouring grants: the same node goes on, or the earlier lease had run out first. */
  ghost predicate HandsOver(g: Grant, h: Grant) {
    g.at <= h.at && (g.node == h.node || g.until < h.at)
  }

  ghost predicate Separate(gs: seq<Grant>) {
    forall i :: 0 <= i < |gs| - 1 ==> HandsOver(gs[i], gs[i + 1])
  }

  /** `g` is the last grant: it is the card's current lease, or it has run out, or the card is finished. */
  ghost predicate Accounts(c: Card, g: Grant, t: int) {
    && g.at <= t
    && (|| (c.state == CLAIMED && c.leaseExpiresAt == Some(g.until) && c.claimedBy == Some(g.node))
        || Finished(c)
        || g.until < t)
  }

  lemma {:induction false} GrantsHandOver(c: Card, es: seq<Event>, t: int, g: Grant)
    requires CardTimed(t, es) && Accounts(c, g, t)
    ensures Separate([g] + Grants(c, es))
    decreases es
  {
    if es != [] {
      var e := es[0];
      var next := CardStep(c, e).0;
      if GrantOf(c, e) == [] {
        GrantsHandOver(next, es[1..], e.grant, g);
        assert Grants(c, es) == Grants(next, es[1..]);
      } else {
        var h := GrantOf(c, e)[0];
        assert HandsOver(g, h);
        GrantsHandOver(next, es[1..], e.grant, h);
        assert [g] + Grants(c, es) == [g] + ([h] + Grants(next, es[1..]));
      }
    }
  }

  lemma {:induction false} GrantsAreSeparate(c: Card, es: seq<Event>, t: int)
    requires CardTimed(t, es)
    ensures Separate(Grants(c, es))
    decreases es
  {
    if es != [] {
      var e := es[0];
      var next := CardStep(c, e).0;
      if GrantOf(c, e) == [] {
        GrantsAreSeparate(next, es[1..], e.grant);
        assert Grants(c, es) == Grants(next, es[1..]);
      } else {
        GrantsHandOver(next, es[1..], e.grant, GrantOf(c, e)[0]);
      }
    }
  }

  /**
   Two nodes never hold a card at once: when a later grant goes to another node, the earlier
   node's lease - the last of its unbroken series of renewals - had already run out.
   */
  lemma {:induction false} HoldsDoNotOverlap(c: Card, es: seq<Event>, t: int, i: nat, j: nat) returns (k: nat)
    requires CardTimed(t, es)
    requires i < j < |Grants(c, es)| && Grants(c, es)[i].node != Grants(c, es)[j].node
    ensures i <= k < j
    ensures forall m :: i <= m <= k ==> Grants(c, es)[m].node == Grants(c, es)[i].node
    ensures Grants(c, es)[k].until < Grants(c, es)[k + 1].at <= Grants(c, es)[j].at
  {
    GrantsAreSeparate(c, es, t);
    var gs := Grants(c, es);
    k := i;
    while gs[k + 1].node == gs[i].node
      invariant i <= k < j && forall m :: i <= m <= k ==> gs[m].node == gs[i].node
      decreases j - k
    {
      assert k + 1 < j;
      k := k + 1;
    }
    assert HandsOver(gs[k], gs[k + 1]);
    GrantsInTime(gs, k + 1, j);
  }

  lemma {:induction false} GrantsInTime(gs: seq<Grant>, i: nat, j: nat)
    requires Separate(gs) && i <= j < |gs|
    ensures gs[i].at <= gs[j].at
    decreases j
  {
    if i < j {
      GrantsInTime(gs, i, j - 1);
      assert HandsOver(gs[j - 1], gs[j - 1 + 1]);
    }
  }
}
