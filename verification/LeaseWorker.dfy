/** The worker's side of the lease protocol: a claimant that renews in time keeps its card until it finishes it. */
module LeaseWorker {
  import opened Collections
  import opened CardStore
  import opened LeaseRuns

  predicate OwnRenewal(e: Event, node: NodeId) {
    e.op.Renew? && e.op.node == node
  }

  predicate OwnFinish(e: Event, node: NodeId) {
    (e.op.Complete? || e.op.Fail?) && e.op.node == node
  }

  /** A lease length the store accepts and can represent when it is granted at `grant`. */
  predicate Grantable(grant: int, seconds: int) {
    seconds > 0 && Deadline(grant, seconds) <= DATETIME_MAX
  }

  /**
   The requests on a card keep up with `node`'s lease: each renewal, and the finish that
   ends the work, is checked no later than the current deadline. What other nodes send in
   between is not restricted at all.
   */
  ghost predicate KeepsUp(es: seq<Event>, node: NodeId, seconds: int, deadline: int)
    decreases es
  {
    && es != []
    && var e := es[0];
       if OwnFinish(e, node) then e.check <= deadline
       else if OwnRenewal(e, node) then
         && e.check <= deadline && e.op.leaseSeconds == seconds && Grantable(e.grant, seconds)
         && KeepsUp(es[1..], node, seconds, Deadline(e.grant, seconds))
       else KeepsUp(es[1..], node, seconds, deadline)
  }

  /** Position of the claimant's finish. */
  ghost function FinishAt(es: seq<Event>, node: NodeId, seconds: int, deadline: int): (k: nat)
    requires KeepsUp(es, node, seconds, deadline)
    ensures k < |es| && OwnFinish(es[k], node)
    decreases es
  {
    if OwnFinish(es[0], node) then 0
    else if OwnRenewal(es[0], node) then 1 + FinishAt(es[1..], node, seconds, Deadline(es[0].grant, seconds))
    else 1 + FinishAt(es[1..], node, seconds, deadline)
  }

  ghost predicate Holds(c: Card, node: NodeId, deadline: int) {
    c.state == CLAIMED && c.claimedBy == Some(node) && c.leaseExpiresAt == Some(deadline)
  }

  /** How a held card answers before its claimant finishes it: the claimant is served, everyone else is refused. */
  ghost predicate AnswersHolder(e: Event, reply: Reply, node: NodeId) {
    match e.op
    case Look => reply.Ok? && reply.card.state == CLAIMED && reply.card.claimedBy == Some(node)
    case Claim(_, _) => reply == Rejected(if BadRequest(e.op) then BadLease else NotClaimable)
    case Renew(m, _) => if m == node then reply.Ok? && reply.card.claimedBy == Some(node)
                        else reply == Rejected(if BadRequest(e.op) then BadLease else NotClaimant)
    case Complete(m, _) => m != node && reply == Rejected(NotClaimant)
    case Fail(m, _) => m != node && reply == Rejected(NotClaimant)
  }

  lemma {:induction false} NotYetLate(es: seq<Event>, t: int, node: NodeId, seconds: int, deadline: int)
    requires CardTimed(t, es) && KeepsUp(es, node, seconds, deadline)
    ensures t <= deadline
    decreases es
  {
    if !OwnFinish(es[0], node) && !OwnRenewal(es[0], node) {
      NotYetLate(es[1..], es[0].grant, node, seconds, deadline);
    }
  }

  /** A punctual claimant is served at every renewal, nobody else gets the card, and its finish is accepted. */
  lemma {:induction false} PunctualClaimantFinishes(
    c: Card, es: seq<Event>, t: int, node: NodeId, seconds: int, deadline: int)
    requires Holds(c, node, deadline) && CardTimed(t, es) && KeepsUp(es, node, seconds, deadline)
    ensures var k := FinishAt(es, node, seconds, deadline);
            && (forall j :: 0 <= j < k ==> AnswersHolder(es[j], RepliesOn(c, es)[j], node))
            && RepliesOn(c, es)[k].Ok?
            && RepliesOn(c, es)[k].card.state == (if es[k].op.Complete? then DONE else FAILED)
            && RepliesOn(c, es)[k].card.claimedBy == Some(node)
            && RepliesOn(c, es)[k].card.result == es[k].op.result
            && CardAfter(c, es) == RepliesOn(c, es)[k].card
    decreases es
  {
    var e := es[0];
    var next := CardStep(c, e).0;
    var rest := RepliesOn(next, es[1..]);
    assert RepliesOn(c, es) == [CardStep(c, e).1] + rest;
    if OwnFinish(e, node) {
      FinishedStays(next, es[1..]);
    } else {
      var deadline' := if OwnRenewal(e, node) then Deadline(e.grant, seconds) else deadline;
      NotYetLate(es[1..], e.grant, node, seconds, deadline');
      PunctualClaimantFinishes(next, es[1..], e.grant, node, seconds, deadline');
      var k := FinishAt(es, node, seconds, deadline);
      forall j | 0 <= j < k ensures AnswersHolder(es[j], RepliesOn(c, es)[j], node) {
        if j > 0 { assert es[j] == es[1..][j - 1]; }
      }
    }
  }

  // ----- The renewal loop's pace -----

  /** `time.sleep(max(0.5, lease_seconds / 2))`, in microseconds. */
  function Pause(seconds: int): (r: int) {
    var half := seconds * (SECOND / 2);
    if half < SECOND / 2 then SECOND / 2 else half
  }

  /**
   The worker's own requests, as `_renew_loop` and `run_worker` send them: the renewal after a
   grant is checked one pause later plus the delay of the answer and of the next request, and
   the finish - sent once the loop has stopped - no later than such a renewal would have been.
   Every such delay is at most `slack`.
   */
  ghost predicate Paced(es: seq<Event>, node: NodeId, seconds: int, lastGrant: int, slack: int)
    decreases es
  {
    && es != []
    && var e := es[0];
       if OwnFinish(e, node) then e.check <= lastGrant + Pause(seconds) + slack
       else if OwnRenewal(e, node) then
         && lastGrant + Pause(seconds) <= e.check <= lastGrant + Pause(seconds) + slack
         && e.op.leaseSeconds == seconds && Grantable(e.grant, seconds)
         && Paced(es[1..], node, seconds, e.grant, slack)
       else Paced(es[1..], node, seconds, lastGrant, slack)
  }

  lemma {:induction false} PacedKeepsUp(es: seq<Event>, node: NodeId, seconds: int, lastGrant: int, slack: int)
    requires seconds > 0 && slack <= seconds * (SECOND / 2)
    requires Paced(es, node, seconds, lastGrant, slack)
    ensures KeepsUp(es, node, seconds, Deadline(lastGrant, seconds))
    decreases es
  {
    var e := es[0];
    if OwnFinish(e, node) {
    } else {
      PacedKeepsUp(es[1..], node, seconds, if OwnRenewal(e, node) then e.grant else lastGrant, slack);
    }
  }

  /**
   The pause leaves half a lease for delays: a worker whose claim was granted, and whose
   delays stay within half a lease, finishes the card, whatever the others send meanwhile.
   */
  lemma WorkerFinishesItsCard(
    c: Card, claim: Event, es: seq<Event>, node: NodeId, seconds: int, slack: int)
    requires claim.op == Claim(node, seconds) && claim.check <= claim.grant && CardStep(c, claim).1.Ok?
    requires slack <= seconds * (SECOND / 2)
    requires CardTimed(claim.grant, es) && Paced(es, node, seconds, claim.grant, slack)
    ensures var held := CardStep(c, claim).0;
            && KeepsUp(es, node, seconds, Deadline(claim.grant, seconds))
            && var k := FinishAt(es, node, seconds, Deadline(claim.grant, seconds));
               && (forall j :: 0 <= j < k ==> AnswersHolder(es[j], RepliesOn(held, es)[j], node))
               && RepliesOn(held, es)[k].Ok?
               && CardAfter(held, es).claimedBy == Some(node) && Finished(CardAfter(held, es))
               && CardAfter(held, es).result == es[k].op.result
  {
    var held := CardStep(c, claim).0;
    PacedKeepsUp(es, node, seconds, claim.grant, slack);
    PunctualClaimantFinishes(held, es, claim.grant, node, seconds, Deadline(claim.grant, seconds));
  }

  /** One microsecond more than half a lease is too much: another node can claim in the gap, and the finish is refused. */
  lemma HalfALeaseIsTight(c: Card, node: NodeId, other: NodeId, seconds: int, grant: int)
    requires Holds(c, node, Deadline(grant, seconds))
    requires node != other && seconds > 0
    requires Deadline(Deadline(grant, seconds) + 1, seconds) <= DATETIME_MAX
    ensures var late := grant + Pause(seconds) + seconds * (SECOND / 2) + 1;
            var es := [Event(Claim(other, seconds), late, late), Event(Complete(node, None), late, late)];
            && CardTimed(grant, es) && Paced(es, node, seconds, grant, seconds * (SECOND / 2) + 1)
            && RepliesOn(c, es)[0].Ok? && RepliesOn(c, es)[1] == Rejected(NotClaimant)
  {
    var late := grant + Pause(seconds) + seconds * (SECOND / 2) + 1;
    var e0, e1 := Event(Claim(other, seconds), late, late), Event(Complete(node, None), late, late);
    assert [e0, e1][1..] == [e1] && [e1][1..] == [];
    assert late == Deadline(grant, seconds) + 1;
    assert RepliesOn(CardStep(c, e0).0, [e1]) == [CardStep(CardStep(c, e0).0, e1).1];
  }
}
