/**
 `InMemoryCardStore`: cards that nodes claim under a lease, renew, complete or fail.
 Leases run out lazily: only when a request touches the card does the store look at the clock.
 */
module CardStore {
  import opened Collections

  datatype CardId = CardId(text: string)
  datatype NodeId = NodeId(text: string)
  datatype Json = Json(text: string)

  datatype CardState = OPEN | CLAIMED | DONE | FAILED

  datatype Card = Card(
    id: CardId,
    payload: Json,
    state: CardState,
    claimedBy: Option<NodeId>,
    leaseExpiresAt: Option<int>,
    result: Option<Json>,
    attempts: nat)

  /** Instants are microseconds since year 1, as `datetime` keeps them. */
  const SECOND := 1_000_000
  const DATETIME_MAX := 315_537_897_599_999_999

  /** What a request asks of one card. `Look` is one turn of the loop in `list_cards`. */
  datatype Op =
    | Look
    | Claim(node: NodeId, leaseSeconds: int)
    | Renew(node: NodeId, leaseSeconds: int)
    | Complete(node: NodeId, result: Option<Json>)
    | Fail(node: NodeId, result: Option<Json>)

  /** HTTP statuses 400, 404, 409, 403, 403, and the 500 of an unhandled `OverflowError`. */
  datatype Error = BadLease | NotFound | NotClaimable | NotClaimant | DoneByOther | Overflow

  datatype Reply = Ok(card: Card) | Rejected(error: Error)

  /** One request under the lock: the clock as its expiry check reads it, then as its grant reads it. */
  datatype Event = Event(op: Op, check: int, grant: int)

  // ----- One card -----

  function Expire(c: Card, now: int): (r: Card) {
    if c.state == CLAIMED && c.leaseExpiresAt.Some? && c.leaseExpiresAt.value < now
    then c.(state := OPEN, claimedBy := None, leaseExpiresAt := None)
    else c
  }

  function Deadline(grant: int, leaseSeconds: int): (t: int) {
    grant + leaseSeconds * SECOND
  }

  predicate BadRequest(op: Op) {
    (op.Claim? || op.Renew?) && op.leaseSeconds <= 0
  }

  /** What the request does to a card whose lease is up to date. A claim marks the card before it computes the lease. */
  function Act(c: Card, op: Op, grant: int): (r: (Card, Reply)) {
    match op
    case Look => (c, Ok(c))
    case Claim(node, seconds) =>
      if c.state != OPEN then (c, Rejected(NotClaimable))
      else
        var marked := c.(state := CLAIMED, claimedBy := Some(node));
        if Deadline(grant, seconds) > DATETIME_MAX then (marked, Rejected(Overflow))
        else
          var leased := marked.(leaseExpiresAt := Some(Deadline(grant, seconds)), attempts := c.attempts + 1);
          (leased, Ok(leased))
    case Renew(node, seconds) =>
      if c.state != CLAIMED || c.claimedBy != Some(node) then (c, Rejected(NotClaimant))
      else if Deadline(grant, seconds) > DATETIME_MAX then (c, Rejected(Overflow))
      else
        var leased := c.(leaseExpiresAt := Some(Deadline(grant, seconds)));
        (leased, Ok(leased))
    case Complete(node, result) =>
      if c.state == DONE then (c, if c.claimedBy == Some(node) then Ok(c) else Rejected(DoneByOther))
      else if c.state != CLAIMED || c.claimedBy != Some(node) then (c, Rejected(NotClaimant))
      else
        var finished := c.(state := DONE, result := result, leaseExpiresAt := None);
        (finished, Ok(finished))
    case Fail(node, result) =>
      if c.state != CLAIMED || c.claimedBy != Some(node) then (c, Rejected(NotClaimant))
      else
        var finished := c.(state := FAILED, result := result, leaseExpiresAt := None);
        (finished, Ok(finished))
  }

  /** The store's step on a card: refuse bad leases untouched, expire lazily, then act. */
  function CardStep(c: Card, e: Event): (r: (Card, Reply)) {
    if BadRequest(e.op) then (c, Rejected(BadLease)) else Act(Expire(c, e.check), e.op, e.grant)
  }

  // ----- The store -----

  type Cards = map<CardId, Card>

  function StoreStep(cards: Cards, id: CardId, e: Event): (r: (Cards, Reply)) {
    if BadRequest(e.op) then (cards, Rejected(BadLease))
    else if id !in cards then (cards, Rejected(NotFound))
    else
      var (c, reply) := CardStep(cards[id], e);
      (cards[id := c], reply)
  }

  /** `list_cards` after looking at the first `k` cards, the `i`-th at instant `at[i]`. */
  function Listed(cards: Cards, ids: seq<CardId>, at: seq<int>, filter: Option<CardState>, k: nat)
    : (r: (Cards, seq<Card>))
    requires k <= |ids| == |at|
  {
    if k == 0 then (cards, [])
    else
      var (before, shown) := Listed(cards, ids, at, filter, k - 1);
      var (after, reply) := StoreStep(before, ids[k - 1], Event(Look, at[k - 1], at[k - 1]));
      (after, if reply.Ok? && (filter == None || filter == Some(reply.card.state)) then shown + [reply.card] else shown)
  }

  class InMemoryCardStore {
    var cards: Cards
    const ids: seq<CardId>  // dictionary order

    ghost predicate Valid()
      reads this
    {
      NoRepeats(ids) && Elements(ids) == cards.Keys
    }

    /** The store starts with the one demonstration card, open and never attempted. */
    constructor ()
      ensures Valid()
      ensures cards == map[CardId("demo-card-1") := Card(CardId("demo-card-1"),
                        Json("{\"task\":\"simulate takeover\",\"duration_seconds\":8}"), OPEN, None, None, None, 0)]
    {
      var id := CardId("demo-card-1");
      ids := [id];
      var payload := Json("{\"task\":\"simulate takeover\",\"duration_seconds\":8}");
      cards := map[id := Card(id, payload, OPEN, None, None, None, 0)];
    }

    /** `_normalize_for_expiry` on the card in place. */
    method NormalizeForExpiry(id: CardId, now: int)
      requires Valid() && id in cards
      modifies this`cards
      ensures Valid()
      ensures cards == old(cards)[id := Expire(old(cards)[id], now)]
    {
      var card := cards[id];
      if card.state == CLAIMED && card.leaseExpiresAt.Some? && card.leaseExpiresAt.value < now {
        cards := cards[id := card.(state := OPEN, claimedBy := None, leaseExpiresAt := None)];
      }
    }

    method ListCards(filter: Option<CardState>, at: seq<int>) returns (shown: seq<Card>)
      requires Valid() && |at| == |ids|
      modifies this`cards
      ensures Valid()
      ensures cards == Listed(old(cards), ids, at, filter, |ids|).0
      ensures shown == Listed(old(cards), ids, at, filter, |ids|).1
    {
      shown := [];
      for k := 0 to |ids|
        invariant Valid()
        invariant cards == Listed(old(cards), ids, at, filter, k).0 && shown == Listed(old(cards), ids, at, filter, k).1
      {
        assert ids[k] in Elements(ids);
        NormalizeForExpiry(ids[k], at[k]);
        var card := cards[ids[k]];
        if filter == None || filter == Some(card.state) {
          shown := shown + [card];
        }
      }
    }

    method ClaimCard(id: CardId, node: NodeId, leaseSeconds: int, check: int, grant: int) returns (reply: Reply)
      requires Valid()
      modifies this`cards
      ensures Valid()
      ensures cards == StoreStep(old(cards), id, Event(Claim(node, leaseSeconds), check, grant)).0
      ensures reply == StoreStep(old(cards), id, Event(Claim(node, leaseSeconds), check, grant)).1
    {
      if leaseSeconds <= 0 {
        return Rejected(BadLease);
      }
      if id !in cards {
        return Rejected(NotFound);
      }
      NormalizeForExpiry(id, check);
      if cards[id].state != OPEN {
        return Rejected(NotClaimable);
      }
      cards := cards[id := cards[id].(state := CLAIMED, claimedBy := Some(node))];
      if Deadline(grant, leaseSeconds) > DATETIME_MAX {
        return Rejected(Overflow);
      }
      cards := cards[id := cards[id].(leaseExpiresAt := Some(Deadline(grant, leaseSeconds)))];
      cards := cards[id := cards[id].(attempts := cards[id].attempts + 1)];
      reply := Ok(cards[id]);
    }

    method RenewCard(id: CardId, node: NodeId, leaseSeconds: int, check: int, grant: int) returns (reply: Reply)
      requires Valid()
      modifies this`cards
      ensures Valid()
      ensures cards == StoreStep(old(cards), id, Event(Renew(node, leaseSeconds), check, grant)).0
      ensures reply == StoreStep(old(cards), id, Event(Renew(node, leaseSeconds), check, grant)).1
    {
      if leaseSeconds <= 0 {
        return Rejected(BadLease);
      }
      if id !in cards {
        return Rejected(NotFound);
      }
      NormalizeForExpiry(id, check);
      if cards[id].state != CLAIMED || cards[id].claimedBy != Some(node) {
        return Rejected(NotClaimant);
      }
      if Deadline(grant, leaseSeconds) > DATETIME_MAX {
        return Rejected(Overflow);
      }
      cards := cards[id := cards[id].(leaseExpiresAt := Some(Deadline(grant, leaseSeconds)))];
      reply := Ok(cards[id]);
    }

    method CompleteCard(id: CardId, node: NodeId, result: Option<Json>, check: int) returns (reply: Reply)
      requires Valid()
      modifies this`cards
      ensures Valid()
      ensures cards == StoreStep(old(cards), id, Event(Complete(node, result), check, check)).0
      ensures reply == StoreStep(old(cards), id, Event(Complete(node, result), check, check)).1
    {
      if id !in cards {
        return Rejected(NotFound);
      }
      NormalizeForExpiry(id, check);
      if cards[id].state == DONE {
        if cards[id].claimedBy == Some(node) {
          return Ok(cards[id]);
        }
        return Rejected(DoneByOther);
      }
      if cards[id].state != CLAIMED || cards[id].claimedBy != Some(node) {
        return Rejected(NotClaimant);
      }
      cards := cards[id := cards[id].(state := DONE)];
      cards := cards[id := cards[id].(result := result)];
      cards := cards[id := cards[id].(leaseExpiresAt := None)];
      reply := Ok(cards[id]);
    }

    method FailCard(id: CardId, node: NodeId, result: Option<Json>, check: int) returns (reply: Reply)
      requires Valid()
      modifies this`cards
      ensures Valid()
      ensures cards == StoreStep(old(cards), id, Event(Fail(node, result), check, check)).0
      ensures reply == StoreStep(old(cards), id, Event(Fail(node, result), check, check)).1
    {
      if id !in cards {
        return Rejected(NotFound);
      }
      NormalizeForExpiry(id, check);
      if cards[id].state != CLAIMED || cards[id].claimedBy != Some(node) {
        return Rejected(NotClaimant);
      }
      cards := cards[id := cards[id].(state := FAILED)];
      cards := cards[id := cards[id].(result := result)];
      cards := cards[id := cards[id].(leaseExpiresAt := None)];
      reply := Ok(cards[id]);
    }
  }
}
