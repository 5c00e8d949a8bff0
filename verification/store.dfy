/** The two collections the controllers share, as a value: Events and
    SwapRequests keyed by id, with the next id each collection hands out. */
module Store {
  import opened Records
  import opened Listing

  datatype Db = Db(
    events: map<SlotId, Event>,
    requests: map<RequestId, SwapRequest>,
    nextEventId: nat,
    nextRequestId: nat)

  /** The sort key of `.sort({ startTime: 1 })`. */
  function ByStart(p: (SlotId, Event)): int { p.1.start }

  /** Ids already handed out are below the next id of their collection. */
  ghost predicate WellFormed(db: Db) {
    IdsBelow(db.events, db.nextEventId) && IdsBelow(db.requests, db.nextRequestId)
  }

  /** A PENDING request locks its two slots: both exist, are distinct, are
      SWAP_PENDING and are still owned by the requester and the receiver. */
  ghost predicate Locks(db: Db, req: SwapRequest) {
    && req.requesterSlot in db.events && req.receiverSlot in db.events
    && req.requesterSlot != req.receiverSlot
    && db.events[req.requesterSlot].status == SwapPending
    && db.events[req.receiverSlot].status == SwapPending
    && db.events[req.requesterSlot].owner == req.requesterUser
    && db.events[req.receiverSlot].owner == req.receiverUser
  }

  /** Two requests have no slot in common. */
  predicate SlotsDisjoint(a: SwapRequest, b: SwapRequest) {
    && a.requesterSlot != b.requesterSlot && a.requesterSlot != b.receiverSlot
    && a.receiverSlot != b.requesterSlot && a.receiverSlot != b.receiverSlot
  }

  /** The store invariant every handler keeps. */
  ghost predicate Coherent(db: Db) {
    && WellFormed(db)
    && (forall r :: r in db.requests ==> db.requests[r].requesterUser != db.requests[r].receiverUser)
    && (forall r :: r in db.requests && db.requests[r].status == Pending ==> Locks(db, db.requests[r]))
    && (forall r1, r2 ::
          r1 in db.requests && r2 in db.requests && r1 != r2
          && db.requests[r1].status == Pending && db.requests[r2].status == Pending
          ==> SlotsDisjoint(db.requests[r1], db.requests[r2]))
  }

  /** The request state machine: no request disappears, and a request either
      stays as it was or goes from PENDING to ACCEPTED or REJECTED with every
      other field kept. */
  ghost predicate RequestsEvolve(db: Db, db': Db) {
    forall r :: r in db.requests ==>
      && r in db'.requests
      && (|| db'.requests[r] == db.requests[r]
          || (db.requests[r].status == Pending
              && db'.requests[r] in {db.requests[r].(status := Accepted), db.requests[r].(status := Rejected)}))
  }
}
