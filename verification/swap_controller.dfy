/** The swap coordinator: opening a swap between two slots, answering it,
    and the read-only views of swaps and slots. Each handler is a function
    from the store before the request to the reply and the store after it. */
module SwapController {
  import opened Records
  import opened Listing
  import opened Store

  /** The `accept` field of the request body: `true`, `false`, or any other JSON value. */
  datatype AcceptField = AcceptTrue | AcceptFalse | AcceptOther

  /** The reply to a request that passed every check: 'Swap rejected',
      'Swap accepted!', or no reply at all when `accept` is not a boolean. */
  datatype Reply = SwapRejected | SwapAccepted | NoReply

  /** The reply of getMySwapStats. */
  datatype Stats = Stats(completed: nat, rejected: nat)

  /** The reply of getMySwapRequests. */
  datatype MySwaps = MySwaps(
    incoming: seq<(RequestId, SwapRequest)>,
    outgoing: seq<(RequestId, SwapRequest)>,
    history: seq<(RequestId, SwapRequest)>)

  /** The filter `{ status: s, $or: [requester: u, receiver: u] }`. */
  function ResolvedAs(u: UserId, s: RequestStatus): SwapRequest -> bool {
    (r: SwapRequest) => r.status == s && r.Involves(u)
  }

  /** getMySwapStats: how many of the user's swaps were accepted and how many rejected. */
  function GetMySwapStats(db: Db, u: UserId): (st: Stats)
    requires WellFormed(db)
    ensures st.completed == |set k | k in db.requests && db.requests[k].status == Accepted && db.requests[k].Involves(u)|
    ensures st.rejected == |set k | k in db.requests && db.requests[k].status == Rejected && db.requests[k].Involves(u)|
  {
    var completed := Count(db.requests, db.nextRequestId, ResolvedAs(u, Accepted));
    var rejected := Count(db.requests, db.nextRequestId, ResolvedAs(u, Rejected));
    CountIsMatching(db.requests, db.nextRequestId, ResolvedAs(u, Accepted));
    CountIsMatching(db.requests, db.nextRequestId, ResolvedAs(u, Rejected));
    assert Matching(db.requests, db.nextRequestId, ResolvedAs(u, Accepted))
        == set k | k in db.requests && db.requests[k].status == Accepted && db.requests[k].Involves(u);
    assert Matching(db.requests, db.nextRequestId, ResolvedAs(u, Rejected))
        == set k | k in db.requests && db.requests[k].status == Rejected && db.requests[k].Involves(u);
    Stats(completed, rejected)
  }

  /** The filter `{ status: 'SWAPPABLE', owner: { $ne: caller } }`. */
  function ListedByOthers(caller: UserId): Event -> bool {
    (e: Event) => e.status == Swappable && e.owner != caller
  }

  /** getSwappableSlots: every SWAPPABLE slot of another user, by ascending start. */
  function GetSwappableSlots(db: Db, caller: UserId): (r: seq<(SlotId, Event)>)
    requires WellFormed(db)
    ensures forall p :: p in r <==>
              p.0 in db.events && p.1 == db.events[p.0] && p.1.status == Swappable && p.1.owner != caller
    ensures forall i, j :: 0 <= i < j < |r| ==> r[i].1.start <= r[j].1.start
    ensures forall i, j :: 0 <= i < j < |r| ==> r[i].0 != r[j].0
  {
    var r := SortedFind(db.events, db.nextEventId, ListedByOthers(caller), ByStart);
    assert forall i, j :: 0 <= i < j < |r| ==> ByStart(r[i]) <= ByStart(r[j]);
    r
  }

  function IncomingFor(u: UserId): SwapRequest -> bool {
    (r: SwapRequest) => r.status == Pending && r.receiverUser == u
  }

  function OutgoingFor(u: UserId): SwapRequest -> bool {
    (r: SwapRequest) => r.status == Pending && r.requesterUser == u
  }

  function HistoryOf(u: UserId): SwapRequest -> bool {
    (r: SwapRequest) => (r.status == Accepted || r.status == Rejected) && r.Involves(u)
  }

  /** The sort key of `.sort({ createdAt: -1 })`: newest first. */
  function NewestFirst(p: (RequestId, SwapRequest)): int { -p.1.createdAt }

  /** The `incoming` list: PENDING requests addressed to `u`, in creation order. */
  function Incoming(db: Db, u: UserId): (r: seq<(RequestId, SwapRequest)>)
    requires WellFormed(db)
    ensures forall p :: p in r <==>
              p.0 in db.requests && p.1 == db.requests[p.0] && p.1.status == Pending && p.1.receiverUser == u
    ensures forall i, j :: 0 <= i < j < |r| ==> r[i].0 < r[j].0
  {
    Scan(db.requests, db.nextRequestId, IncomingFor(u))
  }

  /** The `outgoing` list: PENDING requests sent by `u`, in creation order. */
  function Outgoing(db: Db, u: UserId): (r: seq<(RequestId, SwapRequest)>)
    requires WellFormed(db)
    ensures forall p :: p in r <==>
              p.0 in db.requests && p.1 == db.requests[p.0] && p.1.status == Pending && p.1.requesterUser == u
    ensures forall i, j :: 0 <= i < j < |r| ==> r[i].0 < r[j].0
  {
    Scan(db.requests, db.nextRequestId, OutgoingFor(u))
  }

  /** The `history` list: resolved requests involving `u`, each once, newest first. */
  function History(db: Db, u: UserId): (r: seq<(RequestId, SwapRequest)>)
    requires WellFormed(db)
    ensures forall p :: p in r <==>
              p.0 in db.requests && p.1 == db.requests[p.0]
              && (p.1.status == Accepted || p.1.status == Rejected) && p.1.Involves(u)
    ensures forall i, j :: 0 <= i < j < |r| ==> r[i].1.createdAt >= r[j].1.createdAt
    ensures forall i, j :: 0 <= i < j < |r| ==> r[i].0 != r[j].0
  {
    var r := SortedFind(db.requests, db.nextRequestId, HistoryOf(u), NewestFirst);
    assert forall i, j :: 0 <= i < j < |r| ==> NewestFirst(r[i]) <= NewestFirst(r[j]);
    r
  }

  /** getMySwapRequests: the three lists above. */
  function GetMySwapRequests(db: Db, u: UserId): (r: MySwaps)
    requires WellFormed(db)
    ensures r.incoming == Incoming(db, u) && r.outgoing == Outgoing(db, u) && r.history == History(db, u)
  {
    MySwaps(Incoming(db, u), Outgoing(db, u), History(db, u))
  }

  /** Under the store invariant the three lists of getMySwapRequests never
      share a request, and together hold every request involving the user. */
  lemma MySwapsPartition(db: Db, u: UserId)
    requires Coherent(db)
    ensures var r := GetMySwapRequests(db, u);
            && (forall p :: p in r.incoming ==> p !in r.outgoing && p !in r.history)
            && (forall p :: p in r.outgoing ==> p !in r.history)
            && (forall k :: k in db.requests && db.requests[k].Involves(u) ==>
                  var p := (k, db.requests[k]);
                  p in r.incoming || p in r.outgoing || p in r.history)
  {
  }

  /** createSwapRequest. Checks in order, the first failure winning: both
      slots exist (404), the caller owns mySlot and does not own theirSlot
      (401), both are SWAPPABLE (400). On success both slots become
      SWAP_PENDING and a PENDING request from the caller to theirSlot's owner
      is stored under a fresh id. A failure writes nothing. */
  function CreateSwapRequest(db: Db, caller: UserId, mySlotId: SlotId, theirSlotId: SlotId, now: int)
    : (out: (Result<(RequestId, SwapRequest)>, Db))
    ensures out.0 == Err(SlotNotFound) <==> mySlotId !in db.events || theirSlotId !in db.events
    ensures out.0 == Err(InvalidOwnership) <==>
              && mySlotId in db.events && theirSlotId in db.events
              && (db.events[mySlotId].owner != caller || db.events[theirSlotId].owner == caller)
    ensures out.0 == Err(NotSwappable) <==>
              && mySlotId in db.events && theirSlotId in db.events
              && db.events[mySlotId].owner == caller && db.events[theirSlotId].owner != caller
              && (db.events[mySlotId].status != Swappable || db.events[theirSlotId].status != Swappable)
    ensures out.0.Err? ==> out.0.failure in {SlotNotFound, InvalidOwnership, NotSwappable} && out.1 == db
    ensures out.0.Ok? ==>
              var (id, req) := out.0.value;
              && mySlotId != theirSlotId
              && (WellFormed(db) ==> id !in db.requests)
              && req.status == Pending && req.createdAt == now
              && req.requesterUser == caller && req.receiverUser == db.events[theirSlotId].owner
              && req.requesterSlot == mySlotId && req.receiverSlot == theirSlotId
              && out.1.requests == db.requests[id := req]
              && out.1.events == db.events[mySlotId := db.events[mySlotId].(status := SwapPending)]
                                          [theirSlotId := db.events[theirSlotId].(status := SwapPending)]
  {
    if mySlotId !in db.events || theirSlotId !in db.events then (Err(SlotNotFound), db)
    else
      var mySlot := db.events[mySlotId];
      var theirSlot := db.events[theirSlotId];
      if mySlot.owner != caller || theirSlot.owner == caller then (Err(InvalidOwnership), db)
      else if mySlot.status != Swappable || theirSlot.status != Swappable then (Err(NotSwappable), db)
      else
        var receiverUserId := theirSlot.owner;
        var request := NewSwapRequest(
          SwapRequestFields(Some(caller), Some(receiverUserId), Some(mySlotId), Some(theirSlotId), Some("PENDING")),
          now).value;
        var events := db.events[mySlotId := mySlot.(status := SwapPending)]
                               [theirSlotId := theirSlot.(status := SwapPending)];
        var id := db.nextRequestId;
        (Ok((id, request)), db.(events := events, requests := db.requests[id := request], nextRequestId := id + 1))
  }

  /** respondToSwapRequest. The request must exist (404), be addressed to the
      caller (401), still be PENDING (400) and both its slots must still
      exist (404); the slots' statuses are not re-checked. `false` rejects:
      both slots go back to SWAPPABLE. `true` accepts: the slots' owners are
      exchanged and both become BUSY. Any other `accept` writes nothing and
      sends no reply. */
  function RespondToSwapRequest(db: Db, caller: UserId, requestId: RequestId, accept: AcceptField)
    : (out: (Result<Reply>, Db))
    ensures out.0 == Err(RequestNotFound) <==> requestId !in db.requests
    ensures out.0 == Err(NotReceiver) <==>
              requestId in db.requests && db.requests[requestId].receiverUser != caller
    ensures out.0 == Err(AlreadyActioned) <==>
              && requestId in db.requests && db.requests[requestId].receiverUser == caller
              && db.requests[requestId].status != Pending
    ensures out.0 == Err(SwapSlotsMissing) <==>
              && requestId in db.requests && db.requests[requestId].receiverUser == caller
              && db.requests[requestId].status == Pending
              && (db.requests[requestId].requesterSlot !in db.events || db.requests[requestId].receiverSlot !in db.events)
    ensures out.0.Err? ==>
              out.0.failure in {RequestNotFound, NotReceiver, AlreadyActioned, SwapSlotsMissing} && out.1 == db
    ensures out.0.Ok? ==> (out.0.value == NoReply <==> accept == AcceptOther)
    ensures out.0 == Ok(NoReply) ==> out.1 == db
    ensures out.0 == Ok(SwapRejected) ==>
              var req := db.requests[requestId];
              && accept == AcceptFalse
              && out.1.requests == db.requests[requestId := req.(status := Rejected)]
              && out.1.events == db.events[req.requesterSlot := db.events[req.requesterSlot].(status := Swappable)]
                                          [req.receiverSlot := db.events[req.receiverSlot].(status := Swappable)]
              && out.1.nextEventId == db.nextEventId && out.1.nextRequestId == db.nextRequestId
    ensures out.0 == Ok(SwapAccepted) ==>
              var req := db.requests[requestId];
              var a := db.events[req.requesterSlot];
              var b := db.events[req.receiverSlot];
              && accept == AcceptTrue
              && out.1.requests == db.requests[requestId := req.(status := Accepted)]
              && out.1.events == db.events[req.requesterSlot := a.(owner := b.owner, status := Busy)]
                                          [req.receiverSlot := b.(owner := a.owner, status := Busy)]
              && out.1.nextEventId == db.nextEventId && out.1.nextRequestId == db.nextRequestId
  {
    if requestId !in db.requests then (Err(RequestNotFound), db)
    else
      var swapRequest := db.requests[requestId];
      if swapRequest.receiverUser != caller then (Err(NotReceiver), db)
      else if swapRequest.status != Pending then (Err(AlreadyActioned), db)
      else if swapRequest.requesterSlot !in db.events || swapRequest.receiverSlot !in db.events then
        (Err(SwapSlotsMissing), db)
      else
        var requesterSlot := db.events[swapRequest.requesterSlot];
        var receiverSlot := db.events[swapRequest.receiverSlot];
        match accept
        case AcceptFalse =>
          var requests := db.requests[requestId := swapRequest.(status := Rejected)];
          var events := db.events[swapRequest.requesterSlot := requesterSlot.(status := Swappable)]
                                 [swapRequest.receiverSlot := receiverSlot.(status := Swappable)];
          (Ok(SwapRejected), db.(requests := requests, events := events))
        case AcceptTrue =>
          var requesterOwner := requesterSlot.owner;
          var receiverOwner := receiverSlot.owner;
          var requests := db.requests[requestId := swapRequest.(status := Accepted)];
          var events := db.events[swapRequest.requesterSlot := requesterSlot.(owner := receiverOwner, status := Busy)]
                                 [swapRequest.receiverSlot := receiverSlot.(owner := requesterOwner, status := Busy)];
          (Ok(SwapAccepted), db.(requests := requests, events := events))
        case AcceptOther => (Ok(NoReply), db)
  }

  // ---------------------------------------------------------------------
  // The store invariant and the request state machine across the handlers

  lemma CreateSwapRequestKeepsCoherent(db: Db, caller: UserId, mySlotId: SlotId, theirSlotId: SlotId, now: int)
    requires Coherent(db)
    ensures Coherent(CreateSwapRequest(db, caller, mySlotId, theirSlotId, now).1)
    ensures RequestsEvolve(db, CreateSwapRequest(db, caller, mySlotId, theirSlotId, now).1)
  {
    var (res, db') := CreateSwapRequest(db, caller, mySlotId, theirSlotId, now);
    if res.Ok? {
      var (id, req) := res.value;
      // Both slots were SWAPPABLE, so no PENDING request held either of them.
      forall r | r in db.requests && db.requests[r].status == Pending
        ensures SlotsDisjoint(db.requests[r], req)
        ensures Locks(db', db.requests[r])
      {
        assert Locks(db, db.requests[r]);
      }
      forall r1, r2 |
        && r1 in db'.requests && r2 in db'.requests && r1 != r2
        && db'.requests[r1].status == Pending && db'.requests[r2].status == Pending
        ensures SlotsDisjoint(db'.requests[r1], db'.requests[r2])
      {
        if r1 != id && r2 != id {
          assert SlotsDisjoint(db.requests[r1], db.requests[r2]);
        }
      }
    }
  }

  lemma RespondKeepsCoherent(db: Db, caller: UserId, requestId: RequestId, accept: AcceptField)
    requires Coherent(db)
    ensures Coherent(RespondToSwapRequest(db, caller, requestId, accept).1)
    ensures RequestsEvolve(db, RespondToSwapRequest(db, caller, requestId, accept).1)
  {
    var (res, db') := RespondToSwapRequest(db, caller, requestId, accept);
    if res.Ok? && res.value != NoReply {
      var req := db.requests[requestId];
      assert Locks(db, req);
      // Another PENDING request holds neither of the two slots just released.
      forall r | r in db'.requests && db'.requests[r].status == Pending
        ensures Locks(db', db'.requests[r])
      {
        assert r != requestId;
        assert SlotsDisjoint(db.requests[r], req);
        assert Locks(db, db.requests[r]);
      }
      forall r1, r2 |
        && r1 in db'.requests && r2 in db'.requests && r1 != r2
        && db'.requests[r1].status == Pending && db'.requests[r2].status == Pending
        ensures SlotsDisjoint(db'.requests[r1], db'.requests[r2])
      {
        assert SlotsDisjoint(db.requests[r1], db.requests[r2]);
      }
    }
  }

  // ---------------------------------------------------------------------
  // Scenarios

  /** Opening a swap between slot A (owned by U1) and slot B (owned by U2)
      and accepting it leaves U2 owning A, U1 owning B, both BUSY and the
      request ACCEPTED. */
  lemma {:induction false} AcceptRoundTrip(db: Db, u1: UserId, u2: UserId, a: SlotId, b: SlotId, now: int)
    requires Coherent(db)
    requires a in db.events && db.events[a].owner == u1 && db.events[a].status == Swappable
    requires b in db.events && db.events[b].owner == u2 && db.events[b].status == Swappable
    requires u1 != u2
    ensures CreateSwapRequest(db, u1, a, b, now).0.Ok?
    ensures var (created, db1) := CreateSwapRequest(db, u1, a, b, now);
            var id := created.value.0;
            var (answer, db2) := RespondToSwapRequest(db1, u2, id, AcceptTrue);
            && answer == Ok(SwapAccepted)
            && db2.events[a] == db.events[a].(owner := u2, status := Busy)
            && db2.events[b] == db.events[b].(owner := u1, status := Busy)
            && db2.requests[id].status == Accepted
            && (forall k :: k in db.events && k != a && k != b ==> k in db2.events && db2.events[k] == db.events[k])
  {
    var (created, db1) := CreateSwapRequest(db, u1, a, b, now);
    assert created.Ok?;
  }

  /** The same two slots, rejected instead: both slots are SWAPPABLE again
      with their owners unchanged, and the request is REJECTED. */
  lemma {:induction false} RejectRoundTrip(db: Db, u1: UserId, u2: UserId, a: SlotId, b: SlotId, now: int)
    requires Coherent(db)
    requires a in db.events && db.events[a].owner == u1 && db.events[a].status == Swappable
    requires b in db.events && db.events[b].owner == u2 && db.events[b].status == Swappable
    requires u1 != u2
    ensures CreateSwapRequest(db, u1, a, b, now).0.Ok?
    ensures var (created, db1) := CreateSwapRequest(db, u1, a, b, now);
            var id := created.value.0;
            var (answer, db2) := RespondToSwapRequest(db1, u2, id, AcceptFalse);
            && answer == Ok(SwapRejected)
            && db2.events == db.events
            && db2.requests[id].status == Rejected
  {
    var (created, db1) := CreateSwapRequest(db, u1, a, b, now);
    assert created.Ok?;
    var id := created.value.0;
    var db2 := RespondToSwapRequest(db1, u2, id, AcceptFalse).1;
    assert db2.events == db.events;
  }

  /** A request is answered at most once: after an accept or a reject, a
      second answer by the same receiver fails and changes nothing. */
  lemma {:induction false} SecondResponseFails(db: Db, u: UserId, id: RequestId, first: AcceptField, second: AcceptField)
    requires RespondToSwapRequest(db, u, id, first).0 in {Ok(SwapAccepted), Ok(SwapRejected)}
    ensures var db1 := RespondToSwapRequest(db, u, id, first).1;
            RespondToSwapRequest(db1, u, id, second) == (Err(AlreadyActioned), db1)
  {
  }

  /** A SWAP_PENDING slot cannot be offered or asked for: the request fails
      and changes nothing, with 400 once the ownership check has passed. */
  lemma LockedSlotBlocksOpen(db: Db, caller: UserId, mySlotId: SlotId, theirSlotId: SlotId, now: int, x: SlotId)
    requires x in db.events && db.events[x].status == SwapPending
    requires x == mySlotId || x == theirSlotId
    ensures var (res, db') := CreateSwapRequest(db, caller, mySlotId, theirSlotId, now);
            && res.Err? && db' == db
            && (mySlotId in db.events && theirSlotId in db.events
                && db.events[mySlotId].owner == caller && db.events[theirSlotId].owner != caller
                ==> res == Err(NotSwappable))
  {
  }

  /** Two requests one after the other, the second naming either slot of the
      first on either side: the second fails and changes nothing. */
  lemma {:induction false} SecondOpenOnLockedSlotFails(
    db: Db, u1: UserId, mine1: SlotId, theirs1: SlotId, t1: int,
    u2: UserId, mine2: SlotId, theirs2: SlotId, t2: int, x: SlotId)
    requires CreateSwapRequest(db, u1, mine1, theirs1, t1).0.Ok?
    requires x == mine1 || x == theirs1
    requires x == mine2 || x == theirs2
    ensures var db1 := CreateSwapRequest(db, u1, mine1, theirs1, t1).1;
            var (res, db2) := CreateSwapRequest(db1, u2, mine2, theirs2, t2);
            && res.Err? && db2 == db1
            && (mine2 in db1.events && theirs2 in db1.events
                && db1.events[mine2].owner == u2 && db1.events[theirs2].owner != u2
                ==> res == Err(NotSwappable))
  {
    var db1 := CreateSwapRequest(db, u1, mine1, theirs1, t1).1;
    LockedSlotBlocksOpen(db1, u2, mine2, theirs2, t2, x);
  }

  // ---------------------------------------------------------------------
  // Stats across the handlers

  /** Opening a swap changes nobody's stats. */
  lemma CreateSwapRequestKeepsStats(db: Db, caller: UserId, mySlotId: SlotId, theirSlotId: SlotId, now: int, u: UserId)
    requires Coherent(db)
    ensures var db' := CreateSwapRequest(db, caller, mySlotId, theirSlotId, now).1;
            WellFormed(db') && GetMySwapStats(db', u) == GetMySwapStats(db, u)
  {
    CreateSwapRequestKeepsCoherent(db, caller, mySlotId, theirSlotId, now);
    var (res, db') := CreateSwapRequest(db, caller, mySlotId, theirSlotId, now);
    if res.Ok? {
      var (id, req) := res.value;
      CountUpdateKeeps(db.requests, db.nextRequestId, ResolvedAs(u, Accepted), id, req);
      CountUpdateKeeps(db.requests, db.nextRequestId, ResolvedAs(u, Rejected), id, req);
      CountUpdateKeeps(db.requests, db'.nextRequestId, ResolvedAs(u, Accepted), id, req);
      assert Count(db'.requests, db'.nextRequestId, ResolvedAs(u, Accepted))
          == Count(db'.requests, db.nextRequestId, ResolvedAs(u, Accepted));
    }
  }

  /** An accepted swap adds one completed swap for its two users and
      changes nothing else in anyone's stats. */
  lemma {:induction false} AcceptCountsOnce(db: Db, caller: UserId, requestId: RequestId, u: UserId)
    requires Coherent(db)
    requires RespondToSwapRequest(db, caller, requestId, AcceptTrue).0 == Ok(SwapAccepted)
    ensures var db' := RespondToSwapRequest(db, caller, requestId, AcceptTrue).1;
            var before := GetMySwapStats(db, u);
            && WellFormed(db')
            && GetMySwapStats(db', u).rejected == before.rejected
            && GetMySwapStats(db', u).completed
               == before.completed + if db.requests[requestId].Involves(u) then 1 else 0
  {
    RespondKeepsCoherent(db, caller, requestId, AcceptTrue);
    var req := db.requests[requestId];
    var req' := req.(status := Accepted);
    CountUpdateKeeps(db.requests, db.nextRequestId, ResolvedAs(u, Rejected), requestId, req');
    if req.Involves(u) {
      CountUpdateGains(db.requests, db.nextRequestId, ResolvedAs(u, Accepted), requestId, req');
    } else {
      CountUpdateKeeps(db.requests, db.nextRequestId, ResolvedAs(u, Accepted), requestId, req');
    }
  }

  /** A rejected swap adds one rejected swap for its two users and changes
      nothing else in anyone's stats. */
  lemma {:induction false} RejectCountsOnce(db: Db, caller: UserId, requestId: RequestId, u: UserId)
    requires Coherent(db)
    requires RespondToSwapRequest(db, caller, requestId, AcceptFalse).0 == Ok(SwapRejected)
    ensures var db' := RespondToSwapRequest(db, caller, requestId, AcceptFalse).1;
            var before := GetMySwapStats(db, u);
            && WellFormed(db')
            && GetMySwapStats(db', u).completed == before.completed
            && GetMySwapStats(db', u).rejected
               == before.rejected + if db.requests[requestId].Involves(u) then 1 else 0
  {
    RespondKeepsCoherent(db, caller, requestId, AcceptFalse);
    var req := db.requests[requestId];
    var req' := req.(status := Rejected);
    CountUpdateKeeps(db.requests, db.nextRequestId, ResolvedAs(u, Accepted), requestId, req');
    if req.Involves(u) {
      CountUpdateGains(db.requests, db.nextRequestId, ResolvedAs(u, Rejected), requestId, req');
    } else {
      CountUpdateKeeps(db.requests, db.nextRequestId, ResolvedAs(u, Rejected), requestId, req');
    }
  }
}
