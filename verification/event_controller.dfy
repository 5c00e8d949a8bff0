/** The slot registry: creating, listing, re-flagging and deleting a user's
    Events. Each handler is a function from the store before the request to
    the reply and the store after it. */
module EventController {
  import opened Records
  import opened Listing
  import opened Store

  /** The filter `{ owner: u }`. */
  function OwnedBy(u: UserId): Event -> bool {
    (e: Event) => e.owner == u
  }

  /** createEvent: the new Event is BUSY and owned by the caller. */
  function CreateEvent(db: Db, caller: UserId, title: string, start: int, end: int): (out: ((SlotId, Event), Db))
    ensures var (id, e) := out.0;
            && e.owner == caller && e.status == Busy
            && e.title == title && e.start == start && e.end == end
            && (WellFormed(db) ==> id !in db.events)
            && out.1.events == db.events[id := e]
            && out.1.requests == db.requests
  {
    var id := db.nextEventId;
    var event := Event(caller, title, start, end, Busy);
    ((id, event), db.(events := db.events[id := event], nextEventId := id + 1))
  }

  /** getMyEvents, with the caller as `user`, and getEventsByUser, with the
      user named in the path: that user's Events by ascending start. */
  function GetMyEvents(db: Db, user: UserId): (r: seq<(SlotId, Event)>)
    requires WellFormed(db)
    ensures forall p :: p in r <==> p.0 in db.events && p.1 == db.events[p.0] && p.1.owner == user
    ensures forall i, j :: 0 <= i < j < |r| ==> r[i].1.start <= r[j].1.start
    ensures forall i, j :: 0 <= i < j < |r| ==> r[i].0 != r[j].0
  {
    var r := SortedFind(db.events, db.nextEventId, OwnedBy(user), ByStart);
    assert forall i, j :: 0 <= i < j < |r| ==> ByStart(r[i]) <= ByStart(r[j]);
    r
  }

  /** The statuses an owner may ask for. */
  function ParseOwnerStatus(s: string): (r: Option<SlotStatus>)
    ensures r.Some? <==> s == "BUSY" || s == "SWAPPABLE"
    ensures r.Some? ==> r.value != SwapPending
  {
    if s == "BUSY" then Some(Busy)
    else if s == "SWAPPABLE" then Some(Swappable)
    else None
  }

  /** updateEventStatus: the status is validated before any lookup; then the
      event must exist, belong to the caller and not be SWAP_PENDING; only
      its status changes. */
  function UpdateEventStatus(db: Db, caller: UserId, id: SlotId, status: string): (out: (Result<Event>, Db))
    ensures out.0 == Err(InvalidStatus) <==> status != "BUSY" && status != "SWAPPABLE"
    ensures out.0 == Err(EventNotFound) <==> (status == "BUSY" || status == "SWAPPABLE") && id !in db.events
    ensures out.0 == Err(NotOwner) <==>
              (status == "BUSY" || status == "SWAPPABLE") && id in db.events && db.events[id].owner != caller
    ensures out.0 == Err(PendingSwapLocked) <==>
              && (status == "BUSY" || status == "SWAPPABLE") && id in db.events
              && db.events[id].owner == caller && db.events[id].status == SwapPending
    ensures out.0.Err? ==> out.0.failure in {InvalidStatus, EventNotFound, NotOwner, PendingSwapLocked} && out.1 == db
    ensures out.0.Ok? ==>
              && id in db.events
              && Some(out.0.value.status) == ParseOwnerStatus(status)
              && out.0.value == db.events[id].(status := out.0.value.status)
              && out.1 == db.(events := db.events[id := out.0.value])
  {
    var requested := ParseOwnerStatus(status);
    if requested.None? then (Err(InvalidStatus), db)
    else if id !in db.events then (Err(EventNotFound), db)
    else
      var event := db.events[id];
      if event.owner != caller then (Err(NotOwner), db)
      else if event.status == SwapPending then (Err(PendingSwapLocked), db)
      else
        var updated := event.(status := requested.value);
        (Ok(updated), db.(events := db.events[id := updated]))
  }

  /** deleteEvent: the event must exist, belong to the caller and be BUSY;
      then only that event is removed. */
  function DeleteEvent(db: Db, caller: UserId, id: SlotId): (out: (Result<()>, Db))
    ensures out.0 == Err(EventNotFound) <==> id !in db.events
    ensures out.0 == Err(NotOwner) <==> id in db.events && db.events[id].owner != caller
    ensures out.0 == Err(InvolvedInSwap) <==>
              id in db.events && db.events[id].owner == caller && db.events[id].status != Busy
    ensures out.0.Err? ==> out.0.failure in {EventNotFound, NotOwner, InvolvedInSwap} && out.1 == db
    ensures out.0.Ok? ==> id in db.events && db.events[id].status == Busy && out.1 == db.(events := db.events - {id})
  {
    if id !in db.events then (Err(EventNotFound), db)
    else
      var event := db.events[id];
      if event.owner != caller then (Err(NotOwner), db)
      else if event.status != Busy then (Err(InvolvedInSwap), db)
      else (Ok(()), db.(events := db.events - {id}))
  }

  /** A SWAP_PENDING slot is neither re-flagged nor deleted by anyone. */
  lemma {:induction false} PendingSlotFrozen(db: Db, caller: UserId, id: SlotId, status: string)
    requires id in db.events && db.events[id].status == SwapPending
    ensures UpdateEventStatus(db, caller, id, status).0.Err?
    ensures UpdateEventStatus(db, caller, id, status).1 == db
    ensures DeleteEvent(db, caller, id).0.Err?
    ensures DeleteEvent(db, caller, id).1 == db
  {
  }

  lemma CreateEventKeepsCoherent(db: Db, caller: UserId, title: string, start: int, end: int)
    requires Coherent(db)
    ensures Coherent(CreateEvent(db, caller, title, start, end).1)
    ensures RequestsEvolve(db, CreateEvent(db, caller, title, start, end).1)
  {
    var db' := CreateEvent(db, caller, title, start, end).1;
    forall r | r in db'.requests && db'.requests[r].status == Pending
      ensures Locks(db', db'.requests[r])
    {
      assert Locks(db, db.requests[r]);
    }
  }

  lemma UpdateEventStatusKeepsCoherent(db: Db, caller: UserId, id: SlotId, status: string)
    requires Coherent(db)
    ensures Coherent(UpdateEventStatus(db, caller, id, status).1)
    ensures RequestsEvolve(db, UpdateEventStatus(db, caller, id, status).1)
  {
    var db' := UpdateEventStatus(db, caller, id, status).1;
    forall r | r in db'.requests && db'.requests[r].status == Pending
      ensures Locks(db', db'.requests[r])
    {
      assert Locks(db, db.requests[r]);
    }
  }

  lemma DeleteEventKeepsCoherent(db: Db, caller: UserId, id: SlotId)
    requires Coherent(db)
    ensures Coherent(DeleteEvent(db, caller, id).1)
    ensures RequestsEvolve(db, DeleteEvent(db, caller, id).1)
  {
    var db' := DeleteEvent(db, caller, id).1;
    forall r | r in db'.requests && db'.requests[r].status == Pending
      ensures Locks(db', db'.requests[r])
    {
      assert Locks(db, db.requests[r]);
    }
  }
}
