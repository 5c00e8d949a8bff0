/** The two persisted record kinds of the slot-swap backend: an Event (a time
    slot owned by one user) and a SwapRequest, together with the SwapRequest
    schema's validation (its status enum, its default and its required
    references) and the failures the controllers answer with. */
module Records {

  type UserId = nat
  type SlotId = nat
  type RequestId = nat

  datatype Option<+T> = None | Some(value: T)

  /** Status of a slot. */
  datatype SlotStatus = Busy | Swappable | SwapPending

  /** An Event document: owner, title, start and end instants, status. */
  datatype Event = Event(owner: UserId, title: string, start: int, end: int, status: SlotStatus)

  /** Status of a swap request. */
  datatype RequestStatus = Pending | Accepted | Rejected

  /** A SwapRequest document as stored. */
  datatype SwapRequest = SwapRequest(
    requesterUser: UserId,
    receiverUser: UserId,
    requesterSlot: SlotId,
    receiverSlot: SlotId,
    status: RequestStatus,
    createdAt: int)
  {
    predicate Involves(u: UserId) { requesterUser == u || receiverUser == u }
  }

  /** Every refusal a controller answers with; `HttpStatus` gives its code. */
  datatype Failure =
    | SlotNotFound        // createSwapRequest: one or both slots not found
    | InvalidOwnership    // createSwapRequest: caller does not own mySlot, or owns theirSlot
    | NotSwappable        // createSwapRequest: a slot is not SWAPPABLE
    | RequestNotFound     // respondToSwapRequest: unknown request
    | NotReceiver         // respondToSwapRequest: caller is not the receiver
    | AlreadyActioned     // respondToSwapRequest: request is no longer PENDING
    | SwapSlotsMissing    // respondToSwapRequest: a referenced slot no longer exists
    | InvalidStatus       // updateEventStatus: requested status is neither BUSY nor SWAPPABLE
    | EventNotFound       // updateEventStatus, deleteEvent: unknown event
    | NotOwner            // updateEventStatus, deleteEvent: caller is not the owner
    | PendingSwapLocked   // updateEventStatus: event is SWAP_PENDING
    | InvolvedInSwap      // deleteEvent: event is not BUSY
    | ValidationFailed    // the SwapRequest schema refused the document, so `save` throws
  {
    function HttpStatus(): (code: int)
      ensures code in {400, 401, 404, 500}
      ensures code == 404 <==> this in {SlotNotFound, RequestNotFound, SwapSlotsMissing, EventNotFound}
      ensures code == 401 <==> this in {InvalidOwnership, NotReceiver, NotOwner}
      ensures code == 500 <==> this == ValidationFailed
    {
      match this
      case SlotNotFound | RequestNotFound | SwapSlotsMissing | EventNotFound => 404
      case InvalidOwnership | NotReceiver | NotOwner => 401
      // a rejected save lands in the handler's catch-all
      case ValidationFailed => 500
      case _ => 400
    }
  }

  datatype Result<+T> = Ok(value: T) | Err(failure: Failure)

  /** The fields a SwapRequest document is built from before validation:
      each may be missing, and the status is the raw string supplied. */
  datatype SwapRequestFields = SwapRequestFields(
    requesterUser: Option<UserId>,
    receiverUser: Option<UserId>,
    requesterSlot: Option<SlotId>,
    receiverSlot: Option<SlotId>,
    status: Option<string>)

  /** The status enum of the schema: the three accepted spellings. */
  function ParseRequestStatus(s: string): (r: Option<RequestStatus>)
    ensures r == Some(Pending) <==> s == "PENDING"
    ensures r == Some(Accepted) <==> s == "ACCEPTED"
    ensures r == Some(Rejected) <==> s == "REJECTED"
  {
    if s == "PENDING" then Some(Pending)
    else if s == "ACCEPTED" then Some(Accepted)
    else if s == "REJECTED" then Some(Rejected)
    else None
  }

  /** Schema validation of a new SwapRequest: the four references are
      required, the status must be in the enum and defaults to PENDING, and
      `createdAt` defaults to the clock reading `now`. */
  function NewSwapRequest(f: SwapRequestFields, now: int): (r: Result<SwapRequest>)
    ensures r.Ok? <==>
              && f.requesterUser.Some? && f.receiverUser.Some?
              && f.requesterSlot.Some? && f.receiverSlot.Some?
              && (f.status.None? || f.status.value in {"PENDING", "ACCEPTED", "REJECTED"})
    ensures r.Err? ==> r.failure == ValidationFailed
    ensures r.Ok? ==>
              && r.value.requesterUser == f.requesterUser.value
              && r.value.receiverUser == f.receiverUser.value
              && r.value.requesterSlot == f.requesterSlot.value
              && r.value.receiverSlot == f.receiverSlot.value
              && r.value.createdAt == now
    ensures r.Ok? && f.status.None? ==> r.value.status == Pending
    ensures r.Ok? && f.status.Some? ==> ParseRequestStatus(f.status.value) == Some(r.value.status)
  {
    if f.requesterUser.None? || f.receiverUser.None? || f.requesterSlot.None? || f.receiverSlot.None? then
      Err(ValidationFailed)
    else
      var status := if f.status.None? then Some(Pending) else ParseRequestStatus(f.status.value);
      if status.None? then Err(ValidationFailed)
      else Ok(SwapRequest(f.requesterUser.value, f.receiverUser.value,
                          f.requesterSlot.value, f.receiverSlot.value, status.value, now))
  }
}
