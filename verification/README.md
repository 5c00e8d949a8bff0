# Slotswapper: the slot-swap coordination core in Dafny

Slotswapper lets users publish time slots (Events) they own as SWAPPABLE and trade them.
A user offers one of their own SWAPPABLE slots for another user's SWAPPABLE slot. Both slots are
then locked as SWAP_PENDING under a PENDING SwapRequest. The receiver answers once:
- A rejection puts both slots back to SWAPPABLE.
- An acceptance exchanges the two slots' owners and makes both BUSY.

This project models the backend controllers that do this (`createSwapRequest`,
`respondToSwapRequest`, the Event handlers and the read-only queries), the SwapRequest schema,
and two frontend helpers: the interval-overlap test used by the marketplace and the avatar-URL
builder.

How the model is built:

- The MongoDB collections are a value `Store.Db`. It holds two maps from id to record, plus the next
  id each collection hands out. The ids stand in for ObjectIds, which grow in creation order.
- Each handler is first a pure function from the store before the request to the reply and the store
  after it (`EventController`, `SwapController`). These functions are the reference definitions. The
  lemmas about invariants, round trips and stats are stated over them.
- `Backend.Database` is the same backend written imperatively. It is a class holding the two
  collections. Its handler methods fetch records, assign their fields one by one and "save" each
  record in turn. Each method is proved to end in exactly the store the matching function computes,
  and to keep the store invariant `Store.Coherent`.
- `Store.Coherent` says:
  - every request has two different users;
  - every PENDING request's two slots exist, are distinct, are SWAP_PENDING and are still owned by its
    requester and its receiver;
  - no slot belongs to two PENDING requests.
- `Store.RequestsEvolve` is the request state machine: a request only ever goes from PENDING to
  ACCEPTED or REJECTED, and its other fields never change.
- The caller's identity, the clock reading stored as `createdAt`, and the request body fields are
  parameters.

The model follows the code as written; in particular:
- `createEvent` does not check that start < end.
- Nothing is conditional on a previously read status (compare-and-set); each handler is one
  sequential read-then-write step.
- The respond path does not re-check the two slots' statuses.
- An `accept` that is neither `true` nor `false` writes nothing and sends no reply (`Reply.NoReply`).

## Model

| member | source | states |
|---|---|---|
| Records.Failure.HttpStatus | backend/controllers/swapController.js:46-87 | Missing records answer 404, ownership failures 401, a SwapRequest the schema refuses 500 (its `save` throws into the catch-all), and every other state or input refusal 400 |
| Records.ParseRequestStatus | backend/models/SwapRequest.js:24-26 | Exactly the strings PENDING, ACCEPTED and REJECTED are accepted, each as its own status |
| Records.NewSwapRequest | backend/models/SwapRequest.js:3-33 | A document validates iff all four references are present and the status is absent or in the enum. A missing status defaults to PENDING. createdAt is always the clock reading, since no caller supplies it |
| EventController.CreateEvent | backend/controllers/eventController.js:3-15 | The new event is BUSY, is owned by the caller and carries the given title and times under a fresh id. Nothing else changes |
| EventController.GetMyEvents | backend/controllers/eventController.js:22-38 | getMyEvents (for the caller) and getEventsByUser (for the user named in the path) both return exactly that user's events, each once, by ascending start |
| EventController.ParseOwnerStatus | backend/controllers/eventController.js:43 | Only BUSY and SWAPPABLE are statuses an owner may request; SWAP_PENDING never is |
| EventController.UpdateEventStatus | backend/controllers/eventController.js:40-64 | Checks run in order: an invalid status gives 400 before any lookup, then unknown 404, not owner 401, SWAP_PENDING 400. A failure changes nothing. Success changes only that event's status |
| EventController.DeleteEvent | backend/controllers/eventController.js:70-87 | Unknown 404, not owner 401, any status but BUSY 400, each changing nothing. Success removes only that event |
| EventController.PendingSlotFrozen | backend/controllers/eventController.js:58-60 | A SWAP_PENDING slot can be neither re-flagged nor deleted, and the attempt leaves the store unchanged |
| EventController.CreateEventKeepsCoherent | backend/controllers/eventController.js:7-15 | createEvent keeps the store invariant and the request state machine |
| EventController.UpdateEventStatusKeepsCoherent | backend/controllers/eventController.js:58-63 | updateEventStatus keeps the store invariant, because locked slots are refused |
| EventController.DeleteEventKeepsCoherent | backend/controllers/eventController.js:82-86 | deleteEvent keeps the store invariant: it never removes a slot that a PENDING request needs |
| SwapController.GetMySwapStats | backend/controllers/swapController.js:4-17 | completed is the number of ACCEPTED requests the user is part of, and rejected the number of REJECTED ones |
| SwapController.GetSwappableSlots | backend/controllers/swapController.js:23-31 | Returns exactly the SWAPPABLE slots not owned by the caller, each once, by ascending start |
| SwapController.Incoming | backend/controllers/swapController.js:164-170 | Holds exactly the PENDING requests whose receiver is the user, in creation order |
| SwapController.Outgoing | backend/controllers/swapController.js:172-178 | Holds exactly the PENDING requests whose requester is the user, in creation order |
| SwapController.History | backend/controllers/swapController.js:180-191 | Holds exactly the ACCEPTED or REJECTED requests involving the user, each once, newest first |
| SwapController.GetMySwapRequests | backend/controllers/swapController.js:162-201 | The reply holds the incoming, outgoing and history lists, each exactly as its own row states |
| SwapController.MySwapsPartition | backend/controllers/swapController.js:164-186 | Under the invariant the three lists share no request, and together they cover every request involving the user |
| SwapController.CreateSwapRequest | backend/controllers/swapController.js:37-85 | Checks run in order and the first failure wins: a missing slot 404, then wrong ownership or a self-swap 401, then a slot not SWAPPABLE 400; a failure writes nothing. Success locks both slots as SWAP_PENDING and stores a PENDING request from the caller to the other slot's owner under a fresh id |
| SwapController.RespondToSwapRequest | backend/controllers/swapController.js:91-156 | Unknown 404, not the receiver 401, not PENDING 400, a slot gone 404, each writing nothing. false sets REJECTED and both slots SWAPPABLE. true sets ACCEPTED, exchanges the owners and makes both slots BUSY. Any other value writes nothing and sends no reply |
| SwapController.CreateSwapRequestKeepsCoherent | backend/controllers/swapController.js:57-78 | Opening a swap keeps the invariant: the new request's slots were SWAPPABLE, so no other PENDING request holds them |
| SwapController.RespondKeepsCoherent | backend/controllers/swapController.js:119-149 | Answering keeps the invariant, and the request goes only from PENDING to ACCEPTED or REJECTED |
| SwapController.AcceptRoundTrip | backend/tests/swap.test.js:62-93 | Opening A(U1)->B(U2) and accepting leaves U2 owning A and U1 owning B, both BUSY, the request ACCEPTED and every other slot untouched |
| SwapController.RejectRoundTrip | backend/tests/swap.test.js:97-119 | Opening and rejecting restores both slots exactly, with the same owners and SWAPPABLE, and leaves the request REJECTED |
| SwapController.SecondResponseFails | backend/controllers/swapController.js:108-110 | After an accept or a reject, a second answer fails with 400 and changes nothing |
| SwapController.LockedSlotBlocksOpen | backend/controllers/swapController.js:57-61 | A request naming a SWAP_PENDING slot on either side fails and writes nothing; if it passes the ownership check it fails with 400 |
| SwapController.SecondOpenOnLockedSlotFails | backend/controllers/swapController.js:37-89 | Once a request is opened, a second request naming either of its two slots, on either side and by any caller, fails and writes nothing; if it passes the ownership check it fails with 400 |
| SwapController.CreateSwapRequestKeepsStats | backend/controllers/swapController.js:7-15 | Opening a swap changes nobody's stats |
| SwapController.AcceptCountsOnce | backend/controllers/swapController.js:7-10 | An acceptance adds exactly one completed swap for each of its two users and none for anyone else; rejected counts are unchanged |
| SwapController.RejectCountsOnce | backend/controllers/swapController.js:12-15 | A rejection adds exactly one rejected swap for each of its two users and none for anyone else; completed counts are unchanged |
| Backend.Database.CreateEvent | backend/controllers/eventController.js:7-15 | The imperative handler builds the BUSY event and saves it, ending exactly in EventController.CreateEvent's store and keeping the invariant |
| Backend.Database.UpdateEventStatus | backend/controllers/eventController.js:40-64 | The imperative handler ends exactly in EventController.UpdateEventStatus's reply and store, keeping the invariant |
| Backend.Database.DeleteEvent | backend/controllers/eventController.js:70-87 | The imperative handler ends exactly in EventController.DeleteEvent's reply and store, keeping the invariant |
| Backend.Database.CreateSwapRequest | backend/controllers/swapController.js:37-85 | Assigning both statuses and then saving mySlot, theirSlot and the request ends exactly in SwapController.CreateSwapRequest's reply and store, keeping the invariant |
| Backend.Database.RespondToSwapRequest | backend/controllers/swapController.js:91-156 | The field-by-field edits and the three saves in turn end exactly in SwapController.RespondToSwapRequest's reply and store, keeping the invariant |
| CheckConflict.CheckConflict | frontend/src/utils/checkConflict.js:1-16 | The early-return loop answers true iff some event of the schedule overlaps the slot; an empty schedule gives false |
| CheckConflict.OverlapsSymmetric | frontend/src/utils/checkConflict.js:11 | The strict overlap test is symmetric in slot and event |
| CheckConflict.TouchingDoesNotOverlap | frontend/src/utils/checkConflict.js:11 | Intervals that only touch (one ends where the other starts) do not overlap |
| CheckConflict.ConflictIgnoresOrder | frontend/src/utils/checkConflict.js:5-15 | The answer does not depend on the order of the schedule |
| CheckConflict.MySwappableSlots | frontend/src/pages/Marketplace.jsx:42 | Keeps exactly the caller's events that are SWAPPABLE |
| CheckConflict.AvailableSlots | frontend/src/pages/Marketplace.jsx:102-107 | Keeps exactly the offered slots that clash with nothing in the receiver's schedule |
| CheckConflict.MySwappableSlotsAppend | frontend/src/pages/Marketplace.jsx:42 | The filter splits over concatenation, so it keeps the input's order and repetitions as `filter` does |
| CheckConflict.AvailableSlotsAppend | frontend/src/pages/Marketplace.jsx:102-107 | The filter splits over concatenation, so it keeps the input's order and repetitions as `filter` does |
| CheckConflict.OfferableSlots | frontend/src/pages/Marketplace.jsx:42-107 | Composed, the marketplace offers exactly the caller's SWAPPABLE slots that overlap no event of the receiver under the strict test |
| Avatar.ReplaceFirstSpace | frontend/src/utils/getAvatarUrl.js:3 | Same length; exactly the first space becomes '+', and every other character is kept |
| Avatar.ReplaceFirstSpaceSplit | frontend/src/utils/getAvatarUrl.js:3 | With the first space at k, the result is the text before k, then '+', then the rest unchanged, later spaces included |
| Avatar.ReplaceFirstSpaceNoSpace | frontend/src/utils/getAvatarUrl.js:3 | A string without spaces is unchanged |
| Avatar.GetAvatarUrl | frontend/src/utils/getAvatarUrl.js:1-5 | The result is empty iff the name is missing or empty; otherwise it is the fixed prefix, then the sanitized name, then the fixed suffix |
| Avatar.AvatarUrlOfPlainName | frontend/src/utils/getAvatarUrl.js:2-4 | A non-empty name without spaces is embedded verbatim between the prefix and the suffix |

## Left out

- MongoDB persistence: `findById`, `save`, `countDocuments`, `populate`, `remove` and their `async` handling. The collections are in-memory maps. The 500 "Server error" paths are database failures and are not modelled. Neither are ids that fail to parse as ObjectIds, which also end in 500.
- `populate`: query results carry the stored records with their ids, not the joined user names and slot documents.
- Concurrency: each handler is one atomic step of a sequential state machine. The interleavings the source allows between its reads and its saves, and a save failing half-way through a handler, are not modelled.
- Socket.io notifications (`newSwapRequest`, `swapResponse`): fire-and-forget I/O with no effect on the store.
- Server bootstrap, routes, the auth middleware and the UI: the caller's identity is a parameter.
- The Event schema is not part of this model. Its own validation is therefore left out, and with it the 400 that `createEvent` answers when that validation throws. The controller itself checks nothing, not even start < end.
- Time: instants are integers. Date parsing and formatting are left out, and `createdAt` is the clock reading passed in as `now`.
- Request bodies: `status` for updateEventStatus is taken as a string, so non-string JSON values are not modelled. `accept` is `true`, `false` or "anything else".
- getAvatarUrl: non-string names, whose `replace` call would throw, are not modelled; a missing name covers `undefined` and `null`.
- SwapController.Incoming: the order of `incoming` (and of SwapController.Outgoing's `outgoing`) is stated as creation (id) order, MongoDB's natural order, which the database does not strictly promise.
- EventController.GetMyEvents: MongoDB does not fix the order of equal start times. The contract states only ascending start, although the model's insertion sort does fix one order. The same holds for getEventsByUser, GetSwappableSlots, and the createdAt order of SwapController.History.
