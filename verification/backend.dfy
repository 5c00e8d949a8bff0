/** The backend as it runs: one object holding the Event and SwapRequest
    collections, whose handlers fetch records, edit their fields one by one
    and save them in turn. Each handler is proved to leave the collections
    exactly as the matching controller function says, and to keep the store
    invariant. */
module Backend {
  import opened Records
  import opened Store
  import EventController
  import SwapController

  class Database {
    var events: map<SlotId, Event>
    var requests: map<RequestId, SwapRequest>
    var nextEventId: nat
    var nextRequestId: nat

    /** The collections as a value. */
    function Snapshot(): Db
      reads this
    {
      Db(events, requests, nextEventId, nextRequestId)
    }

    ghost predicate Valid()
      reads this
    {
      Coherent(Snapshot())
    }

    constructor ()
      ensures Valid()
      ensures events == map[] && requests == map[]
    {
      events := map[];
      requests := map[];
      nextEventId := 0;
      nextRequestId := 0;
    }

    method CreateEvent(caller: UserId, title: string, start: int, end: int) returns (id: SlotId, event: Event)
      requires Valid()
      modifies this
      ensures Valid()
      ensures ((id, event), Snapshot()) == EventController.CreateEvent(old(Snapshot()), caller, title, start, end)
    {
      ghost var before := Snapshot();
      event := Event(caller, title, start, end, Busy);
      id := nextEventId;
      nextEventId := nextEventId + 1;
      events := events[id := event];
      EventController.CreateEventKeepsCoherent(before, caller, title, start, end);
    }

    method UpdateEventStatus(caller: UserId, id: SlotId, status: string) returns (res: Result<Event>)
      requires Valid()
      modifies this
      ensures Valid()
      ensures (res, Snapshot()) == EventController.UpdateEventStatus(old(Snapshot()), caller, id, status)
    {
      ghost var before := Snapshot();
      var requested := EventController.ParseOwnerStatus(status);
      if requested.None? {
        return Err(InvalidStatus);
      }
      if id !in events {
        return Err(EventNotFound);
      }
      var event := events[id];
      if event.owner != caller {
        return Err(NotOwner);
      }
      if event.status == SwapPending {
        return Err(PendingSwapLocked);
      }
      event := event.(status := requested.value);
      events := events[id := event];
      res := Ok(event);
      EventController.UpdateEventStatusKeepsCoherent(before, caller, id, status);
    }

    method DeleteEvent(caller: UserId, id: SlotId) returns (res: Result<()>)
      requires Valid()
      modifies this
      ensures Valid()
      ensures (res, Snapshot()) == EventController.DeleteEvent(old(Snapshot()), caller, id)
    {
      ghost var before := Snapshot();
      if id !in events {
        return Err(EventNotFound);
      }
      var event := events[id];
      if event.owner != caller {
        return Err(NotOwner);
      }
      if event.status != Busy {
        return Err(InvolvedInSwap);
      }
      events := events - {id};
      res := Ok(());
      EventController.DeleteEventKeepsCoherent(before, caller, id);
    }

    method CreateSwapRequest(caller: UserId, mySlotId: SlotId, theirSlotId: SlotId, now: int)
      returns (res: Result<(RequestId, SwapRequest)>)
      requires Valid()
      modifies this
      ensures Valid()
      ensures (res, Snapshot()) == SwapController.CreateSwapRequest(old(Snapshot()), caller, mySlotId, theirSlotId, now)
    {
      ghost var before := Snapshot();
      if mySlotId !in events || theirSlotId !in events {
        return Err(SlotNotFound);
      }
      var mySlot := events[mySlotId];
      var theirSlot := events[theirSlotId];
      if mySlot.owner != caller || theirSlot.owner == caller {
        return Err(InvalidOwnership);
      }
      if mySlot.status != Swappable || theirSlot.status != Swappable {
        return Err(NotSwappable);
      }
      var receiverUserId := theirSlot.owner;
      var swapRequest := NewSwapRequest(
        SwapRequestFields(Some(caller), Some(receiverUserId), Some(mySlotId), Some(theirSlotId), Some("PENDING")),
        now).value;
      mySlot := mySlot.(status := SwapPending);
      theirSlot := theirSlot.(status := SwapPending);
      events := events[mySlotId := mySlot];
      events := events[theirSlotId := theirSlot];
      var id := nextRequestId;
      nextRequestId := nextRequestId + 1;
      requests := requests[id := swapRequest];
      res := Ok((id, swapRequest));
      SwapController.CreateSwapRequestKeepsCoherent(before, caller, mySlotId, theirSlotId, now);
    }

    method RespondToSwapRequest(caller: UserId, requestId: RequestId, accept: SwapController.AcceptField)
      returns (res: Result<SwapController.Reply>)
      requires Valid()
      modifies this
      ensures Valid()
      ensures (res, Snapshot()) == SwapController.RespondToSwapRequest(old(Snapshot()), caller, requestId, accept)
    {
      ghost var before := Snapshot();
      if requestId !in requests {
        return Err(RequestNotFound);
      }
      var swapRequest := requests[requestId];
      if swapRequest.receiverUser != caller {
        return Err(NotReceiver);
      }
      if swapRequest.status != Pending {
        return Err(AlreadyActioned);
      }
      if swapRequest.requesterSlot !in events || swapRequest.receiverSlot !in events {
        return Err(SwapSlotsMissing);
      }
      var requesterSlot := events[swapRequest.requesterSlot];
      var receiverSlot := events[swapRequest.receiverSlot];
      if accept == SwapController.AcceptFalse {
        swapRequest := swapRequest.(status := Rejected);
        requesterSlot := requesterSlot.(status := Swappable);
        receiverSlot := receiverSlot.(status := Swappable);
        requests := requests[requestId := swapRequest];
        events := events[swapRequest.requesterSlot := requesterSlot];
        events := events[swapRequest.receiverSlot := receiverSlot];
        res := Ok(SwapController.SwapRejected);
      } else if accept == SwapController.AcceptTrue {
        swapRequest := swapRequest.(status := Accepted);
        var requesterOwner := requesterSlot.owner;
        var receiverOwner := receiverSlot.owner;
        requesterSlot := requesterSlot.(owner := receiverOwner);
        receiverSlot := receiverSlot.(owner := requesterOwner);
        requesterSlot := requesterSlot.(status := Busy);
        receiverSlot := receiverSlot.(status := Busy);
        requests := requests[requestId := swapRequest];
        events := events[swapRequest.requesterSlot := requesterSlot];
        events := events[swapRequest.receiverSlot := receiverSlot];
        res := Ok(SwapController.SwapAccepted);
      } else {
        res := Ok(SwapController.NoReply);
      }
      SwapController.RespondKeepsCoherent(before, caller, requestId, accept);
    }
  }
}
