/** The marketplace's clash test: does a slot overlap any event of a
    schedule? Intervals are half-open, so slots that only touch do not clash. */
module CheckConflict {
  import opened Records

  /** `slot` and `event` share some instant: each starts before the other ends. */
  predicate Overlaps(slot: Event, event: Event) {
    slot.start < event.end && slot.end > event.start
  }

  /** Some event of `schedule` overlaps `slot`. */
  predicate HasConflict(slot: Event, schedule: seq<Event>) {
    exists e :: e in schedule && Overlaps(slot, e)
  }

  /** checkConflict: walks the schedule and stops at the first overlapping event. */
  method CheckConflict(slot: Event, schedule: seq<Event>) returns (conflict: bool)
    ensures conflict <==> HasConflict(slot, schedule)
    ensures schedule == [] ==> !conflict
  {
    for i := 0 to |schedule|
      invariant forall j :: 0 <= j < i ==> !Overlaps(slot, schedule[j])
    {
      var event := schedule[i];
      if slot.start < event.end && slot.end > event.start {
        assert Overlaps(slot, event) && event in schedule;
        return true;
      }
    }
    return false;
  }

  /** Overlap does not depend on which interval is the slot. */
  lemma OverlapsSymmetric(a: Event, b: Event)
    ensures Overlaps(a, b) <==> Overlaps(b, a)
  {
  }

  /** Back-to-back intervals do not overlap. */
  lemma TouchingDoesNotOverlap(a: Event, b: Event)
    requires a.end == b.start
    ensures !Overlaps(a, b) && !Overlaps(b, a)
  {
  }

  /** Reordering the schedule does not change the answer. */
  lemma {:induction false} ConflictIgnoresOrder(slot: Event, s: seq<Event>, t: seq<Event>)
    requires multiset(s) == multiset(t)
    ensures HasConflict(slot, s) <==> HasConflict(slot, t)
  {
    forall e | e in s ensures e in t {
      assert e in multiset(s);
    }
    forall e | e in t ensures e in s {
      assert e in multiset(t);
    }
  }

  /** The marketplace's own slots on offer: those flagged SWAPPABLE. */
  function MySwappableSlots(myEvents: seq<Event>): (r: seq<Event>)
    ensures forall e :: e in r <==> e in myEvents && e.status == Swappable
    ensures |r| <= |myEvents|
  {
    if myEvents == [] then []
    else
      var rest := MySwappableSlots(myEvents[1..]);
      assert forall e :: e in myEvents <==> e == myEvents[0] || e in myEvents[1..];
      if myEvents[0].status == Swappable then [myEvents[0]] + rest else rest
  }

  /** The slots the caller may offer for a target slot: their SWAPPABLE slots
      that clash with nothing in the receiver's schedule. */
  function AvailableSlots(mySlots: seq<Event>, receiverSchedule: seq<Event>): (r: seq<Event>)
    ensures forall e :: e in r <==> e in mySlots && !HasConflict(e, receiverSchedule)
    ensures |r| <= |mySlots|
  {
    if mySlots == [] then []
    else
      var rest := AvailableSlots(mySlots[1..], receiverSchedule);
      assert forall e :: e in mySlots <==> e == mySlots[0] || e in mySlots[1..];
      if !HasConflict(mySlots[0], receiverSchedule) then [mySlots[0]] + rest else rest
  }

  /** Like `Array.prototype.filter`, MySwappableSlots keeps the order and the
      repetitions of its input: it splits over concatenation. */
  lemma {:induction false} MySwappableSlotsAppend(s: seq<Event>, t: seq<Event>)
    ensures MySwappableSlots(s + t) == MySwappableSlots(s) + MySwappableSlots(t)
    decreases |s|
  {
    if s != [] {
      assert (s + t)[1..] == s[1..] + t;
      MySwappableSlotsAppend(s[1..], t);
    } else {
      assert s + t == t;
    }
  }

  /** AvailableSlots keeps the order and the repetitions of its input too. */
  lemma {:induction false} AvailableSlotsAppend(s: seq<Event>, t: seq<Event>, schedule: seq<Event>)
    ensures AvailableSlots(s + t, schedule) == AvailableSlots(s, schedule) + AvailableSlots(t, schedule)
    decreases |s|
  {
    if s != [] {
      assert (s + t)[1..] == s[1..] + t;
      AvailableSlotsAppend(s[1..], t, schedule);
    } else {
      assert s + t == t;
    }
  }

  /** Composed as the marketplace composes them: exactly the caller's
      SWAPPABLE slots that clash with nothing the receiver holds. */
  lemma OfferableSlots(myEvents: seq<Event>, receiverSchedule: seq<Event>)
    ensures forall e :: e in AvailableSlots(MySwappableSlots(myEvents), receiverSchedule) <==>
              e in myEvents && e.status == Swappable
              && forall x :: x in receiverSchedule ==> !(e.start < x.end && e.end > x.start)
  {
  }
}
