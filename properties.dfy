/**
 * Properties relating the handlers to each other and to the read-only
 * listings: what accepting and rejecting do to the two slots, that accepting
 * only moves slots between their owners, how a request shows up in and
 * leaves the listings, the guards the handlers do not have, and one
 * negotiation from start to end.
 */
module HandlerProperties {
  import opened Models
  import opened Handlers
  import opened PendingInvariant

  /** The ids of the events `user` owns. */
  function OwnedBy(events: map<int, Event>, user: int): (ids: set<int>)
  {
    set id | id in events && events[id].owner == user
  }

  /** Accepting: the two slots exchange owners and become BUSY; nothing else about them changes. */
  lemma AcceptExchangesOwners(s: Store, requestId: int, caller: int)
    requires SwapResponse(s, requestId, true, caller).result.Ok?
    ensures var q := s.requests[requestId];
      var e := SwapResponse(s, requestId, true, caller).after.events;
      && e[q.mySlot] == s.events[q.mySlot].(owner := s.events[q.theirSlot].owner, status := Busy)
      && e[q.theirSlot] == s.events[q.theirSlot].(owner := s.events[q.mySlot].owner, status := Busy)
      && SwapResponse(s, requestId, true, caller).after.requests[requestId].status == Accepted
  {
  }

  /** Rejecting: the two slots become SWAPPABLE and keep their owners. */
  lemma RejectRestoresSwappable(s: Store, requestId: int, caller: int)
    requires SwapResponse(s, requestId, false, caller).result.Ok?
    ensures var q := s.requests[requestId];
      var e := SwapResponse(s, requestId, false, caller).after.events;
      && e[q.mySlot] == s.events[q.mySlot].(status := Swappable)
      && e[q.theirSlot] == s.events[q.theirSlot].(status := Swappable)
      && SwapResponse(s, requestId, false, caller).after.requests[requestId].status == Rejected
  {
  }

  /**
   * Accepting never creates or destroys a slot of anyone's: every user owns
   * as many events afterwards as before (the multiset of owners is kept).
   */
  lemma {:induction false} AcceptPreservesOwnerCounts(s: Store, requestId: int, caller: int, user: int)
    requires SwapResponse(s, requestId, true, caller).result.Ok?
    ensures |OwnedBy(SwapResponse(s, requestId, true, caller).after.events, user)| == |OwnedBy(s.events, user)|
  {
    var q := s.requests[requestId];
    var m, t := q.mySlot, q.theirSlot;
    var e := SwapResponse(s, requestId, true, caller).after.events;
    AcceptExchangesOwners(s, requestId, caller);
    var a, b := s.events[m].owner, s.events[t].owner;
    var before, after := OwnedBy(s.events, user), OwnedBy(e, user);
    if m == t || (a == user) == (b == user) {
      assert after == before;
    } else if a == user {
      assert after == (before - {m}) + {t};
      RemoveOneAddOne(before, m, t);
    } else {
      assert after == (before - {t}) + {m};
      RemoveOneAddOne(before, t, m);
    }
  }

  lemma RemoveOneAddOne(a: set<int>, x: int, y: int)
    requires x in a && y !in a
    ensures |(a - {x}) + {y}| == |a|
  {
  }

  /** After accepting, each party finds the other's former slot among their own events. */
  lemma AcceptMovesSlotsBetweenOwners(s: Store, requestId: int, caller: int)
    requires SwapResponse(s, requestId, true, caller).result.Ok?
    ensures var q := s.requests[requestId];
      var after := SwapResponse(s, requestId, true, caller).after;
      && q.mySlot in MyEvents(after, s.events[q.theirSlot].owner)
      && q.theirSlot in MyEvents(after, s.events[q.mySlot].owner)
  {
  }

  /**
   * A second acceptance of the same request is not refused: it exchanges the
   * owners again, so the slots go back to where they were before the first.
   */
  lemma DoubleAcceptSwapsBack(s: Store, requestId: int, caller: int)
    requires SwapResponse(s, requestId, true, caller).result.Ok?
    ensures var once := SwapResponse(s, requestId, true, caller);
      var twice := SwapResponse(once.after, requestId, true, caller);
      var q := s.requests[requestId];
      && twice.result == Ok(Accepted)
      && twice.after.events[q.mySlot].owner == s.events[q.mySlot].owner
      && twice.after.events[q.theirSlot].owner == s.events[q.theirSlot].owner
  {
  }

  /** The reply to a response does not depend on the request's current status. */
  lemma ResponseIgnoresRequestStatus(s: Store, requestId: int, accept: bool, caller: int, st: SwapStatus)
    requires requestId in s.requests
    ensures var s' := s.(requests := s.requests[requestId := s.requests[requestId].(status := st)]);
      SwapResponse(s', requestId, accept, caller).result == SwapResponse(s, requestId, accept, caller).result
  {
  }

  /** A slot may be offered in exchange for itself; the caller is then its own responder. */
  lemma SelfSwapAccepted(s: Store, rid: int, slot: int, caller: int, now: Timestamp)
    requires rid !in s.requests
    requires slot in s.events && s.events[slot].owner == caller && s.events[slot].status == Swappable
    ensures CreateSwapRequest(s, rid, slot, slot, caller, now).result == Ok(rid)
    ensures CreateSwapRequest(s, rid, slot, slot, caller, now).after.requests[rid].responder == caller
  {
  }

  /** The target slot may belong to the caller too, although swappable_slots would never list it. */
  lemma OwnTargetAccepted(s: Store, rid: int, mySlot: int, theirSlot: int, caller: int, now: Timestamp)
    requires rid !in s.requests
    requires mySlot in MyEvents(s, caller) && theirSlot in MyEvents(s, caller)
    requires s.events[mySlot].status == Swappable && s.events[theirSlot].status == Swappable
    ensures CreateSwapRequest(s, rid, mySlot, theirSlot, caller, now).result == Ok(rid)
    ensures theirSlot !in SwappableSlots(s, caller)
  {
  }

  /** Every listed swappable slot can be asked for with any SWAPPABLE slot of the caller's own. */
  lemma SwappableSlotIsRequestable(s: Store, rid: int, mySlot: int, theirSlot: int, caller: int, now: Timestamp)
    requires rid !in s.requests
    requires theirSlot in SwappableSlots(s, caller)
    requires mySlot in MyEvents(s, caller) && s.events[mySlot].status == Swappable
    ensures CreateSwapRequest(s, rid, mySlot, theirSlot, caller, now).result == Ok(rid)
  {
  }

  /**
   * After a successful create_swap_request the request is in the requester's
   * outgoing and the responder's incoming list, and neither slot is offered
   * to anyone any more.
   */
  lemma CreatedRequestIsListed(s: Store, rid: int, mySlot: int, theirSlot: int, caller: int, now: Timestamp, anyone: int)
    requires rid !in s.requests
    requires CreateSwapRequest(s, rid, mySlot, theirSlot, caller, now).result.Ok?
    ensures var after := CreateSwapRequest(s, rid, mySlot, theirSlot, caller, now).after;
      && rid in OutgoingRequests(after, caller)
      && rid in IncomingRequests(after, s.events[theirSlot].owner)
      && mySlot !in SwappableSlots(after, anyone)
      && theirSlot !in SwappableSlots(after, anyone)
  {
  }

  /**
   * While a slot stays SWAP_PENDING, every create_swap_request naming it
   * fails and changes nothing: the SWAPPABLE check is the only gate.
   */
  lemma PendingSlotBlocksCreate(s: Store, rid: int, mySlot: int, theirSlot: int, caller: int, now: Timestamp)
    requires rid !in s.requests
    requires (mySlot in s.events && s.events[mySlot].status == SwapPending)
          || (theirSlot in s.events && s.events[theirSlot].status == SwapPending)
    ensures CreateSwapRequest(s, rid, mySlot, theirSlot, caller, now).result.Err?
    ensures CreateSwapRequest(s, rid, mySlot, theirSlot, caller, now).after == s
  {
  }

  /** A second create_swap_request naming a slot of the first one is refused as BadRequest. */
  lemma SecondCreateRefused(s: Store, r1: int, r2: int, mySlot: int, theirSlot: int, caller: int,
                                               slotA: int, slotB: int, caller2: int, now: Timestamp)
    requires r1 !in s.requests && r1 != r2 && r2 !in s.requests
    requires CreateSwapRequest(s, r1, mySlot, theirSlot, caller, now).result.Ok?
    requires slotA == mySlot || slotA == theirSlot || slotB == mySlot || slotB == theirSlot
    requires slotA in s.events && slotB in s.events && s.events[slotA].owner == caller2
    ensures var s1 := CreateSwapRequest(s, r1, mySlot, theirSlot, caller, now).after;
      CreateSwapRequest(s1, r2, slotA, slotB, caller2, now).result == Err(BadRequest)
  {
  }

  /**
   * Under the negotiation invariant, every request in the caller's incoming
   * list can be answered, and once answered it leaves that list.
   */
  lemma IncomingIsAnswerable(s: Store, requestId: int, accept: bool, caller: int)
    requires PendingConsistent(s)
    requires requestId in IncomingRequests(s, caller)
    ensures SwapResponse(s, requestId, accept, caller).result.Ok?
    ensures requestId !in IncomingRequests(SwapResponse(s, requestId, accept, caller).after, caller)
    ensures requestId in OutgoingRequests(SwapResponse(s, requestId, accept, caller).after, s.requests[requestId].requester)
  {
  }

  /** Every request in someone's incoming list is in its requester's outgoing list. */
  lemma IncomingIsOutgoingOfRequester(s: Store, caller: int, id: int)
    requires id in IncomingRequests(s, caller)
    ensures id in OutgoingRequests(s, s.requests[id].requester)
    ensures OutgoingRequests(s, s.requests[id].requester)[id] == IncomingRequests(s, caller)[id]
  {
  }

  /**
   * The whole negotiation: user 1 offers slot 1 (09:00-10:00), user 2 offers
   * slot 2 (14:00-15:00); user 1 asks for slot 2, user 2 accepts. The slots
   * change hands, both are BUSY, the request is ACCEPTED and user 1 is told.
   */
  lemma AcceptedSwapScenario()
    ensures
      var s1 := CreateEvent(Store(map[], map[]), 1, 1, "A", 900, 1000);
      var s2 := UpdateEventStatus(s1, 1, "SWAPPABLE", 1).after;
      var s3 := CreateEvent(s2, 2, 2, "B", 1400, 1500);
      var s4 := UpdateEventStatus(s3, 2, "SWAPPABLE", 2).after;
      var create := CreateSwapRequest(s4, 7, 1, 2, 1, 800);
      var respond := SwapResponse(create.after, 7, true, 2);
      && create.result == Ok(7)
      && create.after.events[1].status == SwapPending && create.after.events[2].status == SwapPending
      && create.sent == [Notification(2, RequestReceived)]
      && respond.result == Ok(Accepted)
      && respond.after.events[1].owner == 2 && respond.after.events[2].owner == 1
      && respond.after.events[1].status == Busy && respond.after.events[2].status == Busy
      && respond.after.requests[7].status == Accepted
      && respond.sent == [Notification(1, RequestAccepted)]
  {
  }
}
