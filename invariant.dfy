/**
 * The negotiation invariant: an event is SWAP_PENDING exactly when one
 * PENDING swap request names it (as either slot), and otherwise no PENDING
 * request names it; every PENDING request names two existing events.
 *
 * The handlers keep it only conditionally: create_event, create_swap_request,
 * delete_event and a response to a request that is still PENDING preserve it,
 * and so does a status update that neither enters nor leaves SWAP_PENDING.
 * The counterexamples at the end show that the unrestricted status
 * update (into or out of SWAP_PENDING) and a second response to the same request do not; the last lemma
 * shows that a repeated response can crash even though the invariant holds.
 */
module PendingInvariant {
  import opened Models
  import opened Handlers

  /** Does request `q` name event `eid` while it is still PENDING? */
  predicate HoldsSlot(q: SwapRequest, eid: int)
  {
    q.status == Pending && (q.mySlot == eid || q.theirSlot == eid)
  }

  /** The ids of the PENDING requests that name event `eid`. */
  function PendingRefs(requests: map<int, SwapRequest>, eid: int): (refs: set<int>)
  {
    set rid | rid in requests && HoldsSlot(requests[rid], eid)
  }

  ghost predicate PendingConsistent(s: Store)
  {
    && (forall eid :: eid in s.events ==>
          |PendingRefs(s.requests, eid)| == if s.events[eid].status == SwapPending then 1 else 0)
    && (forall rid :: rid in s.requests && s.requests[rid].status == Pending ==>
          s.requests[rid].mySlot in s.events && s.requests[rid].theirSlot in s.events)
  }

  /** The invariant in its usual form: SWAP_PENDING iff exactly one PENDING request names the event. */
  lemma PendingIffExactlyOne(s: Store, eid: int)
    requires PendingConsistent(s) && eid in s.events
    ensures s.events[eid].status == SwapPending <==> |PendingRefs(s.requests, eid)| == 1
  {
  }

  /** Two different PENDING requests never share a slot. */
  lemma AtMostOnePendingPerSlot(s: Store, r1: int, r2: int, eid: int)
    requires PendingConsistent(s)
    requires r1 in s.requests && r2 in s.requests && r1 != r2
    requires HoldsSlot(s.requests[r1], eid)
    ensures !HoldsSlot(s.requests[r2], eid)
  {
    if HoldsSlot(s.requests[r2], eid) {
      assert eid in s.events;
      TwoMembers(PendingRefs(s.requests, eid), r1, r2);
    }
  }

  lemma SubsetCardinality(a: set<int>, b: set<int>)
    requires a <= b
    ensures |a| <= |b|
  {
    assert b == a + (b - a);
  }

  lemma TwoMembers(a: set<int>, x: int, y: int)
    requires x in a && y in a && x != y
    ensures |a| >= 2
  {
    assert |{x, y}| == 2;
    SubsetCardinality({x, y}, a);
  }

  /** Replacing one request changes the pending references by at most that id. */
  lemma PendingRefsAfterWrite(requests: map<int, SwapRequest>, rid: int, q: SwapRequest, eid: int)
    ensures PendingRefs(requests[rid := q], eid) ==
      (PendingRefs(requests, eid) - {rid}) + (if HoldsSlot(q, eid) then {rid} else {})
  {
  }

  /** Under the invariant, no PENDING request names an id that is not an event. */
  lemma NoPendingRefs(s: Store, eid: int)
    requires PendingConsistent(s) && eid !in s.events
    ensures PendingRefs(s.requests, eid) == {}
  {
    forall rid | rid in PendingRefs(s.requests, eid) ensures false {
    }
  }

  lemma {:induction false} CreateEventPreserves(s: Store, id: int, caller: int, title: string, start: Timestamp, end: Timestamp)
    requires PendingConsistent(s) && id !in s.events
    ensures PendingConsistent(CreateEvent(s, id, caller, title, start, end))
  {
    NoPendingRefs(s, id);
  }

  /**
   * A status update keeps the invariant provided that, when it succeeds, it
   * does not move the event into or out of SWAP_PENDING; a failed update
   * changes nothing.
   */
  lemma UpdateEventStatusPreserves(s: Store, eventId: int, status: string, caller: int)
    requires PendingConsistent(s)
    requires UpdateEventStatus(s, eventId, status, caller).result.Ok? ==>
      (s.events[eventId].status == SwapPending <==> status == EventStatusValue(SwapPending))
    ensures PendingConsistent(UpdateEventStatus(s, eventId, status, caller).after)
  {
  }

  lemma {:induction false} CreateSwapRequestPreserves(s: Store, rid: int, mySlot: int, theirSlot: int, caller: int, now: Timestamp)
    requires PendingConsistent(s) && rid !in s.requests
    ensures PendingConsistent(CreateSwapRequest(s, rid, mySlot, theirSlot, caller, now).after)
  {
    var r := CreateSwapRequest(s, rid, mySlot, theirSlot, caller, now);
    if r.result.Ok? {
      forall eid | eid in r.after.events
        ensures |PendingRefs(r.after.requests, eid)| == if r.after.events[eid].status == SwapPending then 1 else 0
      {
        CreateSwapRequestRefs(s, rid, mySlot, theirSlot, caller, now, eid);
      }
    }
  }

  /** The pending references of one event after a successful create_swap_request. */
  lemma CreateSwapRequestRefs(s: Store, rid: int, mySlot: int, theirSlot: int, caller: int, now: Timestamp, eid: int)
    requires PendingConsistent(s) && rid !in s.requests
    requires CreateSwapRequest(s, rid, mySlot, theirSlot, caller, now).result.Ok?
    requires eid in s.events
    ensures var after := CreateSwapRequest(s, rid, mySlot, theirSlot, caller, now).after;
      |PendingRefs(after.requests, eid)| == if after.events[eid].status == SwapPending then 1 else 0
  {
    var after := CreateSwapRequest(s, rid, mySlot, theirSlot, caller, now).after;
    var q := after.requests[rid];
    assert after.requests == s.requests[rid := q];
    PendingRefsAfterWrite(s.requests, rid, q, eid);
    if eid == mySlot || eid == theirSlot {
      assert PendingRefs(s.requests, eid) == {};
      assert PendingRefs(after.requests, eid) == {rid};
    } else {
      assert PendingRefs(after.requests, eid) == PendingRefs(s.requests, eid);
    }
  }

  /** Answering a request that is still PENDING keeps the invariant. */
  lemma {:induction false} SwapResponsePreserves(s: Store, requestId: int, accept: bool, caller: int)
    requires PendingConsistent(s)
    requires requestId in s.requests ==> s.requests[requestId].status == Pending
    ensures PendingConsistent(SwapResponse(s, requestId, accept, caller).after)
  {
    var r := SwapResponse(s, requestId, accept, caller);
    if r.result.Ok? {
      var q := s.requests[requestId];
      var q' := r.after.requests[requestId];
      assert !HoldsSlot(q', q.mySlot) && !HoldsSlot(q', q.theirSlot);
      forall eid | eid in r.after.events
        ensures |PendingRefs(r.after.requests, eid)| == if r.after.events[eid].status == SwapPending then 1 else 0
      {
        PendingRefsAfterWrite(s.requests, requestId, q', eid);
        if eid == q.mySlot || eid == q.theirSlot {
          OnlyPendingRef(s, requestId, eid);
          assert PendingRefs(r.after.requests, eid) == {};
          assert r.after.events[eid].status != SwapPending by {
            SwapResponseSlots(s, requestId, accept, caller, eid);
          }
        } else {
          assert requestId !in PendingRefs(s.requests, eid);
          assert PendingRefs(r.after.requests, eid) == PendingRefs(s.requests, eid);
          assert r.after.events[eid] == s.events[eid];
        }
      }
    }
  }

  /** Under the invariant, a PENDING request is the single pending reference of each of its slots. */
  lemma OnlyPendingRef(s: Store, rid: int, eid: int)
    requires PendingConsistent(s)
    requires rid in s.requests && HoldsSlot(s.requests[rid], eid)
    ensures eid in s.events && s.events[eid].status == SwapPending
    ensures PendingRefs(s.requests, eid) == {rid}
  {
    var refs := PendingRefs(s.requests, eid);
    assert rid in refs;
    assert |refs| == 1;
    assert refs - {rid} == {} by {
      if x :| x in refs - {rid} {
        TwoMembers(refs, rid, x);
      }
    }
  }

  /** After a successful response, both of the request's slots are BUSY or SWAPPABLE. */
  lemma SwapResponseSlots(s: Store, requestId: int, accept: bool, caller: int, eid: int)
    requires SwapResponse(s, requestId, accept, caller).result.Ok?
    requires eid == s.requests[requestId].mySlot || eid == s.requests[requestId].theirSlot
    ensures eid in SwapResponse(s, requestId, accept, caller).after.events
    ensures SwapResponse(s, requestId, accept, caller).after.events[eid].status == if accept then Busy else Swappable
  {
  }

  lemma {:induction false} DeleteEventPreserves(s: Store, eventId: int, caller: int)
    requires PendingConsistent(s)
    ensures PendingConsistent(DeleteEvent(s, eventId, caller).after)
  {
    var r := DeleteEvent(s, eventId, caller);
    if r.result.Ok? {
      assert PendingRefs(s.requests, eventId) == {};
      forall rid | rid in r.after.requests && r.after.requests[rid].status == Pending
        ensures r.after.requests[rid].mySlot in r.after.events && r.after.requests[rid].theirSlot in r.after.events
      {
        assert rid !in PendingRefs(s.requests, eventId);
      }
    }
  }

  /**
   * Counterexample: setting an event's status to SWAP_PENDING by hand, which
   * update_event_status allows, breaks the invariant.
   */
  lemma UpdateEventStatusCanBreak()
    ensures var s := Store(map[1 := Event(7, "standup", 900, 1000, Busy)], map[]);
      && PendingConsistent(s)
      && UpdateEventStatus(s, 1, "SWAP_PENDING", 7).result.Ok?
      && !PendingConsistent(UpdateEventStatus(s, 1, "SWAP_PENDING", 7).after)
  {
  }

  /**
   * Counterexample: moving an event out of SWAP_PENDING by hand, which
   * update_event_status also allows, leaves its PENDING request naming a
   * slot that is no longer SWAP_PENDING.
   */
  lemma UpdateEventStatusCanLeavePending()
    ensures var s := Store(
        map[1 := Event(7, "a", 900, 1000, SwapPending),
            2 := Event(8, "b", 1400, 1500, SwapPending)],
        map[5 := SwapRequest(7, 8, 1, 2, Pending, 0)]);
      && PendingConsistent(s)
      && UpdateEventStatus(s, 1, "BUSY", 7).result.Ok?
      && !PendingConsistent(UpdateEventStatus(s, 1, "BUSY", 7).after)
  {
    var s := Store(
        map[1 := Event(7, "a", 900, 1000, SwapPending),
            2 := Event(8, "b", 1400, 1500, SwapPending)],
        map[5 := SwapRequest(7, 8, 1, 2, Pending, 0)]);
    assert PendingRefs(s.requests, 1) == {5};
    assert PendingRefs(s.requests, 2) == {5};
    var after := UpdateEventStatus(s, 1, "BUSY", 7).after;
    assert 5 in PendingRefs(after.requests, 1);
  }

  /**
   * Counterexample: a second response to a request that was already
   * REJECTED resets its slot to SWAPPABLE while a newer PENDING request
   * still holds that slot.
   */
  lemma SecondResponseCanBreak()
    ensures var s := Store(
        map[1 := Event(10, "a", 900, 1000, SwapPending),
            2 := Event(20, "b", 1400, 1500, Swappable),
            3 := Event(30, "c", 1100, 1200, SwapPending)],
        map[100 := SwapRequest(10, 20, 1, 2, Rejected, 0),
            101 := SwapRequest(30, 10, 3, 1, Pending, 5)]);
      && PendingConsistent(s)
      && SwapResponse(s, 100, false, 20).result == Ok(Rejected)
      && !PendingConsistent(SwapResponse(s, 100, false, 20).after)
  {
    var s := Store(
        map[1 := Event(10, "a", 900, 1000, SwapPending),
            2 := Event(20, "b", 1400, 1500, Swappable),
            3 := Event(30, "c", 1100, 1200, SwapPending)],
        map[100 := SwapRequest(10, 20, 1, 2, Rejected, 0),
            101 := SwapRequest(30, 10, 3, 1, Pending, 5)]);
    assert PendingRefs(s.requests, 1) == {101};
    assert PendingRefs(s.requests, 2) == {};
    assert PendingRefs(s.requests, 3) == {101};
    var r := SwapResponse(s, 100, false, 20);
    assert r.after.events[1].status == Swappable;
    assert 101 in PendingRefs(r.after.requests, 1);
  }

  /**
   * The invariant does not keep swap_response from crashing: it speaks only of
   * PENDING requests, and a repeated response to an ACCEPTED one whose slot
   * has since been deleted still dereferences the missing slot. Reachable
   * from the empty store: users 10 and 20 each offer a slot, 10 asks for
   * 20's, 20 accepts, 10 deletes the slot that is now theirs, 20 answers again.
   */
  lemma StaleResponseCanCrash()
    ensures
      var s1 := CreateEvent(Store(map[], map[]), 1, 10, "A", 900, 1000);
      var s2 := UpdateEventStatus(s1, 1, "SWAPPABLE", 10).after;
      var s3 := CreateEvent(s2, 2, 20, "B", 1400, 1500);
      var s4 := UpdateEventStatus(s3, 2, "SWAPPABLE", 20).after;
      var create := CreateSwapRequest(s4, 7, 1, 2, 10, 800);
      var accept := SwapResponse(create.after, 7, true, 20);
      var delete := DeleteEvent(accept.after, 2, 10);
      && create.result == Ok(7)
      && accept.result == Ok(Accepted)
      && delete.result == Ok(())
      && PendingConsistent(delete.after)
      && SwapResponse(delete.after, 7, true, 20).result == Err(ServerError)
  {
    var s0 := Store(map[], map[]);
    assert PendingConsistent(s0);
    var s1 := CreateEvent(s0, 1, 10, "A", 900, 1000);
    CreateEventPreserves(s0, 1, 10, "A", 900, 1000);
    UpdateEventStatusPreserves(s1, 1, "SWAPPABLE", 10);
    var s2 := UpdateEventStatus(s1, 1, "SWAPPABLE", 10).after;
    var s3 := CreateEvent(s2, 2, 20, "B", 1400, 1500);
    CreateEventPreserves(s2, 2, 20, "B", 1400, 1500);
    UpdateEventStatusPreserves(s3, 2, "SWAPPABLE", 20);
    var s4 := UpdateEventStatus(s3, 2, "SWAPPABLE", 20).after;
    CreateSwapRequestPreserves(s4, 7, 1, 2, 10, 800);
    var create := CreateSwapRequest(s4, 7, 1, 2, 10, 800);
    SwapResponsePreserves(create.after, 7, true, 20);
    var accept := SwapResponse(create.after, 7, true, 20);
    DeleteEventPreserves(accept.after, 2, 10);
  }
}
