/**
 * The running application: the two tables held as mutable maps, the id
 * counters the store assigns keys from, and the notifications pushed so far.
 * Each handler is one atomic method that reads the rows it needs, changes
 * them in place and commits; its contract ties the reply and the new state
 * to the handler's specification in module Handlers.
 */
module App {
  import opened Models
  import opened Handlers
  import opened PendingInvariant

  class Scheduler {
    var events: map<int, Event>
    var requests: map<int, SwapRequest>
    var nextEventId: int
    var nextRequestId: int
    /** Every notification sent after a commit, oldest first; delivery is best effort. */
    var outbox: seq<Notification>

    /** The store assigns every new row an id above all ids it has used. */
    ghost predicate Valid()
      reads this
    {
      && (forall id :: id in events ==> id < nextEventId)
      && (forall id :: id in requests ==> id < nextRequestId)
    }

    /** The current contents of the two tables. */
    function State(): (s: Store)
      reads this
    {
      Store(events, requests)
    }

    /** Empty tables; the store numbers rows from 1. */
    constructor ()
      ensures Valid()
      ensures events == map[] && requests == map[] && outbox == []
      ensures nextEventId == 1 && nextRequestId == 1
    {
      events, requests := map[], map[];
      nextEventId, nextRequestId := 1, 1;
      outbox := [];
    }

    method CreateEvent(title: string, start: Timestamp, end: Timestamp, caller: int) returns (id: int, e: Event)
      requires Valid()
      modifies this
      ensures Valid()
      ensures id == old(nextEventId) && id !in old(events)
      ensures State() == Handlers.CreateEvent(old(State()), id, caller, title, start, end)
      ensures e == events[id] && e.owner == caller && e.status == Busy
      ensures nextEventId == old(nextEventId) + 1
      ensures nextRequestId == old(nextRequestId) && outbox == old(outbox)
      ensures PendingConsistent(old(State())) ==> PendingConsistent(State())
    {
      if PendingConsistent(State()) {
        CreateEventPreserves(State(), nextEventId, caller, title, start, end);
      }
      id := nextEventId;
      nextEventId := nextEventId + 1;
      e := NewEvent(caller, title, start, end);
      events := events[id := e];
    }

    method UpdateEventStatus(eventId: int, status: string, caller: int) returns (r: Result<Event>)
      requires Valid()
      modifies this`events
      ensures Valid()
      ensures var step := Handlers.UpdateEventStatus(old(State()), eventId, status, caller);
        r == step.result && State() == step.after
      ensures && PendingConsistent(old(State()))
              && (r.Ok? ==> (old(events)[eventId].status == SwapPending <==> status == EventStatusValue(SwapPending)))
              ==> PendingConsistent(State())
    {
      if && PendingConsistent(State())
         && (Handlers.UpdateEventStatus(State(), eventId, status, caller).result.Ok? ==>
               (events[eventId].status == SwapPending <==> status == EventStatusValue(SwapPending))) {
        UpdateEventStatusPreserves(State(), eventId, status, caller);
      }
      if eventId !in events || events[eventId].owner != caller {
        return Err(NotFound);
      }
      var st := ParseEventStatus(status);
      if st.None? {
        return Err(BadRequest);
      }
      var e := events[eventId].(status := st.value);
      events := events[eventId := e];
      r := Ok(e);
    }

    method CreateSwapRequest(mySlot: int, theirSlot: int, caller: int, now: Timestamp) returns (r: Result<int>)
      requires Valid()
      modifies this
      ensures Valid()
      ensures var step := Handlers.CreateSwapRequest(old(State()), old(nextRequestId), mySlot, theirSlot, caller, now);
        && r == step.result && State() == step.after
        && outbox == old(outbox) + step.sent
      ensures nextEventId == old(nextEventId)
      ensures nextRequestId == if r.Ok? then old(nextRequestId) + 1 else old(nextRequestId)
      ensures PendingConsistent(old(State())) ==> PendingConsistent(State())
    {
      if PendingConsistent(State()) {
        CreateSwapRequestPreserves(State(), nextRequestId, mySlot, theirSlot, caller, now);
      }
      if mySlot !in events || theirSlot !in events {
        return Err(NotFound);
      }
      var my := events[mySlot];
      var their := events[theirSlot];
      if my.owner != caller {
        return Err(Forbidden);
      }
      if my.status != Swappable || their.status != Swappable {
        return Err(BadRequest);
      }
      var rid := nextRequestId;
      nextRequestId := nextRequestId + 1;
      requests := requests[rid := NewSwapRequest(caller, their.owner, mySlot, theirSlot, now)];
      events := events[mySlot := my.(status := SwapPending)];
      events := events[theirSlot := their.(status := SwapPending)];
      outbox := outbox + [Notification(their.owner, RequestReceived)];
      r := Ok(rid);
    }

    method SwapResponse(requestId: int, accept: bool, caller: int) returns (r: Result<SwapStatus>)
      requires Valid()
      modifies this`events, this`requests, this`outbox
      ensures Valid()
      ensures var step := Handlers.SwapResponse(old(State()), requestId, accept, caller);
        && r == step.result && State() == step.after
        && outbox == old(outbox) + step.sent
      ensures && PendingConsistent(old(State()))
              && (requestId in old(requests) ==> old(requests)[requestId].status == Pending)
              ==> PendingConsistent(State())
    {
      if PendingConsistent(State()) && (requestId in requests ==> requests[requestId].status == Pending) {
        SwapResponsePreserves(State(), requestId, accept, caller);
      }
      if requestId !in requests {
        return Err(NotFound);
      }
      var q := requests[requestId];
      if q.responder != caller {
        return Err(Forbidden);
      }
      if q.mySlot !in events || q.theirSlot !in events {
        return Err(ServerError);
      }
      var my := events[q.mySlot];
      var their := events[q.theirSlot];
      if accept {
        events := events[q.mySlot := my.(owner := their.owner, status := Busy)];
        events := events[q.theirSlot := their.(owner := my.owner, status := Busy)];
        requests := requests[requestId := q.(status := Accepted)];
        outbox := outbox + [Notification(q.requester, RequestAccepted)];
        r := Ok(Accepted);
      } else {
        events := events[q.mySlot := my.(status := Swappable)];
        events := events[q.theirSlot := their.(status := Swappable)];
        requests := requests[requestId := q.(status := Rejected)];
        outbox := outbox + [Notification(q.requester, RequestRejected)];
        r := Ok(Rejected);
      }
    }

    method DeleteEvent(eventId: int, caller: int) returns (r: Result<()>)
      requires Valid()
      modifies this`events
      ensures Valid()
      ensures var step := Handlers.DeleteEvent(old(State()), eventId, caller);
        r == step.result && State() == step.after
      ensures PendingConsistent(old(State())) ==> PendingConsistent(State())
    {
      if PendingConsistent(State()) {
        DeleteEventPreserves(State(), eventId, caller);
      }
      if eventId !in events {
        return Err(NotFound);
      }
      if events[eventId].owner != caller {
        return Err(Forbidden);
      }
      if events[eventId].status == SwapPending {
        return Err(BadRequest);
      }
      events := events - {eventId};
      r := Ok(());
    }
  }
}
