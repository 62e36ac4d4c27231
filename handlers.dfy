/**
 * What each HTTP handler of the scheduler does to the record store, as a pure
 * function from the store before the call to the reply and the store after
 * it. A handler either fails before it commits (the store is unchanged) or
 * commits once; the notifications it pushes after the commit are returned
 * alongside. The authenticated caller is a plain user id.
 */
module Handlers {
  import opened Models

  /** The error kinds the handlers raise. ServerError is an unhandled crash. */
  datatype Error = NotFound | Forbidden | BadRequest | ServerError

  /** The HTTP status code each error kind is reported with. */
  function StatusCode(e: Error): (code: int)
    ensures 400 <= code < 600
    ensures code == 400 <==> e == BadRequest
    ensures code == 403 <==> e == Forbidden
    ensures code == 404 <==> e == NotFound
    ensures code == 500 <==> e == ServerError
  {
    match e
    case NotFound => 404
    case Forbidden => 403
    case BadRequest => 400
    case ServerError => 500
  }

  datatype Result<T> = Ok(value: T) | Err(error: Error)

  /** The rows of the two tables the engine works on, keyed by id. */
  datatype Store = Store(events: map<int, Event>, requests: map<int, SwapRequest>)

  /** A text pushed to a user over the notification channel. */
  datatype Notification = Notification(user: int, message: string)

  /** The reply of one handler call, the store after it, and what it pushed. */
  datatype Step<T> = Step(result: Result<T>, after: Store, sent: seq<Notification>)

  const RequestReceived := "You received a new swap request!"
  const RequestAccepted := "Your swap request was ACCEPTED!"
  const RequestRejected := "Your swap request was REJECTED."

  /** `a` and `b` hold the same event ids, with the same rows except for the ids in `changed`. */
  ghost predicate SameEventsExcept(a: map<int, Event>, b: map<int, Event>, changed: set<int>)
  {
    a.Keys == b.Keys && forall id :: id in a && id !in changed ==> a[id] == b[id]
  }

  /**
   * create_event: the new row, stored under the fresh id the store assigns,
   * belongs to the caller and is BUSY whatever the client wanted.
   */
  function CreateEvent(s: Store, id: int, caller: int, title: string, start: Timestamp, end: Timestamp): (r: Store)
    requires id !in s.events
    ensures r.requests == s.requests
    ensures r.events.Keys == s.events.Keys + {id}
    ensures forall eid :: eid in s.events ==> r.events[eid] == s.events[eid]
    ensures r.events[id].owner == caller && r.events[id].status == Busy
    ensures r.events[id].title == title && r.events[id].start == start && r.events[id].end == end
  {
    s.(events := s.events[id := NewEvent(caller, title, start, end)])
  }

  /**
   * update_event_status: the lookup filters on id and owner together, so an
   * event the caller does not own is reported as missing; then the string
   * must name a status. Any status may be set, from any status.
   */
  function UpdateEventStatus(s: Store, eventId: int, status: string, caller: int): (r: Step<Event>)
    ensures r.sent == []
    ensures r.result == Err(NotFound) <==> eventId !in s.events || s.events[eventId].owner != caller
    ensures r.result == Err(BadRequest) <==>
      eventId in s.events && s.events[eventId].owner == caller && ParseEventStatus(status).None?
    ensures r.result.Ok? <==>
      eventId in s.events && s.events[eventId].owner == caller && ParseEventStatus(status).Some?
    ensures r.result.Err? ==> r.after == s
    ensures r.result.Ok? ==>
      && eventId in s.events
      && EventStatusValue(r.result.value.status) == status
      && r.result.value == s.events[eventId].(status := r.result.value.status)
      && r.after.requests == s.requests
      && SameEventsExcept(r.after.events, s.events, {eventId})
      && r.after.events[eventId] == r.result.value
  {
    if eventId !in s.events || s.events[eventId].owner != caller then
      Step(Err(NotFound), s, [])
    else
      match ParseEventStatus(status)
      case None => Step(Err(BadRequest), s, [])
      case Some(st) =>
        ParseEventStatusRoundTrip(status, st);
        var e := s.events[eventId].(status := st);
        Step(Ok(e), s.(events := s.events[eventId := e]), [])
  }

  /**
   * create_swap_request: both slots must exist, the caller must own the
   * first, and both must be SWAPPABLE, checked in that order. Nothing stops
   * the two ids from being equal, nor the second slot from being the
   * caller's own. On success both slots become SWAP_PENDING, one PENDING
   * request is stored under the fresh id, and its responder is told.
   */
  function CreateSwapRequest(s: Store, rid: int, mySlot: int, theirSlot: int, caller: int, now: Timestamp): (r: Step<int>)
    requires rid !in s.requests
    ensures r.result == Err(NotFound) <==> mySlot !in s.events || theirSlot !in s.events
    ensures r.result == Err(Forbidden) <==>
      mySlot in s.events && theirSlot in s.events && s.events[mySlot].owner != caller
    ensures r.result == Err(BadRequest) <==>
      && mySlot in s.events && theirSlot in s.events && s.events[mySlot].owner == caller
      && (s.events[mySlot].status != Swappable || s.events[theirSlot].status != Swappable)
    ensures r.result != Err(ServerError)
    ensures r.result.Ok? <==>
      && mySlot in s.events && theirSlot in s.events && s.events[mySlot].owner == caller
      && s.events[mySlot].status == Swappable && s.events[theirSlot].status == Swappable
    ensures r.result.Err? ==> r.after == s && r.sent == []
    ensures r.result.Ok? ==>
      && mySlot in s.events && theirSlot in s.events
      && r.result.value == rid
      && r.after.requests.Keys == s.requests.Keys + {rid}
      && (forall q :: q in s.requests ==> r.after.requests[q] == s.requests[q])
      && r.after.requests[rid] == NewSwapRequest(caller, s.events[theirSlot].owner, mySlot, theirSlot, now)
      && SameEventsExcept(r.after.events, s.events, {mySlot, theirSlot})
      && r.after.events[mySlot] == s.events[mySlot].(status := SwapPending)
      && r.after.events[theirSlot] == s.events[theirSlot].(status := SwapPending)
      && r.sent == [Notification(s.events[theirSlot].owner, RequestReceived)]
  {
    if mySlot !in s.events || theirSlot !in s.events then
      Step(Err(NotFound), s, [])
    else
      var my := s.events[mySlot];
      var their := s.events[theirSlot];
      if my.owner != caller then
        Step(Err(Forbidden), s, [])
      else if my.status != Swappable || their.status != Swappable then
        Step(Err(BadRequest), s, [])
      else
        var q := NewSwapRequest(caller, their.owner, mySlot, theirSlot, now);
        var events := s.events[mySlot := my.(status := SwapPending)][theirSlot := their.(status := SwapPending)];
        Step(Ok(rid), Store(events, s.requests[rid := q]), [Notification(their.owner, RequestReceived)])
  }

  /**
   * swap_response: the request must exist and the caller must be its
   * responder; its current status is not looked at. Both slots are then
   * dereferenced without a check, so a missing one crashes the handler
   * before it commits. Accepting exchanges the two owners and makes both
   * slots BUSY; rejecting makes both SWAPPABLE. Either way the requester is
   * told. The reply is the request's new status.
   */
  function SwapResponse(s: Store, requestId: int, accept: bool, caller: int): (r: Step<SwapStatus>)
    ensures r.result == Err(NotFound) <==> requestId !in s.requests
    ensures r.result == Err(Forbidden) <==>
      requestId in s.requests && s.requests[requestId].responder != caller
    ensures r.result == Err(ServerError) <==>
      && requestId in s.requests && s.requests[requestId].responder == caller
      && (s.requests[requestId].mySlot !in s.events || s.requests[requestId].theirSlot !in s.events)
    ensures r.result != Err(BadRequest)
    ensures r.result.Err? ==> r.after == s && r.sent == []
    ensures r.result.Ok? ==>
      requestId in s.requests &&
      var q := s.requests[requestId];
      && q.mySlot in s.events && q.theirSlot in s.events
      && r.result.value == (if accept then Accepted else Rejected)
      && r.after.requests == s.requests[requestId := q.(status := r.result.value)]
      && SameEventsExcept(r.after.events, s.events, {q.mySlot, q.theirSlot})
      && r.sent == [Notification(q.requester, if accept then RequestAccepted else RequestRejected)]
  {
    if requestId !in s.requests then
      Step(Err(NotFound), s, [])
    else
      var q := s.requests[requestId];
      if q.responder != caller then
        Step(Err(Forbidden), s, [])
      else if q.mySlot !in s.events || q.theirSlot !in s.events then
        Step(Err(ServerError), s, [])
      else
        var my := s.events[q.mySlot];
        var their := s.events[q.theirSlot];
        if accept then
          var events := s.events[q.mySlot := my.(owner := their.owner, status := Busy)]
                                [q.theirSlot := their.(owner := my.owner, status := Busy)];
          Step(Ok(Accepted), Store(events, s.requests[requestId := q.(status := Accepted)]),
               [Notification(q.requester, RequestAccepted)])
        else
          var events := s.events[q.mySlot := my.(status := Swappable)]
                                [q.theirSlot := their.(status := Swappable)];
          Step(Ok(Rejected), Store(events, s.requests[requestId := q.(status := Rejected)]),
               [Notification(q.requester, RequestRejected)])
  }

  /**
   * delete_event: the event must exist, belong to the caller and not be
   * SWAP_PENDING, checked in that order; swap requests that name it are left
   * as they are.
   */
  function DeleteEvent(s: Store, eventId: int, caller: int): (r: Step<()>)
    ensures r.sent == []
    ensures r.result == Err(NotFound) <==> eventId !in s.events
    ensures r.result == Err(Forbidden) <==> eventId in s.events && s.events[eventId].owner != caller
    ensures r.result == Err(BadRequest) <==>
      eventId in s.events && s.events[eventId].owner == caller && s.events[eventId].status == SwapPending
    ensures r.result.Ok? <==>
      eventId in s.events && s.events[eventId].owner == caller && s.events[eventId].status != SwapPending
    ensures r.result.Err? ==> r.after == s
    ensures r.result.Ok? ==>
      && r.after.events.Keys == s.events.Keys - {eventId}
      && (forall id :: id in r.after.events ==> r.after.events[id] == s.events[id])
      && r.after.requests == s.requests
  {
    if eventId !in s.events then
      Step(Err(NotFound), s, [])
    else if s.events[eventId].owner != caller then
      Step(Err(Forbidden), s, [])
    else if s.events[eventId].status == SwapPending then
      Step(Err(BadRequest), s, [])
    else
      Step(Ok(()), s.(events := s.events - {eventId}), [])
  }

  /** my_events: the caller's own events, whatever their status. */
  function MyEvents(s: Store, caller: int): (r: map<int, Event>)
    ensures forall id :: id in r <==> id in s.events && s.events[id].owner == caller
    ensures forall id :: id in r ==> r[id] == s.events[id]
  {
    map id | id in s.events && s.events[id].owner == caller :: s.events[id]
  }

  /** swappable_slots: the SWAPPABLE events of everybody but the caller. */
  function SwappableSlots(s: Store, caller: int): (r: map<int, Event>)
    ensures forall id :: id in r <==>
      id in s.events && s.events[id].status == Swappable && s.events[id].owner != caller
    ensures forall id :: id in r ==> r[id] == s.events[id]
  {
    map id | id in s.events && s.events[id].status == Swappable && s.events[id].owner != caller :: s.events[id]
  }

  /** incoming_requests: the PENDING requests the caller is to answer. */
  function IncomingRequests(s: Store, caller: int): (r: map<int, SwapRequest>)
    ensures forall id :: id in r <==>
      id in s.requests && s.requests[id].responder == caller && s.requests[id].status == Pending
    ensures forall id :: id in r ==> r[id] == s.requests[id]
  {
    map id | id in s.requests && s.requests[id].responder == caller && s.requests[id].status == Pending :: s.requests[id]
  }

  /** outgoing_requests: every request the caller made, whatever its status. */
  function OutgoingRequests(s: Store, caller: int): (r: map<int, SwapRequest>)
    ensures forall id :: id in r <==> id in s.requests && s.requests[id].requester == caller
    ensures forall id :: id in r ==> r[id] == s.requests[id]
  {
    map id | id in s.requests && s.requests[id].requester == caller :: s.requests[id]
  }
}
