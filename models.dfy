/**
 * The record shapes of the slot-swap scheduler: events (time slots owned by a
 * user) and swap requests, together with their two status enumerations and
 * the defaults the record store fills in when a field is not given.
 *
 * Every field is a plain value, so "never null" holds by construction.
 */
module Models {

  datatype Option<T> = None | Some(value: T)

  /** Start and end times are stored and returned but never compared or validated. */
  type Timestamp = int

  /** The three states of a slot. */
  datatype EventStatus = Busy | Swappable | SwapPending

  /** The three states of a swap request; nothing in the handlers makes ACCEPTED or REJECTED final. */
  datatype SwapStatus = Pending | Accepted | Rejected

  /** The string an event status is stored and exchanged as. */
  function EventStatusValue(st: EventStatus): (v: string)
    ensures ParseEventStatus(v) == Some(st)
  {
    match st
    case Busy => "BUSY"
    case Swappable => "SWAPPABLE"
    case SwapPending => "SWAP_PENDING"
  }

  /**
   * Reads a client-supplied status string: it is accepted exactly when it is
   * one of the values of EventStatus (case-sensitive, no trimming).
   */
  function ParseEventStatus(s: string): (r: Option<EventStatus>)
    ensures r.Some? <==> s in {"BUSY", "SWAPPABLE", "SWAP_PENDING"}
  {
    if s == "BUSY" then Some(Busy)
    else if s == "SWAPPABLE" then Some(Swappable)
    else if s == "SWAP_PENDING" then Some(SwapPending)
    else None
  }

  /** A string parses to a status exactly when it is that status's value. */
  lemma ParseEventStatusRoundTrip(s: string, st: EventStatus)
    ensures ParseEventStatus(s) == Some(st) <==> s == EventStatusValue(st)
  {
  }

  /** A time slot; its id is the key under which the store keeps it. */
  datatype Event = Event(
    owner: int,
    title: string,
    start: Timestamp,
    end: Timestamp,
    status: EventStatus)

  /**
   * An event as the store creates it when no status is given: the column
   * default is BUSY.
   */
  function NewEvent(owner: int, title: string, start: Timestamp, end: Timestamp): (e: Event)
    ensures e.status == Busy
    ensures e.owner == owner && e.title == title && e.start == start && e.end == end
  {
    Event(owner, title, start, end, Busy)
  }

  /** A proposal to exchange the requester's slot with the responder's. */
  datatype SwapRequest = SwapRequest(
    requester: int,
    responder: int,
    mySlot: int,
    theirSlot: int,
    status: SwapStatus,
    createdAt: Timestamp)

  /**
   * A swap request as the store creates it when no status is given: the
   * column default is PENDING, and the creation time is the current time,
   * passed in here.
   */
  function NewSwapRequest(requester: int, responder: int, mySlot: int, theirSlot: int, now: Timestamp): (q: SwapRequest)
    ensures q.status == Pending
    ensures q.requester == requester && q.responder == responder
    ensures q.mySlot == mySlot && q.theirSlot == theirSlot && q.createdAt == now
  {
    SwapRequest(requester, responder, mySlot, theirSlot, Pending, now)
  }
}
