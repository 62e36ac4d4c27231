# SlotSwapper: the slot-swap negotiation engine in Dafny

SlotSwapper lets users register time slots ("events"), mark some of them
SWAPPABLE, and ask each other to exchange slots. This project models the
backend's negotiation engine: the `Event` and `SwapRequest` records, their
status enumerations, and the HTTP handlers that create events, change their
status, list them, create swap requests, answer them, and delete events.

The model has five modules:

- `Models` (`models.dfy`): the two status enumerations, the record shapes,
  their column defaults, and how a client-supplied status string is read.
- `Handlers` (`handlers.dfy`): each handler as a pure function. It maps the
  store before the call (`Store`: the `events` and `swap_requests` tables
  keyed by id) to a `Step`: the reply (`Ok` or an error kind with its HTTP
  code), the store after the call, and the notifications pushed after the
  commit. The read-only listings are functions over the store, so they
  change nothing by construction.
- `PendingInvariant` (`invariant.dfy`): the negotiation invariant and the
  conditions under which each handler preserves it. The invariant says an
  event is SWAP_PENDING exactly when one PENDING request names it, no PENDING
  request names any other event, and every PENDING request names two
  existing events. Two concrete counterexamples show the handlers that break
  it, and a third run shows a crash that the invariant does not prevent.
- `HandlerProperties` (`properties.dfy`): what accepting and rejecting do,
  the preserved owner counts, how requests enter and leave the listings, the
  guards the code does not have, and one negotiation run end to end.
- `App` (`scheduler.dfy`): class `Scheduler`. It holds the tables as
  mutable maps, the id counters and the outbox of sent notifications. Each
  handler is an atomic method. Its postcondition equates the reply and the
  new state with the `Handlers` function. It also states when the method
  keeps the negotiation invariant.

The authenticated caller is an `int` parameter of every handler. The current
time, used only for `created_at`, is a parameter `now`. The store picks new
ids; in `Handlers` they are a fresh-id parameter, and in `Scheduler` they
come from counters.

## Guards the code does not have

Several checks one might expect of a swap negotiation are absent from the
handlers. The model follows the code, and each gap is stated as a lemma.

- A swap request may name the same slot twice, or a target slot the caller
  owns (`SelfSwapAccepted`, `OwnTargetAccepted`). One might expect a slot
  never to be exchanged with itself.
- `swap_response` does not check that the request is still PENDING
  (`ResponseIgnoresRequestStatus`), so ACCEPTED and REJECTED are not final.
  A second acceptance swaps the owners back (`DoubleAcceptSwapsBack`). A late
  second response can also reset a slot that a newer request holds
  (`SecondResponseCanBreak`).
- `update_event_status` accepts SWAP_PENDING as a target
  (`UpdateEventStatusCanBreak`) and changes events that are SWAP_PENDING
  (`UpdateEventStatusCanLeavePending`). One might expect only the
  negotiation to enter or leave SWAP_PENDING.
- Updating the status of another user's event is reported as not found
  (404), not forbidden. An unknown status string and deleting a SWAP_PENDING
  event are both reported as 400, not as separate kinds.
- `swap_response` reads both slots without checking that they exist. If one
  was deleted, the handler crashes before committing. This is modelled as
  `ServerError` (HTTP 500) with the store unchanged. For a request that is
  still PENDING the invariant rules this out (`IncomingIsAnswerable`). For a
  repeated response to an ACCEPTED or REJECTED request it does not: the crash
  is reachable from the empty store with the invariant holding throughout
  (`StaleResponseCanCrash`).

So the invariant is proved conditionally. It is kept by `create_event`,
`create_swap_request`, `delete_event`, a response to a request that is
still PENDING, and a status update that, when it succeeds, neither enters
nor leaves SWAP_PENDING (a failed update changes nothing).

## Model

| member | source | states |
|---|---|---|
| Models.EventStatusValue | scheduler-backend/app/models.py:15-18 | each status's stored string is read back as that status |
| Models.ParseEventStatus | scheduler-backend/app/main.py:89-90 | a status string is accepted exactly when it is BUSY, SWAPPABLE or SWAP_PENDING |
| Models.ParseEventStatusRoundTrip | scheduler-backend/app/models.py:15-18 | a string reads as a status if and only if it is that status's stored value |
| Models.NewEvent | scheduler-backend/app/models.py:20-27 | an event created without a status is BUSY; the other fields are the given ones |
| Models.NewSwapRequest | scheduler-backend/app/models.py:35-43 | a swap request created without a status is PENDING and carries the given parties, slots and creation time |
| Handlers.StatusCode | scheduler-backend/app/main.py:113-120 | not found is 404, forbidden 403, bad request 400, a crash 500, each code for exactly one kind |
| Handlers.CreateEvent | scheduler-backend/app/main.py:57-71 | adds exactly one event under a fresh id, owned by the caller and BUSY; nothing else changes |
| Handlers.UpdateEventStatus | scheduler-backend/app/main.py:80-95 | NotFound iff the event is missing or not the caller's; else BadRequest iff the string is no status; success iff neither, and then only that event's status changes, to the named one; errors change nothing |
| Handlers.CreateSwapRequest | scheduler-backend/app/main.py:105-139 | NotFound iff a slot is missing, then Forbidden iff the caller does not own the first, then BadRequest iff either is not SWAPPABLE; success iff none of these, never a crash; errors change nothing; success adds one PENDING request (responder = target's owner), sets exactly the two slots to SWAP_PENDING and notifies the responder |
| Handlers.SwapResponse | scheduler-backend/app/main.py:159-196 | NotFound iff the request is missing, Forbidden iff the caller is not its responder, a crash iff a slot is missing, never BadRequest; success rewrites only the request's status and the two slots, and notifies the requester |
| Handlers.DeleteEvent | scheduler-backend/app/main.py:199-213 | NotFound iff missing, then Forbidden iff another's event, then BadRequest iff SWAP_PENDING; succeeds iff the caller owns it and it is not SWAP_PENDING, and then removes exactly that event and leaves requests alone |
| Handlers.MyEvents | scheduler-backend/app/main.py:74-77 | exactly the caller's events |
| Handlers.SwappableSlots | scheduler-backend/app/main.py:97-102 | exactly the SWAPPABLE events not owned by the caller |
| Handlers.IncomingRequests | scheduler-backend/app/main.py:142-148 | exactly the PENDING requests whose responder is the caller |
| Handlers.OutgoingRequests | scheduler-backend/app/main.py:151-156 | exactly the requests whose requester is the caller, of any status |
| PendingInvariant.PendingIffExactlyOne | scheduler-backend/app/main.py:119-131 | under the invariant, an event is SWAP_PENDING iff exactly one PENDING request names it |
| PendingInvariant.AtMostOnePendingPerSlot | scheduler-backend/app/main.py:119-131 | under the invariant, two different PENDING requests never name the same slot |
| PendingInvariant.OnlyPendingRef | scheduler-backend/app/main.py:119-131 | under the invariant, a PENDING request's slot is SWAP_PENDING and that request is its only pending reference |
| PendingInvariant.NoPendingRefs | scheduler-backend/app/main.py:61-71 | under the invariant, no PENDING request names an id that is not an event |
| PendingInvariant.PendingRefsAfterWrite | scheduler-backend/app/main.py:122-135 | writing one request changes an event's pending references by that request's id only |
| PendingInvariant.CreateEventPreserves | scheduler-backend/app/main.py:61-71 | create_event keeps the invariant |
| PendingInvariant.UpdateEventStatusPreserves | scheduler-backend/app/main.py:85-92 | a status update keeps the invariant whenever, if it succeeds, the event was SWAP_PENDING exactly when the new status is SWAP_PENDING; failed updates always keep it |
| PendingInvariant.UpdateEventStatusCanBreak | scheduler-backend/app/main.py:85-92 | setting SWAP_PENDING by hand succeeds and breaks the invariant |
| PendingInvariant.UpdateEventStatusCanLeavePending | scheduler-backend/app/main.py:85-92 | moving a SWAP_PENDING event to BUSY by hand succeeds and breaks the invariant, as its PENDING request still names it |
| PendingInvariant.CreateSwapRequestPreserves | scheduler-backend/app/main.py:110-135 | create_swap_request keeps the invariant |
| PendingInvariant.CreateSwapRequestRefs | scheduler-backend/app/main.py:122-135 | after a successful create, each event has one pending reference if SWAP_PENDING and none otherwise |
| PendingInvariant.SwapResponsePreserves | scheduler-backend/app/main.py:164-192 | answering a request that is still PENDING keeps the invariant |
| PendingInvariant.SwapResponseSlots | scheduler-backend/app/main.py:175-190 | after a response both slots are BUSY (accept) or SWAPPABLE (reject) |
| PendingInvariant.SecondResponseCanBreak | scheduler-backend/app/main.py:164-192 | answering an already REJECTED request again succeeds and breaks the invariant |
| PendingInvariant.StaleResponseCanCrash | scheduler-backend/app/main.py:164-176 | a run from the empty store (offer, request, accept, delete the received slot) keeps the invariant, yet answering the same request again crashes |
| PendingInvariant.DeleteEventPreserves | scheduler-backend/app/main.py:201-212 | delete_event keeps the invariant |
| HandlerProperties.AcceptExchangesOwners | scheduler-backend/app/main.py:175-179 | accepting exchanges the two slots' owners, makes both BUSY and marks the request ACCEPTED |
| HandlerProperties.RejectRestoresSwappable | scheduler-backend/app/main.py:187-190 | rejecting makes both slots SWAPPABLE with owners unchanged and marks the request REJECTED |
| HandlerProperties.AcceptPreservesOwnerCounts | scheduler-backend/app/main.py:175-179 | after accepting, every user owns as many events as before |
| HandlerProperties.AcceptMovesSlotsBetweenOwners | scheduler-backend/app/main.py:175-176 | after accepting, each party's events include the other's former slot |
| HandlerProperties.DoubleAcceptSwapsBack | scheduler-backend/app/main.py:164-181 | accepting the same request twice succeeds and restores the original owners |
| HandlerProperties.ResponseIgnoresRequestStatus | scheduler-backend/app/main.py:164-170 | the reply to a response is the same whatever the request's current status |
| HandlerProperties.SelfSwapAccepted | scheduler-backend/app/main.py:110-131 | a request naming the same SWAPPABLE slot twice succeeds, with the caller as responder |
| HandlerProperties.OwnTargetAccepted | scheduler-backend/app/main.py:110-131 | a request for a slot the caller owns succeeds, though the swappable listing never shows it |
| HandlerProperties.SwappableSlotIsRequestable | scheduler-backend/app/main.py:97-131 | any listed swappable slot can be requested with any SWAPPABLE slot of the caller's |
| HandlerProperties.CreatedRequestIsListed | scheduler-backend/app/main.py:122-156 | a new request is in the requester's outgoing and the responder's incoming list, and neither slot is listed as swappable |
| HandlerProperties.PendingSlotBlocksCreate | scheduler-backend/app/main.py:119-120 | a request naming a SWAP_PENDING slot fails and changes nothing |
| HandlerProperties.SecondCreateRefused | scheduler-backend/app/main.py:119-131 | after a successful request, another naming either slot (with an owned first slot) fails BadRequest |
| HandlerProperties.IncomingIsAnswerable | scheduler-backend/app/main.py:142-196 | under the invariant, every incoming request can be answered, then leaves the incoming list and stays in the outgoing one |
| HandlerProperties.IncomingIsOutgoingOfRequester | scheduler-backend/app/main.py:142-156 | every incoming request is in its requester's outgoing list with the same row |
| HandlerProperties.AcceptedSwapScenario | scheduler-backend/app/main.py:57-196 | two users offer slots, one requests, the other accepts: owners exchanged, both BUSY, ACCEPTED, both parties notified |
| App.Scheduler.constructor | scheduler-backend/app/models.py:20-43 | the tables start empty and ids start at 1 |
| App.Scheduler.CreateEvent | scheduler-backend/app/main.py:57-71 | stores the new BUSY event under the next id and advances the event counter by one; keeps the invariant |
| App.Scheduler.UpdateEventStatus | scheduler-backend/app/main.py:80-95 | reply and new tables as Handlers.UpdateEventStatus; keeps the invariant whenever a successful update neither enters nor leaves SWAP_PENDING, and always on failure |
| App.Scheduler.CreateSwapRequest | scheduler-backend/app/main.py:105-139 | reply, new tables and outbox as Handlers.CreateSwapRequest under the next request id; keeps the invariant |
| App.Scheduler.SwapResponse | scheduler-backend/app/main.py:159-196 | reply, new tables and outbox as Handlers.SwapResponse; keeps the invariant when the request is PENDING |
| App.Scheduler.DeleteEvent | scheduler-backend/app/main.py:199-213 | reply and new tables as Handlers.DeleteEvent; keeps the invariant |

The status of an event is one of BUSY, SWAPPABLE or SWAP_PENDING, and that of
a request one of PENDING, ACCEPTED or REJECTED, because the fields have
these enumeration types; the only way a string becomes a status is
`ParseEventStatus`. Every field of both records is a plain non-null value.

## Left out

- User registration, sign-up, login, password hashing and token handling
  (`create_user`, `signup`, `login`, `auth.py`): the caller is an authenticated
  user id passed in.
- The WebSocket endpoint and connection registry (`ws_manager.py`): a sent
  notification is appended to `Scheduler.outbox`; whether the user is
  connected and receives it is not modelled.
- The request schemas (`schemas.py`): the one relevant fact, that the status
  arrives as a free string, is kept.
- App and CORS setup and the root endpoint.
- The database session, commits, refreshes and transaction isolation: each
  handler is one atomic step, and concurrent callers are not modelled.
- Foreign keys: deleting an event leaves the swap requests that name it.
  Whether the database would refuse that delete depends on its configuration,
  which is not part of this model.
- Id allocation: new ids come from a counter above every id used before. The
  database may allocate differently; only freshness matters here.
- Timestamps are opaque integers: start and end times are never compared or
  validated, and `created_at` is the `now` parameter.
- Error detail strings and the JSON message bodies of successful replies: a
  reply is an error kind or the created id, the updated event, the request's
  new status, or unit.
