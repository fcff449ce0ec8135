/** The event handlers (server/src/controllers/eventController.js) as
    transitions over the event store. Each writing handler either fails and
    leaves the store as it was, or performs exactly one write; the lookups
    and list queries never write.

    The caller is an explicit `caller` parameter. In the source the handlers
    read `req.user._id`, while the auth middleware stores `{ id, email }`
    claims in `req.user` (see AuthMiddleware); which value reaches these
    handlers is left open here.

    `isObjectId` is `mongoose.Types.ObjectId.isValid`. `findById` on a string
    that is not an ObjectId throws a cast error, which the handlers' `catch`
    turns into 500; only `getEventById` tests the id first and answers 400. */
module EventController {
  import opened Base
  import opened Text
  import opened Schema
  import opened Lists

  const InvalidEventId := Failure(400, "Invalid event ID")
  const EventNotFound := Failure(404, "Event not found")
  const TitleAndDateRequired := Failure(400, "Title and date required")
  const NotOwnerEdit := Failure(403, "Not authorized to edit this event")
  const NotOwnerDelete := Failure(403, "Not authorized to delete this event")
  const AlreadyJoined := Failure(400, "Already joined this event")

  /** The fields of a create or update request body; a falsy date (missing,
      empty, zero) is `None`. */
  datatype EventInput = EventInput(
    title: Option<string>,
    description: Option<string>,
    date: Option<Date>,
    location: Option<string>)

  /** An event as it comes back from the store, with its `_id`. */
  datatype Stored = Stored(id: EventId, event: Event)

  /** Each stored event's attendee list is duplicate-free. The schema does not
      promise this; only the join guard keeps it. */
  predicate AttendeesDistinct(store: EventStore) {
    forall id | id in store :: NoDuplicates(store[id].attendees)
  }

  /** `Event.findById(id)`: a cast error for a malformed id, nothing for an
      unknown one. */
  function FindById(store: EventStore, id: EventId, isObjectId: string -> bool): (r: Result<Event>)
    ensures r.Ok? <==> isObjectId(id) && id in store
    ensures r.Ok? ==> r.value == store[id]
    ensures r.Err? ==> r.failure == (if isObjectId(id) then EventNotFound else ServerError)
  {
    if !isObjectId(id) then Err(ServerError)
    else if id !in store then Err(EventNotFound)
    else Ok(store[id])
  }

  /** `event.save()`: the validators run first; a failing one throws, which
      the handler answers with 500 and no write. */
  function Save(store: EventStore, id: EventId, e: Event): (r: Reply<EventStore, Stored>)
    ensures r.result.Ok? <==> EventPassesValidation(e)
    ensures r.result.Ok? ==> r.store == store[id := e] && r.result.value == Stored(id, e)
    ensures r.result.Err? ==> r.store == store && r.result.failure == ServerError
  {
    if EventPassesValidation(e) then Reply(store[id := e], Ok(Stored(id, e)))
    else Reply(store, Err(ServerError))
  }

  /** Writing one event keeps the store invariants when that event keeps
      them. */
  lemma PutKeepsInvariants(store: EventStore, id: EventId, e: Event)
    ensures ValidEvents(store) && ValidEvent(e) ==> ValidEvents(store[id := e])
    ensures AttendeesDistinct(store) && NoDuplicates(e.attendees) ==>
              AttendeesDistinct(store[id := e])
  {
  }

  // ----- getEventById -----

  /** `GET /events/:id`: the id is checked before any lookup. */
  function GetEventById(store: EventStore, id: EventId, isObjectId: string -> bool): (r: Result<Stored>)
    ensures r == Err(InvalidEventId) <==> !isObjectId(id)
    ensures r == Err(EventNotFound) <==> isObjectId(id) && id !in store
    ensures r.Ok? <==> isObjectId(id) && id in store
    ensures r.Ok? ==> r.value == Stored(id, store[id])
  {
    if !isObjectId(id) then Err(InvalidEventId)
    else if id !in store then Err(EventNotFound)
    else Ok(Stored(id, store[id]))
  }

  // ----- createEvent -----

  /** `POST /events`. The new event gets the id `freshId` the store assigns;
      a clash is a duplicate-key error (500). A title that trims to nothing
      passes the falsy check but fails the `required` validator (500). */
  function CreateEvent(store: EventStore, caller: UserId, input: EventInput, freshId: EventId)
    : (r: Reply<EventStore, Stored>)
    ensures r.result == Err(TitleAndDateRequired) <==> Falsy(input.title) || input.date.None?
    ensures r.result.Err? && r.result != Err(TitleAndDateRequired) ==> r.result == Err(ServerError)
    ensures r.result.Err? ==> r.store == store
    ensures r.result.Ok? <==>
              !Falsy(input.title) && input.date.Some? && Trim(input.title.value) != ""
              && freshId !in store
    ensures r.result.Ok? ==>
              && r.result.value.id == freshId
              && r.store == store[freshId := r.result.value.event]
              && var e := r.result.value.event;
              && e.owner == caller
              && e.attendees == []
              && e.title == Trim(input.title.value)
              && e.date == input.date.value
              && e.description == TrimField(input.description)
              && e.location == TrimField(input.location)
    ensures ValidEvents(store) ==> ValidEvents(r.store)
    ensures AttendeesDistinct(store) ==> AttendeesDistinct(r.store)
  {
    if Falsy(input.title) || input.date.None? then
      Reply(store, Err(TitleAndDateRequired))
    else
      var e := Event(Trim(input.title.value), TrimField(input.description), input.date.value,
                     TrimField(input.location), caller, []);
      PutKeepsInvariants(store, freshId, e);
      if freshId in store then Reply(store, Err(ServerError))
      else Save(store, freshId, e)
  }

  // ----- updateEvent -----

  /** The assignments `if (field) event.field = field`, each through the
      field's setter. */
  function ApplyUpdate(e: Event, input: EventInput): (r: Event)
    ensures r.owner == e.owner && r.attendees == e.attendees
    ensures r.title == (if Falsy(input.title) then e.title else Trim(input.title.value))
    ensures Falsy(input.description) ==> r.description == e.description
    ensures !Falsy(input.description) ==> r.description == TrimField(input.description)
    ensures input.date.None? ==> r.date == e.date
    ensures input.date.Some? ==> r.date == input.date.value
    ensures Falsy(input.location) ==> r.location == e.location
    ensures !Falsy(input.location) ==> r.location == TrimField(input.location)
  {
    e.(title := if Falsy(input.title) then e.title else Trim(input.title.value),
       description := if Falsy(input.description) then e.description
                      else Some(Trim(input.description.value)),
       date := if input.date.None? then e.date else input.date.value,
       location := if Falsy(input.location) then e.location
                   else Some(Trim(input.location.value)))
  }

  /** `PUT /events/:id`: owner-only partial update. */
  function UpdateEvent(store: EventStore, caller: UserId, id: EventId, input: EventInput,
                       isObjectId: string -> bool)
    : (r: Reply<EventStore, Stored>)
    ensures r.result.Err? ==> r.store == store
    ensures !isObjectId(id) ==> r.result == Err(ServerError)
    ensures isObjectId(id) && id !in store ==> r.result == Err(EventNotFound)
    ensures r.result == Err(NotOwnerEdit) <==>
              isObjectId(id) && id in store && store[id].owner != caller
    ensures isObjectId(id) && id in store && store[id].owner == caller && r.result.Err? ==>
              r.result == Err(ServerError)
    ensures r.result.Ok? <==>
              && isObjectId(id) && id in store && store[id].owner == caller
              && (if Falsy(input.title) then store[id].title else Trim(input.title.value)) != ""
    ensures r.result.Ok? ==>
              && isObjectId(id) && id in store && store[id].owner == caller
              && r.result.value.id == id
              && r.store == store[id := r.result.value.event]
              && var before, after := store[id], r.result.value.event;
              && after.owner == before.owner
              && after.attendees == before.attendees
              && after.title == (if Falsy(input.title) then before.title else Trim(input.title.value))
              && after.description == (if Falsy(input.description) then before.description
                                       else Some(Trim(input.description.value)))
              && after.date == (if input.date.None? then before.date else input.date.value)
              && after.location == (if Falsy(input.location) then before.location
                                    else Some(Trim(input.location.value)))
    ensures ValidEvents(store) ==> ValidEvents(r.store)
    ensures AttendeesDistinct(store) ==> AttendeesDistinct(r.store)
  {
    match FindById(store, id, isObjectId)
    case Err(f) => Reply(store, Err(f))
    case Ok(e) =>
      if e.owner != caller then Reply(store, Err(NotOwnerEdit))
      else Save(store, id, ApplyUpdate(e, input))
  }

  // ----- deleteEvent -----

  /** `DELETE /events/:id`: owner-only removal of that one event. */
  function DeleteEvent(store: EventStore, caller: UserId, id: EventId, isObjectId: string -> bool)
    : (r: Reply<EventStore, ()>)
    ensures r.result.Err? ==> r.store == store
    ensures !isObjectId(id) ==> r.result == Err(ServerError)
    ensures isObjectId(id) && id !in store ==> r.result == Err(EventNotFound)
    ensures isObjectId(id) && id in store && store[id].owner != caller ==>
              r.result == Err(NotOwnerDelete)
    ensures r.result.Ok? <==> isObjectId(id) && id in store && store[id].owner == caller
    ensures r.result.Ok? ==>
              && r.store.Keys == store.Keys - {id}
              && forall k | k in r.store :: r.store[k] == store[k]
    ensures ValidEvents(store) ==> ValidEvents(r.store)
    ensures AttendeesDistinct(store) ==> AttendeesDistinct(r.store)
  {
    match FindById(store, id, isObjectId)
    case Err(f) => Reply(store, Err(f))
    case Ok(e) =>
      if e.owner != caller then Reply(store, Err(NotOwnerDelete))
      else Reply(store - {id}, Ok(()))
  }

  // ----- joinEvent / leaveEvent -----

  /** `POST /events/:id/join`: a repeat join is an error, not a no-op; the
      owner is not treated specially. */
  function JoinEvent(store: EventStore, caller: UserId, id: EventId, isObjectId: string -> bool)
    : (r: Reply<EventStore, Stored>)
    ensures r.result.Err? ==> r.store == store
    ensures !isObjectId(id) ==> r.result == Err(ServerError)
    ensures isObjectId(id) && id !in store ==> r.result == Err(EventNotFound)
    ensures isObjectId(id) && id in store && caller in store[id].attendees ==>
              r.result == Err(AlreadyJoined)
    ensures ValidEvents(store) ==>
              (r.result.Ok? <==> isObjectId(id) && id in store && caller !in store[id].attendees)
    ensures r.result.Ok? ==>
              && id in store
              && r.result.value.id == id
              && r.store == store[id := r.result.value.event]
              && r.result.value.event == store[id].(attendees := store[id].attendees + [caller])
    ensures ValidEvents(store) ==> ValidEvents(r.store)
    ensures AttendeesDistinct(store) ==> AttendeesDistinct(r.store)
  {
    match FindById(store, id, isObjectId)
    case Err(f) => Reply(store, Err(f))
    case Ok(e) =>
      if caller in e.attendees then Reply(store, Err(AlreadyJoined))
      else
        AppendFresh(e.attendees, caller);
        Save(store, id, e.(attendees := e.attendees + [caller]))
  }

  /** `POST /events/:id/leave`: drops every occurrence of the caller and
      succeeds whether or not the caller was there. */
  function LeaveEvent(store: EventStore, caller: UserId, id: EventId, isObjectId: string -> bool)
    : (r: Reply<EventStore, Stored>)
    ensures r.result.Err? ==> r.store == store
    ensures !isObjectId(id) ==> r.result == Err(ServerError)
    ensures isObjectId(id) && id !in store ==> r.result == Err(EventNotFound)
    ensures ValidEvents(store) ==> (r.result.Ok? <==> isObjectId(id) && id in store)
    ensures r.result.Ok? ==>
              && id in store
              && r.result.value.id == id
              && r.store == store[id := r.result.value.event]
              && var before, after := store[id], r.result.value.event;
              && after == before.(attendees := after.attendees)
              && caller !in after.attendees
              && multiset(after.attendees) == multiset(before.attendees)[caller := 0]
              && IsSubsequence(after.attendees, before.attendees)
    ensures ValidEvents(store) ==> ValidEvents(r.store)
    ensures AttendeesDistinct(store) ==> AttendeesDistinct(r.store)
  {
    match FindById(store, id, isObjectId)
    case Err(f) => Reply(store, Err(f))
    case Ok(e) =>
      WithoutNoDuplicates(e.attendees, caller);
      Save(store, id, e.(attendees := Without(e.attendees, caller)))
  }

  // ----- getAllEvents / getMyEvents -----

  /** The query filter: `Event.find()` or `Event.find({ createdBy: owner })`. */
  datatype Filter = All | OwnedBy(owner: UserId)

  predicate Matches(f: Filter, e: Event) {
    f.All? || e.owner == f.owner
  }

  /** `.sort({ date: 1 })`: ascending dates (events with equal dates may come
      in any order). */
  predicate SortedByDate(s: seq<Stored>) {
    forall i, j :: 0 <= i < j < |s| ==> s[i].event.date <= s[j].event.date
  }

  /** Puts `x` into a date-sorted list, after any entries of the same date. */
  function InsertByDate(s: seq<Stored>, x: Stored): (r: seq<Stored>)
    requires SortedByDate(s)
    ensures SortedByDate(r)
    ensures multiset(r) == multiset(s) + multiset{x}
    ensures forall y :: y in r <==> y in s || y == x
  {
    if |s| == 0 || x.event.date < s[0].event.date then [x] + s
    else
      var rest := InsertByDate(s[1..], x);
      InsertStep(s, x, rest);
      [s[0]] + rest
  }

  /** The recursive case of `InsertByDate`: putting the head back in front
      of the insertion into the tail. */
  lemma InsertStep(s: seq<Stored>, x: Stored, rest: seq<Stored>)
    requires SortedByDate(s) && |s| > 0 && s[0].event.date <= x.event.date
    requires SortedByDate(rest)
    requires multiset(rest) == multiset(s[1..]) + multiset{x}
    requires forall y :: y in rest <==> y in s[1..] || y == x
    ensures SortedByDate([s[0]] + rest)
    ensures multiset([s[0]] + rest) == multiset(s) + multiset{x}
    ensures forall y :: y in [s[0]] + rest <==> y in s || y == x
  {
    assert s == [s[0]] + s[1..];
    AllFrom(s[1..], x, rest, s[0].event.date);
    SortedCons(s[0], rest);
  }

  /** A lower bound on the dates of `s` and of `x` bounds every entry of a
      list holding exactly the entries of `s` and `x`. */
  lemma AllFrom(s: seq<Stored>, x: Stored, r: seq<Stored>, d: Date)
    requires forall y :: y in r <==> y in s || y == x
    requires forall k :: 0 <= k < |s| ==> d <= s[k].event.date
    requires d <= x.event.date
    ensures forall k :: 0 <= k < |r| ==> d <= r[k].event.date
  {
    forall k | 0 <= k < |r| ensures d <= r[k].event.date {
      assert r[k] in s || r[k] == x;
    }
  }

  lemma SortedCons(a: Stored, s: seq<Stored>)
    requires SortedByDate(s)
    requires forall k :: 0 <= k < |s| ==> a.event.date <= s[k].event.date
    ensures SortedByDate([a] + s)
  {
    var r := [a] + s;
    forall i, j | 0 <= i < j < |r| ensures r[i].event.date <= r[j].event.date {
      if i > 0 {
        assert r[i] == s[i - 1] && r[j] == s[j - 1];
      } else {
        assert r[j] == s[j - 1];
      }
    }
  }

  /** Inserting an entry not yet listed keeps the list duplicate-free. */
  lemma {:induction false} InsertFresh(s: seq<Stored>, x: Stored)
    requires SortedByDate(s) && NoDuplicates(s) && x !in s
    ensures NoDuplicates(InsertByDate(s, x))
  {
    if |s| > 0 && x.event.date >= s[0].event.date {
      assert s == [s[0]] + s[1..];
      InsertFresh(s[1..], x);
      var rest := InsertByDate(s[1..], x);
      assert s[0] !in rest;
      assert InsertByDate(s, x) == [s[0]] + rest;
    }
  }

  /** `Event.find(filter).sort({ date: 1 })`: every stored event the filter
      matches, each once, as stored, in ascending date order. */
  method FindSorted(store: EventStore, f: Filter) returns (r: seq<Stored>)
    ensures SortedByDate(r)
    ensures NoDuplicates(r)
    ensures forall x :: x in r <==> x.id in store && x.event == store[x.id] && Matches(f, x.event)
  {
    r := [];
    var pending := store.Keys;
    while pending != {}
      invariant pending <= store.Keys
      invariant SortedByDate(r)
      invariant NoDuplicates(r)
      invariant forall x :: x in r <==>
                  x.id in store && x.id !in pending && x.event == store[x.id] && Matches(f, x.event)
      decreases pending
    {
      var id :| id in pending;
      var x := Stored(id, store[id]);
      if Matches(f, x.event) {
        InsertFresh(r, x);
        r := InsertByDate(r, x);
      }
      pending := pending - {id};
    }
  }

  /** `GET /events`: every event, in ascending date order. */
  method GetAllEvents(store: EventStore) returns (r: seq<Stored>)
    ensures SortedByDate(r)
    ensures NoDuplicates(r)
    ensures forall x :: x in r <==> x.id in store && x.event == store[x.id]
  {
    r := FindSorted(store, All);
  }

  /** `GET /events/my`: exactly the caller's own events, in ascending date
      order. */
  method GetMyEvents(store: EventStore, caller: UserId) returns (r: seq<Stored>)
    ensures SortedByDate(r)
    ensures NoDuplicates(r)
    ensures forall x :: x in r <==> x.id in store && x.event == store[x.id] && x.event.owner == caller
  {
    r := FindSorted(store, OwnedBy(caller));
  }

  // ----- properties relating several requests -----

  /** A created event reads back with every field as supplied (strings
      trimmed), owned by its creator and with no attendees. */
  lemma CreateThenGet(store: EventStore, caller: UserId, input: EventInput, freshId: EventId,
                      isObjectId: string -> bool)
    requires isObjectId(freshId)
    ensures var created := CreateEvent(store, caller, input, freshId);
            created.result.Ok? ==>
              GetEventById(created.store, freshId, isObjectId)
              == Ok(Stored(freshId, Event(Trim(input.title.value), TrimField(input.description),
                                          input.date.value, TrimField(input.location), caller, [])))
  {
  }

  /** An update by the owner that supplies no truthy field changes nothing. */
  lemma UpdateWithNothingIsNoOp(store: EventStore, id: EventId, input: EventInput,
                                isObjectId: string -> bool)
    requires ValidEvents(store)
    requires isObjectId(id) && id in store
    requires Falsy(input.title) && Falsy(input.description) && input.date.None?
             && Falsy(input.location)
    ensures UpdateEvent(store, store[id].owner, id, input, isObjectId)
            == Reply(store, Ok(Stored(id, store[id])))
  {
    assert store[id := store[id]] == store;
  }

  /** Repeating an update changes nothing more: the trim setter is
      idempotent. */
  lemma UpdateIdempotent(store: EventStore, caller: UserId, id: EventId, input: EventInput,
                         isObjectId: string -> bool)
    ensures var once := UpdateEvent(store, caller, id, input, isObjectId);
            once.result.Ok? ==> UpdateEvent(once.store, caller, id, input, isObjectId) == once
  {
    var once := UpdateEvent(store, caller, id, input, isObjectId);
    if once.result.Ok? {
      var e := ApplyUpdate(store[id], input);
      assert once == Reply(store[id := e], Ok(Stored(id, e)));
      ApplyUpdateIdempotent(store[id], input);
      assert FindById(once.store, id, isObjectId) == Ok(e);
      assert once.store[id := e] == once.store;
    }
  }

  /** Applying the same field assignments twice is applying them once. */
  lemma ApplyUpdateIdempotent(e: Event, input: EventInput)
    ensures ApplyUpdate(ApplyUpdate(e, input), input) == ApplyUpdate(e, input)
  {
    var once := ApplyUpdate(e, input);
    var twice := ApplyUpdate(once, input);
    assert twice.title == once.title by {
      if !Falsy(input.title) { TrimFixesTrimmed(input.title.value); }
    }
    assert twice.description == once.description by {
      if !Falsy(input.description) { TrimFixesTrimmed(input.description.value); }
    }
    assert twice.location == once.location by {
      if !Falsy(input.location) { TrimFixesTrimmed(input.location.value); }
    }
  }

  /** After the owner deletes an event, looking it up finds nothing. */
  lemma DeleteThenGet(store: EventStore, caller: UserId, id: EventId, isObjectId: string -> bool)
    requires DeleteEvent(store, caller, id, isObjectId).result.Ok?
    ensures GetEventById(DeleteEvent(store, caller, id, isObjectId).store, id, isObjectId)
            == Err(EventNotFound)
  {
  }

  /** A second join by the same user is refused and changes nothing. */
  lemma JoinTwiceRefused(store: EventStore, caller: UserId, id: EventId, isObjectId: string -> bool)
    requires JoinEvent(store, caller, id, isObjectId).result.Ok?
    ensures var once := JoinEvent(store, caller, id, isObjectId);
            JoinEvent(once.store, caller, id, isObjectId) == Reply(once.store, Err(AlreadyJoined))
  {
    var once := JoinEvent(store, caller, id, isObjectId);
    assert caller in once.store[id].attendees;
  }

  /** Nothing stops the owner from joining their own event. */
  lemma OwnerMayJoin(store: EventStore, id: EventId, isObjectId: string -> bool)
    requires ValidEvents(store)
    requires isObjectId(id) && id in store && store[id].owner !in store[id].attendees
    ensures JoinEvent(store, store[id].owner, id, isObjectId).result.Ok?
  {
  }

  /** Leaving an event one has not joined succeeds and changes nothing. */
  lemma LeaveAbsentIsNoOp(store: EventStore, caller: UserId, id: EventId, isObjectId: string -> bool)
    requires ValidEvents(store)
    requires isObjectId(id) && id in store && caller !in store[id].attendees
    ensures LeaveEvent(store, caller, id, isObjectId) == Reply(store, Ok(Stored(id, store[id])))
  {
    WithoutAbsent(store[id].attendees, caller);
    assert store[id].(attendees := store[id].attendees) == store[id];
    assert store[id := store[id]] == store;
  }

  /** Joining and then leaving restores the store exactly. */
  lemma JoinThenLeave(store: EventStore, caller: UserId, id: EventId, isObjectId: string -> bool)
    requires ValidEvents(store)
    requires JoinEvent(store, caller, id, isObjectId).result.Ok?
    ensures var joined := JoinEvent(store, caller, id, isObjectId).store;
            LeaveEvent(joined, caller, id, isObjectId).store == store
  {
    var e := store[id];
    WithoutAppended(e.attendees, caller);
    assert e.(attendees := Without(e.attendees + [caller], caller)) == e;
    assert store[id := e.(attendees := e.attendees + [caller])][id := e] == store;
  }
}
