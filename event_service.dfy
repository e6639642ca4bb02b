/** The event ownership engine: event listings with a live attendee count,
    creation by any user, and update and delete by the event's creator only. */
module EventService {
  import opened Models
  import opened Tables
  import opened Database

  /** `e.CreatedByUser.Name`. Every event's creator is a stored user (a required
      foreign key), so in a consistent store the empty fallback is never taken. */
  function OwnerName(users: seq<User>, userId: int): string {
    match FindUser(users, userId)
    case Some(k) => users[k].name
    case None => ""
  }

  /** The `new EventDto { ... }` projection of one event. */
  function ToEventDto(e: Event, users: seq<User>, bookings: seq<Booking>): EventDto {
    EventDto(e.id, e.title, e.description, e.eventDate, e.location, e.maxAttendees,
             AttendeeCount(bookings, e.id), e.imageUrl, e.createdByUserId,
             OwnerName(users, e.createdByUserId), e.createdAt)
  }

  /** `d` shows the stored columns of `e` unchanged. */
  predicate Shows(d: EventDto, e: Event) {
    && d.id == e.id && d.title == e.title && d.description == e.description
    && d.eventDate == e.eventDate && d.location == e.location
    && d.maxAttendees == e.maxAttendees && d.imageUrl == e.imageUrl
    && d.createdByUserId == e.createdByUserId && d.createdAt == e.createdAt
  }

  /** An event's DTO shows its stored columns, its creator's name, and as
      `CurrentAttendees` the number of distinct bookings of that event. */
  lemma EventDtoIsLive(e: Event, users: seq<User>, bookings: seq<Booking>, owner: User)
    requires Ascending(users, UserKey) && Ascending(bookings, BookingKey)
    requires owner in users && owner.id == e.createdByUserId
    ensures Shows(ToEventDto(e, users, bookings), e)
    ensures ToEventDto(e, users, bookings).createdByUserName == owner.name
    ensures ToEventDto(e, users, bookings).currentAttendees == |set b | b in bookings && b.eventId == e.id|
  {
    AttendeeCountIsCardinality(bookings, e.id);
    var k := FindUser(users, e.createdByUserId);
    assert k.Some?;
    KeyDeterminesRow(users, k.value, owner, UserKey);
  }

  /** `Select(e => new EventDto { ... })`, row by row. */
  function ToEventDtos(events: seq<Event>, users: seq<User>, bookings: seq<Booking>): seq<EventDto> {
    seq(|events|, i requires 0 <= i < |events| => ToEventDto(events[i], users, bookings))
  }

  /** The projection holds the DTO of every listed event, and nothing else. */
  lemma ToEventDtosMembers(events: seq<Event>, users: seq<User>, bookings: seq<Booking>)
    ensures forall e :: e in events ==> ToEventDto(e, users, bookings) in ToEventDtos(events, users, bookings)
    ensures forall d :: d in ToEventDtos(events, users, bookings) ==>
      exists e :: e in events && d == ToEventDto(e, users, bookings)
  {
    var r := ToEventDtos(events, users, bookings);
    forall e | e in events ensures ToEventDto(e, users, bookings) in r {
      var i :| 0 <= i < |events| && events[i] == e;
      assert r[i] == ToEventDto(e, users, bookings);
    }
    forall d | d in r ensures exists e :: e in events && d == ToEventDto(e, users, bookings) {
      var i :| 0 <= i < |r| && r[i] == d;
      assert events[i] in events;
    }
  }

  /** `GetAllEventsAsync`: one DTO per stored event, in table order, each
      counting that event's live bookings. */
  function GetAllEvents(users: seq<User>, events: seq<Event>, bookings: seq<Booking>): (r: seq<EventDto>)
    ensures |r| == |events|
    ensures forall i :: 0 <= i < |events| ==>
      && Shows(r[i], events[i])
      && r[i].currentAttendees == AttendeeCount(bookings, events[i].id)
      && r[i].createdByUserName == OwnerName(users, events[i].createdByUserId)
    ensures Ascending(bookings, BookingKey) ==> forall i :: 0 <= i < |events| ==>
      r[i].currentAttendees == |set b | b in bookings && b.eventId == events[i].id|
  {
    var r := ToEventDtos(events, users, bookings);
    assert Ascending(bookings, BookingKey) ==> forall i :: 0 <= i < |events| ==>
      r[i].currentAttendees == |set b | b in bookings && b.eventId == events[i].id| by {
      if Ascending(bookings, BookingKey) {
        forall i | 0 <= i < |events|
          ensures r[i].currentAttendees == |set b | b in bookings && b.eventId == events[i].id|
        {
          AttendeeCountIsCardinality(bookings, events[i].id);
        }
      }
    }
    r
  }

  /** `GetEventByIdAsync`: null for an absent id, otherwise the event's DTO. */
  function GetEventById(users: seq<User>, events: seq<Event>, bookings: seq<Booking>, id: int): (r: Option<EventDto>)
    requires Ascending(events, EventKey)
    ensures r.None? <==> id !in EventIds(events)
    ensures forall e :: e in events && e.id == id ==> r == Some(ToEventDto(e, users, bookings))
    ensures r.Some? ==> r.value.id == id && r.value.currentAttendees == AttendeeCount(bookings, id)
  {
    match FindEvent(events, id)
    case None => None
    case Some(k) =>
      assert events[k] in events;
      assert forall e :: e in events && e.id == id ==> e == events[k] by {
        forall e | e in events && e.id == id ensures e == events[k] {
          FindEventUnique(events, id, e);
        }
      }
      Some(ToEventDto(events[k], users, bookings))
  }

  /** `GetUserEventsAsync`: exactly the events the caller created, each once. */
  function GetUserEvents(users: seq<User>, events: seq<Event>, bookings: seq<Booking>, userId: int): (r: seq<EventDto>)
    ensures forall e :: e in events && e.createdByUserId == userId ==> ToEventDto(e, users, bookings) in r
    ensures forall d :: d in r ==>
      exists e :: e in events && e.createdByUserId == userId && d == ToEventDto(e, users, bookings)
    ensures Ascending(events, EventKey) ==> |r| == |set e | e in events && e.createdByUserId == userId|
  {
    var p := (e: Event) => e.createdByUserId == userId;
    var mine := Filter(events, p);
    ToEventDtosMembers(mine, users, bookings);
    assert Ascending(events, EventKey) ==> |mine| == |set e | e in events && e.createdByUserId == userId| by {
      if Ascending(events, EventKey) {
        FilterAscending(events, p, EventKey);
        AscendingCard(mine, EventKey);
        assert (set x | x in mine) == (set e | e in events && e.createdByUserId == userId);
      }
    }
    ToEventDtos(mine, users, bookings)
  }

  /** A new event's id is above every stored id, so no booking refers to it yet. */
  lemma NewEventUnbooked(
    users: seq<User>, events: seq<Event>, bookings: seq<Booking>,
    nextUserId: int, nextEventId: int, nextBookingId: int)
    requires Consistent(users, events, bookings, nextUserId, nextEventId, nextBookingId)
    ensures AttendeeCount(bookings, nextEventId) == 0
  {
    forall b | b in bookings ensures b.eventId != nextEventId {
      assert b.eventId in EventIds(events);
      var e :| e in events && e.id == b.eventId;
      var i :| 0 <= i < |events| && events[i] == e;
      assert EventKey(events[i]) < nextEventId;
    }
    AttendeeCountUnreferenced(bookings, nextEventId);
  }

  /** Appending an event with the next id, created by a stored user, keeps the store consistent. */
  lemma ConsistentAfterCreate(
    users: seq<User>, events: seq<Event>, bookings: seq<Booking>,
    nextUserId: int, nextEventId: int, nextBookingId: int, e: Event)
    requires Consistent(users, events, bookings, nextUserId, nextEventId, nextBookingId)
    requires e.id == nextEventId && e.createdByUserId in UserIds(users)
    ensures Consistent(users, events + [e], bookings, nextUserId, nextEventId + 1, nextBookingId)
  {
    var s := events + [e];
    assert forall x :: x in s ==> x in events || x == e;
    assert Ascending(s, EventKey) by {
      forall i, j | 0 <= i < j < |s| ensures EventKey(s[i]) < EventKey(s[j]) {
        if j == |events| { assert s[i] == events[i]; }
      }
    }
    assert EventIds(events) <= EventIds(s);
  }

  /** `CreateEventAsync`: any caller may create an event; it starts with no bookings. */
  method CreateEvent(db: Store, request: EventRequest, userId: int, now: Instant) returns (r: EventDto)
    requires db.Valid()
    requires userId in UserIds(db.users)
    modifies db
    ensures db.Valid()
    ensures
      var e := Event(old(db.nextEventId), request.title, request.description, request.eventDate,
                     request.location, request.maxAttendees, request.imageUrl, userId, now);
      && db.events == old(db.events) + [e]
      && db.nextEventId == old(db.nextEventId) + 1
      && db.users == old(db.users) && db.bookings == old(db.bookings)
      && db.nextUserId == old(db.nextUserId) && db.nextBookingId == old(db.nextBookingId)
      && r == ToEventDto(e, db.users, db.bookings)
    ensures r.currentAttendees == 0
    ensures WithinCapacity(db.events, db.bookings) <==>
      old(WithinCapacity(db.events, db.bookings)) && 0 <= request.maxAttendees
  {
    var e := Event(db.nextEventId, request.title, request.description, request.eventDate,
                   request.location, request.maxAttendees, request.imageUrl, userId, now);
    NewEventUnbooked(db.users, db.events, db.bookings, db.nextUserId, db.nextEventId, db.nextBookingId);
    ConsistentAfterCreate(db.users, db.events, db.bookings, db.nextUserId, db.nextEventId, db.nextBookingId, e);
    assert forall x :: x in db.events + [e] <==> x in db.events || x == e;
    db.events := db.events + [e];
    db.nextEventId := db.nextEventId + 1;
    assert e in db.events;
    var found := GetEventById(db.users, db.events, db.bookings, e.id);
    r := found.value;
  }

  /** The six assignments of `UpdateEventAsync`. */
  function Overwrite(e: Event, request: EventRequest): (r: Event)
    ensures r.id == e.id && r.createdByUserId == e.createdByUserId && r.createdAt == e.createdAt
    ensures EventRequest(r.title, r.description, r.eventDate, r.location, r.maxAttendees, r.imageUrl) == request
  {
    e.(title := request.title, description := request.description, eventDate := request.eventDate,
       location := request.location, maxAttendees := request.maxAttendees, imageUrl := request.imageUrl)
  }

  /** After an update the store stays within capacity exactly when the other
      events were, and the event's live count fits the new capacity; the new
      capacity is not checked against that count. */
  lemma UpdateCapacity(events: seq<Event>, bookings: seq<Booking>, k: nat, request: EventRequest)
    requires k < |events| && Ascending(events, EventKey)
    ensures WithinCapacity(events[k := Overwrite(events[k], request)], bookings) <==>
      && (forall e :: e in events && e.id != events[k].id ==> AttendeeCount(bookings, e.id) <= e.maxAttendees)
      && AttendeeCount(bookings, events[k].id) <= request.maxAttendees
  {
    var s := events[k := Overwrite(events[k], request)];
    assert s[k] in s;
    forall e | e in events && e.id != events[k].id ensures e in s {
      var i :| 0 <= i < |events| && events[i] == e;
      assert s[i] == e;
    }
    forall e | e in s && e.id != events[k].id ensures e in events {
      var i :| 0 <= i < |s| && s[i] == e;
      assert events[i] == e;
    }
  }

  /** Rewriting one event in place keeps the store consistent. */
  lemma ConsistentAfterUpdate(
    users: seq<User>, events: seq<Event>, bookings: seq<Booking>,
    nextUserId: int, nextEventId: int, nextBookingId: int, k: nat, request: EventRequest)
    requires Consistent(users, events, bookings, nextUserId, nextEventId, nextBookingId)
    requires k < |events|
    ensures Consistent(users, events[k := Overwrite(events[k], request)], bookings, nextUserId, nextEventId, nextBookingId)
  {
    var s := events[k := Overwrite(events[k], request)];
    assert forall i :: 0 <= i < |s| ==> EventKey(s[i]) == EventKey(events[i]);
    assert EventIds(s) == EventIds(events) by {
      forall id | id in EventIds(events) ensures id in EventIds(s) {
        var e :| e in events && e.id == id;
        var i :| 0 <= i < |events| && events[i] == e;
        assert s[i] in s;
      }
      forall id | id in EventIds(s) ensures id in EventIds(events) {
        var e :| e in s && e.id == id;
        var i :| 0 <= i < |s| && s[i] == e;
        assert events[i] in events;
      }
    }
    forall e | e in s ensures e.createdByUserId in UserIds(users) {
      var i :| 0 <= i < |s| && s[i] == e;
      assert events[i] in events;
    }
  }

  /** `UpdateEventAsync`: only the event's creator may update it; an absent
      event and someone else's event give the same null. */
  method UpdateEvent(db: Store, id: int, request: EventRequest, userId: int) returns (r: Option<EventDto>)
    requires db.Valid()
    modifies db
    ensures db.Valid()
    ensures r.None? <==> !Owns(old(db.events), id, userId)
    ensures r.None? ==> unchanged(db)
    ensures r.Some? ==>
      && FindEvent(old(db.events), id).Some?
      && var k := FindEvent(old(db.events), id).value;
      && db.events == old(db.events)[k := Overwrite(old(db.events)[k], request)]
      && db.users == old(db.users) && db.bookings == old(db.bookings)
      && db.nextUserId == old(db.nextUserId) && db.nextEventId == old(db.nextEventId)
      && db.nextBookingId == old(db.nextBookingId)
      && r.value == ToEventDto(db.events[k], db.users, db.bookings)
    ensures r.Some? && AttendeeCount(db.bookings, id) > request.maxAttendees ==>
      !WithinCapacity(db.events, db.bookings)
    ensures (r.Some? && old(WithinCapacity(db.events, db.bookings)) &&
             AttendeeCount(db.bookings, id) <= request.maxAttendees) ==>
      WithinCapacity(db.events, db.bookings)
  {
    OwnsByLookup(db.events, id, userId);
    var k := FindEvent(db.events, id);
    if k.None? || db.events[k.value].createdByUserId != userId {
      return None;
    }
    var i := k.value;
    UpdateCapacity(db.events, db.bookings, i, request);
    ConsistentAfterUpdate(db.users, db.events, db.bookings, db.nextUserId, db.nextEventId, db.nextBookingId, i, request);
    db.events := db.events[i := Overwrite(db.events[i], request)];
    assert db.events[i] in db.events && db.events[i].id == id;
    var found := GetEventById(db.users, db.events, db.bookings, id);
    r := found;
  }

  /** Deleting an event keeps every remaining event within its capacity. */
  lemma DeleteKeepsCapacity(events: seq<Event>, bookings: seq<Booking>, k: nat)
    requires k < |events| && Ascending(events, EventKey)
    requires WithinCapacity(events, bookings)
    ensures WithinCapacity(RemoveAt(events, k), CascadeDelete(bookings, events[k].id))
  {
    RemoveAtByKey(events, k, EventKey);
    forall e | e in RemoveAt(events, k)
      ensures AttendeeCount(CascadeDelete(bookings, events[k].id), e.id) <= e.maxAttendees
    {
      CascadeKeepsOthers(bookings, events[k].id, e.id);
    }
  }

  /** Deleting an event together with its bookings keeps the store consistent;
      without the cascade, its bookings would refer to no event. */
  lemma ConsistentAfterDelete(
    users: seq<User>, events: seq<Event>, bookings: seq<Booking>,
    nextUserId: int, nextEventId: int, nextBookingId: int, k: nat)
    requires Consistent(users, events, bookings, nextUserId, nextEventId, nextBookingId)
    requires k < |events|
    ensures Consistent(users, RemoveAt(events, k), CascadeDelete(bookings, events[k].id),
                       nextUserId, nextEventId, nextBookingId)
  {
    var es := RemoveAt(events, k);
    var bs := CascadeDelete(bookings, events[k].id);
    RemoveAtAscending(events, k, EventKey);
    RemoveAtByKey(events, k, EventKey);
    FilterAscending(bookings, (b: Booking) => b.eventId != events[k].id, BookingKey);
    forall i | 0 <= i < |bs| ensures 0 < BookingKey(bs[i]) < nextBookingId {
      assert bs[i] in bookings;
      var j :| 0 <= j < |bookings| && bookings[j] == bs[i];
    }
    forall i | 0 <= i < |es| ensures 0 < EventKey(es[i]) < nextEventId {
      assert es[i] in events;
      var j :| 0 <= j < |events| && events[j] == es[i];
    }
    forall b | b in bs ensures b.eventId in EventIds(es) {
      var e :| e in events && e.id == b.eventId;
      assert e in es;
    }
  }

  /** `DeleteEventAsync`: only the event's creator may delete it; its bookings
      go with it. An absent event and someone else's event give the same `false`. */
  method DeleteEvent(db: Store, id: int, userId: int) returns (ok: bool)
    requires db.Valid()
    modifies db
    ensures db.Valid()
    ensures ok <==> Owns(old(db.events), id, userId)
    ensures !ok ==> unchanged(db)
    ensures ok ==>
      && FindEvent(old(db.events), id).Some?
      && db.events == RemoveAt(old(db.events), FindEvent(old(db.events), id).value)
      && db.bookings == CascadeDelete(old(db.bookings), id)
      && db.users == old(db.users)
      && db.nextUserId == old(db.nextUserId) && db.nextEventId == old(db.nextEventId)
      && db.nextBookingId == old(db.nextBookingId)
    ensures ok ==> forall e :: e in db.events <==> e in old(db.events) && e.id != id
    ensures ok ==> AttendeeCount(db.bookings, id) == 0
    ensures ok ==> forall other :: other != id ==>
      EventBookings(db.bookings, other) == EventBookings(old(db.bookings), other)
    ensures old(WithinCapacity(db.events, db.bookings)) ==> WithinCapacity(db.events, db.bookings)
  {
    OwnsByLookup(db.events, id, userId);
    var k := FindEvent(db.events, id);
    if k.None? || db.events[k.value].createdByUserId != userId {
      return false;
    }
    var i := k.value;
    ConsistentAfterDelete(db.users, db.events, db.bookings, db.nextUserId, db.nextEventId, db.nextBookingId, i);
    RemoveAtByKey(db.events, i, EventKey);
    CascadeEmptiesEvent(db.bookings, id);
    forall other | other != id
      ensures EventBookings(CascadeDelete(db.bookings, id), other) == EventBookings(db.bookings, other)
    {
      CascadeKeepsOthers(db.bookings, id, other);
    }
    if WithinCapacity(db.events, db.bookings) {
      DeleteKeepsCapacity(db.events, db.bookings, i);
    }
    db.events := RemoveAt(db.events, i);
    db.bookings := CascadeDelete(db.bookings, id);
    ok := true;
  }
}
