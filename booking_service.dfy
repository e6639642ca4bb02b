/** The booking engine: creation behind an existence and capacity check, the
    booker's and the event owner's booking lists, and cancellation by the
    booking's own creator. */
module BookingService {
  import opened Models
  import opened Tables
  import opened Database

  /** Why creation is refused. The source returns the same null for both. */
  datatype Rejection = EventNotFound | EventFull

  /** `b.Event.Title`. Every booking refers to a stored event (a required
      foreign key), so in a consistent store the empty fallback is never taken. */
  function EventTitle(events: seq<Event>, eventId: int): string {
    match FindEvent(events, eventId)
    case Some(k) => events[k].title
    case None => ""
  }

  /** The `new BookingDto { ... }` projection of one booking. */
  function ToBookingDto(b: Booking, events: seq<Event>): BookingDto {
    BookingDto(b.id, b.eventId, EventTitle(events, b.eventId), b.name, b.email, b.phone, b.additionalInfo, b.bookedAt)
  }

  /** `Select(b => new BookingDto { ... })`, row by row. */
  function ToBookingDtos(bookings: seq<Booking>, events: seq<Event>): seq<BookingDto> {
    seq(|bookings|, i requires 0 <= i < |bookings| => ToBookingDto(bookings[i], events))
  }

  /** The projection holds the DTO of every listed booking, and nothing else. */
  lemma ToBookingDtosMembers(bookings: seq<Booking>, events: seq<Event>)
    ensures forall b :: b in bookings ==> ToBookingDto(b, events) in ToBookingDtos(bookings, events)
    ensures forall d :: d in ToBookingDtos(bookings, events) ==>
      exists b :: b in bookings && d == ToBookingDto(b, events)
  {
    var r := ToBookingDtos(bookings, events);
    forall b | b in bookings ensures ToBookingDto(b, events) in r {
      var i :| 0 <= i < |bookings| && bookings[i] == b;
      assert r[i] == ToBookingDto(b, events);
    }
    forall d | d in r ensures exists b :: b in bookings && d == ToBookingDto(b, events) {
      var i :| 0 <= i < |r| && r[i] == d;
      assert bookings[i] in bookings;
    }
  }

  /** The title a booking's DTO carries is the title of the booking's event. */
  lemma DtoCarriesEventTitle(b: Booking, events: seq<Event>, e: Event)
    requires Ascending(events, EventKey)
    requires e in events && e.id == b.eventId
    ensures ToBookingDto(b, events).eventTitle == e.title
    ensures ToBookingDto(b, events).id == b.id && ToBookingDto(b, events).eventId == e.id
  {
    FindEventUnique(events, b.eventId, e);
  }

  /** The checks `CreateBookingAsync` makes before inserting: the event must
      exist, and its live booking count must be below its capacity. */
  function CheckBooking(events: seq<Event>, bookings: seq<Booking>, eventId: int): (r: Option<Rejection>)
    requires Ascending(events, EventKey)
    ensures r == Some(EventNotFound) <==> eventId !in EventIds(events)
    ensures forall e :: e in events && e.id == eventId ==>
      (r == Some(EventFull) <==> AttendeeCount(bookings, eventId) >= e.maxAttendees)
    ensures r.None? ==> forall e :: e in events && e.id == eventId ==>
      AttendeeCount(bookings, eventId) < e.maxAttendees
  {
    match FindEvent(events, eventId)
    case None => Some(EventNotFound)
    case Some(k) =>
      assert events[k] in events;
      assert forall e :: e in events && e.id == eventId ==> e == events[k] by {
        forall e | e in events && e.id == eventId ensures e == events[k] {
          FindEventUnique(events, eventId, e);
        }
      }
      if AttendeeCount(bookings, eventId) >= events[k].maxAttendees then Some(EventFull) else None
  }

  /** The capacity test as the source writes it. It counts `@event.Bookings`,
      a navigation collection the query never loads (only `CreatedByUser` is
      included), so on a fresh context it keeps its initial empty list: the
      count compared is that of `loaded`, the empty sequence, whatever the
      `Bookings` table holds. */
  function CheckBookingAsWritten(events: seq<Event>, eventId: int): (r: Option<Rejection>)
    ensures r == Some(EventNotFound) <==> FindEvent(events, eventId).None?
    ensures FindEvent(events, eventId).Some? ==>
      (r == Some(EventFull) <==> events[FindEvent(events, eventId).value].maxAttendees <= 0)
  {
    match FindEvent(events, eventId)
    case None => Some(EventNotFound)
    case Some(k) =>
      var loaded: seq<Booking> := [];
      if |loaded| >= events[k].maxAttendees then Some(EventFull) else None
  }

  /** As written, the capacity test never refuses an event of positive capacity. */
  lemma AsWrittenNeverFull(events: seq<Event>, e: Event)
    requires Ascending(events, EventKey)
    requires e in events && e.maxAttendees > 0
    ensures CheckBookingAsWritten(events, e.id) == None
  {
    FindEventUnique(events, e.id, e);
  }

  /** An event of capacity one that already holds one booking: the intended
      check refuses a second booking, the check as written admits it, and the
      table would then exceed the capacity. */
  lemma AsWrittenOverbooks()
    ensures var events := [Event(1, "Talk", "", 0, "Hall", 1, "", 1, 0)];
      var bookings := [Booking(1, 1, 2, "Ann", "ann@example.org", "", "", 0)];
      var second := Booking(2, 1, 3, "Bob", "bob@example.org", "", "", 0);
      && CheckBooking(events, bookings, 1) == Some(EventFull)
      && CheckBookingAsWritten(events, 1) == None
      && !WithinCapacity(events, bookings + [second])
  {
    var events := [Event(1, "Talk", "", 0, "Hall", 1, "", 1, 0)];
    var bookings := [Booking(1, 1, 2, "Ann", "ann@example.org", "", "", 0)];
    var second := Booking(2, 1, 3, "Bob", "bob@example.org", "", "", 0);
    AttendeeCountAppend([], bookings[0], 1);
    assert [] + bookings == bookings;
    AttendeeCountAppend(bookings, second, 1);
    AttendeeCountUnreferenced([], 1);
    assert events[0] in events;
  }

  /** A booking admitted by the check keeps every event within its capacity. */
  lemma BookingKeepsCapacity(events: seq<Event>, bookings: seq<Booking>, b: Booking)
    requires Ascending(events, EventKey)
    requires WithinCapacity(events, bookings)
    requires CheckBooking(events, bookings, b.eventId) == None
    ensures WithinCapacity(events, bookings + [b])
  {
    forall e | e in events
      ensures AttendeeCount(bookings + [b], e.id) <= e.maxAttendees
    {
      AttendeeCountAppend(bookings, b, e.id);
    }
  }

  /** An admitted booking leaves its event at most full, whatever held before. */
  lemma AdmittedBookingFits(events: seq<Event>, bookings: seq<Booking>, b: Booking, e: Event)
    requires Ascending(events, EventKey)
    requires CheckBooking(events, bookings, b.eventId) == None
    requires e in events && e.id == b.eventId
    ensures AttendeeCount(bookings + [b], e.id) == AttendeeCount(bookings, e.id) + 1 <= e.maxAttendees
  {
    AttendeeCountAppend(bookings, b, e.id);
  }

  /** Appending a booking with the next id, for a stored event and user, keeps the store consistent. */
  lemma ConsistentAfterBooking(
    users: seq<User>, events: seq<Event>, bookings: seq<Booking>,
    nextUserId: int, nextEventId: int, nextBookingId: int, b: Booking)
    requires Consistent(users, events, bookings, nextUserId, nextEventId, nextBookingId)
    requires b.id == nextBookingId && b.eventId in EventIds(events) && b.userId in UserIds(users)
    ensures Consistent(users, events, bookings + [b], nextUserId, nextEventId, nextBookingId + 1)
  {
    var s := bookings + [b];
    assert forall x :: x in s ==> x in bookings || x == b;
    assert Ascending(s, BookingKey) by {
      forall i, j | 0 <= i < j < |s| ensures BookingKey(s[i]) < BookingKey(s[j]) {
        if j == |bookings| { assert s[i] == bookings[i]; }
      }
    }
  }

  /** `CreateBookingAsync`. The notification e-mail it sends afterwards has no
      effect on the store and is not modelled. */
  method CreateBooking(db: Store, request: CreateBookingRequest, userId: int, now: Instant)
    returns (r: Option<BookingDto>)
    requires db.Valid()
    requires userId in UserIds(db.users) || CheckBooking(db.events, db.bookings, request.eventId).Some?
    modifies db
    ensures db.Valid()
    ensures r.None? <==> CheckBooking(old(db.events), old(db.bookings), request.eventId).Some?
    ensures r.None? ==> unchanged(db)
    ensures r.Some? ==>
      var b := Booking(old(db.nextBookingId), request.eventId, userId, request.name,
                       request.email, request.phone, request.additionalInfo, now);
      && db.bookings == old(db.bookings) + [b]
      && db.nextBookingId == old(db.nextBookingId) + 1
      && db.users == old(db.users) && db.events == old(db.events)
      && db.nextUserId == old(db.nextUserId) && db.nextEventId == old(db.nextEventId)
      && r.value == ToBookingDto(b, db.events)
    ensures r.Some? ==> forall e :: e in db.events && e.id == request.eventId ==>
      && r.value.eventTitle == e.title
      && AttendeeCount(db.bookings, e.id) == AttendeeCount(old(db.bookings), e.id) + 1 <= e.maxAttendees
    ensures forall id :: id != request.eventId ==> AttendeeCount(db.bookings, id) == AttendeeCount(old(db.bookings), id)
    ensures old(WithinCapacity(db.events, db.bookings)) ==> WithinCapacity(db.events, db.bookings)
  {
    ghost var reason := CheckBooking(db.events, db.bookings, request.eventId);
    var k := FindEvent(db.events, request.eventId);
    if k.None? {
      return None;
    }
    var ev := db.events[k.value];
    assert ev in db.events;
    // The source compares `@event.Bookings.Count`, a collection it never loads
    // (see CheckBookingAsWritten); the model counts the event's live bookings.
    if AttendeeCount(db.bookings, ev.id) >= ev.maxAttendees {
      return None;
    }
    assert reason == None;
    assert userId in UserIds(db.users);
    var b := Booking(db.nextBookingId, request.eventId, userId, request.name,
                     request.email, request.phone, request.additionalInfo, now);
    ConsistentAfterBooking(db.users, db.events, db.bookings, db.nextUserId, db.nextEventId, db.nextBookingId, b);
    if WithinCapacity(db.events, db.bookings) {
      BookingKeepsCapacity(db.events, db.bookings, b);
    }
    forall e | e in db.events && e.id == request.eventId
      ensures AttendeeCount(db.bookings + [b], e.id) == AttendeeCount(db.bookings, e.id) + 1 <= e.maxAttendees
    {
      AdmittedBookingFits(db.events, db.bookings, b, e);
    }
    forall id | id != request.eventId
      ensures AttendeeCount(db.bookings + [b], id) == AttendeeCount(db.bookings, id)
    {
      AttendeeCountAppend(db.bookings, b, id);
    }
    forall e | e in db.events && e.id == request.eventId
      ensures ToBookingDto(b, db.events).eventTitle == e.title
    {
      DtoCarriesEventTitle(b, db.events, e);
    }
    db.bookings := db.bookings + [b];
    db.nextBookingId := db.nextBookingId + 1;
    r := Some(ToBookingDto(b, db.events));
  }

  /** `GetUserBookingsAsync`: the caller's own bookings, each once, with their events' titles. */
  function GetUserBookings(events: seq<Event>, bookings: seq<Booking>, userId: int): (r: seq<BookingDto>)
    ensures forall b :: b in bookings && b.userId == userId ==> ToBookingDto(b, events) in r
    ensures forall d :: d in r ==> exists b :: b in bookings && b.userId == userId && d == ToBookingDto(b, events)
    ensures Ascending(bookings, BookingKey) ==> |r| == |set b | b in bookings && b.userId == userId|
  {
    var p := (b: Booking) => b.userId == userId;
    var mine := Filter(bookings, p);
    var r := ToBookingDtos(mine, events);
    ToBookingDtosMembers(mine, events);
    assert Ascending(bookings, BookingKey) ==> |r| == |set b | b in bookings && b.userId == userId| by {
      if Ascending(bookings, BookingKey) {
        FilterAscending(bookings, p, BookingKey);
        AscendingCard(mine, BookingKey);
        assert (set x | x in mine) == (set b | b in bookings && b.userId == userId);
      }
    }
    r
  }

  /** `GetEventBookingsAsync`: the event's bookings, for its creator only;
      for anyone else, and for an absent event, the empty list. */
  function GetEventBookings(events: seq<Event>, bookings: seq<Booking>, eventId: int, userId: int): (r: seq<BookingDto>)
    requires Ascending(events, EventKey)
    ensures !Owns(events, eventId, userId) ==> r == []
    ensures Owns(events, eventId, userId) ==>
      forall b :: b in bookings && b.eventId == eventId ==> ToBookingDto(b, events) in r
    ensures forall d :: d in r ==> exists b :: b in bookings && b.eventId == eventId && d == ToBookingDto(b, events)
    ensures Owns(events, eventId, userId) ==> |r| == AttendeeCount(bookings, eventId)
  {
    OwnsByLookup(events, eventId, userId);
    match FindEvent(events, eventId)
    case None => []
    case Some(k) =>
      if events[k].createdByUserId != userId then []
      else
        var theirs := EventBookings(bookings, eventId);
        ToBookingDtosMembers(theirs, events);
        ToBookingDtos(theirs, events)
  }

  /** Removing one booking keeps every event within its capacity. */
  lemma CancelKeepsCapacity(events: seq<Event>, bookings: seq<Booking>, k: nat)
    requires k < |bookings|
    requires WithinCapacity(events, bookings)
    ensures WithinCapacity(events, RemoveAt(bookings, k))
  {
    forall e | e in events
      ensures AttendeeCount(RemoveAt(bookings, k), e.id) <= e.maxAttendees
    {
      AttendeeCountRemoveAt(bookings, k, e.id);
    }
  }

  /** Removing one booking keeps the store consistent. */
  lemma ConsistentAfterCancel(
    users: seq<User>, events: seq<Event>, bookings: seq<Booking>,
    nextUserId: int, nextEventId: int, nextBookingId: int, k: nat)
    requires Consistent(users, events, bookings, nextUserId, nextEventId, nextBookingId)
    requires k < |bookings|
    ensures Consistent(users, events, RemoveAt(bookings, k), nextUserId, nextEventId, nextBookingId)
  {
    RemoveAtAscending(bookings, k, BookingKey);
    RemoveAtByKey(bookings, k, BookingKey);
  }

  /** `CancelBookingAsync`: only the booking's creator may cancel it; an absent
      booking and someone else's booking give the same `false`. */
  method CancelBooking(db: Store, bookingId: int, userId: int) returns (ok: bool)
    requires db.Valid()
    modifies db
    ensures db.Valid()
    ensures ok <==> exists b :: b in old(db.bookings) && b.id == bookingId && b.userId == userId
    ensures !ok ==> unchanged(db)
    ensures ok ==>
      && FindBooking(old(db.bookings), bookingId).Some?
      && db.bookings == RemoveAt(old(db.bookings), FindBooking(old(db.bookings), bookingId).value)
      && db.users == old(db.users) && db.events == old(db.events)
      && db.nextUserId == old(db.nextUserId) && db.nextEventId == old(db.nextEventId)
      && db.nextBookingId == old(db.nextBookingId)
    ensures ok ==> forall b :: b in db.bookings <==> b in old(db.bookings) && b.id != bookingId
    ensures old(WithinCapacity(db.events, db.bookings)) ==> WithinCapacity(db.events, db.bookings)
  {
    var k := FindBooking(db.bookings, bookingId);
    if k.None? {
      return false;
    }
    var b := db.bookings[k.value];
    assert b in db.bookings;
    assert forall x :: x in db.bookings && x.id == bookingId ==> x == b by {
      forall x | x in db.bookings && x.id == bookingId ensures x == b {
        KeyDeterminesRow(db.bookings, k.value, x, BookingKey);
      }
    }
    if b.userId != userId {
      return false;
    }
    ConsistentAfterCancel(db.users, db.events, db.bookings, db.nextUserId, db.nextEventId, db.nextBookingId, k.value);
    RemoveAtByKey(db.bookings, k.value, BookingKey);
    if WithinCapacity(db.events, db.bookings) {
      CancelKeepsCapacity(db.events, db.bookings, k.value);
    }
    db.bookings := RemoveAt(db.bookings, k.value);
    ok := true;
  }
}
