/** The application's database context: the `Users`, `Events` and `Bookings`
    tables, the ids the database will assign next, and what the schema
    guarantees about them (primary keys, the unique e-mail the registration
    code keeps, required foreign keys). Attendee counts are derived from the
    live `Bookings` table and never stored. */
module Database {
  import opened Models
  import opened Tables

  function UserKey(u: User): int { u.id }
  function EventKey(e: Event): int { e.id }
  function BookingKey(b: Booking): int { b.id }

  /** Primary keys as the database assigns them: positive, increasing in row
      order, and below the id the next insert receives. */
  ghost predicate Keyed<T(!new)>(s: seq<T>, key: T -> int, next: int) {
    && 0 < next
    && Ascending(s, key)
    && forall i :: 0 <= i < |s| ==> 0 < key(s[i]) < next
  }

  function UserIds(users: seq<User>): set<int> { set u | u in users :: u.id }
  function EventIds(events: seq<Event>): set<int> { set e | e in events :: e.id }

  ghost predicate UniqueEmails(users: seq<User>) {
    forall i, j :: 0 <= i < j < |users| ==> users[i].email != users[j].email
  }

  /** Everything the store keeps true between requests. */
  ghost predicate Consistent(
    users: seq<User>, events: seq<Event>, bookings: seq<Booking>,
    nextUserId: int, nextEventId: int, nextBookingId: int)
  {
    && Keyed(users, UserKey, nextUserId)
    && Keyed(events, EventKey, nextEventId)
    && Keyed(bookings, BookingKey, nextBookingId)
    && UniqueEmails(users)
    && (forall e :: e in events ==> e.createdByUserId in UserIds(users))
    && (forall b :: b in bookings ==> b.eventId in EventIds(events) && b.userId in UserIds(users))
  }

  /** `Events.FirstOrDefault(e => e.Id == id)`. */
  function FindEvent(events: seq<Event>, id: int): Option<nat> {
    FirstIndex(events, (e: Event) => e.id == id)
  }

  /** `Bookings.FirstOrDefault(b => b.Id == id)`. */
  function FindBooking(bookings: seq<Booking>, id: int): Option<nat> {
    FirstIndex(bookings, (b: Booking) => b.id == id)
  }

  /** `Users.FirstOrDefault(u => u.Id == id)`. */
  function FindUser(users: seq<User>, id: int): Option<nat> {
    FirstIndex(users, (u: User) => u.id == id)
  }

  /** `Users.FirstOrDefault(u => u.Email == email)`. */
  function FindUserByEmail(users: seq<User>, email: string): Option<nat> {
    FirstIndex(users, (u: User) => u.email == email)
  }

  /** `Bookings.Where(b => b.EventId == eventId)`. */
  function EventBookings(bookings: seq<Booking>, eventId: int): seq<Booking> {
    Filter(bookings, (b: Booking) => b.eventId == eventId)
  }

  /** The live attendee count of an event. */
  function AttendeeCount(bookings: seq<Booking>, eventId: int): nat {
    |EventBookings(bookings, eventId)|
  }

  /** The required `Booking.EventId` foreign key cascades: deleting an event
      deletes the bookings that refer to it. */
  function CascadeDelete(bookings: seq<Booking>, eventId: int): seq<Booking> {
    Filter(bookings, (b: Booking) => b.eventId != eventId)
  }

  /** The cascade leaves the deleted event without bookings... */
  lemma CascadeEmptiesEvent(bookings: seq<Booking>, eventId: int)
    ensures AttendeeCount(CascadeDelete(bookings, eventId), eventId) == 0
  {
    AttendeeCountUnreferenced(CascadeDelete(bookings, eventId), eventId);
  }

  /** ...and every other event's bookings exactly as they were. */
  lemma CascadeKeepsOthers(bookings: seq<Booking>, eventId: int, other: int)
    requires other != eventId
    ensures EventBookings(CascadeDelete(bookings, eventId), other) == EventBookings(bookings, other)
  {
    FilterAbsorbs(bookings, (b: Booking) => b.eventId != eventId, (b: Booking) => b.eventId == other);
  }

  /** No event holds more bookings than its capacity. Booking creation keeps
      this, but it is not part of `Consistent`: the owner may lower an event's
      capacity below its booking count. */
  ghost predicate WithinCapacity(events: seq<Event>, bookings: seq<Booking>) {
    forall e :: e in events ==> AttendeeCount(bookings, e.id) <= e.maxAttendees
  }

  /** The ownership rule of update, delete and the event's booking list:
      the event exists and the caller created it. */
  ghost predicate Owns(events: seq<Event>, eventId: int, userId: int) {
    exists e :: e in events && e.id == eventId && e.createdByUserId == userId
  }

  /** With unique event ids, the row `FindEvent` returns is the only one with that id. */
  lemma FindEventUnique(events: seq<Event>, id: int, e: Event)
    requires Ascending(events, EventKey)
    requires e in events && e.id == id
    ensures FindEvent(events, id).Some?
    ensures e == events[FindEvent(events, id).value]
  {
    var k := FindEvent(events, id);
    assert k.Some?;
    KeyDeterminesRow(events, k.value, e, EventKey);
  }

  /** The source's read-then-compare ownership test decides `Owns`. */
  lemma OwnsByLookup(events: seq<Event>, eventId: int, userId: int)
    requires Ascending(events, EventKey)
    ensures Owns(events, eventId, userId) <==>
      (FindEvent(events, eventId).Some? && events[FindEvent(events, eventId).value].createdByUserId == userId)
  {
    var k := FindEvent(events, eventId);
    if Owns(events, eventId, userId) {
      var e :| e in events && e.id == eventId && e.createdByUserId == userId;
      FindEventUnique(events, eventId, e);
    }
    if k.Some? {
      assert events[k.value] in events;
    }
  }

  /** A new booking raises its own event's count by one and no other. */
  lemma AttendeeCountAppend(bookings: seq<Booking>, b: Booking, eventId: int)
    ensures AttendeeCount(bookings + [b], eventId) ==
      AttendeeCount(bookings, eventId) + (if b.eventId == eventId then 1 else 0)
  {
    var p := (x: Booking) => x.eventId == eventId;
    FilterConcat(bookings, [b], p);
    assert [b][1..] == [];
  }

  /** Removing one booking lowers its own event's count by one and no other. */
  lemma AttendeeCountRemoveAt(bookings: seq<Booking>, k: nat, eventId: int)
    requires k < |bookings|
    ensures AttendeeCount(RemoveAt(bookings, k), eventId) ==
      AttendeeCount(bookings, eventId) - (if bookings[k].eventId == eventId then 1 else 0)
  {
    FilterRemoveAt(bookings, k, (x: Booking) => x.eventId == eventId);
  }

  /** An event no booking refers to has no attendees. */
  lemma {:induction false} AttendeeCountUnreferenced(bookings: seq<Booking>, eventId: int)
    requires forall b :: b in bookings ==> b.eventId != eventId
    ensures AttendeeCount(bookings, eventId) == 0
  {
    if bookings != [] {
      assert bookings[0] in bookings;
      AttendeeCountUnreferenced(bookings[1..], eventId);
    }
  }

  /** The attendee count is the number of distinct bookings with that event id. */
  lemma AttendeeCountIsCardinality(bookings: seq<Booking>, eventId: int)
    requires Ascending(bookings, BookingKey)
    ensures AttendeeCount(bookings, eventId) == |set b | b in bookings && b.eventId == eventId|
  {
    var r := EventBookings(bookings, eventId);
    FilterAscending(bookings, (x: Booking) => x.eventId == eventId, BookingKey);
    AscendingCard(r, BookingKey);
    assert (set x | x in r) == (set b | b in bookings && b.eventId == eventId);
  }

  /** The database context. Each table is the sequence of its rows; each
      `next…Id` is the id the database assigns to the next insert. */
  class Store {
    var users: seq<User>
    var events: seq<Event>
    var bookings: seq<Booking>
    var nextUserId: int
    var nextEventId: int
    var nextBookingId: int

    ghost predicate Valid()
      reads this
    {
      Consistent(users, events, bookings, nextUserId, nextEventId, nextBookingId)
    }

    /** A freshly migrated, empty database. */
    constructor ()
      ensures Valid()
      ensures users == [] && events == [] && bookings == []
      ensures nextUserId == 1 && nextEventId == 1 && nextBookingId == 1
    {
      users, events, bookings := [], [], [];
      nextUserId, nextEventId, nextBookingId := 1, 1, 1;
    }
  }
}
