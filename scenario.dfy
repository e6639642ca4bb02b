/** A client of the services: an event of capacity two, booked by two users,
    refused to a third, listed by its owner but not by a stranger, and
    re-opened by a cancellation. It relies only on the operations' contracts. */
module Scenario {
  import opened Models
  import opened Tables
  import opened Database
  import opened AuthService
  import opened BookingService
  import opened EventService

  /** Registration of a user whose e-mail is not yet taken, with the name as password. */
  method Enroll(db: Store, name: string, email: string, sha256: string -> string)
    requires db.Valid() && forall u :: u in db.users ==> u.email != email
    modifies db
    ensures db.Valid()
    ensures db.users == old(db.users) + [User(old(db.nextUserId), name, email, sha256(name), 0)]
    ensures db.nextUserId == old(db.nextUserId) + 1
    ensures db.events == old(db.events) && db.bookings == old(db.bookings)
    ensures db.nextEventId == old(db.nextEventId) && db.nextBookingId == old(db.nextBookingId)
  {
    var r := Register(db, RegisterRequest(name, email, name), sha256, 0);
    assert r.success;
  }

  /** Four registered users (ids 1 to 4) and one event of capacity two (id 1) owned by user 1. */
  method Setup(sha256: string -> string) returns (db: Store)
    ensures fresh(db) && db.Valid()
    ensures {1, 2, 3, 4} <= UserIds(db.users)
    ensures db.events == [Event(1, "Talk", "", 10, "Hall", 2, "", 1, 0)] && db.bookings == []
    ensures db.nextBookingId == 1
  {
    db := new Store();
    Enroll(db, "Olga", "o", sha256);
    Enroll(db, "Ann", "a", sha256);
    Enroll(db, "Ben", "b", sha256);
    Enroll(db, "Cid", "c", sha256);
    assert {1, 2, 3, 4} <= UserIds(db.users) by {
      assert db.users[0] in db.users && db.users[1] in db.users;
      assert db.users[2] in db.users && db.users[3] in db.users;
    }
    var _ := CreateEvent(db, EventRequest("Talk", "", 10, "Hall", 2, ""), 1, 0);
  }

  /** Two bookings fill the event; a third is refused and changes nothing. */
  method FillEvent(db: Store)
    requires db.Valid() && {1, 2, 3, 4} <= UserIds(db.users)
    requires db.events == [Event(1, "Talk", "", 10, "Hall", 2, "", 1, 0)] && db.bookings == []
    requires db.nextBookingId == 1
    modifies db
    ensures db.Valid() && {1, 2, 3, 4} <= UserIds(db.users) && db.events == old(db.events)
    ensures AttendeeCount(db.bookings, 1) == 2
    ensures |db.bookings| == 2 && db.bookings[0].id == 1 && db.bookings[0].userId == 2
  {
    AttendeeCountUnreferenced([], 1);
    assert db.events[0] in db.events;
    var first := CreateBooking(db, CreateBookingRequest(1, "Ann", "a", "", ""), 2, 0);
    assert first.Some? && AttendeeCount(db.bookings, 1) == 1;
    var second := CreateBooking(db, CreateBookingRequest(1, "Ben", "b", "", ""), 3, 0);
    assert second.Some? && AttendeeCount(db.bookings, 1) == 2;
    var third := CreateBooking(db, CreateBookingRequest(1, "Cid", "c", "", ""), 4, 0);
    assert third.None?;
  }

  /** The owner lists both bookings, a stranger none; the booker's cancellation
      (and no one else's) re-opens a place. */
  method CancelAndRebook(db: Store)
    requires db.Valid() && {1, 2, 3, 4} <= UserIds(db.users)
    requires db.events == [Event(1, "Talk", "", 10, "Hall", 2, "", 1, 0)]
    requires AttendeeCount(db.bookings, 1) == 2
    requires |db.bookings| == 2 && db.bookings[0].id == 1 && db.bookings[0].userId == 2
    modifies db
  {
    assert db.events[0] in db.events;
    var listed := GetEventBookings(db.events, db.bookings, 1, 1);
    assert Owns(db.events, 1, 1);
    assert |listed| == 2;
    var stranger := GetEventBookings(db.events, db.bookings, 1, 4);
    assert stranger == [];

    assert db.bookings[0] in db.bookings;
    var refused := CancelBooking(db, 1, 3);
    assert !refused;
    var cancelled := CancelBooking(db, 1, 2);
    assert cancelled;
    var again := CreateBooking(db, CreateBookingRequest(1, "Cid", "c", "", ""), 4, 0);
    assert again.Some?;
  }

  /** An event of capacity two, booked, refused, listed, cancelled and booked again. */
  method CapacityScenario(sha256: string -> string)
  {
    var db := Setup(sha256);
    FillEvent(db);
    CancelAndRebook(db);
  }
}
