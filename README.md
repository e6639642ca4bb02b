# Event booking backend: the policy layer over the store

This project models the policy layer of an event-booking web API. It works
over three tables: users, events and bookings.

- **Booking engine** (`BookingService`). Creating a booking is refused for an
  absent event and for a full one. The booker sees their own bookings; the
  event's creator, and only they, sees the event's bookings. A booking is
  cancelled only by the user who made it.
- **Event ownership engine** (`EventService`). Anyone may create an event.
  Only its creator may update or delete it, and deletion takes its bookings
  with it. Every listing shows `CurrentAttendees`, the live number of
  bookings of the event.
- **Account table** (`AuthService`). Registration keeps e-mail addresses
  unique. Login matches the e-mail and the password hash, and answers every
  failure with one message.

Modules:

- `Models`: the entities and DTOs, as datatypes.
- `Tables`: a table as the sequence of its rows, plus the LINQ operators the
  services use (`Where`, `FirstOrDefault`, removal of one row).
- `Database`: the database context as the class `Store`. It holds the three
  tables and the id each table assigns next (AUTOINCREMENT, starting at 1).
  `Store.Valid()` holds what the schema guarantees:
  - keys are positive, increase in row order, and are below the next id;
  - every event's creator is a stored user;
  - every booking's event and user are stored.

  It also holds that no two users share an e-mail. No database index
  enforces that; the registration code keeps it, and `Register` is proved
  to preserve it.
- `BookingService`, `EventService`, `AuthService`: one module per service.
  - Operations that `Add` or `Remove` rows, or assign an entity's fields, are
    methods with `modifies db`. Each states the store's whole new state, and
    that a refused call leaves it `unchanged`.
  - Read-only queries are functions over the tables. Their contracts say
    exactly which rows they return.
- `Scenario`: a client that only uses the contracts. An event of capacity two
  takes two bookings and refuses a third. Only its owner sees the bookings.
  After a cancellation by the booker, a new booking is admitted.

The per-event capacity invariant is `Database.WithinCapacity`. It is
deliberately not part of `Store.Valid()`, because the owner may lower an
event's capacity below its current booking count.
- Creating a booking, cancelling one and deleting an event preserve it.
- `UpdateEvent` preserves it exactly when the new capacity still fits the
  event's count.

Foreign inputs become parameters:
- the password hash is an arbitrary function `sha256: string -> string`;
- a JWT is the pair of claims it carries (`Token(userId, email)`);
- the `DateTime.UtcNow` defaults are an `Instant` passed in by the caller.

## Model

| member | source | states |
|---|---|---|
| Database.Store.constructor | backend/Program.cs:59-63 | A freshly migrated, empty database satisfies the schema's invariants, and every table's next id is 1 |
| Database.CascadeEmptiesEvent | backend/Models/Booking.cs:6 | After the required `EventId` cascade for an event, no booking refers to that event |
| Database.CascadeKeepsOthers | backend/Models/Booking.cs:6 | The cascade for one event leaves every other event's bookings exactly as they were, in order |
| Database.FindEventUnique | backend/Models/Event.cs:5 | With unique event ids, the row `FirstOrDefault(e => e.Id == id)` finds is the only row with that id |
| Database.OwnsByLookup | backend/Services/EventService.cs:85-88 | The source's test "event found and `CreatedByUserId == userId`" holds exactly when a stored event with that id was created by that user |
| Database.AttendeeCountAppend | backend/Services/BookingService.cs:41 | Adding a booking raises its own event's count by one and leaves every other event's count alone |
| Database.AttendeeCountRemoveAt | backend/Services/BookingService.cs:117 | Removing a booking lowers its own event's count by one and leaves every other event's count alone |
| Database.AttendeeCountUnreferenced | backend/Models/Event.cs:16 | An event that no booking refers to has zero attendees |
| Database.AttendeeCountIsCardinality | backend/Services/EventService.cs:30 | The live count of an event is the number of distinct bookings carrying its id |
| Tables.Filter | backend/Services/BookingService.cs:70 | `Where(p)` keeps exactly the rows that satisfy `p`, and never more rows than the table has |
| Tables.FirstIndex | backend/Services/BookingService.cs:112 | `FirstOrDefault(p)` finds the first row that satisfies `p`, and finds nothing exactly when no row does |
| Tables.RemoveAt | backend/Services/BookingService.cs:117 | Removing a row keeps every other row, in order, and shortens the table by one |
| Tables.FilterConcat | backend/Services/BookingService.cs:94 | `Where` distributes over two consecutive row ranges |
| Tables.FilterRemoveAt | backend/Services/BookingService.cs:117 | Removing a row changes the size of a `Where` result by one if the row satisfies the predicate, and by nothing otherwise |
| Tables.FilterAbsorbs | backend/Services/BookingService.cs:94 | A second `Where` whose rows the first one already keeps gives the same result as the second alone |
| Tables.FilterAscending | backend/Services/BookingService.cs:94 | `Where` keeps the primary keys in ascending order |
| Tables.RemoveAtAscending | backend/Services/BookingService.cs:117 | Removing a row keeps the primary keys in ascending order |
| Tables.RemoveAtByKey | backend/Services/BookingService.cs:117 | After removing row k, the remaining rows are exactly those whose key differs from row k's key |
| Tables.KeyDeterminesRow | backend/Models/Booking.cs:5 | With ascending keys, a primary key names at most one row |
| Tables.AscendingCard | backend/Models/Booking.cs:5 | Rows with distinct primary keys are pairwise distinct, so counting rows counts distinct entities |
| BookingService.ToBookingDtosMembers | backend/Services/BookingService.cs:72-82 | The projection holds the DTO of every booking it is given, and nothing else |
| BookingService.DtoCarriesEventTitle | backend/Services/BookingService.cs:76 | A booking's DTO carries the booking's id, its event's id and its event's title |
| BookingService.CheckBooking | backend/Services/BookingService.cs:21-29 | The refusal is "not found" exactly when no event has the id. It is "full" exactly when the event's live booking count is at or above its capacity. An admitted booking therefore finds the event below capacity |
| BookingService.CheckBookingAsWritten | backend/Services/BookingService.cs:21-29 | The check as written: it reports "not found" exactly when the lookup fails. For a found event it reports "full" exactly when the capacity is at most 0, the size of the never-loaded `Bookings` navigation |
| BookingService.AsWrittenNeverFull | backend/Services/BookingService.cs:28-29 | As written, the check never refuses an event whose capacity is positive |
| BookingService.AsWrittenOverbooks | backend/Services/BookingService.cs:28-29 | Take an event of capacity one with one booking. The intended check refuses a second booking, the check as written admits it, and the table would then exceed the capacity |
| BookingService.BookingKeepsCapacity | backend/Services/BookingService.cs:28-42 | If every event is within capacity, adding a booking that the check admits keeps every event within capacity |
| BookingService.AdmittedBookingFits | backend/Services/BookingService.cs:28-42 | An admitted booking raises its event's count by one, to at most the capacity |
| BookingService.ConsistentAfterBooking | backend/Services/BookingService.cs:31-42 | Inserting a booking with the next id, for a stored event and user, keeps the schema invariants |
| BookingService.CreateBooking | backend/Services/BookingService.cs:19-65 | Refused exactly when the event is absent or full, and a refusal leaves the store unchanged. On success it adds exactly one booking and changes nothing else. That booking has the next id, the request's event id and contact fields, the caller as user, and `now` as its time. The returned DTO mirrors the booking and carries the event's title. The event's count rises by one to at most its capacity, and every other event's count stays the same. The capacity invariant is preserved |
| BookingService.GetUserBookings | backend/Services/BookingService.cs:67-84 | Returns exactly the DTOs of the caller's bookings, one per booking |
| BookingService.GetEventBookings | backend/Services/BookingService.cs:86-108 | Empty when the event is absent or the caller did not create it. Otherwise it returns exactly the DTOs of the event's bookings, as many as the event's live count |
| BookingService.CancelKeepsCapacity | backend/Services/BookingService.cs:117 | Removing a booking keeps every event within capacity |
| BookingService.ConsistentAfterCancel | backend/Services/BookingService.cs:117-118 | Removing a booking keeps the schema invariants |
| BookingService.CancelBooking | backend/Services/BookingService.cs:110-121 | Succeeds exactly when the booking exists and belongs to the caller; otherwise the store is unchanged. On success only that booking is removed, and every other row stays. The capacity invariant is preserved |
| EventService.EventDtoIsLive | backend/Services/EventService.cs:48-61 | An event's DTO shows its stored columns and its creator's name. Its `CurrentAttendees` is the number of distinct bookings of the event |
| EventService.ToEventDtosMembers | backend/Services/EventService.cs:22-35 | The projection holds the DTO of every event it is given, and nothing else |
| EventService.GetAllEvents | backend/Services/EventService.cs:17-37 | One DTO per stored event, in table order. Each shows the event's columns, its creator's name, and its live booking count as `CurrentAttendees` |
| EventService.GetEventById | backend/Services/EventService.cs:39-62 | Returns null exactly when no event has the id. Otherwise it returns that event's DTO, whose `CurrentAttendees` is the event's live booking count |
| EventService.GetUserEvents | backend/Services/EventService.cs:115-136 | Returns exactly the DTOs of the events the caller created, one per event |
| EventService.NewEventUnbooked | backend/Services/EventService.cs:77-78 | No booking refers to the id the next event will receive |
| EventService.ConsistentAfterCreate | backend/Services/EventService.cs:66-78 | Inserting an event with the next id, created by a stored user, keeps the schema invariants |
| EventService.CreateEvent | backend/Services/EventService.cs:64-81 | Adds exactly one event and changes nothing else. The event has the next id, the request's six fields, the caller as creator, and `now` as its creation time. The returned DTO is that event's DTO and shows zero attendees. The capacity invariant holds afterwards exactly when it held before and the capacity is not negative |
| EventService.Overwrite | backend/Services/EventService.cs:90-95 | Replaces exactly the six request fields, and keeps `Id`, `CreatedByUserId` and `CreatedAt` |
| EventService.UpdateCapacity | backend/Services/EventService.cs:94 | An update keeps every event within capacity exactly when the other events are within theirs and the event's live count fits the new capacity. The new capacity is not checked against the count |
| EventService.ConsistentAfterUpdate | backend/Services/EventService.cs:90-97 | Rewriting one event's six fields keeps the schema invariants |
| EventService.UpdateEvent | backend/Services/EventService.cs:83-100 | Returns null, with the store unchanged, exactly when the caller does not own an event with that id. Otherwise it overwrites only that event's six fields; no other row, table or id counter changes. It returns the event's new DTO. If the new capacity is below the live count, the capacity invariant breaks; if it is not, the invariant is kept |
| EventService.DeleteKeepsCapacity | backend/Services/EventService.cs:109-110 | Deleting an event together with its bookings keeps every remaining event within capacity |
| EventService.ConsistentAfterDelete | backend/Services/EventService.cs:109-110 | Deleting an event together with its bookings keeps the schema invariants |
| EventService.DeleteEvent | backend/Services/EventService.cs:102-113 | Succeeds exactly when the caller owns an event with that id; otherwise the store is unchanged. On success it removes exactly that event and, by the cascade, exactly its bookings. The users and every other event's bookings are kept. The capacity invariant is preserved |
| AuthService.VerifyAcceptsOwnHash | backend/Services/AuthService.cs:97-110 | A password always verifies against its own hash |
| AuthService.ConsistentAfterRegister | backend/Services/AuthService.cs:25-38 | Inserting a user with the next id and an e-mail that no user has keeps the schema invariants, e-mail uniqueness included |
| AuthService.Register | backend/Services/AuthService.cs:23-49 | A taken e-mail gets "Email already exists" with no token, and the store is unchanged. A new e-mail adds exactly one user and changes nothing else. That user has the next id, the request's name and e-mail, the hash of the password, and `now` as its time. The response is a success, "Registration successful", whose token and UserDto carry that user's id, name and e-mail. E-mails stay unique |
| AuthService.Login | backend/Services/AuthService.cs:51-69 | Succeeds exactly when a user has the e-mail and the password's hash. Every failure gets "Invalid email or password" with no token or user. A success returns "Login successful" with that user's token and UserDto |
| AuthService.LoginAfterRegister | backend/Services/AuthService.cs:23-68 | After registering a new e-mail, logging in with the same e-mail and password succeeds and returns the registered user's token and UserDto (id, name and e-mail) |

## Left out

- Persistence and async plumbing: EF Core, SQLite, migrations and `await`. Each `SaveChangesAsync` is one atomic step on the `Store`, and the database-assigned ids are the `next…Id` counters.
- Concurrency: the source's check-then-insert in `CreateBookingAsync` holds no lock and runs in no transaction. Two racing requests can therefore overbook an event. The model is sequential and claims nothing about interleaved requests. Nothing serialises the check and the insert per event.
- JWT creation and signing (`GenerateJwtToken`): a token is the claims it carries, user id and e-mail. Signing, expiry and encoding are not modelled.
- SHA-256 and Base64 (`HashPassword`): an arbitrary deterministic function passed in as `sha256`. Nothing relies on what it computes, so collisions are allowed.
- The booking notification e-mail (`EmailService`, called at the end of `CreateBookingAsync`): it has no effect on the store and swallows its errors.
- Controllers: they map results to HTTP codes and read the caller's id from the JWT. The caller's id is a plain parameter.
- Wall-clock defaults (`CreatedAt`, `BookedAt`): passed in as `now`.
- The React frontend: UI, HTTP calls, floating-point percentages and case-folding search.
- The C# declaration of `ApplicationDbContext` is not modelled: `Store` stands for it with the three tables only. Nor are the C# declarations of `EventDto`, `CreateEventRequest`, `UpdateEventRequest`, `RegisterRequest` and `LoginRequest`. The model defines these types in `Models`, with one `EventRequest` for both the create and the update request. Their fields follow what the services read and write. The cascade on deleting an event is assumed from EF Core's default for the required `Booking.EventId` foreign key, and the absence of a unique e-mail index is assumed too; neither is read from the context's configuration. The registration code keeps e-mails unique.
- Request validation: the model enforces no positive `MaxAttendees` and no required fields. The services do not check these, and the attribute-based validation is not part of this model.
- BookingService.CreateBooking: requires the caller to be a stored user whenever the booking would be admitted. A caller id the JWT does not name, such as the controller's default 0, would violate the `Booking.UserId` foreign key at `SaveChangesAsync`, and that database error is not modelled. Calls refused for an absent or full event are covered for any caller.
- EventService.CreateEvent: requires the caller to be a stored user, for the same reason with the `Event.CreatedByUserId` foreign key.
- BookingService.CheckBooking, BookingService.GetEventBookings and EventService.GetEventById: these require ascending event ids, which every `Valid` store has. Without that order, a lookup by id could see duplicate ids, and the schema excludes those.
- AuthService.Login: requires that no two users share an e-mail, which every `Valid` store has. Without it, the user `FirstOrDefault` finds would not be the only one with that e-mail.
- The fallbacks of `BookingService.EventTitle` and `EventService.OwnerName` (the empty string for a missing event or creator) cannot be reached in a `Valid` store. They are there only to keep those functions total.
- String comparison is ordinal equality of character sequences. E-mails are not case-folded, just as in the source.
- The two causes of a refused booking share one `null` in the source. The model returns `None` for both and keeps the cause only in `CheckBooking`'s `Rejection`.

## Findings

| source | as written | input that shows it | evidently intended | confidence | as-written member | corrected member |
|---|---|---|---|---|---|---|
| backend/Services/BookingService.cs:21-29 | The capacity test compares `MaxAttendees` with `@event.Bookings.Count`. The query includes only `CreatedByUser`, so on a fresh context the `Bookings` collection keeps its initial empty list and the count is 0 | An event of capacity 1 that already has one booking: a second `CreateBookingAsync` for it is admitted, and the event then holds 2 bookings | Count the bookings whose `EventId` is the event's id, and refuse when that count is at or above `MaxAttendees` | not executed; relies on EF Core performing no lazy loading and no relationship fix-up from an earlier query on the same context | BookingService.CheckBookingAsWritten | BookingService.CheckBooking |
