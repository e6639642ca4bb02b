/** Entities, requests and transfer objects of the event-booking backend.
    Strings are `seq<char>`; a C# `DateTime` is kept opaque as an `Instant`,
    because the services only copy timestamps and never compute with them. */
module Models {

  datatype Option<+T> = None | Some(value: T)

  /** A `DateTime` value, compared and copied but never interpreted. */
  type Instant = int

  /** A row of the `Users` table. */
  datatype User = User(
    id: int,
    name: string,
    email: string,
    passwordHash: string,
    createdAt: Instant)

  /** A row of the `Events` table; `createdByUserId` is a required foreign key to `Users`. */
  datatype Event = Event(
    id: int,
    title: string,
    description: string,
    eventDate: Instant,
    location: string,
    maxAttendees: int,
    imageUrl: string,
    createdByUserId: int,
    createdAt: Instant)

  /** A row of the `Bookings` table; `eventId` and `userId` are required foreign keys. */
  datatype Booking = Booking(
    id: int,
    eventId: int,
    userId: int,
    name: string,
    email: string,
    phone: string,
    additionalInfo: string,
    bookedAt: Instant)

  /** What the booking endpoints return: a booking with its event's title. */
  datatype BookingDto = BookingDto(
    id: int,
    eventId: int,
    eventTitle: string,
    name: string,
    email: string,
    phone: string,
    additionalInfo: string,
    bookedAt: Instant)

  datatype CreateBookingRequest = CreateBookingRequest(
    eventId: int,
    name: string,
    email: string,
    phone: string,
    additionalInfo: string)

  /** What the event endpoints return: an event with its live attendee count and its owner's name. */
  datatype EventDto = EventDto(
    id: int,
    title: string,
    description: string,
    eventDate: Instant,
    location: string,
    maxAttendees: int,
    currentAttendees: int,
    imageUrl: string,
    createdByUserId: int,
    createdByUserName: string,
    createdAt: Instant)

  /** The six client-supplied fields of an event; the create and the update request both carry exactly these. */
  datatype EventRequest = EventRequest(
    title: string,
    description: string,
    eventDate: Instant,
    location: string,
    maxAttendees: int,
    imageUrl: string)

  datatype RegisterRequest = RegisterRequest(name: string, email: string, password: string)

  datatype LoginRequest = LoginRequest(email: string, password: string)

  datatype UserDto = UserDto(id: int, name: string, email: string)

  /** The claims of an issued JWT; its encoding, signature and expiry are not modelled. */
  datatype Token = Token(userId: int, email: string)

  datatype AuthResponse = AuthResponse(
    success: bool,
    message: string,
    token: Option<Token>,
    user: Option<UserDto>)
}
