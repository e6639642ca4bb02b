/** The account table: registration under a unique e-mail and login by e-mail
    and password hash. `HashPassword` (SHA-256 of the UTF-8 bytes, then Base64)
    is the parameter `sha256`, an arbitrary deterministic function, so every
    property below holds whatever the hash computes. The issued JWT is its
    claims, a `Token`. */
module AuthService {
  import opened Models
  import opened Tables
  import opened Database

  /** `VerifyPassword`: recompute the hash of the offered password and compare. */
  function VerifyPassword(sha256: string -> string, password: string, hash: string): bool {
    sha256(password) == hash
  }

  /** A password always verifies against its own hash. */
  lemma VerifyAcceptsOwnHash(sha256: string -> string, password: string)
    ensures VerifyPassword(sha256, password, sha256(password))
  {
  }

  /** The response of a successful registration or login for `u`. */
  function Granted(u: User, message: string): AuthResponse {
    AuthResponse(true, message, Some(Token(u.id, u.email)), Some(UserDto(u.id, u.name, u.email)))
  }

  /** Adding a user whose e-mail is new, with the next id, keeps the store consistent. */
  lemma ConsistentAfterRegister(
    users: seq<User>, events: seq<Event>, bookings: seq<Booking>,
    nextUserId: int, nextEventId: int, nextBookingId: int, u: User)
    requires Consistent(users, events, bookings, nextUserId, nextEventId, nextBookingId)
    requires u.id == nextUserId
    requires forall x :: x in users ==> x.email != u.email
    ensures Consistent(users + [u], events, bookings, nextUserId + 1, nextEventId, nextBookingId)
  {
    var s := users + [u];
    assert forall x :: x in s ==> x in users || x == u;
    assert Ascending(s, UserKey) by {
      forall i, j | 0 <= i < j < |s| ensures UserKey(s[i]) < UserKey(s[j]) {
        if j == |users| { assert s[i] == users[i]; }
      }
    }
    assert UniqueEmails(s) by {
      forall i, j | 0 <= i < j < |s| ensures s[i].email != s[j].email {
        if j == |users| { assert s[i] in users; }
      }
    }
    assert UserIds(users) <= UserIds(s);
  }

  /** `RegisterAsync`: refuse an e-mail already in the table; otherwise store
      the user with the hash of the password and sign them in. */
  method Register(db: Store, request: RegisterRequest, sha256: string -> string, now: Instant)
    returns (r: AuthResponse)
    requires db.Valid()
    modifies db
    ensures db.Valid()
    ensures (exists u :: u in old(db.users) && u.email == request.email) ==>
      && r == AuthResponse(false, "Email already exists", None, None)
      && unchanged(db)
    ensures (forall u :: u in old(db.users) ==> u.email != request.email) ==>
      var u := User(old(db.nextUserId), request.name, request.email, sha256(request.password), now);
      && db.users == old(db.users) + [u]
      && db.nextUserId == old(db.nextUserId) + 1
      && db.events == old(db.events) && db.bookings == old(db.bookings)
      && db.nextEventId == old(db.nextEventId) && db.nextBookingId == old(db.nextBookingId)
      && r == Granted(u, "Registration successful")
  {
    if FindUserByEmail(db.users, request.email).Some? {
      return AuthResponse(false, "Email already exists", None, None);
    }
    var u := User(db.nextUserId, request.name, request.email, sha256(request.password), now);
    ConsistentAfterRegister(db.users, db.events, db.bookings, db.nextUserId, db.nextEventId, db.nextBookingId, u);
    db.users := db.users + [u];
    db.nextUserId := db.nextUserId + 1;
    r := Granted(u, "Registration successful");
  }

  /** `LoginAsync`: succeed for the user with that e-mail when the password
      hashes to the stored hash; otherwise one message for both causes. */
  function Login(users: seq<User>, request: LoginRequest, sha256: string -> string): (r: AuthResponse)
    requires UniqueEmails(users)
    ensures r.success <==>
      exists u :: u in users && u.email == request.email && u.passwordHash == sha256(request.password)
    ensures !r.success ==> r == AuthResponse(false, "Invalid email or password", None, None)
    ensures forall u :: u in users && u.email == request.email && r.success ==> r == Granted(u, "Login successful")
  {
    match FindUserByEmail(users, request.email)
    case None => AuthResponse(false, "Invalid email or password", None, None)
    case Some(k) =>
      assert users[k] in users;
      assert forall u :: u in users && u.email == request.email ==> u == users[k] by {
        forall u | u in users && u.email == request.email ensures u == users[k] {
          var i :| 0 <= i < |users| && users[i] == u;
          assert !(i < k) && !(k < i);
        }
      }
      if !VerifyPassword(sha256, request.password, users[k].passwordHash) then
        AuthResponse(false, "Invalid email or password", None, None)
      else
        Granted(users[k], "Login successful")
  }

  /** A user registered under a new e-mail can then log in with the same
      password, and gets back its own id, name and e-mail. */
  lemma LoginAfterRegister(
    users: seq<User>, request: RegisterRequest, sha256: string -> string, id: int, now: Instant)
    requires UniqueEmails(users)
    requires forall x :: x in users ==> x.email != request.email
    ensures
      var u := User(id, request.name, request.email, sha256(request.password), now);
      && UniqueEmails(users + [u])
      && Login(users + [u], LoginRequest(request.email, request.password), sha256)
         == Granted(u, "Login successful")
  {
    var u := User(id, request.name, request.email, sha256(request.password), now);
    var s := users + [u];
    assert UniqueEmails(s) by {
      forall i, j | 0 <= i < j < |s| ensures s[i].email != s[j].email {
        if j == |users| { assert s[i] in users; }
      }
    }
    assert u in s;
  }
}
