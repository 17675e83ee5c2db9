/**
 * The request-processing layer of the flight booking server as pure functions:
 * tokenising a request line, routing its command, the eight handlers, and the exact
 * reply text. A handler's result is an `Outcome`: the database afterwards and a
 * `Reply`, whose wire text is `Render(reply)`.
 */
module Protocol {
  import opened Wrappers
  import opened Text
  import opened Store

  /** `Environment.NewLine` on the Windows host the server runs on. */
  const NewLine: string := "\r\n"

  /**
   * The separators `ProcessRequest` splits on: `' '` and the character the enum value
   * `StringSplitOptions.RemoveEmptyEntries` (1) becomes when it is cast to `char`.
   */
  const Separators: set<char> := {' ', '\U{1}'}

  datatype Reply =
    | InvalidRequest
    | UnknownCommand
    | MissingParameters
    | InvalidFlightId
    | InvalidUserId
    | InvalidAge
    | StoreError(message: string)
    | FlightNotFound
    | SeatNotFound
    | SeatAlreadyBooked
    | SeatBooked(seat: string, flightId: int)
    | SeatList(seats: seq<string>)
    | NoAvailableSeats
    | FlightList(flights: seq<Flight>)
    | NoFlights
    | LoggedIn(userId: int)
    | InvalidCredentials
    | InternalServerError
    | UserRegistered
    | UsernameTaken
    | UserFound(profile: Profile)
    | UserNotFound
    | InfoUpdated
    | InfoAdded
    | PasswordUpdated
  {
    /** The replies whose text begins with `SUCCESS`. */
    predicate IsSuccess() {
      SeatBooked? || LoggedIn? || UserRegistered? || InfoUpdated? || InfoAdded? || PasswordUpdated?
    }
  }

  datatype Outcome = Outcome(db: Db, reply: Reply)

  datatype Command =
    | BookSeatCommand
    | GetUserCommand
    | GetSeatsCommand
    | LoginCommand
    | RegisterCommand
    | GetFlightsCommand
    | ChangePasswordCommand
    | UpdateUserCommand

  // ---------------------------------------------------------------------------------
  // Reply text
  // ---------------------------------------------------------------------------------

  function FormatDate(d: Date): string {
    PadZeros(d.day, 2) + "." + PadZeros(d.month, 2) + "." + PadZeros(d.year, 4)
  }

  /** One `AppendLine` of `HandleGetFlights`. */
  function FlightLine(f: Flight): string {
    "Flight ID: " + FormatInt(f.id) + ", From: " + f.origin + ", To: " + f.destination
      + ", Date: " + FormatDate(f.date) + NewLine
  }

  /** The text the `StringBuilder` of `HandleGetFlights` holds after appending `rows`. */
  function FlightListing(rows: seq<Flight>): string {
    if rows == [] then "" else FlightListing(rows[..|rows| - 1]) + FlightLine(rows[|rows| - 1])
  }

  function OrElse(value: Option<string>, default: string): string {
    match value
    case Some(v) => v
    case None => default
  }

  /** The columns of a `UsersInfo` row, with `?` for a missing name and `-1` for a missing age. */
  function ProfileFields(p: Profile): string {
    OrElse(p.firstName, "?") + "," + OrElse(p.lastName, "?") + ","
      + (match p.age case Some(a) => FormatInt(a) case None => "-1")
  }

  /** The exact response string of each reply. */
  function Render(r: Reply): string {
    match r
    case InvalidRequest => "ERROR: Invalid request"
    case UnknownCommand => "ERROR: Unknown command"
    case MissingParameters => "ERROR: Missing parameters"
    case InvalidFlightId => "ERROR: Invalid flight ID"
    case InvalidUserId => "ERROR: Invalid user ID"
    case InvalidAge => "ERROR: Invalid age"
    case StoreError(message) => "ERROR: " + message
    case FlightNotFound => "ERROR: Flight does not exist"
    case SeatNotFound => "ERROR: Seat does not exist"
    case SeatAlreadyBooked => "ERROR: Seat is already booked"
    case SeatBooked(seat, flightId) => "SUCCESS: Seat " + seat + " booked for flight " + FormatInt(flightId)
    case SeatList(seats) => "Seats: " + Join(seats, ", ")
    case NoAvailableSeats => "ERROR: No available seats"
    case FlightList(flights) => FlightListing(flights)
    case NoFlights => "ERROR: No flights available"
    case LoggedIn(userId) => "SUCCESS=" + FormatInt(userId)
    case InvalidCredentials => "ERROR: Invalid credentials"
    case InternalServerError => "ERROR: Internal server error"
    case UserRegistered => "SUCCESS: User registered"
    case UsernameTaken => "ERROR: Username already exists"
    case UserFound(p) => "USER=" + ProfileFields(p)
    case UserNotFound => "ERROR: User not found"
    case InfoUpdated => "SUCCESS: User info updated"
    case InfoAdded => "SUCCESS: User info added"
    case PasswordUpdated => "SUCCESS: Password updated"
  }

  // ---------------------------------------------------------------------------------
  // Tokenising and routing
  // ---------------------------------------------------------------------------------

  /** `request.Split(' ', (char)StringSplitOptions.RemoveEmptyEntries)`: empty entries are kept. */
  function Tokenise(request: string): (r: seq<string>)
    ensures |r| >= 1
    ensures forall i :: 0 <= i < |r| ==> Avoids(r[i], Separators)
  {
    Split(request, Separators)
  }

  function CommandName(c: Command): string {
    match c
    case BookSeatCommand => "BOOK_SEAT"
    case GetUserCommand => "GET_USER"
    case GetSeatsCommand => "GET_SEATS"
    case LoginCommand => "LOGIN"
    case RegisterCommand => "REGISTER"
    case GetFlightsCommand => "GET_FLIGHTS"
    case ChangePasswordCommand => "CHANGE_PASSWORD"
    case UpdateUserCommand => "UPDATE_USER"
  }

  /** The `switch` of `ProcessRequest` on the upper-cased command token. */
  function Route(command: string): (r: Option<Command>)
    ensures r.Some? ==> CommandName(r.value) == command
    ensures forall c :: CommandName(c) == command ==> r == Some(c)
  {
    if command == "BOOK_SEAT" then Some(BookSeatCommand)
    else if command == "GET_USER" then Some(GetUserCommand)
    else if command == "GET_SEATS" then Some(GetSeatsCommand)
    else if command == "LOGIN" then Some(LoginCommand)
    else if command == "REGISTER" then Some(RegisterCommand)
    else if command == "GET_FLIGHTS" then Some(GetFlightsCommand)
    else if command == "CHANGE_PASSWORD" then Some(ChangePasswordCommand)
    else if command == "UPDATE_USER" then Some(UpdateUserCommand)
    else None
  }

  // ---------------------------------------------------------------------------------
  // The handlers
  // ---------------------------------------------------------------------------------

  /** `HandleBookSeat`: three tokens, then a numeric flight id, then the booking itself. */
  function BookSeat(db: Db, parts: seq<string>, fault: Fault): (r: Outcome)
    ensures r.reply.SeatBooked? ==>
      |parts| >= 3 && TryParseInt32(parts[1]) == Some(r.reply.flightId) && r.reply.seat == parts[2]
  {
    if |parts| < 3 then Outcome(db, MissingParameters)
    else match TryParseInt32(parts[1])
      case None => Outcome(db, InvalidFlightId)
      case Some(flightId) => Book(db, flightId, parts[2], fault)
  }

  /**
   * The store work of `HandleBookSeat` once the flight id is parsed: the flight must
   * exist, then the seat, then the seat must be free; then its row is marked booked.
   */
  function Book(db: Db, flightId: int, seat: string, fault: Fault): (r: Outcome)
    ensures r.db != db ==> r.reply == SeatBooked(seat, flightId)
    ensures r.reply.SeatBooked? ==> r.db == db.(seats := BookKey(db.seats, flightId, seat))
  {
    if fault.Raises? then Outcome(db, StoreError(fault.message))
    else if !FlightExists(db.flights, flightId) then Outcome(db, FlightNotFound)
    else match FindSeat(db.seats, flightId, seat)
      case None => Outcome(db, SeatNotFound)
      case Some(i) =>
        if !db.seats[i].free then Outcome(db, SeatAlreadyBooked)
        else Outcome(db.(seats := BookKey(db.seats, flightId, seat)), SeatBooked(seat, flightId))
  }

  /** `HandleGetSeats`: two tokens, then a numeric flight id, then the free seats. */
  function GetSeats(db: Db, parts: seq<string>, fault: Fault): (r: Reply)
    ensures r == MissingParameters <==> |parts| < 2
  {
    if |parts| < 2 then MissingParameters
    else match TryParseInt32(parts[1])
      case None => InvalidFlightId
      case Some(flightId) => FreeSeats(db, flightId, fault)
  }

  /** `HandleGetSeats` over `GetAvailableSeats`, whose reader errors are swallowed. */
  function FreeSeats(db: Db, flightId: int, fault: Fault): (r: Reply)
    ensures r.SeatList? || r == NoAvailableSeats
    ensures var free := FreeLabels(db.seats, flightId);
      r.SeatList? ==> r.seats != [] && |r.seats| <= |free| && r.seats == free[..|r.seats|]
    ensures fault.Healthy? ==> (r == NoAvailableSeats <==> FreeLabels(db.seats, flightId) == [])
  {
    var seats := ReadRows(FreeLabels(db.seats, flightId), fault);
    if |seats| > 0 then SeatList(seats) else NoAvailableSeats
  }

  /** `HandleGetFlights`, whose reader errors are swallowed. */
  function GetFlights(db: Db, fault: Fault): (r: Reply)
    ensures r == NoFlights || (r.FlightList? && r.flights != [] && |r.flights| <= |db.flights| && r.flights == db.flights[..|r.flights|])
    ensures fault.Healthy? ==> (r == NoFlights <==> db.flights == [])
  {
    var rows := ReadRows(db.flights, fault);
    if |rows| == 0 then NoFlights else FlightList(rows)
  }

  /** `HandleLogin`: every store exception becomes an internal-error reply. */
  function Login(db: Db, parts: seq<string>, fault: Fault): (r: Reply)
    ensures r.LoggedIn? ==> |parts| >= 3 && parts[1] in db.users && db.users[parts[1]] == Account(r.userId, parts[2])
  {
    if |parts| < 3 then MissingParameters
    else if fault.Raises? then InternalServerError
    else if parts[1] in db.users && db.users[parts[1]].password == parts[2] then LoggedIn(db.users[parts[1]].id)
    else InvalidCredentials
  }

  /**
   * `HandleRegister`: the unique-key violation on `Username` becomes "already exists".
   * The failed `INSERT` still uses up an identity value.
   */
  function Register(db: Db, parts: seq<string>, fault: Fault): (r: Outcome)
    ensures r.db.flights == db.flights && r.db.seats == db.seats && r.db.profiles == db.profiles
    ensures r.db.nextUserId >= db.nextUserId
  {
    if |parts| < 3 then Outcome(db, MissingParameters)
    else if fault.Raises? then Outcome(db, StoreError(fault.message))
    else if parts[1] in db.users then Outcome(db.(nextUserId := db.nextUserId + 1), UsernameTaken)
    else
      var users := db.users[parts[1] := Account(db.nextUserId, parts[2])];
      Outcome(db.(users := users, nextUserId := db.nextUserId + 1), UserRegistered)
  }

  /** `HandleGetUserInfo`: two tokens, then a numeric user id, then the profile lookup. */
  function GetUser(db: Db, parts: seq<string>, fault: Fault): (r: Reply)
    ensures r == MissingParameters <==> |parts| < 2
  {
    if |parts| < 2 then MissingParameters
    else match TryParseInt32(parts[1])
      case None => InvalidUserId
      case Some(userId) => FindProfile(db, userId, fault)
  }

  /** The `UsersInfo` query of `HandleGetUserInfo`. */
  function FindProfile(db: Db, userId: int, fault: Fault): (r: Reply)
    ensures r.UserFound? ==> userId in db.profiles && r.profile == db.profiles[userId]
    ensures fault.Healthy? ==> (r.UserFound? <==> userId in db.profiles)
  {
    if fault.Raises? then StoreError(fault.message)
    else if userId in db.profiles then UserFound(db.profiles[userId])
    else UserNotFound
  }

  /** `HandleChangeInfo`: five tokens, a numeric user id, a numeric age, then the upsert. */
  function UpdateUser(db: Db, parts: seq<string>, fault: Fault): (r: Outcome)
    ensures r.db == db.(profiles := r.db.profiles)
  {
    if |parts| < 5 then Outcome(db, MissingParameters)
    else match TryParseInt32(parts[1])
      case None => Outcome(db, InvalidUserId)
      case Some(userId) =>
        match TryParseInt32(parts[4])
        case None => Outcome(db, InvalidAge)
        case Some(age) => StoreProfile(db, userId, parts[2], parts[3], age, fault)
  }

  /** The store work of `HandleChangeInfo`: an update of the existing `UsersInfo` row, or an insert. */
  function StoreProfile(db: Db, userId: int, firstName: string, lastName: string, age: int, fault: Fault): (r: Outcome)
    ensures r.db == db.(profiles := r.db.profiles)
    ensures r.db.profiles.Keys == db.profiles.Keys + (if r.reply == InfoAdded then {userId} else {})
  {
    if fault.Raises? then Outcome(db, StoreError(fault.message))
    else
      var profiles := db.profiles[userId := Profile(Some(firstName), Some(lastName), Some(age))];
      Outcome(db.(profiles := profiles), if userId in db.profiles then InfoUpdated else InfoAdded)
  }

  /** `HandleChangePassword`. */
  function ChangePassword(db: Db, parts: seq<string>, fault: Fault): (r: Outcome)
    ensures r.db == db.(users := r.db.users)
    ensures r.db.users.Keys == db.users.Keys
    ensures forall u :: u in db.users ==> r.db.users[u].id == db.users[u].id
  {
    if |parts| < 3 then Outcome(db, MissingParameters)
    else if fault.Raises? then Outcome(db, StoreError(fault.message))
    else if parts[1] !in db.users then Outcome(db, UserNotFound)
    else
      var users := db.users[parts[1] := db.users[parts[1]].(password := parts[2])];
      Outcome(db.(users := users), PasswordUpdated)
  }

  function Handle(db: Db, command: Command, parts: seq<string>, fault: Fault): Outcome {
    match command
    case BookSeatCommand => BookSeat(db, parts, fault)
    case GetUserCommand => Outcome(db, GetUser(db, parts, fault))
    case GetSeatsCommand => Outcome(db, GetSeats(db, parts, fault))
    case LoginCommand => Outcome(db, Login(db, parts, fault))
    case RegisterCommand => Register(db, parts, fault)
    case GetFlightsCommand => Outcome(db, GetFlights(db, fault))
    case ChangePasswordCommand => ChangePassword(db, parts, fault)
    case UpdateUserCommand => UpdateUser(db, parts, fault)
  }

  /** `ProcessRequest` applied to an already trimmed request line. */
  function Dispatch(db: Db, request: string, fault: Fault): (r: Outcome)
    ensures r.reply != InvalidRequest
  {
    var parts := Tokenise(request);
    if |parts| == 0 then Outcome(db, InvalidRequest)
    else match Route(AsciiUpper(parts[0]))
      case None => Outcome(db, UnknownCommand)
      case Some(command) => Handle(db, command, parts, fault)
  }
}
