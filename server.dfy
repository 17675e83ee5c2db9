/**
 * The `FlightServer` of `Program.cs` as an object whose fields are the tables of the
 * store. Each handler is a method that reads or updates those fields in place, and is
 * proved against the corresponding pure handler in `Protocol`: the new tables are
 * the outcome's store, the response is the rendered reply.
 */
module Server {
  import opened Wrappers
  import opened Text
  import opened Store
  import opened Protocol
  import ProtocolLemmas

  class FlightServer {
    var flights: seq<Flight>
    var seats: seq<Seat>
    var users: map<string, Account>
    var profiles: map<int, Profile>
    var nextUserId: int

    /** The tables as one value. */
    function Snapshot(): Db
      reads this
    {
      Db(flights, seats, users, profiles, nextUserId)
    }

    ghost predicate Valid()
      reads this
    {
      Consistent(Snapshot())
    }

    constructor (db: Db)
      requires Consistent(db)
      ensures Valid() && Snapshot() == db
    {
      flights := db.flights;
      seats := db.seats;
      users := db.users;
      profiles := db.profiles;
      nextUserId := db.nextUserId;
    }

    /** `ProcessRequest`: split the line, upper-case the command token, run its handler. */
    method ProcessRequest(request: string, fault: Fault) returns (response: string)
      requires Valid()
      modifies this
      ensures Valid()
      ensures var o := Dispatch(old(Snapshot()), request, fault);
        Snapshot() == o.db && response == Render(o.reply)
    {
      var parts := Tokenise(request);
      var command := Route(AsciiUpper(parts[0]));
      match command
      case None =>
        response := Render(UnknownCommand);
      case Some(c) =>
        response := RunHandler(c, parts, fault);
    }

    /** The cases of the `switch` in `ProcessRequest`, one handler each. */
    method RunHandler(command: Command, parts: seq<string>, fault: Fault) returns (response: string)
      requires Valid()
      modifies this
      ensures Valid()
      ensures var o := Handle(old(Snapshot()), command, parts, fault);
        Snapshot() == o.db && response == Render(o.reply)
    {
      match command
      case BookSeatCommand => response := HandleBookSeat(parts, fault);
      case GetUserCommand => response := HandleGetUserInfo(parts, fault);
      case GetSeatsCommand => response := HandleGetSeats(parts, fault);
      case LoginCommand => response := HandleLogin(parts, fault);
      case RegisterCommand => response := HandleRegister(parts, fault);
      case GetFlightsCommand => response := HandleGetFlights(fault);
      case ChangePasswordCommand => response := HandleChangePassword(parts, fault);
      case UpdateUserCommand => response := HandleChangeInfo(parts, fault);
    }

    /** `HandleChangeInfo`: update the user's `UsersInfo` row, or insert one. */
    method HandleChangeInfo(parts: seq<string>, fault: Fault) returns (response: string)
      requires Valid()
      modifies this
      ensures Valid()
      ensures var o := UpdateUser(old(Snapshot()), parts, fault);
        Snapshot() == o.db && response == Render(o.reply)
    {
      if |parts| < 5 {
        return Render(MissingParameters);
      }
      var userId := TryParseInt32(parts[1]);
      if userId.None? {
        return Render(InvalidUserId);
      }
      var firstName := parts[2];
      var lastName := parts[3];
      var age := TryParseInt32(parts[4]);
      if age.None? {
        return Render(InvalidAge);
      }
      if fault.Raises? {
        return Render(StoreError(fault.message));
      }
      var recordExists := userId.value in profiles;
      profiles := profiles[userId.value := Profile(Some(firstName), Some(lastName), Some(age.value))];
      if recordExists {
        response := Render(InfoUpdated);
      } else {
        response := Render(InfoAdded);
      }
    }

    /** `HandleLogin`: the id of the account with this name and password. */
    method HandleLogin(parts: seq<string>, fault: Fault) returns (response: string)
      ensures response == Render(Login(Snapshot(), parts, fault))
    {
      if |parts| < 3 {
        return Render(MissingParameters);
      }
      var username := parts[1];
      var password := parts[2];
      if fault.Raises? {
        return Render(InternalServerError);
      }
      if username in users && users[username].password == password {
        response := Render(LoggedIn(users[username].id));
      } else {
        response := Render(InvalidCredentials);
      }
    }

    /**
     * `HandleRegister`: insert an account under the next identity value; an insert
     * refused for a taken name uses up that value all the same.
     */
    method HandleRegister(parts: seq<string>, fault: Fault) returns (response: string)
      requires Valid()
      modifies this
      ensures Valid()
      ensures var o := Register(old(Snapshot()), parts, fault);
        Snapshot() == o.db && response == Render(o.reply)
    {
      if |parts| < 3 {
        return Render(MissingParameters);
      }
      var username := parts[1];
      var password := parts[2];
      if fault.Raises? {
        return Render(StoreError(fault.message));
      }
      ProtocolLemmas.RegisterPreservesConsistency(Snapshot(), parts, fault);
      if username in users {
        // The unique-key violation still uses up an identity value.
        nextUserId := nextUserId + 1;
        return Render(UsernameTaken);
      }
      users := users[username := Account(nextUserId, password)];
      nextUserId := nextUserId + 1;
      response := Render(UserRegistered);
    }

    /** `HandleGetUserInfo`: the profile row, with `?` and `-1` for missing columns. */
    method HandleGetUserInfo(parts: seq<string>, fault: Fault) returns (response: string)
      ensures response == Render(GetUser(Snapshot(), parts, fault))
    {
      if |parts| < 2 {
        return Render(MissingParameters);
      }
      var userId := TryParseInt32(parts[1]);
      if userId.None? {
        return Render(InvalidUserId);
      }
      if fault.Raises? {
        return Render(StoreError(fault.message));
      }
      if userId.value in profiles {
        response := Render(UserFound(profiles[userId.value]));
      } else {
        response := Render(UserNotFound);
      }
    }

    /**
     * `HandleGetFlights`: read the `planes` rows, then append one line per flight, or
     * report that there are none.
     */
    method HandleGetFlights(fault: Fault) returns (response: string)
      ensures response == Render(GetFlights(Snapshot(), fault))
    {
      var rows := ReadFlights(fault);
      if |rows| == 0 {
        assert GetFlights(Snapshot(), fault) == NoFlights;
        return Render(NoFlights);
      }
      assert GetFlights(Snapshot(), fault) == FlightList(rows);
      response := AppendFlightLines(rows);
    }

    /** The `StringBuilder` loop of `HandleGetFlights`: one line per flight, in row order. */
    static method AppendFlightLines(rows: seq<Flight>) returns (text: string)
      ensures text == FlightListing(rows)
    {
      text := "";
      for k := 0 to |rows|
        invariant text == FlightListing(rows[..k])
      {
        assert rows[..k + 1][..k] == rows[..k];
        assert FlightListing(rows[..k + 1]) == FlightListing(rows[..k]) + FlightLine(rows[k]);
        text := text + FlightLine(rows[k]);
      }
      assert rows[..|rows|] == rows;
    }

    /**
     * The reader loop of `HandleGetFlights`: the `planes` rows in order, until the reader
     * is exhausted or fails (the failure is swallowed).
     */
    method ReadFlights(fault: Fault) returns (rows: seq<Flight>)
      ensures rows == ReadRows(flights, fault)
      ensures fault.Raises? && fault.rowsRead < |flights| ==> |rows| == fault.rowsRead
    {
      rows := [];
      var i := 0;
      while i < |flights| && !(fault.Raises? && i == fault.rowsRead)
        invariant 0 <= i <= |flights|
        invariant rows == flights[..i]
        invariant fault.Raises? ==> i <= fault.rowsRead
      {
        rows := rows + [flights[i]];
        i := i + 1;
      }
      if i == |flights| {
        assert flights[..i] == flights;
      }
    }

    /** `HandleGetSeats`: the free seat numbers of the flight, joined by `, `. */
    method HandleGetSeats(parts: seq<string>, fault: Fault) returns (response: string)
      ensures response == Render(GetSeats(Snapshot(), parts, fault))
    {
      if |parts| < 2 {
        return Render(MissingParameters);
      }
      var flightId := TryParseInt32(parts[1]);
      if flightId.None? {
        return Render(InvalidFlightId);
      }
      var availableSeats := GetAvailableSeats(flightId.value, fault);
      if |availableSeats| > 0 {
        response := Render(SeatList(availableSeats));
      } else {
        response := Render(NoAvailableSeats);
      }
    }

    /**
     * `GetAvailableSeats`: read the numbers of the free seats of the flight in row order
     * until the reader is exhausted or fails (the failure is swallowed).
     */
    method GetAvailableSeats(flightId: int, fault: Fault) returns (labels: seq<string>)
      ensures labels == ReadRows(FreeLabels(seats, flightId), fault)
      ensures forall s :: s in labels ==> exists i :: 0 <= i < |seats| && seats[i] == Seat(flightId, s, true)
    {
      labels := [];
      var i := 0;
      while i < |seats| && !(fault.Raises? && |labels| == fault.rowsRead)
        invariant 0 <= i <= |seats|
        invariant labels == FreeLabels(seats[..i], flightId)
        invariant fault.Raises? ==> |labels| <= fault.rowsRead
      {
        assert seats[..i + 1][..i] == seats[..i];
        var row := seats[i];
        if row.flightId == flightId && row.free {
          labels := labels + [row.number];
        }
        i := i + 1;
      }
      if i == |seats| {
        assert seats[..i] == seats;
      }
      FreeLabelsPrefix(seats, i, flightId);
      forall s | s in labels ensures exists j :: 0 <= j < |seats| && seats[j] == Seat(flightId, s, true) {
        FreeLabelsMembership(seats, flightId, s);
      }
    }

    /**
     * `HandleBookSeat`: the flight must exist, the seat must exist and be free; then
     * every row with its key is marked booked.
     */
    method HandleBookSeat(parts: seq<string>, fault: Fault) returns (response: string)
      requires Valid()
      modifies this
      ensures Valid()
      ensures var o := BookSeat(old(Snapshot()), parts, fault);
        Snapshot() == o.db && response == Render(o.reply)
    {
      if |parts| < 3 {
        return Render(MissingParameters);
      }
      var flightId := TryParseInt32(parts[1]);
      if flightId.None? {
        return Render(InvalidFlightId);
      }
      var seatNumber := parts[2];
      if fault.Raises? {
        return Render(StoreError(fault.message));
      }
      if !FlightExists(flights, flightId.value) {
        return Render(FlightNotFound);
      }
      var row := FindSeat(seats, flightId.value, seatNumber);
      if row.None? {
        return Render(SeatNotFound);
      }
      if !seats[row.value].free {
        return Render(SeatAlreadyBooked);
      }
      ProtocolLemmas.BookSeatPreservesConsistency(Snapshot(), parts, fault);
      seats := BookKey(seats, flightId.value, seatNumber);
      response := Render(SeatBooked(seatNumber, flightId.value));
    }

    /** `HandleChangePassword`: replace the password of an existing account. */
    method HandleChangePassword(parts: seq<string>, fault: Fault) returns (response: string)
      requires Valid()
      modifies this
      ensures Valid()
      ensures var o := ChangePassword(old(Snapshot()), parts, fault);
        Snapshot() == o.db && response == Render(o.reply)
    {
      if |parts| < 3 {
        return Render(MissingParameters);
      }
      var username := parts[1];
      var newPassword := parts[2];
      if fault.Raises? {
        return Render(StoreError(fault.message));
      }
      if username !in users {
        return Render(UserNotFound);
      }
      ProtocolLemmas.ChangePasswordPreservesConsistency(Snapshot(), parts, fault);
      users := users[username := users[username].(password := newPassword)];
      response := Render(PasswordUpdated);
    }
  }
}
