/** What the request-processing layer guarantees, stated over the functions of `Protocol`. */
module ProtocolLemmas {
  import opened Wrappers
  import opened Text
  import opened Store
  import opened Protocol

  // ---------------------------------------------------------------------------------
  // Tokenising and routing
  // ---------------------------------------------------------------------------------

  /** Tokenising and joining with a space are inverse on separator-free tokens. */
  lemma TokeniseJoin(parts: seq<string>)
    requires |parts| >= 1
    requires forall i :: 0 <= i < |parts| ==> Avoids(parts[i], Separators)
    ensures Tokenise(Join(parts, " ")) == parts
  {
    SplitJoin(parts, ' ', Separators);
  }

  /** Every request has a first token, so the `parts.Length == 0` branch never answers. */
  lemma RequestNeverInvalid(db: Db, request: string, fault: Fault)
    ensures |Tokenise(request)| >= 1
    ensures Dispatch(db, request, fault).reply != InvalidRequest
  {
    var parts := Tokenise(request);
    match Route(AsciiUpper(parts[0]))
    case None =>
    case Some(command) => HandleAnswers(db, command, parts, fault);
  }

  /** A routed command's handler answers for itself: never "invalid request" or "unknown command". */
  lemma HandleAnswers(db: Db, command: Command, parts: seq<string>, fault: Fault)
    ensures Handle(db, command, parts, fault).reply != InvalidRequest
    ensures Handle(db, command, parts, fault).reply != UnknownCommand
  {
    match command
    case BookSeatCommand => BookSeatAnswers(db, parts, fault);
    case GetUserCommand => GetUserAnswers(db, parts, fault);
    case GetSeatsCommand => GetSeatsAnswers(db, parts, fault);
    case LoginCommand =>
    case RegisterCommand =>
    case GetFlightsCommand =>
    case ChangePasswordCommand =>
    case UpdateUserCommand => UpdateUserAnswers(db, parts, fault);
  }

  lemma BookSeatAnswers(db: Db, parts: seq<string>, fault: Fault)
    ensures var r := BookSeat(db, parts, fault).reply;
      r != InvalidRequest && r != UnknownCommand && (r == MissingParameters <==> |parts| < 3)
  {
    if |parts| >= 3 {
      match TryParseInt32(parts[1])
      case None =>
      case Some(flightId) => BookAnswers(db, flightId, parts[2], fault);
    }
  }

  /** The replies of the store step of a booking. */
  lemma BookAnswers(db: Db, flightId: int, seat: string, fault: Fault)
    ensures var r := Book(db, flightId, seat, fault).reply;
      r.StoreError? || r == FlightNotFound || r == SeatNotFound || r == SeatAlreadyBooked || r == SeatBooked(seat, flightId)
  {
  }

  lemma GetUserAnswers(db: Db, parts: seq<string>, fault: Fault)
    ensures var r := GetUser(db, parts, fault);
      r != InvalidRequest && r != UnknownCommand && (r == MissingParameters <==> |parts| < 2)
  {
    if |parts| >= 2 {
      match TryParseInt32(parts[1])
      case None =>
      case Some(userId) => assert FindProfile(db, userId, fault) != MissingParameters;
    }
  }

  lemma GetSeatsAnswers(db: Db, parts: seq<string>, fault: Fault)
    ensures var r := GetSeats(db, parts, fault);
      r != InvalidRequest && r != UnknownCommand && (r == MissingParameters <==> |parts| < 2)
  {
    if |parts| >= 2 && TryParseInt32(parts[1]).Some? {
      var flightId := TryParseInt32(parts[1]).value;
      assert GetSeats(db, parts, fault) == FreeSeats(db, flightId, fault);
    }
  }

  lemma UpdateUserAnswers(db: Db, parts: seq<string>, fault: Fault)
    ensures var r := UpdateUser(db, parts, fault).reply;
      r != InvalidRequest && r != UnknownCommand && (r == MissingParameters <==> |parts| < 5)
  {
    if |parts| >= 5 {
      match TryParseInt32(parts[1])
      case None =>
      case Some(userId) =>
        match TryParseInt32(parts[4])
        case None =>
        case Some(age) =>
          var r := StoreProfile(db, userId, parts[2], parts[3], age, fault).reply;
          assert r.StoreError? || r == InfoUpdated || r == InfoAdded;
    }
  }

  /** Empty entries are kept: a doubled space yields an empty token, an empty request one empty token. */
  lemma TokeniseKeepsEmptyEntries()
    ensures Tokenise("BOOK_SEAT 1  12A") == ["BOOK_SEAT", "1", "", "12A"]
    ensures Tokenise("") == [""]
    ensures Join(Tokenise("BOOK_SEAT 1  12A"), " ") == "BOOK_SEAT 1  12A"
  {
    var parts := ["BOOK_SEAT", "1", "", "12A"];
    assert Join(parts, " ") == "BOOK_SEAT 1  12A";
    TokeniseJoin(parts);
  }

  /** Exactly the eight command names route to a handler, each to its own. */
  lemma RouteExactlyEightNames(command: string, c: Command)
    ensures Route(command) == Some(c) <==> command == CommandName(c)
    ensures Route(command).Some? <==>
      command in {"BOOK_SEAT", "GET_USER", "GET_SEATS", "LOGIN", "REGISTER", "GET_FLIGHTS", "CHANGE_PASSWORD", "UPDATE_USER"}
  {
  }

  /** A request whose first token is a command name, in capitals, goes to that command's handler. */
  lemma DispatchRoutes(db: Db, request: string, fault: Fault, c: Command)
    requires |Tokenise(request)| >= 1 && Tokenise(request)[0] == CommandName(c)
    ensures Dispatch(db, request, fault) == Handle(db, c, Tokenise(request), fault)
  {
    UpperOfName(c);
    RouteExactlyEightNames(CommandName(c), c);
  }

  lemma UpperOfName(c: Command)
    ensures AsciiUpper(CommandName(c)) == CommandName(c)
  {
    NameIsCapitals(c);
    UpperOfCapitals(CommandName(c));
  }

  /** Command names are written in capital letters and underscores. */
  lemma NameIsCapitals(c: Command)
    ensures forall i :: 0 <= i < |CommandName(c)| ==> IsCapitalOrUnderscore(CommandName(c)[i])
  {
    match c
    case BookSeatCommand =>
    case GetUserCommand =>
    case GetSeatsCommand =>
    case LoginCommand =>
    case RegisterCommand =>
    case GetFlightsCommand =>
    case ChangePasswordCommand =>
    case UpdateUserCommand =>
  }

  /**
   * Command names are matched after upper-casing, so a request whose first token is a
   * command name in any capitalisation reaches that command's handler with all its tokens.
   */
  lemma CommandCaseInsensitive(db: Db, request: string, c: Command, fault: Fault)
    requires AsciiUpper(Tokenise(request)[0]) == CommandName(c)
    ensures Dispatch(db, request, fault) == Handle(db, c, Tokenise(request), fault)
    ensures Dispatch(db, request, fault).reply != UnknownCommand
  {
    RouteExactlyEightNames(CommandName(c), c);
    HandleAnswers(db, c, Tokenise(request), fault);
  }

  /** A request made of a command name alone, in any capitalisation, is that one token. */
  lemma LoneCommandToken(db: Db, token: string, c: Command, fault: Fault)
    requires AsciiUpper(token) == CommandName(c)
    ensures Dispatch(db, token, fault) == Handle(db, c, [token], fault)
    ensures Dispatch(db, token, fault).reply != UnknownCommand
  {
    forall i | 0 <= i < |token| ensures token[i] !in Separators {
      UpperOfSeparator(token[i]);
      NameAvoidsSeparators(c, i);
    }
    SplitWhole(token, Separators);
    assert Tokenise(token) == [token];
    CommandCaseInsensitive(db, token, c, fault);
  }

  lemma NameAvoidsSeparators(c: Command, i: int)
    requires 0 <= i < |CommandName(c)|
    ensures CommandName(c)[i] !in Separators
  {
    NameIsCapitals(c);
  }

  lemma UpperOfSeparator(ch: char)
    ensures ch in Separators ==> UpperChar(ch) in Separators
  {
  }

  /** Any other first token, the empty one included, is an unknown command and changes nothing. */
  lemma UnknownCommandChangesNothing(db: Db, request: string, fault: Fault)
    requires Route(AsciiUpper(Tokenise(request)[0])).None?
    ensures Dispatch(db, request, fault) == Outcome(db, UnknownCommand)
    ensures Render(Dispatch(db, request, fault).reply) == "ERROR: Unknown command"
  {
  }

  lemma EmptyRequestIsUnknown(db: Db, fault: Fault)
    ensures Dispatch(db, "", fault) == Outcome(db, UnknownCommand)
  {
    assert Tokenise("") == [""];
    assert AsciiUpper("") == "";
  }

  // ---------------------------------------------------------------------------------
  // Arity and argument checks
  // ---------------------------------------------------------------------------------

  /** "Missing parameters" is the answer exactly when too few tokens came, and then nothing changes. */
  lemma MissingParametersExactly(db: Db, parts: seq<string>, fault: Fault)
    ensures UpdateUser(db, parts, fault).reply == MissingParameters <==> |parts| < 5
    ensures Login(db, parts, fault) == MissingParameters <==> |parts| < 3
    ensures Register(db, parts, fault).reply == MissingParameters <==> |parts| < 3
    ensures GetUser(db, parts, fault) == MissingParameters <==> |parts| < 2
    ensures GetSeats(db, parts, fault) == MissingParameters <==> |parts| < 2
    ensures BookSeat(db, parts, fault).reply == MissingParameters <==> |parts| < 3
    ensures ChangePassword(db, parts, fault).reply == MissingParameters <==> |parts| < 3
    ensures |parts| < 5 ==> UpdateUser(db, parts, fault).db == db
    ensures |parts| < 3 ==> Register(db, parts, fault).db == db
    ensures |parts| < 3 ==> BookSeat(db, parts, fault).db == db
    ensures |parts| < 3 ==> ChangePassword(db, parts, fault).db == db
  {
    UpdateUserAnswers(db, parts, fault);
    BookSeatAnswers(db, parts, fault);
    GetUserAnswers(db, parts, fault);
    GetSeatsAnswers(db, parts, fault);
  }

  /** Tokens beyond the ones a handler reads do not change its outcome. */
  lemma ExtraTokensIgnored(db: Db, parts: seq<string>, extra: seq<string>, fault: Fault)
    ensures |parts| >= 5 ==> UpdateUser(db, parts + extra, fault) == UpdateUser(db, parts, fault)
    ensures |parts| >= 3 ==> Login(db, parts + extra, fault) == Login(db, parts, fault)
    ensures |parts| >= 3 ==> Register(db, parts + extra, fault) == Register(db, parts, fault)
    ensures |parts| >= 2 ==> GetUser(db, parts + extra, fault) == GetUser(db, parts, fault)
    ensures |parts| >= 2 ==> GetSeats(db, parts + extra, fault) == GetSeats(db, parts, fault)
    ensures |parts| >= 3 ==> BookSeat(db, parts + extra, fault) == BookSeat(db, parts, fault)
    ensures |parts| >= 3 ==> ChangePassword(db, parts + extra, fault) == ChangePassword(db, parts, fault)
  {
    if |parts| >= 2 {
      var longer := parts + extra;
      assert longer[1] == parts[1];
      assert GetUser(db, longer, fault) == GetUser(db, parts, fault);
      assert GetSeats(db, longer, fault) == GetSeats(db, parts, fault);
      if |parts| >= 3 {
        assert longer[2] == parts[2];
        assert Login(db, longer, fault) == Login(db, parts, fault);
        assert Register(db, longer, fault) == Register(db, parts, fault);
        assert ChangePassword(db, longer, fault) == ChangePassword(db, parts, fault);
        ExtraTokensIgnoredByBookSeat(db, parts, longer, fault);
      }
      if |parts| >= 5 {
        assert longer[..5] == parts[..5];
        ExtraTokensIgnoredByUpdateUser(db, parts, longer, fault);
      }
    }
  }

  lemma ExtraTokensIgnoredByBookSeat(db: Db, parts: seq<string>, longer: seq<string>, fault: Fault)
    requires 3 <= |parts| <= |longer| && longer[1] == parts[1] && longer[2] == parts[2]
    ensures BookSeat(db, longer, fault) == BookSeat(db, parts, fault)
  {
  }

  lemma ExtraTokensIgnoredByUpdateUser(db: Db, parts: seq<string>, longer: seq<string>, fault: Fault)
    requires 5 <= |parts| <= |longer| && longer[..5] == parts[..5]
    ensures UpdateUser(db, longer, fault) == UpdateUser(db, parts, fault)
  {
    assert longer[1] == parts[1] && longer[2] == parts[2] && longer[3] == parts[3] && longer[4] == parts[4];
  }

  /**
   * A non-numeric id or age is rejected before the store is used: the reply is the
   * same whatever the database holds and whether or not the store would fail.
   */
  lemma BadNumberNeverReachesStore(db: Db, parts: seq<string>, fault: Fault)
    ensures |parts| >= 3 && TryParseInt32(parts[1]).None? ==> BookSeat(db, parts, fault) == Outcome(db, InvalidFlightId)
    ensures |parts| >= 2 && TryParseInt32(parts[1]).None? ==> GetSeats(db, parts, fault) == InvalidFlightId
    ensures |parts| >= 2 && TryParseInt32(parts[1]).None? ==> GetUser(db, parts, fault) == InvalidUserId
    ensures |parts| >= 5 && TryParseInt32(parts[1]).None? ==> UpdateUser(db, parts, fault) == Outcome(db, InvalidUserId)
    ensures |parts| >= 5 && TryParseInt32(parts[1]).Some? && TryParseInt32(parts[4]).None?
      ==> UpdateUser(db, parts, fault) == Outcome(db, InvalidAge)
  {
  }

  // ---------------------------------------------------------------------------------
  // Booking
  // ---------------------------------------------------------------------------------

  /**
   * The booking cascade on a parsed request to a working store: an unknown flight,
   * then an unknown seat, then a booked seat are refused, each with its own reply and
   * without any change; otherwise exactly that seat's row becomes booked.
   */
  lemma BookSeatCascade(db: Db, flightId: int, seat: string)
    requires Consistent(db)
    ensures var o := Book(db, flightId, seat, Healthy);
      && (o.reply == FlightNotFound <==> !FlightExists(db.flights, flightId))
      && (o.reply == SeatNotFound <==>
           FlightExists(db.flights, flightId) && forall j :: 0 <= j < |db.seats| ==> !HasKey(db.seats[j], flightId, seat))
      && (o.reply == SeatAlreadyBooked <==>
           FlightExists(db.flights, flightId) && exists j :: 0 <= j < |db.seats| && db.seats[j] == Seat(flightId, seat, false))
      && (o.reply == SeatBooked(seat, flightId) <==>
           FlightExists(db.flights, flightId) && exists j :: 0 <= j < |db.seats| && db.seats[j] == Seat(flightId, seat, true))
      && (o.reply in {FlightNotFound, SeatNotFound, SeatAlreadyBooked, SeatBooked(seat, flightId)})
      && (o.reply != SeatBooked(seat, flightId) ==> o.db == db)
  {
    if FlightExists(db.flights, flightId) {
      match FindSeat(db.seats, flightId, seat)
      case None =>
      case Some(i) =>
        OnlyRowWithKey(db.seats, i, flightId, seat);
        assert db.seats[i] == Seat(flightId, seat, db.seats[i].free);
    }
  }

  /** The row `FindSeat` returns is the only one with that key, since seat keys are unique. */
  lemma OnlyRowWithKey(seats: seq<Seat>, i: nat, flightId: int, seat: string)
    requires UniqueSeatKeys(seats)
    requires FindSeat(seats, flightId, seat) == Some(i)
    ensures i < |seats| && HasKey(seats[i], flightId, seat)
    ensures forall j :: 0 <= j < |seats| && j != i ==> !HasKey(seats[j], flightId, seat)
  {
    forall j | i < j < |seats| ensures !HasKey(seats[j], flightId, seat) {
      assert !SameKey(seats[i], seats[j]);
    }
  }

  /** The row a successful booking flips: the only row with that key, and a free one. */
  lemma BookedRow(db: Db, flightId: int, seat: string) returns (i: nat)
    requires Consistent(db)
    requires Book(db, flightId, seat, Healthy).reply == SeatBooked(seat, flightId)
    ensures i < |db.seats| && db.seats[i] == Seat(flightId, seat, true)
    ensures forall j :: 0 <= j < |db.seats| && j != i ==> !HasKey(db.seats[j], flightId, seat)
    ensures FindSeat(db.seats, flightId, seat) == Some(i)
    ensures Book(db, flightId, seat, Healthy).db == db.(seats := BookRow(db.seats, i))
  {
    i := FindSeat(db.seats, flightId, seat).value;
    OnlyRowWithKey(db.seats, i, flightId, seat);
    BookKeyIsBookRow(db.seats, i);
  }

  /** A successful booking flips the `free` flag of that one row and changes nothing else. */
  lemma BookSeatChangesOneRow(db: Db, flightId: int, seat: string)
    requires Consistent(db)
    requires Book(db, flightId, seat, Healthy).reply == SeatBooked(seat, flightId)
    ensures var after := Book(db, flightId, seat, Healthy).db;
      && after.flights == db.flights && after.users == db.users && after.profiles == db.profiles
      && after.nextUserId == db.nextUserId
      && |after.seats| == |db.seats|
      && forall j :: 0 <= j < |db.seats| ==>
           after.seats[j] == if HasKey(db.seats[j], flightId, seat) then db.seats[j].(free := false) else db.seats[j]
  {
    var i := BookedRow(db, flightId, seat);
  }

  /**
   * After a successful booking the seat is gone from its flight's free list (one
   * occurrence fewer, every other flight's list untouched) and `GET_SEATS` no
   * longer offers it.
   */
  lemma BookedSeatLeavesFreeList(db: Db, flightId: int, seat: string, fault: Fault)
    requires Consistent(db)
    requires Book(db, flightId, seat, Healthy).reply == SeatBooked(seat, flightId)
    ensures var after := Book(db, flightId, seat, Healthy).db;
      && seat !in FreeLabels(after.seats, flightId)
      && multiset(FreeLabels(after.seats, flightId)) + multiset{seat} == multiset(FreeLabels(db.seats, flightId))
      && (forall g :: g != flightId ==> FreeLabels(after.seats, g) == FreeLabels(db.seats, g))
      && (FreeSeats(after, flightId, fault).SeatList? ==> seat !in FreeSeats(after, flightId, fault).seats)
  {
    var i := BookedRow(db, flightId, seat);
    var after := db.(seats := BookRow(db.seats, i));
    BookedLabelNotFree(db.seats, i);
    FreeLabelsAfterBooking(db.seats, i);
    forall g | g != flightId ensures FreeLabels(after.seats, g) == FreeLabels(db.seats, g) {
      FreeLabelsOtherFlight(db.seats, i, g);
    }
  }

  /** Booking the same seat again is refused with "already booked" and changes nothing. */
  lemma RebookingRefused(db: Db, flightId: int, seat: string)
    requires Consistent(db)
    requires Book(db, flightId, seat, Healthy).reply == SeatBooked(seat, flightId)
    ensures var after := Book(db, flightId, seat, Healthy).db;
      && Consistent(after)
      && Book(after, flightId, seat, Healthy) == Outcome(after, SeatAlreadyBooked)
  {
    var i := BookedRow(db, flightId, seat);
    var after := db.(seats := BookRow(db.seats, i));
    assert FindSeat(after.seats, flightId, seat) == Some(i) by {
      assert HasKey(after.seats[i], flightId, seat);
    }
    assert UniqueSeatKeys(after.seats) by {
      forall a, b | 0 <= a < b < |after.seats| ensures !SameKey(after.seats[a], after.seats[b]) {
        assert SameKey(after.seats[a], after.seats[b]) <==> SameKey(db.seats[a], db.seats[b]);
      }
    }
  }

  /** The only success reply of the booking handler is the booking itself. */
  lemma BookSeatSucceedsOnlyByBooking(db: Db, parts: seq<string>, fault: Fault)
    ensures BookSeat(db, parts, fault).reply.IsSuccess() <==> BookSeat(db, parts, fault).reply.SeatBooked?
  {
    var r := BookSeat(db, parts, fault).reply;
    if |parts| < 3 {
      assert r == MissingParameters;
    } else {
      match TryParseInt32(parts[1])
      case None =>
        assert r == InvalidFlightId;
      case Some(flightId) =>
        assert r == Book(db, flightId, parts[2], fault).reply;
        BookAnswers(db, flightId, parts[2], fault);
    }
  }

  /** `GET_SEATS` on a working store lists exactly the free seats of the flight, or says there are none. */
  lemma GetSeatsListsFreeSeats(db: Db, flightId: int, seat: string)
    ensures var r := FreeSeats(db, flightId, Healthy);
      && (r.SeatList? || r == NoAvailableSeats)
      && (r == NoAvailableSeats <==> forall j :: 0 <= j < |db.seats| ==> !(db.seats[j].flightId == flightId && db.seats[j].free))
      && (r.SeatList? ==> (seat in r.seats <==> exists j :: 0 <= j < |db.seats| && db.seats[j] == Seat(flightId, seat, true)))
  {
    var free := FreeLabels(db.seats, flightId);
    FreeLabelsMembership(db.seats, flightId, seat);
    if free != [] {
      FreeLabelsMembership(db.seats, flightId, free[0]);
    }
    forall j | 0 <= j < |db.seats| && db.seats[j].flightId == flightId && db.seats[j].free ensures free != [] {
      FreeLabelsMembership(db.seats, flightId, db.seats[j].number);
      assert db.seats[j] == Seat(flightId, db.seats[j].number, true);
    }
  }

  // ---------------------------------------------------------------------------------
  // Accounts and profiles
  // ---------------------------------------------------------------------------------

  /** `LOGIN u p` succeeds, with the account's id, exactly when `u` is registered with password `p`. */
  lemma LoginExactlyOnMatch(db: Db, parts: seq<string>, userId: int)
    requires |parts| >= 3
    ensures Login(db, parts, Healthy) == LoggedIn(userId)
        <==> parts[1] in db.users && db.users[parts[1]] == Account(userId, parts[2])
    ensures Login(db, parts, Healthy).LoggedIn? || Login(db, parts, Healthy) == InvalidCredentials
  {
  }

  /**
   * `REGISTER` of a new name adds exactly that account, with the next identity value,
   * and the new credentials then log in; a taken name is refused, and the failed insert
   * uses up an identity value but changes nothing else.
   */
  lemma RegisterThenLogin(db: Db, parts: seq<string>)
    requires Consistent(db)
    requires |parts| >= 3
    ensures var o := Register(db, parts, Healthy);
      && (parts[1] in db.users ==> o == Outcome(db.(nextUserId := db.nextUserId + 1), UsernameTaken))
      && (parts[1] !in db.users ==>
            && o.reply == UserRegistered
            && o.db.users == db.users[parts[1] := Account(db.nextUserId, parts[2])]
            && o.db.flights == db.flights && o.db.seats == db.seats && o.db.profiles == db.profiles
            && Login(o.db, parts, Healthy) == LoggedIn(db.nextUserId)
            && Consistent(o.db))
  {
  }

  /**
   * `CHANGE_PASSWORD` of an unknown name changes nothing; otherwise the new password
   * replaces the old one, the account keeps its id, and logging in with it succeeds.
   */
  lemma ChangePasswordThenLogin(db: Db, parts: seq<string>)
    requires Consistent(db)
    requires |parts| >= 3
    ensures var o := ChangePassword(db, parts, Healthy);
      && (parts[1] !in db.users ==> o == Outcome(db, UserNotFound))
      && (parts[1] in db.users ==>
            && o.reply == PasswordUpdated
            && o.db == db.(users := db.users[parts[1] := Account(db.users[parts[1]].id, parts[2])])
            && Login(o.db, ["LOGIN", parts[1], parts[2]], Healthy) == LoggedIn(db.users[parts[1]].id)
            && Consistent(o.db))
  {
  }

  /**
   * `UPDATE_USER` is an upsert: it answers "updated" when a profile existed and "added"
   * otherwise, and `GET_USER` afterwards returns the stored names and age.
   */
  lemma UpdateUserThenGetUser(db: Db, userId: int, firstName: string, lastName: string, age: int)
    ensures var o := StoreProfile(db, userId, firstName, lastName, age, Healthy);
      && (o.reply == InfoUpdated <==> userId in db.profiles)
      && (o.reply == InfoAdded <==> userId !in db.profiles)
      && o.db == db.(profiles := db.profiles[userId := Profile(Some(firstName), Some(lastName), Some(age))])
      && FindProfile(o.db, userId, Healthy) == UserFound(Profile(Some(firstName), Some(lastName), Some(age)))
      && Render(FindProfile(o.db, userId, Healthy)) == "USER=" + firstName + "," + lastName + "," + FormatInt(age)
  {
    var p := Profile(Some(firstName), Some(lastName), Some(age));
    var o := StoreProfile(db, userId, firstName, lastName, age, Healthy);
    assert o.db.profiles[userId] == p;
    assert FindProfile(o.db, userId, Healthy) == UserFound(p);
    FullProfileText(firstName, lastName, age);
  }

  /** A profile with every column set is rendered as its names and age, comma-separated. */
  lemma FullProfileText(firstName: string, lastName: string, age: int)
    ensures Render(UserFound(Profile(Some(firstName), Some(lastName), Some(age))))
      == "USER=" + firstName + "," + lastName + "," + FormatInt(age)
  {
    var fields := firstName + "," + lastName + "," + FormatInt(age);
    assert ProfileFields(Profile(Some(firstName), Some(lastName), Some(age))) == fields;
    assert "USER=" + fields == "USER=" + firstName + "," + lastName + "," + FormatInt(age);
  }

  // ---------------------------------------------------------------------------------
  // Whole requests
  // ---------------------------------------------------------------------------------

  /** Booking keeps seat keys unique and leaves the accounts alone. */
  lemma BookSeatPreservesConsistency(db: Db, parts: seq<string>, fault: Fault)
    requires Consistent(db)
    ensures Consistent(BookSeat(db, parts, fault).db)
  {
    if fault.Healthy? && |parts| >= 3 && TryParseInt32(parts[1]).Some? {
      var flightId := TryParseInt32(parts[1]).value;
      if Book(db, flightId, parts[2], Healthy).reply.SeatBooked? {
        BookSeatCascade(db, flightId, parts[2]);
        RebookingRefused(db, flightId, parts[2]);
      }
    }
  }

  /** Registering keeps account ids below the identity counter and distinct. */
  lemma RegisterPreservesConsistency(db: Db, parts: seq<string>, fault: Fault)
    requires Consistent(db)
    ensures Consistent(Register(db, parts, fault).db)
  {
    if fault.Healthy? && |parts| >= 3 {
      RegisterThenLogin(db, parts);
    }
  }

  /** Changing a password keeps every account id. */
  lemma ChangePasswordPreservesConsistency(db: Db, parts: seq<string>, fault: Fault)
    requires Consistent(db)
    ensures Consistent(ChangePassword(db, parts, fault).db)
  {
    if fault.Healthy? && |parts| >= 3 {
      ChangePasswordThenLogin(db, parts);
    }
  }

  /** No handler breaks the schema constraints the model relies on. */
  lemma HandlePreservesConsistency(db: Db, command: Command, parts: seq<string>, fault: Fault)
    requires Consistent(db)
    ensures Consistent(Handle(db, command, parts, fault).db)
  {
    match command
    case BookSeatCommand => BookSeatPreservesConsistency(db, parts, fault);
    case RegisterCommand => RegisterPreservesConsistency(db, parts, fault);
    case ChangePasswordCommand => ChangePasswordPreservesConsistency(db, parts, fault);
    case _ =>
  }

  /** No request breaks the schema constraints the model relies on. */
  lemma DispatchPreservesConsistency(db: Db, request: string, fault: Fault)
    requires Consistent(db)
    ensures Consistent(Dispatch(db, request, fault).db)
  {
    var parts := Tokenise(request);
    match Route(AsciiUpper(parts[0]))
    case None =>
    case Some(command) => HandlePreservesConsistency(db, command, parts, fault);
  }

  /** A reply's text starts with `SUCCESS` exactly when the reply is a success. */
  lemma RenderedSuccessIsSuccess(r: Reply)
    ensures StartsWith(Render(r), "SUCCESS") <==> r.IsSuccess()
  {
    if r.IsSuccess() {
      SuccessTextStartsWithSuccess(r);
    } else if r.StoreError? || r.SeatList? || r.UserFound? || r.FlightList? {
      DataTextDoesNotStartWithSuccess(r);
    } else {
      ErrorTextStartsWithError(r);
    }
  }

  lemma SuccessTextStartsWithSuccess(r: Reply)
    requires r.IsSuccess()
    ensures StartsWith(Render(r), "SUCCESS")
  {
    match r
    case SeatBooked(seat, flightId) => SeatBookedTextStart(seat, flightId);
    case LoggedIn(userId) => LoggedInTextStart(userId);
    case UserRegistered => AccountSuccessTexts();
    case InfoUpdated => ProfileSuccessTexts();
    case InfoAdded => ProfileSuccessTexts();
    case PasswordUpdated => AccountSuccessTexts();
  }

  /** The fixed success texts of the account handlers. */
  lemma AccountSuccessTexts()
    ensures StartsWith(Render(UserRegistered), "SUCCESS")
    ensures StartsWith(Render(PasswordUpdated), "SUCCESS")
  {
  }

  /** The fixed success texts of the profile handler. */
  lemma ProfileSuccessTexts()
    ensures StartsWith(Render(InfoUpdated), "SUCCESS")
    ensures StartsWith(Render(InfoAdded), "SUCCESS")
  {
  }

  lemma SeatBookedTextStart(seat: string, flightId: int)
    ensures StartsWith(Render(SeatBooked(seat, flightId)), "SUCCESS")
  {
    var text := "SUCCESS: Seat " + seat + " booked for flight " + FormatInt(flightId);
    assert text[..7] == "SUCCESS";
  }

  lemma LoggedInTextStart(userId: int)
    ensures StartsWith(Render(LoggedIn(userId)), "SUCCESS")
  {
    var text := "SUCCESS=" + FormatInt(userId);
    assert text[..7] == "SUCCESS";
  }

  lemma DataTextDoesNotStartWithSuccess(r: Reply)
    requires r.StoreError? || r.SeatList? || r.UserFound? || r.FlightList?
    ensures !StartsWith(Render(r), "SUCCESS")
  {
    match r
    case StoreError(message) => StoreErrorText(message);
    case SeatList(seats) => SeatListTextStart(seats);
    case UserFound(p) => UserFoundTextStart(p);
    case FlightList(rows) =>
      FlightListingStartsWithF(rows);
      NotSuccessByFirstCharacter(Render(r));
  }

  lemma StoreErrorText(message: string)
    ensures !StartsWith(Render(StoreError(message)), "SUCCESS")
  {
    var text := "ERROR: " + message;
    assert text[0] == 'E';
    NotSuccessByFirstCharacter(text);
  }

  lemma SeatListTextStart(seats: seq<string>)
    ensures !StartsWith(Render(SeatList(seats)), "SUCCESS")
  {
    var text := "Seats: " + Join(seats, ", ");
    assert text[0] == 'S' && text[1] == 'e';
  }

  lemma UserFoundTextStart(p: Profile)
    ensures !StartsWith(Render(UserFound(p)), "SUCCESS")
  {
    var text := "USER=" + ProfileFields(p);
    assert text[0] == 'U';
    NotSuccessByFirstCharacter(text);
  }

  lemma NotSuccessByFirstCharacter(text: string)
    requires text == [] || text[0] != 'S'
    ensures !StartsWith(text, "SUCCESS")
  {
  }

  /** The fixed error replies all start with `ERROR: `. */
  lemma ErrorTextStartsWithError(r: Reply)
    requires !r.IsSuccess() && !(r.StoreError? || r.SeatList? || r.UserFound? || r.FlightList?)
    ensures StartsWith(Render(r), "ERROR: ")
  {
    if RequestError(r) {
      RequestErrorTexts(r);
    } else {
      StoreErrorTexts(r);
    }
  }

  /** The replies about a malformed request. */
  predicate RequestError(r: Reply) {
    r.InvalidRequest? || r.UnknownCommand? || r.MissingParameters? || r.InvalidFlightId? || r.InvalidUserId? || r.InvalidAge?
  }

  lemma RequestErrorTexts(r: Reply)
    requires RequestError(r)
    ensures StartsWith(Render(r), "ERROR: ")
  {
  }

  lemma StoreErrorTexts(r: Reply)
    requires !r.IsSuccess() && !RequestError(r) && !(r.StoreError? || r.SeatList? || r.UserFound? || r.FlightList?)
    ensures StartsWith(Render(r), "ERROR: ")
  {
  }

  /** The listing of two runs of rows is the listing of the first followed by that of the second. */
  lemma {:induction false} FlightListingConcat(a: seq<Flight>, b: seq<Flight>)
    ensures FlightListing(a + b) == FlightListing(a) + FlightListing(b)
  {
    if b == [] {
      assert a + b == a;
    } else {
      var n := |b| - 1;
      FlightListingConcat(a, b[..n]);
      LastOfConcat(a, b);
      FlightListingLast(a + b);
      FlightListingLast(b);
      AppendAssociates(FlightListing(a), FlightListing(b[..n]), FlightLine(b[n]));
    }
  }

  lemma FlightListingLast(rows: seq<Flight>)
    requires rows != []
    ensures FlightListing(rows) == FlightListing(rows[..|rows| - 1]) + FlightLine(rows[|rows| - 1])
  {
  }

  lemma AppendAssociates<T>(x: seq<T>, y: seq<T>, z: seq<T>)
    ensures x + y + z == x + (y + z)
  {
  }

  lemma LastOfConcat<T>(a: seq<T>, b: seq<T>)
    requires b != []
    ensures (a + b)[..|a + b| - 1] == a + b[..|b| - 1]
    ensures (a + b)[|a + b| - 1] == b[|b| - 1]
  {
  }

  /**
   * `GET_FLIGHTS` answers the lines of the flights read before any failure: a prefix of
   * the listing of the whole `planes` table, and all of it from a working store.
   */
  lemma GetFlightsListsFlights(db: Db, fault: Fault)
    ensures var r := GetFlights(db, fault);
      r.FlightList? ==> StartsWith(FlightListing(db.flights), Render(r))
    ensures fault.Healthy? && db.flights != [] ==> Render(GetFlights(db, fault)) == FlightListing(db.flights)
  {
    var r := GetFlights(db, fault);
    if r.FlightList? {
      var k := |r.flights|;
      assert db.flights == r.flights + db.flights[k..];
      FlightListingConcat(r.flights, db.flights[k..]);
      RenderFlightList(r.flights);
      StartsWithAppend(FlightListing(r.flights), FlightListing(db.flights[k..]));
    }
  }

  lemma RenderFlightList(rows: seq<Flight>)
    ensures Render(FlightList(rows)) == FlightListing(rows)
  {
  }

  /** The date column splits at its dots into day, month and year, each reading back as its number. */
  lemma FlightDateReadsBack(d: Date)
    requires IsInt32(d.day) && IsInt32(d.month) && IsInt32(d.year)
    ensures var parts := Split(FormatDate(d), {'.'});
      && parts == [PadZeros(d.day, 2), PadZeros(d.month, 2), PadZeros(d.year, 4)]
      && TryParseInt32(parts[0]) == Some(d.day)
      && TryParseInt32(parts[1]) == Some(d.month)
      && TryParseInt32(parts[2]) == Some(d.year)
  {
    var pieces := [PadZeros(d.day, 2), PadZeros(d.month, 2), PadZeros(d.year, 4)];
    assert pieces[1..] == [pieces[1], pieces[2]] && pieces[1..][1..] == [pieces[2]];
    var day, month, year := pieces[0], pieces[1], pieces[2];
    assert Join(pieces[1..][1..], ".") == year;
    assert Join(pieces[1..], ".") == month + "." + year;
    assert Join(pieces, ".") == day + "." + (month + "." + year);
    assert day + "." + (month + "." + year) == day + "." + month + "." + year;
    assert Join(pieces, ".") == FormatDate(d);
    SplitJoin(pieces, '.', {'.'});
    PadZerosRoundTrip(d.day, 2);
    PadZerosRoundTrip(d.month, 2);
    PadZerosRoundTrip(d.year, 4);
  }

  /**
   * A non-empty listing opens with the line of its first row, so its text starts with
   * the `F` of `Flight ID:`; the empty listing is empty.
   */
  lemma {:induction false} FlightListingStartsWithF(rows: seq<Flight>)
    ensures rows != [] ==> StartsWith(FlightListing(rows), FlightLine(rows[0]))
    ensures FlightListing(rows) == [] || FlightListing(rows)[0] == 'F'
  {
    if rows != [] {
      var first := [rows[0]];
      assert first[..0] == [];
      assert FlightListing(first) == FlightLine(rows[0]);
      assert first + rows[1..] == rows;
      FlightListingConcat(first, rows[1..]);
      StartsWithAppend(FlightLine(rows[0]), FlightListing(rows[1..]));
      assert FlightListing(rows)[0] == FlightLine(rows[0])[0];
    }
  }
}
