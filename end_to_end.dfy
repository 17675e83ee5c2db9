/**
 * The seat-selection window talking to the server: the lines the window writes are
 * routed to the intended handlers, and the window's reading of each reply agrees with
 * what the server did.
 */
module EndToEnd {
  import opened Text
  import opened Store
  import opened Protocol
  import opened ProtocolLemmas
  import opened SeatClient
  import opened Wrappers

  /** The request line `BOOK_SEAT f s` reaches the booking handler with the tokens `BOOK_SEAT`, `f`, `s`. */
  lemma BookingRequestTokens(flightId: int, seat: string)
    requires Avoids(seat, Separators)
    ensures Tokenise(BookingRequest(flightId, seat)) == ["BOOK_SEAT", FormatInt(flightId), seat]
  {
    var id := FormatInt(flightId);
    FormatIntAvoids(flightId, Separators);
    var parts := ["BOOK_SEAT", id, seat];
    assert parts[1..] == [id, seat] && parts[1..][1..] == [seat];
    assert Join([seat], " ") == seat;
    assert Join([id, seat], " ") == id + " " + seat;
    assert Join(parts, " ") == "BOOK_SEAT" + " " + (id + " " + seat);
    assert Join(parts, " ") == BookingRequest(flightId, seat);
    TokeniseJoin(parts);
  }

  /** The request line `GET_SEATS f` splits into the tokens `GET_SEATS` and `f`. */
  lemma SeatsRequestTokens(flightId: int)
    ensures Tokenise(SeatsRequest(flightId)) == ["GET_SEATS", FormatInt(flightId)]
  {
    var id := FormatInt(flightId);
    var word := "GET_SEATS";
    FormatIntAvoids(flightId, Separators);
    SplitWhole(id, Separators);
    assert forall i :: 0 <= i < |word| ==> word[i] !in Separators;
    SplitAtSeparator(word, ' ', id, Separators);
    assert SeatsRequest(flightId) == word + [' '] + id;
  }

  /** The booking request is routed to the booking handler. */
  lemma DispatchBookingRequest(db: Db, flightId: int, seat: string, fault: Fault)
    requires Avoids(seat, Separators)
    ensures Dispatch(db, BookingRequest(flightId, seat), fault) == BookSeat(db, ["BOOK_SEAT", FormatInt(flightId), seat], fault)
  {
    BookingRequestTokens(flightId, seat);
    DispatchRoutes(db, BookingRequest(flightId, seat), fault, BookSeatCommand);
  }

  /** For a 32-bit flight id the booking request books that seat of that flight. */
  lemma BookingRequestBooks(db: Db, flightId: int, seat: string, fault: Fault)
    requires IsInt32(flightId) && Avoids(seat, Separators)
    ensures Dispatch(db, BookingRequest(flightId, seat), fault) == Book(db, flightId, seat, fault)
  {
    DispatchBookingRequest(db, flightId, seat, fault);
    ParseFormatRoundTrip(flightId);
  }

  /**
   * Whatever the seat label, the booking line splits into `BOOK_SEAT`, the flight id,
   * and then the label's own words: a label with a space in it arrives as several tokens.
   */
  lemma BookingRequestTokensAnySeat(flightId: int, seat: string)
    ensures Tokenise(BookingRequest(flightId, seat)) == ["BOOK_SEAT", FormatInt(flightId)] + Tokenise(seat)
  {
    var id := FormatInt(flightId);
    var tail := id + [' '] + seat;
    FormatIntAvoids(flightId, Separators);
    SplitAtSeparator(id, ' ', seat, Separators);
    CommandWordThen("BOOK_SEAT", tail);
    assert BookingRequest(flightId, seat) == "BOOK_SEAT" + [' '] + tail;
  }

  /** The command word `BOOK_SEAT`, a space, then a text: the word is the first token. */
  lemma CommandWordThen(word: string, t: string)
    requires word == "BOOK_SEAT"
    ensures Tokenise(word + [' '] + t) == [word] + Tokenise(t)
  {
    assert forall i :: 0 <= i < |word| ==> word[i] !in Separators;
    SplitAtSeparator(word, ' ', t, Separators);
  }

  /**
   * For a 32-bit flight id the booking line books the first word of the label: the
   * server reads the seat number from the third token only.
   */
  lemma BookingRequestBooksFirstWord(db: Db, flightId: int, seat: string, fault: Fault)
    requires IsInt32(flightId)
    ensures Dispatch(db, BookingRequest(flightId, seat), fault) == Book(db, flightId, Tokenise(seat)[0], fault)
  {
    var request := BookingRequest(flightId, seat);
    BookingRequestTokensAnySeat(flightId, seat);
    assert Tokenise(request)[1] == FormatInt(flightId) && Tokenise(request)[2] == Tokenise(seat)[0];
    DispatchRoutes(db, request, fault, BookSeatCommand);
    ParseFormatRoundTrip(flightId);
  }

  /**
   * A flight whose free seats are `A` and `A B`: choosing `A B` in the window books
   * seat `A`, the window reports success, and `A B` is still free.
   */
  lemma SpacedLabelBooksFirstWord()
    ensures var db := Db([Flight(1, "X", "Y", Date(1, 1, 2025))], [Seat(1, "A", true), Seat(1, "A B", true)], map[], map[], 1);
      var after := Dispatch(db, BookingRequest(1, "A B"), Healthy);
      && after.reply == SeatBooked("A", 1)
      && BookingSucceeded(Render(after.reply))
      && "A B" in FreeLabels(after.db.seats, 1)
  {
    var db := Db([Flight(1, "X", "Y", Date(1, 1, 2025))], [Seat(1, "A", true), Seat(1, "A B", true)], map[], map[], 1);
    TwoWordLabel();
    BookingRequestBooksFirstWord(db, 1, "A B", Healthy);
    BookFirstOfTwo(db);
    SuccessTextStartsWithSuccess(SeatBooked("A", 1));
    FreeLabelsMembership([Seat(1, "A", false), Seat(1, "A B", true)], 1, "A B");
  }

  /** The label `A B` splits into the words `A` and `B`. */
  lemma TwoWordLabel()
    ensures Tokenise("A B") == ["A", "B"]
  {
    assert "A B" == "A" + [' '] + "B";
    SplitWhole("B", Separators);
    SplitAtSeparator("A", ' ', "B", Separators);
  }

  /** Booking the free seat `A` of an existing flight marks that row and no other. */
  lemma BookFirstOfTwo(db: Db)
    requires db.flights == [Flight(1, "X", "Y", Date(1, 1, 2025))]
    requires db.seats == [Seat(1, "A", true), Seat(1, "A B", true)]
    ensures Book(db, 1, "A", Healthy) == Outcome(db.(seats := [Seat(1, "A", false), Seat(1, "A B", true)]), SeatBooked("A", 1))
  {
    assert db.flights[0].id == 1;
    assert FindSeat(db.seats, 1, "A") == Some(0);
    assert BookKey(db.seats, 1, "A") == [Seat(1, "A", false), Seat(1, "A B", true)];
  }

  /** For a 32-bit flight id the seat query lists the free seats of that flight. */
  lemma DispatchSeatsRequest(db: Db, flightId: int, fault: Fault)
    requires IsInt32(flightId)
    ensures Dispatch(db, SeatsRequest(flightId), fault) == Outcome(db, FreeSeats(db, flightId, fault))
  {
    var request := SeatsRequest(flightId);
    var parts := Tokenise(request);
    SeatsRequestTokens(flightId);
    DispatchRoutes(db, request, fault, GetSeatsCommand);
    assert Handle(db, GetSeatsCommand, parts, fault) == Outcome(db, GetSeats(db, parts, fault));
    ParseFormatRoundTrip(flightId);
  }

  /**
   * The scenario of two requests in a row: once `BOOK_SEAT f s` has answered
   * `SUCCESS: Seat s booked for flight f`, a `GET_SEATS f` no longer lists `s`,
   * and the same `BOOK_SEAT f s` answers `ERROR: Seat is already booked` and changes nothing.
   */
  lemma BookThenListThenRebook(db: Db, flightId: int, seat: string, fault: Fault)
    requires Consistent(db) && IsInt32(flightId) && Avoids(seat, Separators)
    requires Dispatch(db, BookingRequest(flightId, seat), Healthy).reply == SeatBooked(seat, flightId)
    ensures var after := Dispatch(db, BookingRequest(flightId, seat), Healthy).db;
      && (Dispatch(after, SeatsRequest(flightId), fault).reply.SeatList? ==>
            seat !in Dispatch(after, SeatsRequest(flightId), fault).reply.seats)
      && Dispatch(after, BookingRequest(flightId, seat), Healthy) == Outcome(after, SeatAlreadyBooked)
      && Render(Dispatch(after, BookingRequest(flightId, seat), Healthy).reply) == "ERROR: Seat is already booked"
  {
    BookThenList(db, flightId, seat, fault);
    BookThenRebook(db, flightId, seat);
  }

  lemma BookThenList(db: Db, flightId: int, seat: string, fault: Fault)
    requires Consistent(db) && IsInt32(flightId) && Avoids(seat, Separators)
    requires Dispatch(db, BookingRequest(flightId, seat), Healthy).reply == SeatBooked(seat, flightId)
    ensures var after := Dispatch(db, BookingRequest(flightId, seat), Healthy).db;
      Dispatch(after, SeatsRequest(flightId), fault).reply.SeatList? ==>
        seat !in Dispatch(after, SeatsRequest(flightId), fault).reply.seats
  {
    BookingRequestBooks(db, flightId, seat, Healthy);
    var after := Book(db, flightId, seat, Healthy).db;
    BookedSeatLeavesFreeList(db, flightId, seat, fault);
    DispatchSeatsRequest(after, flightId, fault);
  }

  lemma BookThenRebook(db: Db, flightId: int, seat: string)
    requires Consistent(db) && IsInt32(flightId) && Avoids(seat, Separators)
    requires Dispatch(db, BookingRequest(flightId, seat), Healthy).reply == SeatBooked(seat, flightId)
    ensures var after := Dispatch(db, BookingRequest(flightId, seat), Healthy).db;
      && Dispatch(after, BookingRequest(flightId, seat), Healthy) == Outcome(after, SeatAlreadyBooked)
      && Render(Dispatch(after, BookingRequest(flightId, seat), Healthy).reply) == "ERROR: Seat is already booked"
  {
    BookingRequestBooks(db, flightId, seat, Healthy);
    var after := Book(db, flightId, seat, Healthy).db;
    RebookingRefused(db, flightId, seat);
    BookingRequestBooks(after, flightId, seat, Healthy);
  }

  /**
   * `WriteLine` adds a line terminator; the server's `Trim` takes it off again. An ASCII
   * seat number passes the window's ASCII encoder unchanged.
   */
  lemma BookingRequestSurvivesTransport(flightId: int, seat: string)
    requires seat != "" && IsTrimmed(seat)
    requires forall i :: 0 <= i < |seat| ==> IsAscii(seat[i])
    ensures Trim(BookingRequest(flightId, seat) + NewLine) == BookingRequest(flightId, seat)
    ensures Trim(SentText(BookingRequest(flightId, seat) + NewLine)) == BookingRequest(flightId, seat)
  {
    var request := BookingRequest(flightId, seat);
    assert request == ("BOOK_SEAT " + FormatInt(flightId) + " ") + seat;
    assert request[0] == 'B';
    assert request[|request| - 1] == seat[|seat| - 1];
    TrimLineTerminator(request);
    BookingRequestAscii(flightId, seat);
    SentAscii(request + NewLine);
  }

  lemma BookingRequestAscii(flightId: int, seat: string)
    requires forall i :: 0 <= i < |seat| ==> IsAscii(seat[i])
    ensures var line := BookingRequest(flightId, seat) + NewLine;
      forall i :: 0 <= i < |line| ==> IsAscii(line[i])
  {
    var id := FormatInt(flightId);
    FormatIntShape(flightId);
    var head := "BOOK_SEAT " + id + " ";
    assert forall i :: 0 <= i < |head| ==> IsAscii(head[i]) by {
      forall i | 0 <= i < |head| ensures IsAscii(head[i]) {
        if 10 <= i < 10 + |id| {
          assert head[i] == id[i - 10];
        }
      }
    }
    var line := BookingRequest(flightId, seat) + NewLine;
    assert line == head + seat + NewLine;
    forall i | 0 <= i < |line| ensures IsAscii(line[i]) {
      if i < |head| {
        assert line[i] == head[i];
      } else if i < |head| + |seat| {
        assert line[i] == seat[i - |head|];
      }
    }
  }

  /**
   * The window's verdict on the booking reply is `true` exactly when the server booked
   * a seat: its success string passes, every error reply fails. Any label is sent as
   * chosen, and the seat the server books is the label's first word, which is the whole
   * label unless it contains a space.
   */
  lemma BookingVerdictMatchesServer(db: Db, flightId: int, seat: string, fault: Fault)
    ensures var reply := Dispatch(db, BookingRequest(flightId, seat), fault).reply;
      BookingSucceeded(Render(reply)) <==> reply.SeatBooked?
    ensures var reply := Dispatch(db, BookingRequest(flightId, seat), fault).reply;
      BookingSucceeded(ReceivedLine(Render(reply))) <==> reply.SeatBooked?
    ensures var reply := Dispatch(db, BookingRequest(flightId, seat), fault).reply;
      reply.SeatBooked? ==> reply.seat == Tokenise(seat)[0]
  {
    var request := BookingRequest(flightId, seat);
    var parts := Tokenise(request);
    var reply := Dispatch(db, request, fault).reply;
    ReceivedVerdict(Render(reply));
    BookingRequestTokensAnySeat(flightId, seat);
    assert parts[2] == Tokenise(seat)[0];
    DispatchRoutes(db, request, fault, BookSeatCommand);
    BookSeatSucceedsOnlyByBooking(db, parts, fault);
    RenderedSuccessIsSuccess(BookSeat(db, parts, fault).reply);
  }

  /**
   * When the flight's free seat numbers are plain (non-empty, no comma, no surrounding
   * white space) and wire-safe (ASCII, no line break), the window offers exactly the
   * seats the store lists as free, in order, from the line it reads off the connection.
   */
  lemma SeatsReplyReadBack(db: Db, flightId: int)
    requires IsInt32(flightId)
    requires forall i :: 0 <= i < |db.seats| && db.seats[i].flightId == flightId && db.seats[i].free ==>
      IsPlainLabel(db.seats[i].number) && IsWireSafe(db.seats[i].number)
    requires FreeLabels(db.seats, flightId) != []
    ensures LoadSeats(Render(Dispatch(db, SeatsRequest(flightId), Healthy).reply))
      == SeatChoices(FreeLabels(db.seats, flightId))
    ensures LoadSeats(ReceivedLine(Render(Dispatch(db, SeatsRequest(flightId), Healthy).reply)))
      == SeatChoices(FreeLabels(db.seats, flightId))
  {
    var free := FreeLabels(db.seats, flightId);
    SeatsRequestListsFreeSeats(db, flightId);
    FreeLabelsArePlain(db.seats, flightId);
    SeatListRoundTrip(free);
    SeatListCrossesWire(free);
  }

  /** A healthy `GET_SEATS f` for a flight with free seats answers with the list of them. */
  lemma SeatsRequestListsFreeSeats(db: Db, flightId: int)
    requires IsInt32(flightId)
    requires FreeLabels(db.seats, flightId) != []
    ensures Dispatch(db, SeatsRequest(flightId), Healthy) == Outcome(db, SeatList(FreeLabels(db.seats, flightId)))
  {
    DispatchSeatsRequest(db, flightId, Healthy);
  }

  lemma FreeLabelsArePlain(seats: seq<Seat>, flightId: int)
    requires forall i :: 0 <= i < |seats| && seats[i].flightId == flightId && seats[i].free ==>
      IsPlainLabel(seats[i].number) && IsWireSafe(seats[i].number)
    ensures var free := FreeLabels(seats, flightId);
      forall k :: 0 <= k < |free| ==> IsPlainLabel(free[k]) && IsWireSafe(free[k])
  {
    var free := FreeLabels(seats, flightId);
    forall k | 0 <= k < |free| ensures IsPlainLabel(free[k]) && IsWireSafe(free[k]) {
      FreeLabelsMembership(seats, flightId, free[k]);
      var i :| 0 <= i < |seats| && seats[i] == Seat(flightId, free[k], true);
      assert seats[i].number == free[k];
    }
  }
}
