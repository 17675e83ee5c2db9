/**
 * The database the server talks to, as values: the `planes` table (flights), the
 * `seats` table, `Users` and `UsersInfo`. The two tables the server lists keep
 * their row order, since replies list rows in the order the reader returns them.
 */
module Store {
  import opened Wrappers

  datatype Date = Date(day: nat, month: nat, year: nat)

  /** A row of `planes`; the `Flight` class of the server. */
  datatype Flight = Flight(id: int, origin: string, destination: string, date: Date)

  /** A row of `seats`: the seat `number` (its label, such as "12A") of flight `flightId` and its `isFree` flag. */
  datatype Seat = Seat(flightId: int, number: string, free: bool)

  /** A row of `Users`, keyed by its unique `Username`. */
  datatype Account = Account(id: int, password: string)

  /** A row of `UsersInfo`, keyed by `user_Id`; each column may hold SQL NULL. */
  datatype Profile = Profile(firstName: Option<string>, lastName: Option<string>, age: Option<int>)

  datatype Db = Db(
    flights: seq<Flight>,
    seats: seq<Seat>,
    users: map<string, Account>,
    profiles: map<int, Profile>,
    nextUserId: int  // the identity value the next inserted `Users` row receives
  )

  /**
   * How the store behaves during one request: it answers every query, or it raises
   * an exception carrying `message`, after a reader has delivered `rowsRead` rows.
   */
  datatype Fault = Healthy | Raises(message: string, rowsRead: nat)

  predicate HasKey(seat: Seat, flightId: int, number: string) {
    seat.flightId == flightId && seat.number == number
  }

  predicate SameKey(a: Seat, b: Seat) {
    HasKey(a, b.flightId, b.number)
  }

  /** Each (flight, number) pair names at most one row of `seats`. */
  predicate UniqueSeatKeys(seats: seq<Seat>) {
    forall i, j :: 0 <= i < j < |seats| ==> !SameKey(seats[i], seats[j])
  }

  /** The identity counter is above every id handed out, and ids are distinct. */
  predicate FreshUserIds(users: map<string, Account>, nextUserId: int) {
    && (forall u :: u in users ==> users[u].id < nextUserId)
    && (forall u, v :: u in users && v in users && u != v ==> users[u].id != users[v].id)
  }

  /** The constraints of the schema the model relies on. */
  predicate Consistent(db: Db) {
    UniqueSeatKeys(db.seats) && FreshUserIds(db.users, db.nextUserId)
  }

  /** `SELECT COUNT(*) FROM planes WHERE id = @plane_id` is positive. */
  predicate FlightExists(flights: seq<Flight>, flightId: int) {
    exists i :: 0 <= i < |flights| && flights[i].id == flightId
  }

  /** The first row of `seats` with the key (flightId, number), if any. */
  function FindSeat(seats: seq<Seat>, flightId: int, number: string): (r: Option<nat>)
    ensures r.Some? ==> r.value < |seats| && HasKey(seats[r.value], flightId, number)
    ensures r.Some? ==> forall i :: 0 <= i < r.value ==> !HasKey(seats[i], flightId, number)
    ensures r.None? ==> forall i :: 0 <= i < |seats| ==> !HasKey(seats[i], flightId, number)
  {
    if seats == [] then None
    else if HasKey(seats[0], flightId, number) then Some(0)
    else match FindSeat(seats[1..], flightId, number)
      case None => None
      case Some(i) => Some(i + 1)
  }

  /** `SELECT number FROM seats WHERE plane_id = @plane_id AND isFree = 1`, in row order. */
  function FreeLabels(seats: seq<Seat>, flightId: int): seq<string>
  {
    if seats == [] then []
    else
      var last := seats[|seats| - 1];
      FreeLabels(seats[..|seats| - 1], flightId) + (if last.flightId == flightId && last.free then [last.number] else [])
  }

  /** What a reader delivers before the store fails: all rows, or the first `rowsRead`. */
  function ReadRows<T>(rows: seq<T>, fault: Fault): (r: seq<T>)
    ensures |r| <= |rows| && r == rows[..|r|]
    ensures fault.Healthy? ==> r == rows
    ensures fault.Raises? ==> |r| == if fault.rowsRead < |rows| then fault.rowsRead else |rows|
  {
    match fault
    case Healthy => rows
    case Raises(_, n) => if n < |rows| then rows[..n] else rows
  }

  /**
   * `UPDATE seats SET isFree = 0 WHERE plane_id = @plane_id AND number = @seat_number`:
   * every row with the key is marked booked, every other row is left as it was.
   */
  function BookKey(seats: seq<Seat>, flightId: int, number: string): (r: seq<Seat>)
    ensures |r| == |seats|
    ensures forall i :: 0 <= i < |seats| ==>
      r[i] == if HasKey(seats[i], flightId, number) then seats[i].(free := false) else seats[i]
  {
    if seats == [] then []
    else
      var first := if HasKey(seats[0], flightId, number) then seats[0].(free := false) else seats[0];
      [first] + BookKey(seats[1..], flightId, number)
  }

  /** Row `i` marked booked: what `BookKey` does when row `i` is the only one with the key. */
  function BookRow(seats: seq<Seat>, i: nat): seq<Seat>
    requires i < |seats|
  {
    seats[i := seats[i].(free := false)]
  }

  /** When row `i` is the only row with the key, the `UPDATE` changes that row alone. */
  lemma BookKeyIsBookRow(seats: seq<Seat>, i: nat)
    requires i < |seats|
    requires forall j :: 0 <= j < |seats| && j != i ==> !SameKey(seats[j], seats[i])
    ensures BookKey(seats, seats[i].flightId, seats[i].number) == BookRow(seats, i)
  {
  }

  /** After the `UPDATE`, the seat number is not listed free for its flight, whether or not the key is unique. */
  lemma BookKeyClearsSeat(seats: seq<Seat>, flightId: int, number: string)
    ensures number !in FreeLabels(BookKey(seats, flightId, number), flightId)
  {
    FreeLabelsMembership(BookKey(seats, flightId, number), flightId, number);
  }

  // ---------------------------------------------------------------------------------
  // Lemmas about the free-seat listing
  // ---------------------------------------------------------------------------------

  /** A seat number is listed as free for a flight exactly when some row says that seat is free. */
  lemma {:induction false} FreeLabelsMembership(seats: seq<Seat>, flightId: int, number: string)
    ensures number in FreeLabels(seats, flightId)
      <==> exists i :: 0 <= i < |seats| && seats[i] == Seat(flightId, number, true)
  {
    if seats != [] {
      var n := |seats| - 1;
      FreeLabelsMembership(seats[..n], flightId, number);
      if number in FreeLabels(seats, flightId) && number !in FreeLabels(seats[..n], flightId) {
        assert seats[n] == Seat(flightId, number, true);
      }
      if exists i :: 0 <= i < |seats| && seats[i] == Seat(flightId, number, true) {
        var i :| 0 <= i < |seats| && seats[i] == Seat(flightId, number, true);
        if i < n {
          assert seats[..n][i] == seats[i];
        }
      }
    }
  }

  /** The free labels of a prefix of the table are a prefix of the free labels of the table. */
  lemma {:induction false} FreeLabelsPrefix(seats: seq<Seat>, k: nat, flightId: int)
    requires k <= |seats|
    ensures var p := FreeLabels(seats[..k], flightId);
      var q := FreeLabels(seats, flightId);
      |p| <= |q| && q[..|p|] == p
  {
    if k < |seats| {
      var n := |seats| - 1;
      FreeLabelsPrefix(seats[..n], k, flightId);
      assert seats[..n][..k] == seats[..k];
    } else {
      assert seats[..k] == seats;
    }
  }

  /** Booking a row of another flight leaves this flight's free labels as they were. */
  lemma {:induction false} FreeLabelsOtherFlight(seats: seq<Seat>, i: nat, flightId: int)
    requires i < |seats| && seats[i].flightId != flightId
    ensures FreeLabels(BookRow(seats, i), flightId) == FreeLabels(seats, flightId)
  {
    var n := |seats| - 1;
    var booked := BookRow(seats, i);
    if i < n {
      assert booked[..n] == BookRow(seats[..n], i);
      FreeLabelsOtherFlight(seats[..n], i, flightId);
    } else {
      assert booked[..n] == seats[..n];
    }
  }

  /** Booking a free row removes exactly one occurrence of its seat number from its flight's free labels. */
  lemma {:induction false} FreeLabelsAfterBooking(seats: seq<Seat>, i: nat)
    requires i < |seats| && seats[i].free
    ensures multiset(FreeLabels(BookRow(seats, i), seats[i].flightId)) + multiset{seats[i].number}
         == multiset(FreeLabels(seats, seats[i].flightId))
  {
    var n := |seats| - 1;
    var f := seats[i].flightId;
    if i < n {
      assert seats[..n][i] == seats[i];
      FreeLabelsAfterBooking(seats[..n], i);
      var before := FreeLabels(seats[..n], f);
      var after := FreeLabels(BookRow(seats[..n], i), f);
      var tail := FreeLabelsBookEarlier(seats, i);
      AppendKeepsRemoval(after, before, tail, seats[i].number);
    } else {
      FreeLabelsBookLast(seats);
    }
  }

  lemma AppendKeepsRemoval(after: seq<string>, before: seq<string>, tail: seq<string>, x: string)
    requires multiset(after) + multiset{x} == multiset(before)
    ensures multiset(after + tail) + multiset{x} == multiset(before + tail)
  {
    assert multiset(after + tail) == multiset(after) + multiset(tail);
    assert multiset(before + tail) == multiset(before) + multiset(tail);
  }

  /** Booking a row before the last: the last row contributes the same labels before and after. */
  lemma FreeLabelsBookEarlier(seats: seq<Seat>, i: nat) returns (tail: seq<string>)
    requires i < |seats| - 1
    ensures var n, f := |seats| - 1, seats[i].flightId;
      && FreeLabels(BookRow(seats, i), f) == FreeLabels(BookRow(seats[..n], i), f) + tail
      && FreeLabels(seats, f) == FreeLabels(seats[..n], f) + tail
  {
    var n, f := |seats| - 1, seats[i].flightId;
    var last := seats[n];
    tail := if last.flightId == f && last.free then [last.number] else [];
    var booked := BookRow(seats, i);
    assert booked[..n] == BookRow(seats[..n], i);
    assert booked[n] == last;
  }

  /** Booking the last row, when it is free, drops its number from the end of the list. */
  lemma FreeLabelsBookLast(seats: seq<Seat>)
    requires |seats| > 0 && seats[|seats| - 1].free
    ensures var n := |seats| - 1; var f := seats[n].flightId;
      && FreeLabels(BookRow(seats, n), f) == FreeLabels(seats[..n], f)
      && FreeLabels(seats, f) == FreeLabels(seats[..n], f) + [seats[n].number]
  {
    var n := |seats| - 1;
    assert BookRow(seats, n)[..n] == seats[..n];
  }

  /** With unique seat keys, a booked seat's number is no longer listed as free for its flight. */
  lemma BookedLabelNotFree(seats: seq<Seat>, i: nat)
    requires UniqueSeatKeys(seats)
    requires i < |seats|
    ensures seats[i].number !in FreeLabels(BookRow(seats, i), seats[i].flightId)
  {
    var booked := BookRow(seats, i);
    var f, s := seats[i].flightId, seats[i].number;
    forall j | 0 <= j < |booked| ensures booked[j] != Seat(f, s, true) {
      if j < i {
        assert !SameKey(seats[j], seats[i]);
      } else if j > i {
        assert !SameKey(seats[i], seats[j]);
      }
    }
    FreeLabelsMembership(booked, f, s);
  }
}
