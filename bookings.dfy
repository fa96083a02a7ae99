/** The seat-booking core of the movie-theatre API: a seat table (seat id to
    seat number and booking status), a booking ledger (booking id to user,
    movie and seat), the read-only views that select from them, and the two
    operations that change them, create and cancel. */
module Bookings {

  type SeatId = nat
  type BookingId = nat
  type MovieId = nat
  type UserId = nat

  datatype Option<T> = None | Some(value: T)

  /** The authenticated caller of a request. */
  datatype User = User(id: UserId, isStaff: bool)

  /** A movie; only the title is used by the views. */
  datatype Movie = Movie(title: string)

  /** A seat row: its label and the booking flag (true means booked). */
  datatype Seat = Seat(number: string, booked: bool)

  /** A booking row: who booked which seat for which movie. */
  datatype Booking = Booking(user: UserId, movie: MovieId, seat: SeatId)

  /** The error responses the views produce: BadRequest is sent as 400,
      Forbidden as 403, NotFound as 404 and ServerError as 500. */
  datatype Error = BadRequest | Forbidden | NotFound | ServerError

  datatype Result<T> = Success(value: T) | Failure(error: Error)

  datatype Outcome = Pass | Fail(error: Error)

  // ---------------------------------------------------------------------
  // Query-parameter parsing
  // ---------------------------------------------------------------------

  /** ASCII lower-casing of one character; other characters are unchanged. */
  function LowerChar(c: char): char
  {
    if 'A' <= c <= 'Z' then (c as int + 32) as char else c
  }

  /** str.lower(), restricted to ASCII letters. */
  function Lower(s: string): (r: string)
    ensures |r| == |s|
    ensures forall i :: 0 <= i < |s| ==> r[i] == LowerChar(s[i])
  {
    if |s| == 0 then [] else [LowerChar(s[0])] + Lower(s[1..])
  }

  /** The values of the available parameter that ask for free seats:
      "true", "1" or "yes" in any letter case. */
  predicate IsTruthy(s: string)
  {
    Lower(s) in ["true", "1", "yes"]
  }

  lemma TruthyExamples()
    ensures IsTruthy("true") && IsTruthy("TRUE") && IsTruthy("Yes") && IsTruthy("1")
    ensures !IsTruthy("false") && !IsTruthy("0") && !IsTruthy("no") && !IsTruthy("y")
  {
    assert Lower("TRUE") == "true";
    assert Lower("Yes") == "yes";
    assert Lower("1") == "1";
  }

  predicate IsDigits(s: string)
  {
    forall i :: 0 <= i < |s| ==> '0' <= s[i] <= '9'
  }

  /** The number a string of decimal digits denotes. */
  function DecimalValue(s: string): nat
    requires IsDigits(s)
  {
    if |s| == 0 then 0
    else 10 * DecimalValue(s[..|s| - 1]) + (s[|s| - 1] as int - '0' as int)
  }

  // ---------------------------------------------------------------------
  // Seat selections
  // ---------------------------------------------------------------------

  /** Seat.objects.filter(booking_status=status). */
  function SeatsWithStatus(seats: map<SeatId, Seat>, status: bool): (r: map<SeatId, Seat>)
    ensures forall s :: s in r <==> s in seats && seats[s].booked == status
    ensures forall s :: s in r ==> r[s] == seats[s]
  {
    map s | s in seats && seats[s].booked == status :: seats[s]
  }

  /** SeatViewSet.available: the seats not booked. */
  function AvailableSeats(seats: map<SeatId, Seat>): (r: map<SeatId, Seat>)
    ensures forall s :: s in r <==> s in seats && !seats[s].booked
    ensures forall s :: s in r ==> r[s] == seats[s]
  {
    SeatsWithStatus(seats, false)
  }

  /** SeatViewSet.booked: the seats booked. */
  function BookedSeats(seats: map<SeatId, Seat>): (r: map<SeatId, Seat>)
    ensures forall s :: s in r <==> s in seats && seats[s].booked
    ensures forall s :: s in r ==> r[s] == seats[s]
  {
    SeatsWithStatus(seats, true)
  }

  /** The available and booked views split the seat table in two. */
  lemma SeatViewsPartition(seats: map<SeatId, Seat>)
    ensures AvailableSeats(seats).Keys !! BookedSeats(seats).Keys
    ensures AvailableSeats(seats).Keys + BookedSeats(seats).Keys == seats.Keys
    ensures AvailableSeats(seats) + BookedSeats(seats) == seats
  {
  }

  /** SeatViewSet.get_queryset: an absent or empty available parameter lists
      every seat; a truthy one lists the free seats; any other lists the
      booked ones. */
  function SeatQuery(seats: map<SeatId, Seat>, available: Option<string>): (r: map<SeatId, Seat>)
    ensures available == None || available == Some("") ==> r == seats
    ensures available.Some? && available.value != "" && IsTruthy(available.value) ==>
      r == AvailableSeats(seats)
    ensures available.Some? && available.value != "" && !IsTruthy(available.value) ==>
      r == BookedSeats(seats)
  {
    match available
    case None => seats
    case Some(s) => if s == "" then seats else SeatsWithStatus(seats, !IsTruthy(s))
  }

  /** MovieViewSet.available_seats: the movie's title and the free seats, or
      404 when the movie does not exist. */
  function MovieAvailableSeats(movies: map<MovieId, Movie>, seats: map<SeatId, Seat>, movie: MovieId)
    : (r: Result<(string, map<SeatId, Seat>)>)
    ensures r.Success? <==> movie in movies
    ensures r.Failure? ==> r.error == NotFound
    ensures r.Success? ==> r.value.0 == movies[movie].title && r.value.1 == AvailableSeats(seats)
  {
    if movie in movies then Success((movies[movie].title, SeatsWithStatus(seats, false)))
    else Failure(NotFound)
  }

  /** The seats listed for a movie do not depend on the movie: seat status is
      global, not per showing. */
  lemma AvailableSeatsIgnoreMovie(movies: map<MovieId, Movie>, seats: map<SeatId, Seat>, m1: MovieId, m2: MovieId)
    requires m1 in movies && m2 in movies
    ensures MovieAvailableSeats(movies, seats, m1).value.1 == MovieAvailableSeats(movies, seats, m2).value.1
  {
  }

  // ---------------------------------------------------------------------
  // Booking selections
  // ---------------------------------------------------------------------

  /** Booking.objects.filter(user=user). */
  function OwnedBy(bookings: map<BookingId, Booking>, user: UserId): (r: map<BookingId, Booking>)
    ensures forall id :: id in r <==> id in bookings && bookings[id].user == user
    ensures forall id :: id in r ==> r[id] == bookings[id]
  {
    map id | id in bookings && bookings[id].user == user :: bookings[id]
  }

  /** queryset.filter(movie_id=movie); the same selection as OwnedBy, on the
      movie column instead of the user column. */
  function ForMovie(bookings: map<BookingId, Booking>, movie: MovieId): (r: map<BookingId, Booking>)
    ensures forall id :: id in r <==> id in bookings && bookings[id].movie == movie
    ensures forall id :: id in r ==> r[id] == bookings[id]
  {
    map id | id in bookings && bookings[id].movie == movie :: bookings[id]
  }

  /** BookingViewSet.get_queryset: staff see every booking, anyone else only
      their own. */
  function VisibleBookings(bookings: map<BookingId, Booking>, user: User): (r: map<BookingId, Booking>)
    ensures user.isStaff ==> r == bookings
    ensures forall id :: id in r <==> id in bookings && (user.isStaff || bookings[id].user == user.id)
    ensures forall id :: id in r ==> r[id] == bookings[id]
  {
    if user.isStaff then bookings else OwnedBy(bookings, user.id)
  }

  /** BookingViewSet.my_bookings: the caller's own bookings, whether or not the
      caller is staff. */
  function MyBookings(bookings: map<BookingId, Booking>, user: User): (r: map<BookingId, Booking>)
    ensures r == OwnedBy(bookings, user.id)
    ensures r.Keys <= VisibleBookings(bookings, user).Keys
  {
    OwnedBy(VisibleBookings(bookings, user), user.id)
  }

  /** BookingViewSet.by_movie: 400 without a movie_id; 500 when it is not a
      number (the conversion error is not caught); otherwise the visible
      bookings of that movie. */
  function ByMovie(bookings: map<BookingId, Booking>, user: User, movieId: Option<string>)
    : (r: Result<map<BookingId, Booking>>)
    ensures r == Failure(BadRequest) <==> movieId == None || movieId == Some("")
    ensures r == Failure(ServerError) <==> movieId.Some? && movieId.value != "" && !IsDigits(movieId.value)
    ensures r.Success? <==> movieId.Some? && movieId.value != "" && IsDigits(movieId.value)
    ensures r.Success? ==> forall id :: id in r.value <==>
      && id in bookings
      && (user.isStaff || bookings[id].user == user.id)
      && bookings[id].movie == DecimalValue(movieId.value)
    ensures r.Success? ==> forall id :: id in r.value ==> r.value[id] == bookings[id]
  {
    match movieId
    case None => Failure(BadRequest)
    case Some(s) =>
      if s == "" then Failure(BadRequest)
      else if !IsDigits(s) then Failure(ServerError)
      else Success(ForMovie(VisibleBookings(bookings, user), DecimalValue(s)))
  }

  /** Only the booking's owner or a staff member can see it, so the ownership
      check in cancel never fails for a booking that was found. */
  lemma VisibleOnlyToOwnerOrStaff(bookings: map<BookingId, Booking>, user: User, id: BookingId)
    requires id in VisibleBookings(bookings, user)
    ensures bookings[id].user == user.id || user.isStaff
  {
  }

  // ---------------------------------------------------------------------
  // The consistency rule between the seat table and the ledger
  // ---------------------------------------------------------------------

  ghost predicate Referenced(bookings: map<BookingId, Booking>, s: SeatId)
  {
    exists id :: id in bookings && bookings[id].seat == s
  }

  /** Every booking names an existing seat, no seat has two bookings, and a
      seat is flagged booked exactly when some booking references it. */
  ghost predicate Consistent(seats: map<SeatId, Seat>, bookings: map<BookingId, Booking>)
  {
    && (forall id :: id in bookings ==> bookings[id].seat in seats)
    && (forall i, j :: i in bookings && j in bookings && bookings[i].seat == bookings[j].seat ==> i == j)
    && (forall s :: s in seats ==> (seats[s].booked <==> Referenced(bookings, s)))
  }

  /** Writing a booking for a free seat and flagging the seat, together, keeps
      the rule. */
  lemma CreateKeepsConsistent(seats: map<SeatId, Seat>, bookings: map<BookingId, Booking>, id: BookingId, b: Booking)
    requires Consistent(seats, bookings)
    requires b.seat in seats && !seats[b.seat].booked && id !in bookings
    ensures Consistent(seats[b.seat := seats[b.seat].(booked := true)], bookings[id := b])
  {
    var seats' := seats[b.seat := seats[b.seat].(booked := true)];
    var bookings' := bookings[id := b];
    forall i | i in bookings
      ensures bookings[i].seat != b.seat
    {
      FreeSeatUnreferenced(seats, bookings, b.seat, i);
    }
    forall s | s in seats'
      ensures seats'[s].booked <==> Referenced(bookings', s)
    {
      if s == b.seat {
        assert bookings'[id].seat == s;
      } else {
        if Referenced(bookings', s) {
          var i :| i in bookings' && bookings'[i].seat == s;
          assert i in bookings && bookings[i].seat == s;
        }
        if seats[s].booked {
          var i :| i in bookings && bookings[i].seat == s;
          assert bookings'[i].seat == s;
        }
      }
    }
  }

  /** Deleting a booking and freeing its seat, together, keeps the rule. */
  lemma CancelKeepsConsistent(seats: map<SeatId, Seat>, bookings: map<BookingId, Booking>, id: BookingId)
    requires Consistent(seats, bookings) && id in bookings
    ensures var s := bookings[id].seat;
      Consistent(seats[s := seats[s].(booked := false)], bookings - {id})
  {
    var seat := bookings[id].seat;
    var seats' := seats[seat := seats[seat].(booked := false)];
    var bookings' := bookings - {id};
    forall s | s in seats'
      ensures seats'[s].booked <==> Referenced(bookings', s)
    {
      if Referenced(bookings', s) {
        var i :| i in bookings' && bookings'[i].seat == s;
        assert i in bookings && bookings[i].seat == s;
      }
      if s != seat && seats[s].booked {
        var i :| i in bookings && bookings[i].seat == s;
        assert bookings'[i].seat == s;
      }
    }
  }

  /** A seat that is not flagged has no booking: a booking made for it is the
      only one for that seat. */
  lemma FreeSeatUnreferenced(seats: map<SeatId, Seat>, bookings: map<BookingId, Booking>, s: SeatId, id: BookingId)
    requires Consistent(seats, bookings) && s in seats && !seats[s].booked
    ensures id in bookings ==> bookings[id].seat != s
  {
  }

  // ---------------------------------------------------------------------
  // The stored state and the two operations that change it
  // ---------------------------------------------------------------------

  /** The theatre database: movies, the seat table and the booking ledger;
      nextId is the next primary key the ledger hands out. */
  class Theater {
    var movies: map<MovieId, Movie>
    var seats: map<SeatId, Seat>
    var bookings: map<BookingId, Booking>
    var nextId: BookingId

    ghost predicate Valid()
      reads this
    {
      Consistent(seats, bookings) && forall id :: id in bookings ==> id < nextId
    }

    /** A theatre with the given movies and seats, every seat free and no
        bookings. */
    constructor (movies: map<MovieId, Movie>, seatNumbers: map<SeatId, string>)
      ensures Valid()
      ensures this.movies == movies && bookings == map[]
      ensures seats == map s | s in seatNumbers :: Seat(seatNumbers[s], false)
    {
      this.movies := movies;
      seats := map s | s in seatNumbers :: Seat(seatNumbers[s], false);
      bookings := map[];
      nextId := 1;
    }

    /** BookingViewSet.create: 400 when the movie or seat does not exist or
        the seat is already booked, with nothing changed; otherwise one new
        booking for the caller and the seat flagged booked, in one step. */
    method Create(user: User, movie: MovieId, seat: SeatId) returns (r: Result<BookingId>)
      requires Valid()
      modifies this
      ensures Valid() && movies == old(movies)
      ensures r.Success? <==> movie in movies && seat in old(seats) && !old(seats)[seat].booked
      ensures r.Failure? ==> r.error == BadRequest && seats == old(seats) && bookings == old(bookings)
      ensures r.Success? ==>
        && r.value !in old(bookings)
        && bookings == old(bookings)[r.value := Booking(user.id, movie, seat)]
        && seats == old(seats)[seat := old(seats)[seat].(booked := true)]
    {
      // Serializer validation: both primary keys must name existing rows.
      if movie !in movies || seat !in seats {
        return Failure(BadRequest);
      }
      if seats[seat].booked {
        return Failure(BadRequest);
      }
      var id := nextId;
      var b := Booking(user.id, movie, seat);
      CreateKeepsConsistent(seats, bookings, id, b);
      bookings := bookings[id := b];
      seats := seats[seat := seats[seat].(booked := true)];
      nextId := nextId + 1;
      r := Success(id);
    }

    /** BookingViewSet.cancel: the booking is looked up among those the caller
        may see (404 otherwise, nothing changed); then the seat is freed and
        the booking deleted, in one step. */
    method Cancel(user: User, id: BookingId) returns (r: Outcome)
      requires Valid()
      modifies this
      ensures Valid() && movies == old(movies)
      ensures r.Pass? <==> id in VisibleBookings(old(bookings), user)
      ensures r.Fail? ==> r.error == NotFound && seats == old(seats) && bookings == old(bookings)
      ensures r.Pass? ==>
        var s := old(bookings)[id].seat;
        && s in old(seats)
        && bookings == old(bookings) - {id}
        && seats == old(seats)[s := old(seats)[s].(booked := false)]
    {
      var visible := VisibleBookings(bookings, user);
      if id !in visible {
        return Fail(NotFound);
      }
      var b := visible[id];
      if b.user != user.id && !user.isStaff {
        return Fail(Forbidden);
      }
      CancelKeepsConsistent(seats, bookings, id);
      seats := seats[b.seat := seats[b.seat].(booked := false)];
      bookings := bookings - {id};
      r := Pass;
    }
  }

  // ---------------------------------------------------------------------
  // Booking flows
  // ---------------------------------------------------------------------

  /** A free seat booked by one user cannot then be booked by another; the
      second attempt is refused with 400 and changes nothing. */
  method BookTwice(t: Theater, u1: User, u2: User, movie: MovieId, seat: SeatId)
    returns (first: Result<BookingId>, second: Result<BookingId>)
    requires t.Valid() && movie in t.movies && seat in t.seats && !t.seats[seat].booked
    modifies t
    ensures t.Valid()
    ensures first.Success? && second == Failure(BadRequest)
    ensures t.bookings == old(t.bookings)[first.value := Booking(u1.id, movie, seat)]
    ensures t.seats == old(t.seats)[seat := old(t.seats)[seat].(booked := true)]
  {
    first := t.Create(u1, movie, seat);
    second := t.Create(u2, movie, seat);
  }

  /** Booking, cancelling and booking the same seat again succeeds each time,
      and the seat ends booked by the second booking alone. */
  method BookCancelRebook(t: Theater, user: User, movie: MovieId, seat: SeatId)
    returns (first: Result<BookingId>, cancelled: Outcome, second: Result<BookingId>)
    requires t.Valid() && movie in t.movies && seat in t.seats && !t.seats[seat].booked
    modifies t
    ensures t.Valid()
    ensures first.Success? && cancelled.Pass? && second.Success?
    ensures t.bookings == old(t.bookings)[second.value := Booking(user.id, movie, seat)]
    ensures t.seats == old(t.seats)[seat := old(t.seats)[seat].(booked := true)]
  {
    first := t.Create(user, movie, seat);
    cancelled := t.Cancel(user, first.value);
    second := t.Create(user, movie, seat);
  }
}
