# Movie-theatre bookings and integer exercises, in Dafny

This project models two small pieces of the CS4300 coursework repository and
proves properties of them.

**The seat-booking API** (`bookings.dfy`, module `Bookings`). The state is a
seat table (seat id → seat number and `booking_status`, true meaning booked),
a booking ledger (booking id → user, movie and seat) and the movie table. The
class `Theater` holds those three maps. It also holds the next primary key
the ledger hands out.

- `Create` models `BookingViewSet.create`.
- `Cancel` models `BookingViewSet.cancel`.
- The read-only views are functions over the maps: the booking visibility
  of `get_queryset`, `my_bookings`, `by_movie`, the seat filter of
  `SeatViewSet.get_queryset`, the `available` and `booked` seat lists, and
  `MovieViewSet.available_seats`.

Each request runs as one atomic step. One consistency rule holds in every
state that `Create` and `Cancel` produce, as the class invariant `Valid()`:

- every booking names an existing seat;
- no seat has two bookings;
- a seat is flagged booked exactly when a booking references it.

Errors are values (`Result`, `Outcome`) naming the HTTP status the view
sends: `BadRequest` (400), `Forbidden` (403), `NotFound` (404) or
`ServerError` (500).

**The integer exercises** (`task3.dfy`, module `Task3`):

- `checkPosNeg` is the sign classifier.
- `printPrimes` is a trial-division loop. Its printed lines are modelled as
  the returned sequence.
- `sum1to100` is a summation loop.

`PrintPrimes` is proved against `FirstPrimes`, the first k numbers of a range
that pass trial division. Lemmas show that trial division up to the square
root decides primality. They also show that the output is prime, ascending
and complete, and that it is exactly the ten primes up to 29.

The ownership check in `cancel` can never fail. Its branch at
`homework2/bookings/views.py:159-163` answers 403 to a caller who is neither
the owner nor staff. But `cancel` finds the booking through `get_object()`,
which only searches `get_queryset()`, and a non-staff caller sees only their
own bookings there. So another user's booking is not found, and the caller
gets 404 instead of 403. `Theater.Cancel` keeps the 403 branch as written,
and its postcondition proves that outcome never happens.

## Model

| member | source | states |
|---|---|---|
| `Task3.CheckPosNeg` | homework1/src/task3.py:1-7 | "Positive" exactly when n > 0, "Negative" exactly when n < 0, "Value is zero" exactly when n == 0; so the three cases never overlap and cover every integer |
| `Task3.CheckPosNegExamples` | homework1/tests/test_task3.py:5-6 | 5 is classified "Positive" and -123213 "Negative" |
| `Task3.HasDivisorFromIff` | homework1/src/task3.py:14-17 | the inner loop from lo marks a number not prime exactly when some d ≥ lo with d·d ≤ n divides it |
| `Task3.TrialDivisionIsPrimality` | homework1/src/task3.py:13-18 | a number passes trial division up to its square root if and only if it is prime (no divisor strictly between 1 and itself) |
| `Task3.FirstPrimesExtend` | homework1/src/task3.py:12-20 | one more outer iteration appends the candidate exactly when it passes and fewer than k were printed, and otherwise prints nothing |
| `Task3.FirstPrimesFull` | homework1/src/task3.py:21-22 | once k numbers are printed, scanning further prints nothing more, which justifies the early break |
| `Task3.FirstPrimesSound` | homework1/src/task3.py:12-22 | at most k numbers are printed; each is prime and lies in the scanned range; they are strictly increasing |
| `Task3.FirstPrimesComplete` | homework1/src/task3.py:12-20 | no prime is skipped: a prime of the range is printed when fewer than k were printed or when it is at most the last one printed |
| `Task3.FirstTenPrimes` | homework1/tests/test_task3.py:7-9 | scanning 2..99 for ten primes prints exactly 2, 3, 5, 7, 11, 13, 17, 19, 23, 29 |
| `Task3.PrintPrimes` | homework1/src/task3.py:9-22 | the nested loops with both breaks print FirstPrimes(2, 100, 10), which is [2, 3, 5, 7, 11, 13, 17, 19, 23, 29]: at most ten numbers, all prime, in 2..99, strictly increasing, no prime up to the last one skipped |
| `Task3.SumToClosedForm` | homework1/src/task3.py:24-28 | 1 + … + n equals n·(n+1)/2 |
| `Task3.Sum1To100` | homework1/src/task3.py:24-28 | the loop keeps sum = (i−1)·i/2 before adding i and returns 1 + … + 100 = 5050 |
| `Bookings.Lower` | homework2/bookings/views.py:42 | the lower-cased parameter has the same length and lower-cases each character |
| `Bookings.TruthyExamples` | homework2/bookings/views.py:42 | "true", "TRUE", "Yes" and "1" ask for free seats; "false", "0", "no" and "y" do not |
| `Bookings.SeatsWithStatus` | homework2/bookings/views.py:43 | a seat is selected exactly when its booking_status equals the requested one, and it keeps its row |
| `Bookings.AvailableSeats` | homework2/bookings/views.py:47-55 | exactly the seats whose booking_status is false, unchanged |
| `Bookings.BookedSeats` | homework2/bookings/views.py:57-65 | exactly the seats whose booking_status is true, unchanged |
| `Bookings.SeatViewsPartition` | homework2/bookings/views.py:53-63 | the available and booked lists are disjoint and together make up the whole seat table |
| `Bookings.SeatQuery` | homework2/bookings/views.py:34-45 | an absent or empty `available` parameter lists all seats; "true", "1" or "yes" in any case lists the free seats; any other non-empty value lists the booked seats |
| `Bookings.MovieAvailableSeats` | homework2/bookings/views.py:20-28 | 404 exactly when the movie does not exist; otherwise the movie's title and the free seats |
| `Bookings.AvailableSeatsIgnoreMovie` | homework2/bookings/views.py:22-23 | the seats listed as available are the same for every existing movie |
| `Bookings.OwnedBy` | homework2/bookings/views.py:91 | a booking is selected exactly when its user is the given one, and it keeps its row |
| `Bookings.ForMovie` | homework2/bookings/views.py:190 | a booking is selected exactly when its movie is the given one, and it keeps its row |
| `Bookings.VisibleBookings` | homework2/bookings/views.py:83-91 | staff see the whole ledger; anyone else sees exactly the bookings whose user is themselves |
| `Bookings.MyBookings` | homework2/bookings/views.py:140-148 | exactly the caller's own bookings, for staff as well as for other users, and only bookings the caller can see |
| `Bookings.ByMovie` | homework2/bookings/views.py:176-192 | 400 exactly when movie_id is absent or empty; 500 exactly when it is not a number; otherwise exactly the visible bookings of that movie |
| `Bookings.VisibleOnlyToOwnerOrStaff` | homework2/bookings/views.py:156-163 | a booking that `cancel` can find belongs to the caller or the caller is staff, so the ownership check never fails |
| `Bookings.CreateKeepsConsistent` | homework2/bookings/views.py:116-133 | writing a booking for an unflagged seat together with flagging the seat keeps the consistency rule |
| `Bookings.CancelKeepsConsistent` | homework2/bookings/views.py:165-170 | deleting a booking together with unflagging its seat keeps the consistency rule |
| `Bookings.FreeSeatUnreferenced` | homework2/bookings/views.py:116-121 | under the rule, no booking references an unflagged seat |
| `Bookings.Theater.constructor` | homework2/bookings/tests.py:63-66 | new seats start with booking_status false; the ledger starts empty; the rule holds |
| `Bookings.Theater.Create` | homework2/bookings/views.py:101-138 | succeeds exactly when the movie and the seat exist and the seat is not booked. On failure it gives 400 and changes nothing. On success it adds exactly one booking under a fresh id, with the caller, movie and seat. It sets only that seat's booking_status to true. The rule is kept |
| `Bookings.Theater.Cancel` | homework2/bookings/views.py:150-174 | succeeds exactly when the booking is in the caller's visible set. Otherwise it gives 404 and changes nothing, never 403. On success it deletes exactly that booking and sets only its seat's booking_status to false. The rule is kept |
| `Bookings.BookTwice` | homework2/bookings/views.py:116-133 | after one user books a free seat, another user's booking of it fails with 400 and the state is the first booking alone |
| `Bookings.BookCancelRebook` | homework2/bookings/tests.py:209-231 | create, cancel, create on the same free seat succeed each time, and the seat ends booked with the second booking the only new row |

## Left out

- HTTP and framework plumbing is not modelled. This covers `Response` bodies and serialization, routing, the `index` view, and the `IsAuthenticated` permission (every caller is an authenticated `User`). The success codes 201 and 200 are not modelled; only the success tag is.
- Serializer validation is reduced to its effect: the movie and seat ids must exist, otherwise 400. `validate_seat` (homework2/bookings/serializers.py:37-41) repeats the booked-seat check that `Create` makes, with the same 400.
- The generic CRUD actions of `ModelViewSet` (list, retrieve, update, partial update, destroy on movies, seats and bookings) are not modelled. They can change `booking_status` or delete a booking without the paired write, and so can break the consistency rule.
- Concurrency is not modelled. The booked-seat check at homework2/bookings/views.py:117 runs before the transaction opens, so two concurrent requests could both pass it. Each request is one atomic step here, and transaction failures and rollback are not modelled.
- A booking's user, movie and seat are modelled as references to those rows, which is how homework2/bookings/views.py reads them (lines 125-129, 159, 167-168, 190). The model tests in homework2/bookings/tests.py:118-148 store raw values instead: the user name, the movie title and the seat id. Under that schema the comparison at views.py:159 would never match a `User`, and every non-staff owner would get 403. The proof that `cancel` never answers 403 holds only under the reference reading.
- Query sets are modelled as maps, so the order of listed rows is not modelled.
- `booking_date` is not modelled because it comes from the clock. The movie's description, release date and duration are not modelled because no view uses them.
- Seats that are created already flagged booked, or flagged outside `Create`, are not modelled. The constructor creates free seats only.
- Bookings.Lower: lower-cases ASCII letters only, where Python's `str.lower` covers all of Unicode. No non-ASCII character lower-cases to one of "true", "1", "yes", so this does not change which values count as truthy.
- Bookings.ByMovie: treats only non-empty strings of ASCII digits as numbers and maps every other non-empty value to 500. Python's `int()` also accepts a sign, surrounding whitespace, underscores between digits and non-ASCII digits.
- `printPrimes` writes to standard output; here it returns the printed numbers as a sequence. Its float bound `int(i**0.5)` is the integer condition j·j ≤ i, which is the same for every i below 100.
- homework1/src/task7.py and tasks 4 and 5 are not part of this model. Task 7 is a thin wrapper over an array library, the sources of tasks 4 and 5 are not available, and task 5 uses floating point.
- homework2/movie_theater_booking/bookings/models.py is not part of this model. It is an older schema without behaviour.
