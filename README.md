# Booking engine of a bed-and-breakfast site, in Dafny

This project models the availability and booking engine of a small Go
booking web site. Each database table (rooms, restrictions, reservations,
users) is kept in memory as a sequence of rows with a serial id counter.
A *restriction* blocks one room for the half-open range of nights
`[start_date, end_date)`. It is either tied to the reservation that made it
or is a manual block whose `reservation_id` is NULL.

- **Store writes** are methods on table classes. These are
  `Rooms.RoomTable`, `Restrictions.RestrictionTable`,
  `Reservations.ReservationTable` and `Users.UserTable`.
  Each states the new table contents and keeps the primary-key invariant
  `Valid()`: ids strictly increase and stay below the next serial value.
- **Store reads** are pure functions over table snapshots. Every SQL
  `WHERE` clause is a named predicate, and `ORDER BY` is a sort proved to
  give a sorted permutation. A failed query is a `fault` parameter.
- **The handlers** form a sequential state machine over a visitor's
  `Session` and the tables:
  - search (`PostAvailability`);
  - choose (`ChooseRoom` or `BookRoom`);
  - show the form (`ReservationPage`);
  - commit (`PostReservation`);
  - summary (`ReservationSummary`).

  `AvailabilityJSON` is a pure function from the form and the restrictions
  to the JSON answer.
- **Date and integer handling.** Dates are day numbers, and day 0 is Go's
  zero `time.Time`. `strconv.Atoi` is modelled as Go's `ParseInt` in base
  10 for a 64-bit int. It scans left to right, so an overflow that comes
  before a non-digit gives the clamped value with a range error.
  `strconv.Itoa` writes the decimal form.
- **Outside behaviour is passed in as parameters:**
  - date parsing;
  - the email-format check;
  - bcrypt hashing and comparison;
  - the mailer's outcome;
  - the ids the driver reports.

The central results:

- `IsAvailable` is the strict half-open overlap test:
  - back-to-back stays never block each other;
  - other rooms never matter;
  - a failed query never answers "free".
- `GetAnyAvailable` offers exactly the rooms that `IsAvailable` calls free.
- `GetForRoom` uses a non-strict bound. It therefore also reports a
  restriction that starts on the day of departure.
- The stores keep their quirks as written:
  - `Restriction.Create` reports success even when the insert fails;
  - `User.Update` has no `WHERE` clause and rewrites every user;
  - `User.Insert` stores the *receiver's* lower-cased email;
  - `User.SelectAll` never checks `rows.Err()`, so a listing cut short
    reports success with fewer users than `User.Count`.
- The commit inserts the reservation and then its restriction. There is
  no transaction and no second look at availability.
  `BookingRace.TwoGuestsBookTheSameNights` shows the consequence: two
  visitors who both search before either commits end with two
  overlapping restrictions for one room. `Rooms.NoDoubleBooking` is
  therefore not an invariant of the workflow.
  `Rooms.CheckedInsertKeepsNoDoubleBooking` shows that a re-check at
  commit would have kept it.

Modules:

| module | file |
|---|---|
| `Common` | `common.dfy` |
| `Text` | `text.dfy` |
| `Sorting` | `sorting.dfy` |
| `Forms` | `forms.dfy` |
| `Restrictions` | `restriction.dfy` |
| `Rooms` | `room.dfy` |
| `Reservations` | `reservation.dfy` |
| `Users` | `user.dfy` |
| `Handlers` | `handlers.dfy` |
| `BookingRace` | `booking_race.dfy` |

## Model

| member | source | states |
|---|---|---|
| Rooms.RoomTable.Create | data/room.go:22-38 | stores the room under a fresh id with its name lower-cased and returns that id; a failed insert returns 0 and the error and stores nothing |
| Rooms.ByNameIsTotalPreorder | data/room.go:47 | ordering rooms by name compares every two rooms, transitively |
| Rooms.GetAll | data/room.go:41-71 | every room exactly as often as stored, sorted by name; a failed query returns nothing and the error; reading cut off after k rows returns the first k of that listing with the error |
| Rooms.GetById | data/room.go:74-95 | the stored room with that id, or the zero room with NoRows when there is none, or with the query error |
| Rooms.GetByIdFindsTheRow | data/room.go:80-94 | with unique ids the lookup returns exactly the stored row |
| Rooms.IsAvailable | data/room.go:126-151 | true exactly when no restriction of the room satisfies start < end_date and end > start_date; a failed query answers (false, error) |
| Rooms.AdjacentDoesNotBlock | data/room.go:139 | a restriction ending on the arrival day or starting on the departure day does not change the answer |
| Rooms.OtherRoomDoesNotBlock | data/room.go:138 | restrictions of other rooms do not change the answer |
| Rooms.OverlapBlocks | data/room.go:138-150 | an overlapping restriction of the room makes it unavailable |
| Rooms.WindowIncludesDepartureDay | data/restriction.go:60 | a restriction starting on the departure day is selected by GetForRoom yet does not overlap under IsAvailable's test |
| Rooms.GetAnyAvailable | data/room.go:154-197 | the rooms that have no restriction overlapping [start, end), each at most as often as it is stored; a failed query returns nothing and the error |
| Rooms.GetAnyAvailableMatchesIsAvailable | data/room.go:161-172 | a room is offered exactly when IsAvailable says it is free for the same nights |
| Rooms.NoRestrictionsAllAvailable | data/room.go:161-172 | with no restrictions every room is offered, each exactly as often as stored (and, in the model, in table order) |
| Rooms.CheckedInsertKeepsNoDoubleBooking | data/room.go:126-151 | inserting a restriction that IsAvailable accepted keeps the rule that no two restrictions of one room overlap |
| Rooms.UncheckedInsertDoubleBooks | data/restriction.go:29-48 | inserting a restriction that IsAvailable would refuse breaks that rule |
| Restrictions.RestrictionTable.Create | data/restriction.go:29-48 | appends exactly one row with the given dates, room and reservation under a fresh id and changes no other row; reports success even when the insert fails, storing nothing then |
| Restrictions.RestrictionTable.Delete | data/restriction.go:89-101 | the table loses exactly the rows with that id; a failed statement reports its error and changes nothing |
| Restrictions.DeleteRemovesOnlyThatRow | data/restriction.go:93 | after a delete the remaining rows are exactly the rows whose id differs, and at most one row went |
| Restrictions.RemovesAtMostOne | data/restriction.go:93 | with unique ids a delete removes at most one row, and none when the id is absent |
| Restrictions.GetForRoom | data/restriction.go:51-87 | the rows of the room with start < end_date and end >= start_date, in table order; a failed query, or a selected row whose reservation_id is NULL, gives an empty list and the error |
| Reservations.Validate | data/reservation.go:29-35 | every reported error is a blank required guest field, a name shorter than 3 bytes, or a malformed email |
| Reservations.ValidateAcceptsExactly | data/reservation.go:29-35 | the form passes exactly when the four guest fields are non-empty, both names are at least 3 bytes long and the email is well-formed |
| Reservations.ValidateReportsBlankFields | data/reservation.go:30 | a field is reported blank exactly when it is one of the four required fields and is empty |
| Reservations.ReservationTable.Create | data/reservation.go:37-63 | appends one row under a fresh id, with names and email lower-cased, phone, dates and room id as given and processed 0, and returns the id; a failed insert returns 0 and the error and stores nothing |
| Reservations.ReservationTable.Update | data/reservation.go:203-225 | the row with the matching id takes the given names, email and phone as given; its dates, room and processed flag and all other rows stay |
| Reservations.ReservationTable.UpdateProcessedStatus | data/reservation.go:227-240 | only the row with the matching id changes, and only its processed flag |
| Reservations.ReservationTable.Delete | data/reservation.go:242-254 | the reservations table loses exactly the rows with that id; no other table is touched |
| Reservations.ByStartIsTotalPreorder | data/reservation.go:76 | ordering by start date compares every two reservations, transitively |
| Reservations.Join | data/reservation.go:73-100 | the left join finds a room exactly when one has the reservation's room id; the joined row is the reservation unchanged except that its room carries the name of a room with that id |
| Reservations.ScanAll | data/reservation.go:85-112 | the scan returns at most the rows it was given, and its only possible error is a failed scan |
| Reservations.ScanAllJoins | data/reservation.go:85-107 | each returned row is the join of the row scanned at its position |
| Reservations.ScanAllStops | data/reservation.go:85-107 | the scan reads every row, or stops at the first row whose room is missing and returns the rows before it |
| Reservations.ScanAllFailsIffRoomMissing | data/reservation.go:99-105 | the scan fails exactly when some scanned reservation has no room |
| Reservations.ScanAllCoversRows | data/reservation.go:85-112 | when every room exists the scan succeeds, returns as many rows as it read, each row's join and nothing else |
| Reservations.ScanAllKeepsOrder | data/reservation.go:76 | the joined rows keep the start-date order of the query |
| Reservations.GetAll | data/reservation.go:65-83 | a failed query returns nothing and the error |
| Reservations.GetAllReturnsEveryReservation | data/reservation.go:71-77 | when every room exists, every reservation is returned once, joined with its room, in ascending start date, and nothing else |
| Reservations.GetAllIsAPermutation | data/reservation.go:65-112 | when every room exists, the result without its joined rooms is a permutation of the stored rows |
| Reservations.GetAllStopsAtMissingRoom | data/reservation.go:99-105 | a reservation whose room is missing makes the call fail with a scan error and return fewer rows |
| Reservations.GetOnlyNew | data/reservation.go:152-171 | a failed query returns nothing and the error |
| Reservations.GetOnlyNewReturnsExactlyTheNewOnes | data/reservation.go:158-165 | when every room exists, exactly the reservations with processed = 0 are returned, as many as there are, joined, in ascending start date |
| Reservations.GetOnlyNewIsAPermutation | data/reservation.go:152-200 | when every room exists, the result without its joined rooms is a permutation of the rows with processed = 0 |
| Reservations.GetByID | data/reservation.go:115-150 | the reservation with that id, NoRows exactly when there is none, or the query error; a scan failure carries the requested id and the zero room, and no stored room has its room id |
| Reservations.GetByIDFindsTheRow | data/reservation.go:120-126 | with unique ids and the room present, the stored row is returned with its room |
| Users.Validate | data/user.go:28-35 | a user passes exactly when first name, last name, password and email are non-empty and the email is well-formed |
| Users.ValidateReportsEachFailure | data/user.go:29-33 | each empty required field is reported, only when empty, and a malformed email exactly when the format check rejects it |
| Users.NewRow | data/user.go:43-62 | the inserted row holds the argument's names and access level, the password hash, and the receiver's email lower-cased |
| Users.NewRowIgnoresArgumentEmail | data/user.go:49 | the argument's own email never reaches the table |
| Users.InsertThroughModelsStoresEmptyEmail | data/user.go:49 | through the application's zero receiver the stored email is empty |
| Users.UserTable.Insert | data/user.go:37-73 | a failed hash or insert stores nothing and returns 0 with the error; otherwise appends the row under a fresh id and returns the driver's id, or 0 and the error when the driver cannot report it |
| Users.UserTable.InsertAndReturnId | data/user.go:74-106 | as Insert, with the id read from the single-row result, or 0 and NoRows when there is no row |
| Users.OverwriteAll | data/user.go:202-211 | every row takes the given names, email and access level; ids and hashes stay |
| Users.UserTable.Update | data/user.go:198-217 | the whole table is rewritten by OverwriteAll; a failed statement changes nothing |
| Users.SetPassword | data/user.go:251-252 | the row with the matching id takes the new hash; every other row stays |
| Users.UserTable.UpdatePassword | data/user.go:245-258 | the table becomes SetPassword of itself; a failed statement changes nothing |
| Users.SetPasswordChangesOnlyThatRow | data/user.go:251 | only the password of the matching row changes |
| Users.ByLastFirstIsTotalPreorder | data/user.go:113 | ordering by last name then first name compares every two users, transitively |
| Users.SelectAll | data/user.go:108-135 | every user exactly as often as stored, sorted by last name then first name; a failed query returns nothing and the error; reading cut off after k rows returns the first k of that listing with no error |
| Users.Count | data/user.go:136-143 | the count is the number of users SelectAll lists when it reads every row; a failed query gives 0 and the error |
| Users.CutSelectAllUndercounts | data/user.go:117-134 | a SelectAll cut off before the last row reports no error yet lists fewer users than Count |
| Users.GetByID | data/user.go:145-169 | the user with that id, or the zero user with NoRows when there is none, or with the query error |
| Users.GetByIDFindsTheRow | data/user.go:149-152 | with unique ids the lookup returns exactly the stored row |
| Users.GetByEmail | data/user.go:170-196 | a stored user whose email equals the given email lower-cased, found exactly when one exists; otherwise the zero user with NoRows, or with the query error |
| Users.GetByEmailIgnoresCase | data/user.go:174 | the lookup does not depend on the letter case of the given email |
| Users.Authenticate | data/user.go:219-243 | (id, hash, no error) exactly when the lookup by email finds a user whose hash matches the password; (0, "", incorrect password) on a mismatch; (0, "", lookup error) when no user is found |
| Users.AfterUpdateOnlyFirstUserIsFound | data/user.go:202-203 | after Update every user has the given email, the lookup by it succeeds with one single row of the table, and only that user can sign in; in the model that row is the first |
| Users.AfterUpdateWithUpperCaseEmailNobodyIsFound | data/user.go:202-211 | after Update with an email holding an upper-case letter, no lookup by email finds anyone |
| Text.ToLower | data/room.go:26 | lower-casing keeps the length, turns each upper-case letter into the lower-case letter at the same place in the alphabet and changes nothing else |
| Text.ToLowerIdempotent | data/user.go:174 | lower-casing twice is lower-casing once |
| Text.ScanUint | handlers/rooms.go:43 | the base-10 scan into a uint64: no error only for all digits whose value fits, with that value; a syntax error only for a non-digit, with 0; a range error with the largest uint64; all digits give their value or the range error |
| Text.ScanUintStopsAtFirstNonDigit | handlers/rooms.go:43 | at the first non-digit the digits before it decide: a syntax error when they fit in a uint64, a range error when they do not |
| Text.Atoi | handlers/rooms.go:43 | the value is a 64-bit int; no error only for a sign and digits, with their value; 0 on a syntax error; the bound on the sign's side on a range error; a sign and digits are never a syntax error |
| Text.AtoiOfDigits | handlers/rooms.go:43 | a sign and digits read as their value when it fits in 64 bits, and as the nearer bound with a range error otherwise |
| Text.AtoiStopsAtFirstNonDigit | handlers/rooms.go:43 | when a non-digit follows digits, those digits decide between a syntax error and the clamped value with a range error |
| Text.AtoiDigitsThenNonDigit | handlers/rooms.go:43 | digits followed by a non-digit give a syntax error while they fit in a uint64 and the largest int with a range error once they do not |
| Text.Itoa | handlers/rooms.go:63 | the decimal text starts with '-' exactly when the number is negative |
| Text.AtoiItoa | handlers/rooms.go:43-63 | Atoi reads back what Itoa writes for every 64-bit int |
| Text.ItoaInjective | handlers/rooms.go:63 | different ids give different room_id strings |
| Sorting.Sort | data/room.go:47 | the result is sorted and is a permutation of the input |
| Sorting.SortIsOrderBy | data/reservation.go:76 | the ordered result has the same length and rows as the input, with keys ascending |
| Forms.Required | data/reservation.go:30 | one blank complaint for each listed field that is empty, and none other |
| Forms.MinLength | data/reservation.go:31-32 | a complaint exactly when the value is shorter than the minimum in bytes; so a value with at least that many characters always passes, one with fewer than a quarter of them never does, and an ASCII value passes exactly at the minimum |
| Handlers.AvailabilityJSON | handlers/rooms.go:21-70 | an unparsable body answers "Internal server error"; a failed query answers "Error querying database"; otherwise ok exactly when no restriction of the parsed room overlaps the parsed nights, with an empty message, the raw dates echoed and the room id as Itoa of the parsed id |
| Handlers.AvailabilityJSONRoomIdReadsBack | handlers/rooms.go:43-63 | the answered room id reads back as the id checked, and is "0" when room_id does not parse |
| Handlers.AvailabilityJSONAgreesWithIsAvailable | handlers/rooms.go:45-63 | ok is IsAvailable's answer for the parsed room and dates |
| Handlers.Confirmation | handlers/booking.go:205-219 | the mail goes from the site's address to the guest's email and names the guest, the two dates and the room |
| Handlers.ConfirmationAnnouncesTheBlockedNights | handlers/booking.go:183-212 | the nights the mail announces are the nights the commit's restriction blocks |
| Handlers.Handlers.PostAvailability | handlers/booking.go:25-69 | an unparsable date or a failed query answers 500 and leaves the session alone; with no free room the session gets "No rooms available"; otherwise the session reservation holds exactly the two dates; no table is written |
| Handlers.Handlers.ChooseRoom | handlers/booking.go:71-101 | with a parsable id, a session reservation and an existing room, the reservation takes the room's id and name and keeps its dates; any failure answers 500 and leaves the session alone |
| Handlers.Handlers.ReservationPage | handlers/booking.go:105-146 | refreshes the room name of the session reservation; with none it sets the error message and redirects home; a failed room lookup is only logged |
| Handlers.Handlers.PostReservation | handlers/booking.go:148-231 | an invalid form writes nothing; a valid one inserts the reservation, then one restriction with the same dates and room tied to the new id, with no availability check; a failed reservation insert stops before the restriction; a mail failure is only logged; the session keeps the reservation with its new id |
| Handlers.Handlers.ReservationSummary | handlers/booking.go:234-265 | takes the reservation out of the session; with none it sets the error message and redirects home |
| Handlers.Handlers.BookRoom | handlers/rooms.go:72-96 | a failed room lookup answers 500 and leaves the session alone; otherwise the session gets a fresh reservation with the room id, room name and the two query-string dates |
| BookingRace.SearchWhileFree | handlers/booking.go:41-58 | a search while the room is free leaves exactly the searched nights in the session |
| BookingRace.ChooseExisting | handlers/booking.go:87-98 | choosing an existing room sets it and keeps the nights |
| BookingRace.CommitValid | handlers/booking.go:183-198 | a valid commit appends one restriction with the session's room and nights |
| BookingRace.BothChooseTheSameNights | handlers/booking.go:41-98 | two searches of the same free nights and two choices of the same room leave both sessions holding that room for those nights |
| BookingRace.BothCommit | handlers/booking.go:180-198 | two valid commits of the same room and nights append two restrictions and break NoDoubleBooking |
| BookingRace.SameNightsTwiceDoubleBooks | handlers/booking.go:183-198 | two restrictions of one room over the same non-empty nights are a double booking |
| BookingRace.TwoGuestsBookTheSameNights | handlers/booking.go:180-198 | starting from a table with no double booking, two visitors who search and choose the same free room before either commits both get their booking, and the restrictions table then double-books the room |

## Left out

- HTTP plumbing is not modelled: rendering, templates, routing, static files, redirects as HTTP and the JSON encoding. A handler's result is reduced to a `Response` value. The page-only handlers (home, about, contact, room pages, the search page) are not modelled.
- Application wiring is not modelled (app.go, data/models.go, data/postgres.go). It only connects a pool. Store calls go through the package-level connection, so the handlers' never-assigned `Models` value matters only as the `User{}` receiver. That receiver is covered by `Users.InsertThroughModelsStoresEmptyEmail`.
- Time is not modelled: `created_at`/`updated_at` timestamps and the three-second query timeouts are wall-clock behaviour. A timeout before any row is read is a failed query (`fault`). In Rooms.GetAll and Users.SelectAll, a break-off after some rows is the parameter `cutAfter`.
- Rooms.GetAnyAvailable: a break-off while reading the rows (`rows.Err()`) is modelled only as a failure up front, with no rows. Go returns the rooms read so far together with the error.
- Reservations.GetAll: a break-off while reading the rows is modelled only as a failure up front, with no rows. Go returns the reservations read so far together with the error.
- Reservations.GetOnlyNew: a break-off while reading the rows is modelled only as a failure up front, with no rows. Go returns the reservations read so far together with the error.
- Restrictions.GetForRoom: a break-off while reading the rows is a failed query (`fault`), as in Go, which then returns no rows.
- Users.GetByEmail: the query has no ORDER BY, so when several users share the email the database may return any one of them. The model returns the first in table order.
- Users.Authenticate: it checks the password of the user GetByEmail returns, so it inherits that table-order choice.
- AfterUpdateOnlyFirstUserIsFound: which of the identical rows signs in is not fixed by the source. The model's lookup picks the first in table order, so its clause naming `rows[0]` holds for the model only. The clauses saying that one single row of the table is found hold for any order.
- Rooms.GetAnyAvailable: the query has no ORDER BY; the model lists the free rooms in table order, where the database may use any order.
- Rooms.NoRestrictionsAllAvailable: the clause that the rooms come back in table order holds for the model only. The multiset clause holds for any order.
- Restrictions.GetForRoom: the query has no ORDER BY; the model lists the selected restrictions in table order.
- Forms.Required: a field counts as blank only when it is the empty string. The validation library is not part of this model. If that library trims spaces before the test, then a field of spaces counts as filled here but as blank there.
- Date parsing is a parameter. `time.Parse` is given as a `string -> Option<Date>` function, and `time.Format` is not modelled. The confirmation mail carries day numbers instead of formatted dates.
- Mail delivery is a parameter. The mailer's job and result channels are concurrency; the mail outcome is the parameter `mailErr`.
- Concurrency is not modelled. Requests are sequential, so the race between two commits appears only as an interleaving of whole requests.
- Users.UserTable.Insert: the id returned is what the driver's LastInsertId reports, passed in as `lastInsertId`. Its value on PostgreSQL is driver-dependent and is not asserted.
- Users.UserTable.InsertAndReturnId: the id is what the single-row result yields, passed in as `returned`. The statement has no `returning` clause, and its outcome is schema-dependent and not asserted.
- Users.Authenticate: bcrypt's comparison is the parameter `compare`. Hashing in Insert is the parameter `hash`.
- Users.Validate: records every failed check, in order. The validation library is not part of this model. The library's error map may keep only the first message per field, and the email-format rule is the parameter `isEmail`.
- User.Delete (data/user.go:260-270) is not modelled. Its statement misspells WHERE, and what the server makes of it is not asserted.
- Room.GetByName (data/room.go:98-121) is not modelled. It selects a `room_name` column that the rooms table, as read everywhere else through `name`, does not have.
- Reservations.GetByID: reads the joined room as the other queries do. The source selects `rm.room_name`, a column the rooms table does not appear to have; that schema-dependent outcome is not asserted.
- Handlers.Handlers.PostReservation uses one form both for the fields it copies and for validation. Go separates `r.Form` (body and query string) from `r.PostForm` (body only).
- Handlers.Handlers.PostAvailability reads the posted form as given. The handler never calls `ParseForm` itself, and whether middleware has done so is not part of this model.
- Text.ToLower: lower-cases ASCII letters only. Go's full Unicode case mapping is not modelled.
- Sorting.Sort: text columns are ordered by code point, as under the C collation. Other database collations are not modelled. Rows with equal keys come out in one fixed order, which SQL leaves unspecified.
- Ids and counts are unbounded integers, not 64-bit ints. Only Atoi and Itoa model the 64-bit range.
- Users.SelectAll: assumes `SELECT *` returns the columns in the order the scan expects.
