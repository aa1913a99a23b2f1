/** The reservations table (data/reservation.go): guest booking requests with
    a processed flag (0 = new, not yet handled by staff). */
module Reservations {
  import opened Common
  import opened Text
  import opened Sorting
  import opened Forms
  import Rooms

  /** The reservation record. `room` is not a column: it is filled from the
      rooms table by the queries that join it, and carried in the session. */
  datatype Reservation = Reservation(
    id: int,
    firstName: string,
    lastName: string,
    email: string,
    phone: string,
    startDate: Date,
    endDate: Date,
    roomId: int,
    room: Rooms.Room,
    processed: int)

  /** Go's zero `Reservation`. */
  const ZeroReservation := Reservation(0, "", "", "", "", ZeroTime, ZeroTime, 0, Rooms.ZeroRoom, 0)

  function ReservationId(r: Reservation): int {
    r.id
  }

  // ----- Validate -----

  /** The guest fields are required, both names need at least 3 bytes, and
      the email must be well-formed. */
  function Validate(form: Form, isEmail: string -> bool): (errs: seq<FieldError>)
    ensures forall e :: e in errs ==>
              || (e.problem == Blank && e.field in ["first_name", "last_name", "email", "phone"])
              || (e.problem == ShorterThan(3) && e.field in ["first_name", "last_name"])
              || (e.problem == NotAnEmail && e.field == "email")
  {
    Required(form, ["first_name", "last_name", "email", "phone"])
    + MinLength(form, "first_name", 3)
    + MinLength(form, "last_name", 3)
    + IsEmail(form, "email", isEmail)
  }

  /** The form is accepted exactly when every rule holds. */
  lemma ValidateAcceptsExactly(form: Form, isEmail: string -> bool)
    ensures Validate(form, isEmail) == [] <==>
              && Get(form, "first_name") != "" && Get(form, "last_name") != ""
              && Get(form, "email") != "" && Get(form, "phone") != ""
              && ByteLen(Get(form, "first_name")) >= 3 && ByteLen(Get(form, "last_name")) >= 3
              && isEmail(Get(form, "email"))
  {
    var req := Required(form, ["first_name", "last_name", "email", "phone"]);
    if Get(form, "first_name") == "" {
      assert FieldError("first_name", Blank) in req;
    }
    if Get(form, "last_name") == "" {
      assert FieldError("last_name", Blank) in req;
    }
    if Get(form, "email") == "" {
      assert FieldError("email", Blank) in req;
    }
    if Get(form, "phone") == "" {
      assert FieldError("phone", Blank) in req;
    }
    if req != [] {
      assert req[0] in req;
    }
  }

  /** Each empty required field is reported as blank, and only those. */
  lemma ValidateReportsBlankFields(form: Form, isEmail: string -> bool, field: string)
    ensures FieldError(field, Blank) in Validate(form, isEmail) <==>
              field in ["first_name", "last_name", "email", "phone"] && Get(form, field) == ""
  {
  }

  // ----- the table -----

  class ReservationTable {
    var rows: seq<Reservation>
    var nextId: int

    ghost predicate Valid()
      reads this
    {
      Keyed(rows, ReservationId, nextId)
    }

    constructor ()
      ensures Valid() && rows == [] && nextId == 1
    {
      rows := [];
      nextId := 1;
    }

    /** Inserts the reservation under a fresh id and returns the id. Names
        and email are stored lower-cased, the phone as given; the processed
        flag takes the column default 0. A failed insert returns 0 and the
        error and stores nothing. */
    method Create(res: Reservation, fault: bool) returns (id: int, err: Option<DbError>)
      requires Valid()
      modifies this
      ensures Valid()
      ensures fault ==> id == 0 && err == Some(QueryFailed) && rows == old(rows) && nextId == old(nextId)
      ensures !fault ==> err == None && id == old(nextId) && nextId == old(nextId) + 1
      ensures !fault ==> rows == old(rows) + [Stored(res, id)]
    {
      if fault {
        return 0, Some(QueryFailed);
      }
      var row := Stored(res, nextId);
      KeyedAppend(rows, ReservationId, nextId, row);
      rows := rows + [row];
      id := nextId;
      nextId := nextId + 1;
      err := None;
    }

    /** Overwrites the guest's names, email and phone (as given, not
        lower-cased) on the row whose id is `res.id`. */
    method Update(res: Reservation, fault: bool) returns (err: Option<DbError>)
      requires Valid()
      modifies this
      ensures Valid() && nextId == old(nextId)
      ensures fault ==> err == Some(QueryFailed) && rows == old(rows)
      ensures !fault ==> err == None && |rows| == |old(rows)|
      ensures !fault ==> forall i :: 0 <= i < |rows| ==>
                rows[i] == if old(rows)[i].id == res.id
                           then old(rows)[i].(firstName := res.firstName, lastName := res.lastName,
                                              email := res.email, phone := res.phone)
                           else old(rows)[i]
    {
      if fault {
        return Some(QueryFailed);
      }
      var before := rows;
      rows := seq(|before|, i requires 0 <= i < |before| =>
                if before[i].id == res.id
                then before[i].(firstName := res.firstName, lastName := res.lastName,
                                email := res.email, phone := res.phone)
                else before[i]);
      KeyedSameKeys(before, rows, ReservationId, nextId);
      err := None;
    }

    /** Sets the processed flag of the row with the given id. */
    method UpdateProcessedStatus(processed: int, id: int, fault: bool) returns (err: Option<DbError>)
      requires Valid()
      modifies this
      ensures Valid() && nextId == old(nextId)
      ensures fault ==> err == Some(QueryFailed) && rows == old(rows)
      ensures !fault ==> err == None && |rows| == |old(rows)|
      ensures !fault ==> forall i :: 0 <= i < |rows| ==>
                rows[i] == if old(rows)[i].id == id then old(rows)[i].(processed := processed) else old(rows)[i]
    {
      if fault {
        return Some(QueryFailed);
      }
      var before := rows;
      rows := seq(|before|, i requires 0 <= i < |before| =>
                if before[i].id == id then before[i].(processed := processed) else before[i]);
      KeyedSameKeys(before, rows, ReservationId, nextId);
      err := None;
    }

    /** Deletes the reservation row with the given id. Restrictions that
        refer to it are in another table and stay. */
    method Delete(id: int, fault: bool) returns (err: Option<DbError>)
      requires Valid()
      modifies this
      ensures Valid() && nextId == old(nextId)
      ensures fault ==> err == Some(QueryFailed) && rows == old(rows)
      ensures !fault ==> err == None && rows == Where(old(rows), IdIsNot(id))
    {
      if fault {
        return Some(QueryFailed);
      }
      WhereKeyed(rows, ReservationId, nextId, IdIsNot(id));
      rows := Where(rows, IdIsNot(id));
      err := None;
    }
  }

  /** The row Create stores for `res` under `id`. */
  function Stored(res: Reservation, id: int): (row: Reservation)
    ensures row.id == id && row.processed == 0 && row.room == Rooms.ZeroRoom
    ensures row.firstName == ToLower(res.firstName) && row.lastName == ToLower(res.lastName)
    ensures row.email == ToLower(res.email) && row.phone == res.phone
    ensures row.startDate == res.startDate && row.endDate == res.endDate && row.roomId == res.roomId
  {
    Reservation(id, ToLower(res.firstName), ToLower(res.lastName), ToLower(res.email), res.phone,
                res.startDate, res.endDate, res.roomId, Rooms.ZeroRoom, 0)
  }

  function IdIsNot(id: int): Reservation -> bool {
    (r: Reservation) => r.id != id
  }

  function IdIs(id: int): Reservation -> bool {
    (r: Reservation) => r.id == id
  }

  // ----- queries -----

  /** ORDER BY start_date ASC */
  function ByStart(a: Reservation, b: Reservation): bool {
    a.startDate <= b.startDate
  }

  lemma ByStartIsTotalPreorder()
    ensures TotalPreorder(ByStart)
  {
  }

  /** The row as the join with its room reads it: `rm.id` into the room id
      and `rm.name` into the room's name. */
  function WithRoom(res: Reservation, rm: Rooms.Room): Reservation {
    res.(roomId := rm.id, room := Rooms.Room(0, rm.name))
  }

  predicate HasRoom(res: Reservation, rooms: seq<Rooms.Room>) {
    exists rm :: rm in rooms && rm.id == res.roomId
  }

  /** `left join rooms rm on (r.room_id = rm.id)` for one row; None when no
      room matches and the joined columns are NULL. */
  function Join(res: Reservation, rooms: seq<Rooms.Room>): (r: Option<Reservation>)
    ensures r.Some? <==> HasRoom(res, rooms)
    ensures r.Some? ==> r.value.startDate == res.startDate && r.value.processed == res.processed
                        && r.value.id == res.id && r.value.roomId == res.roomId
    ensures r.Some? ==> exists rm :: rm in rooms && rm.id == res.roomId && r.value == res.(room := Rooms.Room(0, rm.name))
  {
    match FirstWhere(rooms, Rooms.IdIs(res.roomId))
    case None => None
    case Some(rm) => Some(WithRoom(res, rm))
  }

  /** The scan loop: rows are read in order until one fails to scan (its
      room is missing, so a NULL meets an int); Go then returns the rows
      read so far together with the error. */
  function ScanAll(rs: seq<Reservation>, rooms: seq<Rooms.Room>): (r: Reply<seq<Reservation>>)
    ensures |r.value| <= |rs|
    ensures r.err == None || r.err == Some(ScanFailed)
  {
    if rs == [] then Reply([], None)
    else match Join(rs[0], rooms)
      case None => Reply([], Some(ScanFailed))
      case Some(j) =>
        var rest := ScanAll(rs[1..], rooms);
        Reply([j] + rest.value, rest.err)
  }

  /** Each returned row is the join of the row scanned at its position. */
  lemma {:induction false} ScanAllJoins(rs: seq<Reservation>, rooms: seq<Rooms.Room>)
    ensures forall i :: 0 <= i < |ScanAll(rs, rooms).value| ==> Join(rs[i], rooms) == Some(ScanAll(rs, rooms).value[i])
  {
    if rs != [] && Join(rs[0], rooms).Some? {
      ScanAllJoins(rs[1..], rooms);
      var rest := ScanAll(rs[1..], rooms).value;
      var v := ScanAll(rs, rooms).value;
      assert v == [Join(rs[0], rooms).value] + rest;
      forall i | 0 < i < |v| ensures Join(rs[i], rooms) == Some(v[i]) {
        assert v[i] == rest[i - 1] && rs[i] == rs[1..][i - 1];
      }
    }
  }

  /** The scan either reads every row or stops at the first row without a
      room, returning the rows before it. */
  lemma {:induction false} ScanAllStops(rs: seq<Reservation>, rooms: seq<Rooms.Room>)
    ensures ScanAll(rs, rooms).err == None ==> |ScanAll(rs, rooms).value| == |rs|
    ensures ScanAll(rs, rooms).err.Some? ==>
              |ScanAll(rs, rooms).value| < |rs| && Join(rs[|ScanAll(rs, rooms).value|], rooms) == None
  {
    if rs != [] && Join(rs[0], rooms).Some? {
      ScanAllStops(rs[1..], rooms);
      var rest := ScanAll(rs[1..], rooms);
      assert |ScanAll(rs, rooms).value| == 1 + |rest.value|;
      if rest.err.Some? {
        assert rs[1 + |rest.value|] == rs[1..][|rest.value|];
      }
    }
  }

  /** The scan fails exactly when some scanned reservation has no room. */
  lemma ScanAllFailsIffRoomMissing(rs: seq<Reservation>, rooms: seq<Rooms.Room>)
    ensures ScanAll(rs, rooms).err == None <==> forall x :: x in rs ==> HasRoom(x, rooms)
  {
    ScanAllJoins(rs, rooms);
    ScanAllStops(rs, rooms);
    var r := ScanAll(rs, rooms);
    if r.err == None {
      forall x | x in rs ensures HasRoom(x, rooms) {
        var k :| 0 <= k < |rs| && rs[k] == x;
        assert Join(rs[k], rooms).Some?;
      }
    } else {
      assert rs[|r.value|] in rs;
    }
  }

  /** Every reservation, joined with its room, in ascending start date. */
  function GetAll(rows: seq<Reservation>, rooms: seq<Rooms.Room>, fault: bool): (r: Reply<seq<Reservation>>)
    ensures fault ==> r == Reply([], Some(QueryFailed))
  {
    if fault then Reply([], Some(QueryFailed))
    else
      ByStartIsTotalPreorder();
      ScanAll(Sort(rows, ByStart), rooms)
  }

  function IsNew(): Reservation -> bool {
    (r: Reservation) => r.processed == 0
  }

  /** The reservations with processed = 0, joined with their rooms, in
      ascending start date. */
  function GetOnlyNew(rows: seq<Reservation>, rooms: seq<Rooms.Room>, fault: bool): (r: Reply<seq<Reservation>>)
    ensures fault ==> r == Reply([], Some(QueryFailed))
  {
    if fault then Reply([], Some(QueryFailed))
    else
      ByStartIsTotalPreorder();
      ScanAll(Sort(Where(rows, IsNew()), ByStart), rooms)
  }

  /** Joined rows keep the order of what was scanned. */
  lemma ScanAllKeepsOrder(rs: seq<Reservation>, rooms: seq<Rooms.Room>)
    requires Sorted(rs, ByStart)
    ensures Sorted(ScanAll(rs, rooms).value, ByStart)
  {
    ScanAllJoins(rs, rooms);
    var v := ScanAll(rs, rooms).value;
    forall i, j | 0 <= i < j < |v| ensures ByStart(v[i], v[j]) {
      assert Join(rs[i], rooms) == Some(v[i]) && Join(rs[j], rooms) == Some(v[j]);
    }
  }

  /** When every scanned reservation has its room, the scan reads them all:
      each row's join is returned and each returned row is such a join. */
  lemma ScanAllCoversRows(s: seq<Reservation>, rooms: seq<Rooms.Room>)
    requires forall x :: x in s ==> HasRoom(x, rooms)
    ensures ScanAll(s, rooms).err == None && |ScanAll(s, rooms).value| == |s|
    ensures forall x :: x in s ==> Join(x, rooms).value in ScanAll(s, rooms).value
    ensures forall y :: y in ScanAll(s, rooms).value ==> exists x :: x in s && Join(x, rooms) == Some(y)
  {
    ScanAllFailsIffRoomMissing(s, rooms);
    ScanAllJoins(s, rooms);
    ScanAllStops(s, rooms);
    var v := ScanAll(s, rooms).value;
    forall x | x in s ensures Join(x, rooms).value in v {
      var k :| 0 <= k < |s| && s[k] == x;
      assert Join(s[k], rooms) == Some(v[k]);
    }
    forall y | y in v ensures exists x :: x in s && Join(x, rooms) == Some(y) {
      var k :| 0 <= k < |v| && v[k] == y;
      assert s[k] in s;
    }
  }

  /** When every reservation's room exists, GetAll returns each reservation
      exactly once, joined with its room, ordered by start date. */
  lemma GetAllReturnsEveryReservation(rows: seq<Reservation>, rooms: seq<Rooms.Room>)
    requires forall x :: x in rows ==> HasRoom(x, rooms)
    ensures GetAll(rows, rooms, false).err == None
    ensures |GetAll(rows, rooms, false).value| == |rows|
    ensures Sorted(GetAll(rows, rooms, false).value, ByStart)
    ensures forall x :: x in rows ==> Join(x, rooms).value in GetAll(rows, rooms, false).value
    ensures forall y :: y in GetAll(rows, rooms, false).value ==> exists x :: x in rows && Join(x, rooms) == Some(y)
  {
    ByStartIsTotalPreorder();
    var s := Sort(rows, ByStart);
    SortIsOrderBy(rows, ByStart);
    ScanAllKeepsOrder(s, rooms);
    ScanAllCoversRows(s, rooms);
  }

  /** The row without the room the join attached: what the table stores. */
  function Unjoined(r: Reservation): Reservation {
    r.(room := Rooms.ZeroRoom)
  }

  /** With every room present, GetAll lists every reservation exactly once:
      without the joined rooms, its result is a permutation of the rows. */
  lemma GetAllIsAPermutation(rows: seq<Reservation>, rooms: seq<Rooms.Room>)
    requires forall x :: x in rows ==> HasRoom(x, rooms)
    ensures multiset(Map(GetAll(rows, rooms, false).value, Unjoined)) == multiset(Map(rows, Unjoined))
  {
    ByStartIsTotalPreorder();
    var s := Sort(rows, ByStart);
    SortIsOrderBy(rows, ByStart);
    ScanAllCoversRows(s, rooms);
    ScanAllJoins(s, rooms);
    var v := GetAll(rows, rooms, false).value;
    assert v == ScanAll(s, rooms).value;
    forall i | 0 <= i < |s| ensures Unjoined(v[i]) == Unjoined(s[i]) {
      assert Join(s[i], rooms) == Some(v[i]);
    }
    assert Map(v, Unjoined) == Map(s, Unjoined);
    MapPermutes(s, rows, Unjoined);
  }

  /** A reservation whose room is missing stops GetAll with a scan error,
      returning only the rows before it. */
  lemma GetAllStopsAtMissingRoom(rows: seq<Reservation>, rooms: seq<Rooms.Room>, x: Reservation)
    requires x in rows && !HasRoom(x, rooms)
    ensures GetAll(rows, rooms, false).err == Some(ScanFailed)
    ensures |GetAll(rows, rooms, false).value| < |rows|
  {
    ByStartIsTotalPreorder();
    SortIsOrderBy(rows, ByStart);
    ScanAllFailsIffRoomMissing(Sort(rows, ByStart), rooms);
    ScanAllStops(Sort(rows, ByStart), rooms);
  }

  /** When every reservation's room exists, GetOnlyNew returns exactly the
      unprocessed reservations, each once and joined with its room, ordered
      by start date. */
  lemma GetOnlyNewReturnsExactlyTheNewOnes(rows: seq<Reservation>, rooms: seq<Rooms.Room>)
    requires forall x :: x in rows ==> HasRoom(x, rooms)
    ensures GetOnlyNew(rows, rooms, false).err == None
    ensures Sorted(GetOnlyNew(rows, rooms, false).value, ByStart)
    ensures forall y :: y in GetOnlyNew(rows, rooms, false).value ==> y.processed == 0
    ensures forall x :: x in rows && x.processed == 0 ==> Join(x, rooms).value in GetOnlyNew(rows, rooms, false).value
    ensures forall y :: y in GetOnlyNew(rows, rooms, false).value ==>
              exists x :: x in rows && x.processed == 0 && Join(x, rooms) == Some(y)
    ensures |GetOnlyNew(rows, rooms, false).value| == |Where(rows, IsNew())|
  {
    var w := Where(rows, IsNew());
    ByStartIsTotalPreorder();
    var s := Sort(w, ByStart);
    SortIsOrderBy(w, ByStart);
    assert forall x :: x in s <==> x in rows && x.processed == 0;
    ScanAllKeepsOrder(s, rooms);
    ScanAllCoversRows(s, rooms);
    assert GetOnlyNew(rows, rooms, false) == ScanAll(s, rooms);
  }

  /** With every room present, GetOnlyNew lists every unprocessed
      reservation exactly once: without the joined rooms, its result is a
      permutation of the rows with processed 0. */
  lemma GetOnlyNewIsAPermutation(rows: seq<Reservation>, rooms: seq<Rooms.Room>)
    requires forall x :: x in rows ==> HasRoom(x, rooms)
    ensures multiset(Map(GetOnlyNew(rows, rooms, false).value, Unjoined)) == multiset(Map(Where(rows, IsNew()), Unjoined))
  {
    var w := Where(rows, IsNew());
    ByStartIsTotalPreorder();
    var s := Sort(w, ByStart);
    SortIsOrderBy(w, ByStart);
    ScanAllCoversRows(s, rooms);
    ScanAllJoins(s, rooms);
    var v := GetOnlyNew(rows, rooms, false).value;
    assert v == ScanAll(s, rooms).value;
    forall i | 0 <= i < |s| ensures Unjoined(v[i]) == Unjoined(s[i]) {
      assert Join(s[i], rooms) == Some(v[i]);
    }
    assert Map(v, Unjoined) == Map(s, Unjoined);
    MapPermutes(s, w, Unjoined);
  }

  /** The reservation with the given id with its room's id and name.
      NoRows when there is none; a missing room fails the scan, leaving the
      reservation's own columns read and the room empty. */
  function GetByID(rows: seq<Reservation>, rooms: seq<Rooms.Room>, id: int, fault: bool): (r: Reply<Reservation>)
    ensures fault ==> r == Reply(ZeroReservation, Some(QueryFailed))
    ensures !fault && r.err == None ==> r.value.id == id && exists x :: x in rows && x.id == id
    ensures !fault ==> (r.err == Some(NoRows) <==> forall x :: x in rows ==> x.id != id)
    ensures !fault && r.err == Some(ScanFailed) ==>
              r.value.id == id && r.value.room == Rooms.ZeroRoom
              && forall rm :: rm in rooms ==> rm.id != r.value.roomId
  {
    if fault then Reply(ZeroReservation, Some(QueryFailed))
    else match FirstWhere(rows, IdIs(id))
      case None => Reply(ZeroReservation, Some(NoRows))
      case Some(x) =>
        match FirstWhere(rooms, Rooms.IdIs(x.roomId))
        case None => Reply(x.(room := Rooms.ZeroRoom), Some(ScanFailed))
        case Some(rm) => Reply(x.(room := rm), None)
  }

  /** With unique ids and the room present, GetByID returns the stored row
      with its room. */
  lemma GetByIDFindsTheRow(rows: seq<Reservation>, nextId: int, rooms: seq<Rooms.Room>, roomsNext: int, x: Reservation)
    requires Keyed(rows, ReservationId, nextId) && Keyed(rooms, Rooms.RoomId, roomsNext)
    requires x in rows
    ensures forall rm :: rm in rooms && rm.id == x.roomId ==> GetByID(rows, rooms, x.id, false) == Reply(x.(room := rm), None)
  {
    FirstWhereKey(rows, ReservationId, nextId, IdIs(x.id), x.id);
    FirstWhereKey(rooms, Rooms.RoomId, roomsNext, Rooms.IdIs(x.roomId), x.roomId);
  }
}
