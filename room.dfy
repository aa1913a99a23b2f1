/** The rooms table and the availability engine (data/room.go). Availability
    is decided against the restrictions table with the strict half-open
    overlap test, so a stay may begin on the day another one ends. */
module Rooms {
  import opened Common
  import opened Text
  import opened Sorting
  import opened Restrictions

  datatype Room = Room(id: int, name: string)

  /** Go's zero `Room`, what a failed single-row read leaves behind. */
  const ZeroRoom := Room(0, "")

  function RoomId(r: Room): int {
    r.id
  }

  class RoomTable {
    var rows: seq<Room>
    var nextId: int

    ghost predicate Valid()
      reads this
    {
      Keyed(rows, RoomId, nextId)
    }

    constructor ()
      ensures Valid() && rows == [] && nextId == 1
    {
      rows := [];
      nextId := 1;
    }

    /** Inserts a room under a fresh id, its name lower-cased, and returns
        the id; a failed insert returns 0 and the error and stores nothing. */
    method Create(room: Room, fault: bool) returns (id: int, err: Option<DbError>)
      requires Valid()
      modifies this
      ensures Valid()
      ensures fault ==> id == 0 && err == Some(QueryFailed) && rows == old(rows) && nextId == old(nextId)
      ensures !fault ==> err == None && id == old(nextId) && nextId == old(nextId) + 1
      ensures !fault ==> rows == old(rows) + [Room(id, ToLower(room.name))]
    {
      if fault {
        return 0, Some(QueryFailed);
      }
      var row := Room(nextId, ToLower(room.name));
      KeyedAppend(rows, RoomId, nextId, row);
      rows := rows + [row];
      id := nextId;
      nextId := nextId + 1;
      err := None;
    }
  }

  // ----- GetAll and GetById -----

  /** ORDER BY name */
  function ByName(a: Room, b: Room): bool {
    LexLe(a.name, b.name)
  }

  lemma ByNameIsTotalPreorder()
    ensures TotalPreorder(ByName)
  {
    forall a: Room, b: Room ensures ByName(a, b) || ByName(b, a) {
      LexLeTotal(a.name, b.name);
    }
    forall a: Room, b: Room, c: Room | ByName(a, b) && ByName(b, c) ensures ByName(a, c) {
      LexLeTransitive(a.name, b.name, c.name);
    }
  }

  /** All rooms, ordered by name. When reading the rows breaks off after `k`
      of them (`cutAfter == Some(k)`), `rows.Err()` reports it and the rooms
      read so far come back with the error. */
  function GetAll(rows: seq<Room>, fault: bool, cutAfter: Option<nat>): (r: Reply<seq<Room>>)
    ensures fault ==> r == Reply([], Some(QueryFailed))
    ensures !fault ==> Sorted(r.value, ByName) && multiset(r.value) <= multiset(rows)
    ensures !fault && cutAfter.None? ==> r.err == None && multiset(r.value) == multiset(rows)
    ensures !fault && cutAfter.Some? ==>
              r.err == Some(IterationFailed)
              && |r.value| == (if cutAfter.value < |rows| then cutAfter.value else |rows|)
              && r.value <= GetAll(rows, false, None).value
    decreases cutAfter.Some?
  {
    if fault then Reply([], Some(QueryFailed))
    else
      ByNameIsTotalPreorder();
      var all := Sort(rows, ByName);
      match cutAfter
      case None => Reply(all, None)
      case Some(k) =>
        if k < |all| then
          assert all == all[..k] + all[k..];
          Reply(all[..k], Some(IterationFailed))
        else Reply(all, Some(IterationFailed))
  }

  function IdIs(id: int): Room -> bool {
    (r: Room) => r.id == id
  }

  /** The room with the given id; the zero room with an error when there is
      none or the query fails. */
  function GetById(rows: seq<Room>, id: int, fault: bool): (r: Reply<Room>)
    ensures r.err.Some? ==> r.value == ZeroRoom
    ensures fault ==> r.err == Some(QueryFailed)
    ensures !fault ==> (r.err == None <==> exists x :: x in rows && x.id == id)
    ensures !fault && r.err.Some? ==> r.err == Some(NoRows)
    ensures r.err == None ==> r.value in rows && r.value.id == id
  {
    if fault then Reply(ZeroRoom, Some(QueryFailed))
    else match FirstWhere(rows, IdIs(id))
      case None => Reply(ZeroRoom, Some(NoRows))
      case Some(room) => Reply(room, None)
  }

  /** With unique ids, GetById finds exactly the row stored under the id. */
  lemma GetByIdFindsTheRow(rows: seq<Room>, nextId: int, room: Room)
    requires Keyed(rows, RoomId, nextId) && room in rows
    ensures GetById(rows, room.id, false) == Reply(room, None)
  {
    FirstWhereKey(rows, RoomId, nextId, IdIs(room.id), room.id);
  }

  // ----- IsAvailable -----

  /** The strict half-open overlap test of `[start, end)` against a
      restriction: `start < end_date and end > start_date`. */
  predicate Overlaps(r: Restriction, start: Date, end: Date) {
    start < r.endDate && end > r.startDate
  }

  /** WHERE clause of IsAvailable. */
  function BlocksP(roomId: int, start: Date, end: Date): Restriction -> bool {
    (r: Restriction) => r.roomId == roomId && Overlaps(r, start, end)
  }

  /** `select count(id) from restrictions where ...` */
  function CountBlocking(restrictions: seq<Restriction>, roomId: int, start: Date, end: Date): nat {
    |Where(restrictions, BlocksP(roomId, start, end))|
  }

  /** A room is available when no restriction on it overlaps [start, end).
      A failed query answers (false, error), never true. */
  function IsAvailable(restrictions: seq<Restriction>, roomId: int, start: Date, end: Date, fault: bool): (r: Reply<bool>)
    ensures fault ==> r == Reply(false, Some(QueryFailed))
    ensures !fault ==> r.err == None
    ensures !fault ==> (r.value <==> forall x :: x in restrictions && x.roomId == roomId ==> !Overlaps(x, start, end))
  {
    if fault then Reply(false, Some(QueryFailed))
    else
      var count := CountBlocking(restrictions, roomId, start, end);
      assert count > 0 ==> Where(restrictions, BlocksP(roomId, start, end))[0] in restrictions;
      Reply(count == 0, None)
  }

  /** A restriction that ends on the first night asked for, or starts on the
      day of departure, does not change the answer: back-to-back stays are
      allowed. */
  lemma AdjacentDoesNotBlock(restrictions: seq<Restriction>, x: Restriction, roomId: int, start: Date, end: Date)
    requires x.endDate == start || x.startDate == end
    ensures IsAvailable(restrictions + [x], roomId, start, end, false) == IsAvailable(restrictions, roomId, start, end, false)
  {
    assert !Overlaps(x, start, end);
  }

  /** Restrictions on other rooms never change a room's availability. */
  lemma OtherRoomDoesNotBlock(restrictions: seq<Restriction>, x: Restriction, roomId: int, start: Date, end: Date)
    requires x.roomId != roomId
    ensures IsAvailable(restrictions + [x], roomId, start, end, false) == IsAvailable(restrictions, roomId, start, end, false)
  {
  }

  /** An overlapping restriction on the room makes it unavailable. */
  lemma OverlapBlocks(restrictions: seq<Restriction>, x: Restriction, start: Date, end: Date)
    requires x in restrictions && Overlaps(x, start, end)
    ensures IsAvailable(restrictions, x.roomId, start, end, false) == Reply(false, None)
  {
  }

  /** GetForRoom's window also takes a restriction that starts on the day of
      departure, which IsAvailable ignores: the two queries disagree there. */
  lemma WindowIncludesDepartureDay(restrictions: seq<Restriction>, x: Restriction, start: Date, end: Date)
    requires x in restrictions && x.startDate == end && start < x.endDate
    ensures x in ForRoom(restrictions, start, end, x.roomId)
    ensures !Overlaps(x, start, end)
  {
  }

  // ----- GetAnyAvailable -----

  /** The subquery `select room_id from restrictions where ...`: the rooms
      with a restriction overlapping [start, end). */
  function BlockedRooms(restrictions: seq<Restriction>, start: Date, end: Date): set<int> {
    set x | x in restrictions && Overlaps(x, start, end) :: x.roomId
  }

  function NotIn(blocked: set<int>): Room -> bool {
    (r: Room) => r.id !in blocked
  }

  /** The rooms whose id is not among the blocked rooms, in table order. */
  function GetAnyAvailable(rooms: seq<Room>, restrictions: seq<Restriction>, start: Date, end: Date, fault: bool)
    : (r: Reply<seq<Room>>)
    ensures fault ==> r == Reply([], Some(QueryFailed))
    ensures !fault ==> r.err == None && |r.value| <= |rooms| && multiset(r.value) <= multiset(rooms)
    ensures !fault ==> forall room :: room in r.value <==>
              room in rooms && forall x :: x in restrictions && x.roomId == room.id ==> !Overlaps(x, start, end)
  {
    if fault then Reply([], Some(QueryFailed))
    else
      WhereIsSubMultiset(rooms, NotIn(BlockedRooms(restrictions, start, end)));
      Reply(Where(rooms, NotIn(BlockedRooms(restrictions, start, end))), None)
  }

  /** The set query and the per-room query agree: a room is offered exactly
      when IsAvailable says it is free. */
  lemma GetAnyAvailableMatchesIsAvailable(rooms: seq<Room>, restrictions: seq<Restriction>, start: Date, end: Date)
    ensures forall room :: room in GetAnyAvailable(rooms, restrictions, start, end, false).value <==>
              room in rooms && IsAvailable(restrictions, room.id, start, end, false).value
  {
  }

  /** With no restrictions at all every room is offered, each once; the
      model lists them in table order. */
  lemma NoRestrictionsAllAvailable(rooms: seq<Room>, start: Date, end: Date)
    ensures GetAnyAvailable(rooms, [], start, end, false).err == None
    ensures multiset(GetAnyAvailable(rooms, [], start, end, false).value) == multiset(rooms)
    ensures GetAnyAvailable(rooms, [], start, end, false) == Reply(rooms, None)
  {
    assert BlockedRooms([], start, end) == {};
    WhereAll(rooms, NotIn({}));
  }

  // ----- the double-booking invariant -----

  /** No two restrictions on the same room overlap. */
  ghost predicate NoDoubleBooking(restrictions: seq<Restriction>) {
    forall i, j :: 0 <= i < j < |restrictions| && restrictions[i].roomId == restrictions[j].roomId ==>
      !Overlaps(restrictions[j], restrictions[i].startDate, restrictions[i].endDate)
  }

  /** Inserting a restriction only after IsAvailable said its room is free
      keeps the invariant; this is the check the booking commit leaves out. */
  lemma CheckedInsertKeepsNoDoubleBooking(restrictions: seq<Restriction>, x: Restriction)
    requires NoDoubleBooking(restrictions)
    requires IsAvailable(restrictions, x.roomId, x.startDate, x.endDate, false).value
    ensures NoDoubleBooking(restrictions + [x])
  {
    var rs := restrictions + [x];
    forall i, j | 0 <= i < j < |rs| && rs[i].roomId == rs[j].roomId
      ensures !Overlaps(rs[j], rs[i].startDate, rs[i].endDate)
    {
      if j == |restrictions| {
        assert rs[i] in restrictions;
        assert !Overlaps(rs[i], x.startDate, x.endDate);
      }
    }
  }

  /** Without that check, inserting a restriction that overlaps one already
      stored for its room breaks the invariant. */
  lemma UncheckedInsertDoubleBooks(restrictions: seq<Restriction>, x: Restriction)
    requires !IsAvailable(restrictions, x.roomId, x.startDate, x.endDate, false).value
    ensures !NoDoubleBooking(restrictions + [x])
  {
    var y :| y in restrictions && y.roomId == x.roomId && Overlaps(y, x.startDate, x.endDate);
    var i :| 0 <= i < |restrictions| && restrictions[i] == y;
    var rs := restrictions + [x];
    assert rs[i] == y && rs[|restrictions|] == x;
  }
}
