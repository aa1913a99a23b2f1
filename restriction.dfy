/** The restrictions table (data/restriction.go). A restriction blocks a room
    for the half-open date range [startDate, endDate); it is tied to the
    reservation that caused it, or to none (a manual or maintenance block,
    whose reservation_id column is NULL). */
module Restrictions {
  import opened Common

  datatype Restriction = Restriction(
    id: int,
    startDate: Date,
    endDate: Date,
    roomId: int,
    reservationId: Option<int>)

  function RestrictionId(r: Restriction): int {
    r.id
  }

  function IdIsNot(id: int): Restriction -> bool {
    (r: Restriction) => r.id != id
  }

  /** `delete from restrictions where id = $1` */
  function WithoutId(rows: seq<Restriction>, id: int): seq<Restriction> {
    Where(rows, IdIsNot(id))
  }

  class RestrictionTable {
    var rows: seq<Restriction>
    var nextId: int

    /** The id column is a serial primary key. */
    ghost predicate Valid()
      reads this
    {
      Keyed(rows, RestrictionId, nextId)
    }

    constructor ()
      ensures Valid() && rows == [] && nextId == 1
    {
      rows := [];
      nextId := 1;
    }

    /** Inserts one row with the given dates, room and reservation, under a
        fresh id. No overlap check is made, and an insert error is dropped:
        the caller is always told that the insert succeeded. The Go field
        behind `reservationId` is a plain int, so the application always
        passes `Some`; rows with a NULL reservation id are written outside
        the application (manual blocks). */
    method Create(restrict: Restriction, fault: bool) returns (err: Option<DbError>)
      requires Valid()
      modifies this
      ensures Valid()
      ensures err == None
      ensures fault ==> rows == old(rows) && nextId == old(nextId)
      ensures !fault ==> rows == old(rows) + [restrict.(id := old(nextId))] && nextId == old(nextId) + 1
    {
      var dbErr: Option<DbError> := None;
      if fault {
        dbErr := Some(QueryFailed);
      } else {
        var row := restrict.(id := nextId);
        KeyedAppend(rows, RestrictionId, nextId, row);
        rows := rows + [row];
        nextId := nextId + 1;
      }
      // both branches of the error test return nil
      err := None;
    }

    /** Deletes the row with the given id, if there is one. */
    method Delete(id: int, fault: bool) returns (err: Option<DbError>)
      requires Valid()
      modifies this
      ensures Valid() && nextId == old(nextId)
      ensures fault ==> err == Some(QueryFailed) && rows == old(rows)
      ensures !fault ==> err == None && rows == WithoutId(old(rows), id)
    {
      if fault {
        err := Some(QueryFailed);
      } else {
        WhereKeyed(rows, RestrictionId, nextId, IdIsNot(id));
        rows := WithoutId(rows, id);
        err := None;
      }
    }
  }

  /** Deleting by id removes exactly the row carrying that id (ids are unique)
      and keeps every other row. */
  lemma DeleteRemovesOnlyThatRow(rows: seq<Restriction>, nextId: int, id: int)
    requires Keyed(rows, RestrictionId, nextId)
    ensures forall x :: x in WithoutId(rows, id) <==> x in rows && x.id != id
    ensures |WithoutId(rows, id)| >= |rows| - 1
  {
    WhereKeyRemovesOne(rows, RestrictionId, nextId, IdIsNot(id), id);
    RemovesAtMostOne(rows, nextId, id);
  }

  lemma {:induction false} RemovesAtMostOne(rows: seq<Restriction>, nextId: int, id: int)
    requires Keyed(rows, RestrictionId, nextId)
    ensures |WithoutId(rows, id)| >= |rows| - 1
    ensures (forall x :: x in rows ==> x.id != id) ==> WithoutId(rows, id) == rows
  {
    if rows != [] {
      var rest := rows[1..];
      assert Keyed(rest, RestrictionId, nextId) by {
        forall i, j | 0 <= i < j < |rest| ensures rest[i].id < rest[j].id {
          assert rest[i] == rows[i + 1] && rest[j] == rows[j + 1];
        }
      }
      RemovesAtMostOne(rest, nextId, id);
      if rows[0].id == id {
        forall x | x in rest ensures x.id != id {
          var k :| 0 <= k < |rest| && rest[k] == x;
          assert x == rows[k + 1];
        }
      }
    }
  }

  /** WHERE clause of GetForRoom: the restriction is for `roomId`, ends after
      `start` and starts no later than `end` (a non-strict bound). */
  predicate InWindow(r: Restriction, start: Date, end: Date, roomId: int) {
    start < r.endDate && end >= r.startDate && r.roomId == roomId
  }

  function InWindowP(start: Date, end: Date, roomId: int): Restriction -> bool {
    (r: Restriction) => InWindow(r, start, end, roomId)
  }

  /** The rows GetForRoom selects, in table order. */
  function ForRoom(rows: seq<Restriction>, start: Date, end: Date, roomId: int): seq<Restriction> {
    Where(rows, InWindowP(start, end, roomId))
  }

  /** Reads the restrictions of `roomId` touching [start, end] row by row.
      A failed query, and a selected row whose reservation_id is NULL (it
      cannot be scanned into an int), give an empty list with the error. */
  method GetForRoom(rows: seq<Restriction>, start: Date, end: Date, roomId: int, fault: bool)
    returns (result: seq<Restriction>, err: Option<DbError>)
    ensures err.Some? ==> result == []
    ensures fault ==> err == Some(QueryFailed)
    ensures !fault && (exists r :: r in rows && InWindow(r, start, end, roomId) && r.reservationId.None?) ==>
              err == Some(ScanFailed)
    ensures !fault && (forall r :: r in rows && InWindow(r, start, end, roomId) ==> r.reservationId.Some?) ==>
              err == None
    ensures err == None ==> result == ForRoom(rows, start, end, roomId)
    ensures err == None ==> forall r :: r in result <==> r in rows && InWindow(r, start, end, roomId)
  {
    if fault {
      return [], Some(QueryFailed);
    }
    result := [];
    var i := 0;
    while i < |rows|
      invariant 0 <= i <= |rows|
      invariant result == ForRoom(rows[..i], start, end, roomId)
      invariant forall k :: 0 <= k < i && InWindow(rows[k], start, end, roomId) ==> rows[k].reservationId.Some?
    {
      var r := rows[i];
      assert rows[..i + 1] == rows[..i] + [r];
      WhereAppend(rows[..i], r, InWindowP(start, end, roomId));
      if InWindow(r, start, end, roomId) {
        if r.reservationId.None? {
          return [], Some(ScanFailed);
        }
        result := result + [r];
      }
      i := i + 1;
    }
    assert rows[..i] == rows;
    err := None;
  }
}
