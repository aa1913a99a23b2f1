/** Shared vocabulary of the data layer: optional values, the errors a store
    call can report, Go's (value, error) pair, calendar dates, and the two
    table-level notions every store uses: a WHERE filter and a primary key. */
module Common {

  datatype Option<+T> = None | Some(value: T) {
    function GetOr(default: T): T {
      match this
      case Some(v) => v
      case None => default
    }
  }

  /** What a store call can report instead of success. */
  datatype DbError =
    | QueryFailed          // the driver or the server rejected the statement, or it timed out
    | NoRows               // a single-row query found nothing (sql.ErrNoRows)
    | ScanFailed           // a column could not be converted, e.g. a NULL scanned into an int
    | IterationFailed      // rows.Err(): reading the result rows broke off part-way
    | LastInsertIdFailed   // the driver could not report the id of the inserted row
    | HashFailed           // the password hasher reported an error
    | IncorrectPassword    // the password does not match the stored hash

  /** Go's `(value, error)` return pair. */
  datatype Reply<T> = Reply(value: T, err: Option<DbError>)

  /** A calendar date as a day number. Day 0 is the date of Go's zero
      `time.Time` (January 1 of year 1), which is what a failed parse yields. */
  type Date = int

  const ZeroTime: Date := 0

  /** The rows of `s` that satisfy `p`, in table order: a SQL WHERE clause. */
  function Where<T(!new)>(s: seq<T>, p: T -> bool): (r: seq<T>)
    ensures |r| <= |s|
    ensures forall x :: x in r <==> x in s && p(x)
  {
    if s == [] then [] else (if p(s[0]) then [s[0]] else []) + Where(s[1..], p)
  }

  /** A WHERE clause keeps each row at most as often as it is stored. */
  lemma {:induction false} WhereIsSubMultiset<T(!new)>(s: seq<T>, p: T -> bool)
    ensures multiset(Where(s, p)) <= multiset(s)
  {
    if s != [] {
      WhereIsSubMultiset(s[1..], p);
      assert s == [s[0]] + s[1..];
    }
  }

  lemma {:induction false} WhereAppend<T(!new)>(s: seq<T>, x: T, p: T -> bool)
    ensures Where(s + [x], p) == Where(s, p) + (if p(x) then [x] else [])
  {
    if s == [] {
      assert s + [x] == [x];
    } else {
      assert (s + [x])[1..] == s[1..] + [x];
      WhereAppend(s[1..], x, p);
    }
  }

  /** A filter that keeps every row is the identity. */
  lemma {:induction false} WhereAll<T(!new)>(s: seq<T>, p: T -> bool)
    requires forall x :: x in s ==> p(x)
    ensures Where(s, p) == s
  {
    if s != [] {
      WhereAll(s[1..], p);
    }
  }

  /** The primary-key invariant of a table with a serial id column: ids are
      strictly increasing in table order and below the next id to hand out. */
  ghost predicate Keyed<T>(rows: seq<T>, key: T -> int, nextId: int) {
    && (forall i, j :: 0 <= i < j < |rows| ==> key(rows[i]) < key(rows[j]))
    && (forall i :: 0 <= i < |rows| ==> key(rows[i]) < nextId)
  }

  /** Appending a row carrying the next id keeps the key invariant. */
  lemma KeyedAppend<T>(rows: seq<T>, key: T -> int, nextId: int, row: T)
    requires Keyed(rows, key, nextId) && key(row) == nextId
    ensures Keyed(rows + [row], key, nextId + 1)
  {
  }

  /** Rewriting columns other than the key keeps the key invariant. */
  lemma KeyedSameKeys<T>(before: seq<T>, after: seq<T>, key: T -> int, nextId: int)
    requires Keyed(before, key, nextId)
    requires |after| == |before| && forall i :: 0 <= i < |after| ==> key(after[i]) == key(before[i])
    ensures Keyed(after, key, nextId)
  {
  }

  /** Deleting rows (keeping those that satisfy `p`) keeps the key invariant. */
  lemma {:induction false} WhereKeyed<T(!new)>(rows: seq<T>, key: T -> int, nextId: int, p: T -> bool)
    requires Keyed(rows, key, nextId)
    ensures Keyed(Where(rows, p), key, nextId)
  {
    if rows != [] {
      var rest := rows[1..];
      assert Keyed(rest, key, nextId) by {
        forall i, j | 0 <= i < j < |rest| ensures key(rest[i]) < key(rest[j]) {
          assert rest[i] == rows[i + 1] && rest[j] == rows[j + 1];
        }
      }
      WhereKeyed(rest, key, nextId, p);
      var w := Where(rest, p);
      forall y | y in w ensures key(rows[0]) < key(y) {
        var k :| 0 <= k < |rest| && rest[k] == y;
        assert y == rows[k + 1];
      }
    }
  }

  /** With unique keys, deleting by key removes the one row carrying it and
      keeps every other row. */
  lemma WhereKeyRemovesOne<T(!new)>(rows: seq<T>, key: T -> int, nextId: int, p: T -> bool, id: int)
    requires Keyed(rows, key, nextId)
    requires forall x :: p(x) <==> key(x) != id
    ensures forall x :: x in Where(rows, p) <==> x in rows && key(x) != id
    ensures forall x, y :: x in rows && y in rows && key(x) == id && key(y) == id ==> x == y
  {
    forall x, y | x in rows && y in rows && key(x) == id && key(y) == id ensures x == y {
      var i :| 0 <= i < |rows| && rows[i] == x;
      var j :| 0 <= j < |rows| && rows[j] == y;
      assert i == j;
    }
  }

  /** The first row satisfying `p`, if any: a single-row SELECT. */
  function FirstWhere<T(!new)>(s: seq<T>, p: T -> bool): (r: Option<T>)
    ensures r.Some? <==> exists x :: x in s && p(x)
    ensures r.Some? ==> r.value in s && p(r.value)
    ensures r.Some? ==> r.value == Where(s, p)[0]
  {
    if s == [] then None
    else if p(s[0]) then Some(s[0])
    else FirstWhere(s[1..], p)
  }

  /** With unique keys the first row carrying a key is the only one. */
  lemma FirstWhereKey<T(!new)>(rows: seq<T>, key: T -> int, nextId: int, p: T -> bool, id: int)
    requires Keyed(rows, key, nextId)
    requires forall x :: p(x) <==> key(x) == id
    ensures forall x :: x in rows && key(x) == id ==> FirstWhere(rows, p) == Some(x)
  {
    forall x | x in rows && key(x) == id ensures FirstWhere(rows, p) == Some(x) {
      var y := FirstWhere(rows, p).value;
      var i :| 0 <= i < |rows| && rows[i] == x;
      var j :| 0 <= j < |rows| && rows[j] == y;
      assert i == j;
    }
  }
}
