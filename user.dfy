/** The users table (data/user.go): accounts with a bcrypt password hash and
    an access level. Hashing and hash comparison are parameters of the
    operations that use them. */
module Users {
  import opened Common
  import opened Text
  import opened Sorting

  datatype User = User(
    id: int,
    firstName: string,
    lastName: string,
    email: string,
    password: string,
    accessLevel: int)

  /** Go's zero `User`; also the receiver every store call goes through,
      since the application's models hold `User{}`. */
  const ZeroUser := User(0, "", "", "", "", 0)

  function UserId(u: User): int {
    u.id
  }

  // ----- Validate -----

  /** The fields the checks look at. */
  datatype Field = FirstName | LastName | Password | Email

  /** One recorded validation failure. */
  datatype Complaint =
    | Missing(field: Field)   // a `v.Check(... != "", ...)` that failed
    | BadEmail                // `v.IsEmail` rejected the address

  /** The value a field check reads. */
  function Value(u: User, f: Field): string {
    match f
    case FirstName => u.firstName
    case LastName => u.lastName
    case Password => u.password
    case Email => u.email
  }

  /** `v.Check(ok, ...)` and `v.IsEmail`: a complaint unless the check
      passed. */
  function Check(ok: bool, c: Complaint): (errs: seq<Complaint>)
    ensures ok ==> errs == []
    ensures !ok ==> errs == [c]
  {
    if ok then [] else [c]
  }

  /** The checks run on a user, in order: the four required fields, then the
      email format. */
  function Validate(u: User, isEmail: string -> bool): (errs: seq<Complaint>)
    ensures errs == [] <==>
              u.firstName != "" && u.lastName != "" && u.password != "" && u.email != "" && isEmail(u.email)
  {
    Check(u.firstName != "", Missing(FirstName))
    + Check(u.lastName != "", Missing(LastName))
    + Check(u.password != "", Missing(Password))
    + Check(u.email != "", Missing(Email))
    + Check(isEmail(u.email), BadEmail)
  }

  /** Each empty field is reported, each only when empty, and a malformed
      email is reported exactly when the format check rejects it. */
  lemma ValidateReportsEachFailure(u: User, isEmail: string -> bool)
    ensures forall f :: Missing(f) in Validate(u, isEmail) <==> |Value(u, f)| == 0
    ensures BadEmail in Validate(u, isEmail) <==> !isEmail(u.email)
  {
    var a := Check(u.firstName != "", Missing(FirstName));
    var b := Check(u.lastName != "", Missing(LastName));
    var c := Check(u.password != "", Missing(Password));
    var d := Check(u.email != "", Missing(Email));
    var e := Check(isEmail(u.email), BadEmail);
    assert Validate(u, isEmail) == a + (b + (c + (d + e)));
    forall f ensures Missing(f) in Validate(u, isEmail) <==> |Value(u, f)| == 0 {
      InConcat(Missing(f), a, b, c, d, e);
    }
    InConcat(BadEmail, a, b, c, d, e);
  }

  lemma InConcat(x: Complaint, a: seq<Complaint>, b: seq<Complaint>, c: seq<Complaint>, d: seq<Complaint>, e: seq<Complaint>)
    ensures x in a + (b + (c + (d + e))) <==> x in a || x in b || x in c || x in d || x in e
  {
  }

  // ----- the table -----

  /** The row an insert through `receiver` stores for `user` under `id`: the
      names and access level of the argument, the hash of its password, and
      the lower-cased email of the RECEIVER, not of the argument. */
  function NewRow(receiver: User, user: User, hash: string, id: int): (row: User)
    ensures row.id == id && row.password == hash
    ensures row.firstName == user.firstName && row.lastName == user.lastName && row.accessLevel == user.accessLevel
    ensures row.email == ToLower(receiver.email)
  {
    User(id, user.firstName, user.lastName, ToLower(receiver.email), hash, user.accessLevel)
  }

  /** The argument's own email never reaches the table. */
  lemma NewRowIgnoresArgumentEmail(receiver: User, user: User, hash: string, id: int, email: string)
    ensures NewRow(receiver, user.(email := email), hash, id) == NewRow(receiver, user, hash, id)
  {
  }

  /** Through the application's zero receiver every user is stored with an
      empty email. */
  lemma InsertThroughModelsStoresEmptyEmail(user: User, hash: string, id: int)
    ensures NewRow(ZeroUser, user, hash, id).email == ""
  {
  }

  /** `update users set first_name, last_name, email, access_level` with no
      WHERE clause: every row takes the given values; ids and password
      hashes stay. */
  function OverwriteAll(rows: seq<User>, user: User): (r: seq<User>)
    ensures |r| == |rows|
    ensures forall i :: 0 <= i < |r| ==>
              r[i] == rows[i].(firstName := user.firstName, lastName := user.lastName,
                               email := user.email, accessLevel := user.accessLevel)
  {
    if rows == [] then []
    else
      [rows[0].(firstName := user.firstName, lastName := user.lastName,
                email := user.email, accessLevel := user.accessLevel)]
      + OverwriteAll(rows[1..], user)
  }

  /** `update users set password=$1 where id=$2` */
  function SetPassword(rows: seq<User>, id: int, hash: string): (r: seq<User>)
    ensures |r| == |rows|
    ensures forall i :: 0 <= i < |r| ==> r[i] == if rows[i].id == id then rows[i].(password := hash) else rows[i]
  {
    if rows == [] then []
    else [if rows[0].id == id then rows[0].(password := hash) else rows[0]] + SetPassword(rows[1..], id, hash)
  }

  class UserTable {
    var rows: seq<User>
    var nextId: int

    ghost predicate Valid()
      reads this
    {
      Keyed(rows, UserId, nextId)
    }

    constructor ()
      ensures Valid() && rows == [] && nextId == 1
    {
      rows := [];
      nextId := 1;
    }

    /** Hashes the password (`hash` is the hasher's answer, None when it
        fails) and inserts `NewRow`. The id returned is what the driver's
        LastInsertId reports (`lastInsertId`); when it cannot, the row is
        stored all the same and the call returns 0 with the error. */
    method Insert(receiver: User, user: User, hash: Option<string>, fault: bool, lastInsertId: Option<int>)
      returns (id: int, err: Option<DbError>)
      requires Valid()
      modifies this
      ensures Valid()
      ensures hash.None? ==> id == 0 && err == Some(HashFailed) && rows == old(rows) && nextId == old(nextId)
      ensures hash.Some? && fault ==>
                id == 0 && err == Some(QueryFailed) && rows == old(rows) && nextId == old(nextId)
      ensures hash.Some? && !fault ==>
                rows == old(rows) + [NewRow(receiver, user, hash.value, old(nextId))] && nextId == old(nextId) + 1
      ensures hash.Some? && !fault && lastInsertId.None? ==> id == 0 && err == Some(LastInsertIdFailed)
      ensures hash.Some? && !fault && lastInsertId.Some? ==> id == lastInsertId.value && err == None
    {
      if hash.None? {
        return 0, Some(HashFailed);
      }
      if fault {
        return 0, Some(QueryFailed);
      }
      var row := NewRow(receiver, user, hash.value, nextId);
      KeyedAppend(rows, UserId, nextId, row);
      rows := rows + [row];
      nextId := nextId + 1;
      match lastInsertId
      case None =>
        id, err := 0, Some(LastInsertIdFailed);
      case Some(n) =>
        id, err := n, None;
    }

    /** The same insert run as a single-row query whose one column is scanned
        into the new id (`returned`, None when the statement yields no row):
        the row is stored whether or not the scan succeeds. */
    method InsertAndReturnId(receiver: User, user: User, hash: Option<string>, fault: bool, returned: Option<int>)
      returns (id: int, err: Option<DbError>)
      requires Valid()
      modifies this
      ensures Valid()
      ensures hash.None? ==> id == 0 && err == Some(HashFailed) && rows == old(rows) && nextId == old(nextId)
      ensures hash.Some? && fault ==>
                id == 0 && err == Some(QueryFailed) && rows == old(rows) && nextId == old(nextId)
      ensures hash.Some? && !fault ==>
                rows == old(rows) + [NewRow(receiver, user, hash.value, old(nextId))] && nextId == old(nextId) + 1
      ensures hash.Some? && !fault && returned.None? ==> id == 0 && err == Some(NoRows)
      ensures hash.Some? && !fault && returned.Some? ==> id == returned.value && err == None
    {
      if hash.None? {
        return 0, Some(HashFailed);
      }
      if fault {
        return 0, Some(QueryFailed);
      }
      var row := NewRow(receiver, user, hash.value, nextId);
      KeyedAppend(rows, UserId, nextId, row);
      rows := rows + [row];
      nextId := nextId + 1;
      match returned
      case None =>
        id, err := 0, Some(NoRows);
      case Some(n) =>
        id, err := n, None;
    }

    /** Writes the user's names, email (as given) and access level into
        every row of the table. */
    method Update(user: User, fault: bool) returns (err: Option<DbError>)
      requires Valid()
      modifies this
      ensures Valid() && nextId == old(nextId)
      ensures fault ==> err == Some(QueryFailed) && rows == old(rows)
      ensures !fault ==> err == None && rows == OverwriteAll(old(rows), user)
    {
      if fault {
        return Some(QueryFailed);
      }
      var before := rows;
      rows := OverwriteAll(before, user);
      KeyedSameKeys(before, rows, UserId, nextId);
      err := None;
    }

    /** Stores a new password hash on the row whose id is `user.id`. */
    method UpdatePassword(user: User, newHash: string, fault: bool) returns (err: Option<DbError>)
      requires Valid()
      modifies this
      ensures Valid() && nextId == old(nextId)
      ensures fault ==> err == Some(QueryFailed) && rows == old(rows)
      ensures !fault ==> err == None && rows == SetPassword(old(rows), user.id, newHash)
    {
      if fault {
        return Some(QueryFailed);
      }
      var before := rows;
      rows := SetPassword(before, user.id, newHash);
      KeyedSameKeys(before, rows, UserId, nextId);
      err := None;
    }
  }

  /** UpdatePassword touches the password of the matching row and nothing
      else, and leaves every other row as it was. */
  lemma SetPasswordChangesOnlyThatRow(rows: seq<User>, id: int, hash: string)
    ensures forall i :: 0 <= i < |rows| ==> SetPassword(rows, id, hash)[i].(password := rows[i].password) == rows[i]
    ensures forall i :: 0 <= i < |rows| && rows[i].id != id ==> SetPassword(rows, id, hash)[i] == rows[i]
    ensures forall i :: 0 <= i < |rows| && rows[i].id == id ==> SetPassword(rows, id, hash)[i].password == hash
  {
  }

  // ----- queries -----

  /** ORDER BY last_name, first_name */
  function ByLastFirst(a: User, b: User): bool {
    if a.lastName == b.lastName then LexLe(a.firstName, b.firstName) else LexLe(a.lastName, b.lastName)
  }

  lemma ByLastFirstIsTotalPreorder()
    ensures TotalPreorder(ByLastFirst)
  {
    forall a: User, b: User ensures ByLastFirst(a, b) || ByLastFirst(b, a) {
      LexLeTotal(a.firstName, b.firstName);
      LexLeTotal(a.lastName, b.lastName);
    }
    forall a: User, b: User, c: User | ByLastFirst(a, b) && ByLastFirst(b, c) ensures ByLastFirst(a, c) {
      if a.lastName == b.lastName && b.lastName == c.lastName {
        LexLeTransitive(a.firstName, b.firstName, c.firstName);
      } else if a.lastName == c.lastName {
        LexLeAntisymmetric(a.lastName, b.lastName);
      } else if a.lastName != b.lastName && b.lastName != c.lastName {
        LexLeTransitive(a.lastName, b.lastName, c.lastName);
      }
    }
  }

  /** Every user, ordered by last name and then first name. The loop never
      looks at `rows.Err()`: when reading the rows breaks off after `k` of
      them (`cutAfter == Some(k)`: a timeout or a lost connection), the rows
      read so far come back with no error. */
  function SelectAll(rows: seq<User>, fault: bool, cutAfter: Option<nat>): (r: Reply<seq<User>>)
    ensures fault ==> r == Reply([], Some(QueryFailed))
    ensures !fault ==> r.err == None && Sorted(r.value, ByLastFirst) && multiset(r.value) <= multiset(rows)
    ensures !fault && cutAfter.None? ==> multiset(r.value) == multiset(rows)
    ensures !fault && cutAfter.Some? ==>
              |r.value| == (if cutAfter.value < |rows| then cutAfter.value else |rows|)
              && r.value <= SelectAll(rows, false, None).value
    decreases cutAfter.Some?
  {
    if fault then Reply([], Some(QueryFailed))
    else
      ByLastFirstIsTotalPreorder();
      var all := Sort(rows, ByLastFirst);
      if cutAfter.Some? && cutAfter.value < |all| then
        assert all == all[..cutAfter.value] + all[cutAfter.value..];
        Reply(all[..cutAfter.value], None)
      else Reply(all, None)
  }

  /** `SELECT COUNT(*) FROM users`: as many as SelectAll lists when it reads
      every row. */
  function Count(rows: seq<User>, fault: bool): (r: Reply<int>)
    ensures fault ==> r == Reply(0, Some(QueryFailed))
    ensures !fault ==> r == Reply(|SelectAll(rows, false, None).value|, None)
  {
    if fault then Reply(0, Some(QueryFailed))
    else
      assert |multiset(SelectAll(rows, false, None).value)| == |multiset(rows)|;
      Reply(|rows|, None)
  }

  /** The error SelectAll drops: a listing cut short reports success, yet
      holds fewer users than Count reports. */
  lemma CutSelectAllUndercounts(rows: seq<User>, k: nat)
    requires k < |rows|
    ensures SelectAll(rows, false, Some(k)).err == None
    ensures |SelectAll(rows, false, Some(k)).value| == k < Count(rows, false).value
  {
  }

  function IdIs(id: int): User -> bool {
    (u: User) => u.id == id
  }

  /** The user with the given id; the zero user with an error when there is
      none or the query fails. */
  function GetByID(rows: seq<User>, id: int, fault: bool): (r: Reply<User>)
    ensures r.err.Some? ==> r.value == ZeroUser
    ensures fault ==> r.err == Some(QueryFailed)
    ensures !fault ==> (r.err == None <==> exists x :: x in rows && x.id == id)
    ensures !fault && r.err.Some? ==> r.err == Some(NoRows)
    ensures r.err == None ==> r.value in rows && r.value.id == id
  {
    if fault then Reply(ZeroUser, Some(QueryFailed))
    else match FirstWhere(rows, IdIs(id))
      case None => Reply(ZeroUser, Some(NoRows))
      case Some(u) => Reply(u, None)
  }

  /** With unique ids, GetByID finds exactly the row stored under the id. */
  lemma GetByIDFindsTheRow(rows: seq<User>, nextId: int, u: User)
    requires Keyed(rows, UserId, nextId) && u in rows
    ensures GetByID(rows, u.id, false) == Reply(u, None)
  {
    FirstWhereKey(rows, UserId, nextId, IdIs(u.id), u.id);
  }

  function EmailIs(email: string): User -> bool {
    (u: User) => u.email == email
  }

  /** The first user whose stored email equals the lower-cased `email`. */
  function GetByEmail(rows: seq<User>, email: string, fault: bool): (r: Reply<User>)
    ensures r.err.Some? ==> r.value == ZeroUser
    ensures fault ==> r.err == Some(QueryFailed)
    ensures !fault ==> (r.err == None <==> exists x :: x in rows && x.email == ToLower(email))
    ensures !fault && r.err.Some? ==> r.err == Some(NoRows)
    ensures r.err == None ==> r.value in rows && r.value.email == ToLower(email)
  {
    if fault then Reply(ZeroUser, Some(QueryFailed))
    else match FirstWhere(rows, EmailIs(ToLower(email)))
      case None => Reply(ZeroUser, Some(NoRows))
      case Some(u) => Reply(u, None)
  }

  /** The lookup does not depend on the letter case of the address given. */
  lemma GetByEmailIgnoresCase(rows: seq<User>, email: string, fault: bool)
    ensures GetByEmail(rows, email, fault) == GetByEmail(rows, ToLower(email), fault)
  {
    ToLowerIdempotent(email);
  }

  /** The outcome of bcrypt's CompareHashAndPassword. */
  datatype HashCheck = Matches | Mismatched | CheckFailed

  /** Authenticate's `(id, hash, error)` triple. */
  datatype Login = Login(id: int, hash: string, err: Option<DbError>)

  /** Looks the user up by lower-cased email and checks the password against
      the stored hash with `compare(hash, password)`. */
  function Authenticate(rows: seq<User>, email: string, password: string,
                        compare: (string, string) -> HashCheck, fault: bool): (r: Login)
    ensures r.err == None <==>
              GetByEmail(rows, email, fault).err == None
              && compare(GetByEmail(rows, email, fault).value.password, password) == Matches
    ensures r.err == None ==>
              r.id == GetByEmail(rows, email, fault).value.id && r.hash == GetByEmail(rows, email, fault).value.password
    ensures r.err.Some? ==> r.id == 0 && r.hash == ""
    ensures GetByEmail(rows, email, fault).err.Some? ==> r.err == GetByEmail(rows, email, fault).err
    ensures GetByEmail(rows, email, fault).err == None
              && compare(GetByEmail(rows, email, fault).value.password, password) == Mismatched ==>
              r.err == Some(IncorrectPassword)
  {
    if fault then Login(0, "", Some(QueryFailed))
    else match FirstWhere(rows, EmailIs(ToLower(email)))
      case None => Login(0, "", Some(NoRows))
      case Some(u) =>
        match compare(u.password, password)
        case Mismatched => Login(0, "", Some(IncorrectPassword))
        case CheckFailed => Login(0, "", Some(HashFailed))
        case Matches => Login(u.id, u.password, None)
  }

  /** Because Update has no WHERE clause, after it every user carries the
      same email, so a lookup by that email matches every row and yields a
      single one of them: only that user can sign in, whatever password the
      others give. Which row the database picks is not fixed without ORDER
      BY; the model's lookup takes the first in table order. */
  lemma {:induction false} AfterUpdateOnlyFirstUserIsFound(rows: seq<User>, user: User)
    requires rows != [] && ToLower(user.email) == user.email
    ensures forall u :: u in OverwriteAll(rows, user) ==> EmailIs(user.email)(u)
    ensures GetByEmail(OverwriteAll(rows, user), user.email, false).err == None
    ensures GetByEmail(OverwriteAll(rows, user), user.email, false).value in OverwriteAll(rows, user)
    ensures GetByEmail(OverwriteAll(rows, user), user.email, false) == Reply(OverwriteAll(rows, user)[0], None)
    ensures forall compare: (string, string) -> HashCheck, password ::
              Authenticate(OverwriteAll(rows, user), user.email, password, compare, false).err == None ==>
              Authenticate(OverwriteAll(rows, user), user.email, password, compare, false).id == rows[0].id
  {
    var after := OverwriteAll(rows, user);
    assert after[0] in after && EmailIs(user.email)(after[0]);
    assert Where(after, EmailIs(user.email))[0] == after[0] by {
      assert after == [after[0]] + after[1..];
    }
  }

  /** And when the email given to Update has an upper-case letter, nobody
      can be found by email any more: lookups lower-case the address, the
      stored one is not. */
  lemma AfterUpdateWithUpperCaseEmailNobodyIsFound(rows: seq<User>, user: User, email: string)
    requires exists i :: 0 <= i < |user.email| && IsUpper(user.email[i])
    ensures GetByEmail(OverwriteAll(rows, user), email, false) == Reply(ZeroUser, Some(NoRows))
  {
    var after := OverwriteAll(rows, user);
    var i :| 0 <= i < |user.email| && IsUpper(user.email[i]);
    forall x | x in after ensures x.email != ToLower(email) {
      var k :| 0 <= k < |after| && after[k] == x;
      assert x.email == user.email;
      if |ToLower(email)| == |user.email| {
        assert !IsUpper(ToLower(email)[i]);
      }
    }
  }
}
