/**
 * The SQLite `users` table: `id INTEGER PRIMARY KEY AUTOINCREMENT`,
 * `name TEXT NOT NULL`, `email TEXT NOT NULL UNIQUE`, `device_id`,
 * `last_login`, `qr_code`.
 *
 * The table is its rows in rowid order together with the largest rowid
 * ever handed out (the `sqlite_sequence` entry that AUTOINCREMENT keeps).
 * `INSERT OR REPLACE` deletes the row whose email clashes and inserts a new
 * row whose id is one past that counter, so ids are never reused.
 */
module Store {
  import opened Common

  /** The largest rowid SQLite hands out (2^63 - 1). */
  const MaxRowId: int := 0x7FFF_FFFF_FFFF_FFFF

  datatype Row = Row(
    id: int,
    name: string,
    email: string,
    deviceId: Option<string>,
    lastLogin: string,
    qrCode: Bytes)

  datatype Table = Table(rows: seq<Row>, lastId: int)

  /** The failures of the statements the application runs: the table has
      not been created, a NOT NULL column got NULL, or the rowid space is
      exhausted (SQLITE_FULL). */
  datatype DbError = NoSuchTable | NotNull(column: string) | Full

  predicate IdsIncreasing(rows: seq<Row>) {
    forall i, j :: 0 <= i < j < |rows| ==> rows[i].id < rows[j].id
  }

  predicate EmailsUnique(rows: seq<Row>) {
    forall i, j :: 0 <= i < j < |rows| ==> rows[i].email != rows[j].email
  }

  /** Ids in rowid order, none beyond the counter; emails unique. */
  predicate WellFormed(t: Table) {
    0 <= t.lastId <= MaxRowId
    && (forall i :: 0 <= i < |t.rows| ==> 1 <= t.rows[i].id <= t.lastId)
    && IdsIncreasing(t.rows)
    && EmailsUnique(t.rows)
  }

  /** The rows whose email differs from `email`, in their order. */
  function Without(rows: seq<Row>, email: string): (r: seq<Row>)
    ensures forall x :: x in r <==> x in rows && x.email != email
    ensures |r| <= |rows|
  {
    if |rows| == 0 then []
    else if rows[0].email == email then Without(rows[1..], email)
    else [rows[0]] + Without(rows[1..], email)
  }

  /** The number of rows with the given email. */
  function Count(rows: seq<Row>, email: string): nat {
    if |rows| == 0 then 0
    else (if rows[0].email == email then 1 else 0) + Count(rows[1..], email)
  }

  /** The first row, in rowid order, with the given email. */
  function Find(rows: seq<Row>, email: string): (r: Option<Row>)
    ensures r.Some? ==> r.value in rows && r.value.email == email
    ensures r.None? <==> forall x :: x in rows ==> x.email != email
  {
    if |rows| == 0 then None
    else if rows[0].email == email then Some(rows[0])
    else Find(rows[1..], email)
  }

  /** `INSERT OR REPLACE INTO users (name, email, device_id, last_login,
      qr_code)` on an existing table. The rowid is drawn before the
      constraints are checked; NOT NULL is checked column by column, and a
      NULL with no default aborts the statement. */
  function InsertOrReplace(t: Table, name: Option<string>, email: Option<string>,
                           deviceId: Option<string>, lastLogin: string, qrCode: Bytes): (r: Result<Table, DbError>)
    ensures r == Err(Full) <==> t.lastId >= MaxRowId
    ensures r == Err(NotNull("users.name")) <==> t.lastId < MaxRowId && name.None?
    ensures r == Err(NotNull("users.email")) <==> t.lastId < MaxRowId && name.Some? && email.None?
    ensures r.Ok? ==> (
      r.value.lastId == t.lastId + 1
      && forall x :: x in r.value.rows <==>
        (x in t.rows && x.email != email.value)
        || x == Row(t.lastId + 1, name.value, email.value, deviceId, lastLogin, qrCode))
  {
    if t.lastId >= MaxRowId then Err(Full)
    else if name.None? then Err(NotNull("users.name"))
    else if email.None? then Err(NotNull("users.email"))
    else
      var id := t.lastId + 1;
      Ok(Table(Without(t.rows, email.value) + [Row(id, name.value, email.value, deviceId, lastLogin, qrCode)], id))
  }

  /** The same statement on a database that may not hold the table. It
      fails exactly on a missing table, an exhausted rowid space, or a NULL
      name or email, and reports which. */
  function Insert(db: Option<Table>, name: Option<string>, email: Option<string>,
                  deviceId: Option<string>, lastLogin: string, qrCode: Bytes): (r: Result<Table, DbError>)
    ensures r.Ok? <==> db.Some? && db.value.lastId < MaxRowId && name.Some? && email.Some?
    ensures r == Err(NoSuchTable) <==> db.None?
    ensures r == Err(Full) <==> db.Some? && db.value.lastId >= MaxRowId
    ensures r == Err(NotNull("users.name")) <==> db.Some? && db.value.lastId < MaxRowId && name.None?
    ensures r == Err(NotNull("users.email")) <==> db.Some? && db.value.lastId < MaxRowId && name.Some? && email.None?
  {
    match db
    case None => Err(NoSuchTable)
    case Some(t) => InsertOrReplace(t, name, email, deviceId, lastLogin, qrCode)
  }

  lemma {:induction false} CountWithout(rows: seq<Row>, email: string)
    ensures Count(Without(rows, email), email) == 0
  {
    if |rows| > 0 {
      CountWithout(rows[1..], email);
    }
  }

  lemma {:induction false} CountAppend(a: seq<Row>, b: seq<Row>, email: string)
    ensures Count(a + b, email) == Count(a, email) + Count(b, email)
  {
    if |a| == 0 {
      assert a + b == b;
    } else {
      assert (a + b)[1..] == a[1..] + b;
      CountAppend(a[1..], b, email);
    }
  }

  /** In a well-formed table at most one row carries a given email. */
  lemma {:induction false} CountUnique(rows: seq<Row>, email: string)
    requires EmailsUnique(rows)
    ensures Count(rows, email) <= 1
    ensures Count(rows, email) == 1 <==> Find(rows, email).Some?
  {
    if |rows| > 0 {
      TailKeepsUnique(rows);
      CountUnique(rows[1..], email);
    }
  }

  /** A row placed before rows with larger ids and other emails keeps the
      order and the uniqueness. */
  lemma ConsKeepsOrder(h: Row, tail: seq<Row>)
    requires IdsIncreasing(tail) && EmailsUnique(tail)
    requires forall x :: x in tail ==> h.id < x.id && h.email != x.email
    ensures IdsIncreasing([h] + tail) && EmailsUnique([h] + tail)
  {
    var r := [h] + tail;
    assert forall j :: 1 <= j < |r| ==> r[j] == tail[j - 1];
    assert forall j :: 1 <= j < |r| ==> r[j] in tail;
  }

  /** The rows after the first keep the uniqueness, and the first email
      does not recur among them. */
  lemma TailKeepsUnique(rows: seq<Row>)
    requires |rows| > 0 && EmailsUnique(rows)
    ensures EmailsUnique(rows[1..])
    ensures forall x :: x in rows[1..] ==> rows[0].email != x.email
  {
    var tail := rows[1..];
    assert forall j :: 0 <= j < |tail| ==> tail[j] == rows[j + 1];
  }

  /** The rows after the first keep the order and the uniqueness. */
  lemma TailKeepsOrder(rows: seq<Row>)
    requires |rows| > 0 && IdsIncreasing(rows) && EmailsUnique(rows)
    ensures IdsIncreasing(rows[1..]) && EmailsUnique(rows[1..])
    ensures forall x :: x in rows[1..] ==> rows[0].id < x.id && rows[0].email != x.email
  {
    var tail := rows[1..];
    assert forall j :: 0 <= j < |tail| ==> tail[j] == rows[j + 1];
    TailKeepsUnique(rows);
  }

  /** Dropping rows keeps rowid order and unique emails. */
  lemma {:induction false} WithoutKeepsOrder(rows: seq<Row>, email: string)
    requires IdsIncreasing(rows) && EmailsUnique(rows)
    ensures IdsIncreasing(Without(rows, email)) && EmailsUnique(Without(rows, email))
  {
    if |rows| > 0 {
      TailKeepsOrder(rows);
      WithoutKeepsOrder(rows[1..], email);
      if rows[0].email != email {
        ConsKeepsOrder(rows[0], Without(rows[1..], email));
      }
    }
  }

  /** A row placed after rows with smaller ids and other emails keeps the
      order and the uniqueness. */
  lemma SnocKeepsOrder(init: seq<Row>, h: Row)
    requires IdsIncreasing(init) && EmailsUnique(init)
    requires forall x :: x in init ==> x.id < h.id && x.email != h.email
    ensures IdsIncreasing(init + [h]) && EmailsUnique(init + [h])
  {
    var r := init + [h];
    assert forall j :: 0 <= j < |init| ==> r[j] == init[j] && r[j] in init;
  }

  /** The upsert keeps the table well-formed. */
  lemma InsertKeepsWellFormed(t: Table, name: Option<string>, email: Option<string>,
                              deviceId: Option<string>, lastLogin: string, qrCode: Bytes)
    requires WellFormed(t)
    ensures var r := InsertOrReplace(t, name, email, deviceId, lastLogin, qrCode);
      r.Ok? ==> WellFormed(r.value)
  {
    var r := InsertOrReplace(t, name, email, deviceId, lastLogin, qrCode);
    if r.Ok? {
      var kept := Without(t.rows, email.value);
      var row := r.value.rows[|kept|];
      assert r.value.rows == kept + [row];
      WithoutKeepsOrder(t.rows, email.value);
      forall x | x in kept
        ensures 1 <= x.id < row.id && x.email != row.email
      {
        var i :| 0 <= i < |t.rows| && t.rows[i] == x;
      }
      SnocKeepsOrder(kept, row);
      assert forall i :: 0 <= i < |kept| ==> kept[i] in kept;
    }
  }

  /** After a successful upsert exactly one row carries the email: the new
      one, with a fresh id beyond every id allocated before, and the rows
      with other emails are those of before, in the same order. */
  lemma InsertReplacesRow(t: Table, name: string, email: string,
                          deviceId: Option<string>, lastLogin: string, qrCode: Bytes)
    requires WellFormed(t)
    requires InsertOrReplace(t, Some(name), Some(email), deviceId, lastLogin, qrCode).Ok?
    ensures var t' := InsertOrReplace(t, Some(name), Some(email), deviceId, lastLogin, qrCode).value;
      var row := Row(t.lastId + 1, name, email, deviceId, lastLogin, qrCode);
      Count(t'.rows, email) == 1
      && Find(t'.rows, email) == Some(row)
      && (forall x :: x in t.rows ==> x.id < row.id)
      && Without(t'.rows, email) == Without(t.rows, email)
  {
    var t' := InsertOrReplace(t, Some(name), Some(email), deviceId, lastLogin, qrCode).value;
    var row := Row(t.lastId + 1, name, email, deviceId, lastLogin, qrCode);
    var kept := Without(t.rows, email);
    assert t'.rows == kept + [row];
    CountWithout(t.rows, email);
    CountAppend(kept, [row], email);
    assert Count([row], email) == 1;
    FindAfter(kept, row);
    WithoutAppend(kept, row);
  }

  lemma {:induction false} FindAfter(kept: seq<Row>, row: Row)
    requires forall x :: x in kept ==> x.email != row.email
    ensures Find(kept + [row], row.email) == Some(row)
  {
    if |kept| == 0 {
      assert kept + [row] == [row];
    } else {
      assert (kept + [row])[1..] == kept[1..] + [row];
      FindAfter(kept[1..], row);
    }
  }

  lemma {:induction false} WithoutAppend(kept: seq<Row>, row: Row)
    requires forall x :: x in kept ==> x.email != row.email
    ensures Without(kept + [row], row.email) == kept
  {
    if |kept| == 0 {
      assert kept + [row] == [row];
    } else {
      assert (kept + [row])[1..] == kept[1..] + [row];
      WithoutAppend(kept[1..], row);
      assert [kept[0]] + kept[1..] == kept;
    }
  }

  /** Registering the same email twice: the second write wins and the
      table does not grow. */
  lemma ReRegistrationOverwrites(t: Table, name1: string, name2: string, email: string,
                                 device1: Option<string>, device2: Option<string>,
                                 login1: string, login2: string, qr1: Bytes, qr2: Bytes)
    requires WellFormed(t)
    requires InsertOrReplace(t, Some(name1), Some(email), device1, login1, qr1).Ok?
    requires InsertOrReplace(InsertOrReplace(t, Some(name1), Some(email), device1, login1, qr1).value,
                             Some(name2), Some(email), device2, login2, qr2).Ok?
    ensures var t1 := InsertOrReplace(t, Some(name1), Some(email), device1, login1, qr1).value;
      var t2 := InsertOrReplace(t1, Some(name2), Some(email), device2, login2, qr2).value;
      |t2.rows| == |t1.rows|
      && Find(t2.rows, email) == Some(Row(t1.lastId + 1, name2, email, device2, login2, qr2))
  {
    var t1 := InsertOrReplace(t, Some(name1), Some(email), device1, login1, qr1).value;
    InsertReplacesRow(t, name1, email, device1, login1, qr1);
    InsertKeepsWellFormed(t, Some(name1), Some(email), device1, login1, qr1);
    InsertReplacesRow(t1, name2, email, device2, login2, qr2);
    WithoutDropsCount(t1.rows, email);
  }

  /** Dropping the rows with an email removes exactly as many rows as
      carry it. */
  lemma {:induction false} WithoutDropsCount(rows: seq<Row>, email: string)
    ensures |Without(rows, email)| + Count(rows, email) == |rows|
  {
    if |rows| > 0 {
      WithoutDropsCount(rows[1..], email);
    }
  }

  /** `(name, email, device_id, last_login)`, a row of
      `get_user_by_email`. */
  datatype UserInfo = UserInfo(name: string, email: string, deviceId: Option<string>, lastLogin: string)

  /** `(id, name, email, device_id, last_login)`, a row of
      `fetch_all_users`; the QR image is not selected. */
  datatype Summary = Summary(id: int, name: string, email: string, deviceId: Option<string>, lastLogin: string)

  function InfoOf(x: Row): UserInfo {
    UserInfo(x.name, x.email, x.deviceId, x.lastLogin)
  }

  function SummaryOf(x: Row): Summary {
    Summary(x.id, x.name, x.email, x.deviceId, x.lastLogin)
  }

  /** `get_user_by_email`: the user with that email if there is one; the
      query fails when the table does not exist. */
  function GetUserByEmail(db: Option<Table>, email: string): (r: Result<Option<UserInfo>, DbError>)
    ensures r.Err? <==> db.None?
    ensures r.Err? ==> r.error == NoSuchTable
    ensures r.Ok? ==> (r.value.Some? <==> exists x :: x in db.value.rows && x.email == email)
    ensures r.Ok? && r.value.Some? ==>
      (r.value.value.email == email && exists x :: x in db.value.rows && InfoOf(x) == r.value.value)
  {
    match db
    case None => Err(NoSuchTable)
    case Some(t) =>
      match Find(t.rows, email)
      case None => Ok(None)
      case Some(x) => Ok(Some(InfoOf(x)))
  }

  /** `fetch_all_users`: every row without its image, in rowid order. */
  function FetchAllUsers(db: Option<Table>): (r: Result<seq<Summary>, DbError>)
    ensures r.Err? <==> db.None?
    ensures r.Err? ==> r.error == NoSuchTable
    ensures r.Ok? ==> (
      |r.value| == |db.value.rows|
      && forall i :: 0 <= i < |r.value| ==> r.value[i] == SummaryOf(db.value.rows[i]))
  {
    match db
    case None => Err(NoSuchTable)
    case Some(t) => Ok(Summaries(t.rows))
  }

  function Summaries(rows: seq<Row>): (s: seq<Summary>)
    ensures |s| == |rows|
    ensures forall i :: 0 <= i < |rows| ==> s[i] == SummaryOf(rows[i])
  {
    if |rows| == 0 then [] else [SummaryOf(rows[0])] + Summaries(rows[1..])
  }

  /** The listing holds every row exactly once, in increasing id order,
      and nothing else. */
  lemma FetchAllListsEachRowOnce(t: Table)
    requires WellFormed(t)
    ensures var s := FetchAllUsers(Some(t)).value;
      (forall x :: x in t.rows ==> SummaryOf(x) in s)
      && (forall y :: y in s ==> exists x :: x in t.rows && SummaryOf(x) == y)
      && (forall i, j :: 0 <= i < j < |s| ==> s[i].id < s[j].id)
  {
    var s := Summaries(t.rows);
    forall x | x in t.rows
      ensures SummaryOf(x) in s
    {
      var i :| 0 <= i < |t.rows| && t.rows[i] == x;
      assert s[i] == SummaryOf(x);
    }
    forall y | y in s
      ensures exists x :: x in t.rows && SummaryOf(x) == y
    {
      var i :| 0 <= i < |s| && s[i] == y;
      assert t.rows[i] in t.rows;
    }
  }

  /** `SELECT qr_code FROM users WHERE email=?`: the stored image of the
      user with that email, if any. */
  function SelectQrCode(db: Option<Table>, email: string): (r: Result<Option<Bytes>, DbError>)
    ensures r.Err? <==> db.None?
    ensures r.Ok? && r.value.Some? <==> db.Some? && Find(db.value.rows, email).Some?
    ensures r.Ok? && r.value.Some? ==> r.value.value == Find(db.value.rows, email).value.qrCode
  {
    match db
    case None => Err(NoSuchTable)
    case Some(t) =>
      match Find(t.rows, email)
      case None => Ok(None)
      case Some(x) => Ok(Some(x.qrCode))
  }

  /** The database file with the `users` table as it stands, or without it
      before `init_db` has run. */
  class UsersDb {
    var created: bool
    var rows: seq<Row>
    var lastId: int

    function State(): Option<Table>
      reads this
    {
      if created then Some(Table(rows, lastId)) else None
    }

    ghost predicate Valid()
      reads this
    {
      created ==> WellFormed(Table(rows, lastId))
    }

    /** A fresh database file, without the table. */
    constructor()
      ensures Valid() && State() == None
    {
      created := false;
      rows := [];
      lastId := 0;
    }

    /** `init_db`: `CREATE TABLE IF NOT EXISTS` leaves an existing table as
        it is and otherwise creates it empty. */
    method InitDb()
      requires Valid()
      modifies this
      ensures Valid()
      ensures old(State()).Some? ==> State() == old(State())
      ensures old(State()).None? ==> State() == Some(Table([], 0))
    {
      if !created {
        created := true;
        rows := [];
        lastId := 0;
      }
    }

    /** The `INSERT OR REPLACE` of `add_user_and_generate_qr`: on success
        the table becomes the upserted one; on failure nothing changes. */
    method InsertOrReplaceUser(name: Option<string>, email: Option<string>, deviceId: Option<string>,
                               lastLogin: string, qrCode: Bytes) returns (err: Option<DbError>)
      requires Valid()
      modifies this
      ensures Valid()
      ensures match Insert(old(State()), name, email, deviceId, lastLogin, qrCode)
        case Ok(t) => err.None? && State() == Some(t)
        case Err(e) => err == Some(e) && State() == old(State())
    {
      var r := Insert(State(), name, email, deviceId, lastLogin, qrCode);
      match r
      case Err(e) =>
        err := Some(e);
      case Ok(t) =>
        InsertKeepsWellFormed(Table(rows, lastId), name, email, deviceId, lastLogin, qrCode);
        rows := t.rows;
        lastId := t.lastId;
        err := None;
    }
  }
}
