/** The `users` table and the SQL statements the repository runs against it.
    Each statement is one atomic step on an in-memory table keyed by the `id` column. */
module UserRepository {
  import opened Options
  import opened Time

  /** A column value as the database driver returns it: SQL NULL or a value. */
  datatype DbValue<T> = DbNull | Val(value: T)

  /** One row of `users`, column by column; `username`, `email`, `password_hash`,
      `is_active` and `created_at` are read without a NULL check, so they are never NULL. */
  datatype Row = Row(
    id: int,
    username: string,
    email: string,
    passwordHash: string,
    refreshToken: DbValue<string>,
    refreshTokenExpiryTime: DbValue<Instant>,
    isActive: bool,
    createdAt: Instant,
    updatedAt: DbValue<Instant>,
    role: DbValue<string>)

  /** The `User` entity the repository hands to the service. */
  datatype User = User(
    id: int,
    username: string,
    email: string,
    passwordHash: string,
    refreshToken: Option<string>,
    refreshTokenExpiryTime: Option<Instant>,
    isActive: bool,
    createdAt: Instant,
    updatedAt: Option<Instant>,
    role: Option<string>)

  /** The table: each row under the value of its `id` column. */
  type Table = map<int, Row>

  predicate WellKeyed(rows: Table)
  {
    forall id :: id in rows ==> rows[id].id == id
  }

  /** `reader.IsDBNull(column) ? null : reader.GetX(column)`. */
  function FromDb<T>(v: DbValue<T>): (r: Option<T>)
    ensures r.None? <==> v.DbNull?
    ensures v.Val? ==> r == Some(v.value)
  {
    match v
    case DbNull => None
    case Val(x) => Some(x)
  }

  /** `(object?)x ?? DBNull.Value`. */
  function ToDb<T>(o: Option<T>): (v: DbValue<T>)
    ensures FromDb(v) == o
  {
    match o
    case None => DbNull
    case Some(x) => Val(x)
  }

  /** `ReadUserAsync`: no row yields null; otherwise every column is copied into
      the field of the same name, and a NULL column becomes an absent value. */
  function ReadUser(row: Option<Row>): (u: Option<User>)
    ensures u.None? <==> row.None?
    ensures row.Some? ==> var r, v := row.value, u.value;
      && v.id == r.id && v.username == r.username && v.email == r.email
      && v.passwordHash == r.passwordHash && v.isActive == r.isActive && v.createdAt == r.createdAt
      && v.refreshToken == FromDb(r.refreshToken)
      && v.refreshTokenExpiryTime == FromDb(r.refreshTokenExpiryTime)
      && v.updatedAt == FromDb(r.updatedAt)
      && v.role == FromDb(r.role)
  {
    match row
    case None => None
    case Some(r) =>
      Some(User(r.id, r.username, r.email, r.passwordHash, FromDb(r.refreshToken),
                FromDb(r.refreshTokenExpiryTime), r.isActive, r.createdAt, FromDb(r.updatedAt), FromDb(r.role)))
  }

  // ---------------------------------------------------------------------------
  // SQL three-valued logic, for the conditions that touch nullable columns

  datatype SqlBool = SqlTrue | SqlFalse | SqlUnknown

  /** `column = @parameter`: UNKNOWN when the column is NULL. */
  function SqlEquals<T(==)>(column: DbValue<T>, parameter: T): SqlBool
  {
    match column
    case DbNull => SqlUnknown
    case Val(x) => if x == parameter then SqlTrue else SqlFalse
  }

  /** `column > @bound`: UNKNOWN when the column is NULL. */
  function SqlGreater(column: DbValue<Instant>, bound: Instant): SqlBool
  {
    match column
    case DbNull => SqlUnknown
    case Val(x) => if x > bound then SqlTrue else SqlFalse
  }

  function SqlAnd(a: SqlBool, b: SqlBool): SqlBool
  {
    if a == SqlFalse || b == SqlFalse then SqlFalse
    else if a == SqlTrue && b == SqlTrue then SqlTrue
    else SqlUnknown
  }

  /** The WHERE clause of `GetByRefreshTokenAsync`; WHERE keeps a row only when it is TRUE. */
  predicate HoldsLiveToken(row: Row, token: string, now: Instant)
  {
    SqlAnd(SqlEquals(row.refreshToken, token), SqlGreater(row.refreshTokenExpiryTime, now)) == SqlTrue
  }

  /** A row matches exactly when it stores that token and an expiry later than `now`;
      a NULL token or a NULL expiry never matches. */
  lemma LiveTokenMatch(row: Row, token: string, now: Instant)
    ensures HoldsLiveToken(row, token, now) <==>
      row.refreshToken == Val(token) && row.refreshTokenExpiryTime.Val? && row.refreshTokenExpiryTime.value > now
    ensures row.refreshToken.DbNull? || row.refreshTokenExpiryTime.DbNull? ==> !HoldsLiveToken(row, token, now)
  {
  }

  /** The WHERE clause of `UserExistsAsync` holds for some row, active or not. */
  predicate IdentityTaken(rows: Table, username: string, email: string)
  {
    exists id :: id in rows && (rows[id].username == username || rows[id].email == email)
  }

  /** Some row stores `token`, live or expired. */
  predicate TokenStored(rows: Table, token: string)
  {
    exists id :: id in rows && rows[id].refreshToken == Val(token)
  }

  // ---------------------------------------------------------------------------
  // INSERT and UPDATE, as functions from the old table to the new one

  /** The row `CreateUserAsync` inserts for `user` when the sequence hands out `id`:
      refresh token, its expiry and `updated_at` are NULL, a missing role is NULL. */
  function InsertedRow(user: User, id: int): (r: Row)
    ensures ReadUser(Some(r)) == Some(user.(id := id, refreshToken := None,
                                            refreshTokenExpiryTime := None, updatedAt := None))
  {
    Row(id, user.username, user.email, user.passwordHash, DbNull, DbNull,
        user.isActive, user.createdAt, DbNull, ToDb(user.role))
  }

  /** `UpdateRefreshTokenAsync`: on the row with that id, and nowhere else, the
      token, its expiry and `updated_at` take the given values. */
  function WithRefreshToken(rows: Table, id: int, token: string, expiry: Instant, now: Instant): (r: Table)
    ensures r.Keys == rows.Keys
    ensures forall k :: k in rows && k != id ==> r[k] == rows[k]
    ensures id in rows ==> r[id] == rows[id].(refreshToken := Val(token),
                                              refreshTokenExpiryTime := Val(expiry), updatedAt := Val(now))
  {
    if id in rows
    then rows[id := rows[id].(refreshToken := Val(token), refreshTokenExpiryTime := Val(expiry), updatedAt := Val(now))]
    else rows
  }

  /** `ClearRefreshTokenAsync`: on the row with that id, and nowhere else, the
      token and its expiry become NULL and `updated_at` becomes `now`. */
  function WithoutRefreshToken(rows: Table, id: int, now: Instant): (r: Table)
    ensures r.Keys == rows.Keys
    ensures forall k :: k in rows && k != id ==> r[k] == rows[k]
    ensures id in rows ==> r[id] == rows[id].(refreshToken := DbNull,
                                              refreshTokenExpiryTime := DbNull, updatedAt := Val(now))
  {
    if id in rows
    then rows[id := rows[id].(refreshToken := DbNull, refreshTokenExpiryTime := DbNull, updatedAt := Val(now))]
    else rows
  }

  // ---------------------------------------------------------------------------
  // Invariants the service keeps on the table

  /** No two rows share a username, and no two share an email. */
  predicate UniqueIdentities(rows: Table)
  {
    && (forall i, j :: i in rows && j in rows && rows[i].username == rows[j].username ==> i == j)
    && (forall i, j :: i in rows && j in rows && rows[i].email == rows[j].email ==> i == j)
  }

  /** No two rows store the same refresh token. */
  predicate UniqueRefreshTokens(rows: Table)
  {
    forall i, j :: i in rows && j in rows && rows[i].refreshToken.Val? && rows[i].refreshToken == rows[j].refreshToken ==> i == j
  }

  /** Inserting a row whose username and email are not in use, under a new id,
      keeps both uniqueness invariants. */
  lemma InsertKeepsUnique(rows: Table, user: User, id: int)
    requires UniqueIdentities(rows) && UniqueRefreshTokens(rows)
    requires id !in rows && !IdentityTaken(rows, user.username, user.email)
    ensures UniqueIdentities(rows[id := InsertedRow(user, id)])
    ensures UniqueRefreshTokens(rows[id := InsertedRow(user, id)])
  {
  }

  /** Storing a token no row holds keeps the invariants. */
  lemma WithRefreshTokenKeepsUnique(rows: Table, id: int, token: string, expiry: Instant, now: Instant)
    requires UniqueIdentities(rows) && UniqueRefreshTokens(rows) && !TokenStored(rows, token)
    ensures UniqueIdentities(WithRefreshToken(rows, id, token, expiry, now))
    ensures UniqueRefreshTokens(WithRefreshToken(rows, id, token, expiry, now))
  {
  }

  lemma WithoutRefreshTokenKeepsUnique(rows: Table, id: int, now: Instant)
    requires UniqueIdentities(rows) && UniqueRefreshTokens(rows)
    ensures UniqueIdentities(WithoutRefreshToken(rows, id, now))
    ensures UniqueRefreshTokens(WithoutRefreshToken(rows, id, now))
  {
  }

  /** Rotation: once the row that held `previous` stores a token no row held,
      `previous` matches no row at any time. */
  lemma RotationRetiresOldToken(rows: Table, id: int, previous: string, replacement: string,
                                expiry: Instant, now: Instant, later: Instant)
    requires UniqueRefreshTokens(rows)
    requires id in rows && rows[id].refreshToken == Val(previous) && !TokenStored(rows, replacement)
    ensures var after := WithRefreshToken(rows, id, replacement, expiry, now);
      forall k :: k in after ==> !HoldsLiveToken(after[k], previous, later)
  {
  }

  /** Rotation: until its expiry, the replacement token matches the rotated row and no other. */
  lemma RotatedTokenIsLive(rows: Table, id: int, replacement: string, expiry: Instant, now: Instant, later: Instant)
    requires id in rows && !TokenStored(rows, replacement) && later < expiry
    ensures var after := WithRefreshToken(rows, id, replacement, expiry, now);
      forall k :: k in after ==> (HoldsLiveToken(after[k], replacement, later) <==> k == id)
  {
  }

  /** After a clear, the row matches no token at any time. */
  lemma ClearedRowHoldsNothing(rows: Table, id: int, now: Instant, token: string, later: Instant)
    requires id in rows
    ensures !HoldsLiveToken(WithoutRefreshToken(rows, id, now)[id], token, later)
  {
  }

  /** Clearing twice: the second clear only moves `updated_at`. */
  lemma ClearTwice(rows: Table, id: int, first: Instant, second: Instant)
    ensures var once := WithoutRefreshToken(rows, id, first);
      WithoutRefreshToken(once, id, second) == WithoutRefreshToken(rows, id, second)
      && (id in rows ==> WithoutRefreshToken(once, id, second)[id] == once[id].(updatedAt := Val(second)))
  {
  }

  // ---------------------------------------------------------------------------
  // The table as the repository object reads and updates it

  class UserTable {
    /** The rows, by id. */
    var rows: Table
    /** The next value of the sequence behind the SERIAL `id` column. */
    var nextId: int

    ghost predicate Valid()
      reads this
    {
      && WellKeyed(rows)
      && 1 <= nextId
      && forall id :: id in rows ==> 1 <= id < nextId
    }

    /** An empty table whose sequence starts at 1. */
    constructor ()
      ensures Valid() && rows == map[] && nextId == 1
    {
      rows := map[];
      nextId := 1;
    }

    /** `GetByUsernameAsync`: a user whose username is `username`, or null when
        no row has it. Without ORDER BY, `LIMIT 1` may return any matching row. */
    method GetByUsername(username: string) returns (user: Option<User>)
      requires Valid()
      ensures user.None? <==> forall id :: id in rows ==> rows[id].username != username
      ensures user.Some? ==> user.value.id in rows && rows[user.value.id].username == username
                             && user == ReadUser(Some(rows[user.value.id]))
    {
      if exists id :: id in rows && rows[id].username == username {
        var id :| id in rows && rows[id].username == username;
        user := ReadUser(Some(rows[id]));
      } else {
        user := ReadUser(None);
      }
    }

    /** `GetByRefreshTokenAsync`: a user whose row holds `token` with an expiry
        after `now` (the database's `NOW()`), or null when no row does. */
    method GetByRefreshToken(token: string, now: Instant) returns (user: Option<User>)
      requires Valid()
      ensures user.None? <==> forall id :: id in rows ==> !HoldsLiveToken(rows[id], token, now)
      ensures user.Some? ==> user.value.id in rows && HoldsLiveToken(rows[user.value.id], token, now)
                             && user == ReadUser(Some(rows[user.value.id]))
    {
      if exists id :: id in rows && HoldsLiveToken(rows[id], token, now) {
        var id :| id in rows && HoldsLiveToken(rows[id], token, now);
        user := ReadUser(Some(rows[id]));
      } else {
        user := ReadUser(None);
      }
    }

    /** `UserExistsAsync`: `SELECT 1 ... LIMIT 1` yields a value exactly when some
        row, active or not, has that username or that email. */
    method UserExists(username: string, email: string) returns (found: bool)
      ensures found <==> exists id :: id in rows && (rows[id].username == username || rows[id].email == email)
    {
      found := IdentityTaken(rows, username, email);
    }

    /** `CreateUserAsync`: INSERT ... RETURNING id. The new id is drawn from the
        sequence, so it differs from every id in the table; no other row changes. */
    method CreateUser(user: User) returns (id: int)
      requires Valid()
      modifies this
      ensures Valid()
      ensures id !in old(rows) && 1 <= id
      ensures rows == old(rows)[id := InsertedRow(user, id)]
      ensures nextId > old(nextId)
    {
      id := nextId;
      nextId := nextId + 1;
      rows := rows[id := InsertedRow(user, id)];
    }

    /** `UpdateRefreshTokenAsync`, with `now` for `DateTime.UtcNow`. */
    method UpdateRefreshToken(userId: int, refreshToken: string, expiry: Instant, now: Instant)
      requires Valid()
      modifies this`rows
      ensures Valid()
      ensures rows == WithRefreshToken(old(rows), userId, refreshToken, expiry, now)
    {
      rows := WithRefreshToken(rows, userId, refreshToken, expiry, now);
    }

    /** `ClearRefreshTokenAsync`: true when the UPDATE touched a row, that is,
        exactly when a row with that id exists. */
    method ClearRefreshToken(userId: int, now: Instant) returns (cleared: bool)
      requires Valid()
      modifies this`rows
      ensures Valid()
      ensures cleared <==> userId in old(rows)
      ensures rows == WithoutRefreshToken(old(rows), userId, now)
    {
      var affected := if userId in rows then 1 else 0;
      rows := WithoutRefreshToken(rows, userId, now);
      cleared := affected > 0;
    }
  }
}
