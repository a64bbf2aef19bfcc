/** The vulnerable data-access class `UserRepository`: every operation splices
    its string arguments into SQL text and hands the text to the engine.

    How SQLite reads that text (and so what injected SQL does) is not
    modelled: the engine is a parameter, an arbitrary function from query
    text and database contents to rows or an error. What is modelled exactly
    is everything the Java code does around it: the query templates, how the
    rows are folded into a value, the sentinels, and which exceptions reach
    the caller and which become data. */
module UserRepository {
  import opened JavaLang
  import opened Jdbc
  import opened Users

  /** What `executeUpdate` does to the database, or the SQLException it throws. */
  datatype UpdateOutcome = Updated(db: Database) | UpdateFailed(message: string)

  /** The SQLite engine behind a `Statement`, left uninterpreted. */
  datatype Engine = Engine(
    query: (string, Database) -> QueryOutcome,
    update: (string, Database) -> UpdateOutcome,
    driver: Driver)

  const SqlErrorPrefix: string := "SQL ERROR: "
  const LastInsertIdQuery: string := "SELECT last_insert_rowid()"

  // ---------------------------------------------------------------------
  // Query templates
  // ---------------------------------------------------------------------

  /** `q` is `prefix`, then `arg` character for character, then `suffix`:
      nothing in `arg` is quoted or escaped. */
  predicate Splices(q: string, prefix: string, arg: string, suffix: string)
  {
    && |q| == |prefix| + |arg| + |suffix|
    && q[..|prefix|] == prefix
    && q[|prefix|..|prefix| + |arg|] == arg
    && q[|prefix| + |arg|..] == suffix
  }

  function UserByIdQuery(id: string): (q: string)
    ensures Splices(q, "SELECT username FROM users WHERE id = '", id, "'")
  {
    "SELECT username FROM users WHERE id = '" + id + "'"
  }

  function InsertQuery(username: string, password: string, email: string): (q: string)
    ensures Splices(q, "INSERT INTO users (username, password, email) VALUES ('", username,
                    "', '" + password + "', '" + email + "')")
  {
    "INSERT INTO users (username, password, email) VALUES ('" + username + "', '" + password + "', '" + email + "')"
  }

  function AuthenticateQuery(username: string, password: string): (q: string)
    ensures Splices(q, "SELECT * FROM users WHERE username = '", username, "' AND password = '" + password + "'")
  {
    "SELECT * FROM users WHERE username = '" + username + "' AND password = '" + password + "'"
  }

  /** First step of the profile lookup: the id is an `int`, written unquoted. */
  function UsernameByIdQuery(userId: Int32): (q: string)
    ensures Splices(q, "SELECT username FROM users WHERE id = ", IntToString(userId), "")
  {
    "SELECT username FROM users WHERE id = " + IntToString(userId)
  }

  /** Second step of the profile lookup: the username read back from the
      database is spliced like any other input. */
  function EmailByUsernameQuery(storedUsername: string): (q: string)
    ensures Splices(q, "SELECT email FROM users WHERE username = '", storedUsername, "'")
  {
    "SELECT email FROM users WHERE username = '" + storedUsername + "'"
  }

  function CountByUsernameQuery(username: string): (q: string)
    ensures Splices(q, "SELECT COUNT(*) as count FROM users WHERE username = '", username, "'")
  {
    "SELECT COUNT(*) as count FROM users WHERE username = '" + username + "'"
  }

  function EmailByIdQuery(userId: string): (q: string)
    ensures Splices(q, "SELECT email FROM users WHERE id = '", userId, "'")
  {
    "SELECT email FROM users WHERE id = '" + userId + "'"
  }

  function SearchQuery(username: string): (q: string)
    ensures Splices(q, "SELECT username FROM users WHERE username LIKE '%", username, "%'")
  {
    "SELECT username FROM users WHERE username LIKE '%" + username + "%'"
  }

  /** The id is written unquoted, as if it were a number. */
  function PasswordByIdQuery(userId: string): (q: string)
    ensures Splices(q, "SELECT password FROM users WHERE id = ", userId, "")
  {
    "SELECT password FROM users WHERE id = " + userId
  }

  // ---------------------------------------------------------------------
  // Folding the rows
  // ---------------------------------------------------------------------

  /** `sb.length() > 0 ? sb.toString() : null`, after a loop that may have thrown. */
  function NullIfEmpty(text: Result<string>): (r: Result<Option<string>>)
    ensures text.Throws? ==> r == Throws(text.error)
    ensures text.Ok? ==> (r == Ok(None) <==> text.value == "")
    ensures text.Ok? && text.value != "" ==> r == Ok(Some(text.value))
  {
    match text
    case Throws(e) => Throws(e)
    case Ok(s) => Ok(if |s| > 0 then Some(s) else None)
  }

  /** `sb.length() > 0 ? sb.toString() : sentinel`, after a loop that may have thrown. */
  function SentinelIfEmpty(text: Result<string>, sentinel: string): (r: Result<string>)
    ensures text.Throws? ==> r == Throws(text.error)
    ensures text == Ok("") ==> r == Ok(sentinel)
    ensures text.Ok? && text.value != "" ==> r == text
  {
    match text
    case Throws(e) => Throws(e)
    case Ok(s) => Ok(if |s| > 0 then s else sentinel)
  }

  /** The loop's text read through `NullIfEmpty`: null exactly when every
      value is empty, and otherwise their join. */
  lemma NullIfEmptyJoins(driver: Driver, rows: seq<Row>, reader: Reader)
    requires ColumnTexts(driver, rows, reader).Ok?
    ensures NullIfEmpty(Collected(driver, rows, reader)).Ok?
    ensures NullIfEmpty(Collected(driver, rows, reader)).value.None? <==>
      forall i :: 0 <= i < |rows| ==> GetString(driver, rows[i], reader) == Ok(Some(""))
    ensures NullIfEmpty(Collected(driver, rows, reader)).value.Some? ==>
      NullIfEmpty(Collected(driver, rows, reader)).value.value ==
        Join(DropLeadingEmpty(ColumnTexts(driver, rows, reader).value))
  {
    CollectedIsJoin(driver, rows, reader);
    CollectedEmptyIff(driver, rows, reader);
  }

  // ---------------------------------------------------------------------
  // getUserById
  // ---------------------------------------------------------------------

  /** What `getUserById` returns or throws: a failed query's SQLException
      propagates; otherwise the rows' usernames go through the loop, and a
      username that cannot be read ends it with its SQLException. */
  function UserByIdResult(engine: Engine, db: Database, id: string): (r: Result<Option<string>>)
    ensures engine.query(UserByIdQuery(id), db).Failed? ==>
      r == Throws(SqlException(engine.query(UserByIdQuery(id), db).message))
    ensures engine.query(UserByIdQuery(id), db) == Rows([]) ==> r == Ok(None)
    ensures forall rows ::
      engine.query(UserByIdQuery(id), db) == Rows(rows) && ColumnTexts(engine.driver, rows, ByName("username")).Throws? ==>
      r == Throws(ColumnTexts(engine.driver, rows, ByName("username")).error)
  {
    match engine.query(UserByIdQuery(id), db)
    case Failed(m) => Throws(SqlException(m))
    case Rows(rows) => NullIfEmpty(Collected(engine.driver, rows, ByName("username")))
  }

  method GetUserById(engine: Engine, db: Database, id: string) returns (r: Result<Option<string>>)
    ensures r == UserByIdResult(engine, db, id)
  {
    var outcome := engine.query(UserByIdQuery(id), db);
    if outcome.Failed? {
      return Throws(SqlException(outcome.message));
    }
    var text := AppendAll(engine.driver, outcome.rows, ByName("username"));
    r := NullIfEmpty(text);
  }

  /** `getUserById` gives the usernames of the returned rows in row order,
      separated by ", " (empty names before the first non-empty one leave no
      trace), and null exactly when there is no row or every name is empty. */
  lemma UserByIdJoinsUsernames(engine: Engine, db: Database, id: string, rows: seq<Row>)
    requires engine.query(UserByIdQuery(id), db) == Rows(rows)
    requires ColumnTexts(engine.driver, rows, ByName("username")).Ok?
    ensures UserByIdResult(engine, db, id).Ok?
    ensures UserByIdResult(engine, db, id).value.None? <==>
      forall i :: 0 <= i < |rows| ==> GetString(engine.driver, rows[i], ByName("username")) == Ok(Some(""))
    ensures UserByIdResult(engine, db, id).value.Some? ==>
      UserByIdResult(engine, db, id).value.value ==
        Join(DropLeadingEmpty(ColumnTexts(engine.driver, rows, ByName("username")).value))
  {
    NullIfEmptyJoins(engine.driver, rows, ByName("username"));
  }

  /** A username that reads as a non-null, non-empty text without a comma. */
  predicate PlainName(v: Result<Option<string>>)
  {
    v.Ok? && v.value.Some? && v.value.value != "" && ',' !in v.value.value
  }

  /** With non-empty, comma-free usernames, a result containing a comma
      means the query returned at least two rows, and conversely. */
  lemma UserByIdCommaMeansSeveralRows(engine: Engine, db: Database, id: string, rows: seq<Row>)
    requires engine.query(UserByIdQuery(id), db) == Rows(rows) && rows != []
    requires forall i :: 0 <= i < |rows| ==> PlainName(GetString(engine.driver, rows[i], ByName("username")))
    ensures UserByIdResult(engine, db, id).Ok? && UserByIdResult(engine, db, id).value.Some?
    ensures ',' in UserByIdResult(engine, db, id).value.value <==> |rows| >= 2
  {
    var texts := PlainNamesTexts(engine.driver, rows);
    CommaIffSeveral(texts);
    var text := Accumulate(texts);
    assert |text| > 0 by {
      AccumulateEmptyIff(texts);
      assert texts[0] != "";
    }
    assert UserByIdResult(engine, db, id) == Ok(Some(text));
  }

  /** The usernames the loop appends when every row holds a plain name. */
  lemma PlainNamesTexts(driver: Driver, rows: seq<Row>) returns (texts: seq<string>)
    requires forall i :: 0 <= i < |rows| ==> PlainName(GetString(driver, rows[i], ByName("username")))
    ensures ColumnTexts(driver, rows, ByName("username")) == Ok(texts)
    ensures |texts| == |rows|
    ensures forall i :: 0 <= i < |texts| ==> texts[i] != "" && ',' !in texts[i]
  {
    ColumnTextsFails(driver, rows, ByName("username"));
    texts := ColumnTexts(driver, rows, ByName("username")).value;
    forall i | 0 <= i < |rows| ensures texts[i] != "" && ',' !in texts[i] {
      ColumnTextsAt(driver, rows, ByName("username"), i);
    }
  }

  // ---------------------------------------------------------------------
  // createUser
  // ---------------------------------------------------------------------

  /** The database after the call, and the `int` returned or the exception. */
  datatype Insertion = Insertion(db: Database, id: Result<Int32>)

  /** `createUser`: run the spliced INSERT, then `SELECT last_insert_rowid()`
      on the same statement; -1 when that query yields no row. */
  function CreateUser(engine: Engine, db: Database, username: string, password: string, email: string): (out: Insertion)
    ensures engine.update(InsertQuery(username, password, email), db).UpdateFailed? ==>
      out == Insertion(db, Throws(SqlException(engine.update(InsertQuery(username, password, email), db).message)))
    ensures engine.update(InsertQuery(username, password, email), db).Updated? ==>
      var after := engine.update(InsertQuery(username, password, email), db).db;
      && out.db == after
      && (out.id.Throws? <==> engine.query(LastInsertIdQuery, after).Failed?)
      && (engine.query(LastInsertIdQuery, after).Failed? ==>
            out.id == Throws(SqlException(engine.query(LastInsertIdQuery, after).message)))
      && (engine.query(LastInsertIdQuery, after) == Rows([]) ==> out.id == Ok(-1))
      && (forall row: Row, rest: seq<Row> :: engine.query(LastInsertIdQuery, after) == Rows([row] + rest) ==>
            out.id == GetInt(engine.driver, row, ByPosition))
  {
    match engine.update(InsertQuery(username, password, email), db)
    case UpdateFailed(m) => Insertion(db, Throws(SqlException(m)))
    case Updated(after) =>
      match engine.query(LastInsertIdQuery, after)
      case Failed(m) => Insertion(after, Throws(SqlException(m)))
      case Rows(rows) =>
        if rows == [] then Insertion(after, Ok(-1))
        else Insertion(after, GetInt(engine.driver, rows[0], ByPosition))
  }

  /** When the engine reports the new row's id k, `createUser` returns k
      (cut to 32 bits). */
  lemma CreateUserReturnsLastInsertId(engine: Engine, db: Database, username: string, password: string,
                                      email: string, after: Database, rows: seq<Row>, k: int)
    requires engine.update(InsertQuery(username, password, email), db) == Updated(after)
    requires engine.query(LastInsertIdQuery, after) == Rows(rows) && rows != [] && rows[0][0].value == Integer(k)
    ensures CreateUser(engine, db, username, password, email) == Insertion(after, Ok(ToInt32(k)))
    ensures MinInt32 <= k <= MaxInt32 ==> CreateUser(engine, db, username, password, email).id == Ok(k)
  {
  }

  // ---------------------------------------------------------------------
  // authenticate, checkUserExists, getUserEmail
  // ---------------------------------------------------------------------

  /** `authenticate`: true iff the spliced query yields a row. */
  function Authenticate(engine: Engine, db: Database, username: string, password: string): (r: Result<bool>)
    ensures r.Throws? <==> engine.query(AuthenticateQuery(username, password), db).Failed?
    ensures engine.query(AuthenticateQuery(username, password), db).Failed? ==>
      r == Throws(SqlException(engine.query(AuthenticateQuery(username, password), db).message))
    ensures r == Ok(true) <==> exists row: Row, rest :: engine.query(AuthenticateQuery(username, password), db) == Rows([row] + rest)
  {
    match engine.query(AuthenticateQuery(username, password), db)
    case Failed(m) => Throws(SqlException(m))
    case Rows(rows) =>
      assert rows != [] ==> rows == [rows[0]] + rows[1..];
      Ok(rows != [])
  }

  /** `checkUserExists`: the `count` column of the first row is positive;
      false when there is no row. */
  function CheckUserExists(engine: Engine, db: Database, username: string): (r: Result<bool>)
    ensures engine.query(CountByUsernameQuery(username), db).Failed? ==>
      r == Throws(SqlException(engine.query(CountByUsernameQuery(username), db).message))
    ensures engine.query(CountByUsernameQuery(username), db) == Rows([]) ==> r == Ok(false)
    ensures forall row: Row, rest :: engine.query(CountByUsernameQuery(username), db) == Rows([row] + rest) ==>
      r == match GetInt(engine.driver, row, ByName("count"))
           case Throws(e) => Throws(e)
           case Ok(count) => Ok(count > 0)
    ensures r == Ok(true) <==> exists row: Row, rest :: (
      && engine.query(CountByUsernameQuery(username), db) == Rows([row] + rest)
      && GetInt(engine.driver, row, ByName("count")).Ok?
      && GetInt(engine.driver, row, ByName("count")).value > 0)
  {
    match engine.query(CountByUsernameQuery(username), db)
    case Failed(m) => Throws(SqlException(m))
    case Rows(rows) =>
      if rows == [] then Ok(false)
      else
        assert rows == [rows[0]] + rows[1..];
        match GetInt(engine.driver, rows[0], ByName("count"))
        case Throws(e) => Throws(e)
        case Ok(count) => Ok(count > 0)
  }

  /** `getUserEmail`: the email of the first row (null if the column is
      NULL), or "User not found" when there is no row. */
  function GetUserEmail(engine: Engine, db: Database, userId: string): (r: Result<Option<string>>)
    ensures engine.query(EmailByIdQuery(userId), db).Failed? ==>
      r == Throws(SqlException(engine.query(EmailByIdQuery(userId), db).message))
    ensures engine.query(EmailByIdQuery(userId), db) == Rows([]) ==> r == Ok(Some(UserNotFound))
    ensures forall row: Row, rest :: engine.query(EmailByIdQuery(userId), db) == Rows([row] + rest) ==>
      r == GetString(engine.driver, row, ByName("email"))
    ensures r.Throws? ==> r.error.SqlException?
  {
    match engine.query(EmailByIdQuery(userId), db)
    case Failed(m) => Throws(SqlException(m))
    case Rows(rows) =>
      if rows == [] then Ok(Some(UserNotFound)) else GetString(engine.driver, rows[0], ByName("email"))
  }

  // ---------------------------------------------------------------------
  // getUserProfile
  // ---------------------------------------------------------------------

  /** What `getUserProfile(int)` returns or throws. The first query's
      SQLException propagates, and no row gives null. Reading the stored
      username may throw; a failure of the second query propagates too. */
  function ProfileResult(engine: Engine, db: Database, userId: Int32): (r: Result<Option<string>>)
    ensures engine.query(UsernameByIdQuery(userId), db).Failed? ==>
      r == Throws(SqlException(engine.query(UsernameByIdQuery(userId), db).message))
    ensures engine.query(UsernameByIdQuery(userId), db) == Rows([]) ==> r == Ok(None)
    ensures forall row: Row, rest ::
      engine.query(UsernameByIdQuery(userId), db) == Rows([row] + rest) ==>
      GetString(engine.driver, row, ByName("username")).Throws? ==>
      r == Throws(GetString(engine.driver, row, ByName("username")).error)
    ensures forall row: Row, rest ::
      engine.query(UsernameByIdQuery(userId), db) == Rows([row] + rest) ==>
      GetString(engine.driver, row, ByName("username")).Ok? ==>
      engine.query(EmailByUsernameQuery(JavaText(GetString(engine.driver, row, ByName("username")).value)), db).Failed? ==>
      r == Throws(SqlException(
        engine.query(EmailByUsernameQuery(JavaText(GetString(engine.driver, row, ByName("username")).value)), db).message))
  {
    match engine.query(UsernameByIdQuery(userId), db)
    case Failed(m) => Throws(SqlException(m))
    case Rows(rows) =>
      if rows == [] then Ok(None)
      else
        match GetString(engine.driver, rows[0], ByName("username"))
        case Throws(e) => Throws(e)
        case Ok(stored) =>
          match engine.query(EmailByUsernameQuery(JavaText(stored)), db)
          case Failed(m) => Throws(SqlException(m))
          case Rows(rows2) => NullIfEmpty(Collected(engine.driver, rows2, ByName("email")))
  }

  method GetUserProfile(engine: Engine, db: Database, userId: Int32) returns (r: Result<Option<string>>)
    ensures r == ProfileResult(engine, db, userId)
  {
    var outcome := engine.query(UsernameByIdQuery(userId), db);
    if outcome.Failed? {
      return Throws(SqlException(outcome.message));
    }
    if outcome.rows == [] {
      return Ok(None);
    }
    var stored := GetString(engine.driver, outcome.rows[0], ByName("username"));
    if stored.Throws? {
      return Throws(stored.error);
    }
    var outcome2 := engine.query(EmailByUsernameQuery(JavaText(stored.value)), db);
    if outcome2.Failed? {
      return Throws(SqlException(outcome2.message));
    }
    var emails := AppendAll(engine.driver, outcome2.rows, ByName("email"));
    r := NullIfEmpty(emails);
  }

  /** Second-order injection: once the first query yields a stored username
      s, the profile is whatever the engine makes of s spliced into the
      email query (a NULL username as the text "null"), joined like
      `getUserById`'s usernames. */
  lemma ProfileSplicesStoredUsername(engine: Engine, db: Database, userId: Int32,
                                     first: Row, rest: seq<Row>, stored: Option<string>, rows2: seq<Row>)
    requires engine.query(UsernameByIdQuery(userId), db) == Rows([first] + rest)
    requires GetString(engine.driver, first, ByName("username")) == Ok(stored)
    requires engine.query(EmailByUsernameQuery(JavaText(stored)), db) == Rows(rows2)
    requires ColumnTexts(engine.driver, rows2, ByName("email")).Ok?
    ensures ProfileResult(engine, db, userId).Ok?
    ensures ProfileResult(engine, db, userId).value.None? <==>
      forall i :: 0 <= i < |rows2| ==> GetString(engine.driver, rows2[i], ByName("email")) == Ok(Some(""))
    ensures ProfileResult(engine, db, userId).value.Some? ==>
      ProfileResult(engine, db, userId).value.value ==
        Join(DropLeadingEmpty(ColumnTexts(engine.driver, rows2, ByName("email")).value))
  {
    assert ([first] + rest)[0] == first;
    assert ProfileResult(engine, db, userId) == NullIfEmpty(Collected(engine.driver, rows2, ByName("email")));
    NullIfEmptyJoins(engine.driver, rows2, ByName("email"));
  }

  /** An email of the second query that cannot be read ends the profile with
      its SQLException. */
  lemma ProfileEmailReadFails(engine: Engine, db: Database, userId: Int32,
                              first: Row, rest: seq<Row>, stored: Option<string>, rows2: seq<Row>)
    requires engine.query(UsernameByIdQuery(userId), db) == Rows([first] + rest)
    requires GetString(engine.driver, first, ByName("username")) == Ok(stored)
    requires engine.query(EmailByUsernameQuery(JavaText(stored)), db) == Rows(rows2)
    requires ColumnTexts(engine.driver, rows2, ByName("email")).Throws?
    ensures ProfileResult(engine, db, userId) == Throws(ColumnTexts(engine.driver, rows2, ByName("email")).error)
    ensures ProfileResult(engine, db, userId).error.SqlException?
  {
    assert ([first] + rest)[0] == first;
  }

  // ---------------------------------------------------------------------
  // searchUserByName
  // ---------------------------------------------------------------------

  /** What `searchUserByName` returns or throws: the first column of every
      row, whatever its name, joined; "No users found" when that is empty. */
  function SearchResult(engine: Engine, db: Database, username: string): (r: Result<string>)
    ensures engine.query(SearchQuery(username), db).Failed? ==>
      r == Throws(SqlException(engine.query(SearchQuery(username), db).message))
    ensures engine.query(SearchQuery(username), db) == Rows([]) ==> r == Ok(NoUsersFound)
  {
    match engine.query(SearchQuery(username), db)
    case Failed(m) => Throws(SqlException(m))
    case Rows(rows) => SentinelIfEmpty(Collected(engine.driver, rows, ByPosition), NoUsersFound)
  }

  method SearchUserByName(engine: Engine, db: Database, username: string) returns (r: Result<string>)
    ensures r == SearchResult(engine, db, username)
  {
    var outcome := engine.query(SearchQuery(username), db);
    if outcome.Failed? {
      return Throws(SqlException(outcome.message));
    }
    var text := AppendAll(engine.driver, outcome.rows, ByPosition);
    r := SentinelIfEmpty(text, NoUsersFound);
  }

  /** The search fails only when the query does; otherwise it returns the
      first-column texts joined by ", ", or "No users found" exactly when
      every one of them is empty. */
  lemma SearchJoinsFirstColumn(engine: Engine, db: Database, username: string, rows: seq<Row>)
    requires engine.query(SearchQuery(username), db) == Rows(rows)
    ensures ColumnTexts(engine.driver, rows, ByPosition).Ok?
    ensures SearchResult(engine, db, username).Ok?
    ensures (forall i :: 0 <= i < |rows| ==> GetString(engine.driver, rows[i], ByPosition) == Ok(Some(""))) ==>
      SearchResult(engine, db, username) == Ok(NoUsersFound)
    ensures !(forall i :: 0 <= i < |rows| ==> GetString(engine.driver, rows[i], ByPosition) == Ok(Some(""))) ==>
      SearchResult(engine, db, username) ==
        Ok(Join(DropLeadingEmpty(ColumnTexts(engine.driver, rows, ByPosition).value)))
  {
    CollectedByPositionSucceeds(engine.driver, rows);
    assert ColumnTexts(engine.driver, rows, ByPosition).Ok?;
    var text := Accumulate(ColumnTexts(engine.driver, rows, ByPosition).value);
    assert SearchResult(engine, db, username) == Ok(if |text| > 0 then text else NoUsersFound);
    CollectedIsJoin(engine.driver, rows, ByPosition);
    CollectedEmptyIff(engine.driver, rows, ByPosition);
  }

  // ---------------------------------------------------------------------
  // getUserPassword
  // ---------------------------------------------------------------------

  /** `getUserPassword` never throws: every SQLException, from the query or
      from reading the column, is returned as "SQL ERROR: " + its message.
      Otherwise the first row's password, or null when there is no row. */
  function GetUserPassword(engine: Engine, db: Database, userId: string): (r: Option<string>)
    ensures engine.query(PasswordByIdQuery(userId), db).Failed? ==>
      r == Some(SqlErrorPrefix + engine.query(PasswordByIdQuery(userId), db).message)
    ensures engine.query(PasswordByIdQuery(userId), db) == Rows([]) ==> r == None
    ensures forall row: Row, rest :: engine.query(PasswordByIdQuery(userId), db) == Rows([row] + rest) ==>
      r == match GetString(engine.driver, row, ByName("password"))
           case Throws(e) => Some(SqlErrorPrefix + e.message)
           case Ok(password) => password
  {
    match engine.query(PasswordByIdQuery(userId), db)
    case Failed(m) => Some(SqlErrorPrefix + m)
    case Rows(rows) =>
      if rows == [] then None
      else
        match GetString(engine.driver, rows[0], ByName("password"))
        case Throws(e) => Some(SqlErrorPrefix + e.message)
        case Ok(password) => password
  }
}
