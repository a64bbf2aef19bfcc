/** What the two repositories make of the attack inputs of the two test
    classes. On the vulnerable side the query text is computed
    exactly, and the SQLite answer an attack relies on is a hypothesis on
    the engine; what the Java code then makes of that answer is proved. On
    the secure side the same inputs are plain values compared with stored
    columns. */
module Comparison {
  import opened JavaLang
  import opened Jdbc
  import opened Users
  import Vulnerable = UserRepository
  import Secure = UserSecureRepository

  // ---------------------------------------------------------------------
  // Result rows an engine gives for `SELECT username ...`
  // ---------------------------------------------------------------------

  /** One row per name, holding it in a TEXT column named `username`. */
  function NameRows(names: seq<string>): (rows: seq<Row>)
    ensures |rows| == |names|
    ensures forall i :: 0 <= i < |names| ==> rows[i] == [Column("username", Text(names[i]))]
  {
    seq(|names|, i requires 0 <= i < |names| => [Column("username", Text(names[i]))])
  }

  function Usernames(users: seq<User>): (names: seq<string>)
    ensures |names| == |users| && forall i :: 0 <= i < |users| ==> names[i] == users[i].username
  {
    seq(|users|, i requires 0 <= i < |users| => users[i].username)
  }

  /** Reading such rows by name or by position gives back the names. */
  lemma {:induction false} NameRowsTexts(driver: Driver, names: seq<string>, reader: Reader)
    requires reader == ByPosition || reader == ByName("username")
    ensures ColumnTexts(driver, NameRows(names), reader) == Ok(names)
    decreases |names|
  {
    if names != [] {
      var init := names[..|names| - 1];
      assert NameRows(names)[..|names| - 1] == NameRows(init);
      NameRowsTexts(driver, init, reader);
      assert GetString(driver, NameRows(names)[|names| - 1], reader) == Ok(Some(names[|names| - 1]));
      assert names == init + [names[|names| - 1]];
    }
  }

  // ---------------------------------------------------------------------
  // getUserById("1' OR '1'='1")
  // ---------------------------------------------------------------------

  const TautologyId: string := "1' OR '1'='1"

  /** The input closes the quote and adds an always-true disjunct. */
  lemma TautologyQueryText()
    ensures Vulnerable.UserByIdQuery(TautologyId) == "SELECT username FROM users WHERE id = '1'" + " OR '1'='1'"
  {
  }

  /** When the engine answers the tautology with every stored username, the
      vulnerable lookup returns them all, and with two or more non-empty,
      comma-free names the answer contains a comma. */
  lemma TautologyExposesAllUsers(engine: Vulnerable.Engine, db: Database)
    requires engine.query(Vulnerable.UserByIdQuery(TautologyId), db) == Rows(NameRows(Usernames(db.users)))
    requires forall i :: 0 <= i < |db.users| ==> db.users[i].username != "" && ',' !in db.users[i].username
    ensures Vulnerable.UserByIdResult(engine, db, TautologyId) == Ok(Some(Accumulate(Usernames(db.users)))) || db.users == []
    ensures |db.users| >= 2 ==> (
      && Vulnerable.UserByIdResult(engine, db, TautologyId).Ok?
      && Vulnerable.UserByIdResult(engine, db, TautologyId).value.Some?
      && ',' in Vulnerable.UserByIdResult(engine, db, TautologyId).value.value)
  {
    var names := Usernames(db.users);
    var rows := NameRows(names);
    NameRowsTexts(engine.driver, names, ByName("username"));
    assert Collected(engine.driver, rows, ByName("username")) == Ok(Accumulate(names));
    if names != [] {
      assert |Accumulate(names)| > 0 by {
        AccumulateEmptyIff(names);
        assert names[0] != "";
      }
      assert Vulnerable.UserByIdResult(engine, db, TautologyId) == Ok(Some(Accumulate(names)));
      if |names| >= 2 {
        assert forall i :: 0 <= i < |names| ==> names[i] != "" && ',' !in names[i];
        CommaIffSeveral(names);
      }
    }
  }

  /** On the fixture of the vulnerable tests (admin, user, test) the answer
      is all three names. */
  lemma TautologyOnFixture(engine: Vulnerable.Engine, db: Database)
    requires db.users == [User(1, "admin", "secret123", "admin@example.com"),
                          User(2, "user", "password", "user@example.com"),
                          User(3, "test", "test123", "test@example.com")]
    requires engine.query(Vulnerable.UserByIdQuery(TautologyId), db) == Rows(NameRows(Usernames(db.users)))
    ensures Vulnerable.UserByIdResult(engine, db, TautologyId) == Ok(Some("admin, user, test"))
  {
    var names := Usernames(db.users);
    assert names == ["admin", "user", "test"];
    NameRowsTexts(engine.driver, names, ByName("username"));
    assert names == ["admin", "user"] + ["test"];
    assert ["admin", "user"] == ["admin"] + ["user"];
    assert ["admin"] == [] + ["admin"];
    AccumulateSnoc(["admin", "user"], "test");
    AccumulateSnoc(["admin"], "user");
    AccumulateSnoc([], "admin");
    assert Accumulate(names) == "admin, user, test";
    assert Collected(engine.driver, NameRows(names), ByName("username")) == Ok("admin, user, test");
  }

  /** An engine that answers a lookup by id with the rows the secure
      repository finds (at most one) makes the two repositories agree, except
      that an empty username reads as null on the vulnerable side. */
  lemma HonestByIdAgrees(engine: Vulnerable.Engine, db: Database, repo: Secure.SecureUserRepository, id: string)
    requires engine.query(Vulnerable.UserByIdQuery(id), db) ==
      Rows(NameRows(if repo.GetUserById(id).Some? then [repo.GetUserById(id).value] else []))
    ensures repo.GetUserById(id).None? ==> Vulnerable.UserByIdResult(engine, db, id) == Ok(None)
    ensures repo.GetUserById(id).Some? ==>
      Vulnerable.UserByIdResult(engine, db, id) == Ok(if repo.GetUserById(id).value == "" then None else repo.GetUserById(id))
  {
    var names := if repo.GetUserById(id).Some? then [repo.GetUserById(id).value] else [];
    NameRowsTexts(engine.driver, names, ByName("username"));
    if names != [] {
      assert names == [] + [names[0]];
      AccumulateSnoc([], names[0]);
      assert Accumulate(names) == names[0];
      assert Collected(engine.driver, NameRows(names), ByName("username")) == Ok(names[0]);
    }
  }

  // ---------------------------------------------------------------------
  // authenticate("admin' --", "wrongpassword") and the OR bypass
  // ---------------------------------------------------------------------

  const CommentUsername: string := "admin' --"
  const OrPayload: string := "' OR '1'='1"

  /** The comment turns the password test into a comment. */
  lemma CommentBypassQueryText()
    ensures Vulnerable.AuthenticateQuery(CommentUsername, "wrongpassword") ==
      "SELECT * FROM users WHERE username = 'admin'" + " --" + "' AND password = 'wrongpassword'"
  {
  }

  /** Both fields close their literal at once, so each comparison is with
      the empty string and is followed by an always-true `OR '1'='1'`. */
  lemma OrBypassQueryText()
    ensures Vulnerable.AuthenticateQuery(OrPayload, OrPayload) ==
      "SELECT * FROM users WHERE username = '" + "' OR '1'='1'" + " AND password = '" + "' OR '1'='1'"
  {
  }

  /** The vulnerable login succeeds as soon as the engine yields the admin
      row for the commented query; the secure login fails unless a row
      literally holds the payload as username and the wrong password. */
  lemma CommentBypass(engine: Vulnerable.Engine, db: Database, adminRow: Row, repo: Secure.SecureUserRepository)
    requires engine.query(Vulnerable.AuthenticateQuery(CommentUsername, "wrongpassword"), db) == Rows([adminRow])
    requires forall j :: 0 <= j < |repo.users| ==> repo.users[j].username != CommentUsername
    ensures Vulnerable.Authenticate(engine, db, CommentUsername, "wrongpassword") == Ok(true)
    ensures !repo.Authenticate(CommentUsername, "wrongpassword")
  {
    assert [adminRow] == [adminRow] + [];
  }

  // ---------------------------------------------------------------------
  // Second-order injection through createUser and getUserProfile
  // ---------------------------------------------------------------------

  /** The username both tests pass to `createUser`. */
  const StoredPayload: string := "hackerr'' or 1=1--"
  /** What SQLite stores for it: inside a quoted literal a doubled quote
      stands for one quote. */
  const StoredUsername: string := "hackerr' or 1=1--"

  /** The vulnerable INSERT puts the username between the quotes of the
      first VALUES literal, from index 54 on. */
  lemma InsertQuotesUsername(username: string, password: string, email: string)
    ensures OccursAt(Vulnerable.InsertQuery(username, password, email), "'" + username + "'", 54)
  {
    var q := Vulnerable.InsertQuery(username, password, email);
    var prefix := "INSERT INTO users (username, password, email) VALUES ('";
    var suffix := "', '" + password + "', '" + email + "')";
    assert |prefix| == 55 && prefix[54] == '\'' && suffix[0] == '\'';
    assert q[..55] == prefix && q[55 + |username|..] == suffix;
    assert q[54..56 + |username|] == [q[54]] + q[55..55 + |username|] + [q[55 + |username|]];
  }

  /** The full INSERT the second-order test sends. */
  lemma SecondOrderInsertQueryText()
    ensures Vulnerable.InsertQuery(StoredPayload, "password123", "hacker@example.com") ==
      "INSERT INTO users (username, password, email) VALUES ('" + "hackerr'' or 1=1--" + "', '" + "password123" + "', '" + "hacker@example.com" + "')"
  {
  }

  /** The payload, doubled quote included, sits inside that literal.
      `StoredUsername` is written by hand as the payload with its doubled
      quote collapsed to one, which is how SQLite reads the literal; the
      second clause only checks that hand-written text against the payload,
      since the reading of SQL literals is not modelled. */
  lemma SecondOrderInsertText()
    ensures OccursAt(Vulnerable.InsertQuery(StoredPayload, "password123", "hacker@example.com"), "'" + StoredPayload + "'", 54)
    ensures StoredUsername == StoredPayload[..8] + StoredPayload[9..]
  {
    InsertQuotesUsername(StoredPayload, "password123", "hacker@example.com");
    assert StoredPayload[..8] == "hackerr'";
    assert StoredPayload[9..] == " or 1=1--";
  }

  /** The stored username, spliced into the profile's second query, ends
      the literal early and adds an always-true disjunct. */
  lemma SecondOrderQueryText()
    ensures Vulnerable.EmailByUsernameQuery(StoredUsername) ==
      "SELECT email FROM users WHERE username = 'hackerr'" + " or 1=1--" + "'"
  {
  }

  // ---------------------------------------------------------------------
  // checkUserExists: boolean-based blind injection
  // ---------------------------------------------------------------------

  const BlindPayload: string := "admin' AND SUBSTRING(password,1,1)='s'--"

  /** The vulnerable count query ends the username literal after `admin`
      and adds the test on the first password character. */
  lemma BooleanBlindQueryText()
    ensures Vulnerable.CountByUsernameQuery(BlindPayload) ==
      "SELECT COUNT(*) as count FROM users WHERE username = '" + "admin' AND SUBSTRING(password,1,1)='s'--" + "'"
  {
  }

  /** The secure count compares the whole payload with stored usernames. */
  lemma BooleanBlindSecure(repo: Secure.SecureUserRepository)
    requires |repo.users| <= MaxInt32
    requires forall j :: 0 <= j < |repo.users| ==> repo.users[j].username != BlindPayload
    ensures !repo.CheckUserExists(BlindPayload)
  {
  }

  // ---------------------------------------------------------------------
  // getUserEmail: time-based blind injection
  // ---------------------------------------------------------------------

  /** The payload of the vulnerable test, calling the engine's `SLEEP`. */
  const SleepPayload: string := "1' AND SLEEP(3)--"
  /** The payload of the secure test. */
  const ConditionalSleepPayload: string := "1' AND IF(SUBSTRING(password,1,1)='s', SLEEP(5), 0)--"

  /** The vulnerable email query ends the id literal and calls `SLEEP`. */
  lemma TimeBlindQueryText()
    ensures Vulnerable.EmailByIdQuery(SleepPayload) == "SELECT email FROM users WHERE id = '1'" + " AND SLEEP(3)--" + "'"
  {
  }

  /** The secure lookup compares the whole payload with the ids. */
  lemma TimeBlindSecure(repo: Secure.SecureUserRepository)
    requires forall j :: 0 <= j < |repo.users| ==> !repo.rules.idEquals(ConditionalSleepPayload, repo.users[j].id)
    ensures repo.GetUserEmail(ConditionalSleepPayload) == UserNotFound
  {
  }

  // ---------------------------------------------------------------------
  // searchUserByName: UNION-based injection
  // ---------------------------------------------------------------------

  const UnionPayload: string := "' UNION SELECT credit_card FROM sensitive_data--"

  /** The vulnerable search query ends the LIKE literal and appends a
      second SELECT over `sensitive_data`. */
  lemma UnionQueryText()
    ensures Vulnerable.SearchQuery(UnionPayload) ==
      "SELECT username FROM users WHERE username LIKE '%" + "' UNION SELECT credit_card FROM sensitive_data--" + "%'"
  {
  }

  /** The vulnerable search reads column 1 of every row, whatever the column
      is called: any credit card number the UNION brings back is in the
      answer. */
  lemma UnionLeaksCreditCard(engine: Vulnerable.Engine, db: Database, rows: seq<Row>, k: nat, card: string)
    requires engine.query(Vulnerable.SearchQuery(UnionPayload), db) == Rows(rows)
    requires k < |rows| && rows[k][0].value == Text(card) && card != ""
    ensures Vulnerable.SearchResult(engine, db, UnionPayload).Ok?
    ensures Contains(Vulnerable.SearchResult(engine, db, UnionPayload).value, card)
  {
    CollectedByPositionSucceeds(engine.driver, rows);
    ColumnTextsFails(engine.driver, rows, ByPosition);
    var texts := ColumnTexts(engine.driver, rows, ByPosition).value;
    ColumnTextsAt(engine.driver, rows, ByPosition, k);
    AccumulateContains(texts, k);
    AccumulateEmptyIff(texts);
  }

  /** The secure search of the same payload answers "No users found" when no
      stored username matches it. */
  lemma UnionSecure(repo: Secure.SecureUserRepository)
    requires forall j :: 0 <= j < |repo.users| ==>
      !repo.rules.like(repo.users[j].username, "%" + UnionPayload + "%")
    ensures repo.SearchResult(UnionPayload) == NoUsersFound
  {
    Secure.SearchNoMatch(repo, UnionPayload);
  }

  /** An engine that answers the search with the usernames the secure
      repository matches makes the two searches agree. */
  lemma HonestSearchAgrees(engine: Vulnerable.Engine, db: Database, repo: Secure.SecureUserRepository, username: string)
    requires engine.query(Vulnerable.SearchQuery(username), db) ==
      Rows(NameRows(Secure.LikeMatches(repo.users, repo.rules.like, "%" + username + "%")))
    ensures Vulnerable.SearchResult(engine, db, username) == Ok(repo.SearchResult(username))
  {
    NameRowsTexts(engine.driver, Secure.LikeMatches(repo.users, repo.rules.like, "%" + username + "%"), ByPosition);
  }

  // ---------------------------------------------------------------------
  // getUserPassword: error-based injection
  // ---------------------------------------------------------------------

  const ErrorPayload: string := "1'"

  /** The unbalanced quote makes the query fail, and the vulnerable method
      returns the engine's message as if it were a password. */
  lemma ErrorBasedLeak(engine: Vulnerable.Engine, db: Database, message: string)
    requires engine.query(Vulnerable.PasswordByIdQuery(ErrorPayload), db) == Failed(message)
    ensures Vulnerable.PasswordByIdQuery(ErrorPayload) == "SELECT password FROM users WHERE id = 1" + "'"
    ensures Vulnerable.GetUserPassword(engine, db, ErrorPayload) == Some(Vulnerable.SqlErrorPrefix + message)
  {
  }

  /** The secure method returns a stored password or null, never a message. */
  lemma SecurePasswordIsStored(repo: Secure.SecureUserRepository, userId: string)
    ensures repo.GetUserPassword(userId).Some? ==>
      exists j :: 0 <= j < |repo.users| && repo.GetUserPassword(userId).value == repo.users[j].password
  {
  }
}
