/** The facade `UserService` over the vulnerable repository. Seven of its
    methods hand their arguments to the repository unchanged and return
    (or rethrow) whatever it gives; `getUserProfile` first turns its string
    argument into an `int` with `Integer.parseInt`. */
module UserService {
  import opened JavaLang
  import opened Jdbc
  import opened Users
  import Repo = UserRepository

  method GetUserById(engine: Repo.Engine, db: Database, id: string) returns (r: Result<Option<string>>)
    ensures r == Repo.UserByIdResult(engine, db, id)
  {
    r := Repo.GetUserById(engine, db, id);
  }

  /** The repository's id, -1 included, and its exception, unchanged. */
  function CreateUser(engine: Repo.Engine, db: Database, username: string, password: string, email: string): (out: Repo.Insertion)
    ensures out == Repo.CreateUser(engine, db, username, password, email)
    ensures engine.update(Repo.InsertQuery(username, password, email), db).Updated? &&
            engine.query(Repo.LastInsertIdQuery, engine.update(Repo.InsertQuery(username, password, email), db).db) == Rows([])
            ==> out.id == Ok(-1)
  {
    Repo.CreateUser(engine, db, username, password, email)
  }

  function Authenticate(engine: Repo.Engine, db: Database, username: string, password: string): (r: Result<bool>)
    ensures r == Repo.Authenticate(engine, db, username, password)
  {
    Repo.Authenticate(engine, db, username, password)
  }

  /** What `getUserProfile(String)` returns or throws: a string that is not a
      decimal `int` throws NumberFormatException whatever the engine and the
      database hold; otherwise the repository's answer for that number. */
  function ProfileResult(engine: Repo.Engine, db: Database, userId: string): (r: Result<Option<string>>)
    ensures ParseInt(userId).Throws? ==> r == Throws(NumberFormatException(userId))
    ensures ParseInt(userId).Ok? ==> r == Repo.ProfileResult(engine, db, ParseInt(userId).value)
  {
    match ParseInt(userId)
    case Throws(e) => Throws(e)
    case Ok(n) => Repo.ProfileResult(engine, db, n)
  }

  method GetUserProfile(engine: Repo.Engine, db: Database, userId: string) returns (r: Result<Option<string>>)
    ensures r == ProfileResult(engine, db, userId)
  {
    var parsed := ParseInt(userId);
    if parsed.Throws? {
      return Throws(parsed.error);
    }
    r := Repo.GetUserProfile(engine, db, parsed.value);
  }

  /** `getUserProfile(String.valueOf(n))` asks the repository about exactly n. */
  lemma ProfileOfValueOf(engine: Repo.Engine, db: Database, n: Int32)
    ensures ProfileResult(engine, db, IntToString(n)) == Repo.ProfileResult(engine, db, n)
  {
    ParseIntOfIntToString(n);
  }

  function CheckUserExists(engine: Repo.Engine, db: Database, username: string): (r: Result<bool>)
    ensures r == Repo.CheckUserExists(engine, db, username)
  {
    Repo.CheckUserExists(engine, db, username)
  }

  function GetUserEmail(engine: Repo.Engine, db: Database, userId: string): (r: Result<Option<string>>)
    ensures r == Repo.GetUserEmail(engine, db, userId)
  {
    Repo.GetUserEmail(engine, db, userId)
  }

  method SearchUserByName(engine: Repo.Engine, db: Database, username: string) returns (r: Result<string>)
    ensures r == Repo.SearchResult(engine, db, username)
  {
    r := Repo.SearchUserByName(engine, db, username);
  }

  function GetUserPassword(engine: Repo.Engine, db: Database, userId: string): (r: Option<string>)
    ensures r == Repo.GetUserPassword(engine, db, userId)
  {
    Repo.GetUserPassword(engine, db, userId)
  }
}
