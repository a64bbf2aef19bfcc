/** The stored data: the `users` table and the `sensitive_data` table that
    UNION-based injection reaches. */
module Users {

  /** Sentinels both repositories return. */
  const UserNotFound: string := "User not found"
  const NoUsersFound: string := "No users found"

  /** A row of `users`: the id is assigned by the engine, the other columns
      are stored as given (the password in clear text). */
  datatype User = User(id: int, username: string, password: string, email: string)

  /** A row of `sensitive_data`; nothing in the repositories writes it. */
  datatype SensitiveData = SensitiveData(id: int, secretKey: string, creditCard: string, ssn: string)

  /** The database file's contents, as the engine sees them. */
  datatype Database = Database(users: seq<User>, sensitiveData: seq<SensitiveData>)

  /** The `id INTEGER PRIMARY KEY AUTOINCREMENT` column: ids start at 1, rows
      are stored in increasing id order, and every id is below `nextId`, the
      id the next insert receives (ids are never reused). */
  ghost predicate ValidTable(users: seq<User>, nextId: int)
  {
    && 1 <= nextId
    && (forall i :: 0 <= i < |users| ==> 1 <= users[i].id < nextId)
    && (forall i, j :: 0 <= i < j < |users| ==> users[i].id < users[j].id)
  }
}
