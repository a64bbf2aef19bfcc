# SQL injection demonstrator: the two user repositories and the service facade

This project models the data-access core of a small Java application that
shows SQL injection next to its cure. Both repositories answer the same
eight requests over a `users` table (id, username, password, email):
`getUserById`, `createUser`, `authenticate`, `getUserProfile`,
`checkUserExists`, `getUserEmail`, `searchUserByName` and `getUserPassword`.

- `UserRepository` is the vulnerable one. It splices every argument into
  the SQL text and runs it with a plain `Statement`.
- `UserSecureRepository` is the secure one. It binds every argument to a `?`
  placeholder of a `PreparedStatement`.
- `UserService` is a facade that passes its calls to `UserRepository`.
  Its `getUserProfile` first turns the id string into an `int` with
  `Integer.parseInt`.

## How it is modelled

- `java_lang.dfy` (`JavaLang`) holds the Java behaviour the code relies on:
  - nullable strings (`Option`) and the two exceptions callers see (`SqlException`, `NumberFormatException`);
  - the 32-bit `int` and the truncation `ResultSet.getInt` applies (`ToInt32`);
  - `String.valueOf(int)` (`IntToString`) and `Integer.parseInt` (`ParseInt`);
  - the StringBuilder fold that adds ", " only when the builder already holds text, then the value (`Accumulate`), with the reference join `Join` beside it.
- `jdbc.dfy` (`Jdbc`) models result rows and reading a column by name or by position (`GetString`, `GetInt`). It also holds the `while (rs.next())` loop shared by three lookups, as the method `AppendAll`, proved against the function `Collected`.
- `users.dfy` (`Users`) defines the stored rows, the sentinels and the invariant of an `AUTOINCREMENT` table (`ValidTable`).
- `user_repository.dfy` (`UserRepository`) is the vulnerable side:
  - Its query builders are functions returning exactly the Java templates. Each states that the argument sits verbatim between the fixed parts (`Splices`).
  - The engine is a parameter: arbitrary functions from query text and database contents to rows or an SQL error.
  - Everything Java does with the answer is modelled exactly: how rows are folded, the sentinels, which exceptions propagate, and which become data.
  - The three loop lookups are methods proved against specification functions. Lemmas state what those functions mean.
- `user_secure_repository.dfy` (`UserSecureRepository`) is the secure side:
  - A class `SecureUserRepository` holds the table in memory, as `users` (in id order) and `nextId`.
  - `CreateUser` is a method that appends one row.
  - The reads are functions with `reads this`. Each bound query becomes a filter over `users`.
  - `searchUserByName` is a loop method proved against `SearchResult`.
  - Two SQLite rules are abstract parameters (`SqliteRules`): comparing a bound string with the integer `id` column, and `LIKE`.
- `user_service.dfy` (`UserService`) models the facade.
- `comparison.dfy` (`Comparison`) states, for the attack inputs of the two test classes, what each repository makes of them. On the vulnerable side, the answer SQLite gives an injected query is a hypothesis on the engine. What the Java code then does with that answer is proved.

### Empty values

The joined lookups test the builder's length, not the row count, so:

- the result is also `null` or "No users found" when every value read is the empty string;
- empty values before the first non-empty one leave no trace, with no separator for them.

The model follows the code: `AccumulateIsJoin` proves the builder equals
`Join(DropLeadingEmpty(values))`. A NULL column appends the text `"null"`.

## Model

| member | source | states |
|---|---|---|
| `JavaLang.JavaText` | src/main/java/com/sqllib/repositories/UserRepository.java:27 | a null String appends as the text "null"; any other string as itself |
| `JavaLang.ToInt32` | src/main/java/com/sqllib/repositories/UserRepository.java:46 | the `int` read is congruent to the engine integer modulo 2^32 and equals it when it fits in 32 bits |
| `JavaLang.IntToString` | src/main/java/com/sqllib/repositories/UserRepository.java:72 | an `int` concatenated into text gives a non-empty decimal string |
| `JavaLang.ParseInt` | src/main/java/com/sqllib/services/UserService.java:32 | a failure is a NumberFormatException for that very input; a success means the text is an optional sign followed by at least one digit and nothing else; conversely digits, `+`digits or `-`digits (leading zeros allowed) parse to their value exactly when it lies in the `int` range, and throw otherwise |
| `JavaLang.ParseIntOfIntToString` | src/main/java/com/sqllib/services/UserService.java:32 | parsing the decimal text of any `int` gives that `int` back |
| `JavaLang.AccumulateSnoc` | src/main/java/com/sqllib/repositories/UserRepository.java:24-27 | one more value changes the builder by one iteration of the loop body: separator only when it already holds text, then the value |
| `JavaLang.AccumulateIsJoin` | src/main/java/com/sqllib/repositories/UserRepository.java:23-28 | the builder after the loop is the ", "-join of the appended values from the first non-empty one on |
| `JavaLang.AccumulateEmptyIff` | src/main/java/com/sqllib/repositories/UserRepository.java:30 | the builder is empty exactly when every appended value is empty |
| `JavaLang.AccumulateContains` | src/main/java/com/sqllib/repositories/UserRepository.java:155-160 | every appended value occurs in the builder's text |
| `JavaLang.CommaIffSeveral` | src/main/java/com/sqllib/repositories/UserRepository.java:23-28 | with non-empty, comma-free values, the text contains a comma exactly when at least two values were appended |
| `Jdbc.FindColumn` | src/main/java/com/sqllib/repositories/UserRepository.java:27 | the value of a column carrying the name with no earlier column of that name, i.e. the first; none exactly when no column has it |
| `Jdbc.GetString` | src/main/java/com/sqllib/repositories/UserRepository.java:27 | reading by position never fails, and a failure by name is an SQLException |
| `Jdbc.GetInt` | src/main/java/com/sqllib/repositories/UserRepository.java:46 | reading by position never fails, and a failure is an SQLException |
| `Jdbc.ColumnTexts` | src/main/java/com/sqllib/repositories/UserRepository.java:23-28 | on success, one text per row, and every row's column could be read; a failure is an SQLException |
| `Jdbc.ColumnTextsAt` | src/main/java/com/sqllib/repositories/UserRepository.java:27 | the i-th text is the i-th row's column, a null String appending as "null" |
| `Jdbc.ColumnTextsFails` | src/main/java/com/sqllib/repositories/UserRepository.java:22-29 | the loop throws exactly when some row's column cannot be read, and the exception is that of the first such row |
| `Jdbc.Collected` | src/main/java/com/sqllib/repositories/UserRepository.java:22-29 | the loop ends with a text exactly when every column read succeeds, and otherwise with an SQLException |
| `Jdbc.AppendAll` | src/main/java/com/sqllib/repositories/UserRepository.java:23-28 | the `while (rs.next())` loop leaves the builder equal to `Collected` of the rows, or throws the first row's read error |
| `Jdbc.CollectedByPositionSucceeds` | src/main/java/com/sqllib/repositories/UserRepository.java:159 | the loop reading column 1 by position cannot throw |
| `Jdbc.CollectedIsJoin` | src/main/java/com/sqllib/repositories/UserRepository.java:19-30 | the loop's text is the ", "-join of the row texts from the first non-empty one on |
| `Jdbc.CollectedEmptyIff` | src/main/java/com/sqllib/repositories/UserRepository.java:30 | the loop's text is empty exactly when every row's column reads as the empty string |
| `UserRepository.UserByIdQuery` | src/main/java/com/sqllib/repositories/UserRepository.java:17 | the id sits verbatim between `... WHERE id = '` and `'` |
| `UserRepository.InsertQuery` | src/main/java/com/sqllib/repositories/UserRepository.java:38 | the username sits verbatim after `... VALUES ('`, followed by the other two values in quotes |
| `UserRepository.AuthenticateQuery` | src/main/java/com/sqllib/repositories/UserRepository.java:57 | the username sits verbatim between `... WHERE username = '` and `' AND password = '<password>'` |
| `UserRepository.UsernameByIdQuery` | src/main/java/com/sqllib/repositories/UserRepository.java:72 | the first profile query holds the decimal text of the `int` id, unquoted |
| `UserRepository.EmailByUsernameQuery` | src/main/java/com/sqllib/repositories/UserRepository.java:82 | the second profile query holds the username read back from the database verbatim between quotes |
| `UserRepository.CountByUsernameQuery` | src/main/java/com/sqllib/repositories/UserRepository.java:108 | the username sits verbatim between the quotes of the COUNT query |
| `UserRepository.EmailByIdQuery` | src/main/java/com/sqllib/repositories/UserRepository.java:128 | the id sits verbatim between the quotes of the email query |
| `UserRepository.SearchQuery` | src/main/java/com/sqllib/repositories/UserRepository.java:149 | the input sits verbatim between `LIKE '%` and `%'` |
| `UserRepository.PasswordByIdQuery` | src/main/java/com/sqllib/repositories/UserRepository.java:174 | the id is written unquoted at the end of the password query |
| `UserRepository.NullIfEmpty` | src/main/java/com/sqllib/repositories/UserRepository.java:30 | a loop exception passes through; an empty builder gives null, and a non-empty one its text |
| `UserRepository.SentinelIfEmpty` | src/main/java/com/sqllib/repositories/UserRepository.java:162 | a loop exception passes through; an empty builder gives the sentinel, and a non-empty one its text |
| `UserRepository.UserByIdResult` | src/main/java/com/sqllib/repositories/UserRepository.java:16-31 | a failed query's SQLException propagates, no row gives null, and a username that cannot be read ends the loop with that read's SQLException |
| `UserRepository.GetUserById` | src/main/java/com/sqllib/repositories/UserRepository.java:16-31 | the method's loop returns `UserByIdResult`: the query's SQLException, or the folded usernames, or null when the builder is empty |
| `UserRepository.UserByIdJoinsUsernames` | src/main/java/com/sqllib/repositories/UserRepository.java:19-30 | the answer is the ", "-join of the rows' usernames, and null exactly when every username reads as empty (in particular, with no row) |
| `UserRepository.UserByIdCommaMeansSeveralRows` | src/main/java/com/sqllib/repositories/UserRepository.java:23-30 | with non-empty, comma-free usernames, the answer contains a comma exactly when at least two rows came back |
| `UserRepository.CreateUser` | src/main/java/com/sqllib/repositories/UserRepository.java:37-51 | an INSERT error leaves the database alone and propagates; otherwise the engine's new database is kept, the id query's own SQLException propagates with its message, no row gives -1, and a row gives its column 1 read with `getInt` |
| `UserRepository.CreateUserReturnsLastInsertId` | src/main/java/com/sqllib/repositories/UserRepository.java:44-47 | when `last_insert_rowid()` is k, the returned id is k cut to 32 bits, i.e. k itself when it fits |
| `UserRepository.Authenticate` | src/main/java/com/sqllib/repositories/UserRepository.java:56-64 | throws exactly when the spliced query fails, and then the engine's SQLException with its message; true exactly when it yields at least one row |
| `UserRepository.CheckUserExists` | src/main/java/com/sqllib/repositories/UserRepository.java:105-118 | a failed query's SQLException propagates; false when there is no row; otherwise the first row's `count`, read with `getInt`, is compared with 0, and a read error propagates; true exactly when that count is positive |
| `UserRepository.GetUserEmail` | src/main/java/com/sqllib/repositories/UserRepository.java:125-138 | a failed query's SQLException propagates; "User not found" when there is no row, else the first row's email as `getString` reads it; only SQLExceptions escape |
| `UserRepository.ProfileResult` | src/main/java/com/sqllib/repositories/UserRepository.java:70-98 | the first query's SQLException propagates and no row gives null; an error reading the stored username propagates, and so does the second query's SQLException |
| `UserRepository.GetUserProfile` | src/main/java/com/sqllib/repositories/UserRepository.java:70-98 | the method (first lookup, then a loop over the second query's rows) returns `ProfileResult` |
| `UserRepository.ProfileSplicesStoredUsername` | src/main/java/com/sqllib/repositories/UserRepository.java:77-93 | once the first query yields a stored username (a NULL one as the text "null"), the profile is the ", "-join of whatever emails the engine returns for that username spliced into the second query, or null when they all read as empty |
| `UserRepository.ProfileEmailReadFails` | src/main/java/com/sqllib/repositories/UserRepository.java:87-92 | an email of the second query that cannot be read ends the profile with that read's SQLException |
| `UserRepository.SearchResult` | src/main/java/com/sqllib/repositories/UserRepository.java:145-163 | a failed query's SQLException propagates, and no row gives "No users found" |
| `UserRepository.SearchUserByName` | src/main/java/com/sqllib/repositories/UserRepository.java:145-163 | the method's loop returns `SearchResult`: column 1 of every row folded, or "No users found" |
| `UserRepository.SearchJoinsFirstColumn` | src/main/java/com/sqllib/repositories/UserRepository.java:151-162 | the search fails only when the query does; it returns "No users found" when every first-column text is empty, and otherwise their ", "-join |
| `UserRepository.GetUserPassword` | src/main/java/com/sqllib/repositories/UserRepository.java:173-189 | never throws: a query or column error comes back as "SQL ERROR: " + its message; null with no row; else the first row's password |
| `UserSecureRepository.Find` | src/main/java/com/sqllib/repositories/UserSecureRepository.java:23-24 | `rs.next()` stops at the first row satisfying the filter, or past the end when none does |
| `UserSecureRepository.CountNamed` | src/main/java/com/sqllib/repositories/UserSecureRepository.java:109-117 | `COUNT(*)` is positive exactly when some row holds the username |
| `UserSecureRepository.LikeMatches` | src/main/java/com/sqllib/repositories/UserSecureRepository.java:150-162 | the loop collects no more names than there are stored rows; which ones is stated by the lemmas below |
| `UserSecureRepository.LikeMatchesSound` | src/main/java/com/sqllib/repositories/UserSecureRepository.java:155-162 | every name the search collects is the username of a stored row that matches the pattern |
| `UserSecureRepository.LikeMatchesComplete` | src/main/java/com/sqllib/repositories/UserSecureRepository.java:155-162 | every stored row that matches contributes its username |
| `UserSecureRepository.LikeMatchesIsFilter` | src/main/java/com/sqllib/repositories/UserSecureRepository.java:157-163 | the names are exactly the usernames of the matching rows, one per matching row, in table order |
| `UserSecureRepository.LikeMatchesSnoc` | src/main/java/com/sqllib/repositories/UserSecureRepository.java:158-162 | one more row adds its username exactly when it matches, and nothing otherwise |
| `UserSecureRepository.LikeMatchesNone` | src/main/java/com/sqllib/repositories/UserSecureRepository.java:155-162 | when no row matches, nothing is collected |
| `UserSecureRepository.ProfileOf` | src/main/java/com/sqllib/repositories/UserSecureRepository.java:84-101 | null exactly when no row has the id; otherwise the email of the first row whose username is that of the first row with the id |
| `UserSecureRepository.SecureUserRepository.GetUserById` | src/main/java/com/sqllib/repositories/UserSecureRepository.java:16-29 | null exactly when no row's id matches the bound string; otherwise the username of the first matching row, a single stored value |
| `UserSecureRepository.SecureUserRepository.CreateUser` | src/main/java/com/sqllib/repositories/UserSecureRepository.java:35-53 | appends exactly one row with the three strings verbatim under the next id and keeps the table valid. The returned id is that id read as an `int`, so it is positive while it fits. The new row's profile is then found by its id in decimal |
| `UserSecureRepository.SecureUserRepository.Authenticate` | src/main/java/com/sqllib/repositories/UserSecureRepository.java:58-69 | true exactly when some row holds this username and this password, literally |
| `UserSecureRepository.SecureUserRepository.GetUserProfile` | src/main/java/com/sqllib/repositories/UserSecureRepository.java:76-102 | a non-numeric id throws NumberFormatException before any lookup; otherwise the two bound lookups of `ProfileOf` |
| `UserSecureRepository.SecureUserRepository.CheckUserExists` | src/main/java/com/sqllib/repositories/UserSecureRepository.java:108-122 | true exactly when some row holds the username literally (while the count fits in an `int`) |
| `UserSecureRepository.SecureUserRepository.GetUserEmail` | src/main/java/com/sqllib/repositories/UserSecureRepository.java:128-142 | "User not found" when no id matches, else the email of the first matching row |
| `UserSecureRepository.SecureUserRepository.SearchResult` | src/main/java/com/sqllib/repositories/UserSecureRepository.java:166 | the search never answers with an empty string |
| `UserSecureRepository.SecureUserRepository.SearchUserByName` | src/main/java/com/sqllib/repositories/UserSecureRepository.java:149-167 | the loop over the rows returns `SearchResult`: the matching usernames folded by the builder, or "No users found" |
| `UserSecureRepository.SecureUserRepository.GetUserPassword` | src/main/java/com/sqllib/repositories/UserSecureRepository.java:173-186 | null exactly when no id matches, else the password of the first matching row |
| `UserSecureRepository.SearchNoneFound` | src/main/java/com/sqllib/repositories/UserSecureRepository.java:166 | "No users found" when every matching username is empty or none matches |
| `UserSecureRepository.SearchJoinsMatches` | src/main/java/com/sqllib/repositories/UserSecureRepository.java:158-166 | otherwise the ", "-join of the matching usernames |
| `UserSecureRepository.SearchNoMatch` | src/main/java/com/sqllib/repositories/UserSecureRepository.java:149-167 | no stored username matches the pattern, the answer is "No users found" |
| `UserSecureRepository.SearchOnlyStoredUsernames` | src/main/java/com/sqllib/repositories/UserSecureRepository.java:149-167 | whatever the input, the answer is "No users found" or a join of usernames of stored rows that match |
| `UserSecureRepository.ProfileOfNewest` | src/test/java/com/sqllib/UserSecureServiceTests.java:120-130 | the profile of the most recently inserted row, looked up by its id in decimal, is found |
| `UserService.GetUserById` | src/main/java/com/sqllib/services/UserService.java:19-21 | the repository's answer or exception, unchanged |
| `UserService.CreateUser` | src/main/java/com/sqllib/services/UserService.java:23-25 | the repository's id, its exception and its -1 case, unchanged |
| `UserService.Authenticate` | src/main/java/com/sqllib/services/UserService.java:27-29 | the repository's answer or exception, unchanged |
| `UserService.ProfileResult` | src/main/java/com/sqllib/services/UserService.java:31-33 | a non-numeric id throws NumberFormatException whatever the engine and the database; a numeric one gets the repository's answer for that `int` |
| `UserService.GetUserProfile` | src/main/java/com/sqllib/services/UserService.java:31-33 | parses, then calls the repository's method, and returns `ProfileResult` |
| `UserService.ProfileOfValueOf` | src/main/java/com/sqllib/services/UserService.java:32 | `getUserProfile(String.valueOf(n))` asks the repository about exactly n |
| `UserService.CheckUserExists` | src/main/java/com/sqllib/services/UserService.java:35-37 | the repository's answer or exception, unchanged |
| `UserService.GetUserEmail` | src/main/java/com/sqllib/services/UserService.java:39-41 | the repository's answer or exception, unchanged |
| `UserService.SearchUserByName` | src/main/java/com/sqllib/services/UserService.java:43-45 | the repository's answer or exception, unchanged |
| `UserService.GetUserPassword` | src/main/java/com/sqllib/services/UserService.java:47-49 | the repository's answer, error text included, unchanged |
| `Comparison.NameRowsTexts` | src/main/java/com/sqllib/repositories/UserRepository.java:27 | rows holding names in a `username` column read back as those names, by name or by position |
| `Comparison.TautologyQueryText` | src/main/java/com/sqllib/repositories/UserRepository.java:17 | `1' OR '1'='1` closes the quote and adds an always-true disjunct to the query |
| `Comparison.TautologyExposesAllUsers` | src/test/java/com/sqllib/UserServiceTests.java:104-116 | an engine answering the tautology with every stored username makes `getUserById` return all of them joined; with two or more the answer contains a comma |
| `Comparison.TautologyOnFixture` | src/test/java/com/sqllib/UserServiceTests.java:56-58 | on the three-user fixture the answer is "admin, user, test" |
| `Comparison.HonestByIdAgrees` | src/main/java/com/sqllib/repositories/UserSecureRepository.java:16-29 | an engine returning the single matching row makes both repositories agree, except that an empty username is null on the vulnerable side |
| `Comparison.CommentBypassQueryText` | src/main/java/com/sqllib/repositories/UserRepository.java:57 | `admin' --` turns the password test into a comment |
| `Comparison.OrBypassQueryText` | src/test/java/com/sqllib/UserServiceTests.java:91-94 | `' OR '1'='1` in both fields produces an OR of always-true comparisons |
| `Comparison.CommentBypass` | src/test/java/com/sqllib/UserSecureServiceTests.java:90-96 | the vulnerable login succeeds once the engine yields the admin row; the secure login fails when no username equals the payload |
| `Comparison.InsertQuotesUsername` | src/main/java/com/sqllib/repositories/UserRepository.java:38 | every username lands between the quotes of the first VALUES literal, verbatim |
| `Comparison.SecondOrderInsertQueryText` | src/main/java/com/sqllib/repositories/UserRepository.java:38 | the full INSERT text for the second-order test's arguments: the payload sits inside the first VALUES literal, its doubled quote kept |
| `Comparison.SecondOrderInsertText` | src/test/java/com/sqllib/UserServiceTests.java:125-131 | the second-order payload, doubled quote included, sits inside that literal; `StoredUsername` is written by hand as the payload with `''` collapsed to one quote, which is what SQLite stores, and the clause only checks that hand-written text against the payload (SQLite's reading of the literal is not modelled) |
| `Comparison.SecondOrderQueryText` | src/main/java/com/sqllib/repositories/UserRepository.java:82 | the stored `hackerr' or 1=1--` spliced into the profile's second query ends the literal and adds `or 1=1` |
| `Comparison.BooleanBlindQueryText` | src/test/java/com/sqllib/UserServiceTests.java:167-169 | the full vulnerable COUNT query for the blind payload: the literal ends after `admin` and the password test follows, with the rest commented out |
| `Comparison.BooleanBlindSecure` | src/test/java/com/sqllib/UserSecureServiceTests.java:139-144 | the secure count of the blind payload is false when no username equals it |
| `Comparison.TimeBlindQueryText` | src/test/java/com/sqllib/UserServiceTests.java:182-185 | the vulnerable email query ends the id literal and carries the `SLEEP(3)` call |
| `Comparison.TimeBlindSecure` | src/test/java/com/sqllib/UserSecureServiceTests.java:151-159 | the secure lookup of the conditional-sleep payload answers "User not found" when no id matches it |
| `Comparison.UnionQueryText` | src/test/java/com/sqllib/UserServiceTests.java:214-217 | the full vulnerable search query for the UNION payload: the LIKE literal ends and a SELECT of `credit_card` from `sensitive_data` follows, with the rest commented out |
| `Comparison.UnionLeaksCreditCard` | src/test/java/com/sqllib/UserServiceTests.java:214-223 | any non-empty credit-card value the UNION brings back in column 1, whatever that column's label, appears in the vulnerable search's answer |
| `Comparison.UnionSecure` | src/test/java/com/sqllib/UserSecureServiceTests.java:188-201 | the secure search of the UNION payload is "No users found" when no username matches it |
| `Comparison.HonestSearchAgrees` | src/main/java/com/sqllib/repositories/UserSecureRepository.java:149-167 | an engine returning the matching usernames makes both searches give the same answer |
| `Comparison.ErrorBasedLeak` | src/test/java/com/sqllib/UserServiceTests.java:236-244 | `1'` leaves an unbalanced quote, and the engine's error message comes back as the password, after "SQL ERROR: " |
| `Comparison.SecurePasswordIsStored` | src/main/java/com/sqllib/repositories/UserSecureRepository.java:173-186 | the secure password lookup returns a stored password or null, never a message |

## Left out

- SQLite's reading of SQL text (tautologies, comments, UNION, SUBSTRING, doubled quotes) is not modelled, because the engine behind the vulnerable repository is a parameter. What an attack needs from SQLite appears as a hypothesis on that parameter in `Comparison`.
- `Comparison.SecondOrderInsertText`: the stored username `hackerr' or 1=1--` is written by hand as the payload with its doubled quote collapsed. The model does not derive it from the INSERT, because SQLite's reading of string literals is not modelled.
- `LIKE` matching and the comparison of a string bound against the INTEGER `id` column are abstract predicates (`SqliteRules`). This covers case folding, unescaped `%` and `_`, and text-to-number affinity.
- JDBC column labels are compared exactly. SQLite's driver ignores case.
- The message of the exception `getString`/`getInt` throws for a missing column is a parameter of the driver, as is the number `getInt` makes of a TEXT value. REAL values are not modelled.
- `Integer.parseInt` is modelled for ASCII digits only. Java also accepts other Unicode decimal digits.
- `UserRepository`: result rows come back in the order the engine returns them. On the secure side "first row" means first in id order. This is the order SQLite uses without `ORDER BY` on a rowid table, but SQL does not promise it.
- `UserRepository`: the database is a value, and `CreateUser` returns the engine's new database. The read operations return none, so they cannot change it. Connection lifetime and sharing are not modelled.
- `UserSecureRepository`: the secure side has no engine. Connection and engine failures, which would propagate as SQLException, are not modelled, so the secure reads never throw an SQLException. Only `getUserProfile`'s `Integer.parseInt` can throw, with NumberFormatException.
- `UserSecureRepository.SecureUserRepository.CreateUser`: the "Creating user failed, no ID obtained." exception cannot arise in the in-memory table, where every insert yields a key. The NOT NULL constraints are implicit, because the columns hold strings.
- `UserSecureRepository.SecureUserRepository.CheckUserExists`: the iff is stated only while the table has at most 2^31-1 rows, because `getInt` cuts the count to 32 bits.
- `src/main/java/com/sqllib/utils/DatabaseConnection.java` is not part of this model. It covers connection opening, pragmas, property loading and the `SLEEP` function, so durations (at least 2500 ms, under 100 ms) are not modelled.
- `src/main/java/com/sqllib/config/DataSourceDirectoryInitializer.java`, the controllers and the schema reset are not part of this model. They are directory creation, HTTP routing and timing.
- `src/main/java/com/sqllib/services/UserSecureService.java` is pure delegation. It is the identity over `SecureUserRepository` and is not written out.
- Concurrency between calls is not modelled.
