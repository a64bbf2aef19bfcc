/** The secure data-access class `UserSecureRepository`: every caller-supplied
    value is bound to a `?` placeholder of a prepared statement, so a query
    is a filter over the `users` table and no input changes its shape.

    The table is held in memory: the stored rows in id order and the id the
    next insert receives (the column is `INTEGER PRIMARY KEY AUTOINCREMENT`).
    Two SQLite rules the model does not spell out are parameters: how a
    string bound against the integer `id` column compares with an id, and
    how `LIKE` matches a value against a pattern. */
module UserSecureRepository {
  import opened JavaLang
  import opened Users

  /** `text = id` with `text` bound by `setString` against the INTEGER `id`
      column, and `value LIKE pattern`. */
  datatype SqliteRules = SqliteRules(idEquals: (string, int) -> bool, like: (string, string) -> bool)

  /** `k` is the first row satisfying `p`. */
  ghost predicate IsFirst(users: seq<User>, p: User -> bool, k: int)
  {
    0 <= k < |users| && p(users[k]) && forall j :: 0 <= j < k ==> !p(users[j])
  }

  /** The row `rs.next()` stops at first: the index of the first row
      satisfying `p`, or |users| when there is none. */
  function Find(users: seq<User>, p: User -> bool): (k: nat)
    ensures k <= |users|
    ensures k < |users| ==> p(users[k])
    ensures forall j :: 0 <= j < k ==> !p(users[j])
    decreases |users|
  {
    if users == [] then 0
    else if p(users[0]) then 0
    else
      var k := Find(users[1..], p);
      assert forall j :: 1 <= j < k + 1 ==> users[j] == users[1..][j - 1];
      1 + k
  }

  /** `COUNT(*)` of the rows whose username is `name`. */
  function CountNamed(users: seq<User>, name: string): (c: nat)
    ensures c <= |users|
    ensures c > 0 <==> exists j :: 0 <= j < |users| && users[j].username == name
    decreases |users|
  {
    if users == [] then 0
    else
      var init := users[..|users| - 1];
      assert forall j :: 0 <= j < |init| ==> init[j] == users[j];
      CountNamed(init, name) + if users[|users| - 1].username == name then 1 else 0
  }

  /** The usernames matching `pattern`, in table order. */
  function LikeMatches(users: seq<User>, like: (string, string) -> bool, pattern: string): (names: seq<string>)
    ensures |names| <= |users|
    decreases |users|
  {
    if users == [] then []
    else
      var init, last := users[..|users| - 1], users[|users| - 1];
      LikeMatches(init, like, pattern) + if like(last.username, pattern) then [last.username] else []
  }

  /** Some row holds `name` as its username, and `name` matches the pattern. */
  ghost predicate MatchingName(users: seq<User>, like: (string, string) -> bool, pattern: string, name: string)
  {
    like(name, pattern) && exists j :: 0 <= j < |users| && users[j].username == name
  }

  /** Every name returned is the username of a row that matches. */
  lemma {:induction false} LikeMatchesSound(users: seq<User>, like: (string, string) -> bool, pattern: string)
    ensures forall i :: 0 <= i < |LikeMatches(users, like, pattern)| ==>
      MatchingName(users, like, pattern, LikeMatches(users, like, pattern)[i])
    decreases |users|
  {
    if users != [] {
      var init, last := users[..|users| - 1], users[|users| - 1];
      var head := LikeMatches(init, like, pattern);
      var names := LikeMatches(users, like, pattern);
      LikeMatchesSound(init, like, pattern);
      forall i | 0 <= i < |names|
        ensures MatchingName(users, like, pattern, names[i])
      {
        if i < |head| {
          assert names[i] == head[i];
          var j :| 0 <= j < |init| && init[j].username == head[i];
          assert users[j] == init[j];
        } else {
          assert names[i] == last.username;
          assert users[|users| - 1] == last;
        }
      }
    }
  }

  /** Every row that matches contributes its username. */
  lemma {:induction false} LikeMatchesComplete(users: seq<User>, like: (string, string) -> bool, pattern: string)
    ensures forall j :: 0 <= j < |users| && like(users[j].username, pattern) ==>
      users[j].username in LikeMatches(users, like, pattern)
    decreases |users|
  {
    if users != [] {
      var init, last := users[..|users| - 1], users[|users| - 1];
      var head := LikeMatches(init, like, pattern);
      var names := LikeMatches(users, like, pattern);
      LikeMatchesComplete(init, like, pattern);
      forall j | 0 <= j < |users| && like(users[j].username, pattern)
        ensures users[j].username in names
      {
        if j < |init| {
          assert users[j] == init[j];
          var k :| 0 <= k < |head| && head[k] == init[j].username;
          assert names[k] == head[k];
        } else {
          assert names[|names| - 1] == last.username;
        }
      }
    }
  }

  /** No row matches, no name is returned. */
  lemma {:induction false} LikeMatchesNone(users: seq<User>, like: (string, string) -> bool, pattern: string)
    requires forall j :: 0 <= j < |users| ==> !like(users[j].username, pattern)
    ensures LikeMatches(users, like, pattern) == []
    decreases |users|
  {
    if users != [] {
      var init := users[..|users| - 1];
      assert forall j :: 0 <= j < |init| ==> init[j] == users[j];
      LikeMatchesNone(init, like, pattern);
    }
  }

  /** `idx` lists, in increasing order, exactly the rows whose username
      matches, and `names` holds their usernames: one name per matching row. */
  ghost predicate SelectsMatchingRows(users: seq<User>, like: (string, string) -> bool, pattern: string,
                                      names: seq<string>, idx: seq<int>)
  {
    && |idx| == |names|
    && (forall i :: 0 <= i < |idx| ==>
          0 <= idx[i] < |users| && like(users[idx[i]].username, pattern) && names[i] == users[idx[i]].username)
    && (forall i, k :: 0 <= i < k < |idx| ==> idx[i] < idx[k])
    && (forall j :: 0 <= j < |users| && like(users[j].username, pattern) ==> j in idx)
  }

  /** One more row keeps the selection: its index is added when it matches. */
  lemma SelectsMatchingRowsSnoc(users: seq<User>, like: (string, string) -> bool, pattern: string,
                                head: seq<string>, idx0: seq<int>)
    requires users != []
    requires SelectsMatchingRows(users[..|users| - 1], like, pattern, head, idx0)
    ensures like(users[|users| - 1].username, pattern) ==>
      SelectsMatchingRows(users, like, pattern, head + [users[|users| - 1].username], idx0 + [|users| - 1])
    ensures !like(users[|users| - 1].username, pattern) ==> SelectsMatchingRows(users, like, pattern, head, idx0)
  {
    var n := |users| - 1;
    var init := users[..n];
    assert forall j :: 0 <= j < n ==> users[j] == init[j];
    if like(users[n].username, pattern) {
      var names, idx := head + [users[n].username], idx0 + [n];
      forall i | 0 <= i < |idx|
        ensures 0 <= idx[i] < |users| && like(users[idx[i]].username, pattern) && names[i] == users[idx[i]].username
      {
        if i < |idx0| {
          assert idx[i] == idx0[i] && names[i] == head[i];
        }
      }
      forall i, k | 0 <= i < k < |idx|
        ensures idx[i] < idx[k]
      {
        if k < |idx0| {
          assert idx[i] == idx0[i] && idx[k] == idx0[k];
        } else {
          assert idx[i] == idx0[i];
        }
      }
      forall j | 0 <= j < |users| && like(users[j].username, pattern)
        ensures j in idx
      {
        if j < n {
          assert j in idx0;
        } else {
          assert idx[|idx0|] == j;
        }
      }
    } else {
      forall j | 0 <= j < |users| && like(users[j].username, pattern)
        ensures j in idx0
      {
        assert j < n;
      }
    }
  }

  /** The names are the usernames of the matching rows, one per row, in
      table order. */
  lemma {:induction false} LikeMatchesIsFilter(users: seq<User>, like: (string, string) -> bool, pattern: string)
    ensures exists idx :: SelectsMatchingRows(users, like, pattern, LikeMatches(users, like, pattern), idx)
    decreases |users|
  {
    if users == [] {
      assert LikeMatches(users, like, pattern) == [];
      assert SelectsMatchingRows(users, like, pattern, LikeMatches(users, like, pattern), []);
    } else {
      var init, last := users[..|users| - 1], users[|users| - 1];
      var head := LikeMatches(init, like, pattern);
      LikeMatchesIsFilter(init, like, pattern);
      var idx0 :| SelectsMatchingRows(init, like, pattern, head, idx0);
      SelectsMatchingRowsSnoc(users, like, pattern, head, idx0);
      if like(last.username, pattern) {
        assert LikeMatches(users, like, pattern) == head + [last.username];
        assert SelectsMatchingRows(users, like, pattern, LikeMatches(users, like, pattern), idx0 + [|users| - 1]);
      } else {
        assert LikeMatches(users, like, pattern) == head;
        assert SelectsMatchingRows(users, like, pattern, LikeMatches(users, like, pattern), idx0);
      }
    }
  }

  /** One more row adds its username exactly when it matches. */
  lemma LikeMatchesSnoc(users: seq<User>, like: (string, string) -> bool, pattern: string, i: nat)
    requires i < |users|
    ensures LikeMatches(users[..i + 1], like, pattern) ==
      LikeMatches(users[..i], like, pattern) + if like(users[i].username, pattern) then [users[i].username] else []
  {
    assert users[..i + 1][..i] == users[..i];
  }

  /** The first row named `name` has this email. */
  ghost predicate FirstNamedHasEmail(users: seq<User>, name: string, email: string)
  {
    exists k :: IsFirst(users, (u: User) => u.username == name, k) && users[k].email == email
  }

  /** The two prepared lookups of `getUserProfile` for the id `n`: the
      username of the row with that id, then the email of the first row
      with that username; null when no row has the id. */
  function ProfileOf(users: seq<User>, n: int): (r: Option<string>)
    ensures r.None? <==> forall j :: 0 <= j < |users| ==> users[j].id != n
    ensures r.Some? ==> exists i ::
      && IsFirst(users, (u: User) => u.id == n, i)
      && FirstNamedHasEmail(users, users[i].username, r.value)
  {
    var i := Find(users, (u: User) => u.id == n);
    if i < |users| then
      var stored := users[i].username;
      var k := Find(users, (u: User) => u.username == stored);
      assert IsFirst(users, (u: User) => u.id == n, i);
      if k < |users| then
        assert IsFirst(users, (u: User) => u.username == stored, k);
        assert FirstNamedHasEmail(users, stored, users[k].email);
        Some(users[k].email)
      else None
    else None
  }

  class SecureUserRepository {
    var users: seq<User>
    var nextId: int
    const rules: SqliteRules

    ghost predicate Valid()
      reads this
    {
      ValidTable(users, nextId)
    }

    /** A repository over an existing table. */
    constructor (rules: SqliteRules, users: seq<User>, nextId: int)
      requires ValidTable(users, nextId)
      ensures Valid()
      ensures this.rules == rules && this.users == users && this.nextId == nextId
    {
      this.rules := rules;
      this.users := users;
      this.nextId := nextId;
    }

    /** `SELECT username FROM users WHERE id = ?`, bound with `setString`:
        the username of the first row whose id matches, or null. At most one
        stored value comes back. */
    function GetUserById(id: string): (r: Option<string>)
      reads this
      ensures r.None? <==> forall j :: 0 <= j < |users| ==> !rules.idEquals(id, users[j].id)
      ensures r.Some? ==> exists k :: IsFirst(users, (u: User) => rules.idEquals(id, u.id), k) && r.value == users[k].username
    {
      var k := Find(users, (u: User) => rules.idEquals(id, u.id));
      if k < |users| then
        assert IsFirst(users, (u: User) => rules.idEquals(id, u.id), k);
        Some(users[k].username)
      else None
    }

    /** `INSERT ... VALUES (?, ?, ?)` then the generated key: appends exactly
        one row holding the three strings verbatim under the next id, and
        returns that id as `getInt(1)` reads it. */
    method CreateUser(username: string, password: string, email: string) returns (id: Int32)
      requires Valid()
      modifies this
      ensures Valid()
      ensures users == old(users) + [User(old(nextId), username, password, email)]
      ensures nextId == old(nextId) + 1
      ensures id == ToInt32(old(nextId))
      ensures old(nextId) <= MaxInt32 ==> id == old(nextId) && id > 0
      ensures old(nextId) <= MaxInt32 ==> GetUserProfile(IntToString(id)).Ok? && GetUserProfile(IntToString(id)).value.Some?
    {
      var row := User(nextId, username, password, email);
      users := users + [row];
      nextId := nextId + 1;
      id := ToInt32(row.id);
      if row.id <= MaxInt32 {
        ProfileOfNewest(this);
      }
    }

    /** `SELECT * FROM users WHERE username = ? AND password = ?`: true iff a
        row holds exactly this username and this password. */
    function Authenticate(username: string, password: string): (r: bool)
      reads this
      ensures r <==> exists j :: 0 <= j < |users| && users[j].username == username && users[j].password == password
    {
      Find(users, (u: User) => u.username == username && u.password == password) < |users|
    }

    /** `getUserProfile`: `Integer.parseInt` before any query, so a
        non-numeric id throws and never reaches the database. */
    function GetUserProfile(userId: string): (r: Result<Option<string>>)
      reads this
      ensures ParseInt(userId).Throws? ==> r == Throws(NumberFormatException(userId))
      ensures ParseInt(userId).Ok? ==> r == Ok(ProfileOf(users, ParseInt(userId).value))
    {
      match ParseInt(userId)
      case Throws(e) => Throws(e)
      case Ok(n) => Ok(ProfileOf(users, n))
    }

    /** `SELECT COUNT(*) as count FROM users WHERE username = ?`: whether some
        row holds exactly this username (while the count fits in an `int`). */
    function CheckUserExists(username: string): (r: bool)
      reads this
      ensures |users| <= MaxInt32 ==> (r <==> exists j :: 0 <= j < |users| && users[j].username == username)
    {
      ToInt32(CountNamed(users, username)) > 0
    }

    /** `SELECT email FROM users WHERE id = ?`: the email of the first row
        whose id matches, or "User not found". */
    function GetUserEmail(userId: string): (r: string)
      reads this
      ensures (forall j :: 0 <= j < |users| ==> !rules.idEquals(userId, users[j].id)) ==> r == UserNotFound
      ensures (exists j :: 0 <= j < |users| && rules.idEquals(userId, users[j].id)) ==>
        exists k :: IsFirst(users, (u: User) => rules.idEquals(userId, u.id), k) && r == users[k].email
    {
      var k := Find(users, (u: User) => rules.idEquals(userId, u.id));
      if k < |users| then
        assert IsFirst(users, (u: User) => rules.idEquals(userId, u.id), k);
        users[k].email
      else UserNotFound
    }

    /** What `searchUserByName` returns: the builder holding the usernames
        that match `"%" + username + "%"`, or "No users found" when it is
        empty. */
    function SearchResult(username: string): (r: string)
      reads this
      ensures |r| > 0
    {
      var s := Accumulate(LikeMatches(users, rules.like, "%" + username + "%"));
      if |s| > 0 then s else NoUsersFound
    }

    method SearchUserByName(username: string) returns (r: string)
      ensures r == SearchResult(username)
    {
      var rows, like, pattern := users, rules.like, "%" + username + "%";
      var results := "";
      var i := 0;
      while i < |rows|
        invariant 0 <= i <= |rows|
        invariant results == Accumulate(LikeMatches(rows[..i], like, pattern))
      {
        LikeMatchesSnoc(rows, like, pattern, i);
        ghost var found := LikeMatches(rows[..i], like, pattern);
        if like(rows[i].username, pattern) {
          AccumulateSnoc(found, rows[i].username);
          if |results| > 0 {
            results := results + Separator;
          }
          results := results + rows[i].username;
        } else {
          assert found + [] == found;
        }
        i := i + 1;
      }
      assert rows[..i] == rows;
      r := if |results| > 0 then results else NoUsersFound;
    }

    /** `SELECT password FROM users WHERE id = ?`: the password of the first
        row whose id matches, or null; never an error text. */
    function GetUserPassword(userId: string): (r: Option<string>)
      reads this
      ensures r.None? <==> forall j :: 0 <= j < |users| ==> !rules.idEquals(userId, users[j].id)
      ensures r.Some? ==> exists k :: IsFirst(users, (u: User) => rules.idEquals(userId, u.id), k) && r.value == users[k].password
    {
      var k := Find(users, (u: User) => rules.idEquals(userId, u.id));
      if k < |users| then
        assert IsFirst(users, (u: User) => rules.idEquals(userId, u.id), k);
        Some(users[k].password)
      else None
    }
  }

  /** The search answers "No users found" when no username matches or
      every matching username is empty. */
  lemma SearchNoneFound(repo: SecureUserRepository, username: string)
    requires AllEmpty(LikeMatches(repo.users, repo.rules.like, "%" + username + "%"))
    ensures repo.SearchResult(username) == NoUsersFound
  {
    AccumulateEmptyIff(LikeMatches(repo.users, repo.rules.like, "%" + username + "%"));
  }

  /** Otherwise the answer is the ", "-join of the matching usernames, from
      the first non-empty one on. */
  lemma SearchJoinsMatches(repo: SecureUserRepository, username: string)
    requires !AllEmpty(LikeMatches(repo.users, repo.rules.like, "%" + username + "%"))
    ensures repo.SearchResult(username) == Join(DropLeadingEmpty(LikeMatches(repo.users, repo.rules.like, "%" + username + "%")))
  {
    var found := LikeMatches(repo.users, repo.rules.like, "%" + username + "%");
    AccumulateIsJoin(found);
    AccumulateEmptyIff(found);
  }

  /** When no stored username matches the pattern built from the input,
      the search answers "No users found". */
  lemma SearchNoMatch(repo: SecureUserRepository, username: string)
    requires forall j :: 0 <= j < |repo.users| ==> !repo.rules.like(repo.users[j].username, "%" + username + "%")
    ensures repo.SearchResult(username) == NoUsersFound
  {
    LikeMatchesNone(repo.users, repo.rules.like, "%" + username + "%");
    SearchNoneFound(repo, username);
  }

  /** Whatever the input, the search answers either "No users found" or the
      join of usernames of stored rows that match: nothing else is read. */
  lemma SearchOnlyStoredUsernames(repo: SecureUserRepository, username: string)
    ensures var found := LikeMatches(repo.users, repo.rules.like, "%" + username + "%");
      || repo.SearchResult(username) == NoUsersFound
      || (&& repo.SearchResult(username) == Join(DropLeadingEmpty(found))
          && forall i :: 0 <= i < |found| ==> MatchingName(repo.users, repo.rules.like, "%" + username + "%", found[i]))
  {
    var found := LikeMatches(repo.users, repo.rules.like, "%" + username + "%");
    LikeMatchesSound(repo.users, repo.rules.like, "%" + username + "%");
    if AllEmpty(found) {
      SearchNoneFound(repo, username);
    } else {
      SearchJoinsMatches(repo, username);
    }
  }

  /** The profile of the most recently inserted row, looked up by its id
      written in decimal, is found. */
  lemma ProfileOfNewest(repo: SecureUserRepository)
    requires repo.Valid() && repo.users != [] && repo.users[|repo.users| - 1].id <= MaxInt32
    ensures repo.GetUserProfile(IntToString(repo.users[|repo.users| - 1].id)).Ok?
    ensures repo.GetUserProfile(IntToString(repo.users[|repo.users| - 1].id)).value.Some?
  {
    var n: Int32 := repo.users[|repo.users| - 1].id;
    ParseIntOfIntToString(n);
  }
}
