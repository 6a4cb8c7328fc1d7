/** login.php: signing in. The sanitised username must name exactly one active
    account and the raw password must verify against its hash; then the session
    is populated, last_login is stamped and a 'login' entry is logged. */
module LoginPage {
  import opened Common
  import opened Tables
  import opened Schema
  import opened Hospital
  import opened Config

  const InvalidCredentials := "Invalid username or password"

  predicate ScanOrdered(scan: seq<(int, User)>)
  {
    forall i, j :: 0 <= i < j < |scan| ==> scan[i].0 < scan[j].0
  }

  /** The result rows of SELECT ... FROM users WHERE username = ? AND
      is_active = 1, in scan order. */
  function ActiveRows(scan: seq<(int, User)>, username: string): (rows: seq<(int, User)>)
    ensures forall x :: x in rows <==> x in scan && x.1.username == username && x.1.isActive
  {
    if scan == [] then []
    else
      assert forall x :: x in scan <==> x == scan[0] || x in scan[1..];
      (if scan[0].1.username == username && scan[0].1.isActive then [scan[0]] else [])
      + ActiveRows(scan[1..], username)
  }

  /** Keeping some rows of a scan keeps their key order. */
  lemma {:induction false} ActiveRowsOrdered(scan: seq<(int, User)>, username: string)
    requires ScanOrdered(scan)
    ensures ScanOrdered(ActiveRows(scan, username))
  {
    if scan != [] {
      ActiveRowsOrdered(scan[1..], username);
      var rest := ActiveRows(scan[1..], username);
      forall x | x in rest ensures scan[0].0 < x.0 {
        var k :| 0 <= k < |scan[1..]| && scan[1..][k] == x;
        assert scan[k + 1] == x;
      }
    }
  }

  /** A lookup that returns one row returns the only matching active account. */
  lemma OnlyMatch(users: Table<User>, username: string)
    requires users.Valid() && |ActiveRows(Scan(users), username)| == 1
    ensures forall id :: id in users.rows && users.rows[id].isActive && users.rows[id].username == username ==>
              id == ActiveRows(Scan(users), username)[0].0
  {
    var rows := ActiveRows(Scan(users), username);
    forall id | id in users.rows && users.rows[id].isActive && users.rows[id].username == username
      ensures id == rows[0].0
    {
      ScanCovers(users, id);
      assert (id, users.rows[id]) in rows;
    }
  }

  /** The account a login attempt signs in as: the single matching active row,
      provided the password verifies against its hash. */
  function Authenticate(users: Table<User>, username: string, password: string): (r: Option<(int, User)>)
    requires users.Valid()
    ensures r.Some? ==>
              && r.value.0 in users.rows && users.rows[r.value.0] == r.value.1
              && r.value.1.isActive && r.value.1.username == username
              && PasswordVerify(password, r.value.1.passwordHash)
    ensures r.Some? ==>
              forall id :: id in users.rows && users.rows[id].isActive && users.rows[id].username == username ==>
                id == r.value.0
  {
    var rows := ActiveRows(Scan(users), username);
    if |rows| == 1 && PasswordVerify(password, rows[0].1.passwordHash) then
      OnlyMatch(users, username);
      assert rows[0] in rows;
      Some(rows[0])
    else
      None
  }

  /** The converse: one active account with that name, whose hash the password
      verifies, is always let in. */
  lemma AuthenticateSucceeds(users: Table<User>, username: string, password: string, id: int)
    requires users.Valid() && id in users.rows
    requires users.rows[id].isActive && users.rows[id].username == username
    requires PasswordVerify(password, users.rows[id].passwordHash)
    requires forall other :: other in users.rows && users.rows[other].isActive && users.rows[other].username == username ==>
               other == id
    ensures Authenticate(users, username, password) == Some((id, users.rows[id]))
  {
    var rows := ActiveRows(Scan(users), username);
    ScanCovers(users, id);
    assert (id, users.rows[id]) in rows;
    forall i | 0 <= i < |rows| ensures rows[i].0 == id {
      assert rows[i] in rows;
    }
    ActiveRowsOrdered(Scan(users), username);
    AtMostOne(rows, id);
  }

  /** Rows in strictly increasing key order that all carry one key are at most one. */
  lemma AtMostOne(rows: seq<(int, User)>, id: int)
    requires ScanOrdered(rows)
    requires forall i :: 0 <= i < |rows| ==> rows[i].0 == id
    ensures |rows| <= 1
  {
    if rows != [] {
      KeySpread(rows);
    }
  }

  /** Strictly increasing keys spread at least one apart per row. */
  lemma {:induction false} KeySpread(rows: seq<(int, User)>)
    requires ScanOrdered(rows) && rows != []
    ensures rows[|rows| - 1].0 >= rows[0].0 + |rows| - 1
  {
    if |rows| > 1 {
      KeySpread(rows[1..]);
    }
  }

  /** Two active accounts under one name lock each other out: neither can sign
      in with that name, whatever the password. */
  lemma DuplicateNameLocksOut(users: Table<User>, username: string, password: string, a: int, b: int)
    requires users.Valid() && a in users.rows && b in users.rows && a != b
    requires users.rows[a].isActive && users.rows[a].username == username
    requires users.rows[b].isActive && users.rows[b].username == username
    ensures Authenticate(users, username, password).None?
  {
  }

  /** The typed name is sanitised before the lookup, so an account whose stored
      name contains '<' can never be signed into. */
  lemma AngleBracketNameNeverSignsIn(users: Table<User>, typed: string, password: string, quotes: QuoteMode)
    requires users.Valid()
    ensures var r := Authenticate(users, SanitizeInput(typed, quotes), password);
            r.Some? ==> '<' !in r.value.1.username
  {
  }

  /** UPDATE users SET last_login = CURRENT_TIMESTAMP WHERE user_id = ?. */
  function StampLastLogin(users: Table<User>, userId: int, now: Timestamp): (r: Table<User>)
    requires users.Valid()
    ensures r.Valid() && r.next == users.next && r.rows.Keys == users.rows.Keys
    ensures forall id :: id in users.rows && id != userId ==> r.rows[id] == users.rows[id]
    ensures userId in users.rows ==>
              r.rows[userId].lastLogin == Some(now)
              && r.rows[userId].(lastLogin := None) == users.rows[userId].(lastLogin := None)
  {
    if userId in users.rows then Replace(users, userId, users.rows[userId].(lastLogin := Some(now))) else users
  }

  /** A POST to login.php. The session keys are set before the two statements
      run, so a statement that throws leaves the session signed in; a statement
      that fails quietly does not stop the redirect. */
  method Login(db: Database, session: Session, env: Env, username: string, password: string, fault: Fault)
    returns (r: Response)
    modifies db`users, db`accessLogs, session
    ensures var auth := Authenticate(old(db.users), SanitizeInput(username, env.quotes), password);
            auth.None? ==>
              && r == ShownError(InvalidCredentials)
              && db.users == old(db.users) && db.accessLogs == old(db.accessLogs)
              && session.vars == old(session.vars)
    ensures var auth := Authenticate(old(db.users), SanitizeInput(username, env.quotes), password);
            auth.Some? ==>
              && session.vars == old(session.vars)[UserIdKey := IntValue(auth.value.0)]
                                                  [UsernameKey := TextValue(auth.value.1.username)]
                                                  [RoleKey := TextValue(auth.value.1.role)]
              && r == (if fault.Aborts(2) then Fatal else Redirect(DashboardUrl))
              && db.users == (if fault.Persists(1) then StampLastLogin(old(db.users), auth.value.0, env.now)
                              else old(db.users))
              && db.accessLogs == old(db.accessLogs)
                                  + (if fault.Persists(2) then [AccessLog(auth.value.0, "login", env.ip, env.now)] else [])
  {
    var name := SanitizeInput(username, env.quotes);
    var auth := Authenticate(db.users, name, password);
    if auth.None? {
      return ShownError(InvalidCredentials);
    }
    var (userId, user) := auth.value;
    session.SignIn(userId, user.username, user.role);
    if fault == Throws(1) {
      return Fatal;
    }
    if fault != ReturnsFalse(1) {
      db.users := StampLastLogin(db.users, userId, env.now);
    }
    if fault == Throws(2) {
      return Fatal;
    }
    if fault != ReturnsFalse(2) {
      db.accessLogs := db.accessLogs + [AccessLog(userId, "login", env.ip, env.now)];
    }
    return Redirect(DashboardUrl);
  }
}
