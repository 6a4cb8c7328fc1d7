/** jobs.php: departments, staff onboarding with a generated user account, the
    staff status cascade onto user accounts, and the one-time display of the
    generated credentials. */
module JobsPage {
  import opened Common
  import opened Tables
  import opened Schema
  import opened Hospital
  import opened Config
  import opened Text

  // ------------------------------------------------------------ generated credentials

  /** $first_name[0]: the first character, or "" (with a warning) for an empty
      string. */
  function FirstChar(s: string): (r: string)
    ensures |r| == if s == [] then 0 else 1
    ensures r == s[..|r|]
  {
    if s == [] then [] else [s[0]]
  }

  /** strtolower($first_name[0] . $last_name . $staff_id). */
  function Username(firstName: string, lastName: string, staffId: nat): string
  {
    Lower(FirstChar(firstName) + lastName + Decimal(staffId))
  }

  lemma {:induction false} LowerAppend(a: string, b: string)
    ensures Lower(a + b) == Lower(a) + Lower(b)
  {
    var l, r := Lower(a + b), Lower(a) + Lower(b);
    assert |l| == |r|;
    forall i | 0 <= i < |l| ensures l[i] == r[i] {
      if i < |a| {
        assert (a + b)[i] == a[i];
      } else {
        assert (a + b)[i] == b[i - |a|];
      }
    }
  }

  /** The generated username has no upper-case letter, and it ends with the
      decimal digits of the new staff id, right after the lower-cased first
      initial and last name. */
  lemma UsernameShape(firstName: string, lastName: string, staffId: nat)
    ensures var u := Username(firstName, lastName, staffId);
            && (forall i :: 0 <= i < |u| ==> !IsUpper(u[i]))
            && |u| == |FirstChar(firstName)| + |lastName| + |Decimal(staffId)|
            && u[|u| - |Decimal(staffId)|..] == Decimal(staffId)
            && u[..|u| - |Decimal(staffId)|] == Lower(FirstChar(firstName) + lastName)
  {
    var digits := Decimal(staffId);
    LowerAppend(FirstChar(firstName) + lastName, digits);
    assert Lower(digits) == digits;
  }

  /** bin2hex(random_bytes(8)): sixteen lower-case hex digits, from which the
      bytes can be read back. */
  function TempPassword(randomBytes: seq<byte>): (p: string)
    requires |randomBytes| == 8
    ensures |p| == 16
    ensures forall i :: 0 <= i < |p| ==> IsLowerHex(p[i])
    ensures Hex2Bin(p) == randomBytes
  {
    Hex2BinOfBin2Hex(randomBytes);
    Bin2Hex(randomBytes)
  }

  // ------------------------------------------------------------ statements

  /** UPDATE staff SET status = ? WHERE staff_id = ?. */
  function SetStaffStatus(staff: Table<Staff>, staffId: int, status: string): (r: Table<Staff>)
    requires staff.Valid()
    ensures r.Valid() && r.next == staff.next && r.rows.Keys == staff.rows.Keys
    ensures forall id :: id in staff.rows && id != staffId ==> r.rows[id] == staff.rows[id]
    ensures staffId in staff.rows ==> r.rows[staffId] == staff.rows[staffId].(status := status)
  {
    if staffId in staff.rows then Replace(staff, staffId, staff.rows[staffId].(status := status)) else staff
  }

  /** UPDATE users SET is_active = 0 WHERE staff_id = ?: every account linked
      to the staff member is switched off; no account is ever switched on. */
  function DeactivateUsers(users: Table<User>, staffId: int): (r: Table<User>)
    requires users.Valid()
    ensures r.Valid() && r.next == users.next && r.rows.Keys == users.rows.Keys
    ensures forall id :: id in users.rows && users.rows[id].staffId == Some(staffId) ==>
              r.rows[id] == users.rows[id].(isActive := false)
    ensures forall id :: id in users.rows && users.rows[id].staffId != Some(staffId) ==> r.rows[id] == users.rows[id]
    ensures forall id :: id in r.rows && r.rows[id].isActive ==> users.rows[id].isActive
  {
    Table(map id | id in users.rows ::
            if users.rows[id].staffId == Some(staffId) then users.rows[id].(isActive := false) else users.rows[id],
          users.next)
  }

  /** Once deactivated, an account stays so when the cascade runs again. */
  lemma DeactivateTwice(users: Table<User>, staffId: int)
    requires users.Valid()
    ensures DeactivateUsers(DeactivateUsers(users, staffId), staffId) == DeactivateUsers(users, staffId)
  {
    var once := DeactivateUsers(users, staffId);
    var twice := DeactivateUsers(once, staffId);
    assert twice.rows == once.rows;
  }

  // ------------------------------------------------------------ requests

  /** action 'add_department': one INSERT; no try/catch. */
  method AddDepartment(db: Database, env: Env, name: string, description: string, fault: Fault) returns (r: Response)
    modifies db`departments
    ensures r == if fault.Aborts(1) then Fatal else Shown
    ensures db.departments
            == if fault.Persists(1)
               then Insert(old(db.departments), Department(SanitizeInput(name, env.quotes), SanitizeInput(description, env.quotes)))
               else old(db.departments)
  {
    var row := Department(SanitizeInput(name, env.quotes), SanitizeInput(description, env.quotes));
    if fault == Throws(1) {
      return Fatal;
    }
    if fault != ReturnsFalse(1) {
      db.departments := Insert(db.departments, row);
    }
    return Shown;
  }

  /** The staff row add_staff inserts: status takes the column default. */
  function NewStaff(defaults: SchemaDefaults, env: Env, firstName: string, lastName: string, departmentId: int,
                    role: string, email: string, phone: string, hireDate: string): Staff
  {
    var q := env.quotes;
    Staff(SanitizeInput(firstName, q), SanitizeInput(lastName, q), departmentId, SanitizeInput(role, q),
          SanitizeInput(email, q), Some(SanitizeInput(phone, q)), Some(SanitizeInput(hireDate, q)),
          defaults.staffStatus)
  }

  /** The account add_staff creates for staff id `staffId`: the derived
      username, a hash of the temporary password, the staff member's role, and
      is_active from the column default. */
  function NewUser(defaults: SchemaDefaults, env: Env, firstName: string, lastName: string, role: string, staffId: nat,
                   randomBytes: seq<byte>, salt: int): User
    requires |randomBytes| == 8
  {
    User(Username(SanitizeInput(firstName, env.quotes), SanitizeInput(lastName, env.quotes), staffId),
         PasswordHashOf(TempPassword(randomBytes), salt), Some(staffId), SanitizeInput(role, env.quotes),
         defaults.userActive, None)
  }

  /** $conn->insert_id after the staff insert: the new key, or 0 when the insert
      reported failure without throwing. */
  function InsertId(staff: Table<Staff>, fault: Fault): nat
    requires staff.Valid()
  {
    if fault == ReturnsFalse(1) then 0 else staff.next
  }

  /** The transaction of add_staff: (1) insert the staff row, (2) insert a
      user account named after it, with the staff role, a hash of a fresh
      temporary password and staff_id set to the new staff id. A throw rolls
      both back. Also hands back the generated username. */
  method InsertStaffAccount(db: Database, env: Env, firstName: string, lastName: string,
                            departmentId: int, role: string, email: string, phone: string, hireDate: string,
                            randomBytes: seq<byte>, salt: int, fault: Fault) returns (r: Response, username: string)
    requires |randomBytes| == 8
    modifies db`staff, db`users
    ensures r == if fault.Aborts(2) then Fatal else Shown
    ensures username == NewUser(db.defaults, env, firstName, lastName, role, InsertId(old(db.staff), fault), randomBytes, salt).username
    ensures db.staff
            == if fault.Commits(2, 1)
               then Insert(old(db.staff), NewStaff(db.defaults, env, firstName, lastName, departmentId, role, email, phone, hireDate))
               else old(db.staff)
    ensures db.users
            == if fault.Commits(2, 2)
               then Insert(old(db.users), NewUser(db.defaults, env, firstName, lastName, role, InsertId(old(db.staff), fault),
                                                  randomBytes, salt))
               else old(db.users)
  {
    var savedStaff, savedUsers := db.staff, db.users;
    var staffId := InsertId(db.staff, fault);
    var account := NewUser(db.defaults, env, firstName, lastName, role, staffId, randomBytes, salt);
    username := account.username;
    // statement 1: INSERT INTO staff
    if fault == Throws(1) {
      return Fatal, username;
    }
    if fault != ReturnsFalse(1) {
      db.staff := Insert(db.staff, NewStaff(db.defaults, env, firstName, lastName, departmentId, role, email, phone, hireDate));
    }
    // statement 2: INSERT INTO users
    if fault == Throws(2) {
      db.staff, db.users := savedStaff, savedUsers;
      return Fatal, username;
    }
    if fault != ReturnsFalse(2) {
      db.users := Insert(db.users, account);
    }
    return Shown, username;
  }

  /** action 'add_staff': the transaction above; after the commit the username
      and temporary password go into the session. A throw is re-thrown and the
      session is left alone. */
  method AddStaff(db: Database, session: Session, env: Env, firstName: string, lastName: string,
                  departmentId: int, role: string, email: string, phone: string, hireDate: string,
                  randomBytes: seq<byte>, salt: int, fault: Fault) returns (r: Response)
    requires |randomBytes| == 8
    modifies db`staff, db`users, session
    ensures r == if fault.Aborts(2) then Fatal else Shown
    ensures db.staff
            == if fault.Commits(2, 1)
               then Insert(old(db.staff), NewStaff(db.defaults, env, firstName, lastName, departmentId, role, email, phone, hireDate))
               else old(db.staff)
    ensures db.users
            == if fault.Commits(2, 2)
               then Insert(old(db.users), NewUser(db.defaults, env, firstName, lastName, role, InsertId(old(db.staff), fault),
                                                  randomBytes, salt))
               else old(db.users)
    ensures session.vars
            == if fault.Aborts(2) then old(session.vars)
               else old(session.vars)[TempCredentialsKey := CredentialsValue(
                      NewUser(db.defaults, env, firstName, lastName, role, InsertId(old(db.staff), fault), randomBytes, salt).username,
                      TempPassword(randomBytes))]
  {
    var username;
    r, username := InsertStaffAccount(db, env, firstName, lastName, departmentId, role, email, phone, hireDate,
                                      randomBytes, salt, fault);
    if r == Shown {
      session.StoreCredentials(username, TempPassword(randomBytes));
    }
  }

  /** The account created for a new staff member: its username is derived from
      the sanitised names and the staff id, its role is the staff role, and its
      hash accepts exactly the temporary password. */
  lemma NewUserMatchesStaff(defaults: SchemaDefaults, env: Env, firstName: string, lastName: string, departmentId: int,
                            role: string, email: string, phone: string, hireDate: string, staffId: nat,
                            randomBytes: seq<byte>, salt: int, password: string)
    requires |randomBytes| == 8
    ensures var account := NewUser(defaults, env, firstName, lastName, role, staffId, randomBytes, salt);
            var member := NewStaff(defaults, env, firstName, lastName, departmentId, role, email, phone, hireDate);
            && account.role == member.role
            && account.staffId == Some(staffId)
            && account.username == Username(member.firstName, member.lastName, staffId)
            && (PasswordVerify(password, account.passwordHash) <==> password == TempPassword(randomBytes))
  {
  }

  /** action 'update_staff_status', outside any transaction: (1) set the staff
      row's status; (2) only when the sanitised status is exactly 'Inactive',
      deactivate every account linked to that staff member. A throw at (2)
      leaves (1) in place. */
  method UpdateStaffStatus(db: Database, env: Env, staffId: int, status: string, fault: Fault) returns (r: Response)
    modifies db`staff, db`users
    ensures var newStatus := SanitizeInput(status, env.quotes);
            && r == (if fault.Aborts(if newStatus == Inactive then 2 else 1) then Fatal else Shown)
            && db.staff == (if fault.Persists(1) then SetStaffStatus(old(db.staff), staffId, newStatus) else old(db.staff))
            && db.users == (if newStatus == Inactive && fault.Persists(2) then DeactivateUsers(old(db.users), staffId)
                            else old(db.users))
  {
    var newStatus := SanitizeInput(status, env.quotes);
    if fault == Throws(1) {
      return Fatal;
    }
    if fault != ReturnsFalse(1) {
      db.staff := SetStaffStatus(db.staff, staffId, newStatus);
    }
    if newStatus == Inactive {
      if fault == Throws(2) {
        return Fatal;
      }
      if fault != ReturnsFalse(2) {
        db.users := DeactivateUsers(db.users, staffId);
      }
    }
    return Shown;
  }

  /** Rendering the page shows the stored credentials once and unsets them:
      after this call the session no longer holds them. */
  method TakeTempCredentials(session: Session) returns (shown: Option<(string, string)>)
    modifies session
    ensures TempCredentialsKey !in session.vars
    ensures session.vars == old(session.vars) - {TempCredentialsKey}
    ensures shown.Some? <==> TempCredentialsKey in old(session.vars)
    ensures shown.Some? ==> old(session.vars)[TempCredentialsKey]
                            == CredentialsValue(shown.value.0, shown.value.1)
  {
    if TempCredentialsKey in session.vars {
      var credentials := session.vars[TempCredentialsKey];
      shown := Some((credentials.username, credentials.password));
      session.Unset(TempCredentialsKey);
    } else {
      shown := None;
    }
  }

  datatype JobsPost =
    | PostAddDepartment(name: string, description: string)
    | PostAddStaff(firstName: string, lastName: string, departmentId: int, role: string, email: string,
                   phone: string, hireDate: string)
    | PostUpdateStaffStatus(staffId: int, status: string)
    | NoPost

  /** The page's POST handling: check_session, then the switch on `action`.
      Any logged-in user may post here; the role is not consulted. */
  method HandlePost(db: Database, session: Session, env: Env, post: JobsPost, randomBytes: seq<byte>, salt: int,
                    fault: Fault) returns (r: Response)
    requires |randomBytes| == 8
    modifies db`departments, db`staff, db`users, session
    ensures !session.LoggedIn() ==> r == Redirect(LoginUrl) && unchanged(db) && unchanged(session)
    ensures old(session.LoggedIn()) && post.NoPost? ==> r == Shown && unchanged(db) && unchanged(session)
    ensures !post.PostAddStaff? ==> unchanged(session)
  {
    var guard := CheckSession(session);
    if guard.Some? {
      return guard.value;
    }
    match post {
      case PostAddDepartment(name, description) =>
        r := AddDepartment(db, env, name, description, fault);
      case PostAddStaff(first, last, dept, role, email, phone, hireDate) =>
        r := AddStaff(db, session, env, first, last, dept, role, email, phone, hireDate, randomBytes, salt, fault);
      case PostUpdateStaffStatus(staffId, status) =>
        r := UpdateStaffStatus(db, env, staffId, status, fault);
      case NoPost =>
        r := Shown;
    }
  }
}
