/** register.php: self-registration. A staff row and then an account linked to
    it are inserted, one after the other and outside any transaction. */
module RegisterPage {
  import opened Common
  import opened Tables
  import opened Schema
  import opened Hospital
  import opened Config
  import LoginPage

  const RegistrationSucceeded := "Registration successful! Please login."
  const RegistrationFailed := "Registration failed. Please try again."

  /** The staff row: department 1 and status 'Active' are written by the
      statement itself; the role is whatever was posted. */
  function RegisteredStaff(env: Env, firstName: string, lastName: string, email: string, role: string): (s: Staff)
    ensures s.departmentId == 1 && s.status == Active
    ensures s.role == SanitizeInput(role, env.quotes)
    ensures s.firstName == SanitizeInput(firstName, env.quotes) && s.lastName == SanitizeInput(lastName, env.quotes)
  {
    Staff(SanitizeInput(firstName, env.quotes), SanitizeInput(lastName, env.quotes), 1,
          SanitizeInput(role, env.quotes), SanitizeInput(email, env.quotes), None, None, Active)
  }

  /** The account row: linked to the new staff id, same role, active, and the
      hash of the password exactly as typed. */
  function RegisteredUser(env: Env, username: string, password: string, role: string, staffId: int, salt: int): (u: User)
    ensures u.staffId == Some(staffId) && u.isActive && u.role == SanitizeInput(role, env.quotes)
    ensures u.username == SanitizeInput(username, env.quotes)
    ensures PasswordVerify(password, u.passwordHash)
    ensures forall other :: other != password ==> !PasswordVerify(other, u.passwordHash)
    ensures u.lastLogin.None?
  {
    User(SanitizeInput(username, env.quotes), PasswordHashOf(password, salt), Some(staffId),
         SanitizeInput(role, env.quotes), true, None)
  }

  /** A POST to register.php. Each INSERT's result is tested with `if`: a quiet
      failure of the first skips the second, a quiet failure of the second
      leaves the first in place. Both show the failure message. */
  method Register(db: Database, session: Session, env: Env, username: string, password: string,
                  firstName: string, lastName: string, email: string, role: string, salt: int, fault: Fault)
    returns (r: Response)
    modifies db`staff, db`users, session
    ensures db.staff == if fault.Persists(1)
                        then Insert(old(db.staff), RegisteredStaff(env, firstName, lastName, email, role))
                        else old(db.staff)
    ensures db.users == if fault.Persists(1) && fault.Persists(2)
                        then Insert(old(db.users), RegisteredUser(env, username, password, role, old(db.staff.next), salt))
                        else old(db.users)
    ensures r == if fault.Aborts(2) then Fatal
                 else if fault.Persists(1) && fault.Persists(2) then Redirect(LoginUrl)
                 else ShownError(RegistrationFailed)
    ensures session.vars == if r == Redirect(LoginUrl)
                            then old(session.vars)[SuccessMessageKey := TextValue(RegistrationSucceeded)]
                            else old(session.vars)
  {
    var member := RegisteredStaff(env, firstName, lastName, email, role);
    if fault == Throws(1) {
      return Fatal;
    }
    if fault != ReturnsFalse(1) {
      var staffId := db.staff.next;
      db.staff := Insert(db.staff, member);
      var account := RegisteredUser(env, username, password, role, staffId, salt);
      if fault == Throws(2) {
        return Fatal;
      }
      if fault != ReturnsFalse(2) {
        db.users := Insert(db.users, account);
        session.StoreSuccessMessage(RegistrationSucceeded);
        return Redirect(LoginUrl);
      }
    }
    return ShownError(RegistrationFailed);
  }

  /** Without a transaction a quiet failure of the account INSERT leaves a new
      staff row that no account points to. */
  lemma StaffWithoutAccount(staff: Table<Staff>, users: Table<User>, member: Staff)
    requires staff.Valid() && users.Valid()
    requires forall id :: id in users.rows && users.rows[id].staffId.Some? ==> users.rows[id].staffId.value in staff.rows
    ensures staff.next in Insert(staff, member).rows
    ensures forall id :: id in users.rows ==> users.rows[id].staffId != Some(staff.next)
  {
  }

  /** Whoever registers under a name no active account has can then sign in by
      typing the same name and password. */
  lemma RegisteredCanSignIn(users: Table<User>, env: Env, username: string, password: string, role: string,
                            staffId: int, salt: int)
    requires users.Valid()
    requires forall id :: id in users.rows && users.rows[id].isActive ==>
               users.rows[id].username != SanitizeInput(username, env.quotes)
    ensures var after := Insert(users, RegisteredUser(env, username, password, role, staffId, salt));
            LoginPage.Authenticate(after, SanitizeInput(username, env.quotes), password)
            == Some((users.next, RegisteredUser(env, username, password, role, staffId, salt)))
  {
    var after := Insert(users, RegisteredUser(env, username, password, role, staffId, salt));
    LoginPage.AuthenticateSucceeds(after, SanitizeInput(username, env.quotes), password, users.next);
  }

  /** Registering a second time under a name that is taken locks both accounts
      out: the name no longer signs in at all. */
  lemma SecondRegistrationLocksOut(users: Table<User>, env: Env, username: string, password: string, role: string,
                                   staffId: int, salt: int, existing: int, typed: string)
    requires users.Valid() && existing in users.rows && users.rows[existing].isActive
    requires users.rows[existing].username == SanitizeInput(username, env.quotes)
    ensures var after := Insert(users, RegisteredUser(env, username, password, role, staffId, salt));
            LoginPage.Authenticate(after, SanitizeInput(username, env.quotes), typed).None?
  {
    var after := Insert(users, RegisteredUser(env, username, password, role, staffId, salt));
    LoginPage.DuplicateNameLocksOut(after, SanitizeInput(username, env.quotes), typed, existing, users.next);
  }
}
