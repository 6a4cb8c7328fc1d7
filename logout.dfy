/** logout.php: a signed-in session logs a 'logout' entry and is emptied; every
    visitor ends up on the login page. */
module LogoutPage {
  import opened Common
  import opened Tables
  import opened Schema
  import opened Hospital
  import opened Config
  import LoginPage

  /** The 'logout' entry is written before the session is emptied; an INSERT
      that throws ends the script with the session still signed in, one that
      fails quietly does not stop the clearing. */
  method Logout(db: Database, session: Session, env: Env, fault: Fault) returns (r: Response)
    modifies db`accessLogs, session
    ensures !old(session.LoggedIn()) ==>
              r == Redirect(LoginUrl) && db.accessLogs == old(db.accessLogs) && session.vars == old(session.vars)
    ensures old(session.LoggedIn()) ==>
              && db.accessLogs == old(db.accessLogs)
                                  + (if fault.Persists(1) then [AccessLog(old(session.UserId()), "logout", env.ip, env.now)]
                                     else [])
              && (if fault.Aborts(1) then r == Fatal && session.vars == old(session.vars)
                  else r == Redirect(LoginUrl) && session.vars == map[])
  {
    if session.LoggedIn() {
      var userId := session.UserId();
      if fault == Throws(1) {
        return Fatal;
      }
      if fault != ReturnsFalse(1) {
        db.accessLogs := db.accessLogs + [AccessLog(userId, "logout", env.ip, env.now)];
      }
      session.Clear();
    }
    return Redirect(LoginUrl);
  }

  /** The session's round trip: an anonymous session that signs in with good
      credentials and then signs out is anonymous again, and the log has gained
      exactly the 'login' and 'logout' entries of that account, in that order. */
  method SignInThenOut(db: Database, session: Session, env: Env, username: string, password: string)
    modifies db`users, db`accessLogs, session
    requires session.vars == map[]
    requires LoginPage.Authenticate(db.users, SanitizeInput(username, env.quotes), password).Some?
    ensures session.vars == map[]
    ensures var id := LoginPage.Authenticate(old(db.users), SanitizeInput(username, env.quotes), password).value.0;
            && db.accessLogs == old(db.accessLogs) + [AccessLog(id, "login", env.ip, env.now),
                                                      AccessLog(id, "logout", env.ip, env.now)]
            && db.users == LoginPage.StampLastLogin(old(db.users), id, env.now)
  {
    var signedIn := LoginPage.Login(db, session, env, username, password, NoFault);
    assert session.LoggedIn();
    var signedOut := Logout(db, session, env, NoFault);
  }
}
