/** dashboard.php: the landing page. Statistics and menu links depend on the
    role stored in the users table; the page lists recent sign-ins and sign-outs
    and lets a user change their password. */
module DashboardPage {
  import opened Common
  import opened Tables
  import opened Schema
  import opened Hospital
  import opened Config
  import opened Sorting
  import PatientsPage
  import AdminPage

  // ------------------------------------------------------------------ role, statistics, menu

  /** $user['role']: the role column of the signed-in user's row, read afresh
      from the users table (not from the session). None when the row is gone:
      PHP then compares null against the role names, which never matches. */
  function PageRole(users: Table<User>, userId: int): (role: Option<string>)
    ensures role.Some? <==> userId in users.rows
    ensures role.Some? ==> role.value == users.rows[userId].role
  {
    if userId in users.rows then Some(users.rows[userId].role) else None
  }

  /** in_array($user['role'], ['Admin', 'Doctor']). */
  predicate SeesStatistics(role: Option<string>)
  {
    role == Some(Admin) || role == Some(Doctor)
  }

  /** rooms.status = 'Occupied': the stored status, not the occupant count. */
  predicate RoomIsOccupied(room: Room)
  {
    room.status == Occupied
  }

  predicate StaffIsActive(member: Staff)
  {
    member.status == Active
  }

  datatype Stats = Stats(totalPatients: nat, occupiedRooms: nat, activeStaff: nat, lowStockItems: nat)

  /** $stats: the four counts for an Admin or a Doctor, nothing for anyone else. */
  function Statistics(role: Option<string>, patients: Table<Patient>, rooms: Table<Room>, staff: Table<Staff>,
                      inventory: Table<Item>): (stats: Option<Stats>)
    ensures stats.Some? <==> SeesStatistics(role)
    ensures stats.Some? ==>
              && stats.value.totalPatients == |patients.rows|
              && stats.value.occupiedRooms <= |rooms.rows|
              && stats.value.activeStaff <= |staff.rows|
              && stats.value.lowStockItems <= |inventory.rows|
  {
    if SeesStatistics(role) then
      CountAll(patients);
      CountAtMost(rooms, RoomIsOccupied);
      CountAtMost(staff, StaffIsActive);
      CountAtMost(inventory, AdminPage.IsLow);
      Some(Stats(CountWhere(patients, (p: Patient) => true), CountWhere(rooms, RoomIsOccupied),
                 CountWhere(staff, StaffIsActive), CountWhere(inventory, AdminPage.IsLow)))
    else
      None
  }

  lemma CountAll<T>(t: Table<T>)
    ensures CountWhere(t, (x: T) => true) == |t.rows|
  {
    CountWhereIs(t, (x: T) => true, t.rows.Keys);
  }

  lemma CountAtMost<T>(t: Table<T>, cond: T -> bool)
    ensures CountWhere(t, cond) <= |t.rows|
  {
    var matching := set id | id in t.rows && cond(t.rows[id]);
    CountWhereIs(t, cond, matching);
    SubsetSize(matching, t.rows.Keys);
    assert |t.rows.Keys| == |t.rows|;
  }

  lemma SubsetSize(a: set<int>, b: set<int>)
    requires a <= b
    ensures |a| <= |b|
  {
    assert b == a + (b - a);
    assert a * (b - a) == {};
  }

  /** Admitting a patient into an Available room raises the occupied-room count
      by one. */
  lemma AdmissionRaisesOccupiedCount(rooms: Table<Room>, roomId: int)
    requires rooms.Valid() && roomId in rooms.rows && rooms.rows[roomId].status == Available
    ensures CountWhere(PatientsPage.OccupyIfAvailable(rooms, roomId), RoomIsOccupied)
            == CountWhere(rooms, RoomIsOccupied) + 1
  {
    var after := PatientsPage.OccupyIfAvailable(rooms, roomId);
    var before := set id | id in rooms.rows && RoomIsOccupied(rooms.rows[id]);
    assert roomId !in before;
    forall id ensures id in before + {roomId} <==> id in after.rows && RoomIsOccupied(after.rows[id]) {
    }
    CountWhereIs(after, RoomIsOccupied, before + {roomId});
    CountWhereIs(rooms, RoomIsOccupied, before);
    assert |before + {roomId}| == |before| + 1;
  }

  /** The low-stock statistic is the length of the administrators' low-stock
      list. */
  lemma LowStockAgrees(inventory: Table<Item>)
    requires inventory.Valid()
    ensures Statistics(Some(Admin), Empty(), Empty(), Empty(), inventory).value.lowStockItems
            == |AdminPage.LowStock(AdminPage.InventoryListing(inventory))|
  {
    AdminPage.LowStockCount(inventory);
  }

  datatype MenuLink = PatientsLink | RoomsLink | JobsLink | AdminLink

  /** The Quick Access links a role sees. */
  function Menu(role: Option<string>): set<MenuLink>
  {
    (if role == Some(Admin) || role == Some(Doctor) || role == Some(Nurse) then {PatientsLink} else {})
    + (if role == Some(Admin) || role == Some(Doctor) then {RoomsLink} else {})
    + (if role == Some(Admin) then {JobsLink, AdminLink} else {})
  }

  /** Each role sees everything the role below it sees: Nurse, Doctor, Admin. */
  lemma MenuNested()
    ensures Menu(Some(Nurse)) == {PatientsLink}
    ensures Menu(Some(Doctor)) == {PatientsLink, RoomsLink}
    ensures Menu(Some(Admin)) == {PatientsLink, RoomsLink, JobsLink, AdminLink}
    ensures Menu(Some(Nurse)) < Menu(Some(Doctor)) < Menu(Some(Admin))
  {
  }

  /** The statistics are shown exactly to the roles that get the rooms link. */
  lemma StatisticsWithRoomsLink(role: Option<string>)
    ensures SeesStatistics(role) <==> RoomsLink in Menu(role)
  {
  }

  /** Any role other than the three, and a user whose row is gone, sees no
      statistics and no links. */
  lemma OtherRolesSeeNothing(role: Option<string>)
    requires role != Some(Admin) && role != Some(Doctor) && role != Some(Nurse)
    ensures Menu(role) == {}
    ensures !SeesStatistics(role)
  {
  }

  // ------------------------------------------------------------------ recent activity

  /** A row of access_logs JOIN users: the entry and the user's name. */
  datatype Activity = Activity(log: AccessLog, username: string)

  /** The join over the log in the order it was written: an entry whose user is
      gone drops out. */
  function ActivityJoin(logs: seq<AccessLog>, users: map<int, User>): (r: seq<Activity>)
    ensures forall i :: 0 <= i < |r| ==>
              r[i].log in logs && r[i].log.userId in users && r[i].username == users[r[i].log.userId].username
    ensures forall i :: 0 <= i < |logs| && logs[i].userId in users ==>
              Activity(logs[i], users[logs[i].userId].username) in r
  {
    if logs == [] then []
    else
      var rest := ActivityJoin(logs[1..], users);
      assert forall i :: 1 <= i < |logs| ==> logs[i] == logs[1..][i - 1];
      if logs[0].userId in users then [Activity(logs[0], users[logs[0].userId].username)] + rest else rest
  }

  /** ORDER BY al.timestamp DESC. */
  predicate Newer(a: Activity, b: Activity)
  {
    a.log.timestamp >= b.log.timestamp
  }

  lemma NewerIsTotal()
    ensures TotalPreorder(Newer)
  {
  }

  /** ... LIMIT 10: the ten newest joined entries (fewer when there are fewer),
      newest first. */
  function RecentActivity(logs: seq<AccessLog>, users: Table<User>): (recent: seq<Activity>)
    ensures |recent| <= 10
    ensures |recent| == if |ActivityJoin(logs, users.rows)| < 10 then |ActivityJoin(logs, users.rows)| else 10
    ensures Sorted(recent, Newer)
    ensures forall i :: 0 <= i < |recent| ==>
              recent[i].log in logs && recent[i].log.userId in users.rows
              && recent[i].username == users.rows[recent[i].log.userId].username
  {
    NewerIsTotal();
    var all := SortBy(ActivityJoin(logs, users.rows), Newer);
    assert forall i :: 0 <= i < |all| ==> all[i] in multiset(ActivityJoin(logs, users.rows));
    if |all| <= 10 then all else all[..10]
  }

  /** No joined entry left out of the list is newer than one shown. */
  lemma RecentAreNewest(logs: seq<AccessLog>, users: Table<User>)
    ensures var recent := RecentActivity(logs, users);
            var all := SortBy((NewerIsTotal(); ActivityJoin(logs, users.rows)), Newer);
            && multiset(all) == multiset(ActivityJoin(logs, users.rows))
            && recent == all[..|recent|]
            && forall i, j :: 0 <= i < |recent| <= j < |all| ==> all[j].log.timestamp <= recent[i].log.timestamp
  {
    NewerIsTotal();
    var all := SortBy(ActivityJoin(logs, users.rows), Newer);
    TakeIsTop(all, Newer, |RecentActivity(logs, users)|);
  }

  // ------------------------------------------------------------------ change_password

  const PasswordIncorrect := "Current password is incorrect!"
  const PasswordsDiffer := "New passwords do not match!"
  const PasswordUpdated := "Password updated successfully!"

  /** UPDATE users SET password_hash = ? WHERE user_id = ?: only that user's hash
      changes. */
  function SetPassword(users: Table<User>, userId: int, hash: PasswordHash): (r: Table<User>)
    requires users.Valid()
    ensures r.Valid() && r.next == users.next && r.rows.Keys == users.rows.Keys
    ensures forall id :: id in users.rows && id != userId ==> r.rows[id] == users.rows[id]
    ensures userId in users.rows ==>
              r.rows[userId].passwordHash == hash && r.rows[userId].(passwordHash := hash) == users.rows[userId].(passwordHash := hash)
  {
    if userId in users.rows then Replace(users, userId, users.rows[userId].(passwordHash := hash)) else users
  }

  /** password_verify against the stored hash; a missing row has no hash and
      never verifies. */
  predicate CurrentPasswordMatches(users: Table<User>, userId: int, password: string)
  {
    userId in users.rows && PasswordVerify(password, users.rows[userId].passwordHash)
  }

  /** After a change the new password, and only it, verifies for that user. */
  lemma ChangedPasswordVerifies(users: Table<User>, userId: int, newPassword: string, salt: int, other: string)
    requires users.Valid() && userId in users.rows
    ensures CurrentPasswordMatches(SetPassword(users, userId, PasswordHashOf(newPassword, salt)), userId, newPassword)
    ensures other != newPassword ==>
              !CurrentPasswordMatches(SetPassword(users, userId, PasswordHashOf(newPassword, salt)), userId, other)
  {
  }

  /** action 'change_password' for the signed-in user. The UPDATE runs without
      try/catch; its return value is not looked at, so the success message shows
      even when it fails quietly. */
  method ChangePassword(db: Database, userId: int, currentPassword: string, newPassword: string,
                        confirmPassword: string, salt: int, fault: Fault) returns (r: Response)
    modifies db`users
    ensures !CurrentPasswordMatches(old(db.users), userId, currentPassword) ==>
              r == ShownError(PasswordIncorrect) && db.users == old(db.users)
    ensures CurrentPasswordMatches(old(db.users), userId, currentPassword) && newPassword != confirmPassword ==>
              r == ShownError(PasswordsDiffer) && db.users == old(db.users)
    ensures CurrentPasswordMatches(old(db.users), userId, currentPassword) && newPassword == confirmPassword ==>
              && r == (if fault.Aborts(1) then Fatal else ShownSuccess(PasswordUpdated))
              && db.users == if fault.Persists(1) then SetPassword(old(db.users), userId, PasswordHashOf(newPassword, salt))
                             else old(db.users)
  {
    if !CurrentPasswordMatches(db.users, userId, currentPassword) {
      return ShownError(PasswordIncorrect);
    }
    if newPassword != confirmPassword {
      return ShownError(PasswordsDiffer);
    }
    var hash := PasswordHashOf(newPassword, salt);
    if fault == Throws(1) {
      return Fatal;
    }
    if fault != ReturnsFalse(1) {
      db.users := SetPassword(db.users, userId, hash);
    }
    return ShownSuccess(PasswordUpdated);
  }

  datatype DashboardPost = PostChangePassword(currentPassword: string, newPassword: string, confirmPassword: string)
                         | NoPost

  /** The page's POST handling: check_session, then change_password for the
      session's user. */
  method HandlePost(db: Database, session: Session, post: DashboardPost, salt: int, fault: Fault) returns (r: Response)
    modifies db`users
    ensures !session.LoggedIn() ==> r == Redirect(LoginUrl) && unchanged(db)
    ensures session.LoggedIn() && post.NoPost? ==> r == Shown && unchanged(db)
    ensures session.LoggedIn() && post.PostChangePassword? ==>
              db.users.rows.Keys == old(db.users.rows.Keys) &&
              forall id :: id in old(db.users.rows) && id != session.UserId() ==> db.users.rows[id] == old(db.users.rows[id])
  {
    var guard := CheckSession(session);
    if guard.Some? {
      return guard.value;
    }
    match post {
      case PostChangePassword(current, newPassword, confirm) =>
        r := ChangePassword(db, session.UserId(), current, newPassword, confirm, salt, fault);
      case NoPost =>
        r := Shown;
    }
  }
}
