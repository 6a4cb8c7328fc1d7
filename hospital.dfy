/** The shared state every page works on: the MySQL database, one field per
    table, and the PHP session of the browser making the request. */
module Hospital {
  import opened Common
  import opened Tables
  import opened Schema

  class Database {
    const defaults: SchemaDefaults

    var patients: ValidTable<Patient>
    var admissions: ValidTable<Admission>
    var rooms: ValidTable<Room>
    var staff: ValidTable<Staff>
    var departments: ValidTable<Department>
    var users: ValidTable<User>
    var inventory: ValidTable<Item>
    var expenses: ValidTable<Expense>
    /** access_logs is only ever appended to. */
    var accessLogs: seq<AccessLog>

    /** A freshly created schema: every table empty. */
    constructor (defaults: SchemaDefaults)
      ensures this.defaults == defaults
      ensures patients.rows == map[] && admissions.rows == map[] && rooms.rows == map[]
      ensures staff.rows == map[] && departments.rows == map[] && users.rows == map[]
      ensures inventory.rows == map[] && expenses.rows == map[] && accessLogs == []
    {
      this.defaults := defaults;
      patients, admissions, rooms, staff := Empty(), Empty(), Empty(), Empty();
      departments, users, inventory, expenses := Empty(), Empty(), Empty(), Empty();
      accessLogs := [];
    }
  }

  datatype SessionKey = UserIdKey | UsernameKey | RoleKey | TempCredentialsKey | SuccessMessageKey

  datatype SessionValue =
    | IntValue(number: int)
    | TextValue(text: string)
    | CredentialsValue(username: string, password: string)

  /** Each key holds the kind of value the pages store under it. */
  predicate WellTyped(vars: map<SessionKey, SessionValue>)
  {
    && (UserIdKey in vars ==> vars[UserIdKey].IntValue?)
    && (UsernameKey in vars ==> vars[UsernameKey].TextValue?)
    && (RoleKey in vars ==> vars[RoleKey].TextValue?)
    && (TempCredentialsKey in vars ==> vars[TempCredentialsKey].CredentialsValue?)
    && (SuccessMessageKey in vars ==> vars[SuccessMessageKey].TextValue?)
  }

  type SessionVars = vars: map<SessionKey, SessionValue> | WellTyped(vars) witness map[]

  /** $_SESSION: a small map from keys to values. */
  class Session {
    var vars: SessionVars

    /** A new, anonymous session. */
    constructor ()
      ensures vars == map[]
    {
      vars := map[];
    }

    /** The three keys login.php sets on success. */
    method SignIn(userId: int, username: string, role: string)
      modifies this
      ensures vars == old(vars)[UserIdKey := IntValue(userId)][UsernameKey := TextValue(username)]
                               [RoleKey := TextValue(role)]
    {
      vars := vars[UserIdKey := IntValue(userId)][UsernameKey := TextValue(username)][RoleKey := TextValue(role)];
    }

    /** $_SESSION['temp_credentials'] = ['username' => ..., 'password' => ...]. */
    method StoreCredentials(username: string, password: string)
      modifies this
      ensures vars == old(vars)[TempCredentialsKey := CredentialsValue(username, password)]
    {
      vars := vars[TempCredentialsKey := CredentialsValue(username, password)];
    }

    /** $_SESSION['success_message'] = message. */
    method StoreSuccessMessage(message: string)
      modifies this
      ensures vars == old(vars)[SuccessMessageKey := TextValue(message)]
    {
      vars := vars[SuccessMessageKey := TextValue(message)];
    }

    /** $_SESSION = array(). */
    method Clear()
      modifies this
      ensures vars == map[]
    {
      vars := map[];
    }

    /** unset($_SESSION[key]). */
    method Unset(key: SessionKey)
      modifies this
      ensures vars == old(vars) - {key}
    {
      vars := vars - {key};
    }

    /** isset($_SESSION['user_id']). */
    predicate LoggedIn()
      reads this
    {
      UserIdKey in vars
    }

    /** $_SESSION['user_id'] of a logged-in session. */
    function UserId(): int
      reads this
      requires LoggedIn()
    {
      vars[UserIdKey].number
    }

    /** $_SESSION['role'] compared with a role name by `!==`: a missing role is
        never equal to one. */
    predicate HasRole(role: string)
      reads this
    {
      RoleKey in vars && vars[RoleKey] == TextValue(role)
    }
  }
}
