# Hospital management system: a Dafny model

The system is a set of PHP pages over one MySQL database. Signed-in staff use them to:

- register patients, admit them to rooms and discharge them;
- manage rooms and their occupancy;
- add departments and staff, with a generated login account for each new member;
- keep the inventory and the expense ledger;
- see a role-dependent dashboard and change their password.

`config.php` supplies `sanitize_input` (trim, then stripslashes, then htmlspecialchars) and
`check_session`. `login.php`, `logout.php` and `register.php` handle the account life cycle.

The model has one module per page:

- `Config`, `PatientsPage`, `RoomsPage`, `JobsPage`, `AdminPage`, `DashboardPage`, `LoginPage`,
  `LogoutPage` and `RegisterPage`;
- shared modules:
  - `Common`: responses, the environment, statement faults;
  - `Tables`: a table is a map from auto-increment key to row;
  - `Schema`: the row types;
  - `Hospital`: the `Database` and `Session` classes;
  - `Text`: decimal, lower-case and hex text;
  - `Sorting`: `ORDER BY` as a sort by a total preorder.

The database is a class whose fields are the tables. Each page action is a method that changes
only the tables it writes (`modifies db`rooms`, ...). The session is a class holding a map of
session variables, changed only through its own methods.

Each SQL statement an action runs is numbered from 1. A `Fault` parameter says whether one of
them throws (`Throws(k)`, mysqli exception mode) or returns false (`ReturnsFalse(k)`, silent
mode).

- A statement inside `begin_transaction` ... `commit` takes effect only if the transaction
  commits (`Commits`).
- A statement outside a transaction takes effect unless it fails (`Persists`).
- A throw ends the script (`Fatal`).

Each method's contract states its response and the whole new state in terms of the old one.
Lemmas then prove what that means, for example:

- an admission followed by two discharges leaves a room's count at -1;
- two active accounts with the same name lock each other out;
- a registered user can sign in;
- a failed account INSERT in `register.php` leaves a staff row with no account;
- the category totals do not depend on the order of the expense list.

## Model

| member | source | states |
|---|---|---|
| Config.TrimLeftSpec | config.php:20 | trim removes exactly the leading run of whitespace/NUL characters and stops at the first other character |
| Config.TrimRightSpec | config.php:20 | trim removes exactly the trailing run of whitespace/NUL characters and stops at the last other character |
| Config.TrimSpec | config.php:20 | the trimmed string is the contiguous middle of the input; everything cut from either end is trimmable and the result neither starts nor ends with a trimmable character |
| Config.StripSlashes | config.php:21 | stripslashes never lengthens its input |
| Config.AddSlashes | config.php:21 | the escaping inverse of stripslashes at most doubles the length |
| Config.StripSlashesOfAddSlashes | config.php:21 | stripslashes undoes addslashes on every string (round trip) |
| Config.Escape | config.php:22 | a special character becomes one of the five entities, any other character stays itself |
| Config.HtmlSpecialChars | config.php:22 | the output never contains `<`, `>` or `"` (nor `'` when single quotes are escaped) and is never shorter than the input |
| Config.SanitizeInput | config.php:19-24 | sanitised text contains no `<`, `>` or `"` (nor `'` under ENT_QUOTES) |
| Config.AmpersandsBeginEntities | config.php:22 | every `&` in htmlspecialchars output begins one of the five entities |
| Config.SanitizedAmpersands | config.php:19-24 | every `&` in sanitised text begins an entity |
| Config.DecodeEscape | config.php:22 | decoding one escaped character and a rest gives that character and the decoded rest |
| Config.DecodePlain | config.php:22 | a character that starts no entity decodes to itself |
| Config.DecodeAmpersand | config.php:22 | `&amp;` decodes to `&` |
| Config.DecodeDoubleQuote | config.php:22 | `&quot;` decodes to `"` |
| Config.DecodeSingleQuote | config.php:22 | `&#039;` decodes to `'` when single quotes are escaped |
| Config.DecodeLessThan | config.php:22 | `&lt;` decodes to `<` |
| Config.DecodeGreaterThan | config.php:22 | `&gt;` decodes to `>` |
| Config.DecodeOfHtmlSpecialChars | config.php:22 | htmlspecialchars_decode inverts htmlspecialchars on every string (round trip) |
| Config.EscapeCounts | config.php:22 | a special character escapes to text with exactly one `&` and one `;`; any other character escapes to itself |
| Config.EscapedCounts | config.php:22 | the output holds one `&` per special input character and one extra `;` per special character |
| Config.StripSlashesKeeps | config.php:21 | stripslashes keeps the count of every character other than the backslash, `0` and NUL |
| Config.TrimKeeps | config.php:20 | trim keeps the count of every non-trimmable character |
| Config.SanitizeChangesAmpersandText | config.php:19-24 | text containing `&` is changed by sanitising |
| Config.SanitizeNotIdempotent | config.php:19-24 | sanitising sanitised text that contains a special character changes it again: values sanitised twice are double-escaped |
| Config.SpecialAtLeast | config.php:22 | the count of special characters bounds the count of each special character |
| Config.SanitizedMayStartWithSpace | config.php:19-24 | because trim runs before stripslashes, sanitised text can still begin with a space (`"\\ x"` gives `" x"`) |
| Config.TrimExample | config.php:20 | trim leaves `"\\ x"` as it is |
| Config.StripSlashesExample | config.php:21 | stripslashes turns `"\\ x"` into `" x"` |
| Config.EscapeExample | config.php:22 | htmlspecialchars leaves `" x"` as it is |
| Config.CheckSession | config.php:26-32 | a redirect to login.php happens exactly when no user id is in the session |
| Config.OccurrencesAppend | config.php:22 | character counts add over concatenation |
| Tables.Insert | patients.php:23 | an INSERT adds exactly one row, under the next auto-increment key, keeps every other row and advances the counter |
| Tables.Replace | rooms.php:27 | an UPDATE by key changes only that row and a missing key changes nothing |
| Tables.Delete | admin.php:45 | a DELETE by key removes exactly that row and keeps the counter |
| Tables.DeleteWhere | patients.php:103 | a DELETE ... WHERE keeps exactly the rows that fail the condition |
| Tables.CountWhereIs | dashboard.php:29 | COUNT(*) ... WHERE equals the size of any set holding exactly the matching keys |
| Tables.Scan | admin.php:74 | a SELECT returns stored rows in increasing key order |
| Tables.ScanCovers | admin.php:74 | every stored row appears in the SELECT result |
| Tables.ScanCount | dashboard.php:37 | counting matching rows of the SELECT result equals COUNT(*) ... WHERE |
| Hospital.Session.SignIn | login.php:21-23 | sets user_id, username and role and nothing else |
| Hospital.Session.StoreCredentials | jobs.php:53-56 | sets temp_credentials and nothing else |
| Hospital.Session.StoreSuccessMessage | register.php:31 | sets success_message and nothing else |
| Hospital.Session.Clear | logout.php:14 | the session becomes empty |
| Hospital.Session.Unset | jobs.php:235 | removes one key and nothing else |
| Text.Decimal | jobs.php:41 | the decimal form of a staff id is non-empty digits without a leading zero |
| Text.ParseDecimalOfDecimal | jobs.php:41 | the decimal form reads back as the same number |
| Text.Lower | jobs.php:41 | strtolower keeps the length and lowers each character on its own |
| Text.LowerIsLower | jobs.php:41 | strtolower leaves no upper-case letter and is idempotent |
| Text.Bin2Hex | jobs.php:42 | bin2hex gives two lower-case hex digits per byte |
| Text.Hex2BinOfBin2Hex | jobs.php:42 | hex2bin undoes bin2hex (round trip) |
| Text.LexLeTotal | admin.php:74 | string order is total |
| Text.LexLeTransitive | admin.php:74 | string order is transitive |
| Text.LexLeAntisymmetric | admin.php:74 | string order is antisymmetric |
| Sorting.InsertSorted | admin.php:74 | inserting into a sorted list keeps it sorted and adds exactly that element |
| Sorting.SortBy | admin.php:74 | ORDER BY output is sorted and a permutation of its input |
| Sorting.Filter | admin.php:87-89 | array_filter keeps exactly the elements that pass, and never lengthens the list |
| Sorting.FilterAppend | admin.php:87-89 | filtering a concatenation is the concatenation of the filtered parts, so kept elements stay in input order |
| Sorting.FilterSorted | admin.php:87-89 | filtering a sorted list leaves it sorted |
| Sorting.FilterLength | admin.php:87-89 | the filtered length is the number of passing elements |
| Sorting.CountSortBy | admin.php:74 | sorting does not change how many elements pass a test |
| Sorting.TakeIsTop | dashboard.php:47 | LIMIT n after ORDER BY keeps elements ordered no later than every element cut off |
| PatientsPage.OccupyIfAvailable | patients.php:44 | an Available room gains one occupant and becomes Occupied, with nothing else changed; any other room, or a missing one, is untouched |
| PatientsPage.CloseAdmission | patients.php:66 | only an open admission is closed, with the discharge time and notes; everything else is untouched |
| PatientsPage.ReleaseRoom | patients.php:71 | the room loses one occupant and is Available when the decremented count is at most 1 (old count at most 2), otherwise keeps its status |
| PatientsPage.OccupyTwice | patients.php:44 | a second admission to the same room no longer raises its count (the room is now Occupied) |
| PatientsPage.CloseTwice | patients.php:66 | a second discharge of the same admission changes nothing |
| PatientsPage.ReleaseTimes | patients.php:71 | repeated releases keep the set of rooms |
| PatientsPage.RepeatedRelease | patients.php:71 | n discharges against a room lower its count by n with no floor at zero |
| PatientsPage.AdmitThenTwoDischarges | patients.php:44-71 | admission then two discharges drive the room count to -1 |
| PatientsPage.ReleaseFromTwo | patients.php:71 | releasing a room with two occupants marks it Available although one remains |
| PatientsPage.AddPatient | patients.php:12-26 | action add inserts exactly one patient row built from the sanitised fields; a throw is fatal and adds nothing, a quiet failure adds nothing and shows the page |
| PatientsPage.AdmitPatient | patients.php:28-54 | action admit: the admission and the room update commit or roll back together; a throw is fatal |
| PatientsPage.DischargePatient | patients.php:56-81 | action discharge: closing the admission and releasing the room commit or roll back together |
| PatientsPage.RemovePatient | patients.php:83-119 | action remove is refused with a message while an open admission exists; otherwise the admissions and then the patient are deleted in one transaction |
| PatientsPage.RemovalLeavesNothing | patients.php:103-108 | after removal no admission names the patient and the patient row is gone |
| PatientsPage.HandlePost | patients.php:4-120 | the session gate, the no-action case, and that only admit and discharge touch rooms |
| PatientsPage.ListedAdmissions | patients.php:131-137 | the list query returns exactly the open admissions whose room and doctor rows exist |
| PatientsPage.TallyOpenAdmissions | patients.php:139-152 | the loop's per-patient counts and groups match the patient's rows in the result |
| PatientsPage.IdSetOfPatient | patients.php:139-152 | the fetched admission ids of one patient |
| PatientsPage.IdsOfPatientCount | patients.php:139-152 | with distinct ids, the grouped list is as long as the set of that patient's ids |
| PatientsPage.TallyCountsListedAdmissions | patients.php:139-152 | the tally for a patient equals the number of that patient's listed admissions, and is positive exactly when one exists |
| PatientsPage.BadgeMeansAdmitted | patients.php:443 | the tally shows "Currently Admitted" for a patient exactly when the list query returns one of that patient's admissions |
| PatientsPage.ListedAtMostOpen | patients.php:87-94 | the list's count never exceeds the open-admission count that blocks removal |
| RoomsPage.SetStatus | rooms.php:27 | only the named room's status changes, to the value given |
| RoomsPage.AddRoom | rooms.php:12-21 | action add inserts one room with the schema's default status and occupancy |
| RoomsPage.UpdateRoomStatus | rooms.php:23-30 | action update sets the sanitised status of that room only |
| RoomsPage.OverrideIgnoresOccupancy | rooms.php:27 | a room with occupants can be set Available by hand |
| RoomsPage.HandlePost | rooms.php:4-33 | the session gate, the no-action case and the update effect |
| RoomsPage.RoomOrderIsTotal | rooms.php:36 | ORDER BY floor_number, room_number is a total preorder |
| RoomsPage.RoomListing | rooms.php:36 | the listing is sorted by floor and number and is a permutation of the stored rooms |
| RoomsPage.ListingHasEveryRoom | rooms.php:36 | every room appears in the listing |
| RoomsPage.ListingByFloor | rooms.php:36 | a lower floor comes earlier in the listing |
| JobsPage.FirstChar | jobs.php:41 | `$first_name[0]` is the first character, or nothing for an empty name |
| JobsPage.LowerAppend | jobs.php:41 | strtolower distributes over concatenation |
| JobsPage.UsernameShape | jobs.php:41 | the username has no capitals and is the lowered initial and last name followed by the staff id's digits |
| JobsPage.TempPassword | jobs.php:42 | the temporary password is 16 lower-case hex digits encoding the 8 random bytes |
| JobsPage.SetStaffStatus | jobs.php:68 | only that staff row's status changes |
| JobsPage.DeactivateUsers | jobs.php:74 | every account of that staff member becomes inactive, no other account changes, no account becomes active |
| JobsPage.DeactivateTwice | jobs.php:74 | deactivating twice is the same as once |
| JobsPage.AddDepartment | jobs.php:12-19 | action add_department inserts one sanitised department row |
| JobsPage.InsertStaffAccount | jobs.php:31-60 | the staff and account INSERTs commit or roll back together; the account links to the insert id |
| JobsPage.AddStaff | jobs.php:21-62 | action add_staff: that transaction, then the credentials in the session unless it threw |
| JobsPage.NewUserMatchesStaff | jobs.php:40-47 | the new account carries the staff role and id, the derived username, and accepts exactly the temporary password |
| JobsPage.UpdateStaffStatus | jobs.php:64-78 | action update_staff_status sets the status; only the exact status Inactive also deactivates the accounts |
| JobsPage.TakeTempCredentials | jobs.php:228-235 | stored credentials are shown once and then removed from the session |
| JobsPage.HandlePost | jobs.php:4-80 | the session gate, the no-action case, and that only add_staff touches the session |
| AdminPage.AdminGate | admin.php:6-12 | the page proceeds exactly for a signed-in Admin; anyone else signed in is sent to the dashboard |
| AdminPage.SetStock | admin.php:37 | only that item's quantity and reorder level change |
| AdminPage.RestockDecidesLow | admin.php:37 | after an update the item is low exactly when the new quantity is at most the new reorder level |
| AdminPage.AddInventory | admin.php:20-30 | action add_inventory inserts one item |
| AdminPage.UpdateInventory | admin.php:32-40 | action update_inventory sets quantity and reorder level of one item |
| AdminPage.RemoveInventory | admin.php:42-48 | action remove_inventory deletes that item |
| AdminPage.AddExpense | admin.php:50-60 | action add_expense inserts one expense under the posted recorder id, which is not checked |
| AdminPage.RemoveExpense | admin.php:62-68 | action remove_expense deletes that expense |
| AdminPage.HandlePost | admin.php:6-72 | the role gate leaves the database alone; inventory actions leave expenses alone and vice versa |
| AdminPage.ItemOrderIsTotal | admin.php:74 | ORDER BY category, name is a total preorder |
| AdminPage.InventoryListing | admin.php:74 | the inventory list is sorted by category and name and is a permutation of the stored items |
| AdminPage.LowStock | admin.php:87-89 | low stock holds exactly the listed items whose quantity is at most the reorder level, and keeps a sorted list sorted |
| AdminPage.LowStockSorted | admin.php:87-89 | the low-stock table comes in inventory order: by category, then name |
| AdminPage.LowStockCount | admin.php:87-89 | the low-stock list has as many entries as there are low items in the table |
| AdminPage.LowStockHasItem | admin.php:87-89 | an item is in the low-stock list exactly when it is low |
| AdminPage.Join | admin.php:78-84 | the expense join keeps exactly the expenses whose recorder exists, with the recorder's names |
| AdminPage.DateDescIsTotal | admin.php:82 | ORDER BY date DESC is a total preorder |
| AdminPage.ExpenseListing | admin.php:78-84 | the expense list is sorted newest first and is a permutation of the join |
| AdminPage.ExpenseListingContents | admin.php:78-84 | a line is listed exactly when it joins a stored expense with its existing recorder |
| AdminPage.Categories | admin.php:91-99 | the categories are exactly those of some listed expense |
| AdminPage.CategorySumAppend | admin.php:91-99 | one more expense adds its amount to its own category only |
| AdminPage.CategoriesAppend | admin.php:91-99 | one more expense adds its category |
| AdminPage.TotalsStep | admin.php:93-98 | one pass of the loop body keeps the totals equal to the sums so far |
| AdminPage.CategoryTotals | admin.php:91-99 | the loop's totals have one key per category, each holding the sum of that category's amounts |
| AdminPage.CategorySumSortBy | admin.php:82 | sorting does not change a category's sum |
| AdminPage.TotalsIgnoreOrder | admin.php:78-99 | the totals over the listing equal the totals over the unsorted join |
| AdminPage.OrphanNotJoined | admin.php:81 | an expense whose recorder is gone is left out of the join, and so of the totals |
| DashboardPage.PageRole | dashboard.php:9-18 | the page role is the stored user's role, and there is none when the row is missing |
| DashboardPage.Statistics | dashboard.php:20-39 | statistics exist exactly for Admin and Doctor; the patient total is the table size and the other counts are bounded by theirs |
| DashboardPage.CountAll | dashboard.php:25 | COUNT(*) without a condition is the table size |
| DashboardPage.CountAtMost | dashboard.php:29-37 | a conditional count never exceeds the table size |
| DashboardPage.AdmissionRaisesOccupiedCount | dashboard.php:29 | admitting to an Available room raises the Occupied count by one |
| DashboardPage.LowStockAgrees | dashboard.php:37 | the dashboard's low-stock statistic equals the length of the administration page's low-stock list |
| DashboardPage.MenuNested | dashboard.php:273-284 | Nurse sees patients; Doctor also rooms; Admin also jobs and administration |
| DashboardPage.StatisticsWithRoomsLink | dashboard.php:23-277 | statistics are shown exactly to those who see the rooms link |
| DashboardPage.OtherRolesSeeNothing | dashboard.php:23-284 | any other role sees no link and no statistics |
| DashboardPage.ActivityJoin | dashboard.php:42-48 | the activity join keeps exactly the log entries whose user exists, with that user's name |
| DashboardPage.NewerIsTotal | dashboard.php:46 | ORDER BY timestamp DESC is a total preorder |
| DashboardPage.RecentActivity | dashboard.php:41-50 | at most ten joined entries, all of them when fewer, newest first |
| DashboardPage.RecentAreNewest | dashboard.php:41-50 | the shown entries are a prefix of the sorted join, and no entry left out is newer than one shown |
| DashboardPage.SetPassword | dashboard.php:68 | only that user's hash changes |
| DashboardPage.ChangedPasswordVerifies | dashboard.php:67-72 | after a change the new password, and no other, verifies |
| DashboardPage.ChangePassword | dashboard.php:52-79 | wrong current password, mismatched confirmation and success give their messages; success is shown even when the UPDATE fails quietly |
| DashboardPage.HandlePost | dashboard.php:4-79 | the session gate, and that a password change touches no other user's row |
| LoginPage.ActiveRows | login.php:13 | the query returns exactly the active rows with that username |
| LoginPage.ActiveRowsOrdered | login.php:13 | the result keeps key order |
| LoginPage.OnlyMatch | login.php:18 | a one-row result is the only active account with that name |
| LoginPage.Authenticate | login.php:13-20 | sign-in succeeds only for the unique active account with that name whose hash the raw password verifies |
| LoginPage.AuthenticateSucceeds | login.php:13-20 | conversely such an account always signs in |
| LoginPage.AtMostOne | login.php:18 | a key-ordered result with one key has at most one row |
| LoginPage.KeySpread | login.php:18 | strictly increasing keys spread one apart per row |
| LoginPage.DuplicateNameLocksOut | login.php:18 | two active accounts with one name cannot sign in with that name at all |
| LoginPage.AngleBracketNameNeverSignsIn | login.php:8-13 | the looked-up name is sanitised, so no account whose name contains `<` signs in |
| LoginPage.StampLastLogin | login.php:26-28 | only that user's last_login changes, to now |
| LoginPage.Login | login.php:7-44 | failure shows the error and changes nothing; success signs in, stamps last_login, logs 'login' and redirects to the dashboard |
| LogoutPage.Logout | logout.php:6-22 | a signed-in session logs 'logout' and is emptied; every visitor is sent to login.php |
| LogoutPage.SignInThenOut | login.php:7-44 | an empty session that signs in and out is empty again and the log gains 'login' then 'logout' |
| RegisterPage.RegisteredStaff | register.php:20 | the staff row has department 1, status Active and the sanitised names and role |
| RegisterPage.RegisteredUser | register.php:17-27 | the account links to the staff id, is active, and accepts exactly the raw password |
| RegisterPage.Register | register.php:5-40 | the staff INSERT and the account INSERT run one after the other without a transaction; success redirects to login.php with the message in the session |
| RegisterPage.StaffWithoutAccount | register.php:20-30 | when the account INSERT fails the new staff row has no account |
| RegisterPage.RegisteredCanSignIn | register.php:27 | a registration under a free name can sign in with the same name and password |
| RegisterPage.SecondRegistrationLocksOut | register.php:27 | registering under a name an active account holds locks that name out |

## Left out

- Page output is not modelled: HTML rendering, `echo`, JavaScript and CSS.
- `die` on a failed connection and `log_error` are not modelled. Neither is a failure of a
  SELECT; only write statements can fail.
- `password_hash` and `password_verify` are idealised: a hash records the salt and the
  password, and verification compares the password. Hash strength and cost are not modelled.
  `PASSWORD_DEFAULT` (bcrypt) reads only the first 72 bytes of a password. Two passwords that
  agree on those 72 bytes verify alike in the system but are distinct in the model.
- RegisterPage.RegisteredUser: "no other password verifies" holds only under the idealised
  `password_verify`; with bcrypt, a chosen password longer than 72 bytes is also matched by
  every password with the same first 72 bytes.
- DashboardPage.ChangedPasswordVerifies: "no other password verifies" has the same 72-byte
  caveat for a new password longer than 72 bytes.
- `random_bytes` and the hash salt are inputs. `NOW()`, `CURRENT_TIMESTAMP` and `REMOTE_ADDR`
  come from an `Env` value.
- `(int)` casts of POST fields are not modelled; the methods take integers already.
- Expense amounts are integers (cents) rather than floating point.
- MySQL collations are not modelled. Name comparisons are exact, although MySQL's default
  collation is case-insensitive and ignores trailing spaces. String `ORDER BY` uses code-unit
  order, and dates are compared as stored strings.
- Rows that tie under an `ORDER BY` come out in one fixed order; MySQL leaves that order open.
- A rolled-back INSERT does not consume an auto-increment value in the model.
- `insert_id` after a quietly failed staff INSERT is 0 (`JobsPage.InsertId`). MySQL's
  behaviour there is not modelled further.
- htmlspecialchars' ENT_SUBSTITUTE and character encodings are not modelled; strings are
  sequences of characters.
- Foreign-key constraints and column types are not modelled; column defaults are a
  `SchemaDefaults` value.
- Concurrency between requests is not modelled.
- `session_start`, `session_destroy`, cookies and session expiry are not modelled.
- The PHP array key order of the category totals is not modelled; the totals are a map.
- The dashboard reads the user row with a LEFT JOIN on staff. Only the role it yields is
  modelled, as the page uses nothing else for control flow.
- The success message that `register.php` stores is never shown by `login.php`. The model
  stores it and goes no further.
- header.php is not part of this model.
- DashboardPage.Statistics: the contract gives the exact patient total but only bounds the
  other three counts. Their exact values are `CountWhere` over the tables, which
  `AdmissionRaisesOccupiedCount` and `LowStockAgrees` pin down.
- PatientsPage.HandlePost: states only the session gate and which tables each action can
  change. The full effect of each action is the contract of that action's method.
- RoomsPage.HandlePost: states the full effect only for an update without a fault. The other
  cases are the contracts of `AddRoom` and `UpdateRoomStatus`.
- JobsPage.HandlePost: states only the session gate and the session effect. The table effects
  are the contracts of the action methods.
- AdminPage.HandlePost: states the gate and which tables each action leaves alone. The full
  effects are the contracts of the action methods.
- DashboardPage.HandlePost: states that only the signed-in user's row can change. The full
  effect is the contract of `ChangePassword`.
