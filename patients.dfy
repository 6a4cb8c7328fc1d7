/** patients.php: patient intake, admission into a room, discharge, removal, and
    the per-patient count of open admissions shown in the patient list. */
module PatientsPage {
  import opened Common
  import opened Tables
  import opened Schema
  import opened Hospital
  import opened Config

  const RemoveBlocked := "Cannot remove patient with active admissions. Discharge the patient first."

  // ------------------------------------------------------------ single statements

  /** INSERT INTO patient_admissions (...) VALUES (?, ?, NOW(), ?, ?): discharge
      date and notes are left NULL. */
  function NewAdmission(patientId: int, roomId: int, doctorId: int, diagnosis: string, now: Timestamp): Admission
  {
    Admission(patientId, roomId, now, doctorId, diagnosis, None, None)
  }

  /** UPDATE rooms SET occupied = occupied + 1, status = 'Occupied'
      WHERE room_id = ? AND status = 'Available'.
      Only an Available room changes: its count goes up by one and it becomes
      Occupied. Capacity is never looked at, and no other room changes. */
  function OccupyIfAvailable(rooms: Table<Room>, roomId: int): (r: Table<Room>)
    requires rooms.Valid()
    ensures r.Valid() && r.next == rooms.next && r.rows.Keys == rooms.rows.Keys
    ensures forall id :: id in rooms.rows && id != roomId ==> r.rows[id] == rooms.rows[id]
    ensures roomId in rooms.rows && rooms.rows[roomId].status == Available ==>
              && r.rows[roomId].occupied == rooms.rows[roomId].occupied + 1
              && r.rows[roomId].status == Occupied
              && r.rows[roomId].(occupied := 0, status := "") == rooms.rows[roomId].(occupied := 0, status := "")
    ensures roomId !in rooms.rows || rooms.rows[roomId].status != Available ==> r == rooms
  {
    if roomId in rooms.rows && rooms.rows[roomId].status == Available then
      var room := rooms.rows[roomId];
      Replace(rooms, roomId, room.(occupied := room.occupied + 1, status := Occupied))
    else
      rooms
  }

  /** UPDATE patient_admissions SET discharge_date = NOW(), discharge_notes = ?
      WHERE admission_id = ? AND discharge_date IS NULL.
      Only a still-open admission is closed; a closed one is left as it is. */
  function CloseAdmission(admissions: Table<Admission>, admissionId: int, notes: string, now: Timestamp): (r: Table<Admission>)
    requires admissions.Valid()
    ensures r.Valid() && r.next == admissions.next && r.rows.Keys == admissions.rows.Keys
    ensures forall id :: id in admissions.rows && id != admissionId ==> r.rows[id] == admissions.rows[id]
    ensures admissionId in admissions.rows && admissions.rows[admissionId].Open() ==>
              && r.rows[admissionId].dischargeDate == Some(now)
              && r.rows[admissionId].dischargeNotes == Some(notes)
              && r.rows[admissionId].(dischargeDate := None, dischargeNotes := None)
                 == admissions.rows[admissionId].(dischargeDate := None, dischargeNotes := None)
    ensures admissionId !in admissions.rows || !admissions.rows[admissionId].Open() ==> r == admissions
  {
    if admissionId in admissions.rows && admissions.rows[admissionId].Open() then
      var a := admissions.rows[admissionId];
      Replace(admissions, admissionId, a.(dischargeDate := Some(now), dischargeNotes := Some(notes)))
    else
      admissions
  }

  /** UPDATE rooms SET occupied = occupied - 1,
        status = CASE WHEN occupied - 1 <= 0 THEN 'Available' ELSE status END
      WHERE room_id = ?.
      MySQL performs the assignments of a single-table UPDATE from left to
      right, so the CASE reads the count already decremented: the room turns
      Available when the new count is 1 or less. There is no lower bound. */
  function ReleaseRoom(rooms: Table<Room>, roomId: int): (r: Table<Room>)
    requires rooms.Valid()
    ensures r.Valid() && r.next == rooms.next && r.rows.Keys == rooms.rows.Keys
    ensures forall id :: id in rooms.rows && id != roomId ==> r.rows[id] == rooms.rows[id]
    ensures roomId in rooms.rows ==>
              && r.rows[roomId].occupied == rooms.rows[roomId].occupied - 1
              && r.rows[roomId].status
                 == (if r.rows[roomId].occupied <= 1 then Available else rooms.rows[roomId].status)
              && r.rows[roomId].(occupied := 0, status := "") == rooms.rows[roomId].(occupied := 0, status := "")
    ensures roomId !in rooms.rows ==> r == rooms
  {
    if roomId in rooms.rows then
      var room := rooms.rows[roomId];
      // first assignment: occupied = occupied - 1
      var decremented := room.(occupied := room.occupied - 1);
      // second assignment: the CASE sees the value the first one stored
      var updated := decremented.(status := if decremented.occupied - 1 <= 0 then Available else decremented.status);
      Replace(rooms, roomId, updated)
    else
      rooms
  }

  /** SELECT COUNT(*) FROM patient_admissions WHERE patient_id = ? AND
      discharge_date IS NULL. */
  function OpenAdmissionCount(admissions: Table<Admission>, patientId: int): nat
  {
    CountWhere(admissions, (a: Admission) => a.patientId == patientId && a.Open())
  }

  // ------------------------------------------------------------ properties of the statements

  /** A second admit against the same room changes nothing more: the first one
      either made the room Occupied or found it not Available. So two admits
      raise its count by at most one. */
  lemma OccupyTwice(rooms: Table<Room>, roomId: int)
    requires rooms.Valid()
    ensures OccupyIfAvailable(OccupyIfAvailable(rooms, roomId), roomId) == OccupyIfAvailable(rooms, roomId)
    ensures roomId in rooms.rows ==>
              OccupyIfAvailable(OccupyIfAvailable(rooms, roomId), roomId).rows[roomId].occupied
              <= rooms.rows[roomId].occupied + 1
  {
    var once := OccupyIfAvailable(rooms, roomId);
    if roomId in rooms.rows && rooms.rows[roomId].status == Available {
      assert once.rows[roomId].status == Occupied != Available;
    }
  }

  /** Discharging an already discharged admission leaves it as it is. */
  lemma CloseTwice(admissions: Table<Admission>, admissionId: int, notes1: string, now1: Timestamp,
                   notes2: string, now2: Timestamp)
    requires admissions.Valid()
    ensures CloseAdmission(CloseAdmission(admissions, admissionId, notes1, now1), admissionId, notes2, now2)
            == CloseAdmission(admissions, admissionId, notes1, now1)
  {
  }

  /** The room update applied n times in a row (n discharges naming the room). */
  function ReleaseTimes(rooms: Table<Room>, roomId: int, n: nat): (r: Table<Room>)
    requires rooms.Valid()
    ensures r.Valid() && r.rows.Keys == rooms.rows.Keys
  {
    if n == 0 then rooms else ReleaseRoom(ReleaseTimes(rooms, roomId, n - 1), roomId)
  }

  /** Every discharge naming a room lowers its count by one with no floor, so
      enough of them make it negative. After at least one, the room is
      Available exactly when the count is 1 or less; otherwise the status is
      the one it had before. */
  lemma {:induction false} RepeatedRelease(rooms: Table<Room>, roomId: int, n: nat)
    requires rooms.Valid() && roomId in rooms.rows
    ensures ReleaseTimes(rooms, roomId, n).rows[roomId].occupied == rooms.rows[roomId].occupied - n
    ensures n >= 1 ==>
              ReleaseTimes(rooms, roomId, n).rows[roomId].status
              == if rooms.rows[roomId].occupied - n <= 1 then Available else rooms.rows[roomId].status
  {
    if n > 0 {
      RepeatedRelease(rooms, roomId, n - 1);
    }
  }

  /** The example of an admission then two discharges against one room that
      starts empty and Available: the count ends at -1, not 0. */
  lemma AdmitThenTwoDischarges(rooms: Table<Room>, roomId: int)
    requires rooms.Valid() && roomId in rooms.rows
    requires rooms.rows[roomId].occupied == 0 && rooms.rows[roomId].status == Available
    ensures var admitted := OccupyIfAvailable(rooms, roomId);
            && admitted.rows[roomId].occupied == 1 && admitted.rows[roomId].status == Occupied
            && ReleaseRoom(admitted, roomId).rows[roomId].occupied == 0
            && ReleaseRoom(admitted, roomId).rows[roomId].status == Available
            && ReleaseTimes(admitted, roomId, 2).rows[roomId].occupied == -1
  {
    var admitted := OccupyIfAvailable(rooms, roomId);
    RepeatedRelease(admitted, roomId, 2);
    assert ReleaseTimes(admitted, roomId, 1) == ReleaseRoom(admitted, roomId);
  }

  /** A room holding two patients turns Available when one of them leaves. */
  lemma ReleaseFromTwo(rooms: Table<Room>, roomId: int)
    requires rooms.Valid() && roomId in rooms.rows
    requires rooms.rows[roomId].occupied == 2 && rooms.rows[roomId].status == Occupied
    ensures ReleaseRoom(rooms, roomId).rows[roomId].occupied == 1
    ensures ReleaseRoom(rooms, roomId).rows[roomId].status == Available
  {
  }

  // ------------------------------------------------------------ requests

  /** action 'add': one INSERT of the sanitised form fields, outside any
      transaction and without try/catch: a throw ends the script, a quiet
      failure adds no row and the page is shown as usual. */
  method AddPatient(db: Database, env: Env, firstName: string, lastName: string, dateOfBirth: string,
                    gender: string, address: string, phone: string, email: string,
                    emergencyContact: string, bloodGroup: string, fault: Fault) returns (r: Response)
    modifies db`patients
    ensures r == if fault.Aborts(1) then Fatal else Shown
    ensures db.patients
            == if fault.Persists(1)
               then Insert(old(db.patients), Patient(
                      SanitizeInput(firstName, env.quotes), SanitizeInput(lastName, env.quotes),
                      SanitizeInput(dateOfBirth, env.quotes), SanitizeInput(gender, env.quotes),
                      SanitizeInput(address, env.quotes), SanitizeInput(phone, env.quotes),
                      SanitizeInput(email, env.quotes), SanitizeInput(emergencyContact, env.quotes),
                      SanitizeInput(bloodGroup, env.quotes)))
               else old(db.patients)
  {
    var q := env.quotes;
    var row := Patient(SanitizeInput(firstName, q), SanitizeInput(lastName, q), SanitizeInput(dateOfBirth, q),
                       SanitizeInput(gender, q), SanitizeInput(address, q), SanitizeInput(phone, q),
                       SanitizeInput(email, q), SanitizeInput(emergencyContact, q), SanitizeInput(bloodGroup, q));
    if fault == Throws(1) {
      return Fatal;
    }
    if fault != ReturnsFalse(1) {
      db.patients := Insert(db.patients, row);
    }
    return Shown;
  }

  /** action 'admit': in one transaction, (1) insert the admission, (2) occupy
      the room if it is Available. The admission goes in whether or not the
      room update matched a row. A throwing statement rolls both back. */
  method AdmitPatient(db: Database, env: Env, patientId: int, roomId: int, doctorId: int,
                      diagnosis: string, fault: Fault) returns (r: Response)
    modifies db`admissions, db`rooms
    ensures r == if fault.Aborts(2) then Fatal else Shown
    ensures db.admissions
            == if fault.Commits(2, 1)
               then Insert(old(db.admissions), NewAdmission(patientId, roomId, doctorId,
                                                            SanitizeInput(diagnosis, env.quotes), env.now))
               else old(db.admissions)
    ensures db.rooms == if fault.Commits(2, 2) then OccupyIfAvailable(old(db.rooms), roomId) else old(db.rooms)
  {
    var diagnosisText := SanitizeInput(diagnosis, env.quotes);
    // begin_transaction
    var savedAdmissions, savedRooms := db.admissions, db.rooms;
    if fault == Throws(1) {
      return Fatal;
    }
    if fault != ReturnsFalse(1) {
      db.admissions := Insert(db.admissions, NewAdmission(patientId, roomId, doctorId, diagnosisText, env.now));
    }
    if fault == Throws(2) {
      db.admissions, db.rooms := savedAdmissions, savedRooms;  // rollback
      return Fatal;
    }
    if fault != ReturnsFalse(2) {
      db.rooms := OccupyIfAvailable(db.rooms, roomId);
    }
    // commit
    return Shown;
  }

  /** action 'discharge': in one transaction, (1) close the admission if it is
      still open, (2) release the posted room. The room update runs whatever the
      first statement matched, and it names the posted room, which need not be
      the admission's. */
  method DischargePatient(db: Database, env: Env, admissionId: int, dischargeNotes: string,
                          roomId: int, fault: Fault) returns (r: Response)
    modifies db`admissions, db`rooms
    ensures r == if fault.Aborts(2) then Fatal else Shown
    ensures db.admissions
            == if fault.Commits(2, 1)
               then CloseAdmission(old(db.admissions), admissionId, SanitizeInput(dischargeNotes, env.quotes), env.now)
               else old(db.admissions)
    ensures db.rooms == if fault.Commits(2, 2) then ReleaseRoom(old(db.rooms), roomId) else old(db.rooms)
  {
    var notes := SanitizeInput(dischargeNotes, env.quotes);
    var savedAdmissions, savedRooms := db.admissions, db.rooms;
    if fault == Throws(1) {
      return Fatal;
    }
    if fault != ReturnsFalse(1) {
      db.admissions := CloseAdmission(db.admissions, admissionId, notes, env.now);
    }
    if fault == Throws(2) {
      db.admissions, db.rooms := savedAdmissions, savedRooms;
      return Fatal;
    }
    if fault != ReturnsFalse(2) {
      db.rooms := ReleaseRoom(db.rooms, roomId);
    }
    return Shown;
  }

  /** action 'remove': refused with a message while the patient has an open
      admission. Otherwise, in one transaction, (1) delete all of the patient's
      admissions, (2) delete the patient. Rooms are never touched. */
  method RemovePatient(db: Database, patientId: int, fault: Fault) returns (r: Response)
    modifies db`admissions, db`patients
    ensures OpenAdmissionCount(old(db.admissions), patientId) > 0 ==>
              r == ShownError(RemoveBlocked) && unchanged(db)
    ensures OpenAdmissionCount(old(db.admissions), patientId) == 0 ==>
              && r == (if fault.Aborts(2) then Fatal else Shown)
              && db.admissions == (if fault.Commits(2, 1)
                                   then DeleteWhere(old(db.admissions), (a: Admission) => a.patientId == patientId)
                                   else old(db.admissions))
              && db.patients == (if fault.Commits(2, 2) then Delete(old(db.patients), patientId) else old(db.patients))
  {
    var active := OpenAdmissionCount(db.admissions, patientId);
    if active > 0 {
      return ShownError(RemoveBlocked);
    }
    var savedAdmissions, savedPatients := db.admissions, db.patients;
    if fault == Throws(1) {
      return Fatal;
    }
    if fault != ReturnsFalse(1) {
      db.admissions := DeleteWhere(db.admissions, (a: Admission) => a.patientId == patientId);
    }
    if fault == Throws(2) {
      db.admissions, db.patients := savedAdmissions, savedPatients;
      return Fatal;
    }
    if fault != ReturnsFalse(2) {
      db.patients := Delete(db.patients, patientId);
    }
    return Shown;
  }

  /** A removal that went through leaves no admission of the patient behind and
      no patient row. */
  lemma RemovalLeavesNothing(admissions: Table<Admission>, patients: Table<Patient>, patientId: int)
    requires admissions.Valid() && patients.Valid()
    ensures var kept := DeleteWhere(admissions, (a: Admission) => a.patientId == patientId);
            forall id :: id in kept.rows ==> kept.rows[id].patientId != patientId
    ensures patientId !in Delete(patients, patientId).rows
  {
  }

  datatype PatientPost =
    | PostAdd(firstName: string, lastName: string, dateOfBirth: string, gender: string, address: string,
              phone: string, email: string, emergencyContact: string, bloodGroup: string)
    | PostAdmit(patientId: int, roomId: int, doctorId: int, diagnosis: string)
    | PostDischarge(admissionId: int, dischargeNotes: string, roomId: int)
    | PostRemove(removeId: int)
    | NoPost

  /** The page's POST handling: check_session, then the switch on `action`. Any
      logged-in user may post here; the role is not consulted. */
  method HandlePost(db: Database, session: Session, env: Env, post: PatientPost, fault: Fault) returns (r: Response)
    modifies db`patients, db`admissions, db`rooms
    ensures !session.LoggedIn() ==> r == Redirect(LoginUrl) && unchanged(db)
    ensures session.LoggedIn() && post.NoPost? ==> r == Shown && unchanged(db)
    ensures !post.PostAdmit? && !post.PostDischarge? ==> db.rooms == old(db.rooms)
  {
    var guard := CheckSession(session);
    if guard.Some? {
      return guard.value;
    }
    match post {
      case PostAdd(f, l, dob, g, a, p, e, ec, b) =>
        r := AddPatient(db, env, f, l, dob, g, a, p, e, ec, b, fault);
      case PostAdmit(patientId, roomId, doctorId, diagnosis) =>
        r := AdmitPatient(db, env, patientId, roomId, doctorId, diagnosis, fault);
      case PostDischarge(admissionId, notes, roomId) =>
        r := DischargePatient(db, env, admissionId, notes, roomId, fault);
      case PostRemove(patientId) =>
        r := RemovePatient(db, patientId, fault);
      case NoPost =>
        r := Shown;
    }
  }

  // ------------------------------------------------------------ the patient list

  /** The admissions the listing query reads: open ones whose room row and
      doctor (staff) row exist, as the inner joins demand. */
  function ListedAdmissions(admissions: Table<Admission>, rooms: Table<Room>, staff: Table<Staff>): (ids: set<int>)
    ensures forall id :: id in ids <==>
              id in admissions.rows && admissions.rows[id].Open()
              && admissions.rows[id].roomId in rooms.rows && admissions.rows[id].doctorId in staff.rows
  {
    set id | id in admissions.rows && admissions.rows[id].Open()
             && admissions.rows[id].roomId in rooms.rows && admissions.rows[id].doctorId in staff.rows
  }

  /** The fetched admission ids that belong to one patient, in fetch order. */
  function IdsOfPatient(admissions: map<int, Admission>, ids: seq<int>, patientId: int): seq<int>
    requires forall i :: 0 <= i < |ids| ==> ids[i] in admissions
  {
    if ids == [] then []
    else
      var last := ids[|ids| - 1];
      IdsOfPatient(admissions, ids[..|ids| - 1], patientId)
      + (if admissions[last].patientId == patientId then [last] else [])
  }

  /** The loop over the fetched rows: `$patient_status[$pid]` counts each
      patient's rows and `$patient_admissions[$pid]` collects them, in order. */
  method TallyOpenAdmissions(admissions: map<int, Admission>, ids: seq<int>)
      returns (status: map<int, nat>, grouped: map<int, seq<int>>)
    requires forall i :: 0 <= i < |ids| ==> ids[i] in admissions
    ensures forall p :: p in status <==> |IdsOfPatient(admissions, ids, p)| > 0
    ensures forall p :: p in status ==> status[p] == |IdsOfPatient(admissions, ids, p)|
    ensures grouped.Keys == status.Keys
    ensures forall p :: p in grouped ==> grouped[p] == IdsOfPatient(admissions, ids, p)
  {
    status, grouped := map[], map[];
    var i := 0;
    while i < |ids|
      invariant 0 <= i <= |ids|
      invariant forall p :: p in status <==> |IdsOfPatient(admissions, ids[..i], p)| > 0
      invariant forall p :: p in status ==> status[p] == |IdsOfPatient(admissions, ids[..i], p)|
      invariant grouped.Keys == status.Keys
      invariant forall p :: p in grouped ==> grouped[p] == IdsOfPatient(admissions, ids[..i], p)
    {
      var id := ids[i];
      var patientId := admissions[id].patientId;
      if patientId !in status {
        status := status[patientId := 0];
      }
      status := status[patientId := status[patientId] + 1];
      if patientId !in grouped {
        grouped := grouped[patientId := []];
      }
      grouped := grouped[patientId := grouped[patientId] + [id]];
      assert ids[..i + 1][..i] == ids[..i];
      i := i + 1;
    }
    assert ids[..|ids|] == ids;
  }

  /** "Currently Admitted" is shown exactly for a patient with a count above 0. */
  predicate CurrentlyAdmitted(status: map<int, nat>, patientId: int)
  {
    patientId in status && status[patientId] > 0
  }

  /** The same admissions as a set. */
  function IdSetOfPatient(admissions: map<int, Admission>, ids: seq<int>, patientId: int): (r: set<int>)
    requires forall i :: 0 <= i < |ids| ==> ids[i] in admissions
    ensures forall id :: id in r <==> id in ids && admissions[id].patientId == patientId
  {
    if ids == [] then {}
    else
      var last := ids[|ids| - 1];
      assert ids == ids[..|ids| - 1] + [last];
      IdSetOfPatient(admissions, ids[..|ids| - 1], patientId)
      + (if admissions[last].patientId == patientId then {last} else {})
  }

  /** Without repeated ids, the list holds as many ids as the set. */
  lemma {:induction false} IdsOfPatientCount(admissions: map<int, Admission>, ids: seq<int>, patientId: int)
    requires forall i :: 0 <= i < |ids| ==> ids[i] in admissions
    requires forall i, j :: 0 <= i < j < |ids| ==> ids[i] != ids[j]
    ensures |IdsOfPatient(admissions, ids, patientId)| == |IdSetOfPatient(admissions, ids, patientId)|
  {
    if ids != [] {
      var front := ids[..|ids| - 1];
      var last := ids[|ids| - 1];
      IdsOfPatientCount(admissions, front, patientId);
      forall k | 0 <= k < |front| ensures front[k] != last {
        assert front[k] == ids[k];
      }
      assert last !in IdSetOfPatient(admissions, front, patientId);
    }
  }

  /** When the fetched ids are the listed admissions, each once, a patient's
      count is the number of its listed admissions, and "Currently Admitted"
      appears exactly for a patient with one. */
  lemma TallyCountsListedAdmissions(admissions: Table<Admission>, rooms: Table<Room>, staff: Table<Staff>,
                                    ids: seq<int>, patientId: int)
    requires forall i, j :: 0 <= i < j < |ids| ==> ids[i] != ids[j]
    requires forall id :: id in ids <==> id in ListedAdmissions(admissions, rooms, staff)
    ensures forall i :: 0 <= i < |ids| ==> ids[i] in admissions.rows
    ensures |IdsOfPatient(admissions.rows, ids, patientId)|
            == |set id | id in ListedAdmissions(admissions, rooms, staff) && admissions.rows[id].patientId == patientId|
    ensures |IdsOfPatient(admissions.rows, ids, patientId)| > 0 <==>
              exists id :: id in ListedAdmissions(admissions, rooms, staff) && admissions.rows[id].patientId == patientId
  {
    var listed := ListedAdmissions(admissions, rooms, staff);
    forall i | 0 <= i < |ids| ensures ids[i] in listed {
      var id := ids[i];
      assert id in ids;
      assert id in ListedAdmissions(admissions, rooms, staff);
    }
    IdsOfPatientCount(admissions.rows, ids, patientId);
    var mine := set id | id in listed && admissions.rows[id].patientId == patientId;
    var fetched := IdSetOfPatient(admissions.rows, ids, patientId);
    forall id ensures id in fetched <==> id in mine {
      if id in mine {
        assert id in ids;
      }
    }
    assert fetched == mine;
    if exists id :: id in listed && admissions.rows[id].patientId == patientId {
      var id :| id in listed && admissions.rows[id].patientId == patientId;
      assert id in mine;
    }
  }

  /** The "Currently Admitted" badge: for the tally the loop builds over the
      listing query's rows, a patient gets the badge exactly when the query
      returns one of the patient's admissions. */
  lemma BadgeMeansAdmitted(admissions: Table<Admission>, rooms: Table<Room>, staff: Table<Staff>,
                           ids: seq<int>, status: map<int, nat>, patientId: int)
    requires forall i, j :: 0 <= i < j < |ids| ==> ids[i] != ids[j]
    requires forall id :: id in ids <==> id in ListedAdmissions(admissions, rooms, staff)
    requires forall i :: 0 <= i < |ids| ==> ids[i] in admissions.rows
    requires forall p :: p in status <==> |IdsOfPatient(admissions.rows, ids, p)| > 0
    requires forall p :: p in status ==> status[p] == |IdsOfPatient(admissions.rows, ids, p)|
    ensures CurrentlyAdmitted(status, patientId) <==>
              exists id :: id in ListedAdmissions(admissions, rooms, staff) && admissions.rows[id].patientId == patientId
  {
    TallyCountsListedAdmissions(admissions, rooms, staff, ids, patientId);
  }

  /** The list counts only admissions that survive the joins, while removal
      counts every open admission: the list's count never exceeds the one that
      blocks removal, and falls short of it when a room or doctor row is gone. */
  lemma ListedAtMostOpen(admissions: Table<Admission>, rooms: Table<Room>, staff: Table<Staff>, patientId: int)
    ensures |set id | id in ListedAdmissions(admissions, rooms, staff) && admissions.rows[id].patientId == patientId|
            <= OpenAdmissionCount(admissions, patientId)
  {
    var listed := set id | id in ListedAdmissions(admissions, rooms, staff) && admissions.rows[id].patientId == patientId;
    var open := set id | id in admissions.rows && admissions.rows[id].patientId == patientId
                         && admissions.rows[id].Open();
    CountWhereIs(admissions, (a: Admission) => a.patientId == patientId && a.Open(), open);
    assert listed <= open;
    assert open == listed + (open - listed);
  }
}
