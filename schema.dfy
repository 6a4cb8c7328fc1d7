/** The rows of the hospital_management schema as the pages read and write them. */
module Schema {
  import opened Common

  /** password_hash() output. The salt stands for the random salt PHP picks;
      the secret stands for the one-way digest. */
  datatype PasswordHash = PasswordHash(salt: int, secret: string)

  function PasswordHashOf(password: string, salt: int): PasswordHash
  {
    PasswordHash(salt, password)
  }

  /** password_verify(): true exactly for the password the hash was made from. */
  predicate PasswordVerify(password: string, hash: PasswordHash)
  {
    hash.secret == password
  }

  datatype Patient = Patient(
    firstName: string, lastName: string, dateOfBirth: string, gender: string,
    address: string, phone: string, email: string, emergencyContact: string,
    bloodGroup: string)

  /** patient_admissions: open while discharge_date is NULL. */
  datatype Admission = Admission(
    patientId: int, roomId: int, admissionDate: Timestamp, doctorId: int,
    diagnosis: string, dischargeDate: Option<Timestamp>, dischargeNotes: Option<string>)
  {
    predicate Open() { dischargeDate.None? }
  }

  datatype Room = Room(
    roomNumber: string, roomType: string, capacity: int, floorNumber: int,
    occupied: int, status: string)

  datatype Staff = Staff(
    firstName: string, lastName: string, departmentId: int, role: string,
    email: string, phone: Option<string>, hireDate: Option<string>, status: string)

  datatype Department = Department(name: string, description: string)

  /** users: staff_id is NULL for an account linked to no staff row. */
  datatype User = User(
    username: string, passwordHash: PasswordHash, staffId: Option<int>, role: string,
    isActive: bool, lastLogin: Option<Timestamp>)

  /** inventory: quantity and reorder_level are integers. */
  datatype Item = Item(
    name: string, category: string, quantity: int, unit: string, reorderLevel: int)

  /** expenses: the amount in cents. */
  datatype Expense = Expense(
    category: string, amount: int, description: string, date: string, recordedBy: int)

  datatype AccessLog = AccessLog(userId: int, action: string, ipAddress: string, timestamp: Timestamp)

  /** Column defaults the schema supplies where an INSERT leaves a column out:
      rooms.status and rooms.occupied, staff.status, users.is_active. */
  datatype SchemaDefaults = SchemaDefaults(
    roomStatus: string, roomOccupied: int, staffStatus: string, userActive: bool)

  const Available := "Available"
  const Occupied := "Occupied"
  const Active := "Active"
  const Inactive := "Inactive"
  const Admin := "Admin"
  const Doctor := "Doctor"
  const Nurse := "Nurse"
}
