/** The one entity of the system: a row of the `students` table, and the request body that creates or replaces one. */
module Students {
  import opened Wrappers

  /**
   * A stored student. `id` is assigned by the store and never changes;
   * `gpa` defaults to 0.0 and `status` to "active" when a row is inserted;
   * `createdAt` is the insertion time.
   */
  datatype Student = Student(
    id: int,
    studentCode: string,
    firstName: string,
    lastName: string,
    email: string,
    major: string,
    gpa: real,
    status: string,
    createdAt: int)

  // The four statuses a student can have.
  const Active: string := "active"
  const Graduated: string := "graduated"
  const Suspended: string := "suspended"
  const Withdrawn: string := "withdrawn"

  /** Whether the status is one of the four lifecycle states. */
  predicate KnownStatus(status: string) {
    status == Active || status == Graduated || status == Suspended || status == Withdrawn
  }

  /** The JSON body of a create or full update: five fields, each possibly missing (`None`). */
  datatype StudentData = StudentData(
    studentCode: Option<string>,
    firstName: Option<string>,
    lastName: Option<string>,
    email: Option<string>,
    major: Option<string>)

  /** The five fields a create or full update writes, once they are known to be present. */
  datatype StudentFields = StudentFields(
    studentCode: string,
    firstName: string,
    lastName: string,
    email: string,
    major: string)

  /** Whether `s` holds exactly the five given fields. */
  predicate HasFields(s: Student, f: StudentFields) {
    && s.studentCode == f.studentCode
    && s.firstName == f.firstName
    && s.lastName == f.lastName
    && s.email == f.email
    && s.major == f.major
  }
}
