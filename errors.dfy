/**
 * The error objects the business layer throws: a JavaScript `Error` whose
 * `name` is set to one of three tags, and the errors raised by the storage
 * engine, which carry a driver `code`.
 */
module Errors {

  /** A thrown error: its `name` and its `message`. */
  datatype Error = Error(name: string, message: string)

  const ValidationName: string := "ValidationError"
  const NotFoundName: string := "NotFoundError"
  const ConflictName: string := "ConflictError"

  function ValidationError(message: string): Error { Error(ValidationName, message) }
  function NotFoundError(message: string): Error { Error(NotFoundName, message) }
  function ConflictError(message: string): Error { Error(ConflictName, message) }

  // Messages thrown by the validator.
  const AllFieldsRequired: string := "All fields are required"
  const InvalidCodeFormat: string := "Invalid student code format (must be 10 digits)"
  const InvalidEmailFormat: string := "Invalid email format"
  const InvalidMajor: string := "Invalid major. Must be one of: CS, SE, IT, CE, DS"
  const GpaOutOfRange: string := "GPA must be between 0.0 and 4.0"
  const InvalidStatus: string := "Invalid status. Must be one of: active, graduated, suspended, withdrawn"
  const InvalidStudentId: string := "Invalid student ID"

  // Messages thrown by the service.
  const StudentNotFound: string := "Student not found"
  const DuplicateCodeOrEmail: string := "Student code or email already exists"
  const WithdrawnIsFinal: string := "Cannot change status of withdrawn student"
  const ActiveNotDeletable: string := "Cannot delete active student. Change status first."

  /** An error raised by the storage engine: the driver's `code` and the error object itself. */
  datatype StorageError = StorageError(code: string, error: Error)

  /** The driver code of a violated table constraint (here: a UNIQUE column). */
  const ConstraintCode: string := "SQLITE_CONSTRAINT"

  /** What the storage engine raises when a write would duplicate a UNIQUE column. */
  const UniqueViolation: StorageError :=
    StorageError(ConstraintCode, Error("Error", "SQLITE_CONSTRAINT: UNIQUE constraint failed"))

  /**
   * The catch block of create and update: a constraint violation becomes a
   * ConflictError, every other storage error is rethrown as it is.
   */
  function TranslateStorageError(e: StorageError): (err: Error)
    ensures e.code == ConstraintCode ==> err == ConflictError(DuplicateCodeOrEmail)
    ensures e.code != ConstraintCode ==> err == e.error
  {
    if e.code == ConstraintCode then ConflictError(DuplicateCodeOrEmail) else e.error
  }
}
