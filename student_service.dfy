/**
 * The student service: each use case runs as a fixed sequence of input
 * validation, lookup of the addressed record, business rule and one write
 * to the repository. It enforces the lifecycle rules: a withdrawn student's
 * status never changes, an active student is never deleted, and a
 * uniqueness violation on write becomes a ConflictError.
 */
module StudentService {
  import opened Wrappers
  import opened Errors
  import opened Students
  import opened StudentValidator
  import opened StudentRepository
  import opened Statistics
  import opened ErrorHandler

  /** A record that satisfies every rule the service checks before it writes. */
  ghost predicate Admissible(s: Student) {
    && ValidateStudentCode(s.studentCode).Pass?
    && s.firstName != [] && s.lastName != []
    && ValidateEmail(s.email).Pass?
    && ValidateMajor(Some(s.major)).Pass?
    && ValidateGpa(Some(s.gpa)).Pass?
    && ValidateStatus(Some(s.status)).Pass?
  }

  /**
   * What no operation may do to the store: change the status of a
   * withdrawn student, or remove an active one.
   */
  ghost predicate LifecycleKept(before: map<int, Student>, after: map<int, Student>) {
    && (forall k :: k in before && before[k].status == Withdrawn && k in after ==> after[k].status == Withdrawn)
    && (forall k :: k in before && before[k].status == Active ==> k in after)
  }

  /** Rows carried over unchanged stay admissible; a rewritten row must be admissible itself. */
  lemma RowsAdmissible(before: map<int, Student>, after: map<int, Student>, key: int)
    requires forall k :: k in before ==> Admissible(before[k])
    requires forall k :: k in after && k != key ==> k in before && after[k] == before[k]
    requires key in after ==> Admissible(after[key])
    ensures forall k :: k in after ==> Admissible(after[k])
  {
  }

  /** The checks create and update run on a body, in this order: presence, code, email, major. */
  function ValidateFields(data: Option<StudentData>): (r: Outcome<Error>)
    ensures r.Pass? <==>
      && ValidateStudentData(data).Pass?
      && ValidateStudentCode(data.value.studentCode.value).Pass?
      && ValidateEmail(data.value.email.value).Pass?
      && ValidateMajor(data.value.major).Pass?
    ensures ValidateStudentData(data).Fail? ==> r == Fail(ValidationError(AllFieldsRequired))
    ensures ValidateStudentData(data).Pass? && ValidateStudentCode(data.value.studentCode.value).Fail? ==>
      r == Fail(ValidationError(InvalidCodeFormat))
    ensures ValidateStudentData(data).Pass? && ValidateStudentCode(data.value.studentCode.value).Pass?
            && ValidateEmail(data.value.email.value).Fail? ==>
      r == Fail(ValidationError(InvalidEmailFormat))
    ensures ValidateStudentData(data).Pass? && ValidateStudentCode(data.value.studentCode.value).Pass?
            && ValidateEmail(data.value.email.value).Pass? && ValidateMajor(data.value.major).Fail? ==>
      r == Fail(ValidationError(InvalidMajor))
    ensures r.Fail? ==> r.error.name == ValidationName
  {
    match ValidateStudentData(data)
    case Fail(e) => Fail(e)
    case Pass =>
      var d := data.value;
      match ValidateStudentCode(d.studentCode.value)
      case Fail(e) => Fail(e)
      case Pass =>
        match ValidateEmail(d.email.value)
        case Fail(e) => Fail(e)
        case Pass => ValidateMajor(d.major)
  }

  /** The five fields of a body that passed the checks. */
  function FieldsOf(data: Option<StudentData>): (f: StudentFields)
    requires ValidateFields(data).Pass?
    ensures ValidateStudentCode(f.studentCode).Pass? && ValidateEmail(f.email).Pass?
    ensures ValidateMajor(Some(f.major)).Pass? && f.firstName != [] && f.lastName != []
  {
    var d := data.value;
    StudentFields(d.studentCode.value, d.firstName.value, d.lastName.value, d.email.value, d.major.value)
  }

  /** The result of a listing: the fetched students and their statistics. */
  datatype Listing = Listing(students: seq<Student>, statistics: Statistics)

  class Service {
    const repo: Repository

    ghost predicate Valid()
      reads this, repo
    {
      && repo.Valid()
      && forall k :: k in repo.rows ==> Admissible(repo.rows[k])
    }

    constructor ()
      ensures Valid() && fresh(repo) && repo.rows == map[]
    {
      repo := new Repository();
    }

    /**
     * getAllStudents: checks the optional filters (major first), then lists
     * the matching students with their statistics.
     */
    method GetAllStudents(major: Option<string>, status: Option<string>) returns (r: Result<Listing, Error>)
      requires Valid()
      ensures ValidateMajorIfProvided(major).Fail? ==> r == Err(ValidationError(InvalidMajor))
      ensures ValidateMajorIfProvided(major).Pass? && ValidateStatusIfProvided(status).Fail? ==>
        r == Err(ValidationError(InvalidStatus))
      ensures ValidateMajorIfProvided(major).Pass? && ValidateStatusIfProvided(status).Pass? ==>
        && r.Ok?
        && (forall s :: s in r.value.students <==> s.id in repo.rows && repo.rows[s.id] == s && Matches(s, major, status))
        && (forall i, j :: 0 <= i < j < |r.value.students| ==> r.value.students[i].id < r.value.students[j].id)
        && r.value.statistics == ComputeStatistics(r.value.students)
        && r.value.statistics.active + r.value.statistics.graduated + r.value.statistics.suspended
           + CountStatus(r.value.students, Withdrawn) == r.value.statistics.total
        && 0.0 <= r.value.statistics.averageGpa <= 4.0
    {
      var majorCheck := ValidateMajorIfProvided(major);
      if majorCheck.Fail? {
        return Err(majorCheck.error);
      }
      var statusCheck := ValidateStatusIfProvided(status);
      if statusCheck.Fail? {
        return Err(statusCheck.error);
      }
      var students := repo.FindAll(major, status);
      forall i | 0 <= i < |students|
        ensures KnownStatus(students[i].status) && 0.0 <= students[i].gpa <= 4.0
      {
        assert students[i] in students;
        assert Admissible(repo.rows[students[i].id]);
      }
      CountsPartition(students);
      AverageWithinRange(students);
      r := Ok(Listing(students, ComputeStatistics(students)));
    }

    /** getStudentById: the record under a valid id, or NotFoundError. */
    method GetStudentById(id: string) returns (r: Result<Student, Error>)
      requires Valid()
      ensures ValidateId(id).Err? ==> r == Err(ValidationError(InvalidStudentId))
      ensures ValidateId(id).Ok? && ValidateId(id).value !in repo.rows ==> r == Err(NotFoundError(StudentNotFound))
      ensures ValidateId(id).Ok? && ValidateId(id).value in repo.rows ==> r == Ok(repo.rows[ValidateId(id).value])
      ensures r.Ok? ==> r.value.id == ValidateId(id).value && Admissible(r.value)
    {
      var key := ValidateId(id);
      if key.Err? {
        return Err(key.error);
      }
      var found := repo.FindById(key.value);
      if found.None? {
        return Err(NotFoundError(StudentNotFound));
      }
      r := Ok(found.value);
    }

    /**
     * createStudent: checks the body, then inserts it; a duplicate code or
     * email becomes a ConflictError, any other storage failure is rethrown.
     */
    method CreateStudent(data: Option<StudentData>, now: int, fault: Option<StorageError>) returns (r: Result<Student, Error>)
      requires Valid()
      modifies repo
      ensures Valid() && LifecycleKept(old(repo.rows), repo.rows)
      ensures r.Err? ==> repo.rows == old(repo.rows)
      ensures ValidateFields(data).Fail? ==> r == Err(ValidateFields(data).error)
      ensures ValidateFields(data).Pass? && fault.Some? ==> r == Err(TranslateStorageError(fault.value))
      ensures ValidateFields(data).Pass? && fault.Some? && fault.value.code != ConstraintCode
              && fault.value.error.name !in {ValidationName, NotFoundName, ConflictName} ==>
        HandleError(r.error).status == 500
      ensures ValidateFields(data).Pass? && fault.None? && Collides(old(repo.rows), FieldsOf(data), None) ==>
        r == Err(ConflictError(DuplicateCodeOrEmail)) && HandleError(r.error).status == 409
      ensures ValidateFields(data).Pass? && fault.None? && !Collides(old(repo.rows), FieldsOf(data), None) ==>
        && r.Ok? && r.value.id !in old(repo.rows)
        && HasFields(r.value, FieldsOf(data)) && r.value.gpa == 0.0 && r.value.status == Active && r.value.createdAt == now
        && repo.rows == old(repo.rows)[r.value.id := r.value]
    {
      var check := ValidateFields(data);
      if check.Fail? {
        return Err(check.error);
      }
      var written := repo.Create(FieldsOf(data), now, fault);
      match written
      case Err(e) => r := Err(TranslateStorageError(e));
      case Ok(s) => r := Ok(s);
    }

    /**
     * updateStudent: checks the id and the body, then the record must
     * exist; its five fields are replaced, and a duplicate code or email of
     * another record becomes a ConflictError.
     */
    method UpdateStudent(id: string, data: Option<StudentData>, fault: Option<StorageError>) returns (r: Result<Student, Error>)
      requires Valid()
      modifies repo
      ensures Valid() && LifecycleKept(old(repo.rows), repo.rows)
      ensures r.Err? ==> repo.rows == old(repo.rows)
      ensures ValidateId(id).Err? ==> r == Err(ValidationError(InvalidStudentId))
      ensures ValidateId(id).Ok? && ValidateFields(data).Fail? ==> r == Err(ValidateFields(data).error)
      ensures ValidateId(id).Ok? && ValidateFields(data).Pass? && ValidateId(id).value !in old(repo.rows) ==>
        r == Err(NotFoundError(StudentNotFound))
      ensures ValidateId(id).Ok? && ValidateFields(data).Pass? && ValidateId(id).value in old(repo.rows) ==>
        var key := ValidateId(id).value;
        && (fault.Some? ==> r == Err(TranslateStorageError(fault.value)))
        && (fault.None? && Collides(old(repo.rows), FieldsOf(data), Some(key)) ==>
              r == Err(ConflictError(DuplicateCodeOrEmail)) && HandleError(r.error).status == 409)
        && (fault.None? && !Collides(old(repo.rows), FieldsOf(data), Some(key)) ==>
              && r.Ok? && HasFields(r.value, FieldsOf(data))
              && r.value == old(repo.rows)[key].(studentCode := r.value.studentCode, firstName := r.value.firstName,
                                                 lastName := r.value.lastName, email := r.value.email, major := r.value.major)
              && repo.rows == old(repo.rows)[key := r.value])
    {
      var key := ValidateId(id);
      if key.Err? {
        return Err(key.error);
      }
      var check := ValidateFields(data);
      if check.Fail? {
        return Err(check.error);
      }
      var existing := repo.FindById(key.value);
      if existing.None? {
        return Err(NotFoundError(StudentNotFound));
      }
      var written := repo.Update(key.value, FieldsOf(data), fault);
      match written
      case Err(e) => r := Err(TranslateStorageError(e));
      case Ok(s) => r := Ok(s);
    }

    /** updateGPA: checks the id and the GPA, then the record must exist; only its GPA is written. */
    method UpdateGpa(id: string, gpa: Option<real>, fault: Option<StorageError>) returns (r: Result<Student, Error>)
      requires Valid()
      modifies repo
      ensures Valid() && LifecycleKept(old(repo.rows), repo.rows)
      ensures r.Err? ==> repo.rows == old(repo.rows)
      ensures ValidateId(id).Err? ==> r == Err(ValidationError(InvalidStudentId))
      ensures ValidateId(id).Ok? && ValidateGpa(gpa).Fail? ==> r == Err(ValidationError(GpaOutOfRange))
      ensures ValidateId(id).Ok? && ValidateGpa(gpa).Pass? && ValidateId(id).value !in old(repo.rows) ==>
        r == Err(NotFoundError(StudentNotFound))
      ensures ValidateId(id).Ok? && ValidateGpa(gpa).Pass? && ValidateId(id).value in old(repo.rows) ==>
        var key := ValidateId(id).value;
        && (fault.Some? ==> r == Err(fault.value.error))
        && (fault.None? ==>
              && r == Ok(old(repo.rows)[key].(gpa := gpa.value))
              && repo.rows == old(repo.rows)[key := r.value])
    {
      var key := ValidateId(id);
      if key.Err? {
        return Err(key.error);
      }
      var check := ValidateGpa(gpa);
      if check.Fail? {
        return Err(check.error);
      }
      var existing := repo.FindById(key.value);
      if existing.None? {
        return Err(NotFoundError(StudentNotFound));
      }
      var written := repo.UpdateGpa(key.value, gpa.value, fault);
      match written
      case Err(e) => r := Err(e.error);
      case Ok(s) => r := Ok(s);
    }

    /**
     * updateStatus: checks the id and the target status, then the record
     * must exist and must not be withdrawn; only its status is written.
     */
    method UpdateStatus(id: string, status: Option<string>, fault: Option<StorageError>) returns (r: Result<Student, Error>)
      requires Valid()
      modifies repo
      ensures Valid() && LifecycleKept(old(repo.rows), repo.rows)
      ensures r.Err? ==> repo.rows == old(repo.rows)
      ensures ValidateId(id).Err? ==> r == Err(ValidationError(InvalidStudentId))
      ensures ValidateId(id).Ok? && ValidateStatus(status).Fail? ==> r == Err(ValidationError(InvalidStatus))
      ensures ValidateId(id).Ok? && ValidateStatus(status).Pass? && ValidateId(id).value !in old(repo.rows) ==>
        r == Err(NotFoundError(StudentNotFound))
      ensures ValidateId(id).Ok? && ValidateStatus(status).Pass? && ValidateId(id).value in old(repo.rows) ==>
        var key := ValidateId(id).value;
        && (old(repo.rows)[key].status == Withdrawn ==>
              r == Err(ValidationError(WithdrawnIsFinal)) && HandleError(r.error).status == 400)
        && (old(repo.rows)[key].status != Withdrawn && fault.Some? ==> r == Err(fault.value.error))
        && (old(repo.rows)[key].status != Withdrawn && fault.None? ==>
              && r == Ok(old(repo.rows)[key].(status := status.value))
              && repo.rows == old(repo.rows)[key := r.value])
    {
      var key := ValidateId(id);
      if key.Err? {
        return Err(key.error);
      }
      var check := ValidateStatus(status);
      if check.Fail? {
        return Err(check.error);
      }
      var existing := repo.FindById(key.value);
      if existing.None? {
        return Err(NotFoundError(StudentNotFound));
      }
      if existing.value.status == Withdrawn {
        TaggedErrorStatuses(WithdrawnIsFinal);
        return Err(ValidationError(WithdrawnIsFinal));
      }
      var written := repo.UpdateStatus(key.value, status.value, fault);
      match written
      case Err(e) => r := Err(e.error);
      case Ok(s) => r := Ok(s);
    }

    /**
     * deleteStudent: checks the id, then the record must exist and must not
     * be active; it is then removed.
     */
    method DeleteStudent(id: string, fault: Option<StorageError>) returns (r: Outcome<Error>)
      requires Valid()
      modifies repo
      ensures Valid() && LifecycleKept(old(repo.rows), repo.rows)
      ensures r.Fail? ==> repo.rows == old(repo.rows)
      ensures ValidateId(id).Err? ==> r == Fail(ValidationError(InvalidStudentId))
      ensures ValidateId(id).Ok? && ValidateId(id).value !in old(repo.rows) ==> r == Fail(NotFoundError(StudentNotFound))
      ensures ValidateId(id).Ok? && ValidateId(id).value in old(repo.rows) ==>
        var key := ValidateId(id).value;
        && (old(repo.rows)[key].status == Active ==>
              r == Fail(ValidationError(ActiveNotDeletable)) && HandleError(r.error).status == 400)
        && (old(repo.rows)[key].status != Active && fault.Some? ==> r == Fail(fault.value.error))
        && (old(repo.rows)[key].status != Active && fault.None? ==>
              r == Pass && repo.rows == old(repo.rows) - {key})
    {
      var key := ValidateId(id);
      if key.Err? {
        return Fail(key.error);
      }
      var existing := repo.FindById(key.value);
      if existing.None? {
        return Fail(NotFoundError(StudentNotFound));
      }
      if existing.value.status == Active {
        TaggedErrorStatuses(ActiveNotDeletable);
        return Fail(ValidationError(ActiveNotDeletable));
      }
      var removed := repo.Delete(key.value, fault);
      RowsAdmissible(old(repo.rows), repo.rows, key.value);
      match removed
      case Fail(e) => r := Fail(e.error);
      case Pass => r := Pass;
    }
  }

  /**
   * A created student read back by the decimal form of its new id is the
   * record the create returned: the input fields, the new id, status
   * "active" and GPA 0.0.
   */
  method CreateThenFetch(svc: Service, data: Option<StudentData>, now: int)
      returns (created: Result<Student, Error>, fetched: Result<Student, Error>)
    requires svc.Valid()
    modifies svc.repo
    ensures svc.Valid()
    ensures created.Ok? ==>
      && fetched == created
      && ValidateFields(data).Pass?
      && HasFields(fetched.value, FieldsOf(data))
      && fetched.value.status == Active && fetched.value.gpa == 0.0
  {
    created := svc.CreateStudent(data, now, None);
    if created.Err? {
      fetched := created;
      return;
    }
    var id := created.value.id;
    assert id in svc.repo.rows && svc.repo.rows[id] == created.value;
    assert id >= 1;
    var text := JsText.Decimal(id);
    ValidateIdOfDecimal([], id, []);
    assert [] + text + [] == text;
    assert ValidateId(text) == Ok(id);
    fetched := svc.GetStudentById(text);
  }
}
