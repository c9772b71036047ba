/**
 * The persistence gateway as an in-memory store: the `students` table is a
 * map from id to row. The store enforces only what the table declares: ids
 * are assigned by an AUTOINCREMENT counter, `student_code` and `email` are
 * UNIQUE, and an inserted row gets `gpa` 0.0 and `status` "active". A write
 * may also fail for reasons of the engine itself; the caller passes that
 * failure in as `fault`.
 */
module StudentRepository {
  import opened Wrappers
  import opened Errors
  import opened Students

  /** Whether a row other than `except` already holds the code or the email of `f`. */
  predicate Collides(rows: map<int, Student>, f: StudentFields, except: Option<int>) {
    exists k :: k in rows && Some(k) != except && (rows[k].studentCode == f.studentCode || rows[k].email == f.email)
  }

  /** No two rows share a `student_code` or an `email`. */
  ghost predicate UniqueColumns(rows: map<int, Student>) {
    forall a, b :: a in rows && b in rows && a != b ==>
      rows[a].studentCode != rows[b].studentCode && rows[a].email != rows[b].email
  }

  /** The optional `major` and `status` filters of a listing. */
  predicate Matches(s: Student, major: Option<string>, status: Option<string>) {
    && (major.None? || s.major == major.value)
    && (status.None? || s.status == status.value)
  }

  class Repository {
    /** The table: each row under its own id. */
    var rows: map<int, Student>
    /** The next id AUTOINCREMENT hands out; ids are never reused. */
    var nextId: int

    ghost predicate Valid()
      reads this
    {
      && nextId >= 1
      && (forall k :: k in rows ==> 1 <= k < nextId && rows[k].id == k)
      && UniqueColumns(rows)
    }

    constructor ()
      ensures Valid() && rows == map[] && nextId == 1
    {
      rows := map[];
      nextId := 1;
    }

    /** The row with the given id, if any. */
    function FindById(id: int): (r: Option<Student>)
      reads this
      requires Valid()
      ensures r.Some? <==> id in rows
      ensures r.Some? ==> r.value == rows[id] && r.value.id == id
    {
      if id in rows then Some(rows[id]) else None
    }

    /** Every row that passes the filters, each exactly once, scanned by ascending id. */
    method FindAll(major: Option<string>, status: Option<string>) returns (list: seq<Student>)
      requires Valid()
      ensures forall s :: s in list <==> s.id in rows && rows[s.id] == s && Matches(s, major, status)
      ensures forall i, j :: 0 <= i < j < |list| ==> list[i].id < list[j].id
    {
      list := [];
      for id := 1 to nextId
        invariant forall s :: s in list <==> s.id in rows && s.id < id && rows[s.id] == s && Matches(s, major, status)
        invariant forall i, j :: 0 <= i < j < |list| ==> list[i].id < list[j].id
        invariant forall i :: 0 <= i < |list| ==> list[i].id < id
      {
        if id in rows && Matches(rows[id], major, status) {
          list := list + [rows[id]];
        }
      }
    }

    /** INSERT of the five fields; the remaining columns take their defaults. */
    method Create(f: StudentFields, now: int, fault: Option<StorageError>) returns (r: Result<Student, StorageError>)
      requires Valid()
      modifies this
      ensures Valid()
      ensures fault.Some? ==> r == Err(fault.value) && rows == old(rows) && nextId == old(nextId)
      ensures fault.None? && Collides(old(rows), f, None) ==>
        r == Err(UniqueViolation) && rows == old(rows) && nextId == old(nextId)
      ensures fault.None? && !Collides(old(rows), f, None) ==>
        && r == Ok(Student(old(nextId), f.studentCode, f.firstName, f.lastName, f.email, f.major, 0.0, Active, now))
        && old(nextId) !in old(rows)
        && rows == old(rows)[old(nextId) := r.value]
        && nextId == old(nextId) + 1
    {
      if fault.Some? {
        return Err(fault.value);
      }
      if Collides(rows, f, None) {
        return Err(UniqueViolation);
      }
      var s := Student(nextId, f.studentCode, f.firstName, f.lastName, f.email, f.major, 0.0, Active, now);
      rows := rows[nextId := s];
      nextId := nextId + 1;
      r := Ok(s);
    }

    /** UPDATE of the five fields of an existing row; id, gpa, status and creation time stay. */
    method Update(id: int, f: StudentFields, fault: Option<StorageError>) returns (r: Result<Student, StorageError>)
      requires Valid() && id in rows
      modifies this
      ensures Valid() && nextId == old(nextId)
      ensures fault.Some? ==> r == Err(fault.value) && rows == old(rows)
      ensures fault.None? && Collides(old(rows), f, Some(id)) ==> r == Err(UniqueViolation) && rows == old(rows)
      ensures fault.None? && !Collides(old(rows), f, Some(id)) ==>
        && r.Ok? && HasFields(r.value, f)
        && r.value == old(rows)[id].(studentCode := f.studentCode, firstName := f.firstName,
                                     lastName := f.lastName, email := f.email, major := f.major)
        && rows == old(rows)[id := r.value]
    {
      if fault.Some? {
        return Err(fault.value);
      }
      if Collides(rows, f, Some(id)) {
        return Err(UniqueViolation);
      }
      var s := rows[id].(studentCode := f.studentCode, firstName := f.firstName,
                         lastName := f.lastName, email := f.email, major := f.major);
      rows := rows[id := s];
      r := Ok(s);
    }

    /** UPDATE of the `gpa` column alone. */
    method UpdateGpa(id: int, gpa: real, fault: Option<StorageError>) returns (r: Result<Student, StorageError>)
      requires Valid() && id in rows
      modifies this
      ensures Valid() && nextId == old(nextId)
      ensures fault.Some? ==> r == Err(fault.value) && rows == old(rows)
      ensures fault.None? ==> r == Ok(old(rows)[id].(gpa := gpa)) && rows == old(rows)[id := r.value]
    {
      if fault.Some? {
        return Err(fault.value);
      }
      var s := rows[id].(gpa := gpa);
      rows := rows[id := s];
      r := Ok(s);
    }

    /** UPDATE of the `status` column alone. */
    method UpdateStatus(id: int, status: string, fault: Option<StorageError>) returns (r: Result<Student, StorageError>)
      requires Valid() && id in rows
      modifies this
      ensures Valid() && nextId == old(nextId)
      ensures fault.Some? ==> r == Err(fault.value) && rows == old(rows)
      ensures fault.None? ==> r == Ok(old(rows)[id].(status := status)) && rows == old(rows)[id := r.value]
    {
      if fault.Some? {
        return Err(fault.value);
      }
      var s := rows[id].(status := status);
      rows := rows[id := s];
      r := Ok(s);
    }

    /** DELETE of a row; deleting an absent id changes nothing. */
    method Delete(id: int, fault: Option<StorageError>) returns (r: Outcome<StorageError>)
      requires Valid()
      modifies this
      ensures Valid() && nextId == old(nextId)
      ensures fault.Some? ==> r == Fail(fault.value) && rows == old(rows)
      ensures fault.None? ==> r == Pass && rows == old(rows) - {id}
    {
      if fault.Some? {
        return Fail(fault.value);
      }
      rows := rows - {id};
      r := Pass;
    }
  }
}
