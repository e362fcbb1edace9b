/** The on-device `students.db` that both stores and both hooks open: the `students` and
  * `attendance` tables with their AUTOINCREMENT counters. `DELETE` empties a table but leaves its
  * counter where it was, so an id is never handed out twice. */
module Storage {
  import opened Records
  import opened Seeding

  class Database {
    var students: seq<Student>
    var nextStudentId: int
    var attendance: seq<AttendanceRow>
    var nextAttendanceId: int

    /** The constraints the schema keeps: UNIQUE(code), and ids that grow and stay below their counter. */
    predicate Valid()
      reads this
    {
      TableValid(StudentsTable()) && AttendanceIdsBelow(attendance, nextAttendanceId)
    }

    /** The `students` table with its counter, as the seeding functions see it. */
    function StudentsTable(): (t: StudentTable)
      reads this
      ensures t.rows == students && t.nextId == nextStudentId
    {
      StudentTable(students, nextStudentId)
    }

    /** A fresh database file: both tables empty, both counters at their first id. */
    constructor ()
      ensures Valid()
      ensures students == [] && attendance == []
      ensures nextStudentId == 1 && nextAttendanceId == 1
    {
      students := [];
      nextStudentId := 1;
      attendance := [];
      nextAttendanceId := 1;
    }

    /** `INSERT INTO students (name, code) VALUES (?, ?)`, rejected when the code is taken. */
    method InsertStudent(e: Entry) returns (inserted: bool)
      requires Valid()
      modifies this
      ensures Valid()
      ensures StudentsTable() == InsertEntry(old(StudentsTable()), e)
      ensures inserted <==> !HasCode(old(students), e.code)
      ensures attendance == old(attendance) && nextAttendanceId == old(nextAttendanceId)
    {
      inserted := !HasCode(students, e.code);
      if inserted {
        students := students + [Student(nextStudentId, e.name, e.code)];
        nextStudentId := nextStudentId + 1;
      }
    }

    /** The seed loop: one insert per roster entry, in order; an insert that the UNIQUE constraint
      * rejects is caught and the loop goes on with the next entry. */
    method SeedRoster(roster: seq<Entry>)
      requires Valid()
      modifies this
      ensures Valid()
      ensures StudentsTable() == SeedAll(old(StudentsTable()), roster)
      ensures attendance == old(attendance) && nextAttendanceId == old(nextAttendanceId)
    {
      var i := 0;
      while i < |roster|
        invariant 0 <= i <= |roster|
        invariant Valid()
        invariant StudentsTable() == SeedAll(old(StudentsTable()), roster[..i])
        invariant attendance == old(attendance) && nextAttendanceId == old(nextAttendanceId)
      {
        SeedAllStep(old(StudentsTable()), roster, i);
        var _ := InsertStudent(roster[i]);
        i := i + 1;
      }
      assert roster[..i] == roster;
    }

    /** `INSERT INTO attendance (student_id, session, date, time, status) VALUES (?, ?, ?, ?, 'present')`:
      * the table declares no constraint on (student_id, session, date) and does not enforce its
      * foreign key, so the row is always appended. */
    method InsertAttendance(studentId: int, session: string, date: string, time: string)
      requires Valid()
      modifies this
      ensures Valid()
      ensures attendance == old(attendance) + [AttendanceRow(old(nextAttendanceId), studentId, session, date, time, Present)]
      ensures nextAttendanceId == old(nextAttendanceId) + 1
      ensures students == old(students) && nextStudentId == old(nextStudentId)
    {
      attendance := attendance + [AttendanceRow(nextAttendanceId, studentId, session, date, time, Present)];
      nextAttendanceId := nextAttendanceId + 1;
    }

    /** `DELETE FROM students`. */
    method DeleteAllStudents()
      requires Valid()
      modifies this
      ensures Valid()
      ensures students == [] && nextStudentId == old(nextStudentId)
      ensures attendance == old(attendance) && nextAttendanceId == old(nextAttendanceId)
    {
      students := [];
    }

    /** `DELETE FROM attendance`. */
    method DeleteAllAttendance()
      requires Valid()
      modifies this
      ensures Valid()
      ensures attendance == [] && nextAttendanceId == old(nextAttendanceId)
      ensures students == old(students) && nextStudentId == old(nextStudentId)
    {
      attendance := [];
    }
  }

  /** `SELECT * FROM students WHERE code = ?` read with `getFirstAsync`: the first row with exactly
    * that code, or nothing. */
  function FindByCode(rows: seq<Student>, code: string): (r: Option<Student>)
    ensures r.Some? <==> HasCode(rows, code)
    ensures r.Some? ==> r.value in rows && r.value.code == code
  {
    if rows == [] then None
    else if rows[0].code == code then Some(rows[0])
    else
      var r := FindByCode(rows[1..], code);
      assert HasCode(rows[1..], code) ==> HasCode(rows, code) by {
        if HasCode(rows[1..], code) {
          var i :| 0 <= i < |rows[1..]| && rows[1..][i].code == code;
          assert rows[i + 1].code == code;
        }
      }
      assert HasCode(rows, code) ==> HasCode(rows[1..], code) by {
        if HasCode(rows, code) {
          var i :| 0 <= i < |rows| && rows[i].code == code;
          assert rows[1..][i - 1].code == code;
        }
      }
      r
  }

  /** Under UNIQUE(code) the lookup finds the one student holding the code, whichever it is. */
  lemma {:induction false} FindByCodeUnique(rows: seq<Student>, code: string, i: int)
    requires CodesUnique(rows) && 0 <= i < |rows| && rows[i].code == code
    ensures FindByCode(rows, code) == Some(rows[i])
  {
    if i > 0 {
      assert rows[0].code != code;
      FindByCodeUnique(rows[1..], code, i - 1);
    }
  }
}
