/** The students hook (hooks/useStudentsDb.ts): a connection opened and seeded once, a `dbReady` flag
  * raised when that is done, and roster helpers that do nothing until it is raised. */
module StudentsHook {
  import opened Records
  import opened Seeding
  import opened Storage

  /** The awaited call of the setup that throws, if any. The setup has no `catch`: a throw ends it
    * with `dbReady` still false. */
  datatype SetupFault = NoSetupFault | OpenFails | CreateTableFails | CountFails

  class StudentsDb {
    /** The file `openDatabaseAsync("students.db")` opens. */
    const storage: Database
    var db: Database?
    var dbReady: bool

    /** `db && dbReady`: the gate every helper checks first. */
    predicate Ready()
      reads this
    {
      db != null && dbReady
    }

    /** The connection, once set, is the shared file. */
    predicate Linked()
      reads this
    {
      db == null || db == storage
    }

    constructor (storage: Database)
      ensures this.storage == storage && db == null && !dbReady && Linked()
    {
      this.storage := storage;
      db := null;
      dbReady := false;
    }

    /** The mount effect: open, create the table, count, seed when the count is 0 (one insert per
      * entry, rejected inserts skipped, no transaction), then raise `dbReady`. */
    method Setup(roster: seq<Entry>, fault: SetupFault)
      requires Linked() && storage.Valid()
      modifies this, storage
      ensures storage.Valid() && Linked()
      ensures storage.attendance == old(storage.attendance) && storage.nextAttendanceId == old(storage.nextAttendanceId)
      ensures dbReady <==> old(dbReady) || fault.NoSetupFault?
      ensures fault.NoSetupFault? ==>
                Ready() && storage.StudentsTable() == SeedIfEmpty(old(storage.StudentsTable()), roster)
      ensures !fault.NoSetupFault? ==> storage.StudentsTable() == old(storage.StudentsTable())
      ensures db == (if fault.OpenFails? then old(db) else storage)
    {
      if fault.OpenFails? {
        return;
      }
      db := storage;
      if fault.CreateTableFails? || fault.CountFails? {
        return;
      }
      if |storage.students| == 0 {
        storage.SeedRoster(roster);
      }
      dbReady := true;
    }

    /** `getStudents`: every row of the table, or none before the connection is ready. */
    method GetStudents() returns (rows: seq<Student>)
      requires Linked() && storage.Valid()
      ensures !Ready() ==> rows == []
      ensures Ready() ==> rows == storage.students
      ensures CodesUnique(rows)
    {
      if db == null || !dbReady {
        return [];
      }
      rows := db.students;
    }

    /** `getTotalStudents`: the size of the table, or 0 before the connection is ready. */
    method GetTotalStudents() returns (n: int)
      requires Linked()
      ensures !Ready() ==> n == 0
      ensures Ready() ==> n == |storage.students|
    {
      if db == null || !dbReady {
        return 0;
      }
      n := |db.students|;
    }

    /** `findStudentByCode`: the student holding exactly `code`, or nothing; nothing before the
      * connection is ready. */
    function FindStudentByCode(code: string): (r: Option<Student>)
      reads this, storage
      requires Linked()
      ensures !Ready() ==> r == None
      ensures Ready() ==> (r.Some? <==> HasCode(storage.students, code))
      ensures r.Some? ==> r.value in storage.students && r.value.code == code
      ensures Ready() && CodesUnique(storage.students) ==>
                forall i :: 0 <= i < |storage.students| && storage.students[i].code == code ==> r == Some(storage.students[i])
    {
      if !Ready() then None
      else
        var r := FindByCode(storage.students, code);
        assert CodesUnique(storage.students) ==>
                 forall i :: 0 <= i < |storage.students| && storage.students[i].code == code ==> r == Some(storage.students[i])
        by {
          forall i | CodesUnique(storage.students) && 0 <= i < |storage.students| && storage.students[i].code == code
            ensures r == Some(storage.students[i])
          {
            FindByCodeUnique(storage.students, code, i);
          }
        }
        r
    }

    /** `checkScannedStudent`: the lookup behind a scanned QR code. */
    method CheckScannedStudent(qrCode: string) returns (r: Option<Student>)
      requires Linked()
      ensures r == FindStudentByCode(qrCode)
    {
      if db == null || !dbReady {
        return None;
      }
      r := FindStudentByCode(qrCode);
    }

    /** `resetStudents`: delete every row, then insert the whole roster again, skipping rejected
      * inserts. The counter is not reset, so every new row gets a fresh id. */
    method ResetStudents(roster: seq<Entry>)
      requires Linked() && storage.Valid()
      modifies storage
      ensures storage.Valid()
      ensures storage.attendance == old(storage.attendance) && storage.nextAttendanceId == old(storage.nextAttendanceId)
      ensures !Ready() ==> storage.StudentsTable() == old(storage.StudentsTable())
      ensures Ready() ==>
                && storage.StudentsTable() == SeedAll(StudentTable([], old(storage.nextStudentId)), roster)
                && Codes(storage.students) == RosterCodes(roster)
                && |storage.students| == |RosterCodes(roster)|
    {
      if db == null || !dbReady {
        return;
      }
      db.DeleteAllStudents();
      db.SeedRoster(roster);
      SeedFromEmpty(old(storage.nextStudentId), roster);
    }

    /** `clearStudents`: delete every row once the connection is ready. */
    method ClearStudents()
      requires Linked() && storage.Valid()
      modifies storage
      ensures storage.Valid()
      ensures storage.attendance == old(storage.attendance) && storage.nextAttendanceId == old(storage.nextAttendanceId)
      ensures storage.nextStudentId == old(storage.nextStudentId)
      ensures Ready() ==> storage.students == []
      ensures !Ready() ==> storage.students == old(storage.students)
    {
      if db == null || !dbReady {
        return;
      }
      db.DeleteAllStudents();
    }
  }
}
