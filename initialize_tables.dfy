/** The bootstrap state machine (store/initializeTablesStore.ts): open `students.db`, make sure both
  * tables exist, seed the roster into an empty `students` table inside a transaction, probe the
  * connection, and record how far it got in the status flags. */
module Bootstrap {
  import opened Records
  import opened Seeding
  import opened Storage

  /** The awaited steps of `initializeTables`, in order. */
  datatype InitStep =
    | OpenDatabase | CreateStudentsTable | CreateAttendanceTable | CountStudents | SeedTransaction | ConnectivityProbe

  /** The step that throws, if any, with the error's message. A fault at `SeedTransaction` can only
    * happen when the seeding transaction runs, and rolls the transaction back. */
  datatype InitFault = NoInitFault | FailsAt(step: InitStep, message: string)

  /** How a call ends: turned away by the guard, finished, or failed with the message it rethrows. */
  datatype InitOutcome = Skipped | Initialized | Failed(message: string)

  class TablesInitializer {
    /** The file `openDatabaseAsync("students.db")` opens. */
    const storage: Database
    var db: Database?
    var isInitialized: bool
    var isInitializing: bool
    var initializationError: Option<string>
    var studentsTableReady: bool
    var attendanceTableReady: bool
    var studentsSeeded: bool

    /** The flags agree with each other between calls: an initialized store holds a connection,
      * has every table ready and no error; a recorded error means nothing is initialized or ready. */
    predicate Consistent()
      reads this
    {
      && (db == null || db == storage)
      && (isInitialized ==>
            && db != null && !isInitializing && initializationError == None
            && studentsTableReady && attendanceTableReady && studentsSeeded)
      && (initializationError.Some? ==>
            && !isInitialized && !isInitializing
            && !studentsTableReady && !attendanceTableReady && !studentsSeeded)
    }

    /** The state the `catch` block leaves: not initialized, nothing ready, the message recorded. */
    predicate FailedWith(message: string)
      reads this
    {
      && !isInitialized && !isInitializing && initializationError == Some(message)
      && !studentsTableReady && !attendanceTableReady && !studentsSeeded
    }

    /** The state a finished initialization leaves: every flag set, no error. */
    predicate Finished()
      reads this
    {
      && isInitialized && !isInitializing && initializationError == None
      && studentsTableReady && attendanceTableReady && studentsSeeded
    }

    /** Every field at its initial value. */
    predicate Initial()
      reads this
    {
      && db == null && !isInitialized && !isInitializing && initializationError == None
      && !studentsTableReady && !attendanceTableReady && !studentsSeeded
    }

    constructor (storage: Database)
      ensures this.storage == storage
      ensures Initial() && Consistent()
    {
      this.storage := storage;
      db := null;
      isInitialized, isInitializing := false, false;
      initializationError := None;
      studentsTableReady, attendanceTableReady, studentsSeeded := false, false, false;
    }

    /** `initializeTables`, with `roster` the bundled student list and `fault` the step that throws. */
    method InitializeTables(roster: seq<Entry>, fault: InitFault) returns (outcome: InitOutcome)
      requires storage.Valid()
      modifies this, storage
      ensures storage.Valid()
      ensures storage.attendance == old(storage.attendance) && storage.nextAttendanceId == old(storage.nextAttendanceId)
      // the re-entry guard
      ensures old(isInitialized || isInitializing) ==>
                outcome == Skipped && unchanged(this) && storage.StudentsTable() == old(storage.StudentsTable())
      ensures !old(isInitialized || isInitializing) ==> outcome != Skipped
      // which calls finish: no fault, or a transaction fault when there was nothing to seed
      ensures !old(isInitialized || isInitializing) ==>
                (outcome == Initialized <==>
                   fault.NoInitFault? || (fault.step == SeedTransaction && old(|storage.students|) != 0))
      ensures outcome == Initialized ==>
                && Finished() && db == storage
                && storage.StudentsTable() == SeedIfEmpty(old(storage.StudentsTable()), roster)
      ensures outcome.Failed? ==>
                && outcome.message == fault.message && FailedWith(fault.message)
                && db == (if fault.step == OpenDatabase then old(db) else storage)
      // a failure before or inside the seeding transaction leaves the students table as it was;
      // a failed probe comes after the seed was committed
      ensures outcome.Failed? && fault.step != ConnectivityProbe ==>
                storage.StudentsTable() == old(storage.StudentsTable())
      ensures outcome.Failed? && fault.step == ConnectivityProbe ==>
                storage.StudentsTable() == SeedIfEmpty(old(storage.StudentsTable()), roster)
      ensures old(Consistent()) ==> Consistent()
    {
      if isInitialized || isInitializing {
        return Skipped;
      }
      isInitializing, initializationError := true, None;
      studentsTableReady, attendanceTableReady, studentsSeeded := false, false, false;

      if fault.FailsAt? && fault.step == OpenDatabase {
        outcome := Fail(fault.message);
        return;
      }
      db := storage;
      if fault.FailsAt? && fault.step == CreateStudentsTable {
        outcome := Fail(fault.message);
        return;
      }
      studentsTableReady := true;
      if fault.FailsAt? && fault.step == CreateAttendanceTable {
        outcome := Fail(fault.message);
        return;
      }
      attendanceTableReady := true;
      if fault.FailsAt? && fault.step == CountStudents {
        outcome := Fail(fault.message);
        return;
      }
      var rolledBack := SeedStudents(roster, fault);
      if rolledBack {
        outcome := Fail(fault.message);
        return;
      }
      studentsSeeded := true;
      if fault.FailsAt? && fault.step == ConnectivityProbe {
        outcome := Fail(fault.message);
        return;
      }
      isInitialized, isInitializing, initializationError := true, false, None;
      outcome := Initialized;
    }

    /** Step 4: `SELECT COUNT(*)`, and when it is 0 the seed loop inside one transaction. A fault at
      * the transaction rolls every seeded row back. */
    method SeedStudents(roster: seq<Entry>, fault: InitFault) returns (rolledBack: bool)
      requires storage.Valid()
      modifies storage
      ensures storage.Valid()
      ensures storage.attendance == old(storage.attendance) && storage.nextAttendanceId == old(storage.nextAttendanceId)
      ensures rolledBack <==> fault.FailsAt? && fault.step == SeedTransaction && old(|storage.students|) == 0
      ensures rolledBack ==> storage.StudentsTable() == old(storage.StudentsTable())
      ensures !rolledBack ==> storage.StudentsTable() == SeedIfEmpty(old(storage.StudentsTable()), roster)
    {
      var count := |storage.students|;
      rolledBack := false;
      if count == 0 {
        if fault.FailsAt? && fault.step == SeedTransaction {
          return true;
        }
        storage.SeedRoster(roster);
      }
    }

    /** The `catch` block: every status flag cleared and the message recorded. */
    method Fail(message: string) returns (outcome: InitOutcome)
      modifies this
      ensures outcome == Failed(message) && FailedWith(message)
      ensures db == old(db)
    {
      initializationError, isInitializing, isInitialized := Some(message), false, false;
      studentsTableReady, attendanceTableReady, studentsSeeded := false, false, false;
      outcome := Failed(message);
    }

    /** `resetInitialization`: every field back to its initial value. The database file is untouched. */
    method ResetInitialization()
      modifies this
      ensures Initial() && Consistent()
    {
      db := null;
      isInitialized, isInitializing := false, false;
      initializationError := None;
      studentsTableReady, attendanceTableReady, studentsSeeded := false, false, false;
    }

    /** `getDatabase`: the connection, but only once initialization has finished. */
    function GetDatabase(): (r: Database?)
      reads this
      ensures r != null <==> isInitialized && db != null
      ensures r != null ==> r == db
      ensures Consistent() ==> (r != null <==> isInitialized)
    {
      if !isInitialized || db == null then null else db
    }
  }
}
