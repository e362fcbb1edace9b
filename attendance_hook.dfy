/** The attendance hook (hooks/useAttendanceDb.ts): the same reads and writes as the store, handing
  * results back to the caller instead of keeping them. A duplicate triple is signalled as an error. */
module AttendanceHook {
  import opened Records
  import opened Ledger
  import opened Queries
  import opened Stats
  import opened Storage

  /** The message of the error raised for a repeated (student, session, date). */
  const AlreadyRecordedMessage: string := "Attendance already recorded for this student in this session today"

  class AttendanceDb {
    const db: Database

    predicate Valid()
      reads this, db
    {
      db.Valid()
    }

    constructor (db: Database)
      requires db.Valid()
      ensures Valid() && this.db == db
    {
      this.db := db;
    }

    /** `markAttendance`, throwing variant: a repeated triple raises the rejection and writes
      * nothing; a storage fault raises its own message and writes nothing; otherwise one `'present'`
      * row is appended. */
    method MarkAttendance(studentId: int, session: string, date: string, time: string, fault: WriteFault)
      returns (result: MarkResult)
      requires Valid()
      modifies db
      ensures Valid()
      ensures db.students == old(db.students) && db.nextStudentId == old(db.nextStudentId)
      ensures fault.QueryFails? ==>
                result == Fault(fault.message) && db.attendance == old(db.attendance)
                && db.nextAttendanceId == old(db.nextAttendanceId)
      ensures !fault.QueryFails? && HasTriple(old(db.attendance), studentId, session, date) ==>
                result == AlreadyMarked(AlreadyRecordedMessage) && db.attendance == old(db.attendance)
                && db.nextAttendanceId == old(db.nextAttendanceId)
      ensures fault.InsertFails? && !HasTriple(old(db.attendance), studentId, session, date) ==>
                result == Fault(fault.message) && db.attendance == old(db.attendance)
                && db.nextAttendanceId == old(db.nextAttendanceId)
      ensures fault.NoWriteFault? ==>
                db.attendance == MarkStep(old(db.attendance), old(db.nextAttendanceId), studentId, session, date, time)
      ensures fault.NoWriteFault? && !HasTriple(old(db.attendance), studentId, session, date) ==>
                && result == Ok
                && db.attendance == old(db.attendance) + [AttendanceRow(old(db.nextAttendanceId), studentId, session, date, time, Present)]
                && db.nextAttendanceId == old(db.nextAttendanceId) + 1
      ensures TriplesUnique(old(db.attendance)) ==> TriplesUnique(db.attendance)
    {
      if fault.QueryFails? {
        return Fault(fault.message);
      }
      if HasTriple(db.attendance, studentId, session, date) {
        return AlreadyMarked(AlreadyRecordedMessage);
      }
      if fault.InsertFails? {
        return Fault(fault.message);
      }
      db.InsertAttendance(studentId, session, date, time);
      result := Ok;
    }

    /** `getRecentScans`: at most ten joined rows, strictly newest first, and none newer left out. */
    method GetRecentScans() returns (scans: seq<Scan>)
      requires Valid()
      ensures scans == RecentScans(db.students, db.attendance)
      ensures |scans| <= 10 && ScanIdsDescending(scans)
      ensures forall k :: 0 <= k < |scans| ==> Joined(db.students, db.attendance, scans[k])
      ensures forall x :: x in Join(db.students, db.attendance) && x !in scans ==>
                forall k :: 0 <= k < |scans| ==> x.id < scans[k].id
    {
      RecentScansAreNewest(db.students, db.attendance);
      scans := RecentScans(db.students, db.attendance);
    }

    /** `getTodayStats`: the counters of `session` on `today`, the date the clock gives. */
    method GetTodayStats(session: string, today: string) returns (stats: TodayStats)
      requires Valid()
      ensures stats == StatsOf(db.students, PresentIds(db.attendance, session, today))
      ensures stats.totalMales + stats.totalFemales == |db.students|
      ensures 0 <= stats.presentMales <= stats.totalMales && 0 <= stats.presentFemales <= stats.totalFemales
      ensures stats.absentMales == stats.totalMales - stats.presentMales
      ensures stats.absentFemales == stats.totalFemales - stats.presentFemales
      ensures stats.totalPresent == stats.presentMales + stats.presentFemales
      ensures stats.totalPresent + stats.totalAbsent == |db.students|
    {
      var presentIds := PresentIds(db.attendance, session, today);
      stats := Tally(db.students, presentIds);
      StatsPartition(db.students, presentIds);
    }

    /** `resetAttendance`: the attendance table emptied; students are untouched. */
    method ResetAttendance()
      requires Valid()
      modifies db
      ensures Valid()
      ensures db.attendance == [] && db.nextAttendanceId == old(db.nextAttendanceId)
      ensures db.students == old(db.students) && db.nextStudentId == old(db.nextStudentId)
    {
      db.DeleteAllAttendance();
    }
  }
}
