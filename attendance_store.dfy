/** The global attendance store (store/attendanceStore.ts): the fields the screens read and the
  * actions that fill them from `students.db`. The database handle is shared with every other part
  * of the app that opens the same file. */
module Store {
  import opened Records
  import opened Ledger
  import opened Queries
  import opened Stats
  import opened SessionCounts
  import opened Storage

  /** The message of the business rejection for a repeated (student, session, date). */
  const AlreadyMarkedMessage: string := "Already marked for this session"

  /** The history query selects every joined column except `student_id`. */
  function HistoryOf(x: Scan): (h: HistoryRow)
    ensures h.id == x.id && h.name == x.name && h.code == x.code && h.status == x.status
    ensures h.session == x.session && h.date == x.date && h.time == x.time
  {
    HistoryRow(x.id, x.name, x.code, x.session, x.date, x.time, x.status)
  }

  class AttendanceStore {
    const db: Database
    var recentScans: seq<Scan>
    var todayStats: Option<TodayStats>
    var sessionCounts: map<string, int>
    var loading: bool
    var error: Option<string>

    predicate Valid()
      reads this, db
    {
      db.Valid()
    }

    /** The store as created: empty feed, no stats, no counts, idle, no error. */
    constructor (db: Database)
      requires db.Valid()
      ensures Valid() && this.db == db
      ensures recentScans == [] && todayStats == None && sessionCounts == map[]
      ensures !loading && error == None
    {
      this.db := db;
      recentScans := [];
      todayStats := None;
      sessionCounts := map[];
      loading := false;
      error := None;
    }

    /** `markAttendance`: the duplicate check, the insert, then a refresh of the feed. `fault` is
      * what the two storage calls raise, `refreshFault` what the refresh raises; `date` and `time`
      * are the clock's reading. Every path ends with `loading` cleared. */
    method MarkAttendance(studentId: int, session: string, date: string, time: string,
                          fault: WriteFault, refreshFault: Option<string>) returns (result: MarkResult)
      requires Valid()
      modifies this, db
      ensures Valid() && !loading
      ensures todayStats == old(todayStats) && sessionCounts == old(sessionCounts)
      ensures db.students == old(db.students) && db.nextStudentId == old(db.nextStudentId)
      // the pre-check query fails: nothing is written
      ensures fault.QueryFails? ==>
                && result == Fault(fault.message) && error == Some(fault.message)
                && db.attendance == old(db.attendance) && recentScans == old(recentScans)
                && db.nextAttendanceId == old(db.nextAttendanceId)
      // a row for the triple exists: rejected, nothing written, no error recorded
      ensures !fault.QueryFails? && HasTriple(old(db.attendance), studentId, session, date) ==>
                && result == AlreadyMarked(AlreadyMarkedMessage) && error == None
                && db.attendance == old(db.attendance) && recentScans == old(recentScans)
                && db.nextAttendanceId == old(db.nextAttendanceId)
      // the insert fails: nothing is written
      ensures fault.InsertFails? && !HasTriple(old(db.attendance), studentId, session, date) ==>
                && result == Fault(fault.message) && error == Some(fault.message)
                && db.attendance == old(db.attendance) && recentScans == old(recentScans)
                && db.nextAttendanceId == old(db.nextAttendanceId)
      // the insert succeeds: exactly one 'present' row with the session verbatim and the next id
      ensures fault.NoWriteFault? ==>
                db.attendance == MarkStep(old(db.attendance), old(db.nextAttendanceId), studentId, session, date, time)
      ensures fault.NoWriteFault? && !HasTriple(old(db.attendance), studentId, session, date) ==>
                && db.attendance == old(db.attendance) + [AttendanceRow(old(db.nextAttendanceId), studentId, session, date, time, Present)]
                && db.nextAttendanceId == old(db.nextAttendanceId) + 1
                && (refreshFault.None? ==>
                      result == Ok && error == None && recentScans == RecentScans(db.students, db.attendance))
                && (refreshFault.Some? ==>
                      result == Fault(refreshFault.value) && error == refreshFault && recentScans == old(recentScans))
      ensures TriplesUnique(old(db.attendance)) ==> TriplesUnique(db.attendance)
    {
      loading, error := true, None;
      if fault.QueryFails? {
        error := Some(fault.message);
        result := Fault(fault.message);
        loading := false;
        return;
      }
      var existing := HasTriple(db.attendance, studentId, session, date);
      if existing {
        result := AlreadyMarked(AlreadyMarkedMessage);
        loading := false;
        return;
      }
      if fault.InsertFails? {
        error := Some(fault.message);
        result := Fault(fault.message);
        loading := false;
        return;
      }
      db.InsertAttendance(studentId, session, date, time);
      if refreshFault.Some? {
        error := refreshFault;
        result := Fault(refreshFault.value);
      } else {
        FetchRecentScans();
        result := Ok;
      }
      loading := false;
    }

    /** `fetchRecentScans`: the ten newest joined rows, newest first. */
    method FetchRecentScans()
      requires Valid()
      modifies this
      ensures Valid()
      ensures recentScans == RecentScans(db.students, db.attendance)
      ensures |recentScans| <= 10 && ScanIdsDescending(recentScans)
      ensures forall k :: 0 <= k < |recentScans| ==> Joined(db.students, db.attendance, recentScans[k])
      ensures todayStats == old(todayStats) && sessionCounts == old(sessionCounts)
      ensures loading == old(loading) && error == old(error)
    {
      RecentScansAreNewest(db.students, db.attendance);
      recentScans := RecentScans(db.students, db.attendance);
    }

    /** `fetchTodayStats`: the roster split by gender and against the ids present for `session` on
      * `today`, the date the clock gives. */
    method FetchTodayStats(session: string, today: string)
      requires Valid()
      modifies this
      ensures Valid()
      ensures todayStats == Some(StatsOf(db.students, PresentIds(db.attendance, session, today)))
      ensures var st := todayStats.value;
              && st.totalMales + st.totalFemales == |db.students|
              && 0 <= st.presentMales <= st.totalMales && 0 <= st.presentFemales <= st.totalFemales
              && st.absentMales == st.totalMales - st.presentMales
              && st.absentFemales == st.totalFemales - st.presentFemales
              && st.totalPresent + st.totalAbsent == st.totalMales + st.totalFemales
      ensures recentScans == old(recentScans) && sessionCounts == old(sessionCounts)
      ensures loading == old(loading) && error == old(error)
    {
      var presentIds := PresentIds(db.attendance, session, today);
      var stats := Tally(db.students, presentIds);
      StatsPartition(db.students, presentIds);
      todayStats := Some(stats);
    }

    /** `fetchSessionCounts`: the rows of `date` grouped by session and folded into the four bins. */
    method FetchSessionCounts(date: string)
      requires Valid()
      modifies this
      ensures Valid()
      ensures sessionCounts.Keys == Labels
      ensures forall bin :: bin in Labels ==> sessionCounts[bin] == RowsInBin(SessionsOn(db.attendance, date), bin)
      ensures forall x :: Occurrences(SessionsOn(db.attendance, date), x) == |DatedRowsOf(db.attendance, date, x)|
      ensures sessionCounts[Morning] + sessionCounts[LunchDismissal] + sessionCounts[AfterLunch]
              + sessionCounts[Dismissal] <= |DatedRows(db.attendance, date)|
      ensures recentScans == old(recentScans) && todayStats == old(todayStats)
      ensures loading == old(loading) && error == old(error)
    {
      var sessions := SessionsOn(db.attendance, date);
      var groups := GroupBySession(sessions);
      var counts := BinGroups(groups);
      forall bin | bin in Labels ensures counts[bin] == RowsInBin(sessions, bin) {
        GroupsCountRows(sessions, bin);
      }
      BinsAtMostRows(sessions);
      forall x ensures Occurrences(sessions, x) == |DatedRowsOf(db.attendance, date, x)| {
        SessionsOnIsFilter(db.attendance, date, x);
      }
      SessionsOnIsFilter(db.attendance, date, "");
      sessionCounts := counts;
    }

    /** `fetchAttendanceByDate`: the joined rows of `date`, latest time first, into the feed; a
      * failing query records its message instead. */
    method FetchAttendanceByDate(date: string, fault: Option<string>)
      requires Valid()
      modifies this
      ensures Valid() && !loading
      ensures fault.None? ==> recentScans == AttendanceOn(db.students, db.attendance, date) && error == None
      ensures fault.None? ==> TimeDescending(recentScans) && forall k :: 0 <= k < |recentScans| ==> recentScans[k].date == date
      ensures fault.Some? ==> recentScans == old(recentScans) && error == fault
      ensures todayStats == old(todayStats) && sessionCounts == old(sessionCounts)
    {
      loading, error := true, None;
      if fault.Some? {
        error, loading := fault, false;
      } else {
        recentScans, loading := AttendanceOn(db.students, db.attendance, date), false;
      }
    }

    /** `resetAttendance`: the attendance table emptied and every derived field cleared. */
    method ResetAttendance()
      requires Valid()
      modifies this, db
      ensures Valid()
      ensures db.attendance == [] && db.nextAttendanceId == old(db.nextAttendanceId)
      ensures db.students == old(db.students) && db.nextStudentId == old(db.nextStudentId)
      ensures recentScans == [] && todayStats == None && sessionCounts == map[]
      ensures loading == old(loading) && error == old(error)
    {
      db.DeleteAllAttendance();
      recentScans, todayStats, sessionCounts := [], None, map[];
    }

    /** `fetchAllAttendance`: every joined row, newest first, without `student_id`; a failing query
      * yields no rows. The store's fields are left alone. */
    method FetchAllAttendance(fault: Option<string>) returns (rows: seq<HistoryRow>)
      requires Valid()
      ensures fault.Some? ==> rows == []
      ensures fault.None? ==>
                var all := AllAttendance(db.students, db.attendance);
                && |rows| == |all| && |rows| == |Join(db.students, db.attendance)|
                && (forall k :: 0 <= k < |rows| ==> rows[k] == HistoryOf(all[k]) && Joined(db.students, db.attendance, all[k]))
                && (forall i, j :: 0 <= i < j < |rows| ==> rows[i].id > rows[j].id)
    {
      if fault.Some? {
        return [];
      }
      var all := AllAttendance(db.students, db.attendance);
      AllAttendanceNewestFirst(db.students, db.attendance);
      rows := seq(|all|, k requires 0 <= k < |all| => HistoryOf(all[k]));
    }
  }
}
