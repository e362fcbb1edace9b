/** The attendance write path: a check-then-insert on (student_id, session, date)
  * (store/attendanceStore.ts:69-88, hooks/useAttendanceDb.ts:58-73). The `attendance` table
  * declares no UNIQUE(student_id, session, date), so at most one row per triple holds only because
  * every write goes through this check. */
module Ledger {
  import opened Records

  /** `WHERE student_id = ? AND session = ? AND date = ?`: exact, case-sensitive comparison. */
  predicate SameTriple(row: AttendanceRow, studentId: int, session: string, date: string)
  {
    row.studentId == studentId && row.session == session && row.date == date
  }

  /** The pre-check query finds a row. */
  predicate HasTriple(rows: seq<AttendanceRow>, studentId: int, session: string, date: string)
  {
    exists i :: 0 <= i < |rows| && SameTriple(rows[i], studentId, session, date)
  }

  /** The ledger's central invariant: no two rows share (student_id, session, date). */
  predicate TriplesUnique(rows: seq<AttendanceRow>)
  {
    forall i, j :: 0 <= i < j < |rows| ==> !SameTriple(rows[j], rows[i].studentId, rows[i].session, rows[i].date)
  }

  /** The faults a storage call of the write path can raise. */
  datatype WriteFault = NoWriteFault | QueryFails(message: string) | InsertFails(message: string)

  /** One check-then-insert with no fault: the table unchanged on a repeated triple, otherwise one
    * `'present'` row appended with the next id and the session stored verbatim. */
  function MarkStep(rows: seq<AttendanceRow>, id: int, studentId: int, session: string, date: string, time: string): (r: seq<AttendanceRow>)
    ensures rows <= r && |r| <= |rows| + 1
    ensures HasTriple(r, studentId, session, date)
    ensures |r| == |rows| + 1 <==> !HasTriple(rows, studentId, session, date)
    ensures |r| == |rows| + 1 ==> r[|rows|] == AttendanceRow(id, studentId, session, date, time, Present)
    ensures TriplesUnique(rows) ==> TriplesUnique(r)
    ensures AttendanceIdsBelow(rows, id) ==> AttendanceIdsBelow(r, id + 1)
  {
    if HasTriple(rows, studentId, session, date) then rows
    else
      var r := rows + [AttendanceRow(id, studentId, session, date, time, Present)];
      assert SameTriple(r[|rows|], studentId, session, date);
      r
  }

  /** One scan handed to `markAttendance`, with the date and time the clock gave it. */
  datatype MarkCall = MarkCall(studentId: int, session: string, date: string, time: string)

  /** The table after a sequence of `markAttendance` calls, each one taking the next id. */
  function Replay(rows: seq<AttendanceRow>, next: int, calls: seq<MarkCall>): seq<AttendanceRow>
    decreases |calls|
  {
    if calls == [] then rows
    else
      var c := calls[|calls| - 1];
      var before := Replay(rows, next, calls[..|calls| - 1]);
      MarkStep(before, next + |before| - |rows|, c.studentId, c.session, c.date, c.time)
  }

  /** Across any sequence of calls the table keeps its earlier rows, holds a row for every call's
    * triple and never holds two rows for one triple. */
  lemma {:induction false} ReplayKeepsTriplesUnique(rows: seq<AttendanceRow>, next: int, calls: seq<MarkCall>)
    requires TriplesUnique(rows)
    ensures rows <= Replay(rows, next, calls)
    ensures TriplesUnique(Replay(rows, next, calls))
    ensures forall k :: 0 <= k < |calls| ==> HasTriple(Replay(rows, next, calls), calls[k].studentId, calls[k].session, calls[k].date)
  {
    if calls != [] {
      var last := |calls| - 1;
      var prefix := calls[..last];
      ReplayKeepsTriplesUnique(rows, next, prefix);
      var before := Replay(rows, next, prefix);
      var after := Replay(rows, next, calls);
      forall k | 0 <= k < |calls|
        ensures HasTriple(after, calls[k].studentId, calls[k].session, calls[k].date)
      {
        if k < last {
          assert calls[k] == prefix[k];
          var i :| 0 <= i < |before| && SameTriple(before[i], prefix[k].studentId, prefix[k].session, prefix[k].date);
          assert after[i] == before[i];
        }
      }
    }
  }

  /** Ids handed out by a replay stay fresh and growing. */
  lemma {:induction false} ReplayKeepsIds(rows: seq<AttendanceRow>, next: int, calls: seq<MarkCall>)
    requires AttendanceIdsBelow(rows, next)
    ensures |rows| <= |Replay(rows, next, calls)|
    ensures AttendanceIdsBelow(Replay(rows, next, calls), next + |Replay(rows, next, calls)| - |rows|)
  {
    if calls != [] {
      ReplayKeepsIds(rows, next, calls[..|calls| - 1]);
    }
  }

  /** The mark-then-re-mark scenario: the same scan twice leaves one row, not two. */
  lemma RemarkIsRejected(rows: seq<AttendanceRow>, id1: int, id2: int, studentId: int, session: string, date: string, time1: string, time2: string)
    ensures var once := MarkStep(rows, id1, studentId, session, date, time1);
            MarkStep(once, id2, studentId, session, date, time2) == once
  {
  }

  /** The session is stored verbatim: "morning" and "Morning" are two triples, so one student can
    * hold two rows for what the spelling-insensitive reader calls one session. */
  lemma CaseVariantsAreDistinctTriples(studentId: int, date: string, time: string)
    ensures |MarkStep(MarkStep([], 1, studentId, "morning", date, time), 2, studentId, "Morning", date, time)| == 2
  {
    var once := MarkStep([], 1, studentId, "morning", date, time);
    assert once == [AttendanceRow(1, studentId, "morning", date, time, Present)];
    assert "morning" != "Morning" by { assert "morning"[0] != "Morning"[0]; }
    assert !HasTriple(once, studentId, "Morning", date) by {
      assert !SameTriple(once[0], studentId, "Morning", date);
    }
  }
}
