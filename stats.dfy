/** Present/absent counts per gender for one session and date: the roster partitioned against the
  * set of ids marked present (store/attendanceStore.ts:116-157, hooks/useAttendanceDb.ts:104-149). */
module Stats {
  import opened Records
  import opened Gender
  import opened Ledger

  /** `new Set(present.map((p) => p.student_id))` over
    * `SELECT student_id FROM attendance WHERE date = ? AND session = ?`. */
  function PresentIds(rows: seq<AttendanceRow>, session: string, date: string): set<int>
  {
    set i | 0 <= i < |rows| && rows[i].date == date && rows[i].session == session :: rows[i].studentId
  }

  /** Roster students with a male code. */
  function CountMales(students: seq<Student>): nat
  {
    if students == [] then 0
    else CountMales(students[..|students| - 1]) + (if IsMale(students[|students| - 1].code) then 1 else 0)
  }

  /** Roster students with a female code. */
  function CountFemales(students: seq<Student>): nat
  {
    if students == [] then 0
    else CountFemales(students[..|students| - 1]) + (if IsMale(students[|students| - 1].code) then 0 else 1)
  }

  /** Male roster students whose id is in `ids`. */
  function CountPresentMales(students: seq<Student>, ids: set<int>): nat
  {
    if students == [] then 0
    else
      var s := students[|students| - 1];
      CountPresentMales(students[..|students| - 1], ids) + (if IsMale(s.code) && s.id in ids then 1 else 0)
  }

  /** Female roster students whose id is in `ids`. */
  function CountPresentFemales(students: seq<Student>, ids: set<int>): nat
  {
    if students == [] then 0
    else
      var s := students[|students| - 1];
      CountPresentFemales(students[..|students| - 1], ids) + (if !IsMale(s.code) && s.id in ids then 1 else 0)
  }

  /** Roster students whose id is in `ids`, whatever their gender. */
  function CountPresent(students: seq<Student>, ids: set<int>): nat
  {
    if students == [] then 0
    else CountPresent(students[..|students| - 1], ids) + (if students[|students| - 1].id in ids then 1 else 0)
  }

  /** The record built from the four counters once the roster has been walked. */
  function StatsOf(students: seq<Student>, ids: set<int>): TodayStats
  {
    var tm, tf := CountMales(students), CountFemales(students);
    var pm, pf := CountPresentMales(students, ids), CountPresentFemales(students, ids);
    TodayStats(tm, tf, pm, pf, tm - pm, tf - pf, pm + pf, tm + tf - (pm + pf))
  }

  /** The gender split covers the roster, the present split covers the present roster students,
    * and nobody is present in a bucket without being in it. */
  lemma {:induction false} CountsPartition(students: seq<Student>, ids: set<int>)
    ensures CountMales(students) + CountFemales(students) == |students|
    ensures CountPresentMales(students, ids) + CountPresentFemales(students, ids) == CountPresent(students, ids)
    ensures CountPresentMales(students, ids) <= CountMales(students)
    ensures CountPresentFemales(students, ids) <= CountFemales(students)
  {
    if students != [] {
      CountsPartition(students[..|students| - 1], ids);
    }
  }

  /** The partition identities of the stats record: totals add up to the roster, present never exceeds
    * total in either bucket, absent is the complement, and present plus absent is the roster. */
  lemma StatsPartition(students: seq<Student>, ids: set<int>)
    ensures var st := StatsOf(students, ids);
            && st.totalMales + st.totalFemales == |students|
            && 0 <= st.presentMales <= st.totalMales && 0 <= st.presentFemales <= st.totalFemales
            && st.absentMales == st.totalMales - st.presentMales >= 0
            && st.absentFemales == st.totalFemales - st.presentFemales >= 0
            && st.presentMales + st.absentMales == st.totalMales
            && st.presentFemales + st.absentFemales == st.totalFemales
            && st.totalPresent == CountPresent(students, ids)
            && st.totalPresent + st.totalAbsent == |students|
  {
    CountsPartition(students, ids);
  }

  /** The `forEach` over the roster: one pass that bumps the total and the present counter of the
    * student's gender bucket. */
  method Tally(students: seq<Student>, presentIds: set<int>) returns (stats: TodayStats)
    ensures stats == StatsOf(students, presentIds)
  {
    var totalMales, totalFemales, presentMales, presentFemales := 0, 0, 0, 0;
    var i := 0;
    while i < |students|
      invariant 0 <= i <= |students|
      invariant totalMales == CountMales(students[..i]) && totalFemales == CountFemales(students[..i])
      invariant presentMales == CountPresentMales(students[..i], presentIds)
      invariant presentFemales == CountPresentFemales(students[..i], presentIds)
    {
      var s := students[i];
      var male := IsMale(s.code);
      CountsStep(students, presentIds, i);
      if male {
        totalMales := totalMales + 1;
        if s.id in presentIds { presentMales := presentMales + 1; }
      } else {
        totalFemales := totalFemales + 1;
        if s.id in presentIds { presentFemales := presentFemales + 1; }
      }
      i := i + 1;
    }
    assert students[..i] == students;
    assert totalMales == CountMales(students) && totalFemales == CountFemales(students);
    assert presentMales == CountPresentMales(students, presentIds);
    assert presentFemales == CountPresentFemales(students, presentIds);
    stats := TodayStats(
      totalMales, totalFemales, presentMales, presentFemales,
      totalMales - presentMales, totalFemales - presentFemales,
      presentMales + presentFemales,
      totalMales + totalFemales - (presentMales + presentFemales));
  }

  /** The counters of a roster prefix one student longer. */
  lemma CountsStep(students: seq<Student>, ids: set<int>, i: int)
    requires 0 <= i < |students|
    ensures var s, male := students[i], IsMale(students[i].code);
            && CountMales(students[..i + 1]) == CountMales(students[..i]) + (if male then 1 else 0)
            && CountFemales(students[..i + 1]) == CountFemales(students[..i]) + (if male then 0 else 1)
            && CountPresentMales(students[..i + 1], ids) == CountPresentMales(students[..i], ids) + (if male && s.id in ids then 1 else 0)
            && CountPresentFemales(students[..i + 1], ids) == CountPresentFemales(students[..i], ids) + (if !male && s.id in ids then 1 else 0)
  {
    assert students[..i + 1][..i] == students[..i];
  }

  /** An attendance id that names no roster student changes no counter. */
  lemma OrphanIdIgnored(students: seq<Student>, ids: set<int>, x: int)
    requires forall k :: 0 <= k < |students| ==> students[k].id != x
    ensures StatsOf(students, ids + {x}) == StatsOf(students, ids)
  {
    OrphanIdCounts(students, ids, x);
  }

  lemma {:induction false} OrphanIdCounts(students: seq<Student>, ids: set<int>, x: int)
    requires forall k :: 0 <= k < |students| ==> students[k].id != x
    ensures CountPresentMales(students, ids + {x}) == CountPresentMales(students, ids)
    ensures CountPresentFemales(students, ids + {x}) == CountPresentFemales(students, ids)
    ensures CountPresent(students, ids + {x}) == CountPresent(students, ids)
  {
    if students != [] {
      var last := |students| - 1;
      assert forall k :: 0 <= k < last ==> students[..last][k] == students[k];
      OrphanIdCounts(students[..last], ids, x);
    }
  }

  /** A second row for a (student, session, date) already present adds nothing to the present ids,
    * so duplicate rows count once. */
  lemma DuplicateRowCountsOnce(rows: seq<AttendanceRow>, row: AttendanceRow, session: string, date: string)
    requires HasTriple(rows, row.studentId, row.session, row.date)
    ensures PresentIds(rows + [row], session, date) == PresentIds(rows, session, date)
  {
    var i :| 0 <= i < |rows| && SameTriple(rows[i], row.studentId, row.session, row.date);
    var ext := rows + [row];
    assert forall k :: 0 <= k < |rows| ==> ext[k] == rows[k];
    assert ext[|rows|] == row;
  }

  /** Student ids of the roster are distinct (they are primary keys). */
  predicate IdsDistinct(students: seq<Student>)
  {
    forall i, j :: 0 <= i < j < |students| ==> students[i].id != students[j].id
  }

  /** Marking one absent roster student present moves exactly one student of that student's
    * gender from absent to present; the totals stay. */
  lemma MarkMovesOneStudent(students: seq<Student>, ids: set<int>, k: int)
    requires IdsDistinct(students) && 0 <= k < |students| && students[k].id !in ids
    ensures var before, after := StatsOf(students, ids), StatsOf(students, ids + {students[k].id});
            && after.totalMales == before.totalMales && after.totalFemales == before.totalFemales
            && after.totalPresent == before.totalPresent + 1
            && after.presentMales == before.presentMales + (if IsMale(students[k].code) then 1 else 0)
            && after.presentFemales == before.presentFemales + (if IsMale(students[k].code) then 0 else 1)
  {
    MarkCounts(students, ids, k);
  }

  lemma {:induction false} MarkCounts(students: seq<Student>, ids: set<int>, k: int)
    requires IdsDistinct(students) && 0 <= k < |students| && students[k].id !in ids
    ensures var x, male := students[k].id, IsMale(students[k].code);
            && CountPresentMales(students, ids + {x}) == CountPresentMales(students, ids) + (if male then 1 else 0)
            && CountPresentFemales(students, ids + {x}) == CountPresentFemales(students, ids) + (if male then 0 else 1)
  {
    var last := |students| - 1;
    var prefix := students[..last];
    var x := students[k].id;
    assert forall j :: 0 <= j < last ==> prefix[j] == students[j];
    if k < last {
      MarkCounts(prefix, ids, k);
      assert students[last].id != x;
    } else {
      OrphanIdCounts(prefix, ids, x);
    }
  }
}
