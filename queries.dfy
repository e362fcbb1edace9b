/** The joined read queries over `attendance` and `students`: the recent-scan feed
  * (store/attendanceStore.ts:105-113, hooks/useAttendanceDb.ts:86-92), the rows of one date
  * (store/attendanceStore.ts:191-198) and the full history (store/attendanceStore.ts:213-218). */
module Queries {
  import opened Records

  /** The student row whose primary key is `id`, if any. */
  function StudentWithId(students: seq<Student>, id: int): (r: Option<Student>)
    ensures r.Some? ==> r.value in students && r.value.id == id
    ensures r.None? ==> forall k :: 0 <= k < |students| ==> students[k].id != id
  {
    if students == [] then None
    else if students[0].id == id then Some(students[0])
    else StudentWithId(students[1..], id)
  }

  /** The joined form of one attendance row, when its `student_id` names a student. */
  function JoinRow(students: seq<Student>, a: AttendanceRow): (r: Option<Scan>)
    ensures r.Some? <==> StudentWithId(students, a.studentId).Some?
    ensures r.Some? ==> MatchesRow(r.value, a) && Joined1(students, r.value)
  {
    match StudentWithId(students, a.studentId)
    case None => None
    case Some(s) => Some(Scan(a.id, s.name, s.code, a.time, a.session, a.date, a.status, a.studentId))
  }

  /** The scan names the student its `student_id` points at. */
  predicate Joined1(students: seq<Student>, x: Scan)
  {
    StudentWithId(students, x.studentId) == Some(Student(x.studentId, x.name, x.code))
  }

  /** `attendance a JOIN students s ON a.student_id = s.id`, in table order: a row whose
    * `student_id` names no student drops out. */
  function Join(students: seq<Student>, rows: seq<AttendanceRow>): (r: seq<Scan>)
    ensures |r| <= |rows|
    decreases |rows|
  {
    if rows == [] then []
    else
      var before := Join(students, rows[..|rows| - 1]);
      match JoinRow(students, rows[|rows| - 1])
      case None => before
      case Some(x) => before + [x]
  }

  /** Every joined row comes from an attendance row of the table and names its student. */
  lemma {:induction false} JoinSound(students: seq<Student>, rows: seq<AttendanceRow>, k: int)
    requires 0 <= k < |Join(students, rows)|
    ensures Joined(students, rows, Join(students, rows)[k])
    decreases |rows|
  {
    var last := |rows| - 1;
    var before := Join(students, rows[..last]);
    var x := Join(students, rows)[k];
    if k < |before| {
      JoinSound(students, rows[..last], k);
      assert x == before[k];
      var i :| 0 <= i < last && MatchesRow(x, rows[..last][i]);
      assert rows[..last][i] == rows[i];
    } else {
      assert MatchesRow(x, rows[last]);
    }
  }

  /** Every attendance row whose student exists appears in the join. */
  lemma {:induction false} JoinComplete(students: seq<Student>, rows: seq<AttendanceRow>, i: int)
    requires 0 <= i < |rows| && StudentWithId(students, rows[i].studentId).Some?
    ensures exists k :: 0 <= k < |Join(students, rows)| && MatchesRow(Join(students, rows)[k], rows[i])
    decreases |rows|
  {
    var last := |rows| - 1;
    var before := Join(students, rows[..last]);
    var r := Join(students, rows);
    if i < last {
      assert rows[..last][i] == rows[i];
      JoinComplete(students, rows[..last], i);
      var k :| 0 <= k < |before| && MatchesRow(before[k], rows[i]);
      assert r[k] == before[k];
    } else {
      assert MatchesRow(r[|before|], rows[i]);
    }
  }

  /** The join keeps the table's id order. */
  lemma {:induction false} JoinAscending(students: seq<Student>, rows: seq<AttendanceRow>)
    requires AttendanceIdsAscending(rows)
    ensures ScanIdsAscending(Join(students, rows))
    decreases |rows|
  {
    if rows != [] {
      var last := |rows| - 1;
      var before := Join(students, rows[..last]);
      JoinAscending(students, rows[..last]);
      forall k | 0 <= k < |before| ensures before[k].id < rows[last].id {
        JoinSound(students, rows[..last], k);
        var i :| 0 <= i < last && MatchesRow(before[k], rows[..last][i]);
        assert rows[..last][i] == rows[i];
      }
    }
  }

  predicate AttendanceIdsAscending(rows: seq<AttendanceRow>)
  {
    forall i, j :: 0 <= i < j < |rows| ==> rows[i].id < rows[j].id
  }

  predicate ScanIdsAscending(scans: seq<Scan>)
  {
    forall i, j :: 0 <= i < j < |scans| ==> scans[i].id < scans[j].id
  }

  predicate ScanIdsDescending(scans: seq<Scan>)
  {
    forall i, j :: 0 <= i < j < |scans| ==> scans[i].id > scans[j].id
  }

  /** A scan carries the columns of one attendance row. */
  predicate MatchesRow(x: Scan, a: AttendanceRow)
  {
    x.id == a.id && x.studentId == a.studentId && x.session == a.session
    && x.date == a.date && x.time == a.time && x.status == a.status
  }

  /** A scan is an attendance row of the table joined with the student its `student_id` names. */
  predicate Joined(students: seq<Student>, rows: seq<AttendanceRow>, x: Scan)
  {
    (exists i :: 0 <= i < |rows| && MatchesRow(x, rows[i])) && Joined1(students, x)
  }

  function Reverse<T>(s: seq<T>): (r: seq<T>)
    ensures |r| == |s| && forall k :: 0 <= k < |s| ==> r[k] == s[|s| - 1 - k]
  {
    seq(|s|, k requires 0 <= k < |s| => s[|s| - 1 - k])
  }

  function Min(a: int, b: int): int
  {
    if a <= b then a else b
  }

  /** `ORDER BY a.id DESC LIMIT 10`. Ids grow with insertion order, so ordering by id descending
    * is reading the joined table backwards. */
  function RecentScans(students: seq<Student>, rows: seq<AttendanceRow>): (r: seq<Scan>)
    ensures |r| == Min(10, |Join(students, rows)|) && |r| <= 10
  {
    var all := Join(students, rows);
    Reverse(all)[..Min(10, |all|)]
  }

  /** The feed holds joined rows only, newest first, and no joined row left out of it is newer than
    * any row in it: it is the ten newest. */
  lemma RecentScansAreNewest(students: seq<Student>, rows: seq<AttendanceRow>)
    requires AttendanceIdsAscending(rows)
    ensures var r := RecentScans(students, rows);
            && (forall k :: 0 <= k < |r| ==> Joined(students, rows, r[k]))
            && ScanIdsDescending(r)
            && forall x :: x in Join(students, rows) && x !in r ==> forall k :: 0 <= k < |r| ==> x.id < r[k].id
  {
    var all := Join(students, rows);
    var n := Min(10, |all|);
    var r := Reverse(all)[..n];
    assert r == RecentScans(students, rows);
    JoinAscending(students, rows);
    NewestFirst(all, n);
    forall k | 0 <= k < n ensures Joined(students, rows, r[k]) {
      assert r[k] == all[|all| - 1 - k];
      JoinSound(students, rows, |all| - 1 - k);
    }
  }

  /** The first `n` of a list read backwards are its `n` largest ids, in descending order. */
  lemma NewestFirst(all: seq<Scan>, n: nat)
    requires n <= |all| && ScanIdsAscending(all)
    ensures var r := Reverse(all)[..n];
            && (forall k :: 0 <= k < n ==> r[k] == all[|all| - 1 - k])
            && ScanIdsDescending(r)
            && forall x :: x in all && x !in r ==> forall k :: 0 <= k < |r| ==> x.id < r[k].id
  {
    var r := Reverse(all)[..n];
    assert forall j :: |all| - n <= j < |all| ==> r[|all| - 1 - j] == all[j];
    forall x | x in all && x !in r ensures forall k :: 0 <= k < |r| ==> x.id < r[k].id {
      var p :| 0 <= p < |all| && all[p] == x;
    }
  }

  /** The rows that `fetchAllAttendance` returns: every joined row, newest first. */
  function AllAttendance(students: seq<Student>, rows: seq<AttendanceRow>): (r: seq<Scan>)
    ensures multiset(r) == multiset(Join(students, rows))
  {
    var all := Join(students, rows);
    ReverseMultiset(all);
    Reverse(all)
  }

  /** The full history lists joined rows only, newest first. */
  lemma AllAttendanceNewestFirst(students: seq<Student>, rows: seq<AttendanceRow>)
    requires AttendanceIdsAscending(rows)
    ensures var r := AllAttendance(students, rows);
            (forall k :: 0 <= k < |r| ==> Joined(students, rows, r[k])) && ScanIdsDescending(r)
  {
    var all := Join(students, rows);
    var r := AllAttendance(students, rows);
    JoinAscending(students, rows);
    forall k | 0 <= k < |r| ensures Joined(students, rows, r[k]) {
      JoinSound(students, rows, |all| - 1 - k);
    }
  }

  lemma {:induction false} ReverseMultiset<T>(s: seq<T>)
    ensures multiset(Reverse(s)) == multiset(s)
  {
    if s != [] {
      var last := |s| - 1;
      ReverseMultiset(s[..last]);
      assert Reverse(s) == [s[last]] + Reverse(s[..last]);
      assert s == s[..last] + [s[last]];
    }
  }

  /** SQLite's BINARY collation on text: code-point lexicographic order, a prefix first. */
  predicate TextLe(a: string, b: string)
    decreases |a|
  {
    a == [] || (b != [] && (a[0] < b[0] || (a[0] == b[0] && TextLe(a[1..], b[1..]))))
  }

  lemma {:induction false} TextLeTotal(a: string, b: string)
    ensures TextLe(a, b) || TextLe(b, a)
    decreases |a|
  {
    if a != [] && b != [] && a[0] == b[0] {
      TextLeTotal(a[1..], b[1..]);
    }
  }

  lemma {:induction false} TextLeTransitive(a: string, b: string, c: string)
    requires TextLe(a, b) && TextLe(b, c)
    ensures TextLe(a, c)
    decreases |a|
  {
    if a != [] && b != [] && c != [] && a[0] == b[0] && b[0] == c[0] {
      TextLeTransitive(a[1..], b[1..], c[1..]);
    }
  }

  /** Ordered by `time` descending. */
  predicate TimeDescending(s: seq<Scan>)
  {
    forall i, j :: 0 <= i < j < |s| ==> TextLe(s[j].time, s[i].time)
  }

  /** Places `x` before the first scan whose time is not later than its own. */
  function InsertByTime(x: Scan, s: seq<Scan>): (r: seq<Scan>)
    ensures multiset(r) == multiset(s) + multiset{x}
  {
    if s == [] then [x]
    else if TextLe(s[0].time, x.time) then [x] + s
    else
      assert s == [s[0]] + s[1..];
      [s[0]] + InsertByTime(x, s[1..])
  }

  /** Inserting into a list ordered by time descending keeps it ordered. */
  lemma {:induction false} InsertByTimeSorted(x: Scan, s: seq<Scan>)
    requires TimeDescending(s)
    ensures TimeDescending(InsertByTime(x, s))
  {
    if s == [] {
    } else if TextLe(s[0].time, x.time) {
      forall j | 0 <= j < |s| ensures TextLe(s[j].time, x.time) {
        if j > 0 { TextLeTransitive(s[j].time, s[0].time, x.time); }
      }
      ConsSorted(x, s);
    } else {
      var rest := InsertByTime(x, s[1..]);
      InsertByTimeSorted(x, s[1..]);
      TextLeTotal(s[0].time, x.time);
      AllAtMost(rest, s[1..], x, s[0].time);
      ConsSorted(s[0], rest);
    }
  }

  /** Whatever a list holds beside the scans of `s` and `x` is bounded by what bounds them. */
  lemma AllAtMost(r: seq<Scan>, s: seq<Scan>, x: Scan, top: string)
    requires multiset(r) == multiset(s) + multiset{x}
    requires forall i :: 0 <= i < |s| ==> TextLe(s[i].time, top)
    requires TextLe(x.time, top)
    ensures forall j :: 0 <= j < |r| ==> TextLe(r[j].time, top)
  {
    forall j | 0 <= j < |r| ensures TextLe(r[j].time, top) {
      assert r[j] in multiset(r);
      if r[j] != x {
        assert r[j] in multiset(s);
      }
    }
  }

  /** A head no earlier than every element of an ordered tail gives an ordered list. */
  lemma ConsSorted(h: Scan, rest: seq<Scan>)
    requires TimeDescending(rest)
    requires forall j :: 0 <= j < |rest| ==> TextLe(rest[j].time, h.time)
    ensures TimeDescending([h] + rest)
  {
  }

  /** `ORDER BY a.time DESC` (rows with equal times keep no particular order in SQL; this sort keeps
    * one of the orders SQL may give). */
  function SortByTimeDescending(s: seq<Scan>): (r: seq<Scan>)
    ensures multiset(r) == multiset(s)
    ensures TimeDescending(r)
  {
    if s == [] then []
    else
      assert s == [s[0]] + s[1..];
      var rest := SortByTimeDescending(s[1..]);
      InsertByTimeSorted(s[0], rest);
      InsertByTime(s[0], rest)
  }

  /** `WHERE a.date = ?` on joined rows. */
  function OnDate(scans: seq<Scan>, date: string): (r: seq<Scan>)
    ensures forall k :: 0 <= k < |r| ==> r[k].date == date
    ensures forall x :: x in scans && x.date == date ==> multiset(r)[x] == multiset(scans)[x]
    ensures forall x :: x in r ==> x in scans
  {
    if scans == [] then []
    else
      var rest := OnDate(scans[1..], date);
      assert scans == [scans[0]] + scans[1..];
      if scans[0].date == date then [scans[0]] + rest else rest
  }

  /** The joined rows of one date, latest time first (`fetchAttendanceByDate`). */
  function AttendanceOn(students: seq<Student>, rows: seq<AttendanceRow>, date: string): (r: seq<Scan>)
    ensures TimeDescending(r)
    ensures forall k :: 0 <= k < |r| ==> r[k].date == date
  {
    var on := OnDate(Join(students, rows), date);
    var r := SortByTimeDescending(on);
    assert forall k :: 0 <= k < |r| ==> r[k] in multiset(on);
    r
  }

  /** The rows of a date are exactly the joined rows carrying that date, each as often as the join
    * holds it. */
  lemma AttendanceOnIsComplete(students: seq<Student>, rows: seq<AttendanceRow>, date: string)
    ensures var r := AttendanceOn(students, rows, date);
            && (forall k :: 0 <= k < |r| ==> Joined(students, rows, r[k]))
            && forall x: Scan :: x.date == date ==> multiset(r)[x] == multiset(Join(students, rows))[x]
  {
    var all := Join(students, rows);
    var on := OnDate(all, date);
    var r := AttendanceOn(students, rows, date);
    forall k | 0 <= k < |r| ensures Joined(students, rows, r[k]) {
      assert r[k] in multiset(on);
      assert r[k] in all;
      var p :| 0 <= p < |all| && all[p] == r[k];
      JoinSound(students, rows, p);
    }
    forall x: Scan | x.date == date ensures multiset(r)[x] == multiset(all)[x] {
      if x !in all {
        assert x !in on;
      }
    }
  }
}
