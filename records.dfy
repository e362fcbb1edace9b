/** The rows of the two tables of `students.db`, the roster entries they are seeded from,
  * and the record shapes the attendance queries hand back. */
module Records {

  datatype Option<+T> = None | Some(value: T)

  /** A row of `students`: `id` is the AUTOINCREMENT key, `code` is UNIQUE. */
  datatype Student = Student(id: int, name: string, code: string)

  /** An entry of the static roster (`assets/students.json`): a student before it has an id. */
  datatype Entry = Entry(name: string, code: string)

  /** A row of `attendance`. `status` is `'present'` for every row the app writes. */
  datatype AttendanceRow = AttendanceRow(id: int, studentId: int, session: string, date: string, time: string, status: string)

  /** An attendance row joined with the name and code of its student (`JOIN students s ON a.student_id = s.id`). */
  datatype Scan = Scan(id: int, name: string, code: string, time: string, session: string, date: string, status: string, studentId: int)

  /** A row of the full history: the joined columns without `student_id`, which that query does not select. */
  datatype HistoryRow = HistoryRow(id: int, name: string, code: string, session: string, date: string, time: string, status: string)

  /** The eight counters of `TodayStats`. */
  datatype TodayStats = TodayStats(
    totalMales: int, totalFemales: int,
    presentMales: int, presentFemales: int,
    absentMales: int, absentFemales: int,
    totalPresent: int, totalAbsent: int)

  /** What a `markAttendance` call ends in: a new row, the business rejection for a repeated
    * (student, session, date), or a storage fault carrying the error message. */
  datatype MarkResult = Ok | AlreadyMarked(message: string) | Fault(message: string)

  /** The status literal every insert writes. */
  const Present: string := "present"

  /** UNIQUE(code) on `students`. */
  predicate CodesUnique(rows: seq<Student>)
  {
    forall i, j :: 0 <= i < j < |rows| ==> rows[i].code != rows[j].code
  }

  /** Student ids grow with insertion order and stay below the AUTOINCREMENT counter. */
  predicate StudentIdsBelow(rows: seq<Student>, next: int)
  {
    && (forall i, j :: 0 <= i < j < |rows| ==> rows[i].id < rows[j].id)
    && (forall i :: 0 <= i < |rows| ==> rows[i].id < next)
  }

  /** Attendance ids grow with insertion order and stay below the AUTOINCREMENT counter. */
  predicate AttendanceIdsBelow(rows: seq<AttendanceRow>, next: int)
  {
    && (forall i, j :: 0 <= i < j < |rows| ==> rows[i].id < rows[j].id)
    && (forall i :: 0 <= i < |rows| ==> rows[i].id < next)
  }

  predicate HasCode(rows: seq<Student>, code: string)
  {
    exists i :: 0 <= i < |rows| && rows[i].code == code
  }

  /** The set of codes held by a table. */
  function Codes(rows: seq<Student>): set<string>
  {
    set i | 0 <= i < |rows| :: rows[i].code
  }

  /** The set of codes a roster mentions. */
  function RosterCodes(roster: seq<Entry>): set<string>
  {
    set i | 0 <= i < |roster| :: roster[i].code
  }
}
