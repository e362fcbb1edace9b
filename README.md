# IDAS attendance data layer in Dafny

IDAS is a school attendance app. Staff scan a student's QR code and the app records the student
as present for one of four daily sessions. This project models the app's local data layer: the
on-device `students.db` with its `students` and `attendance` tables, and the four parts of the
code that read and write it.

- `Storage.Database` stands for the database file. It holds both tables as sequences of rows and
  keeps each table's AUTOINCREMENT counter next to it. It enforces UNIQUE(code) on `students`.
  `DELETE` empties a table but does not rewind its counter, so an id is never handed out twice.
  The `attendance` table has no constraint on (student_id, session, date), and its foreign key
  is not enforced.
- `Store.AttendanceStore` models the global attendance store (store/attendanceStore.ts).
  - `markAttendance` runs a duplicate check, then an insert, then a refresh of the recent-scan
    feed.
  - The read actions fill the fields the screens show: `recentScans`, `todayStats`,
    `sessionCounts`, `loading` and `error`.
- `AttendanceHook.AttendanceDb` models the attendance hook (hooks/useAttendanceDb.ts). It makes
  the same reads and writes, but hands each result back to the caller. A duplicate scan is
  signalled as an error.
- `Bootstrap.TablesInitializer` models the bootstrap state machine
  (store/initializeTablesStore.ts). It has a re-entry guard, and its status flags are raised one
  step at a time. On any failure it clears every flag.
- `StudentsHook.StudentsDb` models the student directory hook (hooks/useStudentsDb.ts).
  - Setup opens the database and seeds it if the table is empty.
  - Lookups, reset and clear all wait for the `dbReady` flag.

The pure parts of the code are modelled as functions, with lemmas about them:

| module | what it models |
|---|---|
| `Gender` | the gender rule: `parseInt` of the last `-` segment of a code, male for 1..13 |
| `Seeding` | the seed loop that skips rejected inserts |
| `Ledger` | the check-then-insert and its at-most-one-row-per-triple invariant |
| `Queries` | the joined queries, ordered by id or by time |
| `Stats` | the eight counters of `TodayStats` |
| `SessionCounts` | the GROUP BY and the four display bins |

Each stateful method is specified against these functions.

Some inputs become parameters:

- The clock's date and time.
- The bundled roster (`assets/students.json`).
- Storage failures, as explicit fault values, and only at the points where the code reacts to
  them.

These facts about the code shape the attendance model:

- The code stores `session` exactly as the caller passes it, case and spelling included.
- The label map has exactly four keys, none of them `lunch`. A session stored as `lunch` falls in
  no bin.
- The at-most-one-row-per-triple rule has no UNIQUE constraint behind it. It holds only because
  every write goes through the pre-check, and `Ledger.ReplayKeepsTriplesUnique` proves that it
  holds for sequential calls.
- `Ledger.CaseVariantsAreDistinctTriples` shows what storing the session verbatim allows:
  "morning" and "Morning" are two different triples.

## Model

| member | source | states |
|---|---|---|
| Gender.LastSegmentShape | store/attendanceStore.ts:134 | `split("-").pop()` is the `-`-free suffix of the code that follows its last `-`, or the whole code when there is no `-` |
| Gender.LastSegmentAfterDash | store/attendanceStore.ts:134 | the last segment of `prefix + "-" + seg` is `seg` when `seg` has no `-` |
| Gender.TrimStartShape | store/attendanceStore.ts:134 | `parseInt` skips exactly the leading ECMAScript white space |
| Gender.DigitPrefixShape | store/attendanceStore.ts:134 | `parseInt` reads the longest run of decimal digits |
| Gender.ParseIntShape | store/attendanceStore.ts:134 | a string that starts with a digit parses to a non-negative number; an empty string, or one that starts with anything but white space, a sign or a digit, is NaN |
| Gender.MaleIffInRange | store/attendanceStore.ts:134-135 | a code ending in `-` followed by digits is male exactly when the digits' value is in 1..13 |
| Gender.EmptySegmentIsFemale | store/attendanceStore.ts:134-135 | an empty last segment is read as "0", which is female |
| Gender.NonNumericIsFemale | store/attendanceStore.ts:134-135 | a last segment with no digit in it, whatever white space or sign it starts with, parses to NaN (or is read as 0 when empty), which is female |
| Gender.Boundaries | hooks/useAttendanceDb.ts:128-129 | -1, -13 and -013 are male; -0 and -14 are female |
| Seeding.InsertEntry | hooks/useStudentsDb.ts:37-44 | one insert: a taken code leaves the table unchanged; a new code appends `Student(nextId, name, code)`; UNIQUE(code) and growing ids are kept; the codes become the old codes plus the entry's code |
| Seeding.SeedAll | store/initializeTablesStore.ts:102-111 | the seed loop keeps the rows already there and the table's constraints; the resulting codes are the old codes together with every roster code |
| Seeding.SeedRowsComeFirstFromRoster | store/initializeTablesStore.ts:102-111 | each row the seed loop adds carries the name and code of the first roster entry with that code, because later duplicates are rejected |
| Seeding.DistinctCodesCount | store/initializeTablesStore.ts:71 | under UNIQUE(code) the table has exactly one row per distinct code |
| Seeding.SeedFromEmpty | hooks/useStudentsDb.ts:80-91 | seeding an empty table leaves exactly one student per distinct roster code, with unique codes |
| Seeding.SeedIfEmptyIdempotent | store/initializeTablesStore.ts:93-117 | seed-if-empty run twice gives the same table as run once |
| Ledger.MarkStep | store/attendanceStore.ts:69-88 | a repeated (student_id, session, date) leaves the table unchanged; otherwise exactly one `'present'` row with the given fields and the next id is appended and no earlier row changes; both the triple invariant and the id order are kept |
| Ledger.ReplayKeepsTriplesUnique | store/attendanceStore.ts:69-88 | across any sequence of calls, no two rows share a triple; every call's triple is present; earlier rows are kept |
| Ledger.ReplayKeepsIds | store/attendanceStore.ts:84-88 | ids handed out across a sequence of calls stay increasing and below the counter |
| Ledger.RemarkIsRejected | hooks/useAttendanceDb.ts:58-66 | the same scan twice leaves the table as after the first |
| Ledger.CaseVariantsAreDistinctTriples | store/attendanceStore.ts:85-87 | the session is stored verbatim, so "morning" and "Morning" give two rows for one student and date |
| Queries.StudentWithId | store/attendanceStore.ts:109 | the student whose id the row names, or none when no student has that id |
| Queries.JoinRow | store/attendanceStore.ts:107-109 | an attendance row joins exactly when its `student_id` names a student; the joined row carries that student's name and code |
| Queries.JoinSound | store/attendanceStore.ts:107-109 | every joined row comes from a table row and names its student |
| Queries.JoinComplete | store/attendanceStore.ts:107-109 | every table row whose `student_id` names a student appears in the join |
| Queries.JoinAscending | store/attendanceStore.ts:107-110 | the join keeps the table's increasing id order |
| Queries.RecentScans | store/attendanceStore.ts:105-113 | the feed holds min(10, number of joined rows) rows |
| Queries.RecentScansAreNewest | store/attendanceStore.ts:105-113 | the feed holds only joined rows, in strictly descending id order, and any joined row left out is older than every row in it |
| Queries.AllAttendance | store/attendanceStore.ts:213-218 | the full history is a permutation of the join |
| Queries.AllAttendanceNewestFirst | store/attendanceStore.ts:213-218 | the full history holds only joined rows, in strictly descending id order |
| Queries.TextLeTotal | store/attendanceStore.ts:196 | the order of `time` strings relates every two strings |
| Queries.TextLeTransitive | store/attendanceStore.ts:196 | the order of `time` strings is transitive |
| Queries.SortByTimeDescending | store/attendanceStore.ts:196 | `ORDER BY a.time DESC` gives a permutation of its input, latest time first |
| Queries.OnDate | store/attendanceStore.ts:195 | `WHERE a.date = ?` keeps exactly the rows of that date, each as often as it occurs |
| Queries.AttendanceOn | store/attendanceStore.ts:191-198 | the rows of a date carry that date and are latest time first |
| Queries.AttendanceOnIsComplete | store/attendanceStore.ts:191-198 | the rows of a date are exactly the joined rows of that date, with their multiplicities |
| Stats.CountsPartition | store/attendanceStore.ts:133-143 | males plus females is the roster size; present males plus present females is the number of present roster students; present never exceeds total in either group |
| Stats.StatsPartition | store/attendanceStore.ts:145-156 | totalMales + totalFemales is the roster size; presentX ≤ totalX; absentX = totalX − presentX ≥ 0; totalPresent + totalAbsent is the roster size |
| Stats.Tally | store/attendanceStore.ts:128-156 | the counting loop yields the stats record of the roster and the present ids |
| Stats.OrphanIdIgnored | hooks/useAttendanceDb.ts:127-138 | a present id that names no roster student changes no counter |
| Stats.DuplicateRowCountsOnce | hooks/useAttendanceDb.ts:119 | presence is set membership, so a second row for a present triple adds nothing |
| Stats.MarkMovesOneStudent | store/attendanceStore.ts:133-143 | marking one absent roster student present moves exactly one student of that gender from absent to present; the totals stay |
| SessionCounts.LabelFor | store/attendanceStore.ts:172-177 | the label map sends each of the four lowercase keys to a display bin |
| SessionCounts.ToLowerFolds | store/attendanceStore.ts:180 | lowercasing leaves no capital A-Z; it changes a string exactly when the string has a capital; lowercasing twice equals lowercasing once |
| SessionCounts.Bin | store/attendanceStore.ts:180-181 | a session lands in one of the four bins or in none |
| SessionCounts.BinIff | store/attendanceStore.ts:180-181 | a session lands in a bin exactly when its lowercase form is that bin's key or it is spelled as the bin's label |
| SessionCounts.SessionsOnIsFilter | store/attendanceStore.ts:161 | `WHERE date = ?` yields exactly one session per row of that date: as many sessions as the date has rows, and each session as often as the date has rows with that session |
| SessionCounts.GroupBySessionIsGroupBy | store/attendanceStore.ts:161 | one group per distinct session; each group counts that session's rows and is non-empty |
| SessionCounts.GroupsCountRows | store/attendanceStore.ts:179-182 | adding the group counts into a bin counts exactly the rows whose session lands in that bin |
| SessionCounts.BinsAtMostRows | store/attendanceStore.ts:179-182 | the four bins together count at most the date's rows |
| SessionCounts.BinGroups | store/attendanceStore.ts:165-182 | the loop yields exactly the four bin keys, each the sum of the group counts that land in it |
| Storage.Database.constructor | store/initializeTablesStore.ts:67-88 | a fresh file: both tables empty, both counters at 1 |
| Storage.Database.InsertStudent | hooks/useStudentsDb.ts:38-41 | the insert as `Seeding.InsertEntry`; it reports whether the code was new; UNIQUE(code) is kept and attendance is untouched |
| Storage.Database.SeedRoster | store/initializeTablesStore.ts:102-111 | the seed loop leaves the students table equal to `Seeding.SeedAll` of the table before it, keeps the constraints, and leaves attendance untouched |
| Storage.Database.InsertAttendance | store/attendanceStore.ts:84-88 | one `'present'` row appended with the next id; students untouched |
| Storage.Database.DeleteAllStudents | hooks/useStudentsDb.ts:96 | the students table is empty; the counter and attendance are untouched |
| Storage.Database.DeleteAllAttendance | store/attendanceStore.ts:206 | the attendance table is empty; the counter and students are untouched |
| Storage.FindByCode | hooks/useStudentsDb.ts:71-75 | the first row with exactly the code, present exactly when some row has that code |
| Storage.FindByCodeUnique | hooks/useStudentsDb.ts:71-75 | under UNIQUE(code) the lookup finds the one student with that code |
| Store.AttendanceStore.constructor | store/attendanceStore.ts:45-49 | the initial store: empty feed, no stats, no counts, not loading, no error |
| Store.AttendanceStore.MarkAttendance | store/attendanceStore.ts:51-103 | a failing query or insert writes nothing and records its message. A repeated triple is answered "Already marked for this session", writes nothing and records no error. Otherwise one `'present'` row is appended and the feed refreshed; if the refresh fails its error is recorded and the row stays. `loading` ends false on every path and the triple invariant is kept |
| Store.AttendanceStore.FetchRecentScans | store/attendanceStore.ts:105-114 | `recentScans` becomes at most ten joined rows, strictly newest first |
| Store.AttendanceStore.FetchTodayStats | store/attendanceStore.ts:116-157 | `todayStats` becomes the stats of the roster against the ids present for the session and date, with the partition identities |
| Store.AttendanceStore.FetchSessionCounts | store/attendanceStore.ts:159-185 | `sessionCounts` has exactly the four bin keys; each counts the date's rows whose session lands in that bin; each session occurs in the fetched list as often as the date has rows with it; together the bins count at most the date's rows |
| Store.AttendanceStore.FetchAttendanceByDate | store/attendanceStore.ts:188-203 | the feed becomes the joined rows of the date, latest time first; a failing query records its message and leaves the feed; `loading` ends false |
| Store.AttendanceStore.ResetAttendance | store/attendanceStore.ts:205-208 | the attendance table is empty and the feed, stats and counts are cleared; students untouched |
| Store.AttendanceStore.FetchAllAttendance | store/attendanceStore.ts:210-226 | every joined row without `student_id`, strictly newest first; `[]` when the query fails |
| AttendanceHook.AttendanceDb.MarkAttendance | hooks/useAttendanceDb.ts:47-81 | a repeated triple raises "Attendance already recorded for this student in this session today" and writes nothing; a failing query or insert raises its message and writes nothing; otherwise exactly one `'present'` row is appended; the triple invariant is kept |
| AttendanceHook.AttendanceDb.GetRecentScans | hooks/useAttendanceDb.ts:84-101 | at most ten joined rows, strictly newest first, none newer left out |
| AttendanceHook.AttendanceDb.GetTodayStats | hooks/useAttendanceDb.ts:104-155 | the stats of the roster against the present ids, with absent = total − present and present + absent = roster size |
| AttendanceHook.AttendanceDb.ResetAttendance | hooks/useAttendanceDb.ts:158-166 | the attendance table is empty; students untouched |
| Bootstrap.TablesInitializer.constructor | store/initializeTablesStore.ts:33-39 | every field at its initial value |
| Bootstrap.TablesInitializer.InitializeTables | store/initializeTablesStore.ts:41-146 | the guard makes a call while initialized or initializing a no-op. Otherwise a call finishes exactly when no step throws: every flag is raised, no error is kept, and students equal seed-if-empty of the table before. A throw clears every flag, records the message and keeps the open connection. Students are unchanged unless the failure came after the seed was committed |
| Bootstrap.TablesInitializer.SeedStudents | store/initializeTablesStore.ts:93-117 | the roster is seeded only into an empty table; a failed transaction rolls every seeded row back |
| Bootstrap.TablesInitializer.Fail | store/initializeTablesStore.ts:134-145 | the failure state: not initialized, not initializing, message recorded, every ready flag false |
| Bootstrap.TablesInitializer.ResetInitialization | store/initializeTablesStore.ts:148-159 | every field back to its initial value |
| Bootstrap.TablesInitializer.GetDatabase | store/initializeTablesStore.ts:161-168 | the connection only when initialized and connected, otherwise null |
| StudentsHook.StudentsDb.constructor | hooks/useStudentsDb.ts:12-13 | no connection and not ready |
| StudentsHook.StudentsDb.Setup | hooks/useStudentsDb.ts:16-49 | seeds only an empty table, with no transaction; `dbReady` is raised only when every step before it succeeded; a throw leaves the table as it was |
| StudentsHook.StudentsDb.GetStudents | hooks/useStudentsDb.ts:56-59 | `[]` before ready, otherwise the whole table, whose codes are unique |
| StudentsHook.StudentsDb.GetTotalStudents | hooks/useStudentsDb.ts:61-67 | 0 before ready, otherwise the table's size |
| StudentsHook.StudentsDb.FindStudentByCode | hooks/useStudentsDb.ts:69-76 | null before ready; otherwise present exactly when a student has that code, and then it is the one student with that code |
| StudentsHook.StudentsDb.CheckScannedStudent | hooks/useStudentsDb.ts:100-110 | the same answer as `findStudentByCode` |
| StudentsHook.StudentsDb.ResetStudents | hooks/useStudentsDb.ts:78-92 | when ready, the table is re-seeded from empty: exactly one student per distinct roster code; nothing happens before ready |
| StudentsHook.StudentsDb.ClearStudents | hooks/useStudentsDb.ts:94-98 | when ready, the students table is empty; nothing happens before ready |

## Left out

- Dates and times are parameters. The locale formatting of `toLocaleDateString("en-CA")` and `toLocaleTimeString("en-PH", …)` is not modelled.
- Calls are sequential. Two `markAttendance` calls racing between the pre-check and the insert, and `initializeTables` re-entered while it awaits, are not modelled.
- zustand's `create`/`set`/`get` and React's `useEffect`/`useState` are not modelled. Their state becomes class fields.
- The CREATE TABLE statements are not modelled. Both tables always exist, including the hook's own create-on-mount effect (hooks/useAttendanceDb.ts:30-44).
- Some failing statements are not modelled: those the code does not catch, or catches only to rethrow without changing state. These are the feed, stats and counts refreshes, the hook's reads, `resetAttendance`, and the students hook's helpers.
- The contents of `assets/students.json` are a parameter. Only UNIQUE(code) rejects a roster insert, because every entry has a name and a code.
- Console logging and `console.table` are not modelled.
- Unconstrained row order is modelled as table order. This covers `SELECT * FROM students`, the unordered attendance reads, and the groups of `GROUP BY`. SQLite leaves these orders unspecified.
- Store.AttendanceStore.FetchSessionCounts does not model JavaScript object-prototype keys. A stored session named like an `Object.prototype` member (such as `toString` or `constructor`) behaves differently in the source's plain-object lookups. The model treats it as an unmapped session.
- SessionCounts.ToLower lowers only A-Z. This is exact for matching the four ASCII keys, because no non-ASCII character lowers to a string made of those keys' letters.
- Gender.IsMale does not model `parseInt`'s floating-point result. Only the 1..13 test is used, and it is decided exactly by the integer value of the digits.
- Queries.RecentScans reads the join backwards instead of sorting it by id. This agrees with `ORDER BY a.id DESC` because ids grow in table order, an invariant of `Storage.Database.Valid`.
- Bootstrap.TablesInitializer.InitializeTables models a transaction failure only as a rollback of the whole seed. The intermediate `loading`/`isInitializing` values seen by concurrent readers are not modelled.
- StudentsHook.StudentsDb.Setup models a throw as ending the setup. The unhandled promise rejection it causes is not modelled.
- AttendanceHook.AttendanceDb.MarkAttendance returns the thrown errors as a `MarkResult` value instead of raising them.
