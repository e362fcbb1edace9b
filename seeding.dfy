/** Seeding the `students` table from the roster: one `INSERT INTO students (name, code)` per
  * roster entry, where an insert rejected by UNIQUE(code) is skipped and the loop goes on
  * (store/initializeTablesStore.ts:102-111, hooks/useStudentsDb.ts:36-45 and 82-91). */
module Seeding {
  import opened Records

  /** The `students` table together with its AUTOINCREMENT counter. */
  datatype StudentTable = StudentTable(rows: seq<Student>, nextId: int)

  /** The constraints the table keeps: UNIQUE(code) and fresh, growing ids. */
  predicate TableValid(t: StudentTable)
  {
    CodesUnique(t.rows) && StudentIdsBelow(t.rows, t.nextId)
  }

  /** One insert: skipped when the code is taken, otherwise a new row with the next id. */
  function InsertEntry(t: StudentTable, e: Entry): (r: StudentTable)
    ensures t.rows <= r.rows && |r.rows| <= |t.rows| + 1
    ensures HasCode(r.rows, e.code)
    ensures |r.rows| == |t.rows| + 1 <==> !HasCode(t.rows, e.code)
    ensures |r.rows| == |t.rows| + 1 ==> r.rows[|t.rows|] == Student(t.nextId, e.name, e.code)
    ensures TableValid(t) ==> TableValid(r)
    ensures Codes(r.rows) == Codes(t.rows) + {e.code}
  {
    if HasCode(t.rows, e.code) then
      HasCodeInCodes(t.rows, e.code);
      t
    else
      var rows := t.rows + [Student(t.nextId, e.name, e.code)];
      assert rows[|t.rows|].code == e.code;
      CodesSnoc(t.rows, Student(t.nextId, e.name, e.code));
      StudentTable(rows, t.nextId + 1)
  }

  lemma HasCodeInCodes(rows: seq<Student>, code: string)
    ensures HasCode(rows, code) <==> code in Codes(rows)
  {
    if code in Codes(rows) {
      var i :| 0 <= i < |rows| && rows[i].code == code;
    }
  }

  lemma CodesSnoc(rows: seq<Student>, s: Student)
    ensures Codes(rows + [s]) == Codes(rows) + {s.code}
  {
    var r := rows + [s];
    assert forall i :: 0 <= i < |rows| ==> r[i] == rows[i];
    assert r[|rows|] == s;
  }

  lemma RosterCodesSnoc(roster: seq<Entry>)
    requires roster != []
    ensures RosterCodes(roster) == RosterCodes(roster[..|roster| - 1]) + {roster[|roster| - 1].code}
  {
    var last := |roster| - 1;
    assert forall i :: 0 <= i < last ==> roster[..last][i] == roster[i];
  }

  /** The seed loop: every roster entry inserted in order. */
  function SeedAll(t: StudentTable, roster: seq<Entry>): (r: StudentTable)
    ensures t.rows <= r.rows
    ensures TableValid(t) ==> TableValid(r)
    ensures Codes(r.rows) == Codes(t.rows) + RosterCodes(roster)
    decreases |roster|
  {
    if roster == [] then t
    else
      var last := |roster| - 1;
      var before := SeedAll(t, roster[..last]);
      RosterCodesSnoc(roster);
      InsertEntry(before, roster[last])
  }

  /** The seed loop one entry further on. */
  lemma SeedAllStep(t: StudentTable, roster: seq<Entry>, i: int)
    requires 0 <= i < |roster|
    ensures SeedAll(t, roster[..i + 1]) == InsertEntry(SeedAll(t, roster[..i]), roster[i])
  {
    assert roster[..i + 1][..i] == roster[..i];
  }

  /** `if (row?.count === 0)`: the roster is seeded only into an empty table. */
  function SeedIfEmpty(t: StudentTable, roster: seq<Entry>): StudentTable
  {
    if |t.rows| == 0 then SeedAll(t, roster) else t
  }

  /** Entry `j` is the first of the roster with its code. */
  predicate FirstWithCode(roster: seq<Entry>, j: int)
  {
    0 <= j < |roster| && forall i :: 0 <= i < j ==> roster[i].code != roster[j].code
  }

  /** A seeded table holds the first roster entry with each code: a row added by seeding carries the
    * name and code of a roster entry that no earlier roster entry shares its code with. */
  lemma {:induction false} SeedRowsComeFirstFromRoster(t: StudentTable, roster: seq<Entry>, k: int)
    requires |t.rows| <= k < |SeedAll(t, roster).rows|
    ensures var row := SeedAll(t, roster).rows[k];
            exists j :: FirstWithCode(roster, j) && roster[j] == Entry(row.name, row.code)
  {
    assert roster != [];
    var last := |roster| - 1;
    var prefix := roster[..last];
    var before := SeedAll(t, prefix);
    var r := SeedAll(t, roster);
    assert r == InsertEntry(before, roster[last]);
    if k < |before.rows| {
      SeedRowsComeFirstFromRoster(t, prefix, k);
      var j :| FirstWithCode(prefix, j) && prefix[j] == Entry(before.rows[k].name, before.rows[k].code);
      assert r.rows[k] == before.rows[k];
      assert FirstWithCode(roster, j) by {
        forall i | 0 <= i < j ensures roster[i].code != roster[j].code {
          assert roster[i] == prefix[i] && roster[j] == prefix[j];
        }
      }
    } else {
      LastEntryIsFirst(t, roster);
      assert FirstWithCode(roster, last);
    }
  }

  /** When seeding adds a row for the last roster entry, no earlier entry had that code. */
  lemma LastEntryIsFirst(t: StudentTable, roster: seq<Entry>)
    requires roster != []
    requires |SeedAll(t, roster).rows| > |SeedAll(t, roster[..|roster| - 1]).rows|
    ensures FirstWithCode(roster, |roster| - 1)
  {
    var last := |roster| - 1;
    var prefix := roster[..last];
    var before := SeedAll(t, prefix);
    assert !HasCode(before.rows, roster[last].code);
    HasCodeInCodes(before.rows, roster[last].code);
    forall i | 0 <= i < last
      ensures roster[i].code != roster[last].code
    {
      assert roster[i] == prefix[i];
      assert prefix[i].code in RosterCodes(prefix);
    }
  }

  /** A table whose codes are distinct has as many rows as codes. */
  lemma {:induction false} DistinctCodesCount(rows: seq<Student>)
    requires CodesUnique(rows)
    ensures |Codes(rows)| == |rows|
  {
    if rows != [] {
      var last := |rows| - 1;
      DistinctCodesCount(rows[..last]);
      assert Codes(rows) == Codes(rows[..last]) + {rows[last].code} by {
        assert forall i :: 0 <= i < last ==> rows[..last][i] == rows[i];
      }
      assert rows[last].code !in Codes(rows[..last]);
    }
  }

  /** Seeding an empty table leaves exactly one student per distinct roster code. */
  lemma SeedFromEmpty(next: int, roster: seq<Entry>)
    ensures CodesUnique(SeedAll(StudentTable([], next), roster).rows)
    ensures Codes(SeedAll(StudentTable([], next), roster).rows) == RosterCodes(roster)
    ensures |SeedAll(StudentTable([], next), roster).rows| == |RosterCodes(roster)|
  {
    var r := SeedAll(StudentTable([], next), roster);
    assert TableValid(StudentTable([], next));
    assert Codes([]) == {};
    DistinctCodesCount(r.rows);
  }

  /** Seeding is idempotent: a second pass over a table that has been seeded changes nothing, so
    * the row count after any number of bootstraps equals the row count after one. */
  lemma SeedIfEmptyIdempotent(t: StudentTable, roster: seq<Entry>)
    ensures SeedIfEmpty(SeedIfEmpty(t, roster), roster) == SeedIfEmpty(t, roster)
  {
    var once := SeedIfEmpty(t, roster);
    if |t.rows| == 0 && |once.rows| == 0 {
      assert Codes(once.rows) == {};
    }
  }
}
