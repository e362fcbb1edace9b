/** Attendance counts per session for one date, as shown in four fixed display bins
  * (store/attendanceStore.ts:159-185): `SELECT session, COUNT(*) … WHERE date = ? GROUP BY session`,
  * then every group is folded into the bin its session names, through a lowercase label map. */
module SessionCounts {
  import opened Records

  const Morning: string := "Morning"
  const LunchDismissal: string := "Lunch Dismissal"
  const AfterLunch: string := "After Lunch"
  const Dismissal: string := "Dismissal"

  /** The four keys the result always has. */
  const Labels: set<string> := {Morning, LunchDismissal, AfterLunch, Dismissal}

  /** The label map: canonical storage form to display label. */
  function LabelFor(key: string): (r: Option<string>)
    ensures r.Some? ==> r.value in Labels
  {
    if key == "morning" then Some(Morning)
    else if key == "lunch_dismissal" then Some(LunchDismissal)
    else if key == "after_lunch" then Some(AfterLunch)
    else if key == "dismissal" then Some(Dismissal)
    else None
  }

  /** The storage form a display label is mapped from. */
  function StorageKey(bin: string): string
  {
    if bin == Morning then "morning"
    else if bin == LunchDismissal then "lunch_dismissal"
    else if bin == AfterLunch then "after_lunch"
    else "dismissal"
  }

  function LowerChar(c: char): char
  {
    if 'A' <= c <= 'Z' then (c as int + 32) as char else c
  }

  /** `toLowerCase()` on the letters A-Z. */
  function ToLower(s: string): (r: string)
    ensures |r| == |s| && forall i :: 0 <= i < |s| ==> r[i] == LowerChar(s[i])
  {
    seq(|s|, i requires 0 <= i < |s| => LowerChar(s[i]))
  }

  predicate HasCapital(s: string)
  {
    exists i :: 0 <= i < |s| && 'A' <= s[i] <= 'Z'
  }

  /** Lowercasing leaves no capital behind, changes a string exactly when it has a capital, and so
    * lowercasing twice is lowercasing once. */
  lemma ToLowerFolds(s: string)
    ensures !HasCapital(ToLower(s))
    ensures ToLower(s) == s <==> !HasCapital(s)
    ensures ToLower(ToLower(s)) == ToLower(s)
  {
    if HasCapital(s) {
      var i :| 0 <= i < |s| && 'A' <= s[i] <= 'Z';
      assert ToLower(s)[i] != s[i];
    }
  }

  /** `map[r.session.toLowerCase()] || r.session`. */
  function Normalize(session: string): string
  {
    match LabelFor(ToLower(session))
    case Some(bin) => bin
    case None => session
  }

  /** The bin a stored session is counted in (`counts[normalized] !== undefined`), if any. */
  function Bin(session: string): (r: Option<string>)
    ensures r.Some? ==> r.value in Labels
  {
    var n := Normalize(session);
    if n in Labels then Some(n) else None
  }

  /** A session lands in a bin exactly when its lowercase form is that bin's storage key or the
    * session is spelled as the bin's bin itself. */
  lemma BinIff(session: string, bin: string)
    requires bin in Labels
    ensures Bin(session) == Some(bin) <==> ToLower(session) == StorageKey(bin) || session == bin
  {
    var low := ToLower(session);
    if session == bin {
      if bin == Morning {
        assert low == "morning";
      }
    }
  }

  /** `WHERE date = ?`: the sessions of the rows stored for a date, one per row. */
  function SessionsOn(rows: seq<AttendanceRow>, date: string): (r: seq<string>)
    ensures |r| <= |rows|
  {
    if rows == [] then []
    else (if rows[0].date == date then [rows[0].session] else []) + SessionsOn(rows[1..], date)
  }

  /** The positions of the rows dated `date`. */
  function DatedRows(rows: seq<AttendanceRow>, date: string): set<int>
  {
    set i | 0 <= i < |rows| && rows[i].date == date
  }

  /** The positions of the rows dated `date` whose session is `x`. */
  function DatedRowsOf(rows: seq<AttendanceRow>, date: string, x: string): set<int>
  {
    set i | 0 <= i < |rows| && rows[i].date == date && rows[i].session == x
  }

  /** The positions from `k` on of the rows dated `date`, and of those whose session is `x`. */
  function DatedFrom(rows: seq<AttendanceRow>, date: string, k: nat): set<int>
  {
    set i | k <= i < |rows| && rows[i].date == date
  }

  function DatedFromOf(rows: seq<AttendanceRow>, date: string, x: string, k: nat): set<int>
  {
    set i | k <= i < |rows| && rows[i].date == date && rows[i].session == x
  }

  /** Peeling position `k` off the positions from `k` on. */
  lemma DatedFromStep(rows: seq<AttendanceRow>, date: string, k: nat)
    requires k < |rows|
    ensures rows[k].date == date ==> DatedFrom(rows, date, k) == {k} + DatedFrom(rows, date, k + 1)
    ensures rows[k].date != date ==> DatedFrom(rows, date, k) == DatedFrom(rows, date, k + 1)
    ensures k !in DatedFrom(rows, date, k + 1)
  {
  }

  lemma DatedFromOfStep(rows: seq<AttendanceRow>, date: string, x: string, k: nat)
    requires k < |rows|
    ensures rows[k].date == date && rows[k].session == x ==>
              DatedFromOf(rows, date, x, k) == {k} + DatedFromOf(rows, date, x, k + 1)
    ensures !(rows[k].date == date && rows[k].session == x) ==>
              DatedFromOf(rows, date, x, k) == DatedFromOf(rows, date, x, k + 1)
    ensures k !in DatedFromOf(rows, date, x, k + 1)
  {
  }

  lemma {:induction false} SessionsFrom(rows: seq<AttendanceRow>, date: string, x: string, k: nat)
    requires k <= |rows|
    ensures |SessionsOn(rows[k..], date)| == |DatedFrom(rows, date, k)|
    ensures Occurrences(SessionsOn(rows[k..], date), x) == |DatedFromOf(rows, date, x, k)|
    decreases |rows| - k
  {
    if k < |rows| {
      SessionsFrom(rows, date, x, k + 1);
      DatedFromStep(rows, date, k);
      DatedFromOfStep(rows, date, x, k);
      var rest := SessionsOn(rows[k + 1..], date);
      assert rows[k..][1..] == rows[k + 1..];
      if rows[k].date == date {
        assert SessionsOn(rows[k..], date) == [rows[k].session] + rest;
        assert ([rows[k].session] + rest)[1..] == rest;
      } else {
        assert SessionsOn(rows[k..], date) == rest;
      }
    } else {
      assert DatedFrom(rows, date, k) == {};
      assert DatedFromOf(rows, date, x, k) == {};
    }
  }

  /** `WHERE date = ?` keeps one session per row of that date: as many sessions as the date has rows,
    * and each session as often as the date has rows of that session. */
  lemma {:induction false} SessionsOnIsFilter(rows: seq<AttendanceRow>, date: string, x: string)
    ensures |SessionsOn(rows, date)| == |DatedRows(rows, date)|
    ensures Occurrences(SessionsOn(rows, date), x) == |DatedRowsOf(rows, date, x)|
  {
    SessionsFrom(rows, date, x, 0);
    assert rows[0..] == rows;
    assert DatedFrom(rows, date, 0) == DatedRows(rows, date);
    assert DatedFromOf(rows, date, x, 0) == DatedRowsOf(rows, date, x);
  }

  /** How many times `x` occurs. */
  function Occurrences(ss: seq<string>, x: string): nat
  {
    if ss == [] then 0 else (if ss[0] == x then 1 else 0) + Occurrences(ss[1..], x)
  }

  /** `ss` with every `x` removed. */
  function Without(ss: seq<string>, x: string): (r: seq<string>)
    ensures |r| <= |ss|
  {
    if ss == [] then [] else (if ss[0] == x then [] else [ss[0]]) + Without(ss[1..], x)
  }

  /** One row of the `GROUP BY session` result. */
  datatype Group = Group(session: string, count: nat)

  /** `GROUP BY session` with `COUNT(*)`, groups in order of first appearance. */
  function GroupBySession(ss: seq<string>): seq<Group>
    decreases |ss|
  {
    if ss == [] then []
    else [Group(ss[0], Occurrences(ss, ss[0]))] + GroupBySession(Without(ss[1..], ss[0]))
  }

  lemma {:induction false} OccurrencesWithout(ss: seq<string>, x: string, y: string)
    ensures Occurrences(Without(ss, x), y) == if x == y then 0 else Occurrences(ss, y)
  {
    if ss != [] {
      var rest := Without(ss[1..], x);
      OccurrencesWithout(ss[1..], x, y);
      if ss[0] == x {
        assert Without(ss, x) == rest;
      } else {
        assert Without(ss, x) == [ss[0]] + rest;
        assert ([ss[0]] + rest)[1..] == rest;
      }
    }
  }

  /** `g` is what `GROUP BY session` with `COUNT(*)` yields for `ss`: one group per distinct
    * session, each counting that session's rows. */
  predicate IsGroupingOf(g: seq<Group>, ss: seq<string>)
  {
    && (forall k :: 0 <= k < |g| ==> g[k].count == Occurrences(ss, g[k].session) && g[k].count >= 1)
    && (forall i, j :: 0 <= i < j < |g| ==> g[i].session != g[j].session)
    && (forall x :: x in ss ==> exists k :: 0 <= k < |g| && g[k].session == x)
  }

  lemma {:induction false} GroupBySessionIsGroupBy(ss: seq<string>)
    ensures IsGroupingOf(GroupBySession(ss), ss)
    decreases |ss|
  {
    if ss != [] {
      var s0 := ss[0];
      var w := Without(ss[1..], s0);
      var g := GroupBySession(ss);
      var tail := GroupBySession(w);
      GroupBySessionIsGroupBy(w);
      assert g == [Group(s0, Occurrences(ss, s0))] + tail;
      forall k | 0 <= k < |tail|
        ensures tail[k].count == Occurrences(ss, tail[k].session) && tail[k].session != s0
      {
        OccurrencesWithout(ss[1..], s0, tail[k].session);
      }
      OccurrencesPositive(ss, s0);
      forall x | x in ss ensures exists k :: 0 <= k < |g| && g[k].session == x {
        if x != s0 {
          assert x in ss[1..];
          OccurrencesWithout(ss[1..], s0, x);
          OccurrencesPositive(ss[1..], x);
          OccurrencesPositive(w, x);
          var k :| 0 <= k < |tail| && tail[k].session == x;
          assert g[k + 1].session == x;
        } else {
          assert g[0].session == x;
        }
      }
    }
  }

  lemma {:induction false} OccurrencesPositive(ss: seq<string>, x: string)
    ensures x in ss <==> Occurrences(ss, x) >= 1
  {
    if ss != [] {
      OccurrencesPositive(ss[1..], x);
      assert ss == [ss[0]] + ss[1..];
    }
  }

  /** Rows whose session lands in bin `bin`. */
  function RowsInBin(ss: seq<string>, bin: string): nat
  {
    if ss == [] then 0 else (if Bin(ss[0]) == Some(bin) then 1 else 0) + RowsInBin(ss[1..], bin)
  }

  /** Group counts added into bin `bin`. */
  function GroupsInBin(groups: seq<Group>, bin: string): nat
  {
    if groups == [] then 0
    else (if Bin(groups[0].session) == Some(bin) then groups[0].count else 0) + GroupsInBin(groups[1..], bin)
  }

  lemma {:induction false} GroupsInBinSnoc(groups: seq<Group>, i: int, bin: string)
    requires 0 <= i < |groups|
    ensures GroupsInBin(groups[..i + 1], bin)
         == GroupsInBin(groups[..i], bin) + (if Bin(groups[i].session) == Some(bin) then groups[i].count else 0)
  {
    if i > 0 {
      assert groups[..i + 1][1..] == groups[1..][..i];
      assert groups[..i][1..] == groups[1..][..i - 1];
      GroupsInBinSnoc(groups[1..], i - 1, bin);
    }
  }

  lemma {:induction false} RowsInBinWithout(ss: seq<string>, x: string, bin: string)
    ensures RowsInBin(ss, bin)
         == (if Bin(x) == Some(bin) then Occurrences(ss, x) else 0) + RowsInBin(Without(ss, x), bin)
  {
    if ss != [] {
      var rest := Without(ss[1..], x);
      RowsInBinWithout(ss[1..], x, bin);
      if ss[0] == x {
        assert Without(ss, x) == rest;
      } else {
        assert Without(ss, x) == [ss[0]] + rest;
        assert ([ss[0]] + rest)[1..] == rest;
      }
    }
  }

  /** Adding the groups into a bin counts exactly the rows whose session lands in that bin. */
  lemma {:induction false} GroupsCountRows(ss: seq<string>, bin: string)
    ensures GroupsInBin(GroupBySession(ss), bin) == RowsInBin(ss, bin)
    decreases |ss|
  {
    if ss != [] {
      var s0 := ss[0];
      GroupsCountRows(Without(ss[1..], s0), bin);
      RowsInBinWithout(ss, s0, bin);
      assert Without(ss, s0) == Without(ss[1..], s0);
    }
  }

  /** The four bins together never count more rows than the date has: a row lands in one bin at
    * most, and rows of other sessions are dropped. */
  lemma {:induction false} BinsAtMostRows(ss: seq<string>)
    ensures RowsInBin(ss, Morning) + RowsInBin(ss, LunchDismissal) + RowsInBin(ss, AfterLunch)
            + RowsInBin(ss, Dismissal) <= |ss|
  {
    if ss != [] {
      BinsAtMostRows(ss[1..]);
    }
  }

  /** The counts record the store keeps for a date. */
  function CountsOf(ss: seq<string>): map<string, int>
  {
    map[Morning := RowsInBin(ss, Morning), LunchDismissal := RowsInBin(ss, LunchDismissal),
        AfterLunch := RowsInBin(ss, AfterLunch), Dismissal := RowsInBin(ss, Dismissal)]
  }

  /** The `forEach` over the groups: start every bin at 0, add each group's count to its bin. */
  method BinGroups(groups: seq<Group>) returns (counts: map<string, int>)
    ensures counts.Keys == Labels
    ensures forall bin :: bin in Labels ==> counts[bin] == GroupsInBin(groups, bin)
  {
    counts := map[Morning := 0, LunchDismissal := 0, AfterLunch := 0, Dismissal := 0];
    var i := 0;
    while i < |groups|
      invariant 0 <= i <= |groups|
      invariant counts.Keys == Labels
      invariant forall bin :: bin in Labels ==> counts[bin] == GroupsInBin(groups[..i], bin)
    {
      var g := groups[i];
      var normalized := Normalize(g.session);
      forall bin | bin in Labels
        ensures GroupsInBin(groups[..i + 1], bin)
             == GroupsInBin(groups[..i], bin) + (if Bin(g.session) == Some(bin) then g.count else 0)
      {
        GroupsInBinSnoc(groups, i, bin);
      }
      if normalized in counts {
        counts := counts[normalized := counts[normalized] + g.count];
      }
      i := i + 1;
    }
    assert groups[..i] == groups;
  }
}
