/**
 * The points ledger and the leaderboards built from it: the entries of a
 * time window are summed per user (keeping the last non-empty name), the
 * totals are sorted by points, highest first, with a stable sort, and cut
 * to a limit; a user's place is their 1-based position in the yearly top
 * 200.
 */
module Leaderboard {

  import opened Base
  import opened EventDate

  /** A ledger document. `userId` is the id as `String(userId || "")`
      reads it, so a missing id is the empty string; `ts` is the instant
      in milliseconds. A sequence of entries stands for the documents in
      the order the range query on `ts` returns them: ascending `ts`, ties
      by document id. The model takes that order as given (see `ByTs`). */
  datatype Entry = Entry(userId: string, name: string, points: int, ts: int)

  /** One leaderboard row. */
  datatype Row = Row(userId: string, name: string, points: int)

  /** The name shown for a user who never gave one. */
  const NoName: string := "Без имени"

  // ---------------------------------------------------------------------
  // Windows
  // ---------------------------------------------------------------------

  /** The ledger query `ts >= start && ts < end`, keeping the order of the
      sequence it is given. */
  function InWindow(es: seq<Entry>, start: int, end: int): (r: seq<Entry>)
    ensures |r| <= |es|
    ensures forall i :: 0 <= i < |r| ==> start <= r[i].ts < end
    ensures forall e :: e in es && start <= e.ts < end ==> e in r
    ensures forall e :: e in r ==> e in es
  {
    if |es| == 0 then []
    else
      var rest := InWindow(es[..|es| - 1], start, end);
      var e := es[|es| - 1];
      assert forall x :: x in es ==> x in es[..|es| - 1] || x == e;
      if start <= e.ts < end then rest + [e] else rest
  }

  /** The window keeps the order and multiplicity of its input: the
      entries of a concatenation in the window are those of each part, in
      turn. */
  lemma {:induction false} InWindowAppend(a: seq<Entry>, b: seq<Entry>, start: int, end: int)
    ensures InWindow(a + b, start, end) == InWindow(a, start, end) + InWindow(b, start, end)
    decreases |b|
  {
    if b == [] {
      assert a + b == a;
    } else {
      var b0, x := b[..|b| - 1], b[|b| - 1];
      var k := if start <= x.ts < end then [x] else [];
      InWindowAppend(a, b0, start, end);
      InWindowSnoc(a + b0, x, start, end);
      InWindowSnoc(b0, x, start, end);
      LastSplit(a, b);
      calc {
        InWindow(a + b, start, end);
        InWindow(a + b0, start, end) + k;
        (InWindow(a, start, end) + InWindow(b0, start, end)) + k;
        InWindow(a, start, end) + (InWindow(b0, start, end) + k);
        InWindow(a, start, end) + InWindow(b, start, end);
      }
    }
  }

  lemma LastSplit<T>(a: seq<T>, b: seq<T>)
    requires b != []
    ensures b == b[..|b| - 1] + [b[|b| - 1]]
    ensures a + b == (a + b[..|b| - 1]) + [b[|b| - 1]]
  {
  }

  /** One more entry at the end is kept exactly when its instant is in the
      window. */
  lemma InWindowSnoc(a: seq<Entry>, x: Entry, start: int, end: int)
    ensures InWindow(a + [x], start, end) == InWindow(a, start, end) + (if start <= x.ts < end then [x] else [])
  {
    var c := a + [x];
    assert c[..|c| - 1] == a;
    assert c[|c| - 1] == x;
  }

  /** Entries in ascending `ts` order, the order the range query reads
      them in. */
  predicate ByTs(es: seq<Entry>) {
    forall i, j :: 0 <= i < j < |es| ==> es[i].ts <= es[j].ts
  }

  /** Filtering a `ts`-ordered sequence to a window leaves it in `ts`
      order, so reading the window in sequence order is reading it in the
      query's order. */
  lemma {:induction false} InWindowByTs(es: seq<Entry>, start: int, end: int)
    requires ByTs(es)
    ensures ByTs(InWindow(es, start, end))
    decreases |es|
  {
    if |es| > 0 {
      var n := |es| - 1;
      var front, e := es[..n], es[n];
      assert ByTs(front);
      InWindowByTs(front, start, end);
      var rest := InWindow(front, start, end);
      assert forall x :: x in rest ==> x.ts <= e.ts by {
        forall x | x in rest
          ensures x.ts <= e.ts
        {
          var k :| 0 <= k < n && front[k] == x;
        }
      }
      if start <= e.ts < end {
        var r := rest + [e];
        forall i, j | 0 <= i < j < |r|
          ensures r[i].ts <= r[j].ts
        {
          if j == |rest| {
            assert r[i] in rest;
          }
        }
      }
    }
  }

  const DayMs: int := 86400000

  /** Local midnight of `new Date(year, month - 1, 1)` in milliseconds. */
  function MonthStart(year: nat, month: nat): int
    requires year > 0 && month > 0
  {
    JsDayNumber(Ymd(year, month, 1)) * DayMs
  }

  /** The window `computeTopMonth_` queries: from the first of the month to
      the first of the next one (month 13 rolls over to January). */
  function MonthWindow(year: nat, month: nat): (w: (int, int))
    requires year > 0 && 1 <= month <= 12
  {
    (MonthStart(year, month), MonthStart(year, month + 1))
  }

  /** The window `computeTopYear_` queries. */
  function YearWindow(year: nat): (w: (int, int))
    requires year > 0
  {
    (MonthStart(year, 1), MonthStart(year + 1, 1))
  }

  /** For the years 100 to 9998, the twelve month windows tile the year
      window: January starts the year, each month ends where the next
      begins, and December ends where the year does. Years 1 to 99 do not
      tile: the constructor reads them as 19xx but reads `year + 1 = 100`
      as year 100. */
  lemma MonthsTileYear(year: nat, month: nat)
    requires 100 <= year <= 9998 && 1 <= month <= 12
    ensures month == 1 ==> MonthWindow(year, month).0 == YearWindow(year).0
    ensures month < 12 ==> MonthWindow(year, month).1 == MonthWindow(year, month + 1).0
    ensures month == 12 ==> MonthWindow(year, month).1 == YearWindow(year).1
    ensures MonthWindow(year, month).0 < MonthWindow(year, month).1
  {
    var a := Ymd(year, month, 1);
    assert ValidDate(a);
    if month < 12 {
      var b := Ymd(year, month + 1, 1);
      assert ValidDate(b) && YmdLess(a, b);
      DayNumberLess(a, b);
    } else {
      var b := Ymd(year + 1, 1, 1);
      assert 12 / 12 == 1 && 12 % 12 == 0;
      assert DaysBeforeMonth(year + 1, 0) == 0;
      assert JsDayNumber(Ymd(year, 13, 1)) == JsDayNumber(b);
      assert ValidDate(b) && YmdLess(a, b);
      DayNumberLess(a, b);
    }
  }

  /** The 1900 reading makes December 99 end in January 2000, not at the
      start of year 100. */
  lemma YearNinetyNineDoesNotTile()
    ensures MonthWindow(99, 12).1 != YearWindow(99).1
  {
    assert JsDayNumber(Ymd(99, 13, 1)) == DaysBeforeYear(2000);
    assert JsDayNumber(Ymd(100, 1, 1)) == DaysBeforeYear(100);
  }

  // ---------------------------------------------------------------------
  // Reference definitions over the window's entries
  // ---------------------------------------------------------------------

  /** The sum of a user's points. */
  function SumFor(es: seq<Entry>, uid: string): int {
    if |es| == 0 then 0
    else SumFor(es[..|es| - 1], uid) + (if es[|es| - 1].userId == uid then es[|es| - 1].points else 0)
  }

  /** The last non-empty name a user's entries carry, or "". */
  function LastName(es: seq<Entry>, uid: string): string {
    if |es| == 0 then ""
    else if es[|es| - 1].userId == uid && es[|es| - 1].name != "" then es[|es| - 1].name
    else LastName(es[..|es| - 1], uid)
  }

  predicate Mentions(es: seq<Entry>, uid: string) {
    exists i :: 0 <= i < |es| && es[i].userId == uid
  }

  /** The name a leaderboard shows for a user. */
  function ShownName(es: seq<Entry>, uid: string): string {
    var n := LastName(es, uid);
    if n != "" then n else NoName
  }

  // ---------------------------------------------------------------------
  // Aggregation
  // ---------------------------------------------------------------------

  /** The first row of `uid`, if any. */
  function FindRow(rows: seq<Row>, uid: string): (r: Option<nat>)
    ensures r.Some? ==> r.value < |rows| && rows[r.value].userId == uid
    ensures r.Some? ==> forall j :: 0 <= j < r.value ==> rows[j].userId != uid
    ensures r.None? ==> forall j :: 0 <= j < |rows| ==> rows[j].userId != uid
  {
    if |rows| == 0 then None
    else if rows[0].userId == uid then Some(0)
    else match FindRow(rows[1..], uid)
      case None => None
      case Some(i) => Some(i + 1)
  }

  /** One step of the `forEach`: an entry without a user is skipped; a new
      user is appended (the map keeps insertion order); a known user's
      total grows and a non-empty name replaces the old one. */
  function Accumulate(rows: seq<Row>, e: Entry): (r: seq<Row>)
    ensures |rows| <= |r| <= |rows| + 1
  {
    if e.userId == "" then rows
    else match FindRow(rows, e.userId)
      case None => rows + [Row(e.userId, if e.name != "" then e.name else NoName, e.points)]
      case Some(i) =>
        rows[i := Row(e.userId, if e.name != "" then e.name else rows[i].name, rows[i].points + e.points)]
  }

  /** The per-user totals, in order of each user's first entry. */
  function Aggregate(es: seq<Entry>): seq<Row> {
    if |es| == 0 then [] else Accumulate(Aggregate(es[..|es| - 1]), es[|es| - 1])
  }

  predicate DistinctUsers(rows: seq<Row>) {
    forall i, j :: 0 <= i < j < |rows| ==> rows[i].userId != rows[j].userId
  }

  /** The rows are exactly the users the entries mention, each once, never
      the empty id. */
  lemma {:induction false} AggregateUsers(es: seq<Entry>)
    ensures DistinctUsers(Aggregate(es))
    ensures forall i :: 0 <= i < |Aggregate(es)| ==> Aggregate(es)[i].userId != ""
    ensures forall uid :: uid != "" ==>
              (Mentions(es, uid) <==> FindRow(Aggregate(es), uid).Some?)
  {
    if |es| > 0 {
      var p := es[..|es| - 1];
      var e := es[|es| - 1];
      AggregateUsers(p);
      forall uid | uid != ""
        ensures Mentions(es, uid) <==> FindRow(Aggregate(es), uid).Some?
      {
        if Mentions(p, uid) {
          var i :| 0 <= i < |p| && p[i].userId == uid;
          assert es[i].userId == uid;
        }
        if Mentions(es, uid) && !Mentions(p, uid) {
          assert e.userId == uid;
        }
        AccumulateFinds(Aggregate(p), e, uid);
      }
    }
  }

  /** Which users `Accumulate` adds. */
  lemma AccumulateFinds(rows: seq<Row>, e: Entry, uid: string)
    ensures FindRow(Accumulate(rows, e), uid).Some? <==>
            FindRow(rows, uid).Some? || (uid == e.userId && e.userId != "")
    ensures DistinctUsers(rows) ==> DistinctUsers(Accumulate(rows, e))
    ensures (forall i :: 0 <= i < |rows| ==> rows[i].userId != "") ==>
            forall i :: 0 <= i < |Accumulate(rows, e)| ==> Accumulate(rows, e)[i].userId != ""
  {
    var r := Accumulate(rows, e);
    if e.userId != "" {
      match FindRow(rows, e.userId)
      case None =>
        assert r == rows + [Row(e.userId, if e.name != "" then e.name else NoName, e.points)];
        if FindRow(rows, uid).Some? {
          assert r[FindRow(rows, uid).value].userId == uid;
        } else if uid == e.userId {
          assert r[|rows|].userId == uid;
        } else {
          assert forall j :: 0 <= j < |r| ==> r[j].userId != uid;
        }
      case Some(k) =>
        assert forall j :: 0 <= j < |r| ==> r[j].userId == rows[j].userId;
        if FindRow(rows, uid).Some? {
          assert r[FindRow(rows, uid).value].userId == uid;
        } else {
          assert forall j :: 0 <= j < |r| ==> r[j].userId != uid;
        }
    }
  }

  /** Each row holds the user's total and the name the leaderboard
      shows. */
  lemma {:induction false} AggregateTotals(es: seq<Entry>, uid: string)
    requires FindRow(Aggregate(es), uid).Some?
    ensures Aggregate(es)[FindRow(Aggregate(es), uid).value] == Row(uid, ShownName(es, uid), SumFor(es, uid))
  {
    var p := es[..|es| - 1];
    var e := es[|es| - 1];
    var rows := Aggregate(p);
    AggregateUsers(es);
    AggregateUsers(p);
    assert uid != "";
    if FindRow(rows, uid).Some? {
      AggregateTotals(p, uid);
    } else {
      Unmentioned(p, uid);
    }
    AccumulateRow(rows, e, uid, ShownName(p, uid), SumFor(p, uid));
  }

  /** A user without entries has no name and no points. */
  lemma {:induction false} Unmentioned(es: seq<Entry>, uid: string)
    requires !Mentions(es, uid)
    ensures LastName(es, uid) == "" && SumFor(es, uid) == 0
  {
    if |es| > 0 {
      var p := es[..|es| - 1];
      assert !Mentions(p, uid) by {
        forall i | 0 <= i < |p|
          ensures p[i].userId != uid
        {
          assert p[i] == es[i];
        }
      }
      Unmentioned(p, uid);
    }
  }

  /** How one step changes the row of `uid`, whether or not it is new. */
  lemma AccumulateRow(rows: seq<Row>, e: Entry, uid: string, name: string, sum: int)
    requires DistinctUsers(rows) && uid != ""
    requires FindRow(rows, uid).Some? ==> rows[FindRow(rows, uid).value] == Row(uid, name, sum)
    requires FindRow(rows, uid).None? ==> name == NoName && sum == 0
    requires FindRow(Accumulate(rows, e), uid).Some?
    ensures var r := Accumulate(rows, e);
            var k := FindRow(r, uid).value;
            r[k] == Row(uid,
                        if e.userId == uid && e.name != "" then e.name else name,
                        sum + if e.userId == uid then e.points else 0)
  {
    if e.userId != "" {
      if FindRow(rows, e.userId).None? {
        AccumulateRowNew(rows, e, uid, name, sum);
      } else {
        AccumulateRowKnown(rows, e, uid, name, sum);
      }
    }
  }

  lemma AccumulateRowNew(rows: seq<Row>, e: Entry, uid: string, name: string, sum: int)
    requires e.userId != "" && FindRow(rows, e.userId).None?
    requires FindRow(rows, uid).Some? ==> rows[FindRow(rows, uid).value] == Row(uid, name, sum)
    requires FindRow(rows, uid).None? ==> name == NoName && sum == 0
    requires FindRow(Accumulate(rows, e), uid).Some?
    ensures var r := Accumulate(rows, e);
            var k := FindRow(r, uid).value;
            r[k] == Row(uid,
                        if e.userId == uid && e.name != "" then e.name else name,
                        sum + if e.userId == uid then e.points else 0)
  {
    var r := Accumulate(rows, e);
    assert r == rows + [Row(e.userId, if e.name != "" then e.name else NoName, e.points)];
    if FindRow(rows, uid).Some? {
      var k := FindRow(rows, uid).value;
      assert r[k] == rows[k];
      FindRowAt(r, k, uid);
    } else {
      FindRowAt(r, |rows|, uid);
    }
  }

  lemma AccumulateRowKnown(rows: seq<Row>, e: Entry, uid: string, name: string, sum: int)
    requires DistinctUsers(rows) && e.userId != "" && FindRow(rows, e.userId).Some?
    requires FindRow(rows, uid).Some? ==> rows[FindRow(rows, uid).value] == Row(uid, name, sum)
    requires FindRow(Accumulate(rows, e), uid).Some?
    ensures var r := Accumulate(rows, e);
            var k := FindRow(r, uid).value;
            r[k] == Row(uid,
                        if e.userId == uid && e.name != "" then e.name else name,
                        sum + if e.userId == uid then e.points else 0)
  {
    var r := Accumulate(rows, e);
    var m := FindRow(rows, e.userId).value;
    assert r == rows[m := Row(e.userId, if e.name != "" then e.name else rows[m].name, rows[m].points + e.points)];
    FindRowSameIds(rows, r, uid);
    var k := FindRow(rows, uid).value;
    if uid == e.userId {
      assert k == m;
    } else {
      assert r[k] == rows[k];
    }
  }

  /** The first position holding `uid` is what `FindRow` finds. */
  lemma {:induction false} FindRowAt(rows: seq<Row>, k: nat, uid: string)
    requires k < |rows| && rows[k].userId == uid
    requires forall j :: 0 <= j < k ==> rows[j].userId != uid
    ensures FindRow(rows, uid) == Some(k)
  {
    if k > 0 {
      assert rows[0].userId != uid;
      FindRowAt(rows[1..], k - 1, uid);
    }
  }

  /** `FindRow` only looks at the ids. */
  lemma FindRowSameIds(rows: seq<Row>, r: seq<Row>, uid: string)
    requires |r| == |rows| && forall j :: 0 <= j < |r| ==> r[j].userId == rows[j].userId
    ensures FindRow(r, uid) == FindRow(rows, uid)
  {
    match FindRow(rows, uid)
    case None =>
    case Some(k) => FindRowAt(r, k, uid);
  }

  // ---------------------------------------------------------------------
  // Stable descending sort
  // ---------------------------------------------------------------------

  predicate SortedDesc(s: seq<Row>) {
    forall i, j :: 0 <= i < j < |s| ==> s[i].points >= s[j].points
  }

  /** Inserts `x` after every row with at least as many points. */
  function InsertDesc(s: seq<Row>, x: Row): (r: seq<Row>)
    ensures |r| == |s| + 1
  {
    if |s| == 0 || s[|s| - 1].points >= x.points then s + [x]
    else InsertDesc(s[..|s| - 1], x) + [s[|s| - 1]]
  }

  /** `arr.sort((a, b) => b.points - a.points)`; the sort is stable. */
  function SortDesc(s: seq<Row>): (r: seq<Row>)
    ensures |r| == |s|
  {
    if |s| == 0 then [] else InsertDesc(SortDesc(s[..|s| - 1]), s[|s| - 1])
  }

  /** The rows with exactly `v` points, in order. */
  function WithPoints(s: seq<Row>, v: int): seq<Row> {
    if |s| == 0 then []
    else WithPoints(s[..|s| - 1], v) + (if s[|s| - 1].points == v then [s[|s| - 1]] else [])
  }

  /** Every row `InsertDesc` returns is `x` or a row of `s`. */
  lemma {:induction false} InsertDescElements(s: seq<Row>, x: Row)
    ensures multiset(InsertDesc(s, x)) == multiset(s) + multiset{x}
    decreases |s|
  {
    if |s| > 0 && s[|s| - 1].points < x.points {
      var p := s[..|s| - 1];
      InsertDescElements(p, x);
      assert s == p + [s[|s| - 1]];
    }
  }

  lemma {:induction false} InsertDescSorted(s: seq<Row>, x: Row)
    requires SortedDesc(s)
    ensures SortedDesc(InsertDesc(s, x))
    decreases |s|
  {
    if |s| > 0 && s[|s| - 1].points < x.points {
      var p := s[..|s| - 1];
      var last := s[|s| - 1];
      InsertDescSorted(p, x);
      InsertDescElements(p, x);
      var q := InsertDesc(p, x);
      forall k | 0 <= k < |q|
        ensures q[k].points >= last.points
      {
        assert q[k] in multiset(q);
        if q[k] != x {
          var m :| 0 <= m < |p| && p[m] == q[k];
          assert s[m] == q[k];
        }
      }
    }
  }

  /** Inserting `x` appends it to the rows with its points and leaves the
      other groups alone. */
  lemma {:induction false} InsertDescStable(s: seq<Row>, x: Row, v: int)
    requires SortedDesc(s)
    ensures WithPoints(InsertDesc(s, x), v) == WithPoints(s, v) + (if x.points == v then [x] else [])
    decreases |s|
  {
    var r := InsertDesc(s, x);
    if |s| == 0 || s[|s| - 1].points >= x.points {
      assert r[..|r| - 1] == s;
    } else {
      var p := s[..|s| - 1];
      InsertDescStable(p, x, v);
      assert r[..|r| - 1] == InsertDesc(p, x);
    }
  }

  /** The sort orders by points and is a permutation. */
  lemma {:induction false} SortDescCorrect(s: seq<Row>)
    ensures SortedDesc(SortDesc(s))
    ensures multiset(SortDesc(s)) == multiset(s)
    decreases |s|
  {
    if |s| > 0 {
      SortDescCorrect(s[..|s| - 1]);
      InsertDescSorted(SortDesc(s[..|s| - 1]), s[|s| - 1]);
      InsertDescElements(SortDesc(s[..|s| - 1]), s[|s| - 1]);
      assert s == s[..|s| - 1] + [s[|s| - 1]];
    }
  }

  /** Stability: rows with equal points keep their relative order. */
  lemma {:induction false} SortDescStable(s: seq<Row>, v: int)
    ensures WithPoints(SortDesc(s), v) == WithPoints(s, v)
    decreases |s|
  {
    if |s| > 0 {
      var p := s[..|s| - 1];
      SortDescStable(p, v);
      SortDescCorrect(p);
      InsertDescStable(SortDesc(p), s[|s| - 1], v);
    }
  }

  // ---------------------------------------------------------------------
  // Leaderboards and the place
  // ---------------------------------------------------------------------

  /** `arr.slice(0, limit)` of the sorted totals. */
  function Top(rows: seq<Row>, limit: nat): (r: seq<Row>)
    ensures |r| == if |rows| < limit then |rows| else limit
    ensures r == SortDesc(rows)[..|r|]
  {
    var sorted := SortDesc(rows);
    if |sorted| < limit then sorted else sorted[..limit]
  }

  /** `computeTopMonth_` / `computeTopYear_` over an explicit window. */
  function TopOfWindow(es: seq<Entry>, start: int, end: int, limit: nat): seq<Row> {
    Top(Aggregate(InWindow(es, start, end)), limit)
  }

  function TopMonth(es: seq<Entry>, year: nat, month: nat, limit: nat): seq<Row>
    requires year > 0 && 1 <= month <= 12
  {
    var w := MonthWindow(year, month);
    TopOfWindow(es, w.0, w.1, limit)
  }

  function TopYear(es: seq<Entry>, year: nat, limit: nat): seq<Row>
    requires year > 0
  {
    var w := YearWindow(year);
    TopOfWindow(es, w.0, w.1, limit)
  }

  /** A leaderboard holds at most `limit` distinct users, sorted by
      points. */
  lemma TopShape(rows: seq<Row>, limit: nat)
    requires DistinctUsers(rows)
    ensures |Top(rows, limit)| <= limit
    ensures SortedDesc(Top(rows, limit))
    ensures DistinctUsers(Top(rows, limit))
  {
    SortDescCorrect(rows);
    SortDescDistinct(rows);
  }

  /** Each row shown is a user of the window with their total and shown
      name. */
  lemma TopRowIsTotal(w: seq<Entry>, limit: nat, i: nat)
    requires i < |Top(Aggregate(w), limit)|
    ensures var x := Top(Aggregate(w), limit)[i];
            x.userId != "" && Mentions(w, x.userId) && x == Row(x.userId, ShownName(w, x.userId), SumFor(w, x.userId))
  {
    var rows := Aggregate(w);
    var sorted := SortDesc(rows);
    AggregateUsers(w);
    SortDescCorrect(rows);
    assert Top(rows, limit)[i] == sorted[i];
    assert sorted[i] in multiset(rows);
    var k :| 0 <= k < |rows| && rows[k] == sorted[i];
    RowIsTotal(w, k);
  }

  /** Nobody left out of a leaderboard has more points than anybody
      shown. */
  lemma TopComplete(w: seq<Entry>, limit: nat, uid: string)
    requires uid != "" && Mentions(w, uid)
    requires FindRow(Top(Aggregate(w), limit), uid).None?
    ensures forall i :: 0 <= i < |Top(Aggregate(w), limit)| ==> SumFor(w, uid) <= Top(Aggregate(w), limit)[i].points
  {
    var rows := Aggregate(w);
    var sorted := SortDesc(rows);
    var r := Top(rows, limit);
    AggregateUsers(w);
    SortDescCorrect(rows);
    var k := FindRow(rows, uid).value;
    RowIsTotal(w, k);
    assert rows[k] in multiset(sorted);
    var m :| 0 <= m < |sorted| && sorted[m] == rows[k];
    assert forall j :: 0 <= j < |r| ==> r[j] == sorted[j];
    assert sorted[m].userId == uid;
    assert m >= |r|;
  }

  /** The row at index `k` of the aggregate is its user's total. */
  lemma RowIsTotal(w: seq<Entry>, k: nat)
    requires k < |Aggregate(w)|
    ensures var x := Aggregate(w)[k];
            Mentions(w, x.userId) && x == Row(x.userId, ShownName(w, x.userId), SumFor(w, x.userId))
  {
    var rows := Aggregate(w);
    AggregateUsers(w);
    var uid := rows[k].userId;
    assert FindRow(rows, uid) == Some(k);
    AggregateTotals(w, uid);
  }

  /** Inserting a new user keeps the users distinct. */
  lemma {:induction false} InsertDescDistinct(s: seq<Row>, x: Row)
    requires DistinctUsers(s)
    requires forall k :: 0 <= k < |s| ==> s[k].userId != x.userId
    ensures DistinctUsers(InsertDesc(s, x))
    decreases |s|
  {
    if |s| > 0 && s[|s| - 1].points < x.points {
      var p := s[..|s| - 1];
      InsertDescDistinct(p, x);
      InsertDescElements(p, x);
      var q := InsertDesc(p, x);
      forall k | 0 <= k < |q|
        ensures q[k].userId != s[|s| - 1].userId
      {
        assert q[k] in multiset(q);
        if q[k] != x {
          var m :| 0 <= m < |p| && p[m] == q[k];
          assert s[m] == q[k];
        }
      }
    }
  }

  /** Sorting rows of distinct users keeps them distinct. */
  lemma {:induction false} SortDescDistinct(rows: seq<Row>)
    requires DistinctUsers(rows)
    ensures DistinctUsers(SortDesc(rows))
    decreases |rows|
  {
    if |rows| > 0 {
      var p := rows[..|rows| - 1];
      var x := rows[|rows| - 1];
      SortDescDistinct(p);
      SortDescCorrect(p);
      var sp := SortDesc(p);
      forall k | 0 <= k < |sp|
        ensures sp[k].userId != x.userId
      {
        assert sp[k] in multiset(p);
        var m :| 0 <= m < |p| && p[m] == sp[k];
        assert rows[m] == sp[k];
      }
      InsertDescDistinct(sp, x);
    }
  }

  /** The answer of `computeUserPlaceYear_`. */
  datatype Standing = Standing(place: Option<nat>, points: int)

  /** The 1-based position of `uid` in a leaderboard, or no place and 0
      points. */
  function PlaceIn(top: seq<Row>, uid: string): (s: Standing)
    ensures s.place.None? <==> forall i :: 0 <= i < |top| ==> top[i].userId != uid
    ensures s.place.Some? ==>
              && 1 <= s.place.value <= |top|
              && top[s.place.value - 1].userId == uid
              && (forall i :: 0 <= i < s.place.value - 1 ==> top[i].userId != uid)
              && s.points == top[s.place.value - 1].points
    ensures s.place.None? ==> s.points == 0
  {
    match FindRow(top, uid)
    case None => Standing(None, 0)
    case Some(i) => Standing(Some(i + 1), top[i].points)
  }

  /** The yearly place is looked up in the top 200 only. */
  const PlaceLimit: nat := 200

  function UserPlaceYear(es: seq<Entry>, uid: string, year: nat): Standing
    requires year > 0
  {
    PlaceIn(TopYear(es, year, PlaceLimit), uid)
  }

  /** The yearly leaderboard the place is read from. */
  function YearBoard(es: seq<Entry>, year: nat): (top: seq<Row>)
    requires year > 0
    ensures top == TopYear(es, year, PlaceLimit)
  {
    var yw := YearWindow(year);
    Top(Aggregate(InWindow(es, yw.0, yw.1)), PlaceLimit)
  }

  /** A place is at most 200, and a placed user has their yearly total. */
  lemma UserPlaceTotal(es: seq<Entry>, uid: string, year: nat)
    requires year > 0
    ensures var s := UserPlaceYear(es, uid, year);
            var yw := YearWindow(year);
            var w := InWindow(es, yw.0, yw.1);
            s.place.Some? ==> s.place.value <= PlaceLimit && s.points == SumFor(w, uid) && Mentions(w, uid)
  {
    var yw := YearWindow(year);
    var w := InWindow(es, yw.0, yw.1);
    var s := UserPlaceYear(es, uid, year);
    AggregateUsers(w);
    TopShape(Aggregate(w), PlaceLimit);
    if s.place.Some? {
      TopRowIsTotal(w, PlaceLimit, s.place.value - 1);
    }
  }

  /** Everybody with more points is placed before a placed user. */
  lemma UserPlaceRank(es: seq<Entry>, uid: string, year: nat)
    requires year > 0
    ensures var s := UserPlaceYear(es, uid, year);
            var top := YearBoard(es, year);
            s.place.Some? ==> forall i :: 0 <= i < |top| && top[i].points > s.points ==> i < s.place.value - 1
  {
    var yw := YearWindow(year);
    var w := InWindow(es, yw.0, yw.1);
    AggregateUsers(w);
    TopShape(Aggregate(w), PlaceLimit);
  }

  /** The empty id is never placed. */
  lemma UserPlaceEmptyId(es: seq<Entry>, year: nat)
    requires year > 0
    ensures UserPlaceYear(es, "", year).place.None?
  {
    var yw := YearWindow(year);
    var w := InWindow(es, yw.0, yw.1);
    var top := YearBoard(es, year);
    forall i | 0 <= i < |top|
      ensures top[i].userId != ""
    {
      TopRowIsTotal(w, PlaceLimit, i);
    }
  }

  /** A user in the window with at most 200 users in it always gets a
      place. */
  lemma SmallYearPlaced(es: seq<Entry>, uid: string, year: nat)
    requires year > 0 && uid != ""
    requires var yw := YearWindow(year);
             Mentions(InWindow(es, yw.0, yw.1), uid) && |Aggregate(InWindow(es, yw.0, yw.1))| <= PlaceLimit
    ensures UserPlaceYear(es, uid, year).place.Some?
  {
    var yw := YearWindow(year);
    var w := InWindow(es, yw.0, yw.1);
    var rows := Aggregate(w);
    AggregateUsers(w);
    var k := FindRow(rows, uid).value;
    SmallBoardPlaces(rows, PlaceLimit, k);
    assert YearBoard(es, year) == Top(rows, PlaceLimit);
  }

  /** A board with room for every row places each of them. */
  lemma SmallBoardPlaces(rows: seq<Row>, limit: nat, k: nat)
    requires k < |rows| <= limit
    ensures PlaceIn(Top(rows, limit), rows[k].userId).place.Some?
  {
    SortDescCorrect(rows);
    var sorted := SortDesc(rows);
    assert Top(rows, limit) == sorted;
    assert rows[k] in multiset(sorted);
    var m :| 0 <= m < |sorted| && sorted[m] == rows[k];
  }
}
