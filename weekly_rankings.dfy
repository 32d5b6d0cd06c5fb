/**
 * The weekly leaderboard route (app/api/rankings/weekly/route.ts): the
 * limit parameter, and the rows served from the admin query or from the
 * in-memory filter, sort and slice over a full scan.
 */
module WeeklyRankings {
  import opened Wrappers
  import opened Text
  import opened Store
  import opened Sorting
  import opened Calendar

  /**
   * Line 19: `Math.min(parseInt(limit || '100', 10) || 100, 200)`; a
   * negative number is kept as it is.
   */
  function Limit(param: Option<string>): int {
    var raw := if param.None? || param.value == "" then "100" else param.value;
    var parsed := ParseInt(raw, false);
    var n := if parsed.None? || parsed.value == 0 then 100 else parsed.value;
    if n < 200 then n else 200
  }

  /** The default is 100, "0" and text that is not a number give 100, a number gives itself up to 200. */
  lemma LimitCases(param: Option<string>)
    ensures Limit(param) <= 200
    ensures param.None? || param == Some("") ==> Limit(param) == 100
    ensures param.Some? && param.value != "" && ParseInt(param.value, false).None? ==> Limit(param) == 100
    ensures param.Some? && param.value != "" && ParseInt(param.value, false) == Some(0) ==> Limit(param) == 100
  {
    assert NatToString(100) == "100" by {
      assert NatToString(1) == "1";
      assert NatToString(10) == "10";
    }
    ParseIntOfNatToString(100, false);
  }

  lemma LimitOfNumber(n: nat)
    requires n > 0
    ensures Limit(Some(NatToString(n))) == if n < 200 then n else 200
  {
    ParseIntOfNatToString(n, false);
  }

  /** One row of the weekly leaderboard. */
  datatype WeeklyRow = WeeklyRow(id: string, name: string, userId: string, imageUrl: string,
                                 rank: int, wins: int, losses: int, draws: int, winRate: real,
                                 totalBattles: int)

  /** A document as a query returns it: its key and its data. */
  datatype Snapshot = Snapshot(docId: string, data: CharacterDoc)

  /** Lines 68-79: a row shows the weekly counters under the lifetime names. */
  function RowOf(id: string, c: CharacterDoc): WeeklyRow {
    WeeklyRow(id, c.name, c.userId, c.imageUrl, c.weeklyPoints, c.weeklyWins, c.weeklyLosses,
              c.weeklyDraws, c.weeklyWinRate, c.weeklyTotalBattles)
  }

  /** The `(b.weeklyPoints || 0) - (a.weeklyPoints || 0)` order key. */
  function WeeklyPoints(s: Snapshot): int {
    s.data.weeklyPoints
  }

  /** Line 63: the documents of the week. */
  function InWeek(docs: seq<Snapshot>, key: string): (r: seq<Snapshot>)
    ensures forall s :: s in r <==> s in docs && s.data.weeklyKey == Some(key)
  {
    if docs == [] then []
    else
      var rest := InWeek(docs[1..], key);
      assert forall s :: s in docs <==> s == docs[0] || s in docs[1..];
      (if docs[0].data.weeklyKey == Some(key) then [docs[0]] else []) + rest
  }

  /** Line 62: `{ id: d.id, ...data }`, where the stored `id` wins. */
  function ScanRows(ss: seq<Snapshot>): (rows: seq<WeeklyRow>)
    ensures |rows| == |ss|
    ensures forall i :: 0 <= i < |ss| ==> rows[i] == RowOf(ss[i].data.id, ss[i].data)
  {
    seq(|ss|, i requires 0 <= i < |ss| => RowOf(ss[i].data.id, ss[i].data))
  }

  /** Line 44: `data.id || d.id`. */
  function AdminRows(ss: seq<Snapshot>): (rows: seq<WeeklyRow>)
    ensures |rows| == |ss|
    ensures forall i :: 0 <= i < |ss| ==>
      rows[i] == RowOf(if ss[i].data.id == "" then ss[i].docId else ss[i].data.id, ss[i].data)
  {
    seq(|ss|, i requires 0 <= i < |ss| =>
      RowOf(if ss[i].data.id == "" then ss[i].docId else ss[i].data.id, ss[i].data))
  }

  /** Lines 60-79: filter by week, stable sort by weekly points, `slice(0, lim)`, map. */
  function FallbackRows(docs: seq<Snapshot>, key: string, lim: int): seq<WeeklyRow> {
    ScanRows(Slice(SortDesc(InWeek(docs, key), WeeklyPoints), 0, lim))
  }

  /** Every row shows a document of week `key` from `docs`. */
  predicate RowsOfWeek(rows: seq<WeeklyRow>, docs: seq<Snapshot>, key: string) {
    forall i :: 0 <= i < |rows| ==> exists s :: s in docs && s.data.weeklyKey == Some(key)
                                             && rows[i] == RowOf(s.data.id, s.data)
  }

  /**
   * The fallback list is the week's top `lim` characters by weekly points,
   * each shown once: at most `lim` rows, all of the week's characters up to
   * that bound, none shown more often than the week holds it, no character
   * left out with more points than one shown, in non-increasing weekly
   * points.
   */
  lemma FallbackShape(docs: seq<Snapshot>, key: string, lim: int)
    requires lim >= 0
    ensures var rows := FallbackRows(docs, key, lim);
      var week := InWeek(docs, key);
      var top := Slice(SortDesc(week, WeeklyPoints), 0, lim);
      && rows == ScanRows(top)
      && |rows| == (if lim <= |week| then lim else |week|)
      && multiset(top) <= multiset(week)
      && (forall s, t :: s in multiset(week) - multiset(top) && t in top ==> WeeklyPoints(s) <= WeeklyPoints(t))
      && (forall i, j :: 0 <= i < j < |rows| ==> rows[i].rank >= rows[j].rank)
      && RowsOfWeek(rows, docs, key)
  {
    var week := InWeek(docs, key);
    var top := Slice(SortDesc(week, WeeklyPoints), 0, lim);
    FallbackTop(week, lim);
    TopRowsOfWeek(docs, key, top);
  }

  /** The first `lim` of the sorted week: part of the week, its best, in order. */
  lemma FallbackTop(week: seq<Snapshot>, lim: int)
    requires lim >= 0
    ensures var top := Slice(SortDesc(week, WeeklyPoints), 0, lim);
      && |top| == (if lim <= |week| then lim else |week|)
      && multiset(top) <= multiset(week)
      && (forall s, t :: s in multiset(week) - multiset(top) && t in top ==> WeeklyPoints(s) <= WeeklyPoints(t))
      && (forall i, j :: 0 <= i < j < |top| ==> WeeklyPoints(top[i]) >= WeeklyPoints(top[j]))
  {
    var sorted := SortDesc(week, WeeklyPoints);
    var n := if lim <= |sorted| then lim else |sorted|;
    var top := Slice(sorted, 0, lim);
    assert top == sorted[..n];
    SortedPrefix(sorted, WeeklyPoints, n);
  }

  /** Rows built from documents of the week show documents of the week. */
  lemma TopRowsOfWeek(docs: seq<Snapshot>, key: string, top: seq<Snapshot>)
    requires multiset(top) <= multiset(InWeek(docs, key))
    ensures RowsOfWeek(ScanRows(top), docs, key)
  {
    var rows := ScanRows(top);
    forall i | 0 <= i < |rows|
      ensures exists s :: s in docs && s.data.weeklyKey == Some(key) && rows[i] == RowOf(s.data.id, s.data)
    {
      assert top[i] in multiset(top);
      assert top[i] in InWeek(docs, key);
    }
  }

  /** Points ties keep the order of the scan. */
  lemma FallbackTies(docs: seq<Snapshot>, key: string, points: int)
    ensures WithKey(SortDesc(InWeek(docs, key), WeeklyPoints), WeeklyPoints, points)
         == WithKey(InWeek(docs, key), WeeklyPoints, points)
  {
    SortDescStable(InWeek(docs, key), WeeklyPoints, points);
  }

  /** A negative limit is not rejected: `slice(0, lim)` then drops the last `-lim` characters of the week. */
  lemma FallbackNegativeLimit(docs: seq<Snapshot>, key: string, lim: int)
    requires lim < 0
    ensures |FallbackRows(docs, key, lim)| == if |InWeek(docs, key)| + lim < 0 then 0 else |InWeek(docs, key)| + lim
  {
  }

  /** Where the rows come from: the admin query's result, a full client scan, or a failure of either. */
  datatype WeeklySource = Admin(docs: seq<Snapshot>) | Scan(docs: seq<Snapshot>) | Failed

  datatype WeeklyResponse = WeeklyResponse(weekKey: string, characters: seq<WeeklyRow>)

  /** Lines 16-88 for the civil date `y-(m+1)-d` and the `limit` parameter. */
  function Get(source: WeeklySource, y: int, m: int, d: int, limitParam: Option<string>): (r: WeeklyResponse)
    requires ValidDate(y, m, d)
    ensures r.weekKey == WeekKey(y, m, d)
    ensures source.Admin? ==> r.characters == AdminRows(source.docs)
    ensures source.Failed? ==> r.characters == []
    ensures source.Scan? ==> r.characters == FallbackRows(source.docs, r.weekKey, Limit(limitParam))
  {
    var key := WeekKey(y, m, d);
    var lim := Limit(limitParam);
    match source
    case Admin(docs) => WeeklyResponse(key, AdminRows(docs))
    case Scan(docs) => WeeklyResponse(key, FallbackRows(docs, key, lim))
    case Failed => WeeklyResponse(key, [])
  }

  /** With the default limit, a scan serves at most 100 rows, all of the current week. */
  lemma DefaultScan(docs: seq<Snapshot>, y: int, m: int, d: int)
    requires ValidDate(y, m, d)
    ensures var r := Get(Scan(docs), y, m, d, None);
      && |r.characters| <= 100
      && r.weekKey == WeekKey(y, m, d)
      && RowsOfWeek(r.characters, docs, r.weekKey)
  {
    LimitCases(None);
    var r := Get(Scan(docs), y, m, d, None);
    var key := r.weekKey;
    assert r.characters == FallbackRows(docs, key, 100);
    FallbackShape(docs, key, 100);
  }
}
