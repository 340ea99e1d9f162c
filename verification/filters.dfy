/** The season and phase drop-downs: `filterRowsBySeasonPhase` (js/leaders.js,
    js/records.js), `filterRows` (js/players.js) and `filterGames`
    (js/games.js) are one filter; `extractSeasonsFromStats`,
    `extractSeasons` list the seasons the drop-down offers. */
module Filters {
  import opened Wrappers
  import opened Rows
  import opened LexOrder

  /** `"all"` disables a condition; otherwise the row's cell must equal the
      chosen value (a missing cell never does). */
  predicate Accepts(want: string, cell: Option<string>) {
    want == "all" || cell == Some(want)
  }

  /** `okS && okP`. */
  predicate Matches(r: Row, season: string, phase: string) {
    Accepts(season, Get(r, "season")) && Accepts(phase, Get(r, "phase"))
  }

  /** `rows.filter(r => okS && okP)`: exactly the matching rows are kept. */
  function FilterRows(rows: seq<Row>, season: string, phase: string): (r: seq<Row>)
    ensures |r| <= |rows|
    ensures forall x :: x in r <==> x in rows && Matches(x, season, phase)
  {
    if |rows| == 0 then []
    else
      var rest := FilterRows(rows[1..], season, phase);
      if Matches(rows[0], season, phase) then [rows[0]] + rest else rest
  }

  /** The filter works row by row and keeps the order: filtering a
      concatenation concatenates the filtered parts. */
  lemma {:induction false} FilterAppend(a: seq<Row>, b: seq<Row>, season: string, phase: string)
    ensures FilterRows(a + b, season, phase) == FilterRows(a, season, phase) + FilterRows(b, season, phase)
  {
    if |a| > 0 {
      assert (a + b)[1..] == a[1..] + b;
      FilterAppend(a[1..], b, season, phase);
    } else {
      assert a + b == b;
    }
  }

  /** With both drop-downs on `"all"` nothing is removed. */
  lemma {:induction false} FilterAllIsIdentity(rows: seq<Row>)
    ensures FilterRows(rows, "all", "all") == rows
  {
    if |rows| > 0 {
      FilterAllIsIdentity(rows[1..]);
      assert rows == [rows[0]] + rows[1..];
    }
  }

  /** Applying the same filter twice keeps what the first pass kept. */
  lemma {:induction false} FilterIdempotent(rows: seq<Row>, season: string, phase: string)
    ensures FilterRows(FilterRows(rows, season, phase), season, phase) == FilterRows(rows, season, phase)
  {
    if |rows| > 0 {
      FilterIdempotent(rows[1..], season, phase);
      var rest := FilterRows(rows[1..], season, phase);
      if Matches(rows[0], season, phase) {
        assert ([rows[0]] + rest)[1..] == rest;
      }
    }
  }

  /** The two conditions are a conjunction: filtering by season alone and then
      by phase alone is filtering by both. */
  lemma {:induction false} FilterConjunction(rows: seq<Row>, season: string, phase: string)
    ensures FilterRows(FilterRows(rows, season, "all"), "all", phase) == FilterRows(rows, season, phase)
  {
    if |rows| > 0 {
      FilterConjunction(rows[1..], season, phase);
      var rest := FilterRows(rows[1..], season, "all");
      if Matches(rows[0], season, "all") {
        assert ([rows[0]] + rest)[1..] == rest;
      }
    }
  }

  /** The season a row contributes to the drop-down: `if (r.season)`. */
  function SeasonOf(r: Row): Option<string> {
    if Truthy(r, "season") then Some(r["season"]) else None
  }

  /** The distinct non-empty seasons of `rows`, ascending in JavaScript's
      default string order (not chronologically). */
  function DistinctSeasons(rows: seq<Row>): (r: seq<string>)
    ensures StrictlySorted(r)
    ensures forall y :: y in r <==> exists i :: 0 <= i < |rows| && SeasonOf(rows[i]) == Some(y)
  {
    if |rows| == 0 then []
    else
      var init := rows[..|rows| - 1];
      var prev := DistinctSeasons(init);
      var last := rows[|rows| - 1];
      assert forall i :: 0 <= i < |init| ==> init[i] == rows[i];
      if SeasonOf(last).Some? then Insert(prev, SeasonOf(last).value) else prev
  }

  /** Any strictly ascending list of exactly those seasons is the result:
      the drop-down does not depend on how the engine sorts. */
  lemma DistinctSeasonsUnique(rows: seq<Row>, other: seq<string>)
    requires StrictlySorted(other)
    requires forall y :: y in other <==> exists i :: 0 <= i < |rows| && SeasonOf(rows[i]) == Some(y)
    ensures other == DistinctSeasons(rows)
  {
    StrictlySortedUnique(other, DistinctSeasons(rows));
  }

  /** Every row of every player, roster first, then row order. */
  function AllRows(players: seq<PlayerRows>): (r: seq<Row>)
    ensures forall x :: x in r <==> exists j :: 0 <= j < |players| && x in players[j].rows
  {
    if |players| == 0 then []
    else
      var init := players[..|players| - 1];
      assert forall j :: 0 <= j < |init| ==> init[j] == players[j];
      AllRows(init) + players[|players| - 1].rows
  }

  /** `extractSeasonsFromStats(playerStats)` (js/leaders.js, js/records.js):
      the seasons of every player's unfiltered rows. */
  function SeasonsFromStats(players: seq<PlayerRows>): (r: seq<string>)
    ensures StrictlySorted(r)
    ensures forall y :: y in r <==>
      exists j, x :: 0 <= j < |players| && x in players[j].rows && SeasonOf(x) == Some(y)
  {
    var all := AllRows(players);
    var r := DistinctSeasons(all);
    forall y ensures y in r <==>
      exists j, x :: 0 <= j < |players| && x in players[j].rows && SeasonOf(x) == Some(y)
    {
      if y in r {
        var i :| 0 <= i < |all| && SeasonOf(all[i]) == Some(y);
        assert all[i] in all;
      }
      if exists j, x :: 0 <= j < |players| && x in players[j].rows && SeasonOf(x) == Some(y) {
        var j, x :| 0 <= j < |players| && x in players[j].rows && SeasonOf(x) == Some(y);
        assert x in all;
        var i :| 0 <= i < |all| && all[i] == x;
      }
    }
    r
  }
}
