/** The single-player page (js/player.js): each sheet row is normalised into
    a game line with renamed numeric columns, and the summary table shows
    totals and per-game averages of six of them. */
module PlayerPage {
  import opened Wrappers
  import opened Numbers
  import opened Rows
  import Aggregates

  /** The keys the object literal of `loadPlayerStats` writes after `...r`. */
  const Written: set<string> := {
    "gp", "pts", "trb", "ast", "stl", "blk", "tov", "fgm", "fga", "3pm", "3pa",
    "ftm", "fta", "oreb", "dreb", "pf", "game_id"}

  /** One normalised row: the source cells the literal does not overwrite,
      and the written fields. */
  datatype GameLine = GameLine(
    extra: Row, gp: nat, pts: nat, trb: nat, ast: nat, stl: nat, blk: nat, tov: nat,
    fgm: nat, fga: nat, tpm: nat, tpa: nat, ftm: nat, fta: nat, oreb: nat, dreb: nat, pf: nat,
    gameId: Option<string>)

  /** `(v) => Number(v) || 0` applied to `r[k]`. */
  function Num(r: Row, k: string): nat {
    NumberOrZero(Get(r, k))
  }

  /** The mapping of `loadPlayerStats` for one row. Every output has
      `gp = 1`; the numeric fields read the renamed source columns
      (trb←totrb, ast←ass, stl←st, blk←bs, tov←to, fgm←fg, 3pm←3p, ftm←ft,
      oreb←or, dreb←dr); `game_id` is kept only when non-empty; every other
      source column is copied unchanged. */
  function Normalise(r: Row): (l: GameLine)
    ensures l.gp == 1
    ensures l.pts == Num(r, "pts") && l.trb == Num(r, "totrb") && l.ast == Num(r, "ass")
    ensures l.stl == Num(r, "st") && l.blk == Num(r, "bs") && l.tov == Num(r, "to")
    ensures l.fgm == Num(r, "fg") && l.fga == Num(r, "fga") && l.tpm == Num(r, "3p") && l.tpa == Num(r, "3pa")
    ensures l.ftm == Num(r, "ft") && l.fta == Num(r, "fta")
    ensures l.oreb == Num(r, "or") && l.dreb == Num(r, "dr") && l.pf == Num(r, "pf")
    ensures forall k :: k in l.extra <==> k in r && k !in Written
    ensures forall k :: k in l.extra ==> l.extra[k] == r[k]
    ensures l.gameId.None? <==> !Truthy(r, "game_id")
    ensures l.gameId.Some? ==> l.gameId.value == r["game_id"]
  {
    GameLine(
      map k | k in r && k !in Written :: r[k],
      1, Num(r, "pts"), Num(r, "totrb"), Num(r, "ass"), Num(r, "st"), Num(r, "bs"), Num(r, "to"),
      Num(r, "fg"), Num(r, "fga"), Num(r, "3p"), Num(r, "3pa"), Num(r, "ft"), Num(r, "fta"),
      Num(r, "or"), Num(r, "dr"), Num(r, "pf"),
      if Truthy(r, "game_id") then Some(r["game_id"]) else None)
  }

  /** `rows.map(...)`: one game line per row, in order. */
  function LoadPlayerStats(rows: seq<Row>): (lines: seq<GameLine>)
    ensures |lines| == |rows|
    ensures forall i :: 0 <= i < |rows| ==> lines[i] == Normalise(rows[i])
  {
    seq(|rows|, i requires 0 <= i < |rows| => Normalise(rows[i]))
  }

  /** `sumBy(stats, keyFn)`: `reduce` from the left. */
  function SumBy(lines: seq<GameLine>, key: GameLine -> nat): nat {
    if |lines| == 0 then 0
    else SumBy(lines[..|lines| - 1], key) + key(lines[|lines| - 1])
  }

  /** `totals` of `renderStatSummary`. */
  datatype Summary = Summary(gp: nat, pts: nat, trb: nat, ast: nat, stl: nat, blk: nat)

  function Totals(lines: seq<GameLine>): Summary {
    Summary(
      SumBy(lines, (l: GameLine) => l.gp), SumBy(lines, (l: GameLine) => l.pts), SumBy(lines, (l: GameLine) => l.trb),
      SumBy(lines, (l: GameLine) => l.ast), SumBy(lines, (l: GameLine) => l.stl), SumBy(lines, (l: GameLine) => l.blk))
  }

  /** `avg` of `renderStatSummary` (before `toFixed`). */
  datatype SummaryAverages = SummaryAverages(gp: real, pts: real, trb: real, ast: real, stl: real, blk: real)

  /** `totals.gp > 0 ? totals[k] / totals.gp : 0`, for every key. */
  function Averages(t: Summary): (a: SummaryAverages)
    ensures t.gp == 0 ==> a == SummaryAverages(0.0, 0.0, 0.0, 0.0, 0.0, 0.0)
    ensures t.gp > 0 ==> a.gp == 1.0
    ensures t.gp > 0 ==> a.pts * t.gp as real == t.pts as real
    ensures t.gp > 0 ==> a.trb * t.gp as real == t.trb as real
    ensures t.gp > 0 ==> a.ast * t.gp as real == t.ast as real
    ensures t.gp > 0 ==> a.stl * t.gp as real == t.stl as real
    ensures t.gp > 0 ==> a.blk * t.gp as real == t.blk as real
  {
    if t.gp > 0 then
      var g := t.gp as real;
      SummaryAverages(1.0, t.pts as real / g, t.trb as real / g, t.ast as real / g, t.stl as real / g, t.blk as real / g)
    else SummaryAverages(0.0, 0.0, 0.0, 0.0, 0.0, 0.0)
  }

  /** Summing a written field over the loaded rows sums its source column. */
  lemma {:induction false} SumByOfLoaded(rows: seq<Row>, key: GameLine -> nat, col: string)
    requires forall r :: key(Normalise(r)) == Num(r, col)
    ensures SumBy(LoadPlayerStats(rows), key) == Aggregates.Sum(rows, col)
  {
    if |rows| > 0 {
      var init := rows[..|rows| - 1];
      SumByOfLoaded(init, key, col);
      LoadedPrefix(rows);
      CountIsNumberOrZero(rows[|rows| - 1], col);
    }
  }

  lemma {:induction false} GamesOfLoaded(rows: seq<Row>)
    ensures SumBy(LoadPlayerStats(rows), (l: GameLine) => l.gp) == |rows|
  {
    if |rows| > 0 {
      var init := rows[..|rows| - 1];
      GamesOfLoaded(init);
      LoadedPrefix(rows);
      assert LoadPlayerStats(rows)[|rows| - 1].gp == 1;
    }
  }

  lemma LoadedPrefix(rows: seq<Row>)
    requires |rows| > 0
    ensures LoadPlayerStats(rows)[..|rows| - 1] == LoadPlayerStats(rows[..|rows| - 1])
  {
  }

  /** The summary totals of the loaded rows: `gp` is the row count and each
      stat is the column sum of its source column, a missing, empty or
      non-numeric cell counting 0, the same sums the leaders page forms. */
  lemma TotalsOfLoaded(rows: seq<Row>)
    ensures Totals(LoadPlayerStats(rows)) == Summary(
      |rows|, Aggregates.Sum(rows, "pts"), Aggregates.Sum(rows, "totrb"),
      Aggregates.Sum(rows, "ass"), Aggregates.Sum(rows, "st"), Aggregates.Sum(rows, "bs"))
  {
    GamesOfLoaded(rows);
    SumByOfLoaded(rows, (l: GameLine) => l.pts, "pts");
    SumByOfLoaded(rows, (l: GameLine) => l.trb, "totrb");
    SumByOfLoaded(rows, (l: GameLine) => l.ast, "ass");
    SumByOfLoaded(rows, (l: GameLine) => l.stl, "st");
    SumByOfLoaded(rows, (l: GameLine) => l.blk, "bs");
  }

  /** For a non-empty stat list the games-played average is 1; with no rows
      every average is 0. */
  /** With rows, each summary average is the per-game average the leaders
      page forms from the same column. */
  lemma AveragesOfLoaded(rows: seq<Row>)
    requires |rows| > 0
    ensures var a := Averages(Totals(LoadPlayerStats(rows)));
      && a.gp == 1.0
      && a.pts == Aggregates.PerGame(Aggregates.Sum(rows, "pts"), |rows|)
      && a.trb == Aggregates.PerGame(Aggregates.Sum(rows, "totrb"), |rows|)
      && a.ast == Aggregates.PerGame(Aggregates.Sum(rows, "ass"), |rows|)
      && a.stl == Aggregates.PerGame(Aggregates.Sum(rows, "st"), |rows|)
      && a.blk == Aggregates.PerGame(Aggregates.Sum(rows, "bs"), |rows|)
  {
    TotalsOfLoaded(rows);
  }

  lemma SummaryAveragesOfLoaded(rows: seq<Row>)
    ensures |rows| == 0 ==> Averages(Totals(LoadPlayerStats(rows))) == SummaryAverages(0.0, 0.0, 0.0, 0.0, 0.0, 0.0)
    ensures |rows| > 0 ==> Averages(Totals(LoadPlayerStats(rows))).gp == 1.0
  {
    GamesOfLoaded(rows);
  }
}
