/** Per-player aggregation of sheet rows: `computeLeaderStats`
    (js/leaders.js), `computeLeaders` (js/team.js) and `computeAverages`
    (js/players.js). The three differ on purpose and are modelled apart. */
module Aggregates {
  import opened Wrappers
  import Strings
  import opened Numbers
  import opened Rows
  import opened JsObject

  /** The column sum, a missing or empty cell counting 0: the reference the
      accumulating loops of the page scripts are checked against. */
  function Sum(rows: seq<Row>, col: string): nat {
    if |rows| == 0 then 0
    else Sum(rows[..|rows| - 1], col) + Count(rows[|rows| - 1], col)
  }

  lemma {:induction false} SumAppend(a: seq<Row>, b: seq<Row>, col: string)
    ensures Sum(a + b, col) == Sum(a, col) + Sum(b, col)
  {
    if |b| == 0 {
      assert a + b == a;
    } else {
      var b' := b[..|b| - 1];
      assert (a + b)[..|a + b| - 1] == a + b';
      SumAppend(a, b', col);
    }
  }

  /** The running totals object of `computeLeaderStats`. */
  datatype Totals = Totals(
    gp: nat, pts: nat, reb: nat, oreb: nat, dreb: nat, ast: nat, stl: nat, blk: nat, to: nat,
    fgM: nat, fgA: nat, tpM: nat, tpA: nat, ftM: nat, ftA: nat)

  /** One pass of the `rows.forEach` body. */
  function AddRow(t: Totals, r: Row): Totals {
    Totals(
      t.gp + 1,
      t.pts + Count(r, "pts"), t.reb + Count(r, "totrb"),
      t.oreb + Count(r, "or"), t.dreb + Count(r, "dr"),
      t.ast + Count(r, "ass"), t.stl + Count(r, "st"),
      t.blk + Count(r, "bs"), t.to + Count(r, "to"),
      t.fgM + Count(r, "fg"), t.fgA + Count(r, "fga"),
      t.tpM + Count(r, "3p"), t.tpA + Count(r, "3pa"),
      t.ftM + Count(r, "ft"), t.ftA + Count(r, "fta"))
  }

  /** The totals after the loop has seen every row. */
  function Tally(rows: seq<Row>): Totals {
    if |rows| == 0 then Totals(0, 0, 0, 0, 0, 0, 0, 0, 0, 0, 0, 0, 0, 0, 0)
    else AddRow(Tally(rows[..|rows| - 1]), rows[|rows| - 1])
  }

  lemma {:induction false} TallyCountsRows(rows: seq<Row>)
    ensures Tally(rows).gp == |rows|
  {
    if |rows| > 0 {
      TallyCountsRows(rows[..|rows| - 1]);
    }
  }

  /** The accumulated totals are the column sums, under the column renames
      reb←totrb, oreb←or, dreb←dr, ast←ass, stl←st, blk←bs, and `gp` is the
      row count. */
  lemma {:induction false} TallyIsColumnSums(rows: seq<Row>)
    ensures Tally(rows).gp == |rows|
    ensures Tally(rows).pts == Sum(rows, "pts") && Tally(rows).reb == Sum(rows, "totrb")
    ensures Tally(rows).oreb == Sum(rows, "or") && Tally(rows).dreb == Sum(rows, "dr")
    ensures Tally(rows).ast == Sum(rows, "ass") && Tally(rows).stl == Sum(rows, "st")
    ensures Tally(rows).blk == Sum(rows, "bs") && Tally(rows).to == Sum(rows, "to")
    ensures Tally(rows).fgM == Sum(rows, "fg") && Tally(rows).fgA == Sum(rows, "fga")
    ensures Tally(rows).tpM == Sum(rows, "3p") && Tally(rows).tpA == Sum(rows, "3pa")
    ensures Tally(rows).ftM == Sum(rows, "ft") && Tally(rows).ftA == Sum(rows, "fta")
  {
    TallyCountsRows(rows);
    TallyScoring(rows);
    TallyDefence(rows);
    TallyFieldGoals(rows);
    TallyFreeThrows(rows);
  }

  lemma {:induction false} TallyScoring(rows: seq<Row>)
    ensures Tally(rows).pts == Sum(rows, "pts") && Tally(rows).reb == Sum(rows, "totrb")
    ensures Tally(rows).oreb == Sum(rows, "or") && Tally(rows).dreb == Sum(rows, "dr")
  {
    if |rows| > 0 {
      TallyScoring(rows[..|rows| - 1]);
    }
  }

  lemma {:induction false} TallyDefence(rows: seq<Row>)
    ensures Tally(rows).ast == Sum(rows, "ass") && Tally(rows).stl == Sum(rows, "st")
    ensures Tally(rows).blk == Sum(rows, "bs") && Tally(rows).to == Sum(rows, "to")
  {
    if |rows| > 0 {
      TallyDefence(rows[..|rows| - 1]);
    }
  }

  lemma {:induction false} TallyFieldGoals(rows: seq<Row>)
    ensures Tally(rows).fgM == Sum(rows, "fg") && Tally(rows).fgA == Sum(rows, "fga")
    ensures Tally(rows).tpM == Sum(rows, "3p") && Tally(rows).tpA == Sum(rows, "3pa")
  {
    if |rows| > 0 {
      TallyFieldGoals(rows[..|rows| - 1]);
    }
  }

  lemma {:induction false} TallyFreeThrows(rows: seq<Row>)
    ensures Tally(rows).ftM == Sum(rows, "ft") && Tally(rows).ftA == Sum(rows, "fta")
  {
    if |rows| > 0 {
      TallyFreeThrows(rows[..|rows| - 1]);
    }
  }

  /** `total / (gp || 1)`: a per-game average, with no games dividing by 1. */
  function PerGame(total: nat, gp: nat): (r: real)
    ensures gp > 0 ==> r * gp as real == total as real
    ensures gp == 0 ==> r == total as real
  {
    total as real / (if gp == 0 then 1 else gp) as real
  }

  /** One player's entry in `computeLeaderStats`' result. In totals mode the
      counting stats are whole numbers; they are `real` here so that both
      modes share one shape. `toFixed` is not modelled. */
  datatype LeaderLine = LeaderLine(
    gp: nat, pts: real, reb: real, oreb: real, dreb: real, ast: real, stl: real, blk: real, to: real,
    fgPct: real, tpPct: real, ftPct: real)

  /** `total` turned into the entry: per-game averages when `type ===
      "averages"`, the totals otherwise; the shooting percentages are pooled
      in both modes. */
  function LineOf(t: Totals, mode: string): LeaderLine {
    var fg := Pct(t.fgM, t.fgA);
    var tp := Pct(t.tpM, t.tpA);
    var ft := Pct(t.ftM, t.ftA);
    if mode == "averages" then
      LeaderLine(t.gp,
        PerGame(t.pts, t.gp), PerGame(t.reb, t.gp), PerGame(t.oreb, t.gp), PerGame(t.dreb, t.gp),
        PerGame(t.ast, t.gp), PerGame(t.stl, t.gp), PerGame(t.blk, t.gp), PerGame(t.to, t.gp),
        fg, tp, ft)
    else
      LeaderLine(t.gp,
        t.pts as real, t.reb as real, t.oreb as real, t.dreb as real,
        t.ast as real, t.stl as real, t.blk as real, t.to as real,
        fg, tp, ft)
  }

  /** The entry for a non-empty list of rows: `gp` is the row count and the
      shooting percentages are `pct(Σmade, Σatt)` in either mode. */
  function Line(rows: seq<Row>, mode: string): (l: LeaderLine)
    requires |rows| > 0
    ensures l.gp == |rows|
    ensures l.fgPct == Pct(Sum(rows, "fg"), Sum(rows, "fga"))
    ensures l.tpPct == Pct(Sum(rows, "3p"), Sum(rows, "3pa"))
    ensures l.ftPct == Pct(Sum(rows, "ft"), Sum(rows, "fta"))
  {
    TallyIsColumnSums(rows);
    LineOf(Tally(rows), mode)
  }

  /** In totals mode every counting stat is its column sum. */
  lemma LineTotals(rows: seq<Row>, mode: string)
    requires |rows| > 0 && mode != "averages"
    ensures Line(rows, mode).pts == Sum(rows, "pts") as real
    ensures Line(rows, mode).reb == Sum(rows, "totrb") as real
    ensures Line(rows, mode).oreb == Sum(rows, "or") as real
    ensures Line(rows, mode).dreb == Sum(rows, "dr") as real
    ensures Line(rows, mode).ast == Sum(rows, "ass") as real
    ensures Line(rows, mode).stl == Sum(rows, "st") as real
    ensures Line(rows, mode).blk == Sum(rows, "bs") as real
    ensures Line(rows, mode).to == Sum(rows, "to") as real
  {
    TallyIsColumnSums(rows);
  }

  /** In averages mode every counting stat is its column sum over `gp`
      (`PerGame` states the quotient). */
  lemma LineAverages(rows: seq<Row>)
    requires |rows| > 0
    ensures Line(rows, "averages").pts == PerGame(Sum(rows, "pts"), |rows|)
    ensures Line(rows, "averages").reb == PerGame(Sum(rows, "totrb"), |rows|)
    ensures Line(rows, "averages").oreb == PerGame(Sum(rows, "or"), |rows|)
    ensures Line(rows, "averages").dreb == PerGame(Sum(rows, "dr"), |rows|)
    ensures Line(rows, "averages").ast == PerGame(Sum(rows, "ass"), |rows|)
    ensures Line(rows, "averages").stl == PerGame(Sum(rows, "st"), |rows|)
    ensures Line(rows, "averages").blk == PerGame(Sum(rows, "bs"), |rows|)
    ensures Line(rows, "averages").to == PerGame(Sum(rows, "to"), |rows|)
  {
    TallyIsColumnSums(rows);
  }

  /** The two modes agree on games played and on every shooting percentage,
      and each average times the games played is the matching total. */
  lemma ModesAgree(t: Totals, other: string)
    requires t.gp > 0 && other != "averages"
    ensures LineOf(t, "averages").gp == LineOf(t, other).gp
    ensures LineOf(t, "averages").fgPct == LineOf(t, other).fgPct
    ensures LineOf(t, "averages").tpPct == LineOf(t, other).tpPct
    ensures LineOf(t, "averages").ftPct == LineOf(t, other).ftPct
    ensures LineOf(t, "averages").pts * t.gp as real == LineOf(t, other).pts
    ensures LineOf(t, "averages").reb * t.gp as real == LineOf(t, other).reb
    ensures LineOf(t, "averages").ast * t.gp as real == LineOf(t, other).ast
  {
  }

  /** A player whose slug does not occur again later in the list. */
  predicate LastWithSlug(players: seq<PlayerRows>, j: int)
    requires 0 <= j < |players|
  {
    forall k :: j < k < |players| ==> players[k].slug != players[j].slug
  }

  /** A player with an entry after which no player with the same slug has one:
      the player whose entry the object ends up holding. */
  predicate LastEntryWithSlug<V>(players: seq<PlayerRows>, entry: PlayerRows -> Option<V>, j: int)
    requires 0 <= j < |players|
  {
    && entry(players[j]).Some?
    && forall k :: j < k < |players| && players[k].slug == players[j].slug ==> entry(players[k]).None?
  }

  /** `players.forEach(p => { ... result[p.slug] = entry(p) })`, where a
      `None` entry stands for the early `return` that adds nothing. */
  function ByPlayer<V>(players: seq<PlayerRows>, entry: PlayerRows -> Option<V>): (r: Object<V>)
    ensures UniqueKeys(r)
  {
    if |players| == 0 then []
    else
      var prev := ByPlayer(players[..|players| - 1], entry);
      var p := players[|players| - 1];
      match entry(p)
      case None => prev
      case Some(v) => Put(prev, p.slug, v)
  }

  /** The keys are the slugs of the players that produced an entry, each
      once (`UniqueKeys`). */
  lemma {:induction false} ByPlayerKeys<V>(players: seq<PlayerRows>, entry: PlayerRows -> Option<V>)
    ensures forall k :: k in Keys(ByPlayer(players, entry)) <==> HasEntry(players, entry, k)
  {
    if |players| > 0 {
      var init := players[..|players| - 1];
      ByPlayerKeys(init, entry);
      forall k ensures HasEntry(players, entry, k) <==>
        HasEntry(init, entry, k) || (players[|players| - 1].slug == k && entry(players[|players| - 1]).Some?)
      {
        HasEntryStep(players, entry, k);
      }
    }
  }

  /** Some player with slug `k` produced an entry. */
  predicate HasEntry<V>(players: seq<PlayerRows>, entry: PlayerRows -> Option<V>, k: string) {
    exists j :: 0 <= j < |players| && players[j].slug == k && entry(players[j]).Some?
  }

  lemma HasEntryStep<V>(players: seq<PlayerRows>, entry: PlayerRows -> Option<V>, k: string)
    requires |players| > 0
    ensures var last := players[|players| - 1];
      HasEntry(players, entry, k) <==>
      HasEntry(players[..|players| - 1], entry, k) || (last.slug == k && entry(last).Some?)
  {
    var init := players[..|players| - 1];
    if HasEntry(players, entry, k) {
      var j :| 0 <= j < |players| && players[j].slug == k && entry(players[j]).Some?;
      if j < |init| {
        assert init[j] == players[j];
      }
    }
    if HasEntry(init, entry, k) {
      var j :| 0 <= j < |init| && init[j].slug == k && entry(init[j]).Some?;
      assert players[j] == init[j];
    }
  }

  /** The last player of a slug that produced an entry maps to that entry: a
      later player with the same slug replaces it only by producing an entry
      of its own, and one that produces none leaves it in place. */
  lemma {:induction false} ByPlayerValues<V>(players: seq<PlayerRows>, entry: PlayerRows -> Option<V>)
    ensures forall j :: 0 <= j < |players| && LastEntryWithSlug(players, entry, j) ==>
      Lookup(ByPlayer(players, entry), players[j].slug) == entry(players[j])
  {
    if |players| > 0 {
      var init := players[..|players| - 1];
      ByPlayerValues(init, entry);
      forall j | 0 <= j < |players| && LastEntryWithSlug(players, entry, j)
        ensures Lookup(ByPlayer(players, entry), players[j].slug) == entry(players[j])
      {
        if j < |init| {
          assert init[j] == players[j];
          assert LastEntryWithSlug(init, entry, j) by {
            forall k | j < k < |init| && init[k].slug == init[j].slug ensures entry(init[k]).None? {
              assert init[k] == players[k];
            }
          }
        }
        ByPlayerValueAt(players, entry, j);
      }
    }
  }

  lemma ByPlayerValueAt<V>(players: seq<PlayerRows>, entry: PlayerRows -> Option<V>, j: nat)
    requires j < |players| && LastEntryWithSlug(players, entry, j)
    requires j < |players| - 1 ==>
      Lookup(ByPlayer(players[..|players| - 1], entry), players[j].slug) == entry(players[j])
    ensures Lookup(ByPlayer(players, entry), players[j].slug) == entry(players[j])
  {
    ByPlayerStep(players, entry, players[j].slug);
    if j < |players| - 1 {
      var last := players[|players| - 1];
      assert last.slug != players[j].slug || entry(last).None?;
    }
  }

  lemma ByPlayerStep<V>(players: seq<PlayerRows>, entry: PlayerRows -> Option<V>, k: string)
    requires |players| > 0
    ensures var last := players[|players| - 1];
      k != last.slug || entry(last).None? ==>
        Lookup(ByPlayer(players, entry), k) == Lookup(ByPlayer(players[..|players| - 1], entry), k)
    ensures var last := players[|players| - 1];
      k == last.slug && entry(last).Some? ==> Lookup(ByPlayer(players, entry), k) == entry(last)
  {
  }

  /** The entry `computeLeaderStats` makes for one player: none when the
      considered rows are empty. */
  function LeaderEntry(mode: string): PlayerRows -> Option<LeaderLine> {
    (p: PlayerRows) => if |p.Considered()| == 0 then None else Some(Line(p.Considered(), mode))
  }

  /** `computeLeaderStats(playerStats, type)`: exactly the players with at
      least one considered row get an entry, keyed by slug, holding the line
      computed from `p.filteredRows || p.rows`. */
  function LeaderStats(players: seq<PlayerRows>, mode: string): (r: Object<LeaderLine>)
    ensures UniqueKeys(r)
    ensures forall k :: k in Keys(r) <==>
      exists j :: 0 <= j < |players| && players[j].slug == k && |players[j].Considered()| > 0
    ensures forall j ::
      (&& 0 <= j < |players| && |players[j].Considered()| > 0
       && forall k :: j < k < |players| && players[k].slug == players[j].slug ==> |players[k].Considered()| == 0)
      ==> Lookup(r, players[j].slug) == Some(Line(players[j].Considered(), mode))
  {
    ByPlayerKeys(players, LeaderEntry(mode));
    ByPlayerValues(players, LeaderEntry(mode));
    ByPlayer(players, LeaderEntry(mode))
  }

  /** A later player with the same slug but no considered rows does not
      replace an earlier player's line. */
  lemma EmptyDuplicateKeepsLine(a: PlayerRows, b: PlayerRows, mode: string)
    requires a.slug == b.slug && |a.Considered()| > 0 && |b.Considered()| == 0
    ensures Lookup(LeaderStats([a, b], mode), a.slug) == Some(Line(a.Considered(), mode))
  {
    var players := [a, b];
    assert players[0] == a && players[1] == b;
  }

  /** `total` in `computeLeaders` (js/team.js); `fg_pct` and `tp_pct` start
      at 0 and nothing updates them. */
  datatype TeamLine = TeamLine(
    gp: nat, pts: nat, reb: nat, oreb: nat, dreb: nat, ast: nat, stl: nat, blk: nat, to: nat,
    fgPct: nat, tpPct: nat)

  function TeamLineOf(rows: seq<Row>): (l: TeamLine)
    ensures l.gp == |rows|
    ensures l.pts == Sum(rows, "pts") && l.reb == Sum(rows, "totrb")
    ensures l.oreb == Sum(rows, "or") && l.dreb == Sum(rows, "dr")
    ensures l.ast == Sum(rows, "ass") && l.stl == Sum(rows, "st")
    ensures l.blk == Sum(rows, "bs") && l.to == Sum(rows, "to")
    ensures l.fgPct == 0 && l.tpPct == 0
  {
    var t := Tally(rows);
    TallyIsColumnSums(rows);
    TeamLine(t.gp, t.pts, t.reb, t.oreb, t.dreb, t.ast, t.stl, t.blk, t.to, 0, 0)
  }

  function TeamEntry(p: PlayerRows): Option<TeamLine> {
    Some(TeamLineOf(p.rows))
  }

  /** `computeLeaders(playerStats)` (js/team.js): every player gets an entry,
      also one without rows (`gp` 0), computed from `p.rows` (the team page
      does not filter). */
  function TeamLeaders(players: seq<PlayerRows>): (r: Object<TeamLine>)
    ensures UniqueKeys(r)
    ensures forall k :: k in Keys(r) <==> exists j :: 0 <= j < |players| && players[j].slug == k
    ensures forall j :: 0 <= j < |players| && LastWithSlug(players, j) ==>
      Lookup(r, players[j].slug) == Some(TeamLineOf(players[j].rows))
  {
    ByPlayerKeys(players, TeamEntry);
    ByPlayerValues(players, TeamEntry);
    ByPlayer(players, TeamEntry)
  }

  /** What `computeAverages` (js/players.js) returns for a non-empty list. */
  datatype Averages = Averages(
    gp: nat, pts: real, reb: real, oreb: real, dreb: real, ast: real, stl: real, blk: real, to: real,
    fg: real, tp: real, ft: real)

  /** `if (r[made] && r[att])`: the row contributes a shooting pair only when
      both cells are non-empty; `"0"` is non-empty. */
  predicate Contributes(r: Row, made: string, att: string) {
    Truthy(r, made) && Truthy(r, att)
  }

  /** The sums of the pushed pairs, `[Σ made, Σ att]`. */
  function PairSums(rows: seq<Row>, made: string, att: string): (nat, nat) {
    if |rows| == 0 then (0, 0)
    else
      var prev := PairSums(rows[..|rows| - 1], made, att);
      var r := rows[|rows| - 1];
      if Contributes(r, made, att) then (prev.0 + Count(r, made), prev.1 + Count(r, att)) else prev
  }

  /** When every row has both cells, the pairs are the whole columns. */
  lemma {:induction false} PairSumsOfCompleteRows(rows: seq<Row>, made: string, att: string)
    requires forall i :: 0 <= i < |rows| ==> Contributes(rows[i], made, att)
    ensures PairSums(rows, made, att).0 == Sum(rows, made)
    ensures PairSums(rows, made, att).1 == Sum(rows, att)
  {
    if |rows| > 0 {
      var init := rows[..|rows| - 1];
      assert forall i :: 0 <= i < |init| ==> init[i] == rows[i];
      PairSumsOfCompleteRows(init, made, att);
      PairSumsStep(rows, made, att);
    }
  }

  lemma PairSumsStep(rows: seq<Row>, made: string, att: string)
    requires |rows| > 0 && Contributes(rows[|rows| - 1], made, att)
    ensures PairSums(rows, made, att).0 == PairSums(rows[..|rows| - 1], made, att).0 + Count(rows[|rows| - 1], made)
    ensures PairSums(rows, made, att).1 == PairSums(rows[..|rows| - 1], made, att).1 + Count(rows[|rows| - 1], att)
  {
  }

  /** The local `pct(arr)`. */
  function PooledPct(sums: (nat, nat)): real {
    Pct(sums.0, sums.1)
  }

  /** `computeAverages(rows)`: `null` for no rows; otherwise `gp` is the row
      count, each counting stat is its column sum over `gp`, and each
      shooting percentage pools only the rows that have both cells. */
  function ComputeAverages(rows: seq<Row>): (r: Option<Averages>)
    ensures r.None? <==> |rows| == 0
    ensures r.Some? ==>
      && r.value.gp == |rows|
      && r.value.pts == PerGame(Sum(rows, "pts"), |rows|)
      && r.value.reb == PerGame(Sum(rows, "totrb"), |rows|)
      && r.value.oreb == PerGame(Sum(rows, "or"), |rows|)
      && r.value.dreb == PerGame(Sum(rows, "dr"), |rows|)
      && r.value.ast == PerGame(Sum(rows, "ass"), |rows|)
      && r.value.stl == PerGame(Sum(rows, "st"), |rows|)
      && r.value.blk == PerGame(Sum(rows, "bs"), |rows|)
      && r.value.to == PerGame(Sum(rows, "to"), |rows|)
      && r.value.fg == Pct(PairSums(rows, "fg", "fga").0, PairSums(rows, "fg", "fga").1)
      && r.value.tp == Pct(PairSums(rows, "3p", "3pa").0, PairSums(rows, "3p", "3pa").1)
      && r.value.ft == Pct(PairSums(rows, "ft", "fta").0, PairSums(rows, "ft", "fta").1)
  {
    if |rows| == 0 then None
    else
      var t := Tally(rows);
      TallyIsColumnSums(rows);
      Some(Averages(t.gp,
        PerGame(t.pts, t.gp), PerGame(t.reb, t.gp), PerGame(t.oreb, t.gp), PerGame(t.dreb, t.gp),
        PerGame(t.ast, t.gp), PerGame(t.stl, t.gp), PerGame(t.blk, t.gp), PerGame(t.to, t.gp),
        PooledPct(PairSums(rows, "fg", "fga")), PooledPct(PairSums(rows, "3p", "3pa")),
        PooledPct(PairSums(rows, "ft", "fta"))))
  }

  /** The player page and the leaders page agree whenever every row carries
      both cells of each shooting pair. */
  lemma AveragesAgreeWithLeaders(rows: seq<Row>)
    requires |rows| > 0
    requires forall i :: 0 <= i < |rows| ==>
      Contributes(rows[i], "fg", "fga") && Contributes(rows[i], "3p", "3pa") && Contributes(rows[i], "ft", "fta")
    ensures ComputeAverages(rows).value.pts == Line(rows, "averages").pts
    ensures ComputeAverages(rows).value.fg == Line(rows, "averages").fgPct
    ensures ComputeAverages(rows).value.tp == Line(rows, "averages").tpPct
    ensures ComputeAverages(rows).value.ft == Line(rows, "averages").ftPct
  {
    PairSumsOfCompleteRows(rows, "fg", "fga");
    PairSumsOfCompleteRows(rows, "3p", "3pa");
    PairSumsOfCompleteRows(rows, "ft", "fta");
  }

  /** ...and can disagree otherwise: a row with made shots but an empty
      attempts cell is left out of the player page's pool but counted by the
      leaders page. */
  lemma AveragesCanDisagreeWithLeaders()
    ensures var rows := [map["fg" := "1", "fga" := "2"], map["fg" := "3", "fga" := ""]];
      && PairSums(rows, "fg", "fga") == (1, 2)
      && Sum(rows, "fg") == 4 && Sum(rows, "fga") == 2
      && ComputeAverages(rows).value.fg != Line(rows, "averages").fgPct
  {
    var r0: Row := map["fg" := "1", "fga" := "2"];
    var r1: Row := map["fg" := "3", "fga" := ""];
    var rows := [r0, r1];
    ExampleCounts(r0, r1);
    assert rows[..1] == [r0] && [r0][..0] == [];
    assert Contributes(r0, "fg", "fga") && !Contributes(r1, "fg", "fga");
    assert PairSums([r0], "fg", "fga") == (1, 2);
    assert PairSums(rows, "fg", "fga") == (1, 2);
    assert Sum([r0], "fg") == 1 && Sum([r0], "fga") == 2;
    assert Sum(rows, "fg") == 4 && Sum(rows, "fga") == 2;
    PctExample();
  }

  lemma ExampleCounts(r0: Row, r1: Row)
    requires r0 == map["fg" := "1", "fga" := "2"] && r1 == map["fg" := "3", "fga" := ""]
    ensures Count(r0, "fg") == 1 && Count(r0, "fga") == 2
    ensures Count(r1, "fg") == 3 && Count(r1, "fga") == 0
  {
    DigitCount(r0, "fg", 1);
    DigitCount(r0, "fga", 2);
    DigitCount(r1, "fg", 3);
  }

  /** A one-digit cell counts its digit. */
  lemma DigitCount(r: Row, k: string, d: nat)
    requires d < 10 && k in r && r[k] == [Strings.DigitChar(d)]
    ensures Count(r, k) == d
  {
    var s := r[k];
    assert !Strings.IsSpace(s[0]);
    Strings.TrimIdentity(s);
    assert s[..0] == [];
    assert Strings.AllDigits(s);
    assert Strings.DigitsValue(s) == d;
    assert JsNumber(s) == Some(d);
  }

  lemma PctExample()
    ensures Pct(1, 2) == 50.0 && Pct(4, 2) == 200.0
  {
  }
}
