/** The arithmetic inside the home, team and player views of js/main.js:
    per-player tallies over the JSON stats rows, the team cards and leader
    tables, the W/L/T column, and the career line of a player page. */
module Home {
  import opened Wrappers
  import opened Strings
  import opened JsObject
  import opened Sorting
  import opened Slugs

  /** One JSON stats row. A missing `pts`, `reb` or `ast` reads as 0
      (`r.pts || 0`); `game_id` may be missing. */
  datatype StatLine = StatLine(
    team: string, jersey: nat, name: string, gameId: Option<string>,
    pts: nat, reb: nat, ast: nat)

  datatype Stat = Pts | Reb | Ast

  function Value(l: StatLine, s: Stat): nat {
    match s
    case Pts => l.pts
    case Reb => l.reb
    case Ast => l.ast
  }

  /** The column sum of one stat. */
  function SumStat(lines: seq<StatLine>, s: Stat): nat {
    if |lines| == 0 then 0
    else SumStat(lines[..|lines| - 1], s) + Value(lines[|lines| - 1], s)
  }

  lemma SumStatAppend(lines: seq<StatLine>, l: StatLine, s: Stat)
    ensures SumStat(lines + [l], s) == SumStat(lines, s) + Value(l, s)
  {
    assert (lines + [l])[..|lines|] == lines;
  }

  /** The object key `r.jersey + '_' + r.name`. */
  function PlayerKey(jersey: nat, name: string): string {
    NatToString(jersey) + "_" + name
  }

  /** The jersey digits end at the first `_`, so a key names one player. */
  lemma PlayerKeyInjective(j1: nat, n1: string, j2: nat, n2: string)
    requires PlayerKey(j1, n1) == PlayerKey(j2, n2)
    ensures j1 == j2 && n1 == n2
  {
    var a1, a2 := NatToString(j1), NatToString(j2);
    var k := PlayerKey(j1, n1);
    assert k[|a1|] == '_';
    assert k[|a2|] == '_';
    if |a1| < |a2| {
      assert false;
    } else if |a2| < |a1| {
      assert false;
    } else {
      assert a1 == k[..|a1|] == a2;
      NatToStringInjective(j1, j2);
      assert n1 == k[|a1| + 1..] == n2;
    }
  }

  /** The rows of team `t` whose player key is `k`, in order. */
  function Of(stats: seq<StatLine>, t: string, k: string): (r: seq<StatLine>)
    ensures |r| <= |stats|
  {
    if |stats| == 0 then []
    else
      var l := stats[|stats| - 1];
      Of(stats[..|stats| - 1], t, k) + (if l.team == t && PlayerKey(l.jersey, l.name) == k then [l] else [])
  }

  /** The per-player accumulator: `{ jersey, name, games, pts }` in
      `renderHome`, with `reb` and `ast` as well in `renderTeam`. */
  datatype PlayerTally = PlayerTally(jersey: nat, name: string, games: nat, pts: nat, reb: nat, ast: nat)

  /** What the rows of one player add up to: one game per row and the column
      sums; jersey and name are those of the first row. */
  function Expected(lines: seq<StatLine>): Option<PlayerTally> {
    if |lines| == 0 then None
    else Some(PlayerTally(lines[0].jersey, lines[0].name, |lines|,
      SumStat(lines, Pts), SumStat(lines, Reb), SumStat(lines, Ast)))
  }

  /** One row's step: create the entry with zero counts on first sight, then
      add one game and the row's points, rebounds and assists. */
  function AddLine(tm: Object<PlayerTally>, l: StatLine): (r: Object<PlayerTally>)
    requires UniqueKeys(tm)
    ensures UniqueKeys(r)
    ensures Lookup(r, PlayerKey(l.jersey, l.name)) == Some(Bump(Lookup(tm, PlayerKey(l.jersey, l.name)).GetOr(Fresh(l)), l))
    ensures forall k :: k != PlayerKey(l.jersey, l.name) ==> Lookup(r, k) == Lookup(tm, k)
    ensures var key := PlayerKey(l.jersey, l.name);
      Keys(r) == if key in Keys(tm) then Keys(tm) else Keys(tm) + [key]
  {
    var key := PlayerKey(l.jersey, l.name);
    Put(tm, key, Bump(Lookup(tm, key).GetOr(Fresh(l)), l))
  }

  /** `{ jersey: r.jersey, name: r.name, games: 0, pts: 0, ... }`. */
  function Fresh(l: StatLine): PlayerTally {
    PlayerTally(l.jersey, l.name, 0, 0, 0, 0)
  }

  /** `p.games += 1; p.pts += r.pts || 0; ...`. */
  function Bump(p: PlayerTally, l: StatLine): PlayerTally {
    p.(games := p.games + 1, pts := p.pts + l.pts, reb := p.reb + l.reb, ast := p.ast + l.ast)
  }

  /** One more row of a player adds one game and that row's numbers to the
      expected tally. */
  lemma ExpectedAppend(lines: seq<StatLine>, l: StatLine)
    ensures Expected(lines + [l]) == Some(Bump(Expected(lines).GetOr(Fresh(l)), l))
  {
    SumStatAppend(lines, l, Pts);
    SumStatAppend(lines, l, Reb);
    SumStatAppend(lines, l, Ast);
    if |lines| > 0 {
      assert (lines + [l])[0] == lines[0];
    } else {
      assert lines + [l] == [l];
    }
  }

  predicate HasTeam(stats: seq<StatLine>, t: string) {
    exists i :: 0 <= i < |stats| && stats[i].team == t
  }

  /** The player map of one team: `renderHome`'s inner `Map` for `t`, and
      `renderTeam`'s `players` object over `stats.filter(r => r.team === t)`. */
  function GroupTeam(stats: seq<StatLine>, t: string): (r: Object<PlayerTally>)
    ensures UniqueKeys(r)
    ensures !HasTeam(stats, t) ==> r == []
  {
    if |stats| == 0 then []
    else
      var init := stats[..|stats| - 1];
      var l := stats[|stats| - 1];
      var prev := GroupTeam(init, t);
      HasTeamInit(stats, t);
      if l.team != t then prev else AddLine(prev, l)
  }

  lemma HasTeamInit(stats: seq<StatLine>, t: string)
    requires |stats| > 0
    ensures HasTeam(stats, t) <==> HasTeam(stats[..|stats| - 1], t) || stats[|stats| - 1].team == t
  {
    var init := stats[..|stats| - 1];
    if HasTeam(stats, t) && stats[|stats| - 1].team != t {
      var i :| 0 <= i < |stats| && stats[i].team == t;
      assert init[i].team == t;
    }
    if HasTeam(init, t) {
      var i :| 0 <= i < |init| && init[i].team == t;
      assert stats[i].team == t;
    }
  }

  /** Each key of a team's player map reads exactly the tally of the rows
      carrying that key. */
  lemma {:induction false} GroupTeamReads(stats: seq<StatLine>, t: string, k: string)
    ensures Lookup(GroupTeam(stats, t), k) == Expected(Of(stats, t, k))
  {
    if |stats| > 0 {
      var init := stats[..|stats| - 1];
      var l := stats[|stats| - 1];
      GroupTeamReads(init, t, k);
      var prev := GroupTeam(init, t);
      if l.team == t {
        assert GroupTeam(stats, t) == AddLine(prev, l);
        if PlayerKey(l.jersey, l.name) == k {
          assert Of(stats, t, k) == Of(init, t, k) + [l];
          ExpectedAppend(Of(init, t, k), l);
        } else {
          assert Of(stats, t, k) == Of(init, t, k);
        }
      } else {
        assert Of(stats, t, k) == Of(init, t, k);
      }
    }
  }

  /** A row of team `t` whose player key is `k`. */
  predicate RowOf(l: StatLine, t: string, k: string) {
    l.team == t && PlayerKey(l.jersey, l.name) == k
  }

  /** The player keys of team `t`'s rows, each once, in the order in which
      each first occurs among the rows. */
  function FirstSeen(stats: seq<StatLine>, t: string): (r: seq<string>)
  {
    if |stats| == 0 then []
    else
      var prev := FirstSeen(stats[..|stats| - 1], t);
      var l := stats[|stats| - 1];
      var k := PlayerKey(l.jersey, l.name);
      if l.team == t && k !in prev then prev + [k] else prev
  }

  /** Some row of team `t` has player key `k`. */
  predicate Occurs(stats: seq<StatLine>, t: string, k: string) {
    exists i :: 0 <= i < |stats| && RowOf(stats[i], t, k)
  }

  /** A row with key `k1` comes before every row with key `k2`. */
  predicate Precedes(stats: seq<StatLine>, t: string, k1: string, k2: string) {
    exists p :: 0 <= p < |stats| && RowOf(stats[p], t, k1) &&
      forall q :: 0 <= q <= p ==> !RowOf(stats[q], t, k2)
  }

  lemma OccursSnoc(stats: seq<StatLine>, t: string, k: string)
    requires |stats| > 0
    ensures Occurs(stats, t, k) <==> Occurs(stats[..|stats| - 1], t, k) || RowOf(stats[|stats| - 1], t, k)
  {
    var init := stats[..|stats| - 1];
    if Occurs(stats, t, k) {
      var i :| 0 <= i < |stats| && RowOf(stats[i], t, k);
      if i < |init| {
        assert init[i] == stats[i];
      }
    }
    if Occurs(init, t, k) {
      var i :| 0 <= i < |init| && RowOf(init[i], t, k);
      assert stats[i] == init[i];
    }
  }

  lemma PrecedesSnoc(stats: seq<StatLine>, t: string, k1: string, k2: string)
    requires |stats| > 0 && Precedes(stats[..|stats| - 1], t, k1, k2)
    ensures Precedes(stats, t, k1, k2)
  {
    var init := stats[..|stats| - 1];
    var p :| 0 <= p < |init| && RowOf(init[p], t, k1) && forall q :: 0 <= q <= p ==> !RowOf(init[q], t, k2);
    assert stats[p] == init[p];
    forall q | 0 <= q <= p ensures !RowOf(stats[q], t, k2) {
      assert stats[q] == init[q];
    }
  }

  /** A key that occurs precedes one that does not. */
  lemma OccursPrecedes(stats: seq<StatLine>, t: string, k1: string, k2: string)
    requires Occurs(stats, t, k1) && !Occurs(stats, t, k2)
    ensures Precedes(stats, t, k1, k2)
  {
    var p :| 0 <= p < |stats| && RowOf(stats[p], t, k1);
    assert forall q :: 0 <= q <= p ==> !RowOf(stats[q], t, k2);
  }

  /** `FirstSeen` lists exactly the keys of the rows of `t`. */
  lemma {:induction false} FirstSeenMembers(stats: seq<StatLine>, t: string)
    ensures forall k :: k in FirstSeen(stats, t) <==> Occurs(stats, t, k)
  {
    if |stats| > 0 {
      FirstSeenMembers(stats[..|stats| - 1], t);
      forall k ensures k in FirstSeen(stats, t) <==> Occurs(stats, t, k) {
        OccursSnoc(stats, t, k);
      }
    }
  }

  /** `FirstSeen` lists each key once. */
  lemma {:induction false} FirstSeenDistinct(stats: seq<StatLine>, t: string)
    ensures forall a, b :: 0 <= a < b < |FirstSeen(stats, t)| ==> FirstSeen(stats, t)[a] != FirstSeen(stats, t)[b]
  {
    if |stats| > 0 {
      FirstSeenDistinct(stats[..|stats| - 1], t);
    }
  }

  /** A key listed earlier occurs in some row before every row of a key
      listed later. */
  lemma {:induction false} FirstSeenOrder(stats: seq<StatLine>, t: string)
    ensures forall a, b :: 0 <= a < b < |FirstSeen(stats, t)| ==>
      Precedes(stats, t, FirstSeen(stats, t)[a], FirstSeen(stats, t)[b])
  {
    if |stats| > 0 {
      var init := stats[..|stats| - 1];
      var prev := FirstSeen(init, t);
      var fs := FirstSeen(stats, t);
      FirstSeenOrder(init, t);
      FirstSeenMembers(init, t);
      assert fs[..|prev|] == prev;
      forall a, b | 0 <= a < b < |fs| ensures Precedes(stats, t, fs[a], fs[b]) {
        assert fs[a] == prev[a];
        assert fs[a] in prev;
        if b < |prev| {
          assert fs[b] == prev[b];
        } else {
          assert fs[b] !in prev;
          OccursPrecedes(init, t, fs[a], fs[b]);
        }
        PrecedesSnoc(stats, t, fs[a], fs[b]);
      }
    }
  }

  /** The key order of a team's player map is the order in which its players
      first appear among the rows. */
  lemma {:induction false} GroupTeamKeys(stats: seq<StatLine>, t: string)
    ensures Keys(GroupTeam(stats, t)) == FirstSeen(stats, t)
  {
    if |stats| > 0 {
      GroupTeamKeys(stats[..|stats| - 1], t);
    }
  }

  /** `renderHome`'s `teams` map after the stats rows. */
  function HomeGroups(stats: seq<StatLine>): (r: Object<Object<PlayerTally>>)
    ensures UniqueKeys(r)
    ensures forall t :: Lookup(r, t).Some? ==> UniqueKeys(Lookup(r, t).value)
  {
    if |stats| == 0 then []
    else
      var init := stats[..|stats| - 1];
      var l := stats[|stats| - 1];
      var prev := HomeGroups(init);
      var tm := Lookup(prev, l.team).GetOr([]);
      Put(prev, l.team, AddLine(tm, l))
  }

  /** The teams of the rows, each once, in the order in which each first
      occurs. */
  function TeamsSeen(stats: seq<StatLine>): (r: seq<string>)
  {
    if |stats| == 0 then []
    else
      var prev := TeamsSeen(stats[..|stats| - 1]);
      var t := stats[|stats| - 1].team;
      if t !in prev then prev + [t] else prev
  }

  /** A row of team `t1` comes before every row of team `t2`. */
  predicate TeamPrecedes(stats: seq<StatLine>, t1: string, t2: string) {
    exists p :: 0 <= p < |stats| && stats[p].team == t1 &&
      forall q :: 0 <= q <= p ==> stats[q].team != t2
  }

  lemma TeamPrecedesSnoc(stats: seq<StatLine>, t1: string, t2: string)
    requires |stats| > 0 && TeamPrecedes(stats[..|stats| - 1], t1, t2)
    ensures TeamPrecedes(stats, t1, t2)
  {
    var init := stats[..|stats| - 1];
    var p :| 0 <= p < |init| && init[p].team == t1 && forall q :: 0 <= q <= p ==> init[q].team != t2;
    assert stats[p] == init[p];
    forall q | 0 <= q <= p ensures stats[q].team != t2 {
      assert stats[q] == init[q];
    }
  }

  /** A team with a row precedes a team without one. */
  lemma TeamPresentPrecedes(stats: seq<StatLine>, t1: string, t2: string)
    requires HasTeam(stats, t1) && !HasTeam(stats, t2)
    ensures TeamPrecedes(stats, t1, t2)
  {
    var p :| 0 <= p < |stats| && stats[p].team == t1;
    assert forall q :: 0 <= q <= p ==> stats[q].team != t2;
  }

  /** `TeamsSeen` lists exactly the teams some row names. */
  lemma {:induction false} TeamsSeenMembers(stats: seq<StatLine>)
    ensures forall t :: t in TeamsSeen(stats) <==> HasTeam(stats, t)
  {
    if |stats| > 0 {
      TeamsSeenMembers(stats[..|stats| - 1]);
      forall t ensures t in TeamsSeen(stats) <==> HasTeam(stats, t) {
        HasTeamInit(stats, t);
      }
    }
  }

  /** A team listed earlier has a row before every row of a team listed
      later. */
  lemma {:induction false} TeamsSeenOrder(stats: seq<StatLine>)
    ensures forall a, b :: 0 <= a < b < |TeamsSeen(stats)| ==>
      TeamPrecedes(stats, TeamsSeen(stats)[a], TeamsSeen(stats)[b])
  {
    if |stats| > 0 {
      var init := stats[..|stats| - 1];
      var prev := TeamsSeen(init);
      var ts := TeamsSeen(stats);
      TeamsSeenOrder(init);
      TeamsSeenMembers(init);
      assert ts[..|prev|] == prev;
      forall a, b | 0 <= a < b < |ts| ensures TeamPrecedes(stats, ts[a], ts[b]) {
        assert ts[a] == prev[a];
        assert ts[a] in prev;
        if b < |prev| {
          assert ts[b] == prev[b];
        } else {
          assert ts[b] !in prev;
          TeamPresentPrecedes(init, ts[a], ts[b]);
        }
        TeamPrecedesSnoc(stats, ts[a], ts[b]);
      }
    }
  }

  /** The team order of the home page's map is the order in which the teams
      first appear among the rows. */
  lemma {:induction false} HomeGroupsKeys(stats: seq<StatLine>)
    ensures Keys(HomeGroups(stats)) == TeamsSeen(stats)
  {
    if |stats| > 0 {
      HomeGroupsKeys(stats[..|stats| - 1]);
    }
  }

  /** A team is present exactly when some row names it, and its players are
      its `GroupTeam`. */
  lemma {:induction false} HomeGroupsReads(stats: seq<StatLine>, t: string)
    ensures Lookup(HomeGroups(stats), t) == (if HasTeam(stats, t) then Some(GroupTeam(stats, t)) else None)
  {
    if |stats| > 0 {
      var init := stats[..|stats| - 1];
      var l := stats[|stats| - 1];
      HomeGroupsReads(init, t);
      HomeGroupsReads(init, l.team);
      HasTeamInit(stats, t);
      HasTeamInit(stats, l.team);
      var tm := Lookup(HomeGroups(init), l.team).GetOr([]);
      assert tm == GroupTeam(init, l.team);
      assert GroupTeam(stats, l.team) == AddLine(tm, l);
    }
  }

  /** One entry of the games index. Scores are numbers. */
  datatype Game = Game(gameId: string, date: string, homeTeam: string, awayTeam: string, homeScore: int, awayScore: int)

  /** A team the games index names (`if (g.home_team)`: the empty name does not count). */
  predicate InGames(games: seq<Game>, t: string) {
    t != "" && exists j :: 0 <= j < |games| && (games[j].homeTeam == t || games[j].awayTeam == t)
  }

  /** `teams.set(t, teams.get(t) || new Map())` for a non-empty team name:
      a known team keeps its players and its place; a new one is appended
      with no players. */
  function AddTeam(teams: Object<Object<PlayerTally>>, t: string): (r: Object<Object<PlayerTally>>)
    requires UniqueKeys(teams)
    ensures UniqueKeys(r)
    ensures forall u :: Lookup(r, u) == (if u == t && t != "" && Lookup(teams, t).None? then Some([]) else Lookup(teams, u))
    ensures |Keys(r)| >= |Keys(teams)| && Keys(r)[..|Keys(teams)|] == Keys(teams)
  {
    if t == "" then teams
    else
      var r := Put(teams, t, Lookup(teams, t).GetOr([]));
      assert (Keys(teams) + [t])[..|Keys(teams)|] == Keys(teams);
      r
  }

  /** The games-index pass of `renderHome`: the teams already present keep
      their place. */
  function AddGameTeams(teams: Object<Object<PlayerTally>>, games: seq<Game>): (r: Object<Object<PlayerTally>>)
    requires UniqueKeys(teams)
    ensures UniqueKeys(r)
    ensures |Keys(r)| >= |Keys(teams)| && Keys(r)[..|Keys(teams)|] == Keys(teams)
  {
    if |games| == 0 then teams
    else
      var g := games[|games| - 1];
      var prev := AddGameTeams(teams, games[..|games| - 1]);
      var r := AddTeam(AddTeam(prev, g.homeTeam), g.awayTeam);
      assert Keys(r)[..|Keys(teams)|] == Keys(teams) by {
        assert Keys(r)[..|Keys(prev)|][..|Keys(teams)|] == Keys(r)[..|Keys(teams)|];
      }
      r
  }

  lemma InGamesInit(games: seq<Game>, t: string)
    requires |games| > 0
    ensures InGames(games, t) <==> (InGames(games[..|games| - 1], t)
      || (t != "" && (t == games[|games| - 1].homeTeam || t == games[|games| - 1].awayTeam)))
  {
    var init := games[..|games| - 1];
    if InGames(games, t) && !InGames(init, t) {
      var j :| 0 <= j < |games| && (games[j].homeTeam == t || games[j].awayTeam == t);
    }
    if InGames(init, t) {
      var j :| 0 <= j < |init| && (init[j].homeTeam == t || init[j].awayTeam == t);
      assert games[j] == init[j];
    }
  }

  /** Every team of the stats rows keeps its players, and every other team the
      games name is present with an empty roster. */
  lemma {:induction false} AddGameTeamsReads(teams: Object<Object<PlayerTally>>, games: seq<Game>, t: string)
    requires UniqueKeys(teams)
    ensures Lookup(AddGameTeams(teams, games), t) ==
      (if Lookup(teams, t).Some? then Lookup(teams, t) else if InGames(games, t) then Some([]) else None)
  {
    if |games| > 0 {
      var init := games[..|games| - 1];
      AddGameTeamsReads(teams, init, t);
      InGamesInit(games, t);
    }
  }

  /** The `teams` map `renderHome` iterates over: stats teams in order of
      first appearance, then the teams only the games index names. */
  function HomeTeams(stats: seq<StatLine>, games: seq<Game>): (r: Object<Object<PlayerTally>>)
    ensures UniqueKeys(r)
  {
    AddGameTeams(HomeGroups(stats), games)
  }

  /** The home page lists the teams of the rows first, in order of first
      appearance, and the teams only the games index names after them. */
  lemma HomeTeamsKeys(stats: seq<StatLine>, games: seq<Game>)
    ensures |Keys(HomeTeams(stats, games))| >= |TeamsSeen(stats)|
    ensures Keys(HomeTeams(stats, games))[..|TeamsSeen(stats)|] == TeamsSeen(stats)
  {
    HomeGroupsKeys(stats);
  }

  /** What the home page shows for a team name. */
  lemma HomeTeamsReads(stats: seq<StatLine>, games: seq<Game>, t: string)
    ensures Lookup(HomeTeams(stats, games), t) ==
      (if HasTeam(stats, t) then Some(GroupTeam(stats, t)) else if InGames(games, t) then Some([]) else None)
  {
    AddGameTeamsReads(HomeGroups(stats), games, t);
    HomeGroupsReads(stats, t);
  }

  /** `p.games ? p.pts / p.games : 0`, and the same for the other averages. */
  function Avg(total: nat, games: nat): (r: real)
    ensures games == 0 ==> r == 0.0
    ensures games > 0 ==> r * games as real == total as real
    ensures r >= 0.0
  {
    if games > 0 then total as real / games as real else 0.0
  }

  /** `p.ppg`. */
  function Ppg(p: PlayerTally): real {
    Avg(p.pts, p.games)
  }

  function Min(a: nat, b: nat): nat {
    if a <= b then a else b
  }

  /** One team card of the home page: the players by points per game, and
      the first three of them. */
  datatype TeamCard = TeamCard(players: seq<PlayerTally>, top: seq<PlayerTally>)

  /** `players.sort((a, b) => b.ppg - a.ppg)` and `players.slice(0, 3)`: the
      card lists every player once, highest average first, and no player
      outside the top three averages more than one inside it. */
  function HomeCard(tm: Object<PlayerTally>): (r: TeamCard)
    ensures multiset(r.players) == multiset(Values(tm))
    ensures SortedDesc(r.players, Ppg)
    ensures |r.players| == |tm|
    ensures |r.top| == Min(3, |tm|)
    ensures r.top == r.players[..|r.top|]
    ensures forall i, j :: 0 <= i < |r.top| <= j < |r.players| ==> Ppg(r.top[i]) >= Ppg(r.players[j])
  {
    var players := Sort(Values(tm), Ppg);
    var n := Min(3, |players|);
    TeamCard(players, players[..n])
  }

  /** Players with equal averages stay in the order the rows first showed them. */
  lemma HomeCardTies(tm: Object<PlayerTally>, v: real)
    ensures WithKey(HomeCard(tm).players, Ppg, v) == WithKey(Values(tm), Ppg, v)
  {
    SortStable(Values(tm), Ppg, v);
  }

  /** `(a, b) => a.jersey - b.jersey`, as a descending key. */
  function JerseyKey(p: PlayerTally): real {
    -(p.jersey as real)
  }

  /** `Object.values(players).sort((a, b) => a.jersey - b.jersey)`: the
      team's players by ascending jersey number. */
  function TeamRoster(stats: seq<StatLine>, team: string): (r: seq<PlayerTally>)
    ensures multiset(r) == multiset(Values(GroupTeam(stats, team)))
    ensures forall i, j :: 0 <= i < j < |r| ==> r[i].jersey <= r[j].jersey
  {
    var r := Sort(Values(GroupTeam(stats, team)), JerseyKey);
    assert forall i, j :: 0 <= i < j < |r| ==> JerseyKey(r[i]) >= JerseyKey(r[j]);
    r
  }

  /** One row of the team leader table. */
  datatype Leader = Leader(name: string, ptsAvg: real, rebAvg: real, astAvg: real, games: nat, pts: nat)

  function ToLeader(p: PlayerTally): (r: Leader)
    ensures r.name == p.name && r.games == p.games && r.pts == p.pts
    ensures p.games > 0 ==> r.ptsAvg * p.games as real == p.pts as real
    ensures p.games > 0 ==> r.rebAvg * p.games as real == p.reb as real
    ensures p.games > 0 ==> r.astAvg * p.games as real == p.ast as real
    ensures p.games == 0 ==> r.ptsAvg == 0.0 && r.rebAvg == 0.0 && r.astAvg == 0.0
  {
    Leader(p.name, Avg(p.pts, p.games), Avg(p.reb, p.games), Avg(p.ast, p.games), p.games, p.pts)
  }

  function LeaderKey(l: Leader): real {
    l.ptsAvg
  }

  function PtsAvgKey(p: PlayerTally): real {
    Avg(p.pts, p.games)
  }

  /** `playerArr.map(...).sort((a, b) => b.pts_avg - a.pts_avg)`. */
  function TeamLeaders(stats: seq<StatLine>, team: string): (r: seq<Leader>)
    ensures |r| == |GroupTeam(stats, team)|
    ensures multiset(r) == multiset(MapSeq(TeamRoster(stats, team), ToLeader))
    ensures SortedDesc(r, LeaderKey)
  {
    Sort(MapSeq(TeamRoster(stats, team), ToLeader), LeaderKey)
  }

  /** The leader table is the roster ranked by points per game, each player
      then turned into a leader row. */
  lemma TeamLeadersRanked(stats: seq<StatLine>, team: string)
    ensures TeamLeaders(stats, team) == MapSeq(Sort(TeamRoster(stats, team), PtsAvgKey), ToLeader)
  {
    SortMap(TeamRoster(stats, team), ToLeader, PtsAvgKey, LeaderKey);
  }

  /** The leader table is the roster ranked by points per game, and players
      tied on points per game keep the roster's ascending jersey order. */
  lemma TeamLeadersTieOrder(stats: seq<StatLine>, team: string, i: nat, j: nat)
    requires i < j < |TeamLeaders(stats, team)|
    ensures var ranked := Sort(TeamRoster(stats, team), PtsAvgKey);
      && TeamLeaders(stats, team) == MapSeq(ranked, ToLeader)
      && (PtsAvgKey(ranked[i]) == PtsAvgKey(ranked[j]) ==> ranked[i].jersey <= ranked[j].jersey)
  {
    var roster := TeamRoster(stats, team);
    var ranked := Sort(roster, PtsAvgKey);
    TeamLeadersRanked(stats, team);
    if PtsAvgKey(ranked[i]) == PtsAvgKey(ranked[j]) {
      assert SortedDesc(roster, JerseyKey);
      SortTiesKeepOrder(roster, PtsAvgKey, JerseyKey, i, j);
    }
  }

  datatype Outcome = Win | Loss | Tie

  /** The `res` column of the team's game list: our score is the home score
      when the team is at home, the away score otherwise. */
  function Result(g: Game, team: string): (r: Outcome)
    ensures g.homeTeam == team ==>
      && (r == Win <==> g.homeScore > g.awayScore)
      && (r == Tie <==> g.homeScore == g.awayScore)
    ensures g.homeTeam != team ==>
      && (r == Win <==> g.awayScore > g.homeScore)
      && (r == Tie <==> g.homeScore == g.awayScore)
  {
    var isHome := g.homeTeam == team;
    var us := if isHome then g.homeScore else g.awayScore;
    var them := if isHome then g.awayScore else g.homeScore;
    if us > them then Win else if us < them then Loss else Tie
  }

  function Flip(o: Outcome): Outcome {
    match o
    case Win => Loss
    case Loss => Win
    case Tie => Tie
  }

  /** The two teams of a game see opposite results, and a team wins exactly
      when it scored more. */
  lemma ResultMirror(g: Game)
    requires g.homeTeam != g.awayTeam
    ensures Result(g, g.homeTeam) == Flip(Result(g, g.awayTeam))
    ensures Result(g, g.homeTeam) == Win <==> g.homeScore > g.awayScore
    ensures Result(g, g.awayTeam) == Win <==> g.awayScore > g.homeScore
  {
  }

  /** `xs.filter(keep)`: the elements that pass, in order, repeats included. */
  function Select<T(!new)>(xs: seq<T>, keep: T -> bool): (r: seq<T>)
    ensures |r| <= |xs|
  {
    if |xs| == 0 then []
    else
      var rest := Select(xs[1..], keep);
      if keep(xs[0]) then [xs[0]] + rest else rest
  }

  /** The filter keeps exactly the elements that pass. */
  lemma {:induction false} SelectMembers<T(!new)>(xs: seq<T>, keep: T -> bool)
    ensures forall x :: x in Select(xs, keep) <==> x in xs && keep(x)
  {
    if |xs| > 0 {
      SelectMembers(xs[1..], keep);
      assert xs == [xs[0]] + xs[1..];
    }
  }

  /** The filter keeps order: filtering a concatenation concatenates the
      filtered parts. */
  lemma {:induction false} SelectAppend<T(!new)>(a: seq<T>, b: seq<T>, keep: T -> bool)
    ensures Select(a + b, keep) == Select(a, keep) + Select(b, keep)
  {
    if |a| == 0 {
      assert a + b == b;
    } else {
      var x, t := a[0], a[1..];
      assert a + b == [x] + (t + b);
      assert a == [x] + t;
      SelectCons(x, t + b, keep);
      SelectCons(x, t, keep);
      SelectAppend(t, b, keep);
      if keep(x) {
        calc {
          Select(a + b, keep);
          [x] + Select(t + b, keep);
          [x] + (Select(t, keep) + Select(b, keep));
          ([x] + Select(t, keep)) + Select(b, keep);
          Select(a, keep) + Select(b, keep);
        }
      }
    }
  }

  lemma SelectCons<T(!new)>(x: T, xs: seq<T>, keep: T -> bool)
    ensures Select([x] + xs, keep) == if keep(x) then [x] + Select(xs, keep) else Select(xs, keep)
  {
    assert ([x] + xs)[1..] == xs;
  }

  /** The filter keeps every copy of a passing element and no copy of any
      other. */
  lemma {:induction false} SelectCount<T(!new)>(xs: seq<T>, keep: T -> bool, x: T)
    ensures multiset(Select(xs, keep))[x] == if keep(x) then multiset(xs)[x] else 0
  {
    if |xs| > 0 {
      SelectCount(xs[1..], keep, x);
      assert xs == [xs[0]] + xs[1..];
    }
  }

  /** The first element kept is the first element of `xs` that passes. */
  lemma {:induction false} SelectFirst<T(!new)>(xs: seq<T>, keep: T -> bool)
    requires |Select(xs, keep)| > 0
    ensures exists i ::
      && 0 <= i < |xs| && keep(xs[i]) && Select(xs, keep)[0] == xs[i]
      && forall j :: 0 <= j < i ==> !keep(xs[j])
  {
    if !keep(xs[0]) {
      var tail: seq<T> := xs[1..];
      SelectFirst(tail, keep);
      var i: nat :| i < |tail| && keep(tail[i]) && Select(tail, keep)[0] == tail[i] &&
        (forall j :: 0 <= j < i ==> !keep(tail[j]));
      assert xs[i + 1] == tail[i];
      forall j | 0 <= j < i + 1 ensures !keep(xs[j]) {
        if j > 0 {
          assert xs[j] == tail[j - 1];
        }
      }
    }
  }

  /** Whether game `g` involves `team`. */
  function PlaysIn(team: string): Game -> bool {
    (g: Game) => g.homeTeam == team || g.awayTeam == team
  }

  /** `games.filter(g => g.home_team === team || g.away_team === team)`. */
  function TeamGames(games: seq<Game>, team: string): (r: seq<Game>)
    ensures |r| <= |games|
    ensures forall g :: g in r <==> g in games && (g.homeTeam == team || g.awayTeam == team)
  {
    SelectMembers(games, PlaysIn(team));
    Select(games, PlaysIn(team))
  }

  /** The game list keeps the index's order and every repeated entry: the
      games of a concatenation are the games of each part, in turn. */
  lemma TeamGamesAppend(a: seq<Game>, b: seq<Game>, team: string)
    ensures TeamGames(a + b, team) == TeamGames(a, team) + TeamGames(b, team)
  {
    SelectAppend(a, b, PlaysIn(team));
  }

  /** A game the team plays appears in its list as often as in the index. */
  lemma TeamGamesCount(games: seq<Game>, team: string, g: Game)
    ensures multiset(TeamGames(games, team))[g] ==
      if g.homeTeam == team || g.awayTeam == team then multiset(games)[g] else 0
  {
    SelectCount(games, PlaysIn(team), g);
  }

  /** The row test of `renderPlayer` as written: a non-empty name whose
      lower-cased, dashed form is the link. */
  predicate MatchesAsWritten(l: StatLine, link: string) {
    l.name != "" && MatchKey(l.name) == link
  }

  /** The corrected row test: a non-empty name whose slug is the link. */
  predicate Matches(l: StatLine, link: string) {
    l.name != "" && Slug(l.name) == link
  }

  function AsWrittenTest(link: string): StatLine -> bool {
    (l: StatLine) => MatchesAsWritten(l, link)
  }

  function SlugTest(link: string): StatLine -> bool {
    (l: StatLine) => Matches(l, link)
  }

  /** `stats.filter(r => r.name && <key of r.name> === slugDecoded)` with the
      key `renderPlayer` uses. */
  function FindRowsAsWritten(stats: seq<StatLine>, link: string): (r: seq<StatLine>)
    ensures forall x :: x in r <==> x in stats && x.name != "" && MatchKey(x.name) == link
  {
    SelectMembers(stats, AsWrittenTest(link));
    Select(stats, AsWrittenTest(link))
  }

  /** The same filter keyed by `slug`, the function that built the link:
      every row is found by the link printed for its own name. */
  function FindRows(stats: seq<StatLine>, link: string): (r: seq<StatLine>)
    ensures forall x :: x in r <==> x in stats && x.name != "" && Slug(x.name) == link
  {
    SelectMembers(stats, SlugTest(link));
    Select(stats, SlugTest(link))
  }

  /** Both lookups keep the rows' order and every repeated row. */
  lemma FindRowsAppend(a: seq<StatLine>, b: seq<StatLine>, link: string)
    ensures FindRowsAsWritten(a + b, link) == FindRowsAsWritten(a, link) + FindRowsAsWritten(b, link)
    ensures FindRows(a + b, link) == FindRows(a, link) + FindRows(b, link)
  {
    SelectAppend(a, b, AsWrittenTest(link));
    SelectAppend(a, b, SlugTest(link));
  }

  /** A matching row is found as often as it occurs; any other row never. */
  lemma FindRowsCount(stats: seq<StatLine>, link: string, l: StatLine)
    ensures multiset(FindRowsAsWritten(stats, link))[l] == if MatchesAsWritten(l, link) then multiset(stats)[l] else 0
    ensures multiset(FindRows(stats, link))[l] == if Matches(l, link) then multiset(stats)[l] else 0
  {
    SelectCount(stats, AsWrittenTest(link), l);
    SelectCount(stats, SlugTest(link), l);
  }

  lemma FindOneAsWritten(l: StatLine, link: string)
    ensures FindRowsAsWritten([l], link) == if l.name != "" && MatchKey(l.name) == link then [l] else []
  {
    assert [l][1..] == [];
  }

  lemma FindOne(l: StatLine, link: string)
    ensures FindRows([l], link) == if l.name != "" && Slug(l.name) == link then [l] else []
  {
    assert [l][1..] == [];
  }

  lemma SlugOfApostropheName()
    ensures Slug("O'Brien") == "obrien"
  {
    ApostropheNameHasNoSpace();
    SlugOfSpaceFree("O'Brien");
    LowerOfApostropheName();
    KeepOfApostropheName();
  }

  lemma ApostropheNameHasNoSpace()
    ensures NoSpace("O'Brien") && NoSpace("o'brien")
  {
  }

  lemma LowerOfApostropheName()
    ensures Lower("O'Brien") == "o'brien"
  {
  }

  lemma KeepOfApostropheName()
    ensures Keep("o'brien") == "obrien"
  {
    KeepAllSlugChars("brien");
    assert Keep("'brien") == "brien" by {
      assert "'brien"[1..] == "brien";
    }
    assert "o'brien"[1..] == "'brien";
  }

  lemma MatchKeyOfApostropheName()
    ensures MatchKey("O'Brien") == "o'brien"
  {
    LowerOfApostropheName();
    ApostropheNameHasNoSpace();
    DashesNoSpace("o'brien");
  }

  /** A player named `O'Brien` is linked as `obrien`, and the lookup of
      `renderPlayer` as written finds none of their rows. */
  lemma ApostropheNameNotFound(l: StatLine)
    requires l.name == "O'Brien"
    ensures Slug(l.name) == "obrien"
    ensures FindRowsAsWritten([l], Slug(l.name)) == []
    ensures FindRows([l], Slug(l.name)) == [l]
    ensures PlayerCareer([l], Slug(l.name)).None?
    ensures PlayerCareerCorrected([l], Slug(l.name)).Some?
  {
    SlugOfApostropheName();
    MatchKeyOfApostropheName();
    FindOneAsWritten(l, "obrien");
    FindOne(l, "obrien");
    assert [l][0] == l;
  }

  lemma SlugOfTrailingSpace()
    ensures Slug("Kyle ") == "kyle"
  {
    TrailingSpaceFacts();
    SlugIgnoresOuterSpace("", "Kyle", " ");
    SlugOfSpaceFree("Kyle");
    KeepAllSlugChars("kyle");
  }

  lemma TrailingSpaceFacts()
    ensures "" + "Kyle" + " " == "Kyle "
    ensures IsBlank("") && IsBlank(" ")
    ensures NoSpace("Kyle") && NoSpace("kyle")
    ensures Lower("Kyle") == "kyle"
    ensures forall i :: 0 <= i < |"kyle"| ==> IsSlugChar("kyle"[i])
    ensures Lower("Kyle ") == "kyle" + " "
    ensures !IsSpace("kyle"[3])
  {
  }

  lemma MatchKeyOfTrailingSpaceName()
    ensures MatchKey("Kyle ") == "kyle-"
  {
    FirstNameFacts();
    assert "Kyle" + " " == "Kyle ";
    MatchKeyOfTrailingSpace("Kyle");
    assert "kyle" + "-" == "kyle-";
  }

  lemma FirstNameFacts()
    ensures NoSpace("Kyle") && Lower("Kyle") == "kyle"
  {
  }

  /** A name typed with a trailing space is linked without it, and the lookup
      as written looks for a trailing dash instead. */
  lemma TrailingSpaceNotFound(l: StatLine)
    requires l.name == "Kyle "
    ensures Slug(l.name) == "kyle"
    ensures FindRowsAsWritten([l], Slug(l.name)) == []
    ensures FindRows([l], Slug(l.name)) == [l]
    ensures PlayerCareer([l], Slug(l.name)).None?
    ensures PlayerCareerCorrected([l], Slug(l.name)).Some?
  {
    SlugOfTrailingSpace();
    MatchKeyOfTrailingSpaceName();
    FindOneAsWritten(l, "kyle");
    FindOne(l, "kyle");
    assert [l][0] == l;
  }

  /** The distinct values of `game_id` (a missing one counts once). */
  function GameIds(rows: seq<StatLine>): set<Option<string>> {
    set i | 0 <= i < |rows| :: rows[i].gameId
  }

  predicate DistinctGameIds(rows: seq<StatLine>) {
    forall i, j :: 0 <= i < j < |rows| ==> rows[i].gameId != rows[j].gameId
  }

  lemma GameIdsSnoc(rows: seq<StatLine>)
    requires |rows| > 0
    ensures GameIds(rows) == GameIds(rows[..|rows| - 1]) + {rows[|rows| - 1].gameId}
  {
    var init := rows[..|rows| - 1];
    forall x | x in GameIds(rows) ensures x in GameIds(init) + {rows[|rows| - 1].gameId} {
      var i :| 0 <= i < |rows| && rows[i].gameId == x;
      if i < |init| {
        assert init[i] == rows[i];
      }
    }
    forall x | x in GameIds(init) ensures x in GameIds(rows) {
      var i :| 0 <= i < |init| && init[i].gameId == x;
      assert rows[i] == init[i];
    }
  }

  lemma DistinctSnoc(rows: seq<StatLine>)
    requires |rows| > 0
    ensures DistinctGameIds(rows) <==>
      DistinctGameIds(rows[..|rows| - 1]) && rows[|rows| - 1].gameId !in GameIds(rows[..|rows| - 1])
  {
    var init := rows[..|rows| - 1];
    var last := rows[|rows| - 1];
    if DistinctGameIds(rows) {
      forall i, j | 0 <= i < j < |init| ensures init[i].gameId != init[j].gameId {
        assert init[i] == rows[i] && init[j] == rows[j];
      }
      forall x | x in GameIds(init) ensures x != last.gameId {
        var i :| 0 <= i < |init| && init[i].gameId == x;
        assert rows[i] == init[i];
      }
    }
    if DistinctGameIds(init) && last.gameId !in GameIds(init) {
      forall i, j | 0 <= i < j < |rows| ensures rows[i].gameId != rows[j].gameId {
        if j < |init| {
          assert init[i] == rows[i] && init[j] == rows[j];
        } else {
          assert init[i].gameId in GameIds(init);
        }
      }
    }
  }

  /** `new Set(rows.map(r => r.game_id)).size` is at most the row count, at
      least one for a non-empty list, and equal to the row count exactly when
      no game repeats. */
  lemma {:induction false} GameIdsSize(rows: seq<StatLine>)
    ensures |GameIds(rows)| <= |rows|
    ensures |rows| > 0 ==> |GameIds(rows)| >= 1
    ensures |GameIds(rows)| == |rows| <==> DistinctGameIds(rows)
  {
    if |rows| > 0 {
      var init := rows[..|rows| - 1];
      GameIdsSize(init);
      GameIdsSnoc(rows);
      DistinctSnoc(rows);
    }
  }

  /** The career line of the player page. */
  datatype Career = Career(name: string, gp: nat, pts: nat, reb: nat, ast: nat, ppg: real)

  /** The career line over a player's rows: the name of the first row, the
      number of distinct games, the summed points, rebounds and assists, and
      points per distinct game. */
  function Summarise(rows: seq<StatLine>): (r: Career)
    requires |rows| > 0
    ensures r.name == rows[0].name
    ensures r.gp == |GameIds(rows)|
    ensures 1 <= r.gp <= |rows|
    ensures r.gp == |rows| <==> DistinctGameIds(rows)
    ensures r.pts == SumStat(rows, Pts) && r.reb == SumStat(rows, Reb) && r.ast == SumStat(rows, Ast)
    ensures r.ppg * r.gp as real == r.pts as real
    ensures r.ppg == Avg(r.pts, r.gp)
  {
    GameIdsSize(rows);
    var gp := |GameIds(rows)|;
    var pts := SumStat(rows, Pts);
    Career(rows[0].name, gp, pts, SumStat(rows, Reb), SumStat(rows, Ast), Avg(pts, gp))
  }

  /** `renderPlayer` as written: "not found" when no row passes line 82's
      test; otherwise the career of the passing rows, named after the first
      of them. */
  function PlayerCareer(stats: seq<StatLine>, link: string): (r: Option<Career>)
    ensures r.None? <==> forall i :: 0 <= i < |stats| ==> !MatchesAsWritten(stats[i], link)
    ensures r.Some? ==> r.value.name != "" && MatchKey(r.value.name) == link
    ensures r.Some? ==> exists i ::
      && 0 <= i < |stats| && MatchesAsWritten(stats[i], link) && r.value.name == stats[i].name
      && forall j :: 0 <= j < i ==> !MatchesAsWritten(stats[j], link)
    ensures r.Some? ==>
      r.value.gp == |set i | 0 <= i < |stats| && MatchesAsWritten(stats[i], link) :: stats[i].gameId|
    ensures r.Some? ==> r.value.gp >= 1
    ensures r.Some? ==> && r.value.pts == SumStat(FindRowsAsWritten(stats, link), Pts)
                        && r.value.reb == SumStat(FindRowsAsWritten(stats, link), Reb)
                        && r.value.ast == SumStat(FindRowsAsWritten(stats, link), Ast)
    ensures r.Some? ==> r.value.ppg == Avg(r.value.pts, r.value.gp)
  {
    var rows := FindRowsAsWritten(stats, link);
    if |rows| == 0 then
      FindRowsAsWrittenNone(stats, link);
      None
    else
      FindRowsAsWrittenFirst(stats, link);
      FindRowsAsWrittenIds(stats, link);
      Some(Summarise(rows))
  }

  /** The corrected page: the same career over the rows whose name slugs to
      the link, so every link the site prints finds its player. */
  function PlayerCareerCorrected(stats: seq<StatLine>, link: string): (r: Option<Career>)
    ensures r.None? <==> forall i :: 0 <= i < |stats| ==> !Matches(stats[i], link)
    ensures r.Some? ==> r.value.name != "" && Slug(r.value.name) == link
    ensures r.Some? ==> exists i ::
      && 0 <= i < |stats| && Matches(stats[i], link) && r.value.name == stats[i].name
      && forall j :: 0 <= j < i ==> !Matches(stats[j], link)
    ensures r.Some? ==>
      r.value.gp == |set i | 0 <= i < |stats| && Matches(stats[i], link) :: stats[i].gameId|
    ensures r.Some? ==> r.value.gp >= 1
    ensures r.Some? ==> && r.value.pts == SumStat(FindRows(stats, link), Pts)
                        && r.value.reb == SumStat(FindRows(stats, link), Reb)
                        && r.value.ast == SumStat(FindRows(stats, link), Ast)
    ensures r.Some? ==> r.value.ppg == Avg(r.value.pts, r.value.gp)
  {
    var rows := FindRows(stats, link);
    if |rows| == 0 then
      FindRowsNone(stats, link);
      None
    else
      FindRowsFirst(stats, link);
      FindRowsIds(stats, link);
      Some(Summarise(rows))
  }

  lemma FindRowsAsWrittenNone(stats: seq<StatLine>, link: string)
    ensures |FindRowsAsWritten(stats, link)| == 0 <==> forall i :: 0 <= i < |stats| ==> !MatchesAsWritten(stats[i], link)
  {
    NoneSelected(stats, AsWrittenTest(link));
  }

  lemma FindRowsAsWrittenFirst(stats: seq<StatLine>, link: string)
    requires |FindRowsAsWritten(stats, link)| > 0
    ensures exists i ::
      && 0 <= i < |stats| && MatchesAsWritten(stats[i], link) && FindRowsAsWritten(stats, link)[0] == stats[i]
      && forall j :: 0 <= j < i ==> !MatchesAsWritten(stats[j], link)
  {
    SelectFirst(stats, AsWrittenTest(link));
  }

  lemma FindRowsAsWrittenIds(stats: seq<StatLine>, link: string)
    ensures GameIds(FindRowsAsWritten(stats, link)) == set i | 0 <= i < |stats| && MatchesAsWritten(stats[i], link) :: stats[i].gameId
  {
  }

  lemma FindRowsNone(stats: seq<StatLine>, link: string)
    ensures |FindRows(stats, link)| == 0 <==> forall i :: 0 <= i < |stats| ==> !Matches(stats[i], link)
  {
    NoneSelected(stats, SlugTest(link));
  }

  lemma FindRowsFirst(stats: seq<StatLine>, link: string)
    requires |FindRows(stats, link)| > 0
    ensures exists i ::
      && 0 <= i < |stats| && Matches(stats[i], link) && FindRows(stats, link)[0] == stats[i]
      && forall j :: 0 <= j < i ==> !Matches(stats[j], link)
  {
    SelectFirst(stats, SlugTest(link));
  }

  lemma FindRowsIds(stats: seq<StatLine>, link: string)
    ensures GameIds(FindRows(stats, link)) == set i | 0 <= i < |stats| && Matches(stats[i], link) :: stats[i].gameId
  {
  }

  /** Nothing is kept exactly when nothing passes. */
  lemma NoneSelected<T(!new)>(xs: seq<T>, keep: T -> bool)
    ensures |Select(xs, keep)| == 0 <==> forall i :: 0 <= i < |xs| ==> !keep(xs[i])
  {
    if |Select(xs, keep)| > 0 {
      assert Select(xs, keep)[0] in Select(xs, keep);
    }
    if exists i :: 0 <= i < |xs| && keep(xs[i]) {
      var i :| 0 <= i < |xs| && keep(xs[i]);
      assert xs[i] in xs;
    }
  }



  /** When no game id repeats, the career line is the home page's tally of the
      same rows: one game per row and points per game over those games. */
  lemma SummariseAgreesWithTally(rows: seq<StatLine>)
    requires |rows| > 0 && DistinctGameIds(rows)
    ensures var c := Summarise(rows);
      var e := Expected(rows).value;
      && c.name == e.name && c.gp == e.games && c.pts == e.pts && c.reb == e.reb && c.ast == e.ast
      && c.ppg == Avg(e.pts, e.games)
  {
  }
}
