# mystats.pro box-score engine, modelled in Dafny

mystats.pro is a static basketball statistics site. Its pages download
Google-Sheets CSV exports of box scores (one row per player per game) and
derive everything they show from those rows in the browser:

- season labels for game dates;
- the season and phase drop-downs, and the filter they drive;
- per-player totals, per-game averages and pooled shooting percentages
  (leaders page, team page, players page, single-player page);
- single-game records ("season highs");
- the home page's team cards;
- the team page's roster, leaders and results;
- the career summary of the player page, reached through a slug link.

This project models that engine as pure Dafny functions over immutable data,
and proves what each derived number means in terms of the rows it came from.

Module layout, one module per file:

| module | file | concern |
|---|---|---|
| `Wrappers` | wrappers.dfy | `Option` |
| `Strings` | strings.dfy | `trim`, `split`, `toLowerCase`, decimal digits |
| `LexOrder` | lex_order.dfy | JavaScript's default string sort order |
| `Numbers` | numbers.dfy | `Number(...)`, `toNum`, `fmtPct`, `pct` |
| `Rows` | rows.dfy | a parsed sheet row and its numeric cells |
| `Csv` | csv.dfy | the four CSV tokenisers |
| `Seasons` | seasons.dfy | `getYearAndSeasonLabel` |
| `Filters` | filters.dfy | season/phase filtering, distinct-season lists |
| `Aggregates` | aggregates.dfy | `computeLeaderStats`, `computeLeaders`, `computeAverages` |
| `Records` | records.dfy | both `computeRecords` |
| `PlayerPage` | player_page.dfy | `loadPlayerStats`, `renderStatSummary` |
| `JsObject` | js_object.dfy | JavaScript objects and `Map`s as insertion-ordered key lists |
| `Sorting` | sorting.dfy | `Array.prototype.sort` with a numeric comparator (stable) |
| `Slugs` | slug.dfy | `slug(name)` and the lookup key of `renderPlayer` |
| `Home` | home.dfy | `renderHome`, `renderTeam`, `renderPlayer` of js/main.js |

Each sheet cell is a string. The model reads a numeric cell as an unsigned
decimal integer with optional surrounding white space. Averages and
percentages are exact `real`s.

Two places where the model keeps the code's literal behaviour:

- The season drop-downs are sorted with the default `sort()`, that is, as
  strings rather than by date. `LexOrder` models that order.
- The player page compares a different normalisation of the name with the
  link than the one that built the link, so some players are never found.
  `Home.PlayerCareer` is the page as written; `Home.PlayerCareerCorrected`
  is the page as intended (see Findings).

## Model

| member | source | states |
|---|---|---|
| Strings.TrimStart | js/games.js:24 | The result is a suffix of the input, everything dropped is white space, and the result does not start with white space |
| Strings.TrimEnd | js/games.js:24 | The result is a prefix of the input, everything dropped is white space, and the result does not end with white space |
| Strings.TrimEmptyIffBlank | js/games.js:24 | `l.trim().length > 0` fails exactly for lines that are all white space |
| Strings.TrimIdempotent | js/team.js:46-50 | Trimming an already trimmed line changes nothing, so the team tokeniser's `l.length > 0` equals the other tokenisers' blank-line test |
| Strings.Split | js/games.js:20-21 | `split` on one character always yields at least one piece, and no piece contains the separator |
| Strings.JoinSplitRoundTrip | js/games.js:20-21 | Joining the pieces of a split with the separator gives the original text back |
| Strings.SplitJoinRoundTrip | js/games.js:26 | Splitting a join of separator-free pieces gives the same pieces back |
| Strings.Without | js/games.js:20 | Removing every `\r` leaves exactly the other characters |
| Strings.NatToString | js/main.js:34 | A printed jersey number is a non-empty digit string that reads back as the same number |
| Strings.NatToStringInjective | js/main.js:34 | Different numbers print differently |
| LexOrder.LessTotal | js/leaders.js:77 | Any two different strings are ordered one way or the other by the default sort order |
| LexOrder.LessTransitive | js/leaders.js:77 | The default string order is transitive |
| LexOrder.Insert | js/leaders.js:71-77 | Adding a season to a strictly ascending list keeps it strictly ascending and adds exactly that season |
| LexOrder.StrictlySortedUnique | js/leaders.js:77 | Two strictly ascending lists with the same elements are equal, so `Array.from(set).sort()` has one possible result |
| Numbers.JsNumber | js/leaders.js:114 | `Number` of a cell is defined exactly when the trimmed cell is all digits, and a blank cell is 0 |
| Numbers.JsNumberOfPrinted | js/leaders.js:114 | Reading a printed count gives that count back |
| Numbers.NumberOrZero | js/player.js:67 | `Number(v) \|\| 0` is the cell's number when there is one and 0 for a missing or non-numeric cell |
| Numbers.ToNum | js/app.js:5-8 | `toNum` is 0 when the text, after leading white space, does not start with a digit |
| Numbers.ToNumAgreesWithNumber | js/app.js:5-8 | Wherever `Number` reads a value, `toNum` reads the same value |
| Numbers.FmtPct | js/app.js:15-20 | `fmtPct` shows the dash exactly when the attempts read as 0, and otherwise the same percentage the leaders page's `pct` gives for the two readings (so, by `Numbers.Pct`, one that times the attempts is 100 times the makes) |
| Numbers.Pct | js/leaders.js:168-171 | `pct` is 0 with no attempts; otherwise it times the attempts is 100 times the makes, and it lies in 0..100 when makes do not exceed attempts |
| Rows.Count | js/leaders.js:114-128 | `Number(r.k \|\| 0)` is 0 for a missing or empty cell and the cell's number otherwise |
| Rows.CountIsNumberOrZero | js/player.js:67 | The two idioms `Number(r.k \|\| 0)` and `Number(r.k) \|\| 0` read every cell the same |
| Rows.PlayerRows.Considered | js/leaders.js:92 | `p.filteredRows \|\| p.rows` is the filtered list whenever one exists, even an empty one |
| Csv.BuildRow | js/games.js:26-29 | Only header names become keys of a row |
| Csv.BuildRowCell | js/games.js:26-29 | Each header holds the field of its last column; a short line leaves it undefined (or `""` in the lenient variants) |
| Csv.BuildRowFilled | js/app.js:32-34 | With `?? ""` every header is a key of every row |
| Csv.NonBlank | js/games.js:24 | Every kept line is not blank, and there are never more kept lines than input lines |
| Csv.NonBlankMembers | js/games.js:24 | A line is kept exactly when it is a line of the input and is not blank |
| Csv.NonBlankAppend | js/games.js:24 | The blank-line filter keeps order: filtering a concatenation concatenates the filtered parts |
| Csv.NonBlankKeepsAll | js/games.js:24 | A list without blank lines passes the filter unchanged |
| Csv.Parse | js/games.js:19-31 | There is one row per non-blank line after the header line, and row j is built from the header line's fields and the fields of the j-th such line |
| Csv.SplitLines | js/app.js:24 | `split(/\r?\n/)` yields one line per newline-separated piece, at least one; no line holds a newline, and each is its piece with at most a trailing `\r` removed |
| Csv.MapTrim | js/team.js:46 | Every line is replaced by its trimmed form, one for one |
| Csv.LenientRowsHaveEveryHeader | js/app.js:23-38 | In the lenient tokenisers every row has every trimmed header, holding its trimmed field or `""` |
| Csv.ParseCSVRoundTrip | js/games.js:19-31 | An export of a table with distinct headers and plain cells parses back into one row per record, each header holding its own cell |
| Csv.CrlfParsesLikeLf | js/games.js:20 | A Windows line-ending export parses exactly like the same export with plain newlines |
| Seasons.SeasonNamed | js/app.js:60-63 | Each of the four season names reads back as its own season, and nothing else reads back as a season |
| Seasons.SeasonOfMonth | js/app.js:58-63 | Every calendar month lies in the months of its season and of no other season |
| Seasons.ParseLabelOfLabel | js/app.js:65 | A label reads back as its year and season |
| Seasons.LabelInjective | js/app.js:65 | Different year and season pairs never share a label |
| Seasons.YearAndSeasonLabel | js/app.js:41-66 | A missing or empty date gives neither year nor label; otherwise the year is the date's year and the label is that year, a space and the name of the season containing the date's month, so it reads back as that year and season |
| Seasons.DecemberAndJanuaryLabelsDiffer | js/app.js:58-65 | A December date and the next January are both Summer yet get different labels |
| Seasons.DayFirst | js/app.js:47-49 | A `D/M/YYYY` date is read day first |
| Filters.FilterRows | js/leaders.js:80-86 | The filter keeps exactly the rows whose season and phase match (or the choice is `"all"`) |
| Filters.FilterAppend | js/players.js:63-69 | The filter keeps row order: filtering a concatenation concatenates the filtered parts |
| Filters.FilterAllIsIdentity | js/games.js:56-62 | With both choices `"all"` nothing is removed |
| Filters.FilterIdempotent | js/records.js:80-86 | Filtering twice with the same choices removes nothing more |
| Filters.FilterConjunction | js/leaders.js:80-86 | Filtering by season and then by phase is filtering by both |
| Filters.DistinctSeasons | js/players.js:58-61 | The season list is strictly ascending and holds exactly the non-empty seasons of the rows |
| Filters.DistinctSeasonsUnique | js/games.js:51-54 | Any strictly ascending list of exactly those seasons is the result |
| Filters.AllRows | js/leaders.js:72-76 | The rows visited are exactly the rows of some player |
| Filters.SeasonsFromStats | js/leaders.js:70-78 | The season list is strictly ascending and holds exactly the non-empty seasons of any player's unfiltered rows |
| Aggregates.SumAppend | js/leaders.js:113-129 | A column sum over a concatenation is the sum of the parts' sums |
| Aggregates.TallyCountsRows | js/leaders.js:96 | `gp` is the number of rows |
| Aggregates.TallyIsColumnSums | js/leaders.js:95-129 | Every running total after the loop is the column sum of its renamed source column |
| Aggregates.PerGame | js/leaders.js:132-142 | An average times the games played is the total; with no games the total is divided by 1 |
| Aggregates.Line | js/leaders.js:131-161 | `gp` is the row count and each shooting percentage is the pooled `pct` of the column sums, in either mode |
| Aggregates.LineTotals | js/leaders.js:147-161 | In totals mode every counting stat is its column sum |
| Aggregates.LineAverages | js/leaders.js:131-146 | In averages mode every counting stat is its column sum per game |
| Aggregates.ByPlayer | js/leaders.js:91-163 | The result object has each slug once |
| Aggregates.ByPlayerKeys | js/leaders.js:91-163 | The keys are exactly the slugs of players that produced an entry |
| Aggregates.ByPlayerValues | js/leaders.js:91-163 | A slug maps to the entry of the last player with that slug that produced one: a later player with the slug overwrites it only by producing an entry, and one that returns early leaves it |
| Aggregates.LeaderStats | js/leaders.js:88-166 | Exactly the players with a considered row get an entry, holding the line of the considered rows of the last player with that slug that has any |
| Aggregates.EmptyDuplicateKeepsLine | js/leaders.js:91-93 | A later player with the same slug and no considered rows returns early and does not replace the earlier player's line |
| Aggregates.TeamLineOf | js/team.js:168-183 | The team page's totals are the row count and the column sums, and its percentages stay 0 |
| Aggregates.TeamLeaders | js/team.js:164-189 | Every player gets an entry keyed by slug, even one without rows, holding the totals of their unfiltered rows |
| Aggregates.PairSumsOfCompleteRows | js/players.js:100-102 | When every row has both cells of a shooting pair, the pushed pairs sum to the whole columns |
| Aggregates.ComputeAverages | js/players.js:71-125 | The result is `null` exactly for no rows; otherwise `gp` is the row count, each stat is its column sum per game, and each percentage pools only rows with both cells |
| Aggregates.AveragesAgreeWithLeaders | js/players.js:105-123 | When every row has both cells of each pair, the players page and the leaders page show the same points average and percentages |
| Aggregates.AveragesCanDisagreeWithLeaders | js/players.js:100-108 | A row with makes but an empty attempts cell makes the two pages' percentages differ |
| Records.RecordKeysDistinct | js/records.js:89-102 | The eleven record keys are distinct |
| Records.FirstMaxExtend | js/records.js:115 | A new value takes the record exactly when it beats the current maximum |
| Records.RecordForIsFirstMax | js/records.js:110-128 | A record is null exactly when there are no rows; otherwise it is built entirely from the first row that holds the column maximum |
| Records.RecordReadsOwnColumn | js/records.js:113-125 | A record depends only on its own column and the identifying cells, so the records of different keys are independent |
| Records.AllFilteredOutGivesNoRecords | js/records.js:111 | If every player's filter selected nothing, every record is null, whatever the unfiltered rows hold |
| Records.InitRecords | js/records.js:105-108 | Before any row, every key holds null in definition order |
| Records.ScanRow | js/records.js:113-126 | After one more row, every key holds the record over the rows seen so far including it |
| Records.ScanRows | js/records.js:112-127 | After one player's rows, every key holds the record over all rows seen |
| Records.ComputeRecords | js/records.js:104-131 | The result has exactly the eleven keys in definition order, each holding the record of its column over every considered row |
| Records.TeamRecordIsProjection | js/team.js:242-246 | The team page's record is the records page's record cut down to value and slug |
| Records.TeamRecords | js/team.js:223-251 | Exactly the eight keys; each is null exactly when no player has a row, and otherwise holds the value and slug of the first maximal row |
| PlayerPage.Normalise | js/player.js:69-89 | Each loaded line has `gp` 1, keeps `game_id` only when non-empty, reads each of its fifteen numeric fields from its own source column, and copies every source column the literal does not overwrite |
| PlayerPage.LoadPlayerStats | js/player.js:69-89 | One game line per row, in order |
| PlayerPage.Averages | js/player.js:121-124 | With no games every average is 0; otherwise each of the points, rebounds, assists, steals and blocks averages times the games is its total |
| PlayerPage.SumByOfLoaded | js/player.js:116-119 | Summing a written field over the loaded lines sums its source column |
| PlayerPage.GamesOfLoaded | js/player.js:69-71 | The games-played total is the number of rows |
| PlayerPage.TotalsOfLoaded | js/player.js:116-119 | The summary totals are the row count and the column sums the leaders page forms |
| PlayerPage.SummaryAveragesOfLoaded | js/player.js:121-124 | With rows the games-played average is 1; with none every average is 0 |
| PlayerPage.AveragesOfLoaded | js/player.js:116-124 | With rows, the games average is 1 and each of the points, rebounds, assists, steals and blocks averages is its column's per-game average as the leaders page forms it |
| JsObject.Lookup | js/main.js:32-33 | A key reads nothing exactly when it is not a key of the object |
| JsObject.Put | js/leaders.js:133 | Setting a key makes it read the new value, leaves every other key as it was, and appends the key only when it is new |
| JsObject.LookupInValues | js/main.js:44 | Every value stored under a key is among the object's values |
| Sorting.Sort | js/main.js:46 | The sorted list is a permutation of the input, in descending key order |
| Sorting.SortStable | js/main.js:46 | The elements of each key keep their original relative order |
| Sorting.SortTiesKeepOrder | js/main.js:68-70 | Sorting a list already ordered by another key keeps that order among elements whose sort keys tie |
| Sorting.SortMap | js/main.js:68-70 | Mapping and then sorting by the mapped key is sorting and then mapping |
| Slugs.Dashes | js/main.js:12 | Replacing white-space runs by dashes never lengthens a name and leaves no white space |
| Slugs.DashesChars | js/main.js:12 | Every character after the replacement is a dash or a character of the name |
| Slugs.DashesRun | js/main.js:12 | A whole run of white space becomes exactly one dash |
| Slugs.DashesAppend | js/main.js:12 | Cutting a name after a non-space character, the replacement works on each piece separately |
| Slugs.Keep | js/main.js:12 | Only `[a-z0-9-]` characters survive the final filter |
| Slugs.KeepAllSlugChars | js/main.js:12 | A string made only of `[a-z0-9-]` passes the filter unchanged |
| Slugs.KeepAppend | js/main.js:12 | The filter works character by character: filtering a concatenation concatenates the filtered parts |
| Slugs.KeepMembers | js/main.js:12 | A character survives exactly when it occurs in the input and is one of `[a-z0-9-]` |
| Slugs.Slug | js/main.js:12 | A slug holds only `[a-z0-9-]` |
| Slugs.SlugOfSpaceFree | js/main.js:12 | A name without white space is only lower-cased and filtered |
| Slugs.SlugIdempotent | js/main.js:12 | The slug of a slug is the slug itself |
| Slugs.SlugIgnoresOuterSpace | js/main.js:12 | White space around a name does not change its slug |
| Slugs.MatchKey | js/main.js:82 | The player page's key is never longer than the name |
| Slugs.MatchKeyOfTrailingSpace | js/main.js:82 | The player page's key keeps a trailing space of a name as a final dash, which the slug drops |
| Slugs.MatchKeyAgreesWithSlug | js/main.js:82 | For a name of letters, digits and inner white space, the player page's key equals the slug |
| Home.PlayerKeyInjective | js/main.js:34 | `jersey + '_' + name` keys two rows alike only when jersey and name both agree |
| Home.SumStatAppend | js/main.js:88 | Adding a row adds its value to the sum |
| Home.AddLine | js/main.js:33-37 | Adding a row bumps exactly its own player's tally, creating it on first sight at the end of the key list, and leaves every other player and the order of existing keys as they were |
| Home.ExpectedAppend | js/main.js:35-37 | The reference tally of a player's rows grows by exactly one game and that row's points |
| Home.GroupTeam | js/main.js:65-67 | A team's player map has each player once and is empty when the team has no row |
| Home.GroupTeamReads | js/main.js:31-38 | Each player key reads the tally of exactly that team's rows with that key: first jersey and name, game count, and the sums |
| Home.GroupTeamKeys | js/main.js:31-38 | A team's player keys are listed in the order of their first rows |
| Home.FirstSeenMembers | js/main.js:31-38 | The first-sight key list holds exactly the keys that some row of the team has |
| Home.FirstSeenDistinct | js/main.js:31-38 | The first-sight key list holds each key once |
| Home.FirstSeenOrder | js/main.js:31-38 | Of two keys in the first-sight list, the earlier one has a row before every row of the later one |
| Home.HomeGroups | js/main.js:30-38 | The team map has each team once and each team's player map has each player once |
| Home.HomeGroupsReads | js/main.js:30-38 | A team reads its player map exactly when some row names it, and nothing otherwise |
| Home.TeamsSeenMembers | js/main.js:30-38 | The first-appearance team list holds exactly the teams some row names |
| Home.TeamsSeenOrder | js/main.js:30-38 | Of two teams in the first-appearance list, the earlier one has a row before every row of the later one |
| Home.HomeGroupsKeys | js/main.js:30-38 | The team map lists the teams in the order of their first rows |
| Home.AddTeam | js/main.js:40 | A named team missing from the map gets an empty player map; every other entry and the key order stay |
| Home.AddGameTeams | js/main.js:40 | Adding the teams of the games index keeps every existing key in front, each once |
| Home.AddGameTeamsReads | js/main.js:40 | After the games index, a team reads its old entry if it had one, an empty player map if some game names it, and nothing otherwise |
| Home.HomeTeamsReads | js/main.js:29-40 | Home-page teams are the teams with rows (with their tallies) and the other named teams of the games index (with no players) |
| Home.HomeTeams | js/main.js:29-40 | The home page's team map has each team once |
| Home.HomeTeamsKeys | js/main.js:29-40 | The home page lists the teams of the rows first, in the order of their first rows; teams only the games index names come after them |
| Home.Avg | js/main.js:45 | Points per game times the games is the points, and 0 when there are no games |
| Home.HomeCard | js/main.js:44-47 | A card lists every player of the team once, by descending points per game, and shows the first three, each at least every player not shown |
| Home.HomeCardTies | js/main.js:46 | Players with equal points per game keep the order of the team's player map, which is the order of their first rows (`Home.GroupTeamKeys`) |
| Home.TeamRoster | js/main.js:65-68 | The roster lists every player of the team once, by ascending jersey |
| Home.ToLeader | js/main.js:70 | A leader keeps the player's name, games and points; with games, each of the points, rebounds and assists averages times the games is the total; without games every average is 0 |
| Home.TeamLeaders | js/main.js:70 | The leader rows are the roster's players' leader rows, each once, by descending points average |
| Home.TeamLeadersRanked | js/main.js:68-70 | The leader table is the jersey-ordered roster stably ranked by points per game, each player then turned into a leader row |
| Home.TeamLeadersTieOrder | js/main.js:68-70 | Leaders with equal points averages stay in ascending jersey order |
| Home.ResultMirror | js/main.js:73 | One side's win is the other side's loss, a tie is a tie for both, and a side wins exactly when its score is higher |
| Home.Result | js/main.js:73 | At home, a win exactly when the home score is higher; away, a win exactly when the away score is higher; a tie exactly when the scores are equal |
| Home.TeamGames | js/main.js:72 | A team's games are exactly the games it plays home or away |
| Home.TeamGamesAppend | js/main.js:72 | The game list keeps the index's order: the list for a concatenation is the lists of its parts, in turn |
| Home.TeamGamesCount | js/main.js:72 | A game the team plays appears as often as in the index, and any other game never |
| Home.FindRowsAsWritten | js/main.js:82 | As written: a row is found exactly when it has a name whose lower-cased, dashed form equals the link |
| Home.FindRows | js/main.js:82 | Corrected: a row is found exactly when it has a name whose slug equals the link |
| Home.FindRowsAppend | js/main.js:82 | Both lookups keep the rows' order: the rows found in a concatenation are those found in each part, in turn |
| Home.FindRowsCount | js/main.js:82 | Both lookups keep every copy of a matching row and no copy of any other |
| Home.FindRowsAsWrittenFirst | js/main.js:82-84 | The first row the as-written lookup finds is the first row of the sheet that passes its test |
| Home.FindRowsFirst | js/main.js:82-84 | The first row the corrected lookup finds is the first row of the sheet whose name slugs to the link |
| Home.FindRowsAsWrittenIds | js/main.js:82-86 | The game ids of the rows found as written are the game ids of the passing rows |
| Home.FindRowsIds | js/main.js:82-86 | The game ids of the rows found by slug are the game ids of the rows whose name slugs to the link |
| Home.ApostropheNameNotFound | js/main.js:82 | A player named `O'Brien` gets the link `obrien`, which the as-written lookup and career page never find and the corrected ones do |
| Home.TrailingSpaceNotFound | js/main.js:82 | A player named `Kyle ` gets the link `kyle`, which the as-written lookup and career page never find and the corrected ones do |
| Home.GameIdsSize | js/main.js:85-86 | The number of distinct game ids is at most the row count, at least 1 for any rows, and equal to it exactly when no id repeats |
| Home.Summarise | js/main.js:84-89 | The career has the first row's name, as games the number of distinct game ids (between 1 and the row count, all rows exactly when the ids are distinct), the column sums, and points per game is the points over the games |
| Home.SummariseAgreesWithTally | js/main.js:84-89 | With distinct game ids the career agrees with the reference tally of the rows: same name, games, points, rebounds and assists, and points per game is their average |
| Home.PlayerCareer | js/main.js:79-89 | As written: a link shows "not found" exactly when no row has a non-empty name whose lower-cased, dashed form equals it; otherwise the career carries the name of the first such row, as games the number of distinct game ids among the such rows, the sums of their points, rebounds and assists, and points per game over those games |
| Home.PlayerCareerCorrected | js/main.js:79-89 | Corrected: the same career over the rows whose non-empty name slugs to the link; "not found" exactly when there is none |

## Left out

- Fetching, the DOM, routing (`getParts`, `router` in js/main.js), tabs, themes and the data loaders are left out. They are I/O; the model starts from the fetched text or from parsed rows.
- `toFixed`, `fmtNumber` and `Math.round` are left out. They format for display; averages stay exact reals.
- Signs, fractions, exponents and hexadecimal in cells are not modelled. Counts on a box score are whole numbers.
- A cell that is not a number (NaN in JavaScript) reads as 0. NaN would propagate into the sums; the sheets hold numbers.
- Unicode in `toLowerCase` and `\s` is left out. The model lower-cases ASCII only and knows the ASCII white space.
- Seasons.YearAndSeasonLabel: covers only the two recognised date shapes with an existing calendar day. The fallback `new Date(dateStr)` and day rollover depend on the engine's date parser.
- JavaScript orders integer-like object keys before the others. The model keeps pure insertion order, because slugs and `jersey_name` keys are never integer-like.
- The `localeCompare` sort of the games lists (js/main.js:52, 58, 72) is left out. It is a display order over date strings.
- Game scores are integers, and jerseys are natural numbers. String scores and jerseys, which JavaScript would compare as text or coerce, are not modelled.
- The `MYSTATS` branches of js/player.js are left out. The model uses the local fallbacks; the shared `parseCsv` is modelled separately as `Csv.ParseCsv`.
- The player and team gid tables and the sheet URLs are left out. They are configuration.
- An undefined `sheetUrl` in js/games.js is left out. It is a load-time failure.
- `encodeURIComponent` and `decodeURIComponent` around slugs are the identity on `[a-z0-9-]` and are not modelled.
- Home.AddLine: the shared tally also sums rebounds and assists. `renderHome` keeps only games and points; the extra fields do not affect anything the home page shows.
- Aggregates.ModesAgree is stated over totals rather than rows, and follows directly from the definitions; it has no table row.
- Csv.TeamRowsAreTrimmedLines and Slugs.LowerOfSlugChars follow directly from the definitions; they have no table row.

## Findings

| source | as written | input that shows it | evidently intended | confidence | as-written member | corrected member |
|---|---|---|---|---|---|---|
| js/main.js:82 | `renderPlayer` keeps rows whose `name.toLowerCase().replace(/\s+/g,'-')` equals the link, but every player link (js/main.js:48, 69, 71) is built with `slug(name)`, which also trims and drops characters outside `[a-z0-9-]` | a row named `O'Brien` links to `obrien` but is compared as `o'brien`; a row named `Kyle ` links to `kyle` but is compared as `kyle-`; both pages say "Player not found" | compare `slug(r.name)` with the link | not executed | Home.FindRowsAsWritten, used by Home.PlayerCareer (shown by Home.ApostropheNameNotFound and Home.TrailingSpaceNotFound) | Home.FindRows, used by Home.PlayerCareerCorrected |
