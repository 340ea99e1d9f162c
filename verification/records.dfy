/** Single-game records: `computeRecords` in js/records.js (eleven stats, the
    record names its row) and its eight-stat variant in js/team.js (value and
    slug only). Both scan the rows in roster-then-row order and replace the
    current record only on a strictly greater value, so the first row to
    reach the maximum keeps it. */
module Records {
  import opened Wrappers
  import opened Rows
  import opened JsObject

  /** `{ key, label, field }` of `RECORD_DEFS`. */
  datatype RecordDef = RecordDef(key: string, title: string, field: string)

  const RecordDefs: seq<RecordDef> := [
    RecordDef("pts", "Points", "pts"),
    RecordDef("reb", "Rebounds", "totrb"),
    RecordDef("oreb", "Off. Rebounds", "or"),
    RecordDef("dreb", "Def. Rebounds", "dr"),
    RecordDef("ast", "Assists", "ass"),
    RecordDef("stl", "Steals", "st"),
    RecordDef("blk", "Blocks", "bs"),
    RecordDef("threes", "3P Made", "3p"),
    RecordDef("fgm", "FG Made", "fg"),
    RecordDef("ftm", "FT Made", "ft"),
    RecordDef("tov", "Turnovers", "to")
  ]

  function DefKeys(defs: seq<RecordDef>): (ks: seq<string>)
    ensures |ks| == |defs|
    ensures forall d :: 0 <= d < |defs| ==> ks[d] == defs[d].key
  {
    seq(|defs|, d requires 0 <= d < |defs| => defs[d].key)
  }

  lemma RecordKeysDistinct()
    ensures forall a, b :: 0 <= a < b < |RecordDefs| ==> RecordDefs[a].key != RecordDefs[b].key
  {
  }

  /** A row together with the slug of the player it belongs to. */
  datatype Entry = Entry(slug: string, row: Row)

  /** One player's rows as entries: `filteredRows || rows` when `considered`,
      `rows` otherwise (js/team.js does not filter). */
  function PlayerEntries(p: PlayerRows, considered: bool): (es: seq<Entry>)
    ensures |es| == |if considered then p.Considered() else p.rows|
  {
    var rows := if considered then p.Considered() else p.rows;
    seq(|rows|, i requires 0 <= i < |rows| => Entry(p.slug, rows[i]))
  }

  /** Every entry of every player, roster first, then row order. */
  function Entries(players: seq<PlayerRows>, considered: bool): (es: seq<Entry>)
    ensures |es| == 0 <==> forall j :: 0 <= j < |players| ==> |PlayerEntries(players[j], considered)| == 0
  {
    if |players| == 0 then []
    else
      var init := players[..|players| - 1];
      assert forall j :: 0 <= j < |init| ==> init[j] == players[j];
      Entries(init, considered) + PlayerEntries(players[|players| - 1], considered)
  }

  /** The object stored for a record, every field read from the same row. */
  datatype Record = Record(
    key: string, title: string, value: nat, slug: string,
    gameId: Option<string>, date: Option<string>, opponent: Option<string>)

  function MakeRecord(def: RecordDef, e: Entry): Record {
    Record(def.key, def.title, Count(e.row, def.field), e.slug,
      Get(e.row, "game_id"), Get(e.row, "date"), Get(e.row, "opponent"))
  }

  /** One comparison `if (!records[key] || value > records[key].value)`. */
  function Update(cur: Option<Record>, def: RecordDef, e: Entry): Option<Record> {
    if cur.None? || Count(e.row, def.field) > cur.value.value then Some(MakeRecord(def, e)) else cur
  }

  /** The record for one definition after scanning `es`. */
  function RecordFor(es: seq<Entry>, def: RecordDef): Option<Record> {
    if |es| == 0 then None
    else Update(RecordFor(es[..|es| - 1], def), def, es[|es| - 1])
  }

  /** The values of `field` down the entries. */
  function Column(es: seq<Entry>, field: string): (vs: seq<nat>)
    ensures |vs| == |es|
    ensures forall k :: 0 <= k < |es| ==> vs[k] == Count(es[k].row, field)
  {
    seq(|es|, k requires 0 <= k < |es| => Count(es[k].row, field))
  }

  /** Position `i` holds the greatest value and no earlier position reaches it. */
  predicate IsFirstMax(vs: seq<nat>, i: int) {
    && 0 <= i < |vs|
    && (forall k :: 0 <= k < |vs| ==> vs[k] <= vs[i])
    && (forall k :: 0 <= k < i ==> vs[k] < vs[i])
  }

  /** At most one position is the first maximum. */
  lemma FirstMaxUnique(vs: seq<nat>, i: int, i': int)
    requires IsFirstMax(vs, i) && IsFirstMax(vs, i')
    ensures i == i'
  {
    assert vs[i] <= vs[i'] && vs[i'] <= vs[i];
  }

  /** Extending the scan by one value: the new value takes over exactly when
      it beats the current maximum. */
  lemma FirstMaxExtend(vs: seq<nat>, v: nat, i: int)
    requires IsFirstMax(vs, i)
    ensures v > vs[i] ==> IsFirstMax(vs + [v], |vs|)
    ensures v <= vs[i] ==> IsFirstMax(vs + [v], i)
  {
  }

  /** The record is null exactly when there are no rows; otherwise it is made
      from the first row holding the maximum of its column, so its value is
      in some row, at least every row's value, and its slug, game, date and
      opponent come from that same row. */
  lemma {:induction false} RecordForIsFirstMax(es: seq<Entry>, def: RecordDef)
    ensures RecordFor(es, def).None? <==> |es| == 0
    ensures |es| > 0 ==> exists i :: IsFirstMax(Column(es, def.field), i) && RecordFor(es, def) == Some(MakeRecord(def, es[i]))
  {
    if |es| > 0 {
      var init := es[..|es| - 1];
      var e := es[|es| - 1];
      var f := def.field;
      RecordForIsFirstMax(init, def);
      var vs := Column(init, f);
      assert Column(es, f) == vs + [Count(e.row, f)];
      if |init| == 0 {
        assert IsFirstMax(Column(es, f), 0);
      } else {
        var i :| IsFirstMax(vs, i) && RecordFor(init, def) == Some(MakeRecord(def, init[i]));
        FirstMaxExtend(vs, Count(e.row, f), i);
        assert init[i] == es[i];
      }
    }
  }

  /** Each record reads only its own column (plus the identifying cells):
      rows that agree there give the same record whatever their other
      columns hold, so the records of different keys are independent. */
  lemma {:induction false} RecordReadsOwnColumn(es: seq<Entry>, es': seq<Entry>, def: RecordDef)
    requires |es| == |es'|
    requires forall i :: 0 <= i < |es| ==>
      && es[i].slug == es'[i].slug
      && Count(es[i].row, def.field) == Count(es'[i].row, def.field)
      && Get(es[i].row, "game_id") == Get(es'[i].row, "game_id")
      && Get(es[i].row, "date") == Get(es'[i].row, "date")
      && Get(es[i].row, "opponent") == Get(es'[i].row, "opponent")
    ensures RecordFor(es, def) == RecordFor(es', def)
  {
    if |es| > 0 {
      var n := |es| - 1;
      assert forall i :: 0 <= i < n ==> es[..n][i] == es[i] && es'[..n][i] == es'[i];
      RecordReadsOwnColumn(es[..n], es'[..n], def);
      assert MakeRecord(def, es[n]) == MakeRecord(def, es'[n]);
    }
  }

  /** An empty filtered list is kept (`[]` is truthy): players whose filter
      selected nothing contribute no row, whatever their unfiltered rows. */
  lemma AllFilteredOutGivesNoRecords(players: seq<PlayerRows>, def: RecordDef)
    requires forall j :: 0 <= j < |players| ==> players[j].filteredRows == Some([])
    ensures RecordFor(Entries(players, true), def).None?
  {
    RecordForIsFirstMax(Entries(players, true), def);
  }

  lemma EntriesStep(players: seq<PlayerRows>, j: nat, considered: bool)
    requires j < |players|
    ensures Entries(players[..j + 1], considered) == Entries(players[..j], considered) + PlayerEntries(players[j], considered)
  {
    assert players[..j + 1][..j] == players[..j];
  }

  lemma RecordForStep(es: seq<Entry>, e: Entry, def: RecordDef)
    ensures RecordFor(es + [e], def) == Update(RecordFor(es, def), def, e)
  {
    assert (es + [e])[..|es|] == es;
  }

  /** The records object holds the eleven keys in `RECORD_DEFS` order and
      each key the record of its definition over `seen`. */
  predicate Holds(records: Object<Option<Record>>, seen: seq<Entry>) {
    && UniqueKeys(records)
    && Keys(records) == DefKeys(RecordDefs)
    && forall d :: 0 <= d < |RecordDefs| ==> Lookup(records, RecordDefs[d].key) == Some(RecordFor(seen, RecordDefs[d]))
  }

  /** `RECORD_DEFS.forEach(def => { records[def.key] = null })`. */
  method InitRecords() returns (records: Object<Option<Record>>)
    ensures Holds(records, [])
  {
    records := [];
    var d := 0;
    while d < |RecordDefs|
      invariant 0 <= d <= |RecordDefs|
      invariant Initialised(records, d)
    {
      InitStep(records, d);
      records := Put(records, RecordDefs[d].key, None);
      d := d + 1;
    }
    assert RecordDefs[..d] == RecordDefs;
  }

  /** The first `d` keys are set to `null`, in definition order. */
  predicate Initialised(records: Object<Option<Record>>, d: int)
    requires 0 <= d <= |RecordDefs|
  {
    && UniqueKeys(records)
    && Keys(records) == DefKeys(RecordDefs[..d])
    && forall d' :: 0 <= d' < d ==> Lookup(records, RecordDefs[d'].key) == Some(None)
  }

  lemma InitStep(records: Object<Option<Record>>, d: nat)
    requires d < |RecordDefs| && Initialised(records, d)
    ensures Initialised(Put(records, RecordDefs[d].key, None), d + 1)
  {
    RecordKeysDistinct();
    assert RecordDefs[d].key !in DefKeys(RecordDefs[..d]);
    assert DefKeys(RecordDefs[..d]) + [RecordDefs[d].key] == DefKeys(RecordDefs[..d + 1]);
  }

  /** Part way through the definitions for row `e`: the first `d` keys
      have compared `e`, the others still hold the record over `seen`. */
  predicate Scanned(out: Object<Option<Record>>, seen: seq<Entry>, e: Entry, d: int)
    requires 0 <= d <= |RecordDefs|
  {
    && UniqueKeys(out)
    && Keys(out) == DefKeys(RecordDefs)
    && forall d' :: 0 <= d' < |RecordDefs| ==>
         Lookup(out, RecordDefs[d'].key) ==
           Some(if d' < d then Update(RecordFor(seen, RecordDefs[d']), RecordDefs[d'], e) else RecordFor(seen, RecordDefs[d']))
  }

  /** One comparison of the inner loop moves exactly its own key on. */
  lemma ScanStep(out: Object<Option<Record>>, seen: seq<Entry>, e: Entry, d: nat)
    requires d < |RecordDefs| && Scanned(out, seen, e, d)
    ensures var def := RecordDefs[d];
            var cur := Lookup(out, def.key).value;
            Scanned(if cur.None? || Count(e.row, def.field) > cur.value.value
                    then Put(out, def.key, Some(MakeRecord(def, e))) else out, seen, e, d + 1)
  {
    RecordKeysDistinct();
    var def := RecordDefs[d];
    var cur := Lookup(out, def.key).value;
    assert cur == RecordFor(seen, def);
    if cur.None? || Count(e.row, def.field) > cur.value.value {
      var out' := Put(out, def.key, Some(MakeRecord(def, e)));
      assert def.key in Keys(out);
      forall d' | 0 <= d' < |RecordDefs|
        ensures Lookup(out', RecordDefs[d'].key) ==
          Some(if d' < d + 1 then Update(RecordFor(seen, RecordDefs[d']), RecordDefs[d'], e) else RecordFor(seen, RecordDefs[d']))
      {
        if d' != d {
          assert RecordDefs[d'].key != def.key;
        }
      }
    }
  }

  /** The inner `RECORD_DEFS.forEach` for one row `e`. */
  method ScanRow(records: Object<Option<Record>>, ghost seen: seq<Entry>, e: Entry) returns (out: Object<Option<Record>>)
    requires Holds(records, seen)
    ensures Holds(out, seen + [e])
  {
    out := records;
    var d := 0;
    while d < |RecordDefs|
      invariant 0 <= d <= |RecordDefs|
      invariant Scanned(out, seen, e, d)
    {
      ScanStep(out, seen, e, d);
      var def := RecordDefs[d];
      var cur := Lookup(out, def.key).value;
      var value := Count(e.row, def.field);
      if cur.None? || value > cur.value.value {
        out := Put(out, def.key, Some(MakeRecord(def, e)));
      }
      d := d + 1;
    }
    forall d' | 0 <= d' < |RecordDefs|
      ensures Lookup(out, RecordDefs[d'].key) == Some(RecordFor(seen + [e], RecordDefs[d']))
    {
      RecordForStep(seen, e, RecordDefs[d']);
    }
  }

  /** `rows.forEach(...)` for one player's entries. */
  method ScanRows(records: Object<Option<Record>>, ghost before: seq<Entry>, es: seq<Entry>) returns (out: Object<Option<Record>>)
    requires Holds(records, before)
    ensures Holds(out, before + es)
  {
    out := records;
    ghost var seen := before;
    var i := 0;
    while i < |es|
      invariant 0 <= i <= |es|
      invariant seen == before + es[..i]
      invariant Holds(out, seen)
    {
      out := ScanRow(out, seen, es[i]);
      seen := seen + [es[i]];
      assert es[..i + 1] == es[..i] + [es[i]];
      i := i + 1;
    }
    assert es[..i] == es;
  }

  /** `computeRecords(playerStats)` (js/records.js), as the source writes it:
      the eleven keys set to null in `RECORD_DEFS` order, then every
      considered row compared against every definition. The result has
      exactly the eleven keys, and each holds the record of its definition
      over all considered rows. */
  method ComputeRecords(players: seq<PlayerRows>) returns (records: Object<Option<Record>>)
    ensures UniqueKeys(records)
    ensures Keys(records) == DefKeys(RecordDefs)
    ensures forall d :: 0 <= d < |RecordDefs| ==>
      Lookup(records, RecordDefs[d].key) == Some(RecordFor(Entries(players, true), RecordDefs[d]))
  {
    records := InitRecords();
    var j := 0;
    assert players[..0] == [];
    while j < |players|
      invariant 0 <= j <= |players|
      invariant Holds(records, Entries(players[..j], true))
    {
      EntriesStep(players, j, true);
      records := ScanRows(records, Entries(players[..j], true), PlayerEntries(players[j], true));
      j := j + 1;
    }
    assert players[..j] == players;
  }

  /** `{ value, slug }`, the entry js/team.js stores. */
  datatype TeamRecord = TeamRecord(value: nat, slug: string)

  /** One comparison `if (!highest[k] || stats[k] > highest[k].value)`. */
  function TeamUpdate(cur: Option<TeamRecord>, field: string, e: Entry): Option<TeamRecord> {
    if cur.None? || Count(e.row, field) > cur.value.value then Some(TeamRecord(Count(e.row, field), e.slug)) else cur
  }

  function TeamRecordFor(es: seq<Entry>, field: string): Option<TeamRecord> {
    if |es| == 0 then None
    else TeamUpdate(TeamRecordFor(es[..|es| - 1], field), field, es[|es| - 1])
  }

  /** The team page's record is the records page's record cut down to value
      and slug: the two scans pick the same row. */
  lemma {:induction false} TeamRecordIsProjection(es: seq<Entry>, def: RecordDef)
    ensures TeamRecordFor(es, def.field) ==
      match RecordFor(es, def)
      case None => None
      case Some(r) => Some(TeamRecord(r.value, r.slug))
  {
    if |es| > 0 {
      TeamRecordIsProjection(es[..|es| - 1], def);
    }
  }

  /** The eight keys of `highest` are the first eight definitions, with the
      same columns. */
  const TeamDefs: seq<RecordDef> := RecordDefs[..8]

  /** `computeRecords(playerStats)` (js/team.js): exactly the eight keys, each
      null iff no player has a row, and otherwise the value and slug of the
      first row holding the column maximum over every player's unfiltered
      rows. */
  function TeamRecords(players: seq<PlayerRows>): (r: Object<Option<TeamRecord>>)
    ensures Keys(r) == DefKeys(TeamDefs)
    ensures forall d :: 0 <= d < |TeamDefs| ==> r[d].1 == TeamRecordFor(Entries(players, false), TeamDefs[d].field)
    ensures forall d :: 0 <= d < |TeamDefs| ==>
      (r[d].1.None? <==> forall j :: 0 <= j < |players| ==> |players[j].rows| == 0)
  {
    var es := Entries(players, false);
    var r := seq(|TeamDefs|, d requires 0 <= d < |TeamDefs| => (TeamDefs[d].key, TeamRecordFor(es, TeamDefs[d].field)));
    forall d | 0 <= d < |TeamDefs|
      ensures r[d].1.None? <==> forall j :: 0 <= j < |players| ==> |players[j].rows| == 0
    {
      TeamRecordIsProjection(es, TeamDefs[d]);
      RecordForIsFirstMax(es, TeamDefs[d]);
    }
    KeysOfPairs(r, DefKeys(TeamDefs));
    r
  }

  lemma {:induction false} KeysOfPairs<V>(o: Object<V>, ks: seq<string>)
    requires |o| == |ks| && forall d :: 0 <= d < |o| ==> o[d].0 == ks[d]
    ensures Keys(o) == ks
  {
    if |o| > 0 {
      KeysOfPairs(o[1..], ks[1..]);
    }
  }
}
