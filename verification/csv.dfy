/** The naive comma/newline tokenisers of the page scripts. There is no
    quoting: a line is a row, a comma is a cell boundary, line 0 is the header.
    Four variants exist:
    - `ParseCSV` (js/games.js, js/leaders.js, js/players.js, js/records.js):
      drops every `\r`, keeps cells as written, a short line leaves the
      trailing headers undefined;
    - `ParseTeamCSV` (js/team.js): trims each line instead of dropping `\r`;
    - `ParseCsv` (js/app.js): trims the whole text, splits on `\r?\n`, trims
      headers and cells, and fills missing cells with `""`;
    - `ParseFallback` (js/player.js): drops every `\r`, trims headers and
      cells, and fills missing cells with `""`. */
module Csv {
  import opened Wrappers
  import opened Strings
  import opened Rows

  /** No later header has the same name as `headers[i]`, so the cell of
      column `i` is the one the row keeps. */
  predicate LastOccurrence(headers: seq<string>, i: int)
    requires 0 <= i < |headers|
  {
    forall j :: i < j < |headers| ==> headers[j] != headers[i]
  }

  /** What column `i` is assigned: its field, or `fill` when the line is
      short (`None`: the column is left `undefined`). */
  function CellAt(cols: seq<string>, i: nat, fill: Option<string>): Option<string> {
    if i < |cols| then Some(cols[i]) else fill
  }

  /** `headers.forEach((h, i) => (row[h] = cell(i)))`: only header names
      become keys. */
  function BuildRow(headers: seq<string>, cols: seq<string>, fill: Option<string>): (r: Row)
    ensures forall k :: k in r ==> k in headers
    decreases |headers|
  {
    if |headers| == 0 then map[]
    else
      var n := |headers| - 1;
      var prev := BuildRow(headers[..n], cols, fill);
      match CellAt(cols, n, fill)
      case Some(c) => prev[headers[n] := c]
      case None => prev - {headers[n]}
  }

  /** Each header name holds the cell of its LAST column (a later duplicate
      overwrites an earlier one); fields beyond the header count are ignored;
      a short line leaves the column at `fill`. */
  lemma {:induction false} BuildRowCell(headers: seq<string>, cols: seq<string>, fill: Option<string>, i: nat)
    requires i < |headers| && LastOccurrence(headers, i)
    ensures Get(BuildRow(headers, cols, fill), headers[i]) == CellAt(cols, i, fill)
    decreases |headers|
  {
    var n := |headers| - 1;
    if i < n {
      var front := headers[..n];
      assert front[i] == headers[i];
      assert LastOccurrence(front, i) by {
        forall j | i < j < |front| ensures front[j] != front[i] {
          assert front[j] == headers[j];
        }
      }
      BuildRowCell(front, cols, fill, i);
      assert headers[n] != headers[i];
    }
  }

  /** With a fill value every header is a key. */
  lemma {:induction false} BuildRowFilled(headers: seq<string>, cols: seq<string>, fill: Option<string>, i: nat)
    requires fill.Some? && i < |headers|
    ensures headers[i] in BuildRow(headers, cols, fill)
    decreases |headers|
  {
    var n := |headers| - 1;
    if i < n {
      assert headers[..n][i] == headers[i];
      BuildRowFilled(headers[..n], cols, fill, i);
    }
  }

  function MapTrim(parts: seq<string>): (r: seq<string>)
    ensures |r| == |parts|
    ensures forall i :: 0 <= i < |parts| ==> r[i] == Trim(parts[i])
  {
    seq(|parts|, i requires 0 <= i < |parts| => Trim(parts[i]))
  }

  /** The comma-separated fields of a line, trimmed in the lenient variants. */
  function Fields(line: string, lenient: bool): seq<string> {
    if lenient then MapTrim(Split(line, ',')) else Split(line, ',')
  }

  /** The lines whose `trim()` is non-empty, in order. */
  function NonBlank(lines: seq<string>): (r: seq<string>)
    ensures |r| <= |lines|
    ensures forall j :: 0 <= j < |r| ==> Trim(r[j]) != ""
  {
    if |lines| == 0 then []
    else if Trim(lines[0]) != "" then [lines[0]] + NonBlank(lines[1..])
    else NonBlank(lines[1..])
  }

  /** `NonBlank` keeps every line that is not blank and nothing else. */
  lemma {:induction false} NonBlankMembers(lines: seq<string>)
    ensures forall x :: x in NonBlank(lines) <==> x in lines && Trim(x) != ""
  {
    if |lines| > 0 {
      NonBlankMembers(lines[1..]);
      assert lines == [lines[0]] + lines[1..];
    }
  }

  /** The row one data line makes under the given headers. */
  function DataRow(headers: seq<string>, line: string, lenient: bool): Row {
    BuildRow(headers, Fields(line, lenient), if lenient then Some("") else None)
  }

  /** The shared shape of every variant: headers from line 0, then one row per
      non-blank later line, in order. */
  function Parse(lines: seq<string>, lenient: bool): (rows: seq<Row>)
    requires |lines| >= 1
    ensures |rows| == |NonBlank(lines[1..])|
    ensures forall j :: 0 <= j < |rows| ==>
      rows[j] == DataRow(Fields(lines[0], lenient), NonBlank(lines[1..])[j], lenient)
  {
    var headers := Fields(lines[0], lenient);
    var data := NonBlank(lines[1..]);
    seq(|data|, j requires 0 <= j < |data| => DataRow(headers, data[j], lenient))
  }

  /** `parseCSV` of js/games.js (identical in js/leaders.js, js/players.js and
      js/records.js). */
  function ParseCSV(raw: string): seq<Row> {
    Parse(Split(Without(raw, '\r'), '\n'), false)
  }

  /** `parseCSV` of js/team.js. Its filter `l.length > 0` runs on trimmed lines,
      where it agrees with `l.trim().length > 0` (`TrimIdempotent`). */
  function ParseTeamCSV(raw: string): seq<Row> {
    Parse(MapTrim(Split(raw, '\n')), false)
  }

  /** `text.split(/\r?\n/)`: split on newlines, and drop the `\r` in front of
      each newline, i.e. one trailing `\r` of every piece but the last. */
  function SplitLines(text: string): (lines: seq<string>)
    ensures |lines| >= 1
    ensures |lines| == |Split(text, '\n')|
    ensures forall i :: 0 <= i < |lines| ==> '\n' !in lines[i]
    ensures forall i :: 0 <= i < |lines| ==>
      lines[i] == Split(text, '\n')[i] || lines[i] + "\r" == Split(text, '\n')[i]
  {
    var pieces := Split(text, '\n');
    seq(|pieces|, i requires 0 <= i < |pieces| =>
      if i < |pieces| - 1 && |pieces[i]| > 0 && pieces[i][|pieces[i]| - 1] == '\r'
      then pieces[i][..|pieces[i]| - 1] else pieces[i])
  }

  /** `parseCsv` of js/app.js. The guard `if (!lines.length) return []` can
      never fire: a split always has a first piece. */
  function ParseCsv(text: string): seq<Row> {
    Parse(SplitLines(Trim(text)), true)
  }

  /** The fallback tokeniser inside `fetchCSV` of js/player.js. The guard
      `if (lines.length === 0) return []` can never fire either. */
  function ParseFallback(text: string): seq<Row> {
    Parse(Split(Without(text, '\r'), '\n'), true)
  }

  /** Every row of the lenient tokenisers has every (trimmed) header as a key;
      a header without a field reads `""`, and extra fields are ignored. */
  lemma LenientRowsHaveEveryHeader(lines: seq<string>, j: nat, i: nat)
    requires |lines| >= 1
    requires j < |Parse(lines, true)|
    requires i < |Fields(lines[0], true)|
    ensures Fields(lines[0], true)[i] in Parse(lines, true)[j]
    ensures var headers := Fields(lines[0], true);
            var cols := Fields(NonBlank(lines[1..])[j], true);
            LastOccurrence(headers, i) ==>
              Get(Parse(lines, true)[j], headers[i]) == Some(if i < |cols| then cols[i] else "")
  {
    var headers := Fields(lines[0], true);
    var cols := Fields(NonBlank(lines[1..])[j], true);
    BuildRowFilled(headers, cols, Some(""), i);
    if LastOccurrence(headers, i) {
      BuildRowCell(headers, cols, Some(""), i);
    }
  }

  lemma {:induction false} NonBlankKeepsAll(lines: seq<string>)
    requires forall j :: 0 <= j < |lines| ==> !IsBlank(lines[j])
    ensures NonBlank(lines) == lines
  {
    if |lines| > 0 {
      TrimEmptyIffBlank(lines[0]);
      NonBlankKeepsAll(lines[1..]);
      assert lines == [lines[0]] + lines[1..];
    }
  }

  /** `NonBlank` distributes over concatenation: it is an order-preserving filter. */
  lemma {:induction false} NonBlankAppend(a: seq<string>, b: seq<string>)
    ensures NonBlank(a + b) == NonBlank(a) + NonBlank(b)
  {
    if |a| > 0 {
      assert (a + b)[1..] == a[1..] + b;
      NonBlankAppend(a[1..], b);
    } else {
      assert a + b == b;
    }
  }

  /** Text a spreadsheet would export for a table without quoting. */
  function Render(headers: seq<string>, records: seq<seq<string>>): string {
    Join([Join(headers, ',')] + RecordLines(records), '\n')
  }

  function RecordLines(records: seq<seq<string>>): (lines: seq<string>)
    ensures |lines| == |records|
  {
    seq(|records|, j requires 0 <= j < |records| => Join(records[j], ','))
  }

  /** A header or cell the naive tokeniser can carry unchanged. */
  predicate Plain(s: string) {
    ',' !in s && '\n' !in s && '\r' !in s
  }

  predicate PlainTable(headers: seq<string>, records: seq<seq<string>>) {
    && (forall i :: 0 <= i < |headers| ==> Plain(headers[i]))
    && (forall j, i :: 0 <= j < |records| && 0 <= i < |records[j]| ==> Plain(records[j][i]))
  }

  lemma RenderedLines(headers: seq<string>, records: seq<seq<string>>)
    requires PlainTable(headers, records)
    ensures Split(Without(Render(headers, records), '\r'), '\n') == [Join(headers, ',')] + RecordLines(records)
  {
    var lines := [Join(headers, ',')] + RecordLines(records);
    LinesHaveNoBreaks(headers, records, lines);
    NotInJoin(lines, '\n', '\r');
    WithoutAbsent(Join(lines, '\n'), '\r');
    SplitJoinRoundTrip(lines, '\n');
  }

  /** No rendered line holds a line break. */
  lemma LinesHaveNoBreaks(headers: seq<string>, records: seq<seq<string>>, lines: seq<string>)
    requires PlainTable(headers, records) && lines == [Join(headers, ',')] + RecordLines(records)
    ensures forall i :: 0 <= i < |lines| ==> '\n' !in lines[i] && '\r' !in lines[i]
  {
    forall i | 0 <= i < |lines| ensures '\n' !in lines[i] && '\r' !in lines[i] {
      if i == 0 {
        NotInJoin(headers, ',', '\n');
        NotInJoin(headers, ',', '\r');
      } else {
        NotInJoin(records[i - 1], ',', '\n');
        NotInJoin(records[i - 1], ',', '\r');
      }
    }
  }

  /** A record with at least one cell that is not white space. */
  predicate HasContent(record: seq<string>) {
    exists i :: 0 <= i < |record| && !IsBlank(record[i])
  }

  lemma RecordLinesNonBlank(headers: seq<string>, records: seq<seq<string>>)
    requires forall j :: 0 <= j < |records| ==> HasContent(records[j])
    ensures NonBlank(RecordLines(records)) == RecordLines(records)
  {
    var lines := RecordLines(records);
    forall j | 0 <= j < |records| ensures !IsBlank(lines[j]) {
      var i :| 0 <= i < |records[j]| && !IsBlank(records[j][i]);
      var k :| 0 <= k < |records[j][i]| && !IsSpace(records[j][i][k]);
      InJoin(records[j], ',', i, records[j][i][k]);
    }
    NonBlankKeepsAll(lines);
  }

  /** Round trip: for distinct headers, cells free of commas and line breaks,
      complete records, and no blank record line, `parseCSV` recovers the
      table: one row per record, each header mapped to its own cell. */
  lemma ParseCSVRoundTrip(headers: seq<string>, records: seq<seq<string>>)
    requires |headers| >= 1
    requires PlainTable(headers, records)
    requires forall i, k :: 0 <= i < k < |headers| ==> headers[i] != headers[k]
    requires forall j :: 0 <= j < |records| ==> |records[j]| == |headers|
    requires forall j :: 0 <= j < |records| ==> HasContent(records[j])
    ensures |ParseCSV(Render(headers, records))| == |records|
    ensures forall j, i :: 0 <= j < |records| && 0 <= i < |headers| ==>
      Get(ParseCSV(Render(headers, records))[j], headers[i]) == Some(records[j][i])
  {
    var lines := [Join(headers, ',')] + RecordLines(records);
    RenderedLines(headers, records);
    SplitJoinRoundTrip(headers, ',');
    assert lines[1..] == RecordLines(records);
    RecordLinesNonBlank(headers, records);
    var rows := ParseCSV(Render(headers, records));
    assert rows == Parse(lines, false);
    forall j, i | 0 <= j < |records| && 0 <= i < |headers|
      ensures Get(rows[j], headers[i]) == Some(records[j][i])
    {
      SplitJoinRoundTrip(records[j], ',');
      assert rows[j] == BuildRow(headers, records[j], None);
      BuildRowCell(headers, records[j], None, i);
    }
  }

  /** `"\n"` replaced by `"\r\n"`: the same text with Windows line endings. */
  function ToCrlf(s: string): string {
    if |s| == 0 then ""
    else (if s[0] == '\n' then "\r\n" else [s[0]]) + ToCrlf(s[1..])
  }

  lemma {:induction false} WithoutToCrlf(s: string)
    requires '\r' !in s
    ensures Without(ToCrlf(s), '\r') == s
  {
    if |s| > 0 {
      WithoutToCrlf(s[1..]);
      var head := if s[0] == '\n' then "\r\n" else [s[0]];
      WithoutAppend(head, ToCrlf(s[1..]), '\r');
      if s[0] == '\n' {
        assert Without(head, '\r') == "\n" by {
          assert head[1..] == "\n";
          assert Without("\n", '\r') == "\n" by {
            assert "\n"[1..] == "";
          }
        }
      } else {
        assert Without(head, '\r') == [s[0]] by {
          assert head[1..] == "";
        }
      }
      assert s == [s[0]] + s[1..];
    }
  }

  lemma {:induction false} WithoutAppend(a: string, b: string, c: char)
    ensures Without(a + b, c) == Without(a, c) + Without(b, c)
  {
    if |a| > 0 {
      assert (a + b)[1..] == a[1..] + b;
      WithoutAppend(a[1..], b, c);
    } else {
      assert a + b == b;
    }
  }

  /** `parseCSV` reads CRLF and LF exports of the same sheet identically. */
  lemma CrlfParsesLikeLf(s: string)
    requires '\r' !in s
    ensures ParseCSV(ToCrlf(s)) == ParseCSV(s)
  {
    WithoutToCrlf(s);
    WithoutAbsent(s, '\r');
  }

  /** The js/team.js tokeniser yields exactly one row per line that is not
      empty after trimming, and each row reads the fields of the trimmed line. */
  lemma TeamRowsAreTrimmedLines(raw: string)
    ensures var lines := MapTrim(Split(raw, '\n'));
            |ParseTeamCSV(raw)| == |NonBlank(lines[1..])|
            && forall j :: 0 <= j < |NonBlank(lines[1..])| ==>
                 ParseTeamCSV(raw)[j] == BuildRow(Split(lines[0], ','), Split(NonBlank(lines[1..])[j], ','), None)
  {
  }
}
