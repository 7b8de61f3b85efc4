/**
 * The markdown-table reader of the story generators: the model's reply is cut into lines,
 * the table lines become rows without their outer pipes, the rows are split into cells, and
 * the first row names the columns of the sheet that gets written.
 */
module StoriesTable {
  import opened Wrappers
  import opened Text

  /** A line is a table row when it holds a '|' and its raw text does not begin with "|---". */
  predicate IsRowLine(line: string) {
    '|' in line && !StartsWith(line, "|---")
  }

  /** `line.strip().strip('|')`: outer whitespace removed first, then outer pipes. */
  function RowOf(line: string): (row: string)
    ensures |row| <= |line|
    ensures row == "" || (row[0] != '|' && row[|row| - 1] != '|')
  {
    StripChar(Strip(line), '|')
  }

  /** `rows`: the rows of a list of lines, in line order. */
  function RowsOf(lines: seq<string>): seq<string> {
    FilterMap(lines, IsRowLine, RowOf)
  }

  /** `row.split('|')`. */
  function CellsOf(row: string): seq<string> {
    SplitOn(row, "|")
  }

  /** `parsed`: the cells of every row of the reply. */
  function Parsed(content: string): (parsed: seq<seq<string>>)
    ensures |parsed| == |RowsOf(SplitLines(content))|
    ensures forall k :: 0 <= k < |parsed| ==> parsed[k] == CellsOf(RowsOf(SplitLines(content))[k])
  {
    var rows := RowsOf(SplitLines(content));
    seq(|rows|, k requires 0 <= k < |rows| => CellsOf(rows[k]))
  }

  /** The sheet handed to pandas: column names and data rows. */
  datatype Frame = Frame(columns: seq<string>, data: seq<seq<string>>)

  /** Every string of a list stripped. */
  function StripEach(cells: seq<string>): (r: seq<string>)
    ensures |r| == |cells|
    ensures forall k :: 0 <= k < |cells| ==> r[k] == Strip(cells[k])
  {
    seq(|cells|, k requires 0 <= k < |cells| => Strip(cells[k]))
  }

  /**
   * `pd.DataFrame(parsed[1:], columns=[col.strip() for col in parsed[0]])`. A reply without
   * any table row has no `parsed[0]`: the script stops with an `IndexError`, here `None`.
   */
  function BuildFrame(parsed: seq<seq<string>>): (f: Option<Frame>)
    ensures f.None? <==> parsed == []
    ensures f.Some? ==> f.value.columns == StripEach(parsed[0]) && f.value.data == parsed[1..]
  {
    if parsed == [] then None else Some(Frame(StripEach(parsed[0]), parsed[1..]))
  }

  /** The whole reader: from the model's reply to the frame. */
  function ParseTable(content: string): Option<Frame> {
    BuildFrame(Parsed(content))
  }

  // ---------------------------------------------------------------------------
  // Properties

  /** A row of the table splits into one more cell than it has pipes, and the cells joined with '|' give the row back. */
  lemma CellsShape(row: string)
    ensures |CellsOf(row)| == CountChar(row, '|') + 1
    ensures Join(CellsOf(row), "|") == row
  {
    SplitCharCount(row, '|');
  }

  /** No cell holds a '|'. */
  lemma CellsPipeFree(row: string, k: nat)
    requires k < |CellsOf(row)|
    ensures '|' !in CellsOf(row)[k]
  {
    SplitOnPieceFree(row, "|", k);
    ContainsCharIff(CellsOf(row)[k], '|');
  }

  /** Rows follow line order: the rows of consecutive runs of lines are the two row lists one after the other. */
  lemma RowsAppend(a: seq<string>, b: seq<string>)
    ensures RowsOf(a + b) == RowsOf(a) + RowsOf(b)
  {
    FilterMapAppend(a, b, IsRowLine, RowOf);
  }

  /** One line gives one row exactly when it is a row line. */
  lemma RowsOne(line: string)
    ensures IsRowLine(line) ==> RowsOf([line]) == [RowOf(line)]
    ensures !IsRowLine(line) ==> RowsOf([line]) == []
  {
    FilterMapOne(line, IsRowLine, RowOf);
  }

  /** Every row comes from a row line of the input, and the rows before it from the lines before that line. */
  lemma RowSource(lines: seq<string>, k: nat) returns (j: nat)
    requires k < |RowsOf(lines)|
    ensures j < |lines| && IsRowLine(lines[j]) && RowsOf(lines)[k] == RowOf(lines[j])
    ensures |RowsOf(lines[..j])| == k
  {
    j := FilterMapSource(lines, IsRowLine, RowOf, k);
  }

  /** A row line is kept only by its raw text: a separator that is indented is kept, since the test is not on the stripped line. */
  lemma IndentedSeparatorKept(indent: string, rest: string)
    requires indent != "" && indent[0] != '|'
    ensures IsRowLine(indent + "|---" + rest)
  {
    var line := indent + "|---" + rest;
    assert line[|indent|] == '|';
    assert line[0] == indent[0];
  }

  /** A separator written with an alignment colon, "|:--", is not recognised and is kept as a row. */
  lemma AlignedSeparatorKept(rest: string)
    ensures IsRowLine("|:--" + rest)
  {
    var line := "|:--" + rest;
    assert line[0] == '|';
    assert line[1] == ':';
  }

  /** A line that begins with "|---" is never a row, whatever follows. */
  lemma SeparatorDropped(rest: string)
    ensures !IsRowLine("|---" + rest)
  {
    var line := "|---" + rest;
    assert line[..4] == "|---";
  }

  /** A line becomes a row only by holding a pipe: plain text between tables is skipped. */
  lemma PlainLineDropped(line: string)
    requires '|' !in line
    ensures RowsOf([line]) == []
  {
    RowsOne(line);
  }

  /** A frame exists exactly when the reply has a table row; its columns are the stripped cells of the first row. */
  lemma ParseTableShape(content: string)
    ensures ParseTable(content).Some? <==> RowsOf(SplitLines(content)) != []
    ensures ParseTable(content).Some? ==>
              var rows := RowsOf(SplitLines(content));
              ParseTable(content).value.columns == StripEach(CellsOf(rows[0])) &&
              |ParseTable(content).value.data| == |rows| - 1
  {
  }
}
