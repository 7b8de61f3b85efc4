/**
 * The template-driven story generator: the requirement is put into the prompt template, and
 * after the reply's table is read every text cell is cleaned of markdown before it is written.
 */
module StoryScript {
  import opened Wrappers
  import opened Text
  import StoriesTable

  /** The placeholder of the prompt template. */
  const Placeholder := "{requirement}"

  /** `prompt_template.replace("{requirement}", requirement)`. */
  function Substitute(template: string, requirement: string): string {
    ReplaceAll(template, Placeholder, requirement)
  }

  /**
   * Every occurrence of the placeholder is replaced: the template is some pieces without the
   * placeholder joined by the placeholder, and the prompt is the same pieces joined by the
   * requirement.
   */
  lemma SubstituteSpec(template: string, requirement: string)
    ensures var pieces := SplitOn(template, Placeholder);
            Join(pieces, Placeholder) == template &&
            Join(pieces, requirement) == Substitute(template, requirement) &&
            forall k :: 0 <= k < |pieces| ==> !Contains(pieces[k], Placeholder)
  {
    SplitOnJoin(template, Placeholder);
    SplitOnPiecesFree(template, Placeholder);
  }

  /** A template without the placeholder is sent as it is. */
  lemma SubstituteAbsent(template: string, requirement: string)
    requires !Contains(template, Placeholder)
    ensures Substitute(template, requirement) == template
  {
  }

  /** A template that opens with the placeholder opens with the requirement. */
  lemma SubstituteLeading(rest: string, requirement: string)
    ensures Substitute(Placeholder + rest, requirement) == requirement + Substitute(rest, requirement)
  {
    ReplaceAllLeading(rest, Placeholder, requirement);
  }

  // ---------------------------------------------------------------------------
  // Cell cleaning

  /** A cell of the frame: text, or a missing value (pandas pads short rows). */
  datatype Cell = Str(s: string) | Missing

  /** The cleaning of a text cell: `<br>` becomes a newline, `*` and then `**` are removed, and the result is stripped. */
  function CleanText(s: string): (r: string)
    ensures '*' !in r
    ensures r == "" || (!IsSpace(r[0]) && !IsSpace(r[|r| - 1]))
  {
    var broken := ReplaceAll(s, "<br>", "\n");
    var starless := ReplaceAll(broken, "*", "");
    RemoveCharAbsent(broken, '*');
    NoDoubleStar(starless);
    var r := Strip(ReplaceAll(starless, "**", ""));
    StripByKeepsAbsent(starless, IsSpace, '*');
    r
  }

  /** What the cleaning keeps: a text with no `*` and no `<br>` is only stripped. */
  lemma CleanPlain(s: string)
    requires '*' !in s && !Contains(s, "<br>")
    ensures CleanText(s) == Strip(s)
  {
    ContainsCharIff(s, '*');
    NoDoubleStar(s);
  }

  /** Once every `*` is gone, removing `**` changes nothing. */
  lemma NoDoubleStar(s: string)
    requires '*' !in s
    ensures ReplaceAll(s, "**", "") == s
  {
    ContainsHead(s, "**");
  }

  /** The lambda passed to `applymap`: text cells are cleaned, other cells pass through unchanged. */
  function CleanCell(cell: Cell): (r: Cell)
    ensures cell.Missing? ==> r == Missing
    ensures cell.Str? ==> r == Str(CleanText(cell.s))
  {
    match cell
    case Str(s) => Str(CleanText(s))
    case Missing => Missing
  }

  /** A leading `<br>` leaves no newline behind: it becomes a newline that the final strip removes. */
  lemma CleanLeadingBreak(s: string)
    ensures CleanText("<br>" + s) == CleanText(s)
  {
    ReplaceAllLeading(s, "<br>", "\n");
    var broken := ReplaceAll(s, "<br>", "\n");
    assert ReplaceAll("<br>" + s, "<br>", "\n") == ['\n'] + broken;
    ReplaceCharConsOther('\n', broken, '*', "");
    var starless := ReplaceAll(broken, "*", "");
    RemoveCharAbsent(broken, '*');
    assert '*' !in ['\n'] + starless;
    NoDoubleStar(['\n'] + starless);
    NoDoubleStar(starless);
    StripLeadingSpace('\n', starless);
  }

  /** `df.applymap(...)`: every cell of the data rows cleaned, in place in the grid; the column names are left alone. */
  function CleanGrid(grid: seq<seq<Cell>>): (r: seq<seq<Cell>>)
    ensures |r| == |grid|
    ensures forall i :: 0 <= i < |grid| ==> |r[i]| == |grid[i]|
    ensures forall i, j :: 0 <= i < |grid| && 0 <= j < |grid[i]| ==> r[i][j] == CleanCell(grid[i][j])
  {
    seq(|grid|, i requires 0 <= i < |grid| => seq(|grid[i]|, j requires 0 <= j < |grid[i]| => CleanCell(grid[i][j])))
  }

  /** The data rows of the frame as cells: every parsed cell is text. */
  function TextCells(data: seq<seq<string>>): (r: seq<seq<Cell>>)
    ensures |r| == |data|
    ensures forall i :: 0 <= i < |data| ==> |r[i]| == |data[i]|
    ensures forall i, j :: 0 <= i < |data| && 0 <= j < |data[i]| ==> r[i][j] == Str(data[i][j])
  {
    seq(|data|, i requires 0 <= i < |data| => seq(|data[i]|, j requires 0 <= j < |data[i]| => Str(data[i][j])))
  }

  /** After cleaning, no text cell of the sheet holds a `*` or begins or ends with whitespace. */
  lemma CleanGridClean(grid: seq<seq<Cell>>, i: nat, j: nat)
    requires i < |grid| && j < |grid[i]|
    ensures var c := CleanGrid(grid)[i][j];
            c.Str? ==> '*' !in c.s && (c.s == "" || (!IsSpace(c.s[0]) && !IsSpace(c.s[|c.s| - 1])))
    ensures CleanGrid(grid)[i][j].Missing? <==> grid[i][j].Missing?
  {
  }

  /**
   * The script from the reply to the cleaned sheet: the frame of the reply's table, and its
   * data rows cleaned. `None` when the reply has no table row.
   */
  function CleanedSheet(content: string): (r: Option<(seq<string>, seq<seq<Cell>>)>)
    ensures r.Some? <==> StoriesTable.ParseTable(content).Some?
    ensures r.Some? ==> r.value.0 == StoriesTable.ParseTable(content).value.columns
    ensures r.Some? ==>
              var data := StoriesTable.ParseTable(content).value.data;
              |r.value.1| == |data| &&
              (forall i :: 0 <= i < |data| ==> |r.value.1[i]| == |data[i]|) &&
              (forall i, j :: 0 <= i < |data| && 0 <= j < |data[i]| ==> r.value.1[i][j] == Str(CleanText(data[i][j])))
  {
    match StoriesTable.ParseTable(content)
    case None => None
    case Some(frame) => Some((frame.columns, CleanGrid(TextCells(frame.data))))
  }

  /** Every cell of the saved sheet is text with no `*` and no whitespace at either end. */
  lemma CleanedSheetCells(content: string, i: nat, j: nat)
    requires CleanedSheet(content).Some?
    requires i < |CleanedSheet(content).value.1| && j < |CleanedSheet(content).value.1[i]|
    ensures var c := CleanedSheet(content).value.1[i][j];
            c.Str? && '*' !in c.s && (c.s == "" || (!IsSpace(c.s[0]) && !IsSpace(c.s[|c.s| - 1])))
  {
  }
}
