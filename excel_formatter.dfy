/**
 * The spreadsheet formatter run after a story sheet is written: every cell is set to wrap its
 * text and align to the top, and every column gets a width of five more than the longest
 * text among its non-empty cells.
 */
module ExcelFormatter {
  import opened Text

  // ---------------------------------------------------------------------------
  // Cell values

  /** A cell value of the sheet: empty (`None`), text, or a whole number. */
  datatype Value = Empty | Str(s: string) | Num(n: int)

  /** Python truthiness of a cell value: `None`, `""` and `0` are false. */
  predicate Truthy(v: Value) {
    match v
    case Empty => false
    case Str(s) => s != ""
    case Num(n) => n != 0
  }

  /** `str(cell.value)`. */
  function StrOf(v: Value): string {
    match v
    case Empty => "None"
    case Str(s) => s
    case Num(n) => IntToString(n)
  }

  /** The alignment the formatter gives every cell. */
  datatype Alignment = Alignment(wrapText: bool, vertical: string)

  const WrapTop := Alignment(true, "top")

  // ---------------------------------------------------------------------------
  // Column widths

  /** The length of a cell as the width rule counts it: its string form if it is truthy, else nothing. */
  function CellLength(v: Value): nat {
    if Truthy(v) then |StrOf(v)| else 0
  }

  /** The largest `len` of the cells, 0 for no cells. */
  function Longest(col: seq<Value>, len: Value -> nat): nat
    decreases |col|
  {
    if col == [] then 0
    else
      var m := Longest(col[..|col| - 1], len);
      var l := len(col[|col| - 1]);
      if l > m then l else m
  }

  /** `max_length` after a column: the longest string form of its truthy cells, 0 if none. */
  function MaxLength(col: seq<Value>): nat {
    Longest(col, CellLength)
  }

  /** The width a column gets: the padding of 5 added to its longest truthy cell. */
  function ColumnWidth(col: seq<Value>): int {
    MaxLength(col) + 5
  }

  /** Every column is at least 5 wide, and every truthy cell fits with its padding. */
  lemma ColumnWidthBounds(col: seq<Value>)
    ensures ColumnWidth(col) >= 5
    ensures forall k :: 0 <= k < |col| && Truthy(col[k]) ==> |StrOf(col[k])| + 5 <= ColumnWidth(col)
  {
    forall k | 0 <= k < |col| ensures CellLength(col[k]) <= MaxLength(col) {
      WithinLongest(col, CellLength, k);
    }
  }

  /** No cell is longer than the longest one. */
  lemma {:induction false} WithinLongest(col: seq<Value>, len: Value -> nat, k: nat)
    requires k < |col|
    ensures len(col[k]) <= Longest(col, len)
    decreases |col|
  {
    var n := |col| - 1;
    if k < n {
      WithinLongest(col[..n], len, k);
      assert col[..n][k] == col[k];
    }
  }

  /** The longest of the first r + 1 cells: the longer of the first r's longest and cell r. */
  lemma LongestSnoc(col: seq<Value>, len: Value -> nat, r: nat)
    requires r < |col|
    ensures var m := Longest(col[..r], len);
            Longest(col[..r + 1], len) == if len(col[r]) > m then len(col[r]) else m
  {
    assert col[..r + 1][..r] == col[..r];
  }

  /** A truthy value is never empty as a string. */
  lemma TruthyLength(v: Value)
    ensures Truthy(v) <==> CellLength(v) >= 1
  {
  }

  /** The width is attained: it is 5 for a column without truthy cells, else the length of one of them plus 5. */
  lemma ColumnWidthAttained(col: seq<Value>) returns (k: int)
    ensures k == -1 ==> ColumnWidth(col) == 5 && forall j :: 0 <= j < |col| ==> !Truthy(col[j])
    ensures k != -1 ==> 0 <= k < |col| && Truthy(col[k]) && ColumnWidth(col) == |StrOf(col[k])| + 5
  {
    k := LongestAttained(col, CellLength);
    if k == -1 {
      forall j | 0 <= j < |col| ensures !Truthy(col[j]) {
        TruthyLength(col[j]);
      }
    } else {
      TruthyLength(col[k]);
    }
  }

  /** The longest is 0 with every cell of length 0, or it is the length of a cell. */
  lemma {:induction false} LongestAttained(col: seq<Value>, len: Value -> nat) returns (k: int)
    ensures k == -1 ==> Longest(col, len) == 0 && forall j :: 0 <= j < |col| ==> len(col[j]) == 0
    ensures k != -1 ==> 0 <= k < |col| && Longest(col, len) == len(col[k]) > 0
    decreases |col|
  {
    if col == [] {
      k := -1;
    } else {
      var n := |col| - 1;
      var i := LongestAttained(col[..n], len);
      assert forall j :: 0 <= j < n ==> col[..n][j] == col[j];
      if len(col[n]) > Longest(col[..n], len) {
        k := n;
      } else {
        k := i;
      }
    }
  }

  /** The longest cell of consecutive runs is the longer of their longest cells. */
  lemma MaxLengthAppend(a: seq<Value>, b: seq<Value>)
    ensures MaxLength(a + b) == if MaxLength(a) > MaxLength(b) then MaxLength(a) else MaxLength(b)
  {
    LongestAppend(a, b, CellLength);
  }

  lemma {:induction false} LongestAppend(a: seq<Value>, b: seq<Value>, len: Value -> nat)
    ensures Longest(a + b, len) == if Longest(a, len) > Longest(b, len) then Longest(a, len) else Longest(b, len)
    decreases |b|
  {
    if b != [] {
      var n := |b| - 1;
      assert (a + b)[..|a + b| - 1] == a + b[..n];
      assert (a + b)[|a + b| - 1] == b[n];
      LongestAppend(a, b[..n], len);
    } else {
      assert a + b == a;
    }
  }

  /** Falsy values (`None`, `""`, `0`) do not affect the width, wherever they sit in the column. */
  lemma FalsyIgnored(a: seq<Value>, v: Value, b: seq<Value>)
    requires !Truthy(v)
    ensures ColumnWidth(a + [v] + b) == ColumnWidth(a + b)
  {
    LongestAppend(a + [v], b, CellLength);
    LongestAppend(a, [v], CellLength);
    LongestAppend(a, b, CellLength);
    assert [v][..0] == [];
  }

  // ---------------------------------------------------------------------------
  // Column letters

  /** The letter of a column's 0-based position among the 26. */
  function Letter(k: nat): (c: char)
    requires k < 26
    ensures 'A' <= c <= 'Z'
  {
    (65 + k) as char
  }

  /** `get_column_letter(n)`: column n (1-based) in bijective base 26, so 1 is "A", 26 is "Z" and 27 is "AA". */
  function ColumnLetter(n: nat): (s: string)
    requires n >= 1
    ensures s != []
    ensures forall k :: 0 <= k < |s| ==> 'A' <= s[k] <= 'Z'
    decreases n
  {
    if n <= 26 then [Letter(n - 1)] else ColumnLetter((n - 1) / 26) + [Letter((n - 1) % 26)]
  }

  /** The column number a letter string names (openpyxl's `column_index_from_string`). */
  function ColumnNumber(s: string): int
    decreases |s|
  {
    if s == [] then 0 else ColumnNumber(s[..|s| - 1]) * 26 + (s[|s| - 1] as int - 64)
  }

  /** Letters name their column back, so different columns have different letters. */
  lemma {:induction false} ColumnNumberOfLetter(n: nat)
    requires n >= 1
    ensures ColumnNumber(ColumnLetter(n)) == n
    decreases n
  {
    if n <= 26 {
      assert ColumnLetter(n)[..0] == [];
    } else {
      var q := (n - 1) / 26;
      ColumnNumberOfLetter(q);
      var s := ColumnLetter(n);
      assert s[..|s| - 1] == ColumnLetter(q);
    }
  }

  lemma ColumnLetterInjective(m: nat, n: nat)
    requires m >= 1 && n >= 1 && ColumnLetter(m) == ColumnLetter(n)
    ensures m == n
  {
    ColumnNumberOfLetter(m);
    ColumnNumberOfLetter(n);
  }

  /** The widths the formatter assigns, column by column: column c (0-based) is keyed by the letter of c + 1. */
  function ColumnWidths(columns: seq<seq<Value>>): map<string, int>
    decreases |columns|
  {
    if columns == [] then map[]
    else ColumnWidths(columns[..|columns| - 1])[ColumnLetter(|columns|) := ColumnWidth(columns[|columns| - 1])]
  }

  /** The widths after one more column: its letter set to its width. */
  lemma ColumnWidthsSnoc(columns: seq<seq<Value>>, c: nat)
    requires c < |columns|
    ensures ColumnWidths(columns[..c + 1]) == ColumnWidths(columns[..c])[ColumnLetter(c + 1) := ColumnWidth(columns[c])]
  {
    assert columns[..c + 1][..c] == columns[..c];
  }

  /** Each column gets its own width under its letter: a later column never overwrites an earlier one. */
  lemma {:induction false} ColumnWidthAt(columns: seq<seq<Value>>, c: nat)
    requires c < |columns|
    ensures ColumnLetter(c + 1) in ColumnWidths(columns)
    ensures ColumnWidths(columns)[ColumnLetter(c + 1)] == ColumnWidth(columns[c])
    decreases |columns|
  {
    var n := |columns| - 1;
    if c < n {
      if ColumnLetter(c + 1) == ColumnLetter(n + 1) {
        ColumnLetterInjective(c + 1, n + 1);
      }
      ColumnWidthAt(columns[..n], c);
      assert columns[..n][c] == columns[c];
    }
  }

  /** No key but a column's letter gets a width. */
  lemma {:induction false} ColumnWidthKeys(columns: seq<seq<Value>>, key: string)
    requires key in ColumnWidths(columns)
    ensures 1 <= ColumnNumber(key) <= |columns| && key == ColumnLetter(ColumnNumber(key))
    decreases |columns|
  {
    var n := |columns| - 1;
    if key == ColumnLetter(n + 1) {
      ColumnNumberOfLetter(n + 1);
    } else {
      ColumnWidthKeys(columns[..n], key);
    }
  }

  // ---------------------------------------------------------------------------
  // The worksheet

  /** The active worksheet of the workbook: its columns of values, each cell's alignment, and the column widths. */
  class Worksheet {
    var columns: seq<seq<Value>>
    var alignment: seq<seq<Alignment>>
    var widths: map<string, int>

    /** Every cell has an alignment. */
    predicate Shaped()
      reads this
    {
      ShapedAs(columns, alignment)
    }

    constructor (columns: seq<seq<Value>>, alignment: seq<seq<Alignment>>, widths: map<string, int>)
      requires ShapedAs(columns, alignment)
      ensures this.columns == columns && this.alignment == alignment && this.widths == widths
      ensures Shaped()
    {
      this.columns := columns;
      this.alignment := alignment;
      this.widths := widths;
    }

    /**
     * `auto_format_excel` on the loaded sheet: the values stay, every cell gets wrap-text and
     * top alignment, and every column's width is set under its letter; other widths stay.
     */
    method AutoFormat()
      requires Shaped()
      modifies this
      ensures Shaped() && columns == old(columns)
      ensures Wrapped(columns, alignment, |columns|)
      ensures widths == old(widths) + ColumnWidths(columns)
    {
      alignment, widths := FormatSheet(columns, alignment, widths);
    }
  }

  /** The loop of `auto_format_excel` over the columns, on the sheet's values. */
  method FormatSheet(columns: seq<seq<Value>>, alignment: seq<seq<Alignment>>, widths: map<string, int>)
    returns (aligned: seq<seq<Alignment>>, ws: map<string, int>)
    requires ShapedAs(columns, alignment)
    ensures ShapedAs(columns, aligned)
    ensures Wrapped(columns, aligned, |columns|)
    ensures ws == widths + ColumnWidths(columns)
  {
    aligned, ws := alignment, widths;
    for c := 0 to |columns|
      invariant ShapedAs(columns, aligned)
      invariant Wrapped(columns, aligned, c)
      invariant ws == widths + ColumnWidths(columns[..c])
    {
      var colLetter := ColumnLetter(c + 1);
      var cells, maxLength := FormatColumn(columns[c], aligned[c]);
      FormatStep(widths, ws, columns, aligned, c, cells);
      aligned, ws := aligned[c := cells], ws[colLetter := maxLength + 5];
    }
    assert columns[..|columns|] == columns;
  }

  /** Every cell has an alignment. */
  predicate ShapedAs(columns: seq<seq<Value>>, alignment: seq<seq<Alignment>>) {
    |alignment| == |columns| && forall c :: 0 <= c < |columns| ==> |alignment[c]| == |columns[c]|
  }

  /** One turn of the outer loop: the next column wrapped and its width set, the shape kept. */
  lemma FormatStep(earlier: map<string, int>, widths: map<string, int>, columns: seq<seq<Value>>,
                   alignment: seq<seq<Alignment>>, c: nat, cells: seq<Alignment>)
    requires c < |columns| && ShapedAs(columns, alignment) && Wrapped(columns, alignment, c)
    requires widths == earlier + ColumnWidths(columns[..c])
    requires |cells| == |columns[c]| && forall r :: 0 <= r < |cells| ==> cells[r] == WrapTop
    ensures ShapedAs(columns, alignment[c := cells])
    ensures Wrapped(columns, alignment[c := cells], c + 1)
    ensures widths[ColumnLetter(c + 1) := ColumnWidth(columns[c])] == earlier + ColumnWidths(columns[..c + 1])
  {
    WrappedStep(columns, alignment, c, cells);
    WidthsStep(earlier, columns, c);
  }

  /** The first n columns have every cell wrapped and top-aligned. */
  predicate Wrapped(columns: seq<seq<Value>>, alignment: seq<seq<Alignment>>, n: nat)
  {
    n <= |columns| && |alignment| == |columns| &&
    forall c, r :: 0 <= c < n && 0 <= r < |columns[c]| && r < |alignment[c]| ==> alignment[c][r] == WrapTop
  }

  /** Setting the next column's alignments to wrapped ones extends the wrapped prefix and keeps every column's size. */
  lemma WrappedStep(columns: seq<seq<Value>>, alignment: seq<seq<Alignment>>, c: nat, cells: seq<Alignment>)
    requires Wrapped(columns, alignment, c) && c < |columns|
    requires |cells| == |columns[c]| && forall r :: 0 <= r < |cells| ==> cells[r] == WrapTop
    ensures Wrapped(columns, alignment[c := cells], c + 1)
    ensures forall k :: 0 <= k < |columns| && k != c ==> alignment[c := cells][k] == alignment[k]
  {
  }

  /** The inner loop over one column's cells: each cell's alignment set, and the longest truthy cell measured. */
  method FormatColumn(col: seq<Value>, alignment: seq<Alignment>) returns (cells: seq<Alignment>, maxLength: nat)
    requires |alignment| == |col|
    ensures |cells| == |col| && forall r :: 0 <= r < |cells| ==> cells[r] == WrapTop
    ensures maxLength == MaxLength(col)
  {
    cells := alignment;
    maxLength := 0;
    for r := 0 to |col|
      invariant |cells| == |col|
      invariant forall k :: 0 <= k < r ==> cells[k] == WrapTop
      invariant maxLength == MaxLength(col[..r])
    {
      LongestSnoc(col, CellLength, r);
      cells := cells[r := WrapTop];
      if Truthy(col[r]) {
        var len := |StrOf(col[r])|;
        maxLength := if len > maxLength then len else maxLength;
      }
    }
    assert col[..|col|] == col;
  }

  /** One turn of the outer loop on the widths: the earlier widths with the next column's set. */
  lemma WidthsStep(earlier: map<string, int>, columns: seq<seq<Value>>, c: nat)
    requires c < |columns|
    ensures (earlier + ColumnWidths(columns[..c]))[ColumnLetter(c + 1) := ColumnWidth(columns[c])] ==
            earlier + ColumnWidths(columns[..c + 1])
  {
    ColumnWidthsSnoc(columns, c);
  }
}
