/**
 * The JIRA helper script: read "key: value" fields out of the text of a PDF, and build the
 * fixed payload of the bug ticket it files.
 */
module JiraApi {
  import opened Wrappers
  import opened Text

  // ---------------------------------------------------------------------------
  // Field extraction

  /** The text `extract_fields_from_pdf` collects: each page's text followed by a newline, in page order. */
  function PagesText(pages: seq<string>): string
    decreases |pages|
  {
    if pages == [] then "" else PagesText(pages[..|pages| - 1]) + pages[|pages| - 1] + "\n"
  }

  /** The text of consecutive runs of pages is the two texts one after the other. */
  lemma {:induction false} PagesTextAppend(a: seq<string>, b: seq<string>)
    ensures PagesText(a + b) == PagesText(a) + PagesText(b)
    decreases |b|
  {
    if b == [] {
      assert a + b == a;
    } else {
      var n := |b| - 1;
      assert (a + b)[..|a + b| - 1] == a + b[..n];
      assert (a + b)[|a + b| - 1] == b[n];
      PagesTextAppend(a, b[..n]);
    }
  }

  /** The collected text has one newline per page besides the pages' own characters, and ends with one. */
  lemma {:induction false} PagesTextShape(pages: seq<string>)
    ensures |PagesText(pages)| == TotalLength(pages) + |pages|
    ensures pages != [] ==> PagesText(pages)[|PagesText(pages)| - 1] == '\n'
    decreases |pages|
  {
    if pages != [] {
      var n := |pages| - 1;
      PagesTextShape(pages[..n]);
      assert pages == pages[..n] + [pages[n]];
      TotalLengthAppend(pages[..n], [pages[n]]);
      assert TotalLength([pages[n]]) == |pages[n]|;
    }
  }

  /** Python's `line.split(":", 1)` for a line holding a ':': the text before the first ':' and the text after it. */
  function SplitAtColon(line: string): (r: (string, string))
    requires ':' in line
    ensures r.0 + ":" + r.1 == line
    ensures ':' !in r.0
  {
    ContainsCharIff(line, ':');
    var i := Find(line, [':']).value;
    assert line[i..i + 1] == [':'];
    assert line == line[..i] + ":" + line[i + 1..];
    FindPrefixFree(line, [':']);
    ContainsCharIff(line[..i], ':');
    (line[..i], line[i + 1..])
  }

  /** The split is at the first ':' only: whatever follows it, colons included, is the value. */
  lemma SplitAtFirstColon(a: string, b: string)
    requires ':' !in a
    ensures SplitAtColon(a + ":" + b) == (a, b)
  {
    var line := a + ":" + b;
    assert OccursAt(line, [':'], |a|);
    forall j | 0 <= j < |a| ensures !OccursAt(line, [':'], j) {
      assert line[j] == a[j];
    }
    var i := Find(line, [':']).value;
    assert i == |a|;
    assert line[..i] == a;
    assert line[i + 1..] == b;
  }

  /** The key a line contributes: the stripped text before its first ':'. */
  function KeyOf(line: string): string
    requires ':' in line
  {
    Strip(SplitAtColon(line).0)
  }

  /** The value a line contributes: the stripped text after its first ':'. */
  function ValueOf(line: string): string
    requires ':' in line
  {
    Strip(SplitAtColon(line).1)
  }

  /** The dictionary the loop over the lines builds: each line with a ':' sets its key, later lines overwriting earlier ones. */
  function FieldsOf(lines: seq<string>): map<string, string>
    decreases |lines|
  {
    if lines == [] then map[] else AddLine(FieldsOf(lines[..|lines| - 1]), lines[|lines| - 1])
  }

  /** One turn of the loop: a line holding a ':' sets its key to its value, any other line changes nothing. */
  function AddLine(fields: map<string, string>, line: string): map<string, string> {
    if ':' in line then fields[KeyOf(line) := ValueOf(line)] else fields
  }

  /** Every page gave text: pdfplumber's `extract_text` gives `None` for a page with no text layer. */
  predicate AllText(pages: seq<Option<string>>) {
    forall i :: 0 <= i < |pages| ==> pages[i].Some?
  }

  /** The texts of pages that all gave one, in page order. */
  function Texts(pages: seq<Option<string>>): (texts: seq<string>)
    requires AllText(pages)
    ensures |texts| == |pages|
    ensures forall k :: 0 <= k < |pages| ==> texts[k] == pages[k].value
    decreases |pages|
  {
    if pages == [] then [] else Texts(pages[..|pages| - 1]) + [pages[|pages| - 1].value]
  }

  /**
   * The first loop of `extract_fields_from_pdf`: the text of all pages, or `None` when it raises,
   * which `None + '\n'` does on the first page that gave no text.
   */
  method CollectText(pages: seq<Option<string>>) returns (text: Option<string>)
    ensures text.None? <==> !AllText(pages)
    ensures text.Some? ==> text.value == PagesText(Texts(pages))
  {
    var acc := "";
    for i := 0 to |pages|
      invariant AllText(pages[..i])
      invariant acc == PagesText(Texts(pages[..i]))
    {
      if pages[i].None? {
        return None;
      }
      var p := pages[..i + 1];
      assert p[..i] == pages[..i];
      assert AllText(p);
      assert Texts(p) == Texts(pages[..i]) + [pages[i].value];
      acc := acc + pages[i].value + "\n";
    }
    assert pages[..|pages|] == pages;
    text := Some(acc);
  }

  /** The second loop of `extract_fields_from_pdf`: the fields of the lines. */
  method ParseFields(lines: seq<string>) returns (fields: map<string, string>)
    ensures fields == FieldsOf(lines)
  {
    fields := map[];
    for i := 0 to |lines|
      invariant fields == FieldsOf(lines[..i])
    {
      var line := lines[i];
      assert lines[..i + 1] == lines[..i] + [line];
      if ':' in line {
        var (key, value) := SplitAtColon(line);
        assert Strip(key) == KeyOf(line) && Strip(value) == ValueOf(line);
        fields := fields[Strip(key) := Strip(value)];
      }
      FieldsAddLine(lines[..i], line);
    }
    assert lines[..|lines|] == lines;
  }

  /**
   * `extract_fields_from_pdf`, with pdfplumber's page texts as its input: the fields of the lines
   * of the collected text, or `None` when a page gave no text and the script raises.
   */
  method ExtractFields(pages: seq<Option<string>>) returns (fields: Option<map<string, string>>)
    ensures fields.None? <==> !AllText(pages)
    ensures fields.Some? ==> fields.value == FieldsOf(SplitLines(PagesText(Texts(pages))))
  {
    var text := CollectText(pages);
    if text.None? {
      return None;
    }
    var lines := SplitLines(text.value);
    var parsed := ParseFields(lines);
    fields := Some(parsed);
  }

  lemma FieldsAddLine(lines: seq<string>, line: string)
    ensures FieldsOf(lines + [line]) == AddLine(FieldsOf(lines), line)
  {
    assert (lines + [line])[..|lines|] == lines;
  }

  /** Only lines holding a ':' give fields: every key comes from such a line. */
  lemma {:induction false} FieldKeySource(lines: seq<string>, key: string) returns (j: nat)
    requires key in FieldsOf(lines)
    ensures j < |lines| && ':' in lines[j] && KeyOf(lines[j]) == key && FieldsOf(lines)[key] == ValueOf(lines[j])
    decreases |lines|
  {
    var n := |lines| - 1;
    var line := lines[n];
    if ':' in line && KeyOf(line) == key {
      j := n;
    } else {
      j := FieldKeySource(lines[..n], key);
      assert lines[..n][j] == lines[j];
    }
  }

  /** The last line that holds a given key sets its value: later lines with the same key overwrite earlier ones. */
  lemma {:induction false} LastWriterWins(lines: seq<string>, j: nat)
    requires j < |lines| && ':' in lines[j]
    requires forall m :: j < m < |lines| && ':' in lines[m] ==> KeyOf(lines[m]) != KeyOf(lines[j])
    ensures KeyOf(lines[j]) in FieldsOf(lines) && FieldsOf(lines)[KeyOf(lines[j])] == ValueOf(lines[j])
    decreases |lines|
  {
    var n := |lines| - 1;
    var init := lines[..n];
    assert lines == init + [lines[n]];
    FieldsAddLine(init, lines[n]);
    if j < n {
      assert forall m :: j < m < n ==> init[m] == lines[m];
      assert init[j] == lines[j];
      LastWriterWins(init, j);
    }
  }

  // ---------------------------------------------------------------------------
  // The ticket payload

  /** The `fields` of a JIRA issue as the scripts send them; `components` are the component names. */
  datatype Payload = Payload(
    project: string,
    issueType: string,
    summary: string,
    description: string,
    priority: string,
    labels: seq<string>,
    components: seq<string>,
    environment: string)

  const HdmiSummary := "Video fails to play on HDMI input - regression"
  const FixedDescription := "Steps to reproduce:\n1. Open the app\n2. Click the button\nExpected: X\nActual: Y"

  /** `prepare_jira_payload`: the extracted fields are ignored and the ticket is always the same bug. */
  function PreparePayload(fields: map<string, string>): (p: Payload)
    ensures p.project == "DP" && p.issueType == "Bug" && p.priority == "Medium"
    ensures p.summary == HdmiSummary && p.description == FixedDescription
    ensures p.labels == ["Regression", "STB", "New_Test-New_Functionality"]
    ensures p.components == ["Defect_scrub"] && p.environment == "DTH Sky Q"
  {
    Payload("DP", "Bug", HdmiSummary, FixedDescription, "Medium",
            ["Regression", "STB", "New_Test-New_Functionality"], ["Defect_scrub"], "DTH Sky Q")
  }
}
