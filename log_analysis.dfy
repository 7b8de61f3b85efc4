/**
 * The log pipeline of the root-cause analysis: read a log (the text of a PDF, or a plain
 * text file), keep the lines that match a case-insensitive error pattern, and pack lines
 * greedily into chunks under a character budget before each chunk goes to the model.
 */
module LogAnalysis {
  import opened Wrappers
  import opened Text

  // ---------------------------------------------------------------------------
  // Matching

  /**
   * A regular expression made of literal alternatives `a|b|c`, compiled with `re.IGNORECASE`:
   * `regex.search(line)` succeeds when some alternative occurs in the line, ignoring case.
   */
  predicate Matches(line: string, alternatives: seq<string>)
    decreases |alternatives|
  {
    alternatives != [] &&
    (ContainsIgnoreCase(line, alternatives[0]) || Matches(line, alternatives[1..]))
  }

  /** The pattern the analysis runs with, `ERROR|404|No signal`. */
  const ErrorPattern: seq<string> := ["ERROR", "404", "No signal"]

  /** A line matches some alternative exactly when one of the alternatives occurs in it, ignoring case. */
  lemma {:induction false} MatchesIff(line: string, alternatives: seq<string>)
    ensures Matches(line, alternatives) <==>
            exists k :: 0 <= k < |alternatives| && ContainsIgnoreCase(line, alternatives[k])
    decreases |alternatives|
  {
    if alternatives != [] {
      MatchesIff(line, alternatives[1..]);
      if !ContainsIgnoreCase(line, alternatives[0]) && Matches(line, alternatives[1..]) {
        var k :| 0 <= k < |alternatives[1..]| && ContainsIgnoreCase(line, alternatives[1..][k]);
        assert ContainsIgnoreCase(line, alternatives[k + 1]);
      }
      if exists k :: 0 <= k < |alternatives| && ContainsIgnoreCase(line, alternatives[k]) {
        var k :| 0 <= k < |alternatives| && ContainsIgnoreCase(line, alternatives[k]);
        if k > 0 {
          assert ContainsIgnoreCase(line, alternatives[1..][k - 1]);
        }
      }
    }
  }

  /** With the analysis pattern, a line is kept exactly when it holds "error", "404" or "no signal" in any case. */
  lemma ErrorPatternMatches(line: string)
    ensures Matches(line, ErrorPattern) <==>
            ContainsIgnoreCase(line, "ERROR") || ContainsIgnoreCase(line, "404") ||
            ContainsIgnoreCase(line, "No signal")
  {
    assert ErrorPattern[1..] == ["404", "No signal"];
    assert ErrorPattern[1..][1..] == ["No signal"];
    assert ErrorPattern[1..][1..][1..] == [];
  }

  // ---------------------------------------------------------------------------
  // Reading the log

  /**
   * The text of a PDF as `extract_text_from_pdf` builds it: every page whose extracted text is
   * present and non-empty, followed by a newline, in page order. `None` is a page without text.
   */
  function PdfText(pages: seq<Option<string>>): string
    decreases |pages|
  {
    if pages == [] then ""
    else
      var page := pages[|pages| - 1];
      PdfText(pages[..|pages| - 1]) + (if page.Some? && page.value != "" then page.value + "\n" else "")
  }

  /** The loop of `extract_text_from_pdf`. */
  method ExtractPdfText(pages: seq<Option<string>>) returns (fullText: string)
    ensures fullText == PdfText(pages)
  {
    fullText := "";
    var i := 0;
    while i < |pages|
      invariant 0 <= i <= |pages|
      invariant fullText == PdfText(pages[..i])
    {
      var text := pages[i];
      assert pages[..i + 1][..i] == pages[..i];
      if text.Some? && text.value != "" {
        fullText := fullText + text.value + "\n";
      }
      i := i + 1;
    }
    assert pages[..i] == pages;
  }

  /** The PDF text of consecutive page runs is the two texts one after the other. */
  lemma {:induction false} PdfTextAppend(a: seq<Option<string>>, b: seq<Option<string>>)
    ensures PdfText(a + b) == PdfText(a) + PdfText(b)
    decreases |b|
  {
    if b == [] {
      assert a + b == a;
    } else {
      var n := |b| - 1;
      assert a + b == (a + b[..n]) + [b[n]];
      assert b == b[..n] + [b[n]];
      PdfTextSnoc(a + b[..n], b[n]);
      PdfTextSnoc(b[..n], b[n]);
      PdfTextAppend(a, b[..n]);
    }
  }

  /** One more page adds its text, with a newline, when it has text. */
  lemma PdfTextSnoc(a: seq<Option<string>>, x: Option<string>)
    ensures PdfText(a + [x]) == PdfText(a) + (if x.Some? && x.value != "" then x.value + "\n" else "")
  {
    assert (a + [x])[..|a|] == a;
  }

  /** A PDF gives empty text exactly when none of its pages has text. */
  lemma {:induction false} PdfTextEmptyIff(pages: seq<Option<string>>)
    ensures PdfText(pages) == "" <==> forall k :: 0 <= k < |pages| ==> pages[k].None? || pages[k].value == ""
    decreases |pages|
  {
    if pages != [] {
      var n := |pages| - 1;
      PdfTextEmptyIff(pages[..n]);
      assert forall k :: 0 <= k < n ==> pages[..n][k] == pages[k];
    }
  }

  /** Whether `stream_and_filter_log` reads the path as a PDF: a case-sensitive ".pdf" suffix. */
  predicate IsPdfPath(path: string) {
    EndsWith(path, ".pdf")
  }

  /**
   * The lines `stream_and_filter_log` reads from `path`. The file's contents come in as
   * parameters: `pages` are the page texts if the file is read as a PDF, `fileText` is its
   * decoded text if it is read as plain text. A PDF's lines lose their newlines
   * (`splitlines`); a text file's lines keep them (`readlines`).
   */
  function LogLines(path: string, pages: seq<Option<string>>, fileText: string): (lines: seq<string>)
    ensures IsPdfPath(path) ==> lines == SplitLines(PdfText(pages))
    ensures !IsPdfPath(path) ==> lines == ReadLines(fileText)
  {
    if IsPdfPath(path) then SplitLines(PdfText(pages)) else ReadLines(fileText)
  }

  /** The PDF branch is taken exactly for a path with the exact suffix ".pdf" (".PDF" reads as text). */
  lemma PdfBranchIff(path: string)
    ensures IsPdfPath(path) <==> |path| >= 4 && path[|path| - 4..] == ".pdf"
  {
  }

  // ---------------------------------------------------------------------------
  // Filtering

  /** The lines the filter yields: every matching line, stripped, in input order. */
  function Filtered(lines: seq<string>, alternatives: seq<string>): seq<string>
    decreases |lines|
  {
    if lines == [] then []
    else
      var line := lines[|lines| - 1];
      Filtered(lines[..|lines| - 1], alternatives) + (if Matches(line, alternatives) then [Strip(line)] else [])
  }

  /** The yielding loop of `stream_and_filter_log`, collected into a list. */
  method FilterLines(lines: seq<string>, alternatives: seq<string>) returns (kept: seq<string>)
    ensures kept == Filtered(lines, alternatives)
  {
    kept := [];
    for i := 0 to |lines|
      invariant kept == Filtered(lines[..i], alternatives)
    {
      assert lines[..i + 1][..i] == lines[..i];
      var line := lines[i];
      if Matches(line, alternatives) {
        kept := kept + [Strip(line)];
      }
    }
    assert lines[..|lines|] == lines;
  }

  /** Filtering a concatenation filters each part. */
  lemma {:induction false} FilteredAppend(a: seq<string>, b: seq<string>, alternatives: seq<string>)
    ensures Filtered(a + b, alternatives) == Filtered(a, alternatives) + Filtered(b, alternatives)
    decreases |b|
  {
    if b == [] {
      assert a + b == a;
    } else {
      var n := |b| - 1;
      assert a + b == (a + b[..n]) + [b[n]];
      assert b == b[..n] + [b[n]];
      FilteredSnoc(a + b[..n], b[n], alternatives);
      FilteredSnoc(b[..n], b[n], alternatives);
      FilteredAppend(a, b[..n], alternatives);
    }
  }

  /** One more line adds its stripped form when it matches. */
  lemma FilteredSnoc(a: seq<string>, x: string, alternatives: seq<string>)
    ensures Filtered(a + [x], alternatives) == Filtered(a, alternatives) + (if Matches(x, alternatives) then [Strip(x)] else [])
  {
    assert (a + [x])[..|a|] == a;
  }

  /** One line is kept, stripped, exactly when it matches; the match is tested on the unstripped line. */
  lemma FilteredOne(line: string, alternatives: seq<string>)
    ensures Matches(line, alternatives) ==> Filtered([line], alternatives) == [Strip(line)]
    ensures !Matches(line, alternatives) ==> Filtered([line], alternatives) == []
  {
    FilteredSnoc([], line, alternatives);
    assert [] + [line] == [line];
  }

  /** The filter never yields more lines than it reads, and yields them all when every line matches. */
  lemma {:induction false} FilteredLength(lines: seq<string>, alternatives: seq<string>)
    ensures |Filtered(lines, alternatives)| <= |lines|
    ensures (forall k :: 0 <= k < |lines| ==> Matches(lines[k], alternatives)) ==>
            |Filtered(lines, alternatives)| == |lines|
    decreases |lines|
  {
    if lines != [] {
      var n := |lines| - 1;
      FilteredLength(lines[..n], alternatives);
      assert forall k :: 0 <= k < n ==> lines[..n][k] == lines[k];
    }
  }

  /** Every yielded line is the stripped form of a matching input line. */
  lemma {:induction false} FilteredSource(lines: seq<string>, alternatives: seq<string>, x: string) returns (k: nat)
    requires x in Filtered(lines, alternatives)
    ensures k < |lines| && Matches(lines[k], alternatives) && Strip(lines[k]) == x
    decreases |lines|
  {
    var n := |lines| - 1;
    if x in Filtered(lines[..n], alternatives) {
      k := FilteredSource(lines[..n], alternatives, x);
      assert lines[..n][k] == lines[k];
    } else {
      k := n;
    }
  }

  /** Every matching input line is yielded, stripped. */
  lemma FilteredKeeps(lines: seq<string>, alternatives: seq<string>, k: nat)
    requires k < |lines| && Matches(lines[k], alternatives)
    ensures Strip(lines[k]) in Filtered(lines, alternatives)
  {
    assert lines == lines[..k] + [lines[k]] + lines[k + 1..];
    FilteredAppend(lines[..k] + [lines[k]], lines[k + 1..], alternatives);
    FilteredAppend(lines[..k], [lines[k]], alternatives);
    FilteredOne(lines[k], alternatives);
  }

  /** `stream_and_filter_log`: the matching lines of the log, stripped. */
  method StreamAndFilterLog(path: string, pages: seq<Option<string>>, fileText: string, alternatives: seq<string>)
    returns (kept: seq<string>)
    ensures kept == Filtered(LogLines(path, pages, fileText), alternatives)
  {
    var lines: seq<string>;
    if IsPdfPath(path) {
      var fullText := ExtractPdfText(pages);
      lines := SplitLines(fullText);
    } else {
      lines := ReadLines(fileText);
    }
    kept := FilterLines(lines, alternatives);
  }

  // ---------------------------------------------------------------------------
  // Chunking

  /** The lines of the groups, one group after the other. */
  function Flatten(groups: seq<seq<string>>): seq<string>
    decreases |groups|
  {
    if groups == [] then [] else Flatten(groups[..|groups| - 1]) + groups[|groups| - 1]
  }

  lemma FlattenCons(groups: seq<seq<string>>)
    requires groups != []
    ensures Flatten(groups) == groups[0] + Flatten(groups[1..])
  {
    assert groups == [groups[0]] + groups[1..];
    FlattenAppend([groups[0]], groups[1..]);
    FlattenSnoc([], groups[0]);
    assert [] + [groups[0]] == [groups[0]];
  }

  lemma {:induction false} FlattenAppend(a: seq<seq<string>>, b: seq<seq<string>>)
    ensures Flatten(a + b) == Flatten(a) + Flatten(b)
    decreases |b|
  {
    if b == [] {
      assert a + b == a;
    } else {
      var n := |b| - 1;
      assert a + b == (a + b[..n]) + [b[n]];
      assert b == b[..n] + [b[n]];
      FlattenSnoc(a + b[..n], b[n]);
      FlattenSnoc(b[..n], b[n]);
      FlattenAppend(a, b[..n]);
    }
  }

  lemma FlattenSnoc(a: seq<seq<string>>, x: seq<string>)
    ensures Flatten(a + [x]) == Flatten(a) + x
  {
    assert (a + [x])[..|a|] == a;
  }

  /** Concatenating the groups gives back the lines, in order, with nothing dropped or repeated. */
  predicate Covers(lines: seq<string>, groups: seq<seq<string>>) {
    Flatten(groups) == lines
  }

  /** A group of two or more lines has at most `maxChars` characters in its lines (newlines not counted). */
  predicate WithinBudget(groups: seq<seq<string>>, maxChars: int) {
    forall k :: 0 <= k < |groups| && |groups[k]| >= 2 ==> TotalLength(groups[k]) <= maxChars
  }

  /** Every group but the first is non-empty, and each would overflow with the next group's first line. */
  predicate Greedy(groups: seq<seq<string>>, maxChars: int) {
    (forall k :: 0 < k < |groups| ==> groups[k] != []) &&
    (forall k :: 0 <= k < |groups| - 1 ==> TotalLength(groups[k]) + |groups[k + 1][0]| > maxChars)
  }

  /** There are no groups exactly for no lines, and the first group is empty exactly when the first line alone overflows. */
  predicate EmptyOnlyFirst(lines: seq<string>, groups: seq<seq<string>>, maxChars: int) {
    (groups == [] <==> lines == []) &&
    (groups != [] && lines != [] ==> (groups[0] == [] <==> |lines[0]| > maxChars))
  }

  /** The shape of the output of `chunk_lines`, as line groups. */
  predicate IsGreedyChunking(lines: seq<string>, maxChars: int, groups: seq<seq<string>>) {
    Covers(lines, groups) && WithinBudget(groups, maxChars) && Greedy(groups, maxChars) &&
    EmptyOnlyFirst(lines, groups, maxChars)
  }

  /**
   * What holds in `chunk_lines` after `i` lines: `groups` are the chunks yielded so far and
   * `chunk` the lines collected since.
   */
  predicate ChunkingSoFar(lines: seq<string>, maxChars: int, i: nat, groups: seq<seq<string>>, chunk: seq<string>) {
    i <= |lines| &&
    Flatten(groups) + chunk == lines[..i] &&
    WithinBudget(groups, maxChars) &&
    (|chunk| >= 2 ==> TotalLength(chunk) <= maxChars) &&
    Greedy(groups, maxChars) &&
    (i == 0 ==> groups == [] && chunk == []) &&
    (i > 0 ==> chunk != []) &&
    (groups != [] ==> chunk != [] && TotalLength(groups[|groups| - 1]) + |chunk[0]| > maxChars) &&
    (groups != [] ==> (groups[0] == [] <==> |lines[0]| > maxChars)) &&
    (groups == [] && i > 0 ==> |lines[0]| <= maxChars)
  }

  /** The output once the lines are used up: the collected lines are yielded if there are any. */
  function Finish(groups: seq<seq<string>>, chunk: seq<string>): seq<seq<string>> {
    if chunk != [] then groups + [chunk] else groups
  }

  lemma StepAppends(lines: seq<string>, maxChars: int, i: nat, groups: seq<seq<string>>, chunk: seq<string>)
    requires i < |lines| && ChunkingSoFar(lines, maxChars, i, groups, chunk)
    requires TotalLength(chunk) + |lines[i]| <= maxChars
    ensures ChunkingSoFar(lines, maxChars, i + 1, groups, chunk + [lines[i]])
  {
    var line := lines[i];
    assert lines[..i + 1] == lines[..i] + [line];
    AppendLength(chunk, line);
    assert (chunk + [line])[0] == if chunk == [] then line else chunk[0];
  }

  lemma AppendLength(chunk: seq<string>, line: string)
    ensures TotalLength(chunk + [line]) == TotalLength(chunk) + |line|
  {
    TotalLengthAppend(chunk, [line]);
    assert TotalLength([line]) == |line|;
  }

  lemma StepYields(lines: seq<string>, maxChars: int, i: nat, groups: seq<seq<string>>, chunk: seq<string>)
    requires i < |lines| && ChunkingSoFar(lines, maxChars, i, groups, chunk)
    requires TotalLength(chunk) + |lines[i]| > maxChars
    ensures ChunkingSoFar(lines, maxChars, i + 1, groups + [chunk], [lines[i]])
  {
    var g := groups + [chunk];
    YieldKeeps(groups, chunk, maxChars);
    YieldCovers(lines, i, groups, chunk);
    YieldFirst(lines, maxChars, i, groups, chunk);
    assert g[|g| - 1] == chunk;
  }

  lemma YieldCovers(lines: seq<string>, i: nat, groups: seq<seq<string>>, chunk: seq<string>)
    requires i < |lines| && Flatten(groups) + chunk == lines[..i]
    ensures Flatten(groups + [chunk]) + [lines[i]] == lines[..i + 1]
  {
    var g := groups + [chunk];
    assert g[..|g| - 1] == groups;
    assert lines[..i + 1] == lines[..i] + [lines[i]];
  }

  /** After a yield the first group is empty exactly when the first line alone overflows. */
  lemma YieldFirst(lines: seq<string>, maxChars: int, i: nat, groups: seq<seq<string>>, chunk: seq<string>)
    requires i < |lines| && TotalLength(chunk) + |lines[i]| > maxChars
    requires i == 0 ==> groups == [] && chunk == []
    requires i > 0 ==> chunk != []
    requires groups != [] ==> (groups[0] == [] <==> |lines[0]| > maxChars)
    requires groups == [] && i > 0 ==> |lines[0]| <= maxChars
    ensures (groups + [chunk])[0] == [] <==> |lines[0]| > maxChars
  {
    if groups == [] && i == 0 {
      assert TotalLength(chunk) == 0;
    }
  }

  /** Yielding the collected lines keeps the budget and greediness of the yielded groups. */
  lemma YieldKeeps(groups: seq<seq<string>>, chunk: seq<string>, maxChars: int)
    requires WithinBudget(groups, maxChars) && (|chunk| >= 2 ==> TotalLength(chunk) <= maxChars)
    requires Greedy(groups, maxChars)
    requires groups != [] ==> chunk != [] && TotalLength(groups[|groups| - 1]) + |chunk[0]| > maxChars
    ensures WithinBudget(groups + [chunk], maxChars) && Greedy(groups + [chunk], maxChars)
    ensures Flatten(groups + [chunk]) == Flatten(groups) + chunk
    ensures (groups + [chunk])[0] == if groups == [] then chunk else groups[0]
  {
    var g := groups + [chunk];
    assert g[..|g| - 1] == groups;
    YieldBudget(groups, chunk, maxChars);
    YieldGreedy(groups, chunk, maxChars);
  }

  lemma YieldBudget(groups: seq<seq<string>>, chunk: seq<string>, maxChars: int)
    requires WithinBudget(groups, maxChars) && (|chunk| >= 2 ==> TotalLength(chunk) <= maxChars)
    ensures WithinBudget(groups + [chunk], maxChars)
  {
    var g := groups + [chunk];
    forall k | 0 <= k < |g| && |g[k]| >= 2 ensures TotalLength(g[k]) <= maxChars {
      if k < |groups| {
        assert g[k] == groups[k];
      }
    }
  }

  lemma YieldGreedy(groups: seq<seq<string>>, chunk: seq<string>, maxChars: int)
    requires Greedy(groups, maxChars)
    requires groups != [] ==> chunk != [] && TotalLength(groups[|groups| - 1]) + |chunk[0]| > maxChars
    ensures Greedy(groups + [chunk], maxChars)
  {
    var g := groups + [chunk];
    forall k | 0 < k < |g| ensures g[k] != [] {
      if k < |groups| {
        assert g[k] == groups[k];
      }
    }
    forall k | 0 <= k < |g| - 1 ensures TotalLength(g[k]) + |g[k + 1][0]| > maxChars {
      assert g[k] == groups[k];
      if k + 1 < |groups| {
        assert g[k + 1] == groups[k + 1];
      }
    }
  }

  lemma FinishIsGreedy(lines: seq<string>, maxChars: int, groups: seq<seq<string>>, chunk: seq<string>)
    requires ChunkingSoFar(lines, maxChars, |lines|, groups, chunk)
    ensures IsGreedyChunking(lines, maxChars, Finish(groups, chunk))
  {
    assert lines[..|lines|] == lines;
    if chunk != [] {
      YieldKeeps(groups, chunk, maxChars);
      if groups == [] {
        assert chunk[0] == lines[0];
      }
    }
  }

  /** Each group joined with newlines, as `"\n".join(chunk)` does when a chunk is yielded. */
  function JoinEach(groups: seq<seq<string>>): seq<string>
    decreases |groups|
  {
    if groups == [] then [] else JoinEach(groups[..|groups| - 1]) + [Join(groups[|groups| - 1], "\n")]
  }

  lemma JoinEachSnoc(groups: seq<seq<string>>, chunk: seq<string>)
    ensures JoinEach(groups + [chunk]) == JoinEach(groups) + [Join(chunk, "\n")]
  {
    assert (groups + [chunk])[..|groups|] == groups;
  }

  lemma {:induction false} JoinEachIndex(groups: seq<seq<string>>)
    ensures |JoinEach(groups)| == |groups|
    ensures forall k :: 0 <= k < |groups| ==> JoinEach(groups)[k] == Join(groups[k], "\n")
    decreases |groups|
  {
    if groups != [] {
      var n := |groups| - 1;
      JoinEachIndex(groups[..n]);
      assert forall k :: 0 <= k < n ==> groups[..n][k] == groups[k];
    }
  }

  /**
   * `chunk_lines`, with the yielded chunks collected into a list. `groups` holds the line
   * lists before they are joined; `chunks[k]` is `groups[k]` joined with newlines.
   */
  method ChunkLines(lines: seq<string>, maxChars: int) returns (groups: seq<seq<string>>, chunks: seq<string>)
    ensures |chunks| == |groups|
    ensures forall k :: 0 <= k < |groups| ==> chunks[k] == Join(groups[k], "\n")
    ensures chunks == JoinEach(groups)
    ensures IsGreedyChunking(lines, maxChars, groups)
  {
    groups, chunks := [], [];
    var chunk: seq<string> := [];
    var totalChars := 0;
    for i := 0 to |lines|
      invariant chunks == JoinEach(groups)
      invariant totalChars == TotalLength(chunk)
      invariant ChunkingSoFar(lines, maxChars, i, groups, chunk)
    {
      var line := lines[i];
      if totalChars + |line| > maxChars {
        StepYields(lines, maxChars, i, groups, chunk);
        JoinEachSnoc(groups, chunk);
        assert TotalLength([line]) == |line|;
        groups, chunks, chunk, totalChars := groups + [chunk], chunks + [Join(chunk, "\n")], [line], |line|;
      } else {
        StepAppends(lines, maxChars, i, groups, chunk);
        AppendLength(chunk, line);
        chunk, totalChars := chunk + [line], totalChars + |line|;
      }
    }
    FinishIsGreedy(lines, maxChars, groups, chunk);
    if chunk != [] {
      JoinEachSnoc(groups, chunk);
      groups, chunks := groups + [chunk], chunks + [Join(chunk, "\n")];
    }
    JoinEachIndex(groups);
  }

  /** A chunk of k >= 1 lines is as long as its lines together plus k - 1 newlines. */
  lemma ChunkLength(group: seq<string>)
    requires group != []
    ensures |Join(group, "\n")| == TotalLength(group) + |group| - 1
  {
    JoinLength(group, "\n");
  }

  /** The greedy chunking of a list of lines is unique: the four properties describe `chunk_lines` completely. */
  lemma GreedyChunkingUnique(lines: seq<string>, maxChars: int, g: seq<seq<string>>, h: seq<seq<string>>)
    requires IsGreedyChunking(lines, maxChars, g) && IsGreedyChunking(lines, maxChars, h)
    ensures g == h
  {
    if lines != [] {
      if |lines[0]| > maxChars {
        GreedyTailNonEmpty(lines, maxChars, g);
        GreedyTailNonEmpty(lines, maxChars, h);
        NonEmptyChunkingUnique(lines, maxChars, g[1..], h[1..]);
        assert g == [g[0]] + g[1..];
        assert h == [h[0]] + h[1..];
      } else {
        GreedyNonEmpty(lines, maxChars, g);
        GreedyNonEmpty(lines, maxChars, h);
        NonEmptyChunkingUnique(lines, maxChars, g, h);
      }
    }
  }

  /** When the first line alone overflows, the groups after the empty first one are a non-empty chunking. */
  lemma GreedyTailNonEmpty(lines: seq<string>, maxChars: int, g: seq<seq<string>>)
    requires IsGreedyChunking(lines, maxChars, g) && lines != [] && |lines[0]| > maxChars
    ensures g != [] && g[0] == [] && IsNonEmptyChunking(lines, maxChars, g[1..])
  {
    FlattenCons(g);
    var t := g[1..];
    assert forall k :: 0 <= k < |t| ==> t[k] == g[k + 1];
  }

  /** Otherwise the groups themselves are a non-empty chunking. */
  lemma GreedyNonEmpty(lines: seq<string>, maxChars: int, g: seq<seq<string>>)
    requires IsGreedyChunking(lines, maxChars, g) && lines != [] && |lines[0]| <= maxChars
    ensures IsNonEmptyChunking(lines, maxChars, g)
  {
  }

  /** Groups that are all non-empty, cover the lines, keep the budget and are greedy. */
  predicate IsNonEmptyChunking(lines: seq<string>, maxChars: int, g: seq<seq<string>>) {
    Covers(lines, g) && WithinBudget(g, maxChars) &&
    (forall k :: 0 <= k < |g| ==> g[k] != []) &&
    (forall k :: 0 <= k < |g| - 1 ==> TotalLength(g[k]) + |g[k + 1][0]| > maxChars)
  }

  lemma {:induction false} NonEmptyChunkingUnique(lines: seq<string>, maxChars: int, g: seq<seq<string>>, h: seq<seq<string>>)
    requires IsNonEmptyChunking(lines, maxChars, g) && IsNonEmptyChunking(lines, maxChars, h)
    ensures g == h
    decreases |lines|
  {
    NonEmptyChunkingEmpty(lines, maxChars, g);
    NonEmptyChunkingEmpty(lines, maxChars, h);
    if lines != [] {
      FirstGroupsEqual(lines, maxChars, g, h);
      TailIsNonEmptyChunking(lines, maxChars, g);
      TailIsNonEmptyChunking(lines, maxChars, h);
      NonEmptyChunkingUnique(lines[|g[0]|..], maxChars, g[1..], h[1..]);
      assert g == [g[0]] + g[1..];
      assert h == [h[0]] + h[1..];
    }
  }

  /** A non-empty chunking has no groups exactly for no lines. */
  lemma NonEmptyChunkingEmpty(lines: seq<string>, maxChars: int, g: seq<seq<string>>)
    requires IsNonEmptyChunking(lines, maxChars, g)
    ensures g == [] <==> lines == []
  {
    if g != [] {
      FlattenCons(g);
    }
  }

  lemma TailIsNonEmptyChunking(lines: seq<string>, maxChars: int, g: seq<seq<string>>)
    requires g != [] && IsNonEmptyChunking(lines, maxChars, g)
    ensures |g[0]| <= |lines| && IsNonEmptyChunking(lines[|g[0]|..], maxChars, g[1..])
  {
    FlattenCons(g);
    var t := g[1..];
    assert forall k :: 0 <= k < |t| ==> t[k] == g[k + 1];
  }

  /** Two greedy non-empty chunkings of the same lines start with the same group. */
  lemma FirstGroupsEqual(lines: seq<string>, maxChars: int, g: seq<seq<string>>, h: seq<seq<string>>)
    requires g != [] && h != []
    requires IsNonEmptyChunking(lines, maxChars, g) && IsNonEmptyChunking(lines, maxChars, h)
    ensures g[0] == h[0]
  {
    FlattenCons(g);
    FlattenCons(h);
    FirstGroupNotShorter(lines, maxChars, g, h);
    FirstGroupNotShorter(lines, maxChars, h, g);
    assert g[0] == lines[..|g[0]|];
  }

  /** A greedy first group reaches as far as any other first group that keeps the budget. */
  lemma FirstGroupNotShorter(lines: seq<string>, maxChars: int, g: seq<seq<string>>, h: seq<seq<string>>)
    requires g != [] && h != []
    requires IsNonEmptyChunking(lines, maxChars, g) && IsNonEmptyChunking(lines, maxChars, h)
    ensures |h[0]| <= |g[0]|
  {
    var n := |g[0]|;
    FirstGroupPrefix(lines, g);
    FirstGroupPrefix(lines, h);
    if |h[0]| > n {
      NextLine(lines, g);
      var p := lines[..n + 1];
      assert p == lines[..n] + [lines[n]];
      AppendLength(g[0], lines[n]);
      assert p == h[0][..n + 1];
      PrefixLength(p, h[0]);
      assert false;
    }
  }

  /** The first group is the lines it starts with. */
  lemma FirstGroupPrefix(lines: seq<string>, g: seq<seq<string>>)
    requires g != [] && Covers(lines, g)
    ensures |g[0]| <= |lines| && g[0] == lines[..|g[0]|]
    ensures |g| == 1 ==> g[0] == lines
  {
    FlattenCons(g);
    if |g| == 1 {
      assert g[1..] == [];
    }
  }

  /** The line after the first group is the first line of the second group. */
  lemma NextLine(lines: seq<string>, g: seq<seq<string>>)
    requires |g| >= 2 && g[1] != [] && Covers(lines, g)
    ensures |g[0]| < |lines| && lines[|g[0]|] == g[1][0]
  {
    FlattenCons(g);
    FlattenCons(g[1..]);
    assert g[1..][0] == g[1];
  }

  /** A prefix of a list of lines has no more characters than the list. */
  lemma PrefixLength(a: seq<string>, b: seq<string>)
    requires |a| <= |b| && a == b[..|a|]
    ensures TotalLength(a) <= TotalLength(b)
  {
    assert b == a + b[|a|..];
    TotalLengthAppend(a, b[|a|..]);
  }

  // ---------------------------------------------------------------------------
  // The analysis run

  /** The character budget of a chunk in `run_analysis`. */
  const MaxChars := 8000

  /**
   * `run_analysis` up to the model: the log's matching lines, stripped, packed greedily into
   * chunks of at most 8000 characters. Sending each chunk to the model is not modelled.
   */
  method RunAnalysis(path: string, pages: seq<Option<string>>, fileText: string) returns (chunks: seq<string>)
    ensures exists groups :: IsGreedyChunking(Filtered(LogLines(path, pages, fileText), ErrorPattern), MaxChars, groups) &&
                             chunks == JoinEach(groups)
  {
    var filteredLines := StreamAndFilterLog(path, pages, fileText, ErrorPattern);
    var groups;
    groups, chunks := ChunkLines(filteredLines, MaxChars);
  }
}
