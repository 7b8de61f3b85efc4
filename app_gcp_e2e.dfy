/**
 * The end-to-end Streamlit front end: the business-requirements input, the defect form that
 * files a JIRA bug, the defect chat, and the root-cause analysis of an uploaded STB log.
 */
module AppGcpE2e {
  import opened Wrappers
  import opened Text
  import opened SdlcFlow
  import JiraApi
  import LogAnalysis

  // ---------------------------------------------------------------------------
  // Business requirements

  /**
   * The requirements the generate buttons read: an uploaded file replaces the typed text with
   * its own text, even when that text is empty (an unsupported file).
   */
  function RequirementsText(typed: string, upload: Option<Upload>): (r: string)
    ensures upload.None? ==> r == typed
    ensures upload.Some? ==> r == UploadText(upload.value).0
  {
    match upload
    case None => typed
    case Some(f) => UploadText(f).0
  }

  /** Both generate buttons: warn on blank requirements, else prompt with them as they are. */
  function RequirementsRequest(typed: string, upload: Option<Upload>): (r: Request)
    ensures r.Warned? <==> AllSpace(RequirementsText(typed, upload))
    ensures r.Generate? ==> r.input == RequirementsText(typed, upload)
  {
    Gate(RequirementsText(typed, upload))
  }

  /** A file of an unsupported type wipes out typed requirements: the buttons then warn. */
  lemma UnsupportedUploadWarns(typed: string, f: Upload)
    requires Extension(f.name) != "pdf" && Extension(f.name) != "txt"
    ensures RequirementsRequest(typed, Some(f)) == Warned
  {
    assert RequirementsText(typed, Some(f)) == "";
  }

  // ---------------------------------------------------------------------------
  // The defect form

  /** The number of questions of the defect form. */
  const QuestionCount := 15

  /** One exchange of the defect chat. */
  datatype ChatEntry = ChatEntry(user: string, bot: string)

  /** `all(def_answers[:6])`: the form is used only when its first six answers are all filled in. */
  predicate UseForm(answers: seq<string>)
    requires |answers| == QuestionCount
  {
    forall k :: 0 <= k < 6 ==> answers[k] != ""
  }

  /** The labels of the bug: the label answer, "STB", and whether the defect is new functionality or a regression. */
  function Labels(answers: seq<string>): (r: seq<string>)
    requires |answers| == QuestionCount
    ensures |r| == 3 && r[0] == answers[13] && r[1] == "STB"
    ensures r[2] == (if answers[12] == "Yes" then "New_Test-New_Functionality" else "Regression")
  {
    [answers[13], "STB", if answers[12] == "Yes" then "New_Test-New_Functionality" else "Regression"]
  }

  /**
   * The fields of the bug "Create JIRA Defect" posts: taken from the form when it is used, else
   * the fixed fallbacks with the defect text as description; the project is always "DP".
   */
  function DefectPayload(answers: seq<string>, defectInput: string): (p: JiraApi.Payload)
    requires |answers| == QuestionCount
    ensures p.project == "DP" && p.labels == Labels(answers)
    ensures UseForm(answers) ==>
              p.issueType == answers[0] && p.priority == answers[1] && p.summary == answers[4] &&
              p.description == answers[5] && p.environment == answers[6] && p.components == [answers[14]]
    ensures !UseForm(answers) ==>
              p.issueType == "Bug" && p.priority == "Medium" && p.summary == JiraApi.HdmiSummary &&
              p.description == defectInput && p.environment == "DTH Sky Q" && p.components == ["Defect_scrub"]
  {
    var useForm := UseForm(answers);
    JiraApi.Payload(
      "DP",
      if useForm then answers[0] else "Bug",
      if useForm then answers[4] else JiraApi.HdmiSummary,
      if useForm then answers[5] else defectInput,
      if useForm then answers[1] else "Medium",
      Labels(answers),
      [if useForm then answers[14] else "Defect_scrub"],
      if useForm then answers[6] else "DTH Sky Q")
  }

  /** The labels depend on answers 12 and 13 alone, whether the form is used or not. */
  lemma LabelsIndependent(a: seq<string>, b: seq<string>, x: string, y: string)
    requires |a| == QuestionCount && |b| == QuestionCount && a[12] == b[12] && a[13] == b[13]
    ensures DefectPayload(a, x).labels == DefectPayload(b, y).labels
  {
  }

  /** A filled-in form ignores the uploaded or typed defect text. */
  lemma FormIgnoresDefectText(answers: seq<string>, x: string, y: string)
    requires |answers| == QuestionCount && UseForm(answers)
    ensures DefectPayload(answers, x) == DefectPayload(answers, y)
  {
  }

  /** Without the form, the bug is the one the JIRA script files, but described by the defect text and labelled from the form. */
  lemma FallbackIsScriptPayload(answers: seq<string>, defectInput: string, fields: map<string, string>)
    requires |answers| == QuestionCount && !UseForm(answers)
    ensures var p := DefectPayload(answers, defectInput);
            p == JiraApi.PreparePayload(fields).(description := defectInput, labels := Labels(answers))
  {
  }

  /** The defect page's session: the form answers, the defect text, and the chat history. */
  class DefectSession {
    var answers: seq<string>
    var defectInput: string
    var history: seq<ChatEntry>

    predicate Valid()
      reads this
    {
      |answers| == QuestionCount
    }

    /** A fresh session: one empty answer per question, no defect text, no chat. */
    constructor ()
      ensures Valid() && answers == seq(QuestionCount, _ => "") && defectInput == "" && history == []
    {
      answers := seq(QuestionCount, _ => "");
      defectInput := "";
      history := [];
    }

    /** A form widget writes its value into its answer; the other answers stay. */
    method SetAnswer(k: nat, value: string)
      requires Valid() && k < QuestionCount
      modifies this
      ensures Valid() && answers == old(answers)[k := value]
      ensures defectInput == old(defectInput) && history == old(history)
    {
      answers := answers[k := value];
    }

    /** An uploaded defect file replaces the defect text with the file's text. */
    method LoadDefectFile(file: Upload)
      requires Valid()
      modifies this
      ensures Valid() && defectInput == UploadText(file).0
      ensures answers == old(answers) && history == old(history)
    {
      var text, _ := ReadUpload(file);
      defectInput := text;
    }

    /** "Send" in the defect chat: a non-blank message is echoed back and recorded; a blank one changes nothing. */
    method Send(input: string)
      requires Valid()
      modifies this
      ensures Valid() && answers == old(answers) && defectInput == old(defectInput)
      ensures AllSpace(input) ==> history == old(history)
      ensures !AllSpace(input) ==> history == old(history) + [ChatEntry(input, "Echo: " + input)]
    {
      StripEmptyIff(input);
      if Strip(input) != "" {
        var botReply := "Echo: " + input;
        history := history + [ChatEntry(input, botReply)];
      }
    }
  }

  /**
   * A form with any of its first six answers empty is not used: the bug gets the fallbacks and the
   * defect text. The three select boxes always fill answers 0 to 2, so in a run this is an empty
   * baseline, summary or description.
   */
  lemma UnfilledFormFallsBack(answers: seq<string>, defectInput: string, k: nat)
    requires |answers| == QuestionCount && k < 6 && answers[k] == ""
    ensures !UseForm(answers)
    ensures var p := DefectPayload(answers, defectInput);
            p.summary == JiraApi.HdmiSummary && p.description == defectInput && p.issueType == "Bug"
  {
  }

  /** The chat only grows, by one entry per non-blank send. */
  method ChatTwice(session: DefectSession, first: string, second: string)
    requires session.Valid() && !AllSpace(first) && AllSpace(second)
    modifies session
    ensures session.history == old(session.history) + [ChatEntry(first, "Echo: " + first)]
  {
    session.Send(first);
    session.Send(second);
  }

  // ---------------------------------------------------------------------------
  // Root-cause analysis

  /** The budget of the inline chunker. */
  const AnalysisBudget := 8000

  /** The pattern the analysis compiles, `ERROR` with `re.IGNORECASE`. */
  const AnalysisPattern: seq<string> := ["ERROR"]

  /** What "Analyze STB Log File" ends in: a warning, an exception, or the chunks sent to the model. */
  datatype Analysis = BlankWarning | Crashed | Analysed(chunks: seq<string>)

  /** The text read from the upload for the preview and the source choice: "" without an upload. */
  function UploadedText(upload: Option<Upload>): string {
    match upload
    case None => ""
    case Some(f) => UploadText(f).0
  }

  /**
   * The lines the analysis chunks, as written: whatever the chosen source, the upload is opened
   * again with pdfplumber (`plumber` is what that yields, `None` when it raises, as it does
   * without an upload); a ".pdf" upload gives its pdfplumber lines, and any other opens a file
   * whose name is the chosen text (`files` is the file system). `None` is an exception.
   */
  function AsWrittenLines(typed: string, upload: Option<Upload>, plumber: Option<seq<Option<string>>>,
                          files: map<string, string>): Option<seq<string>>
  {
    var source := Prefer(typed, UploadedText(upload));
    if upload.None? || plumber.None? then None
    else if Extension(upload.value.name) == "pdf" then Some(SplitLines(LogAnalysis.PdfText(plumber.value)))
    else if source in files then Some(ReadLines(files[source]))
    else None
  }

  /** The analysis as written; the chunks come from all lines, as the computed filter result is never used. */
  method AnalyzeLogAsWritten(typed: string, upload: Option<Upload>, plumber: Option<seq<Option<string>>>,
                             files: map<string, string>) returns (a: Analysis)
    ensures a.BlankWarning? <==> AllSpace(typed) && AllSpace(UploadedText(upload))
    ensures a.Crashed? <==> !(AllSpace(typed) && AllSpace(UploadedText(upload))) && AsWrittenLines(typed, upload, plumber, files).None?
    ensures a.Analysed? ==> exists groups :: LogAnalysis.IsGreedyChunking(AsWrittenLines(typed, upload, plumber, files).value, AnalysisBudget, groups) &&
                                             a.chunks == LogAnalysis.JoinEach(groups)
  {
    var uploadedText := UploadedText(upload);
    var source := Prefer(typed, uploadedText);
    PreferSpec(typed, uploadedText);
    if source == "" {
      return BlankWarning;
    }
    var lines := AsWrittenLines(typed, upload, plumber, files);
    if lines.None? {
      return Crashed;
    }
    var groups, chunks := LogAnalysis.ChunkLines(lines.value, AnalysisBudget);
    a := Analysed(chunks);
  }

  /** A typed log with no upload is never analysed: opening the missing upload raises. */
  lemma TypedLogCrashes(typed: string, plumber: Option<seq<Option<string>>>, files: map<string, string>)
    ensures AsWrittenLines(typed, None, plumber, files) == None
  {
  }

  /** A PDF upload that pdfplumber opens is chunked from all its lines, whatever was typed. */
  lemma PdfUploadLines(typed: string, f: Upload, pages: seq<Option<string>>, files: map<string, string>)
    requires Extension(f.name) == "pdf"
    ensures AsWrittenLines(typed, Some(f), Some(pages), files) == Some(SplitLines(LogAnalysis.PdfText(pages)))
  {
  }

  /** So a PDF log's lines are chunked whether or not they match the pattern: "INFO ok" is sent to the model. */
  lemma UnmatchedLineAnalysed()
    ensures AsWrittenLines("", Some(Upload("log.pdf", ["INFO ok"], "")), Some([Some("INFO ok")]), map[]) == Some(["INFO ok"])
    ensures !LogAnalysis.Matches("INFO ok", AnalysisPattern)
  {
    LogPdfLines();
    InfoUnmatched();
  }

  lemma LogPdfLines()
    ensures AsWrittenLines("", Some(Upload("log.pdf", ["INFO ok"], "")), Some([Some("INFO ok")]), map[]) == Some(["INFO ok"])
  {
    LogIsPdf();
    PdfUploadLines("", Upload("log.pdf", ["INFO ok"], ""), [Some("INFO ok")], map[]);
    InfoPageLines();
  }

  lemma LogIsPdf()
    ensures Extension("log.pdf") == "pdf"
  {
    ExtensionLast("log", "pdf");
    assert "log" + "." + "pdf" == "log.pdf";
    assert Lower("pdf") == "pdf";
  }

  lemma InfoPageLines()
    ensures SplitLines(LogAnalysis.PdfText([Some("INFO ok")])) == ["INFO ok"]
  {
    assert LogAnalysis.PdfText([Some("INFO ok")]) == "INFO ok" + "\n";
    SplitLinesSingle("INFO ok");
  }

  lemma InfoUnmatched()
    ensures !LogAnalysis.Matches("INFO ok", AnalysisPattern)
  {
    InfoNotError();
    assert AnalysisPattern[1..] == [];
  }

  lemma InfoNotError()
    ensures !ContainsIgnoreCase("INFO ok", "ERROR")
  {
    assert Lower("INFO ok") == "info ok";
    assert Lower("ERROR") == "error";
    ContainsHead("info ok", "error");
  }

  /** The lines the analysis is evidently meant to chunk: the chosen source's lines that match the pattern, stripped. */
  function IntendedLines(typed: string, uploadedText: string): (lines: seq<string>) {
    LogAnalysis.Filtered(SplitLines(Prefer(typed, uploadedText)), AnalysisPattern)
  }

  /** The analysis as intended: warn on blank input, else chunk the matching lines of the chosen source. */
  method AnalyzeLog(typed: string, uploadedText: string) returns (a: Analysis)
    ensures a.BlankWarning? <==> AllSpace(typed) && AllSpace(uploadedText)
    ensures !a.Crashed?
    ensures a.Analysed? ==> exists groups :: LogAnalysis.IsGreedyChunking(IntendedLines(typed, uploadedText), AnalysisBudget, groups) &&
                                             a.chunks == LogAnalysis.JoinEach(groups)
  {
    var source := Prefer(typed, uploadedText);
    PreferSpec(typed, uploadedText);
    if source == "" {
      return BlankWarning;
    }
    var filteredLines := LogAnalysis.FilterLines(SplitLines(source), AnalysisPattern);
    var groups, chunks := LogAnalysis.ChunkLines(filteredLines, AnalysisBudget);
    a := Analysed(chunks);
  }

  /** Every line the intended analysis sends matches the pattern and comes from the chosen source; typed text wins. */
  lemma IntendedLinesMatch(typed: string, uploadedText: string, k: nat) returns (j: nat)
    requires k < |IntendedLines(typed, uploadedText)|
    ensures var src := SplitLines(Prefer(typed, uploadedText));
            j < |src| && LogAnalysis.Matches(src[j], AnalysisPattern) &&
            IntendedLines(typed, uploadedText)[k] == Strip(src[j])
  {
    j := LogAnalysis.FilteredSource(SplitLines(Prefer(typed, uploadedText)), AnalysisPattern, IntendedLines(typed, uploadedText)[k]);
  }
}
