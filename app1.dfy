/**
 * The GPT and Gemini front end of the SDLC flow. Its step bar, its upload reading and its
 * input preference are those of `SdlcFlow`; what is its own is which input each button reads
 * and what a button does with blank input.
 */
module App1 {
  import opened Wrappers
  import opened Text
  import opened SdlcFlow

  // ---------------------------------------------------------------------------
  // Business requirements

  /**
   * The GPT user-story button exists only once a file is uploaded, and it reads that file's text,
   * guarded against blank text; the typed requirements are never read.
   */
  function RequirementsRequest(typed: string, upload: Option<Upload>): (r: Option<Request>)
    ensures r.None? <==> upload.None?
    ensures r.Some? ==> r.value == Gate(UploadText(upload.value).0)
  {
    match upload
    case None => None
    case Some(f) => Some(Gate(UploadText(f).0))
  }

  /** Two sessions that differ only in what was typed make the same request. */
  lemma TypedRequirementsIgnored(typed1: string, typed2: string, upload: Option<Upload>)
    ensures RequirementsRequest(typed1, upload) == RequirementsRequest(typed2, upload)
  {
  }

  /** The Gemini user-story button beside it: also only with an upload, but it prompts with the file's text unguarded. */
  function GeminiStoriesRequest(upload: Option<Upload>): (r: Option<Request>)
    ensures r.None? <==> upload.None?
    ensures r.Some? ==> r.value == Generate(UploadText(upload.value).0)
  {
    match upload
    case None => None
    case Some(f) => Some(Generate(UploadText(f).0))
  }

  /** A blank or unsupported file reaches Gemini as it is, while the GPT button warns. */
  lemma BlankFileOnlyToGemini(typed: string, f: Upload)
    requires AllSpace(UploadText(f).0)
    ensures GeminiStoriesRequest(Some(f)) == Some(Generate(UploadText(f).0))
    ensures RequirementsRequest(typed, Some(f)) == Some(Warned)
  {
  }

  // ---------------------------------------------------------------------------
  // Acceptance criteria from user stories

  /**
   * The Gemini button as written: with blank stories it warns and then goes on to render
   * `output_text`, which no branch of this run assigned, so the run fails.
   */
  function GeminiCriteriaAsWritten(typed: string, uploaded: string): (r: Run)
    ensures r.Failed? <==> AllSpace(typed) && AllSpace(uploaded)
    ensures r.Failed? ==> r.warned
    ensures r.Completed? ==> r.request == Gate(Prefer(typed, uploaded)) && r.request.Generate?
  {
    var source := Prefer(typed, uploaded);
    GatePreferredWarns(typed, uploaded);
    if source == "" then Failed(true) else Completed(Gate(source))
  }

  /** Both text boxes empty: the warning is shown and the run then fails. */
  lemma BlankGeminiFails()
    ensures GeminiCriteriaAsWritten("", "") == Failed(true)
  {
    assert AllSpace("");
  }

  /**
   * The Gemini button as evidently intended, with the output shown only in the branch that
   * generated it: the run always completes, and it warns exactly when both inputs are blank.
   * The GPT button next to it is this request, `Gate(Prefer(typed, uploaded))`, already.
   */
  function GeminiCriteria(typed: string, uploaded: string): (r: Run)
    ensures r.Completed?
    ensures r.request.Warned? <==> AllSpace(typed) && AllSpace(uploaded)
  {
    GatePreferredWarns(typed, uploaded);
    Completed(Gate(Prefer(typed, uploaded)))
  }

  /** Where the written button completes, it does what the intended one does. */
  lemma GeminiCriteriaAgree(typed: string, uploaded: string)
    ensures GeminiCriteriaAsWritten(typed, uploaded).Completed? <==> !(AllSpace(typed) && AllSpace(uploaded))
    ensures GeminiCriteriaAsWritten(typed, uploaded).Completed? ==> GeminiCriteriaAsWritten(typed, uploaded) == GeminiCriteria(typed, uploaded)
  {
  }

  /** A story file of another type contributes no text: the buttons then warn exactly when nothing was typed. */
  lemma UnsupportedStoriesIgnored(typed: string, f: Upload)
    requires Extension(f.name) != "pdf" && Extension(f.name) != "txt"
    ensures Gate(Prefer(typed, UploadText(f).0)).Warned? <==> AllSpace(typed)
  {
    assert UploadText(f).0 == "";
    assert AllSpace("");
    GatePreferredWarns(typed, "");
  }

  // ---------------------------------------------------------------------------
  // Test cases from user stories

  /** The test-case page: the session's stories box, the widget keyed `test_case_user_stories_input`. */
  class TestCaseSession {
    var stories: string

    /** The box starts empty. */
    constructor ()
      ensures stories == ""
    {
      stories := "";
    }

    /**
     * One run of the page as written, with an optional uploaded file (its decoded text). The box's
     * widget is created first and the upload's text is then written under the widget's key, which
     * Streamlit refuses once the widget exists: any upload ends the run in an exception before the
     * button, with no warning and the box unchanged. Without an upload the button prompts with the
     * box's stories, unstripped.
     */
    method Generate(upload: Option<string>) returns (r: Run)
      ensures r == TestCaseRunAsWritten(stories, upload)
    {
      if upload.Some? {
        r := Failed(false);
      } else {
        r := Completed(Gate(stories));
      }
    }

    /**
     * The run as evidently intended, with the write moved ahead of the widget as the end-to-end
     * front end has it: the upload replaces the box's content and the button reads it.
     */
    method GenerateIntended(upload: Option<string>) returns (r: Request)
      modifies this
      ensures stories == (if upload.Some? then upload.value else old(stories))
      ensures r == TestCaseRequest(old(stories), upload)
    {
      if upload.Some? {
        stories := upload.value;
      }
      r := Gate(stories);
    }
  }

  /** The test-case run as written: it fails, unwarned, exactly when a file is uploaded, and otherwise gates the box's stories. */
  function TestCaseRunAsWritten(typed: string, upload: Option<string>): (r: Run)
    ensures r.Failed? <==> upload.Some?
    ensures r.Failed? ==> !r.warned
    ensures r.Completed? ==> r.request == Gate(typed)
  {
    if upload.Some? then Failed(false) else Completed(Gate(typed))
  }

  /** Uploading a story file, whatever it holds and whatever was typed, makes the run fail. */
  lemma UploadedStoriesFail(typed: string, uploaded: string)
    ensures TestCaseRunAsWritten(typed, Some(uploaded)) == Failed(false)
  {
  }

  /** What the intended test-case button asks for, given the box's content and the uploaded text. */
  function TestCaseRequest(typed: string, upload: Option<string>): (r: Request)
    ensures upload.Some? ==> r == Gate(upload.value)
    ensures upload.None? ==> r == Gate(typed)
  {
    Gate(if upload.Some? then upload.value else typed)
  }

  /** Where the written run completes, which is exactly without an upload, it asks what the intended one asks. */
  lemma TestCaseAgree(typed: string, upload: Option<string>)
    ensures TestCaseRunAsWritten(typed, upload).Completed? <==> upload.None?
    ensures upload.None? ==> TestCaseRunAsWritten(typed, upload) == Completed(TestCaseRequest(typed, upload))
  {
  }

  /** In the intended run an upload wins even over typed stories, and a blank upload makes the button warn. */
  lemma UploadOverridesTyped(typed: string, uploaded: string)
    ensures TestCaseRequest(typed, Some(uploaded)).Warned? <==> AllSpace(uploaded)
    ensures !AllSpace(uploaded) ==> TestCaseRequest(typed, Some(uploaded)) == Generate(uploaded)
  {
  }
}
