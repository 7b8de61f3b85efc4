/**
 * The front end of the SDLC flow that runs a local Mistral model for user stories and GPT for
 * the rest. Its step bar, upload reading and input preference are those of `SdlcFlow`; what is
 * its own is which input each button reads and what it does with blank or missing input.
 */
module AppMistral {
  import opened Wrappers
  import opened Text
  import opened SdlcFlow
  import AppGcpE2e

  // ---------------------------------------------------------------------------
  // Business requirements

  /**
   * `full_text`, the requirements both user-story buttons read: it is assigned only when a file
   * is uploaded, and it is that file's text; the typed requirements are never read.
   */
  function RequirementsText(upload: Option<Upload>): (r: Option<string>)
    ensures r.None? <==> upload.None?
    ensures r.Some? ==> r.value == UploadText(upload.value).0
  {
    match upload
    case None => None
    case Some(f) => Some(UploadText(f).0)
  }

  /**
   * The GPT user-story button as written: without an upload the run fails on `full_text`, before
   * any warning; with one it warns on blank text and otherwise prompts with the text as it is.
   */
  function GptStoriesAsWritten(typed: string, upload: Option<Upload>): (r: Run)
    ensures r.Failed? <==> upload.None?
    ensures r.Failed? ==> !r.warned
    ensures r.Completed? ==> (r.request.Warned? <==> AllSpace(UploadText(upload.value).0))
    ensures r.Completed? && r.request.Generate? ==> r.request.input == UploadText(upload.value).0
  {
    match RequirementsText(upload)
    case None => Failed(false)
    case Some(text) => Completed(Gate(text))
  }

  /** Requirements typed into the empty-upload page fail the run instead of reaching the model. */
  lemma TypedStoriesFail(typed: string)
    ensures GptStoriesAsWritten(typed, None) == Failed(false)
  {
  }

  /**
   * The GPT user-story button as evidently intended, reading the typed requirements when nothing
   * is uploaded, as the end-to-end front end does: it always completes, and it warns exactly when
   * its text is blank.
   */
  function GptStories(typed: string, upload: Option<Upload>): (r: Run)
    ensures r.Completed?
    ensures upload.None? ==> r.request == Gate(typed)
    ensures upload.Some? ==> r == GptStoriesAsWritten(typed, upload)
  {
    Completed(AppGcpE2e.RequirementsRequest(typed, upload))
  }

  /** The Mistral button has no guard: whatever the uploaded text is, blank or not, is sent. */
  function MistralStories(upload: Option<Upload>): (r: Run)
    ensures r.Failed? <==> upload.None?
    ensures r.Completed? ==> r.request == Generate(UploadText(upload.value).0)
  {
    match RequirementsText(upload)
    case None => Failed(false)
    case Some(text) => Completed(Generate(text))
  }

  /** A blank requirements file reaches the Mistral model but not GPT. */
  lemma BlankFileOnlyToMistral(f: Upload)
    requires AllSpace(UploadText(f).0)
    ensures MistralStories(Some(f)).request.Generate?
    ensures GptStoriesAsWritten("", Some(f)).request.Warned?
  {
  }

  // ---------------------------------------------------------------------------
  // Defects and logs

  /**
   * The defect and root-cause buttons read one text box each and prompt with it unstripped,
   * where the buttons fed by the preference rule strip it: padded text reaches the model padded.
   */
  lemma RawTextPrompted(text: string, uploaded: string)
    requires !AllSpace(text) && Strip(text) != text
    ensures Gate(text) == Generate(text)
    ensures Gate(Prefer(text, uploaded)) == Generate(Strip(text))
    ensures Gate(text) != Gate(Prefer(text, uploaded))
  {
    GatePreferredTyped(text, uploaded);
  }
}
