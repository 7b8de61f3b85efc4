/**
 * The decision logic the three Streamlit front ends of the SDLC flow share: the bar of step
 * buttons with arrows between them, the step selected in the session, the reading of an
 * uploaded file by its extension, the rule that typed text wins over uploaded text, and the
 * guard that refuses to call a model on blank input.
 */
module SdlcFlow {
  import opened Wrappers
  import opened Text

  // ---------------------------------------------------------------------------
  // The step bar

  /** The five steps of the flow, in order. */
  const Steps: seq<string> := ["Business Requirements", "User Story", "Test Case Generation", "Defect Handling", "Root Cause Analysis"]

  /** A column of the step bar: a wide one for a step's button or a narrow one for an arrow. */
  datatype Slot = Button | Arrow

  /** The column widths of a bar of n steps: buttons at the even columns, arrows at the odd ones, 2n - 1 in all. */
  predicate IsLayout(widths: seq<Slot>, n: nat) {
    |widths| == (if n == 0 then 0 else 2 * n - 1) &&
    forall k :: 0 <= k < |widths| ==> widths[k] == (if k % 2 == 0 then Button else Arrow)
  }

  /** The `widths` loop: a button for every step, and an arrow after every step but the last. */
  method LayoutWidths(n: nat) returns (widths: seq<Slot>)
    ensures IsLayout(widths, n)
  {
    widths := [];
    for i := 0 to n
      invariant |widths| == (if i == n && n > 0 then 2 * n - 1 else 2 * i)
      invariant forall k :: 0 <= k < |widths| ==> widths[k] == (if k % 2 == 0 then Button else Arrow)
    {
      widths := widths + [Button];
      if i < n - 1 {
        widths := widths + [Arrow];
      }
    }
  }

  /** Step i's button goes in column 2i and the arrow after it in column 2i + 1, and those columns have that kind. */
  lemma StepPlacement(widths: seq<Slot>, n: nat, i: nat)
    requires IsLayout(widths, n) && i < n
    ensures 2 * i < |widths| && widths[2 * i] == Button
    ensures i < n - 1 ==> 2 * i + 1 < |widths| && widths[2 * i + 1] == Arrow
  {
    assert (2 * i) % 2 == 0;
    assert (2 * i + 1) % 2 == 1;
  }

  /** Every column is used: it is the button of step k / 2 or the arrow after it, and that step exists. */
  lemma ColumnOwner(widths: seq<Slot>, n: nat, k: nat)
    requires IsLayout(widths, n) && k < |widths|
    ensures k / 2 < n
    ensures widths[k] == Button <==> k == 2 * (k / 2)
    ensures widths[k] == Arrow <==> k == 2 * (k / 2) + 1 && k / 2 < n - 1
  {
  }

  /** The `type` each step's button gets: "primary" for the current step, "secondary" for the others. */
  function ButtonTypes(steps: seq<string>, current: string): (types: seq<string>)
    ensures |types| == |steps|
    ensures forall i :: 0 <= i < |steps| ==> types[i] == (if steps[i] == current then "primary" else "secondary")
  {
    seq(|steps|, i requires 0 <= i < |steps| => if steps[i] == current then "primary" else "secondary")
  }

  predicate Distinct(steps: seq<string>) {
    forall i, j :: 0 <= i < j < |steps| ==> steps[i] != steps[j]
  }

  lemma StepsDistinct()
    ensures Distinct(Steps)
  {
  }

  /** With distinct steps, the current step's button is the only primary one. */
  lemma ExactlyOnePrimary(steps: seq<string>, current: string, i: nat)
    requires Distinct(steps) && i < |steps| && steps[i] == current
    ensures ButtonTypes(steps, current)[i] == "primary"
    ensures forall j :: 0 <= j < |steps| && j != i ==> ButtonTypes(steps, current)[j] == "secondary"
  {
    forall j | 0 <= j < |steps| && j != i
      ensures steps[j] != current
    {
      if j < i {
        assert steps[j] != steps[i];
      } else {
        assert steps[i] != steps[j];
      }
    }
  }

  /** The session's selected step (`st.session_state["current_step"]`). */
  class StepNavigator {
    var currentStep: Option<string>

    /** A new session has no step selected. */
    constructor ()
      ensures currentStep == None
    {
      currentStep := None;
    }

    /** The check at the top of the script: the first step is selected when none is. */
    method EnsureDefault(steps: seq<string>)
      requires steps != []
      modifies this
      ensures old(currentStep).None? ==> currentStep == Some(steps[0])
      ensures old(currentStep).Some? ==> currentStep == old(currentStep)
    {
      if currentStep.None? {
        currentStep := Some(steps[0]);
      }
    }

    /** A click on a step's button selects that step (the script then reruns). */
    method Click(step: string)
      modifies this
      ensures currentStep == Some(step)
    {
      currentStep := Some(step);
    }
  }

  /** On the first run of a session the first step is selected, and its button alone is primary. */
  method FirstRun() returns (types: seq<string>)
    ensures types == ["primary", "secondary", "secondary", "secondary", "secondary"]
  {
    var nav := new StepNavigator();
    nav.EnsureDefault(Steps);
    types := ButtonTypes(Steps, nav.currentStep.value);
    StepsDistinct();
    ExactlyOnePrimary(Steps, Steps[0], 0);
  }

  // ---------------------------------------------------------------------------
  // Uploaded files

  /** `name.split(".")[-1].lower()`: the lower-cased text after the last '.', the whole name if it has none. */
  function Extension(name: string): string {
    Lower(LastPiece(name, "."))
  }

  /** A name without '.' is its own extension, lower-cased. */
  lemma ExtensionNoDot(name: string)
    requires '.' !in name
    ensures Extension(name) == Lower(name)
  {
    ContainsCharIff(name, '.');
  }

  /** Only the text after the last '.' counts. */
  lemma ExtensionLast(stem: string, ext: string)
    requires '.' !in ext
    ensures Extension(stem + "." + ext) == Lower(ext)
  {
    SplitOnLast(stem, '.', ext);
    assert stem + "." + ext == stem + ['.'] + ext;
  }

  /** An uploaded file: its name, the text of each page when it is read as a PDF, and its UTF-8 decoding. */
  datatype Upload = Upload(name: string, pages: seq<string>, decoded: string)

  /** The page texts one after the other, as `full_text += page.get_text()` builds them. */
  function Concat(pages: seq<string>): string
    decreases |pages|
  {
    if pages == [] then "" else Concat(pages[..|pages| - 1]) + pages[|pages| - 1]
  }

  lemma {:induction false} ConcatLength(pages: seq<string>)
    ensures |Concat(pages)| == TotalLength(pages)
    decreases |pages|
  {
    if pages != [] {
      var n := |pages| - 1;
      ConcatLength(pages[..n]);
      assert pages == pages[..n] + [pages[n]];
      TotalLengthAppend(pages[..n], [pages[n]]);
      assert TotalLength([pages[n]]) == |pages[n]|;
    }
  }

  /**
   * The text of an uploaded file: a "pdf" is its pages concatenated, a "txt" is its decoding, and
   * any other extension is an error with no text.
   */
  function UploadText(file: Upload): (r: (string, bool))
    ensures r.1 <==> Extension(file.name) != "pdf" && Extension(file.name) != "txt"
    ensures Extension(file.name) == "pdf" ==> r.0 == Concat(file.pages)
    ensures Extension(file.name) == "txt" ==> r.0 == file.decoded
    ensures r.1 ==> r.0 == ""
  {
    var ext := Extension(file.name);
    if ext == "pdf" then (Concat(file.pages), false)
    else if ext == "txt" then (file.decoded, false)
    else ("", true)
  }

  /** The dispatch on the extension, with the page loop; `error` is whether "Unsupported file type." is shown. */
  method ReadUpload(file: Upload) returns (text: string, error: bool)
    ensures (text, error) == UploadText(file)
  {
    text := "";
    error := false;
    var ext := Extension(file.name);
    if ext == "pdf" {
      for i := 0 to |file.pages|
        invariant text == Concat(file.pages[..i])
      {
        assert file.pages[..i + 1][..i] == file.pages[..i];
        text := text + file.pages[i];
      }
      assert file.pages[..|file.pages|] == file.pages;
    } else if ext == "txt" {
      text := file.decoded;
    } else {
      error := true;
      text := "";
    }
  }

  /** The case of the extension does not matter: "REPORT.PDF" is read as a PDF. */
  lemma UploadCaseInsensitive(stem: string, ext: string, pages: seq<string>, decoded: string)
    requires '.' !in ext && Lower(ext) == "pdf"
    ensures UploadText(Upload(stem + "." + ext, pages, decoded)) == (Concat(pages), false)
  {
    ExtensionLast(stem, ext);
  }

  // ---------------------------------------------------------------------------
  // Choosing the input

  /** `typed.strip() or uploaded.strip()`. */
  function Prefer(typed: string, uploaded: string): (r: string)
    ensures r == "" || (!IsSpace(r[0]) && !IsSpace(r[|r| - 1]))
  {
    if Strip(typed) != "" then Strip(typed) else Strip(uploaded)
  }

  /** Typed text that is not blank wins; otherwise the upload is used; the result is blank only when both are. */
  lemma PreferSpec(typed: string, uploaded: string)
    ensures !AllSpace(typed) ==> Prefer(typed, uploaded) == Strip(typed)
    ensures AllSpace(typed) ==> Prefer(typed, uploaded) == Strip(uploaded)
    ensures Prefer(typed, uploaded) == "" <==> AllSpace(typed) && AllSpace(uploaded)
  {
    StripEmptyIff(typed);
    StripEmptyIff(uploaded);
  }

  /** What a button does with its input: warn when it is blank, else send it to the model. */
  datatype Request = Warned | Generate(input: string)

  /** `if text.strip(): ... else: st.warning(...)`: the model gets the text as it is, and never blank text. */
  function Gate(text: string): (r: Request)
    ensures r.Warned? <==> AllSpace(text)
    ensures r.Generate? ==> r.input == text
  {
    StripEmptyIff(text);
    if Strip(text) != "" then Generate(text) else Warned
  }

  /** A button fed from the preferred input warns exactly when both inputs are blank. */
  lemma GatePreferredWarns(typed: string, uploaded: string)
    ensures Gate(Prefer(typed, uploaded)).Warned? <==> AllSpace(typed) && AllSpace(uploaded)
  {
    var p := Prefer(typed, uploaded);
    PreferSpec(typed, uploaded);
    StripOfStripped(p);
    StripEmptyIff(p);
  }

  /** Typed text that is not blank is what the model gets, stripped. */
  lemma GatePreferredTyped(typed: string, uploaded: string)
    requires !AllSpace(typed)
    ensures Gate(Prefer(typed, uploaded)) == Generate(Strip(typed))
  {
    PreferSpec(typed, uploaded);
    GatePreferredWarns(typed, uploaded);
  }

  /** Blank typed text leaves the upload, stripped, to the model. */
  lemma GatePreferredUploaded(typed: string, uploaded: string)
    requires AllSpace(typed) && !AllSpace(uploaded)
    ensures Gate(Prefer(typed, uploaded)) == Generate(Strip(uploaded))
  {
    PreferSpec(typed, uploaded);
    GatePreferredWarns(typed, uploaded);
  }

  /**
   * How a run of the script ends after a button press: it completes with the button's request, or
   * it fails on a name that was never assigned, after the warning or without one.
   */
  datatype Run = Completed(request: Request) | Failed(warned: bool)

  /** The preferred text is already stripped. */
  lemma StripOfStripped(p: string)
    requires p == "" || (!IsSpace(p[0]) && !IsSpace(p[|p| - 1]))
    ensures Strip(p) == p
  {
    StripByNoop(p, IsSpace);
  }
}
