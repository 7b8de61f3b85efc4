# SDLC assistant: a verified model of its deterministic core

The SDLC assistant is a set of Streamlit front ends and scripts. They turn business requirements
into user stories, acceptance criteria, test cases, JIRA defects and root-cause analyses of set-top-box
logs, by prompting hosted language models. What happens around the model calls is deterministic,
and that is what this project models:

- the greedy log chunker and the case-insensitive line filter of the log analyser;
- the markdown-table parser and cell cleaner of the story spreadsheet scripts;
- the `key: value` field extractor and the fixed JIRA payload;
- the decision logic of the three Streamlit front ends:
  - the step bar and the selected step;
  - reading an upload by its extension;
  - typed text winning over uploaded text;
  - the blank-input guards;
  - the defect-ticket fields and the defect chat;
  - the inline log analysis;
- the Confluence tag stripper and the Atlassian Document Format table builder;
- the spreadsheet column-width rule;
- the search-index document builder.

The modules follow the program. `Text` holds the Python string operations the code relies on,
such as `strip`, `split`, `splitlines`, `readlines`, `replace` and `lower`; `Wrappers` holds `Option`.
Each other module stands for one source file. `SdlcFlow` holds the logic the three front ends share.
Loops in the source are methods with loop invariants, proved against specification functions.
Session state and worksheets the source updates in place are classes. Model calls, files, PDF
libraries and the network are parameters of the model: page texts and decoded file contents come
in as arguments, and an embedding service comes in as a function.

## Model

| member | source | states |
|---|---|---|
| LogAnalysis.MatchesIff | Backend_GCP/log_analysis.py:25 | A line matches an alternation pattern exactly when some alternative occurs in it, ignoring case |
| LogAnalysis.ErrorPatternMatches | Backend_GCP/log_analysis.py:92 | With `ERROR\|404\|No signal`, a line is kept exactly when it holds "error", "404" or "no signal" in any case |
| LogAnalysis.ExtractPdfText | Backend_GCP/log_analysis.py:15-23 | The page loop builds every non-empty page text followed by a newline, in page order |
| LogAnalysis.PdfTextAppend | Backend_GCP/log_analysis.py:19-22 | The text of consecutive page runs is their two texts one after the other |
| LogAnalysis.PdfTextEmptyIff | Backend_GCP/log_analysis.py:20-22 | The PDF text is empty exactly when no page has text |
| LogAnalysis.LogLines | Backend_GCP/log_analysis.py:27-34 | A PDF gives the `splitlines` of its text; a text file gives its `readlines` lines |
| LogAnalysis.PdfBranchIff | Backend_GCP/log_analysis.py:27 | The PDF branch is taken exactly when the path ends with ".pdf", case-sensitively |
| LogAnalysis.FilterLines | Backend_GCP/log_analysis.py:36-38 | The filter loop yields exactly the specified filtered lines |
| LogAnalysis.FilteredAppend | Backend_GCP/log_analysis.py:36-38 | Filtering a concatenation filters each part, so order is kept |
| LogAnalysis.FilteredOne | Backend_GCP/log_analysis.py:37-38 | A line is kept, stripped, exactly when it matches; the match is tested on the unstripped line |
| LogAnalysis.FilteredLength | Backend_GCP/log_analysis.py:36-38 | The filter never yields more lines than it reads, and yields all of them when all match |
| LogAnalysis.FilteredSource | Backend_GCP/log_analysis.py:36-38 | Every yielded line is the stripped form of a matching input line |
| LogAnalysis.FilteredKeeps | Backend_GCP/log_analysis.py:36-38 | Every matching input line is yielded, stripped |
| LogAnalysis.StreamAndFilterLog | Backend_GCP/log_analysis.py:15-38 | `stream_and_filter_log` yields the filtered lines of the log's lines |
| LogAnalysis.ChunkLines | Backend_GCP/log_analysis.py:40-52 | The chunks are the newline joins of line groups that give back the lines in order, keep the budget unless a group is a single line, are greedy, and are empty only first and only when the first line alone overflows |
| LogAnalysis.ChunkLength | Backend_GCP/log_analysis.py:46-52 | A chunk of k ≥ 1 lines has their total length plus k − 1 newline characters |
| LogAnalysis.GreedyChunkingUnique | Backend_GCP/log_analysis.py:40-52 | The properties in ChunkLines' contract determine the groups uniquely |
| LogAnalysis.NonEmptyChunkingUnique | Backend_GCP/log_analysis.py:44-50 | Non-empty, covering, in-budget, greedy groupings of the same lines are equal |
| LogAnalysis.FirstGroupNotShorter | Backend_GCP/log_analysis.py:45 | The greedy first group is at least as long as the first group of any other such grouping |
| LogAnalysis.FirstGroupsEqual | Backend_GCP/log_analysis.py:45 | Two such groupings start with the same group |
| LogAnalysis.TailIsNonEmptyChunking | Backend_GCP/log_analysis.py:44-50 | Without its first group, such a grouping is a grouping of the remaining lines |
| LogAnalysis.RunAnalysis | Backend_GCP/log_analysis.py:89-93 | The chunks sent to the model are the greedy 8000-character chunking of the log's lines that match `ERROR\|404\|No signal`, stripped |
| JiraApi.CollectText | Backend_GCP/JIRA_API.py:15-17 | The page loop fails exactly when some page gave no text (`None + '\n'` raises); otherwise it builds each page's text followed by a newline |
| JiraApi.PagesTextAppend | Backend_GCP/JIRA_API.py:16-17 | The text of consecutive page runs is their texts one after the other |
| JiraApi.PagesTextShape | Backend_GCP/JIRA_API.py:17 | The text has one newline per page besides the pages' characters, and ends with one |
| JiraApi.SplitAtColon | Backend_GCP/JIRA_API.py:24 | The key part has no ':', and key + ":" + value gives back the line |
| JiraApi.SplitAtFirstColon | Backend_GCP/JIRA_API.py:24 | The split is at the first ':', so the value keeps any later colons |
| JiraApi.ParseFields | Backend_GCP/JIRA_API.py:20-26 | The line loop builds exactly the specified field map |
| JiraApi.ExtractFields | Backend_GCP/JIRA_API.py:13-26 | `extract_fields_from_pdf` fails exactly when some page gave no text, and otherwise gives the fields of the lines of the collected text |
| JiraApi.FieldsAddLine | Backend_GCP/JIRA_API.py:22-25 | One more line updates the map by that line alone |
| JiraApi.FieldKeySource | Backend_GCP/JIRA_API.py:23-25 | Every key comes from a line with a ':', with that line's stripped value |
| JiraApi.LastWriterWins | Backend_GCP/JIRA_API.py:25 | The last line with a given stripped key sets its value |
| JiraApi.PreparePayload | Backend_GCP/JIRA_API.py:30-55 | Every input gives the same bug: project DP, Bug, Medium, the HDMI summary, three fixed labels, component Defect_scrub, environment DTH Sky Q |
| StoriesTable.RowOf | ForgeApp/generate_stories_excel.py:52 | A row never begins or ends with '\|' and is no longer than its line |
| StoriesTable.Parsed | ForgeApp/generate_stories_excel.py:52-53 | Parsed row k is the cells of the k-th kept line's row |
| StoriesTable.BuildFrame | ForgeApp/generate_stories_excel.py:58 | There is a frame exactly when a row was parsed; its columns are the first row's cells stripped and its data are the other rows |
| StoriesTable.CellsShape | ForgeApp/generate_stories_excel.py:53 | A row has one more cell than it has '\|', and its cells joined with '\|' give it back |
| StoriesTable.CellsPipeFree | ForgeApp/generate_stories_excel.py:53 | No cell holds a '\|' |
| StoriesTable.RowsAppend | ForgeApp/generate_stories_excel.py:52 | The rows of concatenated lines are the rows of each part, so row order is line order |
| StoriesTable.RowsOne | ForgeApp/generate_stories_excel.py:52 | A line gives its row exactly when it passes the row test |
| StoriesTable.RowSource | ForgeApp/generate_stories_excel.py:52 | Row k comes from a kept line, with exactly k rows before that line |
| StoriesTable.IndentedSeparatorKept | ForgeApp/generate_stories_excel.py:52 | An indented `\|---` separator passes the row test |
| StoriesTable.AlignedSeparatorKept | ForgeApp/generate_stories_excel.py:52 | A `\|:--` separator passes the row test |
| StoriesTable.SeparatorDropped | ForgeApp/generate_stories_excel.py:52 | A line starting with `\|---` is dropped |
| StoriesTable.PlainLineDropped | ForgeApp/generate_stories_excel.py:52 | A line without '\|' is dropped |
| StoriesTable.ParseTableShape | ForgeApp/generate_stories_excel.py:52-58 | A frame exists exactly when some line is a row; its columns are the first row's cells stripped, and there is one data row per later row |
| StoryScript.SubstituteSpec | ForgeApp/scripts/generate_stories_excel.py:33 | The template's pieces between placeholders, rejoined with the requirement, give the prompt; no piece holds the placeholder |
| StoryScript.SubstituteAbsent | ForgeApp/scripts/generate_stories_excel.py:33 | A template without `{requirement}` is unchanged |
| StoryScript.SubstituteLeading | ForgeApp/scripts/generate_stories_excel.py:33 | A leading placeholder becomes the requirement |
| StoryScript.CleanText | ForgeApp/scripts/generate_stories_excel.py:57-60 | A cleaned cell holds no '*' and has no whitespace at either end |
| StoryScript.NoDoubleStar | ForgeApp/scripts/generate_stories_excel.py:58-59 | Removing "**" after every '*' is gone changes nothing |
| StoryScript.CleanCell | ForgeApp/scripts/generate_stories_excel.py:56-61 | Text cells are cleaned and other cells pass through unchanged |
| StoryScript.CleanPlain | ForgeApp/scripts/generate_stories_excel.py:57-60 | A cell with no `*` and no `<br>` keeps its text, only stripped |
| StoryScript.CleanLeadingBreak | ForgeApp/scripts/generate_stories_excel.py:57-60 | A leading `<br>` leaves no trace once the cell is stripped |
| StoryScript.CleanGrid | ForgeApp/scripts/generate_stories_excel.py:56 | `applymap` keeps the sheet's shape and cleans every cell |
| StoryScript.CleanGridClean | ForgeApp/scripts/generate_stories_excel.py:56-61 | No text cell of the cleaned sheet holds '*' or has whitespace at either end, and missing cells stay missing |
| StoryScript.CleanedSheet | ForgeApp/scripts/generate_stories_excel.py:49-61 | There is a sheet exactly when the reply holds a table row; its columns are the parsed frame's, and its data has the frame's shape with every cell the cleaned parsed cell |
| StoryScript.CleanedSheetCells | ForgeApp/scripts/generate_stories_excel.py:55-61 | Every cell of the saved sheet is text with no `*` and no whitespace at either end |
| ExcelFormatter.ColumnWidthBounds | ForgeApp/excel_formatter.py:10-19 | Every width is at least 5, and at least the string length of each non-empty cell plus 5 |
| ExcelFormatter.ColumnWidthAttained | ForgeApp/excel_formatter.py:15-19 | The width is 5 with no non-empty cell, else the length of some non-empty cell plus 5 |
| ExcelFormatter.FalsyIgnored | ForgeApp/excel_formatter.py:15 | An empty value (None, "", 0) does not change its column's width |
| ExcelFormatter.MaxLengthAppend | ForgeApp/excel_formatter.py:16 | The maximum over joined columns is the larger maximum |
| ExcelFormatter.TruthyLength | ForgeApp/excel_formatter.py:15-16 | A non-empty value has a string form of length at least 1 |
| ExcelFormatter.ColumnLetter | ForgeApp/excel_formatter.py:11 | A column letter is a non-empty string of capital letters |
| ExcelFormatter.ColumnNumberOfLetter | ForgeApp/excel_formatter.py:11 | Reading a column's letter back gives its number |
| ExcelFormatter.ColumnLetterInjective | ForgeApp/excel_formatter.py:11 | Different columns get different letters |
| ExcelFormatter.ColumnWidthAt | ForgeApp/excel_formatter.py:11-19 | Column c's letter is given exactly column c's width |
| ExcelFormatter.ColumnWidthKeys | ForgeApp/excel_formatter.py:9-19 | Every key written is the letter of a column of the sheet |
| ExcelFormatter.ColumnWidthsSnoc | ForgeApp/excel_formatter.py:9-19 | One more column writes its own letter's width and nothing else |
| ExcelFormatter.FormatColumn | ForgeApp/excel_formatter.py:12-18 | The inner loop sets every cell to wrap at the top and finds the column's maximum length |
| ExcelFormatter.WrappedStep | ForgeApp/excel_formatter.py:14 | Formatting column c leaves the other columns' alignment as it was |
| ExcelFormatter.Worksheet.AutoFormat | ForgeApp/excel_formatter.py:9-19 | Every cell wraps at the top; the widths are the old widths overridden by each column's width |
| ConfluenceResolver.StripTagsNoOpen | ForgeApp/ai-pm-v2/src/resolvers/index.js:22 | No '<' survives tag stripping |
| ConfluenceResolver.StripTagsPrefix | ForgeApp/ai-pm-v2/src/resolvers/index.js:22 | Text before the first '<', stray '>' included, is kept in order |
| ConfluenceResolver.StripTagsAbsent | ForgeApp/ai-pm-v2/src/resolvers/index.js:22 | Text without '<' is unchanged |
| ConfluenceResolver.StripTagsClosed | ForgeApp/ai-pm-v2/src/resolvers/index.js:22 | A '<' and everything up to the next '>' are removed |
| ConfluenceResolver.StripTagsUnclosed | ForgeApp/ai-pm-v2/src/resolvers/index.js:22 | A '<' with no later '>' removes the rest of the text |
| ConfluenceResolver.AfterTagClosed | ForgeApp/ai-pm-v2/src/resolvers/index.js:22 | `[^>]*>` ends at the first '>' |
| ConfluenceResolver.AfterTagUnclosed | ForgeApp/ai-pm-v2/src/resolvers/index.js:22 | Without a '>' the match runs to the end |
| ConfluenceResolver.StripTagsIdempotent | ForgeApp/ai-pm-v2/src/resolvers/index.js:22 | Stripping twice is stripping once |
| ConfluenceResolver.StripTagsShorter | ForgeApp/ai-pm-v2/src/resolvers/index.js:22 | Stripping never lengthens the text |
| ConfluenceResolver.RequirementText | ForgeApp/ai-pm-v2/src/resolvers/index.js:22 | A missing body gives "", a present one its stripped text, which holds no '<' |
| ConfluenceResolver.PageTitle | ForgeApp/ai-pm-v2/src/resolvers/index.js:36 | The title is "Breakdown of " followed by the source title |
| ConfluenceResolver.PageTitleInjective | ForgeApp/ai-pm-v2/src/resolvers/index.js:36 | Different source titles give different page titles |
| ConfluenceResolver.Fields | ForgeApp/ai-pm-v2/src/resolvers/index.js:106-108 | An item gives five cells |
| ConfluenceResolver.GenerateADFTable | ForgeApp/ai-pm-v2/src/resolvers/index.js:104-135 | A version-1 document with one table of `data.length + 1` rows: the header row, then row k + 1 for item k |
| ConfluenceResolver.HeaderRowShape | ForgeApp/ai-pm-v2/src/resolvers/index.js:105-123 | The header row has five `tableHeader` cells: Epic, User Story, AC, Category, Notes |
| ConfluenceResolver.DataRowShape | ForgeApp/ai-pm-v2/src/resolvers/index.js:106-130 | A data row has five `tableCell` cells: epic, story, ac, category, notes |
| ConfluenceResolver.ItemOfDataRow | ForgeApp/ai-pm-v2/src/resolvers/index.js:124-130 | A data row reads back as its item |
| ConfluenceResolver.ItemsOfDataRows | ForgeApp/ai-pm-v2/src/resolvers/index.js:124-130 | The data rows read back as the items, in order |
| ConfluenceResolver.TableRoundTrip | ForgeApp/ai-pm-v2/src/resolvers/index.js:104-135 | Reading the table's data rows back gives exactly the items |
| ConfluenceResolver.NewPage | ForgeApp/ai-pm-v2/src/resolvers/index.js:32-46 | The new page has the breakdown title, type "page", the source's space, the ADF representation, and a table reading back as the breakdown |
| Finetuning.PairCount | Backend_GCP/finetuning_gpt3.5.py:86 | `zip` forms as many pairs as the shorter list has elements |
| Finetuning.Documents | Backend_GCP/finetuning_gpt3.5.py:86-102 | n pairs give 2n documents |
| Finetuning.UploadDocuments | Backend_GCP/finetuning_gpt3.5.py:84-102 | The loop builds the documents of all `zip` pairs, in pair order |
| Finetuning.DocumentAt | Backend_GCP/finetuning_gpt3.5.py:87-102 | Document 2i is `ac-i` of kind acceptance_criteria and document 2i + 1 is `tc-i` of kind test_case, each with the shared requirement, its content and that content's embedding |
| Finetuning.IdsDistinct | Backend_GCP/finetuning_gpt3.5.py:90-97 | "ac-" and "tc-" ids never meet, and the number determines the pair |
| Finetuning.DocumentIdsDistinct | Backend_GCP/finetuning_gpt3.5.py:89-102 | No two documents of an upload share an id |
| Finetuning.PlanUpload | Backend_GCP/finetuning_gpt3.5.py:111-115 | No reply or an empty one stops before upload; otherwise both lists are read, with a missing key giving [] |
| Finetuning.GetOrEmpty | Backend_GCP/finetuning_gpt3.5.py:114-115 | `get(key, [])` |
| Finetuning.MissingKeyNoDocuments | Backend_GCP/finetuning_gpt3.5.py:114-119 | A reply missing either list uploads no documents |
| SdlcFlow.LayoutWidths | SDLC/app_gcp_e2e.py:106-110 | The loop gives 2n − 1 columns for n steps, buttons at even indices and arrows at odd ones (also SDLC/app1.py:75-79, SDLC/app_mistral.py:75-79) |
| SdlcFlow.StepPlacement | SDLC/app_gcp_e2e.py:116-134 | Step i's button is at column 2i and its arrow at 2i + 1 for i < n − 1 |
| SdlcFlow.ColumnOwner | SDLC/app_gcp_e2e.py:116-134 | Every column is step k / 2's button or the arrow after it |
| SdlcFlow.ButtonTypes | SDLC/app_gcp_e2e.py:122 | A button is "primary" when its step is the current one, else "secondary" (also SDLC/app1.py:90) |
| SdlcFlow.StepsDistinct | SDLC/app_gcp_e2e.py:84-90 | The five step names are distinct |
| SdlcFlow.ExactlyOnePrimary | SDLC/app_gcp_e2e.py:122 | With distinct steps, only the current step's button is primary |
| SdlcFlow.StepNavigator.EnsureDefault | SDLC/app_gcp_e2e.py:100-101 | With no step selected the first step is selected; otherwise the selection stays (also SDLC/app1.py:68-69, SDLC/app_mistral.py:69-70) |
| SdlcFlow.StepNavigator.Click | SDLC/app_gcp_e2e.py:129-130 | A click selects that step (also SDLC/app1.py:99-100, SDLC/app_mistral.py:98-99) |
| SdlcFlow.FirstRun | SDLC/app_gcp_e2e.py:100-122 | On a session's first run, only the first step's button is primary |
| SdlcFlow.ExtensionNoDot | SDLC/app_gcp_e2e.py:207 | A name without '.' is its own extension, lower-cased |
| SdlcFlow.ExtensionLast | SDLC/app_gcp_e2e.py:207 | Only the text after the last '.' counts, lower-cased |
| SdlcFlow.ConcatLength | SDLC/app_gcp_e2e.py:211-212 | The concatenated pages are as long as the pages together |
| SdlcFlow.UploadText | SDLC/app_gcp_e2e.py:206-219 | pdf gives the pages concatenated and txt the decoded file; any other extension is the error case, with empty text (also SDLC/app1.py:187-197,322-334, SDLC/app_mistral.py:146-156,250-261,363-371) |
| SdlcFlow.ReadUpload | SDLC/app_gcp_e2e.py:206-219 | The dispatch and page loop compute the specified upload text |
| SdlcFlow.UploadCaseInsensitive | SDLC/app_gcp_e2e.py:207-209 | "REPORT.PDF" is read as a PDF |
| SdlcFlow.Prefer | SDLC/app_gcp_e2e.py:757 | The preferred text has no whitespace at either end |
| SdlcFlow.PreferSpec | SDLC/app_gcp_e2e.py:757-762 | Non-blank typed text wins stripped; otherwise the stripped upload is used; the result is blank exactly when both are (also SDLC/app1.py:344,367,401, SDLC/app_mistral.py:272,281,374) |
| SdlcFlow.Gate | SDLC/app_gcp_e2e.py:714 | A guarded button warns exactly on blank text and otherwise sends the text unchanged (also SDLC/app_mistral.py:412-427,439-454) |
| SdlcFlow.GatePreferredWarns | SDLC/app_gcp_e2e.py:762-764 | A button fed by the preference warns exactly when both inputs are blank (also SDLC/app1.py:399-426, SDLC/app_mistral.py:277-284,313-338,374-400) |
| SdlcFlow.GatePreferredTyped | SDLC/app_gcp_e2e.py:762 | Non-blank typed text is what the model gets, stripped |
| SdlcFlow.GatePreferredUploaded | SDLC/app_gcp_e2e.py:762 | With blank typed text, the stripped upload is what the model gets |
| SdlcFlow.StripOfStripped | SDLC/app_gcp_e2e.py:762 | The preferred text is unchanged by another strip |
| AppGcpE2e.RequirementsText | SDLC/app_gcp_e2e.py:193-226 | An upload replaces the typed requirements with its text, even when that text is empty |
| AppGcpE2e.RequirementsRequest | SDLC/app_gcp_e2e.py:230-262 | Both user-story buttons warn on blank requirements and otherwise prompt with them unchanged |
| AppGcpE2e.UnsupportedUploadWarns | SDLC/app_gcp_e2e.py:217-226 | An unsupported file wipes out typed requirements, so the buttons warn |
| AppGcpE2e.Labels | SDLC/app_gcp_e2e.py:676-680 | Three labels: answer 13, "STB", then New_Test-New_Functionality if answer 12 is "Yes", else Regression |
| AppGcpE2e.DefectPayload | SDLC/app_gcp_e2e.py:665-686 | Project DP and the labels always; with the form used, answers 0, 1, 4, 5, 6 and 14; otherwise Bug, Medium, the HDMI summary, the defect text, DTH Sky Q and Defect_scrub |
| AppGcpE2e.LabelsIndependent | SDLC/app_gcp_e2e.py:676-680 | The labels depend on answers 12 and 13 only, whether or not the form is used |
| AppGcpE2e.FormIgnoresDefectText | SDLC/app_gcp_e2e.py:665-667 | With the form used, the defect text plays no part |
| AppGcpE2e.FallbackIsScriptPayload | SDLC/app_gcp_e2e.py:665-686 | Without the form, the bug is the fixed script bug with the defect text as description and the form's labels |
| AppGcpE2e.UnfilledFormFallsBack | SDLC/app_gcp_e2e.py:663-666 | A form with any of its first six answers empty, such as an empty baseline, summary or description, is not used: the bug is a "Bug" with the HDMI summary and the defect text as description |
| AppGcpE2e.DefectSession.constructor | SDLC/app_gcp_e2e.py:617-618 | The session starts with 15 empty answers, no defect text and no chat (also lines 629-630, 705-706) |
| AppGcpE2e.DefectSession.SetAnswer | SDLC/app_gcp_e2e.py:632-652 | Setting an answer changes that answer and nothing else |
| AppGcpE2e.DefectSession.LoadDefectFile | SDLC/app_gcp_e2e.py:603-615 | An uploaded defect file replaces the defect text with its text |
| AppGcpE2e.DefectSession.Send | SDLC/app_gcp_e2e.py:712-717 | A non-blank send appends exactly one echo entry; a blank one leaves the history as it was |
| AppGcpE2e.ChatTwice | SDLC/app_gcp_e2e.py:712-717 | A non-blank send followed by a blank one adds exactly one entry |
| AppGcpE2e.AnalyzeLogAsWritten | SDLC/app_gcp_e2e.py:759-799 | The analysis as written: warns exactly when both inputs are blank, fails when its lines cannot be read, and otherwise chunks all the lines it read, greedily in 8000 characters |
| AppGcpE2e.TypedLogCrashes | SDLC/app_gcp_e2e.py:762-767 | Typed log text with no upload leaves no lines to read, as `pdfplumber.open(None)` fails |
| AppGcpE2e.PdfUploadLines | SDLC/app_gcp_e2e.py:766-777 | For a PDF upload the lines are those of the pdfplumber text, whatever was typed |
| AppGcpE2e.UnmatchedLineAnalysed | SDLC/app_gcp_e2e.py:772-795 | A PDF log line "INFO ok", which the pattern does not match, is still chunked |
| AppGcpE2e.LogPdfLines | SDLC/app_gcp_e2e.py:766-777 | A one-page "log.pdf" holding "INFO ok" gives the single line "INFO ok" |
| AppGcpE2e.LogIsPdf | SDLC/app_gcp_e2e.py:774-775 | "log.pdf" has the extension "pdf" |
| AppGcpE2e.InfoPageLines | SDLC/app_gcp_e2e.py:768-777 | A page holding "INFO ok" gives the line "INFO ok" |
| AppGcpE2e.InfoUnmatched | SDLC/app_gcp_e2e.py:772-784 | "INFO ok" does not match the pattern "ERROR" |
| AppGcpE2e.InfoNotError | SDLC/app_gcp_e2e.py:772 | "ERROR" does not occur in "INFO ok", ignoring case |
| AppGcpE2e.AnalyzeLog | SDLC/app_gcp_e2e.py:757-799 | The intended analysis: warns exactly when both inputs are blank, never fails, and chunks the matching lines of the preferred text |
| AppGcpE2e.IntendedLinesMatch | SDLC/app_gcp_e2e.py:762-784 | Every line the intended analysis sends matches the pattern and is a stripped line of the preferred text |
| App1.RequirementsRequest | SDLC/app1.py:270-296 | The GPT user-story button exists only after an upload, reads only that file's text, and warns exactly when that text is blank |
| App1.GeminiStoriesRequest | SDLC/app1.py:241-256 | The Gemini user-story button exists only after an upload and prompts with that file's text, blank or not |
| App1.BlankFileOnlyToGemini | SDLC/app1.py:241-296 | A blank file is sent to Gemini as it is, while the GPT button warns |
| App1.TypedRequirementsIgnored | SDLC/app1.py:174-179 | What was typed makes no difference to the request (also lines 254, 272) |
| App1.GeminiCriteriaAsWritten | SDLC/app1.py:363-396 | With both inputs blank the run warns and then fails on the unassigned `output_text`; otherwise it prompts with the preferred text |
| App1.BlankGeminiFails | SDLC/app1.py:369-389 | Two empty inputs: a warning, then the failure |
| App1.GeminiCriteria | SDLC/app1.py:363-396 | The intended Gemini button always completes, and it warns exactly when both inputs are blank |
| App1.GeminiCriteriaAgree | SDLC/app1.py:363-396 | Both versions complete on the same inputs, and there they agree |
| App1.UnsupportedStoriesIgnored | SDLC/app1.py:333-334 | A story file of another type adds no text, so the buttons warn exactly when nothing was typed (also lines 367, 401) |
| App1.TestCaseSession.Generate | SDLC/app1.py:436-464 | The run as written: with an upload it fails, because the box's key is written after its widget exists; without one the button gates the box's stories, sent unstripped |
| App1.TestCaseRunAsWritten | SDLC/app1.py:436-464 | The written run fails, with no warning, exactly when a file is uploaded, and otherwise gates the box's stories |
| App1.UploadedStoriesFail | SDLC/app1.py:447-449 | Any uploaded story file, whatever was typed, makes the written run fail |
| App1.TestCaseSession.GenerateIntended | SDLC/app_gcp_e2e.py:442-451 | With the write moved ahead of the widget: an upload replaces the box's stories and is what the button reads |
| App1.TestCaseAgree | SDLC/app1.py:446-464 | The written run completes exactly without an upload, and then asks what the intended run asks |
| App1.TestCaseRequest | SDLC/app1.py:447-464 | The intended request: the upload's text when there is one, otherwise the box's stories |
| App1.UploadOverridesTyped | SDLC/app1.py:447-453 | In the intended run an upload wins over typed stories, and a blank upload makes the button warn |
| AppMistral.RequirementsText | SDLC/app_mistral.py:145-156 | `full_text` is assigned only with an upload, and it is that file's text |
| AppMistral.GptStoriesAsWritten | SDLC/app_mistral.py:199-224 | Without an upload the run fails on `full_text` before any warning; with one it warns on blank text and otherwise prompts with the text unchanged |
| AppMistral.TypedStoriesFail | SDLC/app_mistral.py:134-139 | Requirements typed with nothing uploaded make the run fail (also lines 145, 200) |
| AppMistral.GptStories | SDLC/app_mistral.py:199-224 | The intended button always completes; with no upload it reads the typed requirements, with one it does what the written button does |
| AppMistral.MistralStories | SDLC/app_mistral.py:168-196 | The Mistral button has no guard: any uploaded text, blank or not, is sent, and no upload fails |
| AppMistral.BlankFileOnlyToMistral | SDLC/app_mistral.py:168-224 | A blank requirements file reaches the Mistral model but makes GPT warn |
| AppMistral.RawTextPrompted | SDLC/app_mistral.py:412-427 | The defect and log buttons send their text unstripped, unlike the preference-fed buttons (also lines 439-454) |
| Text.StripEmptyIff | SDLC/app_gcp_e2e.py:714 | `strip()` gives "" exactly for all-whitespace text |
| Text.SplitOn | ForgeApp/generate_stories_excel.py:53 | `split` gives at least one piece |
| Text.SplitOnJoin | ForgeApp/generate_stories_excel.py:53 | The pieces of a `split`, joined by the separator, give the text back |
| Text.SplitLines | Backend_GCP/log_analysis.py:30 | `splitlines` gives newline-free lines, none exactly for empty text, that join back to the text without its final newline |
| Text.ReadLines | Backend_GCP/log_analysis.py:34 | `readlines` cuts after each '\n': the lines concatenate to the text, none is empty, each holds a '\n' only at its end, every line but the last ends in one, and the last does exactly when the text does |
| Text.NatToStringInjective | Backend_GCP/finetuning_gpt3.5.py:90-97 | Different numbers print differently |

## Left out

- Hosted model calls are left out: Vertex `generate_content`, Azure `llm.complete`, chat completions, the `ollama` subprocess and the agents. Their replies are not deterministic; the model stops at the prompt input (the `Generate` request), and replies such as the table text or a parsed JSON result come in as parameters.
- Network and REST calls are left out: the JIRA POST and its 201 check, Confluence requests, the Azure Search upload and the embedding service. Embeddings are an uninterpreted function; the page request is a value.
- Files and PDF libraries are inputs: fitz and pdfplumber are sequences of page texts (pdfplumber's `extract_text` may give no text, so its pages are `Option`s, in the log analysis and in the JIRA script alike); `read().decode` is a given string; decoding errors are not modelled.
- `open(path)` on text typed as a log path is a map from names to file contents in `AppGcpE2e.AsWrittenLines`.
- `text_to_pdf` and the report PDFs (fpdf/reportlab page geometry) are left out: they only render output.
- openpyxl and pandas are left out: the worksheet is a sequence of columns of values, an alignment per cell and a width map; load and save are not modelled. pandas' padding of short rows and its errors on ragged tables are not modelled: the data rows are kept as parsed.
- Float column widths (1.5 and 0.3) of the step bar are `Button` and `Arrow` slots.
- Streamlit rendering is left out (widgets, markdown, CSS, spinners, the preview boxes). So are reruns, except that a click's `st.rerun()` is the selection change.
- Regular expressions are left out in general: the filters are alternations of literal strings matched case-insensitively, which is all the source uses.
- `Text.Lower`: `lower()` and `re.IGNORECASE` are modelled for ASCII letters only.
- `Text.SplitLines`: `splitlines()` is modelled for '\n' only; '\r', '\v' and the other Unicode line breaks are not separators in the model.
- `JSON.stringify`, `JSON.parse` and `response.json()` are left out: the ADF document and the page request are datatypes; a GPT reply that does not parse is `None`.
- The constant `pageId` of the resolver and its check are left out, as the request goes to the network.
- The defect form's answers 9 and 10 are file-upload objects in the source; in the model they are strings like the rest, and they play no part in the ticket.
- The lines 15-23 of `Backend_GCP/log_analysis.py` interleave two function definitions in the text. The model gives each its evident meaning: `ExtractPdfText` is the page loop, and `StreamAndFilterLog` is the filter with the default pattern "ERROR".
- The "Generate Defect Template" button of the end-to-end app only writes the answers out, and it is not modelled. The same holds for the hard-coded defect and root-cause texts of `SDLC/app1.py` (466-481).
- `SDLC/app_gcp_e2e.py` lines 221-223 set the requirements only when the key is absent, but lines 191-192 always set it first, so they never write; the model has no such write.
- The session state as a whole is not one object: the step selection, the defect session and the test-case box are separate classes.

## Findings

| source | as written | input that shows it | evidently intended | confidence | as-written member | corrected member |
|---|---|---|---|---|---|---|
| SDLC/app_gcp_e2e.py:762-767 | The analysis opens the upload with pdfplumber whatever text was preferred, so typed log lines with no upload reach `pdfplumber.open(None)` and fail | typed "ERROR boot", no upload | The typed text, which wins the preference, is analysed | not executed | AppGcpE2e.TypedLogCrashes | AppGcpE2e.AnalyzeLog |
| SDLC/app_gcp_e2e.py:784-795 | The matching lines are computed into `filtered_lines` (text files only) and never used: the chunk loop runs over all of `lines` | upload "log.pdf" whose page reads "INFO ok" | Only lines matching "ERROR", stripped, are chunked and sent | not executed | AppGcpE2e.UnmatchedLineAnalysed | AppGcpE2e.IntendedLinesMatch |
| SDLC/app1.py:369-389 | After the blank-input warning, the Gemini button goes on to `text_to_pdf(output_text)`, a name no statement of this run assigned, and the run fails | both text boxes empty | Show the warning and stop | not executed | App1.BlankGeminiFails | App1.GeminiCriteria |
| SDLC/app1.py:436-452 | The test-case page writes the uploaded text under the key of the stories box after that box's widget was created in the same run; Streamlit refuses such a write with an exception, so the run ends before the button | any story file uploaded | Write the uploaded text before the widget is created, as `SDLC/app_gcp_e2e.py` does, so the upload fills the box and the button reads it | not executed | App1.UploadedStoriesFail | App1.TestCaseRequest |
| SDLC/app_mistral.py:145-200 | `full_text` is assigned only when a file is uploaded, yet the GPT user-story button reads it; typed requirements, with nothing uploaded, make the run fail | requirements typed, no file uploaded | Read the typed requirements when nothing is uploaded; with an upload, read the file as the end-to-end app does | not executed | AppMistral.TypedStoriesFail | AppMistral.GptStories |
