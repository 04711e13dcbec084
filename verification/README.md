# Wildlife image analysis front end — a verified model of its core

The application lets a forester upload a batch of camera-trap images. It
sends them to a generative model, which returns a German markdown report.
The app then shows that report section by section, each section next to the
images it refers to. A chat answers follow-up questions, and a voice recorder
with silence detection dictates them.

This project models the application's logic in Dafny:

- **Report utilities** (`report_utils.dfy`, module `ReportUtils`):
  - the euro cost of a model call from its token counts;
  - splitting a report into display sections, with each section's referenced images and the `(Bild …)` references stripped from its text;
  - cleaning chat answers that leaked search-tool output.
- **Model service** (`gemini_service.dfy`, module `GeminiService`):
  - choosing the model and its thinking budget;
  - building the prompt;
  - normalising the returned report;
  - passing through the usage counters;
  - extracting the audio payload of a speech call.
- **Upload and analysis workflow** (`app.dfy`, module `Orchestrator`): the screen state machine `UPLOAD → PROCESSING → ANALYSIS`. It covers:
  - file selection;
  - status polling of each upload;
  - the progress bar with its simulated tick;
  - success and failure transitions;
  - cleanup of remote files;
  - reset.
- **Voice recorder** (`audio_recorder.dfy`, module `AudioRecorder`):
  - the guarded, idempotent stop;
  - the RMS amplitude and the 2200 ms silence timer;
  - clip delivery;
  - start failure.
- **Shared vocabulary** (`types.dfy`, module `Types`): the records of `types.ts`, plus `Option`/`Result`.
- **JavaScript string semantics** (`text.dfy`, module `Text`): the built-ins the code relies on, namely `trim` with the ECMAScript whitespace set, `indexOf`, `includes`, `split(',')`, `parseInt` and `join`.

Remote calls are parameters or events carrying their outcome:

- The analysis and speech calls are functions from a request to a response or a thrown value.
- An upload appears as the sequence of its status responses. The workflow reads its outcome through `Polled` and ignores it while every response is still PROCESSING.
- Timer firings are events, and times come with the events.

Arithmetic on prices and progress uses exact `real`s.

Two behaviours of the code shape the model:

- **Cleanup.** Remote files are deleted only when every upload succeeded, because `uploadedImagesWithUris` is assigned only after `Promise.all` resolves (App.tsx:84, 118–122). A failed batch deletes nothing. Only images whose remote name is non-empty are deleted, because the cleanup tests the name for truthiness (App.tsx:121).
- **Recording sessions.** `startRecording` has no guard against a second start (hooks/useAudioRecorder.ts:63-103), so no single-session invariant is stated.

## Model

| member | source | states |
|---|---|---|
| ReportUtils.CalculateCost | utils/reportUtils.ts:22-40 | A cost exists exactly when the model and both token counts are present. It is never negative, and zero tokens cost zero. |
| ReportUtils.FlashCost | utils/reportUtils.ts:28-30 | On flash, the cost is (p/10⁶·0.30 + c/10⁶·2.50)·0.86 euros. |
| ReportUtils.ProCostTiers | utils/reportUtils.ts:31-34 | On pro, up to and including 200000 prompt tokens are billed at 1.25/10.00 per million, and more at 2.50/15.00, converted at 0.86. |
| ReportUtils.ProCostExample | utils/reportUtils.ts:31-39 | 100000 prompt and 50000 output tokens on pro cost (0.125 + 0.5)·0.86 euros. |
| ReportUtils.CostMonotone | utils/reportUtils.ts:5-39 | More prompt or output tokens never cost less on the same model, even across the pro tier boundary. |
| ReportUtils.NextSplitPoint | utils/reportUtils.ts:72 | Finds the first position at or after `from` where a line starts with `# `, `## ` or `### `. Position 0 never counts. |
| ReportUtils.SplitAtHeadings | utils/reportUtils.ts:72 | The pieces concatenate back to the input and are non-empty. Every piece but the last ends a line, and every piece but the first starts with a heading. No piece contains a further cut. |
| ReportUtils.ContentPieces | utils/reportUtils.ts:72 | Keeps exactly the pieces whose trim is neither empty nor `---`, and only pieces of the input. |
| ReportUtils.ContentPiecesAppend | utils/reportUtils.ts:72 | The blank-and-rule filter distributes over concatenation, so it preserves order. |
| ReportUtils.SectionSources | utils/reportUtils.ts:70-76 | Empty markdown has no sections. Every section is a content piece. At most the filtered pieces survive. |
| ReportUtils.SectionsKeepAllWithoutTitle | utils/reportUtils.ts:74-76 | When the first content piece, once trimmed, does not start with the report title, every content piece becomes a section. |
| ReportUtils.FirstPieceHasTitle | utils/reportUtils.ts:72-74 | A report that starts with the title keeps it whole in its first piece, because no cut falls inside the title line. |
| ReportUtils.TitlePieceIsContent | utils/reportUtils.ts:72-74 | A piece starting with the title survives the filter, and its trim still starts with the title. |
| ReportUtils.SectionsDropTitle | utils/reportUtils.ts:74-76 | When the first content piece, once trimmed, starts with the report title, every other content piece becomes a section, in order. |
| ReportUtils.TitleSectionDropped | utils/reportUtils.ts:74-76 | A report starting with its title loses exactly the first piece. All later content pieces remain, in order. |
| ReportUtils.RefRunLength | utils/reportUtils.ts:80 | Measures the maximal run of `[\d,\s]` characters at the front. |
| ReportUtils.RefEnd | utils/reportUtils.ts:80 | A match of `\(Bild\s*[\d,\s]+\)` starts here exactly when `(Bild` is followed by a non-empty maximal run and then `)`. The result is the match's end. |
| ReportUtils.RefEndExample | utils/reportUtils.ts:80 | `(Bild 1, 2)` is matched through its closing parenthesis. |
| ReportUtils.RefGroup | utils/reportUtils.ts:80-82 | The capture group is a non-empty suffix of the run between `(Bild` and `)`, made only of digits, commas and whitespace. Only whitespace is cut off before it. It starts with a non-whitespace character unless the run is all whitespace, in which case the greedy `\s*` leaves exactly one character. |
| ReportUtils.RefGroups | utils/reportUtils.ts:80-82 | Every capture group `matchAll` yields is non-empty and made only of digits, commas and whitespace. |
| ReportUtils.RefGroupsNone | utils/reportUtils.ts:80-82 | Text in which no reference starts at any position yields no capture groups. |
| ReportUtils.RefGroupsFirst | utils/reportUtils.ts:80-82 | The first group comes from the reference at the first position where one starts. Scanning resumes at that reference's end, so matches never overlap. |
| ReportUtils.RefGroupsSkipTo | utils/reportUtils.ts:80-82 | Positions where no reference starts contribute nothing to the scan. |
| ReportUtils.GroupNumbers | utils/reportUtils.ts:83-86 | Every comma piece whose trim parses contributes its number, and every number comes from such a piece. Pieces that do not parse are skipped. |
| ReportUtils.GroupNumbersOne | utils/reportUtils.ts:84-85 | A single piece gives its number exactly when its trim parses, and nothing otherwise. |
| ReportUtils.GroupNumbersAppend | utils/reportUtils.ts:83-86 | The numbers of concatenated pieces are the numbers of each part, so piece order and repeats are kept. |
| ReportUtils.RefNumbers | utils/reportUtils.ts:81-87 | Every number of every group's comma pieces is collected, and nothing else. |
| ReportUtils.RefNumbersAppend | utils/reportUtils.ts:81-87 | The numbers of concatenated group lists are the numbers of each part, so the matches' order is kept. |
| ReportUtils.FirstOccurrences | utils/reportUtils.ts:79-89 | Iterating the `Set` yields pairwise-distinct numbers. It yields exactly the referenced numbers, ordered by first reference. |
| ReportUtils.DistinctInOrder | utils/reportUtils.ts:79-87 | The set-and-loop computation returns exactly `FirstOccurrences`. |
| ReportUtils.ImageIndices | utils/reportUtils.ts:89-91 | Keeps exactly the numbers 1..count, as indices below count. Number 0 and numbers above the image count are dropped. |
| ReportUtils.ImageIndicesDistinct | utils/reportUtils.ts:89-91 | Distinct numbers give distinct images. |
| ReportUtils.ImageIndicesAppend | utils/reportUtils.ts:89-91 | The range filter distributes over concatenation, so it preserves reference order. |
| ReportUtils.SectionImages | utils/reportUtils.ts:79-91 | Every section image comes from `allImages`. There are no more images than distinct references. Every in-range referenced image is included. Image k is `allImages` at the k-th in-range index, in order of first reference. |
| ReportUtils.SectionImagesReferenced | utils/reportUtils.ts:79-91 | Only referenced images appear: each section image is image n for some referenced n within 1..count. |
| ReportUtils.PickedReferenced | utils/reportUtils.ts:89-91 | An image picked by the in-range indices of the distinct numbers is named by one of the numbers. |
| ReportUtils.SectionImagesDistinct | utils/reportUtils.ts:79-91 | Distinct input images give a section image list without repeats: a number referenced twice shows its image once. |
| ReportUtils.StripAll | utils/reportUtils.ts:93 | The global replacement never lengthens the text and only removes characters. |
| ReportUtils.StripRemovesMatch | utils/reportUtils.ts:93 | A reference is removed together with all the whitespace (newlines included) in front of it. |
| ReportUtils.StripKeepsChar | utils/reportUtils.ts:93 | A character, whitespace included, that does not begin a `\s*`-match is kept. |
| ReportUtils.StripKeepsSpaceBeforeWord | utils/reportUtils.ts:93 | A whitespace character before a word that starts no match is kept, as the space in "Ein Reh" is. |
| ReportUtils.StripWithoutMatches | utils/reportUtils.ts:93 | Text in which no match starts passes through unchanged. |
| ReportUtils.ParseReportToSections | utils/reportUtils.ts:69-98 | Empty input gives no sections. There is one section per surviving piece. Section k has id `section-k`, the rendering of its stripped markdown, and its referenced images. |
| ReportUtils.SectionIdsDistinct | utils/reportUtils.ts:96 | Sections at different positions get different ids, because distinct numbers have distinct decimal forms. |
| ReportUtils.EarliestStarterFrom | utils/reportUtils.ts:130-137 | The loop over the starters ends with the smallest index at which any starter occurs, or none. |
| ReportUtils.EarliestStarter | utils/reportUtils.ts:125-137 | None exactly when no starter occurs anywhere. Otherwise a starter occurs at the result and at no earlier index. |
| ReportUtils.CleanToolResponse | utils/reportUtils.ts:122-148 | Missing or empty text gives "". If a starter occurs, the result is the suffix beginning at the earliest one, and starters take precedence. Otherwise `tool_code` or `thought` gives the apology. Otherwise the text is unchanged. |
| ReportUtils.ApologyIsClean | utils/reportUtils.ts:143-145 | The apology contains no starter and neither tool marker. |
| ReportUtils.CleanToolResponseIdempotent | utils/reportUtils.ts:122-148 | Cleaning an already cleaned answer changes nothing. |
| Text.Trim | utils/reportUtils.ts:72 | `trim` removes exactly the leading and trailing ECMAScript whitespace. The result is empty iff the input is all whitespace. |
| Text.TrimIdempotent | utils/reportUtils.ts:72 | Trimming twice is trimming once. |
| Text.ParseInt | utils/reportUtils.ts:84 | On text without leading whitespace or sign, `parseInt` is NaN exactly when the text does not start with a decimal digit. |
| Text.ParseIntOfDecimal | utils/reportUtils.ts:84 | Parsing a number's decimal form gives the number back. |
| Text.SplitOn | utils/reportUtils.ts:83 | `split(',')` gives at least one piece and no piece contains a comma. Joining the pieces with commas gives the input back. |
| Text.IndexOf | utils/reportUtils.ts:133 | `indexOf` finds an occurrence exactly when `includes` holds, and it finds the first one. |
| GeminiService.SelectModel | services/geminiService.ts:60-61 | Pro mode gives `gemini-2.5-pro` with budget 32768. Otherwise it gives `gemini-2.5-flash` with 24576. |
| GeminiService.PromptParts | services/geminiService.ts:48-58 | The prompt is one text part followed by exactly one file part per image, in input order. Each file part carries its image's media type and URI. |
| GeminiService.PromptStatesCount | services/geminiService.ts:56 | The number written into the prompt text reads back as the number of images. |
| GeminiService.PromptCarriesUris | services/geminiService.ts:48-53 | Reading the file URIs off the prompt gives the images' URIs in order. |
| GeminiService.AnalysisRequestFor | services/geminiService.ts:55-71 | The request uses the selected model and budget and the prompt parts. |
| GeminiService.NormalizeReport | services/geminiService.ts:78-83 | The result is a suffix of the marker-stripped, trimmed text. When the title occurs there, the result starts at its first occurrence: it starts with the title and no earlier position holds it. When the title does not occur, the result is the text. |
| GeminiService.FromTitle | services/geminiService.ts:80-83 | The result is a suffix of the text. With the title present, it starts at the title's first occurrence. Without it, the text is kept whole. |
| GeminiService.AnalyzeImages | services/geminiService.ts:63-97 | Call errors are rethrown unchanged. The result is a report exactly when the answer text is present and non-empty. The report records the model used. |
| GeminiService.AnalysisPassesUsage | services/geminiService.ts:85-92 | Token counts are passed through unchanged, and are absent without usage metadata. The markdown is the normalised answer. |
| GeminiService.EmptyAnswerFails | services/geminiService.ts:73-76 | A missing or empty answer fails with "API returned an empty response.". |
| GeminiService.NormalizedReportLosesTitleSection | services/geminiService.ts:80-83 | A normalised report containing the title starts with it, so sectioning drops exactly the title piece. |
| GeminiService.NormalizeReportFixesNormalForm | services/geminiService.ts:78-83 | A trimmed report that starts with its title and has no end marker is left unchanged. |
| GeminiService.StripWithoutMarker | services/geminiService.ts:78 | Text without `*(Ende des Berichts)*` passes the marker removal unchanged. |
| GeminiService.SpeechRequestFor | services/geminiService.ts:101-118 | The speech request uses `gemini-2.5-flash-preview-tts` and voice Charon, with one text part: the fixed lead followed by the text. |
| GeminiService.AudioData | services/geminiService.ts:120 | The optional chain yields data exactly when every level down to the first part's inline data is present. |
| GeminiService.GenerateSpeech | services/geminiService.ts:101-129 | Call errors are rethrown. A success is the first part's non-empty data. Any other outcome fails with "TTS API did not return audio data.". |
| GeminiService.SpeechSucceedsIffAudio | services/geminiService.ts:120-124 | Speech succeeds exactly when the call succeeds and carries a non-empty payload. |
| Orchestrator.ImageFiles | App.tsx:42-43 | Keeps exactly the files whose media type starts with `image/`, and only files of the input. |
| Orchestrator.ImageFilesAppend | App.tsx:42-43 | The image filter distributes over concatenation, so it preserves order. |
| Orchestrator.Capped | App.tsx:40 | At most the first 3000 entries are kept, as a prefix. Shorter selections are kept whole. |
| Orchestrator.SelectImages | App.tsx:40-48 | There is one image per image file among the first 3000 entries, and image k carries the k-th such file, so order is kept. Image k has id now+k, the object URL created for it, and no remote fields. |
| Orchestrator.SelectedIdsDistinct | App.tsx:44-45 | Ids within one batch are pairwise different. |
| Orchestrator.CapBeforeFilter | App.tsx:40-43 | The cap applies before the filter. With more than 3000 entries, the selection holds every image file of the list except those after entry 3000. |
| Orchestrator.Polled | App.tsx:63-72 | Polling ends at the first response that throws or whose state is not PROCESSING. It is still pending exactly while every response so far is PROCESSING. |
| Orchestrator.PolledIgnoresLater | App.tsx:69-72 | Responses after the settling one are never looked at. |
| Orchestrator.PollUpload | App.tsx:68-72 | The polling loop computes `Polled`. |
| Orchestrator.UploadOutcome | App.tsx:74-81 | An ACTIVE file yields the same image with its remote name and URI. Any other state fails with an error naming the file and the state. Thrown errors pass through. |
| Orchestrator.NotProcessedNamesFile | App.tsx:75 | The failure message contains the file name and ends with the state. |
| Orchestrator.Render | App.tsx:143-153 | PROCESSING renders the processing view. The analysis view appears exactly for ANALYSIS with a report. ANALYSIS without a report renders the upload view. |
| Orchestrator.FailureMessage | App.tsx:113-114 | An `Error` shows "Vorgang fehlgeschlagen: " followed by its message. Anything else shows "Vorgang fehlgeschlagen: Unbekannter Fehler". |
| Orchestrator.Fail | App.tsx:111-116 | Failure stops the interval, shows the message, and returns to UPLOAD with progress 0. The images, the report, the deletes, the revoked URLs and the progress text stay as they were. |
| Orchestrator.RemoteNames | App.tsx:120-124 | Every non-empty remote name is deleted, and only remote names of the images are deleted. When every image has a non-empty name, delete k is image k's name. |
| Orchestrator.RemoteNamesAppend | App.tsx:120-124 | The deletes of concatenated image lists are the deletes of each part, so they follow the images' order. |
| Orchestrator.StartAnalysis | App.tsx:84-102 | The uploaded list becomes the shown images and the text becomes "Analysiere Bilder...". The interval starts from the current progress. The screen, report, error, deletes and revoked URLs stay as they were. |
| Orchestrator.UploadProgress | App.tsx:78-79 | After k of n completions, progress is k/n·0.5. It lies in [0, 0.5] and is 0.5 after the last completion. |
| Orchestrator.UploadProgressMonotone | App.tsx:78-79 | Each completion raises the upload progress. |
| Orchestrator.StepPreservesInv | App.tsx:35-141 | Every event keeps the invariant. PROCESSING holds iff work is in flight, and an error shows only on UPLOAD. While uploading, the count matches the settled uploads and progress is k/n·0.5. While the analysis is outstanding, progress is at most 0.99. ANALYSIS always has a report and progress 1. |
| Orchestrator.ProgressMonotone | App.tsx:61-102 | While the screen stays on PROCESSING, no event lowers the progress. |
| Orchestrator.ProgressBelowOneWhileAnalyzing | App.tsx:93-107 | While the analysis is outstanding, progress is at most 0.99 and never 1. |
| Orchestrator.TicksAdd | App.tsx:89-101 | Below the cap, each tick adds exactly 0.5/600. |
| Orchestrator.TicksReachCap | App.tsx:89-102 | From 0.5, tick 587 is still below 0.99. Tick 588 sets 0.99 and stops the interval, and later ticks change nothing. |
| Orchestrator.CleanupOnlyAfterUploads | App.tsx:117-130 | A settled analysis, successful or not, deletes the uploaded files' remote names, in order. When every name is non-empty that is one delete per file. No other event deletes anything. |
| Orchestrator.SettleUpload | App.tsx:61-83 | Each image's promise settles once, and `Promise.all` stops listening at the first failure. So a settlement arriving when no batch is uploading, for an index outside the batch, or for an upload already settled changes nothing. |
| Orchestrator.UploadStillPolling | App.tsx:68-71 | An upload whose responses so far are all PROCESSING has not settled, and its event changes nothing. |
| Orchestrator.PolledNeverFailsAsProcessing | App.tsx:68-75 | A polled file that did not throw never fails with the message for state PROCESSING. |
| Orchestrator.UploadFailureFailsBatch | App.tsx:68-116 | When the polled outcome of an upload is a failure, the batch fails: UPLOAD, progress 0, the error message, no analysis, no deletes. |
| Orchestrator.LastUploadStartsAnalysis | App.tsx:68-102 | When the polled outcome of the last outstanding upload is an active file, the analysis starts. Every image appears as uploaded, in selection order, at progress 0.5. |
| Orchestrator.AnalysisOutcome | App.tsx:104-116 | Success shows the report with progress 1 in ANALYSIS. Failure returns to UPLOAD with progress 0 and the message. Either way the interval stops. |
| Orchestrator.ResetClears | App.tsx:134-141 | Reset revokes every preview URL and empties the images. It clears the report and error, sets progress to 0, and returns to UPLOAD. |
| Orchestrator.PreviewUrls | App.tsx:135 | Lists one revoked URL per shown image, in order. |
| AudioRecorder.MeanSquare | hooks/useAudioRecorder.ts:38-46 | The squared RMS of `a/128 − 1` lies in [0, 1]. An empty buffer gives NaN. |
| AudioRecorder.MidpointIsSilent | hooks/useAudioRecorder.ts:40-45 | A buffer of all 128s has amplitude 0. |
| AudioRecorder.QuietIffBelowThreshold | hooks/useAudioRecorder.ts:45-48 | The integer quiet test holds exactly when the squared RMS is below 0.0001, that is when `rms < 0.01`. |
| AudioRecorder.StopRecording | hooks/useAudioRecorder.ts:24-34 | Without a recorder that is recording, stop does nothing. Otherwise it stops the recorder, clears the interval and silence timer, and zeroes the amplitude. |
| AudioRecorder.StopIdempotent | hooks/useAudioRecorder.ts:25 | Stopping twice is stopping once. |
| AudioRecorder.UpdateAmplitude | hooks/useAudioRecorder.ts:36-61 | The amplitude is published. A quiet sample arms a 2200 ms timer only when none is pending. A loud sample cancels any timer. |
| AudioRecorder.StartRecording | hooks/useAudioRecorder.ts:63-103 | Success starts a fresh session: empty chunks, start time, flag set, interval replaced. Failure only clears the flag. |
| AudioRecorder.OnStop | hooks/useAudioRecorder.ts:82-90 | The session's chunks become one `audio/webm;codecs=opus` clip lasting stop time minus start time. The flag drops and the stream and context are released. |
| AudioRecorder.StepPreservesInv | hooks/useAudioRecorder.ts:24-103 | Every event keeps the invariant. A pending silence timer implies sampling, and sampling implies a recording recorder with an analyser. A stop awaiting notification implies an inactive recorder. The amplitude stays within [0, 1]. |
| AudioRecorder.SilenceStopsRecording | hooks/useAudioRecorder.ts:50-52 | Once its deadline has come, the silence timer acts exactly like the stop button. Before that it does nothing. |
| AudioRecorder.ExpectedDeadlineSnoc | hooks/useAudioRecorder.ts:48-59 | One more sample moves the expected deadline as the source's branches do. |
| AudioRecorder.SilenceDeadlineFromFirstQuiet | hooks/useAudioRecorder.ts:48-59 | After any run of samples, the deadline is 2200 ms after the first sample of the trailing quiet run, or the earlier pending deadline. There is none after a loud sample. |
| AudioRecorder.SilenceStopTiming | hooks/useAudioRecorder.ts:48-59 | With no timer pending at the start, the timer stops the recording at time `now` exactly when the samples end in a quiet run whose first sample came at least 2200 ms before `now`. |
| AudioRecorder.SamplesKeepPending | hooks/useAudioRecorder.ts:36-61 | Amplitude samples never set a stop pending. |
| AudioRecorder.ChunksInArrivalOrder | hooks/useAudioRecorder.ts:78-80 | Chunks are appended in arrival order. |
| AudioRecorder.SessionDeliversClip | hooks/useAudioRecorder.ts:74-93 | Start, then chunks, stop and the stop notification deliver exactly those chunks as one clip with the measured duration. |
| AudioRecorder.StartFailureArmsNothing | hooks/useAudioRecorder.ts:99-102 | A refused microphone leaves the flag down and starts no interval. |

## Left out

- The system instruction text of the analysis call is a fixed prompt. It is not modelled, because it carries no logic.
- `parseMarkdownForDisplay` and `parseChatMarkdown` are presentational chains of regular expressions. `ParseReportToSections` takes the renderer as an uninterpreted function parameter.
- The model SDK (`files.upload`, `files.get`, `files.delete`, `generateContent`) is represented by events and function parameters. Whether a delete succeeds is not modelled, because delete failures are only logged.
- Late completions of an abandoned upload batch are ignored. After one upload fails, the others still in flight keep calling `setProgress` in the source. The model treats `Promise.all` as "all succeed in order, or the batch fails".
- Client construction (`createGeminiClient`) is an optional thrown value on the selection event.
- Orchestrator.SelectImages: every id uses one timestamp. The source reads the clock once per image. With a non-decreasing clock, ids stay strictly increasing, so they are still distinct.
- The analysis is always requested in pro mode, as the component passes `true`. The result arrives as an event, so the mode is not part of the workflow state.
- `console` logging, the one-second polling delay and the 100 ms and 50 ms interval periods are left out. Only the order of events matters.
- The browser audio graph (`getUserMedia`, `AudioContext`, `MediaRecorder`, the analyser's FFT size) is reduced to flags. A start that fails after microphone access was granted is modelled like a refused microphone.
- The orphaned recorder left behind by a second start is not tracked. Neither is its late stop notification, which in the source reads the new session's chunks and start time.
- AudioRecorder.MeanSquare: the amplitude is kept as its square, because square roots are not available on exact reals. The quiet test is stated as an equivalent integer comparison.
- Orchestrator.ProgressMonotone: it ignores floating-point rounding of `k/n·0.5` and of the repeated tick additions. The model uses exact reals.
- ReportUtils.CalculateCost: it ignores floating-point rounding. It assumes `modelUsed` is one of the two priced models, since the report type admits no other.
- Strings: JavaScript strings are sequences of UTF-16 code units, while a Dafny `string` is a sequence of Unicode scalar values. A character outside the Basic Multilingual Plane is one `char` here but two code units in the source, so lengths and indices differ for such text. A lone surrogate, which a JavaScript string may hold, has no `char` at all. The model states its properties for text made of scalar values.
- The error banner's dismiss button and the chat component are not part of this model.
