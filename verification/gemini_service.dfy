/**
  The two calls to the generative model: the image analysis that produces the
  markdown report, and the text-to-speech call. The model client is a
  parameter (a function from request to response or thrown value); the
  network call itself is outside the model.
 */
module GeminiService {
  import opened Types
  import opened Text
  import ReportUtils

  // ============================================================ requests

  /** One part of a request's content: plain text, or a reference to an uploaded file. */
  datatype Part = TextPart(text: string) | FileDataPart(mimeType: string, fileUri: Option<string>)

  /** The analysis request: model, prompt parts and thinking budget (the system instruction is fixed). */
  datatype AnalysisRequest = AnalysisRequest(model: ModelName, parts: seq<Part>, thinkingBudget: nat)

  /** Token counters the service reports; either may be missing. */
  datatype Usage = Usage(promptTokenCount: Option<nat>, candidatesTokenCount: Option<nat>)

  /** What the analysis call returns: its text (possibly missing) and optional usage. */
  datatype GenerateResponse = GenerateResponse(text: Option<string>, usageMetadata: Option<Usage>)

  const ProThinkingBudget: nat := 32768
  const FlashThinkingBudget: nat := 24576

  /** The model and thinking budget for a mode: pro mode buys the larger model and the larger budget. */
  function SelectModel(isProMode: bool): (choice: (ModelName, nat))
    ensures choice.0 == Pro <==> isProMode
    ensures choice.1 == (if isProMode then 32768 else 24576)
    ensures choice.0.Label() == (if isProMode then "gemini-2.5-pro" else "gemini-2.5-flash")
  {
    if isProMode then (Pro, ProThinkingBudget) else (Flash, FlashThinkingBudget)
  }

  /** The fixed opening of the user prompt; the image count and a full stop follow it. */
  const PromptLead: string :=
    "Analysiere die folgenden Bilder " + "von Wildtieren und erstelle " + "einen Bericht gemäß den "
    + "Anweisungen. Die Bilder " + "sind nummeriert von 1 bis "

  /** The prompt text naming how many images follow. */
  function PromptText(count: nat): string
  {
    PromptLead + NatToDecimal(count) + "."
  }

  /** The file part for one image: its declared media type and remote URI. */
  function ImagePart(image: UploadedImage): Part
  {
    FileDataPart(image.file.mimeType, image.fileUri)
  }

  /** One text part, then one file part per image in the order given. */
  function PromptParts(images: seq<UploadedImage>): (parts: seq<Part>)
    ensures |parts| == |images| + 1
    ensures parts[0].TextPart?
    ensures forall k :: 0 < k < |parts| ==> parts[k].FileDataPart?
    ensures forall k :: 0 <= k < |images| ==>
              parts[k + 1].mimeType == images[k].file.mimeType && parts[k + 1].fileUri == images[k].fileUri
  {
    [TextPart(PromptText(|images|))] + seq(|images|, k requires 0 <= k < |images| => ImagePart(images[k]))
  }

  /** The count written into the prompt reads back as the number of images. */
  lemma PromptStatesCount(images: seq<UploadedImage>)
    ensures StartsWith(PromptParts(images)[0].text, PromptLead)
    ensures ParseInt(PromptParts(images)[0].text[|PromptLead|..]) == Some(|images|)
  {
    var t := PromptParts(images)[0].text;
    assert t == PromptLead + (NatToDecimal(|images|) + ".");
    assert t[..|PromptLead|] == PromptLead;
    assert t[|PromptLead|..] == NatToDecimal(|images|) + ".";
    ParseIntStopsAtNonDigit(|images|, ".");
  }

  /** The file parts carry the images' URIs back in the images' order. */
  function FileUris(parts: seq<Part>): (uris: seq<Option<string>>)
    ensures |uris| <= |parts|
  {
    if parts == [] then []
    else if parts[0].FileDataPart? then [parts[0].fileUri] + FileUris(parts[1..])
    else FileUris(parts[1..])
  }

  /** Reading the URIs off the prompt recovers the images' URIs, in order. */
  lemma PromptCarriesUris(images: seq<UploadedImage>)
    ensures FileUris(PromptParts(images)) == seq(|images|, k requires 0 <= k < |images| => images[k].fileUri)
  {
    var parts := PromptParts(images);
    assert parts[1..] == seq(|images|, k requires 0 <= k < |images| => ImagePart(images[k]));
    FileUrisOfImages(images);
  }

  /** Induction step of `PromptCarriesUris` over the image parts alone. */
  lemma {:induction false} FileUrisOfImages(images: seq<UploadedImage>)
    ensures FileUris(seq(|images|, k requires 0 <= k < |images| => ImagePart(images[k])))
         == seq(|images|, k requires 0 <= k < |images| => images[k].fileUri)
  {
    if images != [] {
      var ps := seq(|images|, k requires 0 <= k < |images| => ImagePart(images[k]));
      var rest := images[1..];
      assert ps[1..] == seq(|rest|, k requires 0 <= k < |rest| => ImagePart(rest[k]));
      FileUrisOfImages(rest);
    }
  }

  /** The request sent for an analysis in the given mode. */
  function AnalysisRequestFor(images: seq<UploadedImage>, isProMode: bool): (req: AnalysisRequest)
    ensures req.model == SelectModel(isProMode).0 && req.thinkingBudget == SelectModel(isProMode).1
    ensures req.parts == PromptParts(images)
  {
    var choice := SelectModel(isProMode);
    AnalysisRequest(choice.0, PromptParts(images), choice.1)
  }

  // ============================================================ analysis

  /** The closing marker the model sometimes appends; it is removed with the whitespace before it. */
  const EndMarker := "*(Ende des Berichts)*"

  const EmptyResponse := "API returned an empty response."

  /**
    The raw answer made presentable: end markers stripped, surrounding
    whitespace trimmed, and any preamble before the first occurrence of the
    report title cut off.
   */
  function NormalizeReport(raw: string): (md: string)
    ensures |md| <= |raw|
    ensures var t := Trim(ReportUtils.StripAll(raw, ReportUtils.Marker(EndMarker)));
            && |md| <= |t| && md == t[|t| - |md|..]
            && (Contains(t, ReportUtils.ReportTitle) ==> StartsWith(md, ReportUtils.ReportTitle))
            && (Contains(t, ReportUtils.ReportTitle) ==>
                  forall j: nat :: j < |t| - |md| ==> !OccursAt(t, ReportUtils.ReportTitle, j))
            && (!Contains(t, ReportUtils.ReportTitle) ==> md == t)
  {
    FromTitle(Trim(ReportUtils.StripAll(raw, ReportUtils.Marker(EndMarker))))
  }

  /** `t` from the first occurrence of the report title on, or all of `t` when it has none. */
  function FromTitle(t: string): (md: string)
    ensures |md| <= |t| && md == t[|t| - |md|..]
    ensures Contains(t, ReportUtils.ReportTitle) ==> StartsWith(md, ReportUtils.ReportTitle)
    ensures Contains(t, ReportUtils.ReportTitle) ==>
              forall j: nat :: j < |t| - |md| ==> !OccursAt(t, ReportUtils.ReportTitle, j)
    ensures !Contains(t, ReportUtils.ReportTitle) ==> md == t
  {
    match IndexOf(t, ReportUtils.ReportTitle)
    case Some(i) =>
      TitleAtIndex(t, i);
      if i > 0 then t[i..] else t
    case None => t
  }

  /** An occurrence of the title at index `i` is the start of `t[i..]`. */
  lemma TitleAtIndex(t: string, i: nat)
    requires OccursAt(t, ReportUtils.ReportTitle, i)
    ensures StartsWith(t[i..], ReportUtils.ReportTitle)
  {
    assert t[i..][..|ReportUtils.ReportTitle|] == t[i..i + |ReportUtils.ReportTitle|];
  }

  /**
    analyzeImages: send the prompt, reject a missing or empty answer, and
    package the normalised markdown with the usage counters and the model used.
    A failure of the call itself is passed on unchanged.
   */
  function AnalyzeImages(
    images: seq<UploadedImage>,
    isProMode: bool,
    generate: AnalysisRequest -> Result<GenerateResponse, Thrown>)
    : (r: Result<AnalysisReport, Thrown>)
    ensures generate(AnalysisRequestFor(images, isProMode)).Err? ==>
              r == Err(generate(AnalysisRequestFor(images, isProMode)).error)
    ensures r.Ok? <==> (generate(AnalysisRequestFor(images, isProMode)).Ok?
                        && generate(AnalysisRequestFor(images, isProMode)).value.text.Some?
                        && generate(AnalysisRequestFor(images, isProMode)).value.text.value != [])
    ensures r.Ok? ==> r.value.modelUsed == Some(if isProMode then Pro else Flash)
  {
    var req := AnalysisRequestFor(images, isProMode);
    match generate(req)
    case Err(e) => Err(e)
    case Ok(resp) =>
      if resp.text.None? || resp.text.value == [] then Err(Error(EmptyResponse))
      else
        var usage := if resp.usageMetadata.Some? then resp.usageMetadata.value else Usage(None, None);
        Ok(AnalysisReport(NormalizeReport(resp.text.value), usage.promptTokenCount, usage.candidatesTokenCount, Some(req.model)))
  }

  /** A successful analysis reports exactly the counters the service returned, or none. */
  lemma AnalysisPassesUsage(
    images: seq<UploadedImage>,
    isProMode: bool,
    generate: AnalysisRequest -> Result<GenerateResponse, Thrown>)
    requires generate(AnalysisRequestFor(images, isProMode)).Ok?
    requires generate(AnalysisRequestFor(images, isProMode)).value.text.Some?
    requires generate(AnalysisRequestFor(images, isProMode)).value.text.value != []
    ensures var resp := generate(AnalysisRequestFor(images, isProMode)).value;
            var report := AnalyzeImages(images, isProMode, generate).value;
            && (resp.usageMetadata.Some? ==>
                  report.promptTokenCount == resp.usageMetadata.value.promptTokenCount
                  && report.candidatesTokenCount == resp.usageMetadata.value.candidatesTokenCount)
            && (resp.usageMetadata.None? ==> report.promptTokenCount.None? && report.candidatesTokenCount.None?)
            && report.markdownContent == NormalizeReport(resp.text.value)
  {
  }

  /** An empty or missing answer fails with the fixed message. */
  lemma EmptyAnswerFails(
    images: seq<UploadedImage>,
    isProMode: bool,
    generate: AnalysisRequest -> Result<GenerateResponse, Thrown>)
    requires generate(AnalysisRequestFor(images, isProMode)).Ok?
    requires generate(AnalysisRequestFor(images, isProMode)).value.text in {None, Some([])}
    ensures AnalyzeImages(images, isProMode, generate) == Err(Error("API returned an empty response."))
  {
  }

  /**
    A normalised report that contains its title begins with it, so the
    sectioning drops exactly the title piece.
   */
  lemma NormalizedReportLosesTitleSection(raw: string)
    requires Contains(Trim(ReportUtils.StripAll(raw, ReportUtils.Marker(EndMarker))), ReportUtils.ReportTitle)
    ensures var md := NormalizeReport(raw);
            ReportUtils.SectionSources(md) == ReportUtils.ContentPieces(ReportUtils.SplitAtHeadings(md)[1..])
  {
    ReportUtils.TitleSectionDropped(NormalizeReport(raw));
  }

  /** A report already in normal form (trimmed, title first, no end marker) is left as it is. */
  lemma NormalizeReportFixesNormalForm(md: string)
    requires StartsWith(md, ReportUtils.ReportTitle)
    requires !IsWhitespace(md[|md| - 1])
    requires !Contains(md, EndMarker)
    ensures NormalizeReport(md) == md
  {
    StripWithoutMarker(md);
    assert md[0] == md[..|ReportUtils.ReportTitle|][0];
    TrimOfTrimmed(md);
    StartsWithOccurs(md, ReportUtils.ReportTitle);
  }

  /** Text without the end marker passes the marker stripping unchanged. */
  lemma StripWithoutMarker(md: string)
    requires !Contains(md, EndMarker)
    ensures ReportUtils.StripAll(md, ReportUtils.Marker(EndMarker)) == md
  {
    forall i | 0 <= i <= |md|
      ensures ReportUtils.PatternEnd(ReportUtils.Marker(EndMarker), md[i..]).None?
    {
      MarkerAbsentAt(md, i);
    }
    ReportUtils.StripWithoutMatches(md, ReportUtils.Marker(EndMarker));
  }

  /** Where the marker does not occur, no match of it starts. */
  lemma MarkerAbsentAt(md: string, i: nat)
    requires i <= |md| && !Contains(md, EndMarker)
    ensures !StartsWith(md[i..], EndMarker)
  {
    if i + |EndMarker| <= |md| {
      assert md[i..][..|EndMarker|] == md[i..i + |EndMarker|];
      assert !OccursAt(md, EndMarker, i);
    }
  }

  // ============================================================== speech

  /** The service's answer to a speech request, every level of which may be missing. */
  datatype InlineData = InlineData(data: Option<string>)
  datatype SpeechPart = SpeechPart(inlineData: Option<InlineData>)
  datatype Content = Content(parts: Option<seq<SpeechPart>>)
  datatype Candidate = Candidate(content: Option<Content>)
  datatype SpeechResponse = SpeechResponse(candidates: Option<seq<Candidate>>)

  /** The speech request: model, spoken prompt and voice, with audio as the only modality. */
  datatype SpeechRequest = SpeechRequest(model: string, parts: seq<Part>, voiceName: string)

  const SpeechModel := "gemini-2.5-flash-preview-tts"
  const SpeechVoice := "Charon"
  const SpeechLead := "Say in a clear, friendly, " + "and conversational tone: "
  const NoAudio := "TTS API did not return audio data."

  /** The request that reads `text` aloud. */
  function SpeechRequestFor(text: string): (req: SpeechRequest)
    ensures req.model == "gemini-2.5-flash-preview-tts" && req.voiceName == "Charon"
    ensures |req.parts| == 1 && req.parts[0].TextPart?
    ensures StartsWith(req.parts[0].text, SpeechLead) && req.parts[0].text[|SpeechLead|..] == text
  {
    SpeechRequest(SpeechModel, [TextPart(SpeechLead + text)], SpeechVoice)
  }

  /** `candidates?.[0]?.content?.parts?.[0]?.inlineData?.data`. */
  function AudioData(resp: SpeechResponse): (data: Option<string>)
    ensures data.Some? <==>
      && resp.candidates.Some? && |resp.candidates.value| > 0
      && resp.candidates.value[0].content.Some?
      && resp.candidates.value[0].content.value.parts.Some?
      && |resp.candidates.value[0].content.value.parts.value| > 0
      && resp.candidates.value[0].content.value.parts.value[0].inlineData.Some?
      && resp.candidates.value[0].content.value.parts.value[0].inlineData.value.data.Some?
  {
    if resp.candidates.None? || |resp.candidates.value| == 0 then None
    else
      var candidate := resp.candidates.value[0];
      if candidate.content.None? || candidate.content.value.parts.None? || |candidate.content.value.parts.value| == 0 then None
      else
        var part := candidate.content.value.parts.value[0];
        if part.inlineData.None? then None else part.inlineData.value.data
  }

  /**
    generateSpeech: the base64 audio of the first part of the first
    candidate; a missing or empty payload is an error, and a failure of the
    call is passed on unchanged.
   */
  function GenerateSpeech(text: string, speak: SpeechRequest -> Result<SpeechResponse, Thrown>)
    : (r: Result<string, Thrown>)
    ensures speak(SpeechRequestFor(text)).Err? ==> r == Err(speak(SpeechRequestFor(text)).error)
    ensures r.Ok? ==> r.value != [] && Some(r.value) == AudioData(speak(SpeechRequestFor(text)).value)
    ensures speak(SpeechRequestFor(text)).Ok? && r.Err? ==> r == Err(Error("TTS API did not return audio data."))
  {
    match speak(SpeechRequestFor(text))
    case Err(e) => Err(e)
    case Ok(resp) =>
      var data := AudioData(resp);
      if data.None? || data.value == [] then Err(Error(NoAudio)) else Ok(data.value)
  }

  /** Speech succeeds exactly when the call succeeds and carries a non-empty payload. */
  lemma SpeechSucceedsIffAudio(text: string, speak: SpeechRequest -> Result<SpeechResponse, Thrown>)
    ensures GenerateSpeech(text, speak).Ok? <==>
              && speak(SpeechRequestFor(text)).Ok?
              && AudioData(speak(SpeechRequestFor(text)).value).Some?
              && AudioData(speak(SpeechRequestFor(text)).value).value != []
  {
  }
}
