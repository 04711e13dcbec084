/**
  The upload-and-analyse workflow of the application component as an
  event-driven state machine over `UPLOAD -> PROCESSING -> ANALYSIS`.
  Remote calls are events carrying their outcome: the settling of one
  upload (after its status polling), a progress-timer tick, and the
  settling of the analysis call. `Promise.all` is modelled as "every upload
  succeeds, in the original order, or the first failure fails the batch".
 */
module Orchestrator {
  import opened Types
  import opened Text

  // ============================================================ selection

  /** At most this many selected files are considered, counted before filtering. */
  const MaxFiles: nat := 3000

  const ImagePrefix := "image/"

  /** A file whose declared media type starts with `image/`. */
  predicate IsImageFile(f: FileRef)
  {
    StartsWith(f.mimeType, ImagePrefix)
  }

  /** The image files among `files`, in their original order. */
  function ImageFiles(files: seq<FileRef>): (images: seq<FileRef>)
    ensures |images| <= |files|
    ensures forall k :: 0 <= k < |images| ==> IsImageFile(images[k]) && images[k] in files
    ensures forall f :: f in files && IsImageFile(f) ==> f in images
  {
    if files == [] then []
    else
      var tail := ImageFiles(files[1..]);
      if IsImageFile(files[0]) then [files[0]] + tail else tail
  }

  /** Filtering distributes over concatenation, so the filter keeps the input order. */
  lemma {:induction false} ImageFilesAppend(a: seq<FileRef>, b: seq<FileRef>)
    ensures ImageFiles(a + b) == ImageFiles(a) + ImageFiles(b)
  {
    if a == [] {
      assert a + b == b;
    } else {
      assert (a + b)[0] == a[0];
      assert (a + b)[1..] == a[1..] + b;
      ImageFilesAppend(a[1..], b);
    }
  }

  /** The first `MaxFiles` entries of the selection. */
  function Capped(files: seq<FileRef>): (capped: seq<FileRef>)
    ensures |capped| <= MaxFiles && capped <= files
    ensures |files| <= MaxFiles ==> capped == files
  {
    if |files| <= MaxFiles then files else files[..MaxFiles]
  }

  /**
    The images a selection becomes: the image files among the first 3000
    entries, numbered `now + index` in order, each with its own preview URL.
   */
  function SelectImages(files: seq<FileRef>, now: int, objectUrl: nat -> string): (images: seq<UploadedImage>)
    ensures |images| <= MaxFiles
    ensures |images| == |ImageFiles(Capped(files))|
    ensures forall k :: 0 <= k < |images| ==> images[k].file == ImageFiles(Capped(files))[k]
    ensures forall k :: 0 <= k < |images| ==>
              && images[k].id == now + k
              && images[k].file in Capped(files) && IsImageFile(images[k].file)
              && images[k].previewUrl == objectUrl(k)
              && images[k].fileNameApi.None? && images[k].fileUri.None?
    ensures forall f :: f in Capped(files) && IsImageFile(f) ==> exists k :: 0 <= k < |images| && images[k].file == f
  {
    var picked := ImageFiles(Capped(files));
    var images := seq(|picked|, k requires 0 <= k < |picked| => UploadedImage(now + k, picked[k], objectUrl(k), None, None));
    forall f | f in picked
      ensures exists k :: 0 <= k < |images| && images[k].file == f
    {
      var i :| 0 <= i < |picked| && picked[i] == f;
      assert images[i].file == f;
    }
    images
  }

  /** Ids within one batch are pairwise different. */
  lemma SelectedIdsDistinct(files: seq<FileRef>, now: int, objectUrl: nat -> string, i: nat, j: nat)
    requires i < j < |SelectImages(files, now, objectUrl)|
    ensures SelectImages(files, now, objectUrl)[i].id != SelectImages(files, now, objectUrl)[j].id
  {
  }

  /**
    The cap applies before the filter: with more than 3000 entries, image
    files after position 3000 are never selected, however few images came first.
   */
  lemma CapBeforeFilter(files: seq<FileRef>, now: int, objectUrl: nat -> string)
    requires |files| > MaxFiles
    ensures |SelectImages(files, now, objectUrl)| == |ImageFiles(files)| - |ImageFiles(files[MaxFiles..])|
  {
    assert files == files[..MaxFiles] + files[MaxFiles..];
    ImageFilesAppend(files[..MaxFiles], files[MaxFiles..]);
  }

  // ============================================================== polling

  /** A remote file record: its name, URI and processing state. */
  datatype RemoteFile = RemoteFile(name: string, uri: string, state: string)

  const StateProcessing := "PROCESSING"
  const StateActive := "ACTIVE"

  /**
    The outcome of the upload call followed by status queries: the first
    response that throws or reports a state other than `PROCESSING`, or `None`
    while every response seen so far is still processing.
   */
  function Polled(responses: seq<Result<RemoteFile, Thrown>>): (r: Option<Result<RemoteFile, Thrown>>)
    ensures r.Some? ==> r.value in responses
    ensures r.Some? && r.value.Ok? ==> r.value.value.state != StateProcessing
    ensures r.None? <==> forall k :: 0 <= k < |responses| ==> responses[k].Ok? && responses[k].value.state == StateProcessing
  {
    if responses == [] then None
    else match responses[0]
      case Err(e) => Some(Err(e))
      case Ok(f) => if f.state == StateProcessing then Polled(responses[1..]) else Some(Ok(f))
  }

  /** Responses after the settling one are never looked at. */
  lemma {:induction false} PolledIgnoresLater(a: seq<Result<RemoteFile, Thrown>>, b: seq<Result<RemoteFile, Thrown>>)
    requires Polled(a).Some?
    ensures Polled(a + b) == Polled(a)
  {
    assert (a + b)[0] == a[0];
    if a[0].Ok? && a[0].value.state == StateProcessing {
      assert (a + b)[1..] == a[1..] + b;
      PolledIgnoresLater(a[1..], b);
    }
  }

  /** The polling loop: query again while the file is still processing. */
  method PollUpload(responses: seq<Result<RemoteFile, Thrown>>) returns (r: Option<Result<RemoteFile, Thrown>>)
    ensures r == Polled(responses)
  {
    var i := 0;
    while i < |responses| && responses[i].Ok? && responses[i].value.state == StateProcessing
      invariant i <= |responses|
      invariant Polled(responses) == Polled(responses[i..])
    {
      assert responses[i..][1..] == responses[i + 1..];
      i := i + 1;
    }
    if i == |responses| {
      r := None;
    } else {
      r := Some(responses[i]);
    }
  }

  /** The message thrown when a file settles in a state other than `ACTIVE`. */
  function NotProcessedMessage(fileName: string, state: string): string
  {
    "Datei " + fileName + " konnte nicht verarbeitet werden. Status: " + state
  }

  /**
    The result of one image's upload once polling settled: an active file
    yields the image with its remote name and URI, anything else fails.
   */
  function UploadOutcome(image: UploadedImage, settled: Result<RemoteFile, Thrown>): (r: Result<UploadedImage, Thrown>)
    ensures r.Ok? <==> settled.Ok? && settled.value.state == StateActive
    ensures r.Ok? ==>
              && r.value.id == image.id && r.value.file == image.file && r.value.previewUrl == image.previewUrl
              && r.value.fileNameApi == Some(settled.value.name) && r.value.fileUri == Some(settled.value.uri)
    ensures settled.Err? ==> r == Err(settled.error)
    ensures settled.Ok? && settled.value.state != StateActive ==>
              r == Err(Error(NotProcessedMessage(image.file.name, settled.value.state)))
  {
    match settled
    case Err(e) => Err(e)
    case Ok(f) =>
      if f.state != StateActive then Err(Error(NotProcessedMessage(image.file.name, f.state)))
      else Ok(image.(fileNameApi := Some(f.name), fileUri := Some(f.uri)))
  }

  /** The failure message names the file and the state it ended in. */
  lemma NotProcessedNamesFile(fileName: string, state: string)
    ensures Contains(NotProcessedMessage(fileName, state), fileName)
    ensures StartsWith(NotProcessedMessage(fileName, state)[|NotProcessedMessage(fileName, state)| - |state|..], state)
  {
    var m := NotProcessedMessage(fileName, state);
    assert m[6..6 + |fileName|] == fileName;
    assert OccursAt(m, fileName, 6);
    assert m[|m| - |state|..][..|state|] == state;
  }

  // ============================================================ the state

  /** The in-flight work of the current selection. */
  datatype Session =
    | Idle
      /** Uploads under way: the batch, the settled results by position, and how many completed. */
    | Uploading(batch: seq<UploadedImage>, done: seq<Option<UploadedImage>>, completed: nat)
      /** The analysis call is outstanding for these uploaded images. */
    | Analyzing(uploaded: seq<UploadedImage>)

  /**
    The component state (`appState`, `images`, `analysisReport`, `error`,
    `progress`, `progressText`), whether the progress interval runs, the
    in-flight session, and the effects issued so far: remote deletes and
    revoked preview URLs.
   */
  datatype App = App(
    state: AppState,
    images: seq<UploadedImage>,
    report: Option<AnalysisReport>,
    error: Option<string>,
    progress: real,
    progressText: string,
    ticking: bool,
    session: Session,
    deletes: seq<string>,
    revoked: seq<string>)

  const UploadingText := "Lade Bilder hoch..."
  const AnalyzingText := "Analysiere Bilder..."

  /** The state on first render. */
  const Initial := App(Upload, [], None, None, 0.0, AnalyzingText, false, Idle, [], [])

  /** The interval adds this much every tick: half the bar over 60000 ms at one tick per 100 ms. */
  const Duration: real := 60000.0
  const TickRate: real := 100.0
  const Increment: real := 0.5 / (Duration / TickRate)

  /** Simulated progress stops here until the analysis returns. */
  const ProgressCap: real := 0.99

  /** The things that happen to the component. */
  datatype Event =
      /** Files chosen in the upload view (the only view offering it); `client` is the thrown value when constructing the client fails. */
    | FilesSelected(files: seq<FileRef>, now: int, objectUrl: nat -> string, client: Option<Thrown>)
      /**
        The upload of the image at `index` and its status queries produced
        these responses, in order; it settles at the first one that throws or
        is no longer processing.
       */
    | UploadPolled(index: nat, responses: seq<Result<RemoteFile, Thrown>>)
      /** The progress interval fired. */
    | Tick
      /** The analysis call settled. */
    | AnalysisSettled(result: Result<AnalysisReport, Thrown>)
      /** The reset button, which only the analysis view shows. */
    | Reset
      /** The component unmounts. */
    | Unmount

  // ============================================================ the views

  datatype View = UploadView | ProcessingView | AnalysisView

  /** The screen rendered for a state; `ANALYSIS` without a report falls back to the upload view. */
  function Render(app: App): (v: View)
    ensures v == AnalysisView <==> app.state == Analysis && app.report.Some?
    ensures v == ProcessingView <==> app.state == Processing
  {
    match app.state
    case Processing => ProcessingView
    case Analysis => if app.report.Some? then AnalysisView else UploadView
    case Upload => UploadView
  }

  // ======================================================== the transitions

  /** The text shown for a failure: the error's message, or a fixed one for anything else thrown. */
  function FailureMessage(thrown: Thrown): (m: string)
    ensures thrown.Error? ==> m == "Vorgang fehlgeschlagen: " + thrown.message
    ensures thrown.NonError? ==> m == "Vorgang fehlgeschlagen: Unbekannter Fehler"
  {
    "Vorgang fehlgeschlagen: " + (match thrown case Error(msg) => msg case NonError => "Unbekannter Fehler")
  }

  /** The catch block: stop the interval, show the error, return to the upload screen. */
  function Fail(app: App, thrown: Thrown): (next: App)
    ensures next.state == Upload && next.progress == 0.0 && !next.ticking && next.session == Idle
    ensures next.error == Some(FailureMessage(thrown))
    ensures next.images == app.images && next.report == app.report && next.deletes == app.deletes
    ensures next.revoked == app.revoked && next.progressText == app.progressText
  {
    app.(state := Upload, error := Some(FailureMessage(thrown)), progress := 0.0, ticking := false, session := Idle)
  }

  /** An image with a non-empty remote name; the cleanup's truthiness test skips the rest. */
  predicate HasRemoteName(img: UploadedImage)
  {
    img.fileNameApi.Some? && img.fileNameApi.value != []
  }

  /**
    The remote names the cleanup deletes, in order: one per uploaded image
    that has a non-empty remote name.
   */
  function RemoteNames(images: seq<UploadedImage>): (names: seq<string>)
    ensures |names| <= |images|
    ensures forall k :: 0 <= k < |images| && HasRemoteName(images[k]) ==> images[k].fileNameApi.value in names
    ensures forall n :: n in names ==> n != [] && exists k :: 0 <= k < |images| && images[k].fileNameApi == Some(n)
    ensures (forall k :: 0 <= k < |images| ==> HasRemoteName(images[k])) ==>
              && |names| == |images|
              && forall k :: 0 <= k < |images| ==> names[k] == images[k].fileNameApi.value
  {
    if images == [] then []
    else
      var tail := RemoteNames(images[1..]);
      if HasRemoteName(images[0]) then [images[0].fileNameApi.value] + tail else tail
  }

  /** The names of a concatenation are the names of each part, so the order is the images' order. */
  lemma {:induction false} RemoteNamesAppend(a: seq<UploadedImage>, b: seq<UploadedImage>)
    ensures RemoteNames(a + b) == RemoteNames(a) + RemoteNames(b)
  {
    if a == [] {
      assert a + b == b;
    } else {
      assert (a + b)[0] == a[0];
      assert (a + b)[1..] == a[1..] + b;
      RemoteNamesAppend(a[1..], b);
    }
  }

  /** All uploads succeeded: show them and start the simulated progress of the analysis. */
  function StartAnalysis(app: App, uploaded: seq<UploadedImage>): (next: App)
    ensures next.session == Analyzing(uploaded) && next.images == uploaded && next.ticking
    ensures next.progressText == AnalyzingText && next.progress == app.progress
    ensures && next.state == app.state && next.report == app.report && next.error == app.error
            && next.deletes == app.deletes && next.revoked == app.revoked
  {
    app.(images := uploaded, progressText := AnalyzingText, ticking := true, session := Analyzing(uploaded))
  }

  /** The settled values of a fully completed batch, in batch order. */
  function Values(done: seq<Option<UploadedImage>>): (vs: seq<UploadedImage>)
    requires forall k :: 0 <= k < |done| ==> done[k].Some?
    ensures |vs| == |done| && forall k :: 0 <= k < |done| ==> vs[k] == done[k].value
  {
    seq(|done|, k requires 0 <= k < |done| => done[k].value)
  }

  /** The number of settled uploads in `done`. */
  function CountSettled(done: seq<Option<UploadedImage>>): (n: nat)
    ensures n <= |done|
  {
    if done == [] then 0 else (if done[0].Some? then 1 else 0) + CountSettled(done[1..])
  }

  /** Recording one more settled upload raises the count by one. */
  lemma {:induction false} CountSettledUpdate(done: seq<Option<UploadedImage>>, i: nat, v: UploadedImage)
    requires i < |done| && done[i].None?
    ensures CountSettled(done[i := Some(v)]) == CountSettled(done) + 1
  {
    if i > 0 {
      assert done[i := Some(v)][1..] == done[1..][i - 1 := Some(v)];
      CountSettledUpdate(done[1..], i - 1, v);
    } else {
      assert done[i := Some(v)][1..] == done[1..];
    }
  }

  /** With every position settled, the count is the batch size. */
  lemma {:induction false} CountSettledFull(done: seq<Option<UploadedImage>>)
    requires forall k :: 0 <= k < |done| ==> done[k].Some?
    ensures CountSettled(done) == |done|
  {
    if done != [] {
      CountSettledFull(done[1..]);
    }
  }

  /** A count equal to the size means every position has settled. */
  lemma {:induction false} CountSettledComplete(done: seq<Option<UploadedImage>>)
    requires CountSettled(done) == |done|
    ensures forall k :: 0 <= k < |done| ==> done[k].Some?
  {
    if done != [] {
      assert CountSettled(done[1..]) <= |done[1..]|;
      CountSettledComplete(done[1..]);
      forall k | 0 <= k < |done|
        ensures done[k].Some?
      {
        if k > 0 {
          assert done[k] == done[1..][k - 1];
        }
      }
    }
  }

  /** The progress after `completed` of `n` uploads: the first half of the bar, shared evenly. */
  function UploadProgress(completed: nat, n: nat): (p: real)
    requires 0 < n && completed <= n
    ensures 0.0 <= p <= 0.5
    ensures completed == n ==> p == 0.5
  {
    (completed as real / n as real) * 0.5
  }

  /** One more completion never lowers the upload progress. */
  lemma UploadProgressMonotone(k: nat, n: nat)
    requires 0 < n && k < n
    ensures UploadProgress(k, n) < UploadProgress(k + 1, n)
  {
    assert (k as real) / (n as real) < ((k + 1) as real) / (n as real);
  }

  /**
    One upload settled: a failure fails the batch; a success records the
    image and the new upload progress, and the last one starts the analysis.
    Settlements of a finished or abandoned batch, or repeated ones, are ignored.
   */
  function SettleUpload(app: App, index: nat, settled: Result<RemoteFile, Thrown>): (next: App)
    ensures (|| !app.session.Uploading? || index >= |app.session.batch| || index >= |app.session.done|
             || app.session.done[index].Some?) ==> next == app
  {
    if !app.session.Uploading? || index >= |app.session.batch|
       || index >= |app.session.done| || app.session.done[index].Some?
    then app
    else
      var batch := app.session.batch;
      var outcome := UploadOutcome(batch[index], settled);
      if outcome.Err? then Fail(app, outcome.error)
      else
        var done := app.session.done[index := Some(outcome.value)];
        var completed := app.session.completed + 1;
        var progressed := app.(progress := if completed <= |batch| then UploadProgress(completed, |batch|) else app.progress,
                               session := Uploading(batch, done, completed));
        if completed == |batch| && forall k :: 0 <= k < |done| ==> done[k].Some? then
          StartAnalysis(progressed, Values(done))
        else progressed
  }

  /** What the application does with one event. */
  function Step(app: App, e: Event): (next: App)
  {
    match e
    case FilesSelected(files, now, objectUrl, client) =>
      if Render(app) != UploadView then app
      else
        var images := SelectImages(files, now, objectUrl);
        var started := app.(error := None, progress := 0.0, state := Processing, images := images, ticking := false);
        if client.Some? then Fail(started, client.value)
        else
          var uploading := started.(progressText := UploadingText);
          if images == [] then StartAnalysis(uploading, [])
          else uploading.(session := Uploading(images, seq(|images|, _ => None), 0))

    case UploadPolled(index, responses) =>
      if Polled(responses).None? then app else SettleUpload(app, index, Polled(responses).value)

    case Tick =>
      if !app.ticking then app
      else if app.progress + Increment >= ProgressCap then app.(progress := ProgressCap, ticking := false)
      else app.(progress := app.progress + Increment)

    case AnalysisSettled(result) =>
      if !app.session.Analyzing? then app
      else
        var uploaded := app.session.uploaded;
        var cleaned := app.(deletes := app.deletes + RemoteNames(uploaded));
        if result.Ok? then
          cleaned.(ticking := false, progress := 1.0, report := Some(result.value), state := Analysis, session := Idle)
        else Fail(cleaned, result.error)

    case Reset =>
      if Render(app) != AnalysisView then app
      else app.(revoked := app.revoked + PreviewUrls(app.images), images := [], report := None,
           error := None, progress := 0.0, state := Upload)

    case Unmount =>
      app.(ticking := false)
  }

  /** The preview URLs of the shown images, in order. */
  function PreviewUrls(images: seq<UploadedImage>): (urls: seq<string>)
    ensures |urls| == |images| && forall k :: 0 <= k < |images| ==> urls[k] == images[k].previewUrl
  {
    seq(|images|, k requires 0 <= k < |images| => images[k].previewUrl)
  }

  // ============================================================ invariant

  /** What holds of every reachable state. */
  predicate Inv(app: App)
  {
    && 0.0 <= app.progress <= 1.0
    && (app.state == Processing <==> !app.session.Idle?)
    && (app.session.Idle? ==> !app.ticking)
    && (app.error.Some? ==> app.state == Upload)
    && (app.state == Analysis ==> app.report.Some? && app.progress == 1.0)
    && (app.session.Uploading? ==>
          && |app.session.batch| > 0
          && |app.session.done| == |app.session.batch|
          && app.images == app.session.batch
          && app.session.completed == CountSettled(app.session.done)
          && app.session.completed < |app.session.batch|
          && app.progress == UploadProgress(app.session.completed, |app.session.batch|)
          && !app.ticking
          && forall k :: 0 <= k < |app.session.done| && app.session.done[k].Some? ==>
               UploadedAs(app.session.batch[k], app.session.done[k].value))
    && (app.session.Analyzing? ==>
          && app.images == app.session.uploaded
          && app.progress <= ProgressCap
          && (app.ticking ==> app.progress < ProgressCap)
          && forall k :: 0 <= k < |app.session.uploaded| ==> app.session.uploaded[k].fileNameApi.Some?)
  }

  /** `after` is `before` as the upload returned it: same image, with a remote name and URI. */
  predicate UploadedAs(before: UploadedImage, after: UploadedImage)
  {
    && after.id == before.id && after.file == before.file && after.previewUrl == before.previewUrl
    && after.fileNameApi.Some? && after.fileUri.Some?
  }

  lemma InitialInv()
    ensures Inv(Initial) && Render(Initial) == UploadView
  {
  }

  /** Every event keeps the invariant. */
  lemma StepPreservesInv(app: App, e: Event)
    requires Inv(app)
    ensures Inv(Step(app, e))
  {
    match e
    case FilesSelected(files, now, objectUrl, client) => SelectionPreservesInv(app, files, now, objectUrl, client);
    case UploadPolled(index, responses) =>
      if Polled(responses).Some? {
        UploadPreservesInv(app, index, Polled(responses).value);
      }
    case _ =>
  }

  /** A new selection starts a well-formed session, or fails cleanly. */
  lemma SelectionPreservesInv(app: App, files: seq<FileRef>, now: int, objectUrl: nat -> string, client: Option<Thrown>)
    requires Inv(app)
    ensures Inv(Step(app, FilesSelected(files, now, objectUrl, client)))
  {
    var images := SelectImages(files, now, objectUrl);
    if images != [] {
      var done: seq<Option<UploadedImage>> := seq(|images|, _ => None);
      NoneSettled(done);
    }
  }

  /** A settled upload either fails the batch or records one more completion. */
  lemma UploadPreservesInv(app: App, index: nat, settled: Result<RemoteFile, Thrown>)
    requires Inv(app)
    ensures Inv(SettleUpload(app, index, settled))
  {
    if app.session.Uploading? && index < |app.session.batch| && index < |app.session.done| && app.session.done[index].None? {
      var batch := app.session.batch;
      var outcome := UploadOutcome(batch[index], settled);
      if outcome.Ok? {
        var done := app.session.done[index := Some(outcome.value)];
        CountSettledUpdate(app.session.done, index, outcome.value);
        var completed := app.session.completed + 1;
        UploadProgressMonotone(app.session.completed, |batch|);
        if completed == |batch| {
          CountSettledComplete(done);
          assert forall k :: 0 <= k < |done| ==> UploadedAs(batch[k], done[k].value);
        }
      }
    }
  }

  /** A batch with nothing settled counts zero. */
  lemma {:induction false} NoneSettled(done: seq<Option<UploadedImage>>)
    requires forall k :: 0 <= k < |done| ==> done[k].None?
    ensures CountSettled(done) == 0
  {
    if done != [] {
      NoneSettled(done[1..]);
    }
  }

  // ============================================================ properties

  /**
    While the screen stays on processing, progress never goes down: upload
    completions raise it, ticks raise it up to the cap, and nothing else
    touches it.
   */
  lemma ProgressMonotone(app: App, e: Event)
    requires Inv(app) && app.state == Processing
    requires Step(app, e).state == Processing
    ensures Step(app, e).progress >= app.progress
  {
    match e
    case UploadPolled(index, responses) =>
      if Polled(responses).Some? && app.session.Uploading? && index < |app.session.batch| && index < |app.session.done| && app.session.done[index].None? {
        UploadProgressMonotone(app.session.completed, |app.session.batch|);
      }
    case _ =>
  }

  /** While the analysis is outstanding, the bar never shows completion. */
  lemma ProgressBelowOneWhileAnalyzing(app: App)
    requires Inv(app) && app.session.Analyzing?
    ensures app.progress <= 0.99 && app.progress < 1.0
  {
  }

  /** `n` interval ticks in a row. */
  function Ticks(app: App, n: nat): App
    decreases n
  {
    if n == 0 then app else Ticks(Step(app, Tick), n - 1)
  }

  /**
    Below the cap each tick adds exactly `0.5/600`: after `n` ticks from `p`
    the bar shows `p + n/1200` while that stays below 0.99.
   */
  lemma {:induction false} TicksAdd(app: App, n: nat)
    requires app.ticking
    requires app.progress + (n as real) * Increment < ProgressCap
    ensures Ticks(app, n).progress == app.progress + (n as real) * Increment
    ensures Ticks(app, n).ticking
    decreases n
  {
    if n > 0 {
      var next := Step(app, Tick);
      assert next.progress == app.progress + Increment;
      TicksAdd(next, n - 1);
    }
  }

  /**
    From the end of the uploads (progress 0.5), the 588th tick reaches 0.99
    and stops the interval: the bar then waits at 0.99 for the analysis.
   */
  lemma TicksReachCap(app: App)
    requires app.ticking && app.progress == 0.5
    ensures Ticks(app, 587).progress < 0.99 && Ticks(app, 587).ticking
    ensures Ticks(app, 588).progress == 0.99 && !Ticks(app, 588).ticking
    ensures Ticks(Ticks(app, 588), 1) == Ticks(app, 588)
  {
    TicksAdd(app, 587);
    TicksSplit(app, 587, 1);
    var after := Ticks(app, 587);
    assert Ticks(after, 1) == Step(after, Tick);
  }

  /** Ticking `m` then `n` times is ticking `m + n` times. */
  lemma {:induction false} TicksSplit(app: App, m: nat, n: nat)
    ensures Ticks(app, m + n) == Ticks(Ticks(app, m), n)
    decreases m
  {
    if m > 0 {
      TicksSplit(Step(app, Tick), m - 1, n);
    }
  }

  /**
    Cleanup: a settled analysis, successful or not, deletes the remote file of
    every uploaded image with a non-empty name, once each and in order; a
    settled upload never deletes anything.
   */
  lemma CleanupOnlyAfterUploads(app: App, e: Event)
    requires Inv(app)
    ensures e.AnalysisSettled? && app.session.Analyzing? ==>
              && Step(app, e).deletes == app.deletes + RemoteNames(app.session.uploaded)
              && ((forall k :: 0 <= k < |app.session.uploaded| ==> HasRemoteName(app.session.uploaded[k])) ==>
                    |Step(app, e).deletes| == |app.deletes| + |app.session.uploaded|)
    ensures !e.AnalysisSettled? || !app.session.Analyzing? ==> Step(app, e).deletes == app.deletes
  {
  }

  /** An upload whose responses are all still processing has not settled: nothing changes. */
  lemma UploadStillPolling(app: App, index: nat, responses: seq<Result<RemoteFile, Thrown>>)
    requires forall k :: 0 <= k < |responses| ==> responses[k].Ok? && responses[k].value.state == StateProcessing
    ensures Step(app, UploadPolled(index, responses)) == app
  {
  }

  /**
    A batch never fails because a file is still processing: a polled file
    that did not throw is in some other state, so its failure message never
    reports `PROCESSING`.
   */
  lemma PolledNeverFailsAsProcessing(image: UploadedImage, responses: seq<Result<RemoteFile, Thrown>>)
    requires Polled(responses).Some? && Polled(responses).value.Ok?
    ensures UploadOutcome(image, Polled(responses).value) != Err(Error(NotProcessedMessage(image.file.name, StateProcessing)))
  {
    var f := Polled(responses).value.value;
    if f.state != StateActive && NotProcessedMessage(image.file.name, f.state) == NotProcessedMessage(image.file.name, StateProcessing) {
      NotProcessedStateInjective(image.file.name, f.state, StateProcessing);
    }
  }

  /** The failure message determines the state it reports. */
  lemma NotProcessedStateInjective(fileName: string, s1: string, s2: string)
    requires NotProcessedMessage(fileName, s1) == NotProcessedMessage(fileName, s2)
    ensures s1 == s2
  {
    var prefix := "Datei " + fileName + " konnte nicht verarbeitet werden. Status: ";
    assert NotProcessedMessage(fileName, s1) == prefix + s1;
    assert NotProcessedMessage(fileName, s2) == prefix + s2;
    assert s1 == (prefix + s1)[|prefix|..];
    assert s2 == (prefix + s2)[|prefix|..];
  }

  /** A failed upload fails the batch: no analysis starts, and the error names the failure. */
  lemma UploadFailureFailsBatch(app: App, index: nat, responses: seq<Result<RemoteFile, Thrown>>)
    requires Inv(app) && app.session.Uploading?
    requires index < |app.session.batch| && app.session.done[index].None?
    requires Polled(responses).Some?
    requires UploadOutcome(app.session.batch[index], Polled(responses).value).Err?
    ensures var settled := Polled(responses).value;
            var next := Step(app, UploadPolled(index, responses));
            && next.state == Upload && next.session == Idle && next.progress == 0.0
            && next.error == Some(FailureMessage(UploadOutcome(app.session.batch[index], settled).error))
            && next.deletes == app.deletes
  {
  }

  /**
    The last upload to settle starts the analysis with every image as its
    upload returned it, in the order of the selection, with progress at 0.5.
   */
  lemma LastUploadStartsAnalysis(app: App, index: nat, responses: seq<Result<RemoteFile, Thrown>>)
    requires Inv(app) && app.session.Uploading?
    requires index < |app.session.batch| && app.session.done[index].None?
    requires Polled(responses).Some?
    requires UploadOutcome(app.session.batch[index], Polled(responses).value).Ok?
    requires app.session.completed + 1 == |app.session.batch|
    ensures var next := Step(app, UploadPolled(index, responses));
            && next.session.Analyzing?
            && |next.session.uploaded| == |app.session.batch|
            && (forall k :: 0 <= k < |app.session.batch| ==> UploadedAs(app.session.batch[k], next.session.uploaded[k]))
            && next.progress == 0.5 && next.ticking && next.progressText == "Analysiere Bilder..."
  {
    var settled := Polled(responses).value;
    var done := app.session.done[index := Some(UploadOutcome(app.session.batch[index], settled).value)];
    CountSettledUpdate(app.session.done, index, UploadOutcome(app.session.batch[index], settled).value);
    CountSettledComplete(done);
  }

  /** A successful analysis shows the report with a full bar; a failed one returns to the upload screen. */
  lemma AnalysisOutcome(app: App, result: Result<AnalysisReport, Thrown>)
    requires Inv(app) && app.session.Analyzing?
    ensures var next := Step(app, AnalysisSettled(result));
            && !next.ticking && next.session == Idle
            && (result.Ok? ==> next.state == Analysis && next.progress == 1.0 && next.report == Some(result.value)
                               && Render(next) == AnalysisView)
            && (result.Err? ==> next.state == Upload && next.progress == 0.0
                                && next.error == Some(FailureMessage(result.error)) && Render(next) == UploadView)
  {
  }

  /** Reset revokes every preview URL and returns to an empty upload screen. */
  lemma ResetClears(app: App)
    requires Render(app) == AnalysisView
    ensures var next := Step(app, Reset);
            && next.revoked == app.revoked + PreviewUrls(app.images)
            && next.images == [] && next.report.None? && next.error.None? && next.progress == 0.0
            && next.state == Upload && Render(next) == UploadView
  {
  }
}
