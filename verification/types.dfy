/**
  Shared vocabulary of the wildlife-analysis front end: optional values, results,
  thrown JavaScript values, and the records declared in types.ts.
 */
module Types {

  /** A value that may be absent (`undefined` or `null` in the source). */
  datatype Option<+T> = None | Some(value: T)

  /** The outcome of an operation that can throw. */
  datatype Result<+T, +E> = Ok(value: T) | Err(error: E)

  /** A thrown JavaScript value: an `Error` carries a message, anything else does not. */
  datatype Thrown = Error(message: string) | NonError

  /** The three screens of the application (`AppState`). */
  datatype AppState = Upload | Processing | Analysis

  /** The two models the analysis and the cost table know about. */
  datatype ModelName = Flash | Pro
  {
    /** The identifier sent to the model API and stored in `modelUsed`. */
    function Label(): string
    {
      match this
      case Flash => "gemini-2.5-flash"
      case Pro => "gemini-2.5-pro"
    }
  }

  /** A browser `File`: only its name and declared media type matter to the core. */
  datatype FileRef = FileRef(name: string, mimeType: string)

  /** One selected image; the two remote fields are filled in once its upload is active. */
  datatype UploadedImage = UploadedImage(
    id: int,
    file: FileRef,
    previewUrl: string,
    fileNameApi: Option<string>,
    fileUri: Option<string>)

  /** The report returned by the analysis call, with optional usage counters. */
  datatype AnalysisReport = AnalysisReport(
    markdownContent: string,
    promptTokenCount: Option<nat>,
    candidatesTokenCount: Option<nat>,
    modelUsed: Option<ModelName>)
}
