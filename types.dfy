/** The record shapes shared by the catalog, the search view and the upload
    workflow (types/index.ts). */
module Types {

  datatype Option<+T> = None | Some(value: T)

  /** The three severity levels a catalog entry may carry. */
  datatype Severity = Low | Medium | High {
    /** The string the UI compares against the severity selector. */
    function Name(): string
    {
      match this
      case Low => "Low"
      case Medium => "Medium"
      case High => "High"
    }
  }

  /** One reference entry of the disease catalog. The informational
      `prevalence` percentage is a floating-point number and is not modelled. */
  datatype Disease = Disease(
    id: string,
    name: string,
    description: string,
    symptoms: seq<string>,
    treatment: string,
    severity: Severity)

  /** The outcome of one simulated classification: a catalog entry, a
      confidence (an exact real number here) and the completion time
      (milliseconds since the epoch). */
  datatype ClassificationResult = ClassificationResult(
    disease: Disease,
    confidence: real,
    timestamp: int)

  /** The parts of a browser `File` the workflow reads: its name and its
      declared media type. */
  datatype File = File(name: string, mimeType: string)

  /** A preview is an object URL, an opaque token. */
  type Preview = string

  /** One uploaded image and its classification state. */
  datatype UploadedImage = UploadedImage(
    id: string,
    file: File,
    preview: Preview,
    result: Option<ClassificationResult>,
    processing: bool)
}
