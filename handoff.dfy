/** The payload the dashboard hands to the results page when it navigates:
    the response body of the analysis call, and optionally a reference to the
    uploaded image. Either field of the body may be missing, since the client
    does not check the body's shape. */
module Handoff {
  import opened Wrappers

  /** The response body `{ final_verdict, gemini_report }` as received */
  datatype AnalysisResult = AnalysisResult(finalVerdict: Option<string>, geminiReport: Option<string>)

  /** `location.state`: `{ analysisResult, fileURL? }` */
  datatype NavState = NavState(analysisResult: Option<AnalysisResult>, fileURL: Option<string>)
}
