/** How the three parts meet: the dashboard's form becomes the endpoint's
    request, the endpoint's response becomes the upload outcome, and the
    outcome's body is what the results page renders. */
module Pipeline {
  import opened Wrappers
  import opened Text
  import Analyze
  import Dashboard
  import Handoff
  import Results
  import Verdict

  /** Flask's `request.files["file"]`: the first part named "file". The
      dashboard never sends JSON, so there is never a URL. */
  function RequestOf(form: seq<Dashboard.FormPart>): (req: Analyze.Request)
    ensures req.url.None?
    ensures req.fileName.Some? <==> exists k | 0 <= k < |form| :: form[k].name == "file"
    ensures |form| > 0 && form[0].name == "file" ==> req.fileName == Some(form[0].file.name)
  {
    if form == [] then Analyze.Request(None, None)
    else if form[0].name == "file" then Analyze.Request(Some(form[0].file.name), None)
    else
      var rest := RequestOf(form[1..]);
      assert forall k :: 1 <= k < |form| ==> form[k] == form[1..][k - 1];
      rest
  }

  /** The HTTP client resolves on a 2xx answer and rejects otherwise; the
      endpoint answers 200 exactly with an analysis. */
  function UploadOutcomeOf(resp: Analyze.Response): (o: Dashboard.UploadOutcome)
    ensures o.Succeeded? <==> resp.Analysis?
    ensures o.Succeeded? ==>
      o.data == Handoff.AnalysisResult(Some(resp.finalVerdict), Some(resp.geminiReport))
  {
    match resp
    case Analysis(verdict, report) => Dashboard.Succeeded(Handoff.AnalysisResult(Some(verdict), Some(report)))
    case Error(_, _) => Dashboard.Failed
  }

  /** Whatever the endpoint answers with an analysis, the results page can
      render it: the banner is red exactly for "Deepfake Detected", the body
      is the report minus its title line, and no image panel is shown
      because the dashboard passes no file URL. */
  lemma AnalysisRendersByLabel(req: Analyze.Request, svc: Analyze.Services)
    requires Analyze.AnalyzeMedia(req, svc).Analysis?
    ensures
      var state := Some(Handoff.NavState(Some(UploadOutcomeOf(Analyze.AnalyzeMedia(req, svc)).data), None));
      && Results.Renderable(state)
      && Results.RenderResults(state).Report?
      && Results.RenderResults(state).image == None
      && Results.RenderResults(state).body == Results.CleanReport(svc.finalReport)
      && (Results.RenderResults(state).banner == Results.FlaggedBanner
          <==> Verdict.VerdictOf(svc.finalReport) == Verdict.DeepfakeLabel)
  {
    Results.BackendLabelsClassified();
  }

  /** The drop zone accepts any image type, but the endpoint takes only
      png, jpg and jpeg: a GIF is refused with 400 and the dashboard resets. */
  lemma GifIsRefused(svc: Analyze.Services)
    ensures Analyze.AnalyzeMedia(Analyze.Request(Some("cat.gif"), None), svc)
         == Analyze.Error(400, "Unsupported file type")
    ensures UploadOutcomeOf(Analyze.AnalyzeMedia(Analyze.Request(Some("cat.gif"), None), svc))
         == Dashboard.Failed
  {
    var low := Lower("cat.gif");
    assert low == "cat.gif";
    forall p | p in Analyze.ImageExtensions + Analyze.VideoExtensions
      ensures !HasSuffix(low, p)
    {
      assert low[|low| - 4..] == ".gif";
      if |p| == 5 {
        assert low[|low| - 5..] == "t.gif";
      }
    }
  }

  /** A whole session: a file is dropped and analyzed, and the endpoint
      answers. With an analysis the results page shows its verdict; with an
      error there is no navigation and the dashboard is back to idle. */
  method Session(f: Dashboard.File, events: seq<Dashboard.ProgressEvent>, svc: Analyze.Services)
    returns (shown: Option<Results.Page>, dashboardStatus: Dashboard.Status)
    ensures var resp := Analyze.AnalyzeMedia(Analyze.Request(Some(f.name), None), svc);
      && (shown.Some? <==> resp.Analysis?)
      && (shown.Some? ==> shown.value.Report? && shown.value.verdict == Verdict.VerdictOf(svc.finalReport)
                          && (shown.value.banner == Results.FlaggedBanner
                              <==> shown.value.verdict == Verdict.DeepfakeLabel))
      && (shown.None? ==> dashboardStatus == Dashboard.Idle)
  {
    var dashboard := new Dashboard.DashboardPage();
    dashboard.OnDrop(Some([f]));
    // the endpoint's answer to the form the dashboard is about to post
    var req := Analyze.Request(Some(f.name), None);
    var resp := Analyze.AnalyzeMedia(req, svc);
    var form, _, nav := dashboard.HandleAnalyze(events, UploadOutcomeOf(resp));
    assert RequestOf(form.value) == req;
    dashboardStatus := dashboard.status;
    match nav {
      case Some(navigation) =>
        AnalysisRendersByLabel(req, svc);
        shown := Some(Results.RenderResults(Some(navigation.state)));
      case None =>
        shown := None;
    }
  }
}
