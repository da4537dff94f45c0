/** The results page: with no analysis result in the navigation state it
    shows a placeholder; otherwise it strips one leading report title, and
    colours the verdict banner red or green by whether the verdict mentions
    "deepfake" in any case. Markdown rendering is not modelled: the page's
    body is the cleaned report text handed to the markdown renderer. */
module Results {
  import opened Wrappers
  import opened Text
  import Handoff
  import Verdict

  /** `**Forensic Analysis Report**` and a newline: 29 characters */
  const TitleLine: string := "**Forensic Analysis Report**\n"

  const FlaggedBanner: string := "bg-red-500/10"
  const BenignBanner: string := "bg-green-500/10"
  const FlaggedHeading: string := "text-red-400"
  const BenignHeading: string := "text-green-400"

  /** `gemini_report.replace(/^\*\*Forensic Analysis Report\*\*\n/, '')`:
      the report without one leading title line. */
  function CleanReport(report: string): (r: string)
    ensures |r| <= |report| && r == report[|report| - |r|..]
    ensures |report| - |r| == |TitleLine| <==> HasPrefix(report, TitleLine)
    ensures |r| == |report| <==> !HasPrefix(report, TitleLine)
  {
    if HasPrefix(report, TitleLine) then report[|TitleLine|..] else report
  }

  /** `final_verdict.toLowerCase().includes("deepfake")` */
  function Flagged(verdict: string): (b: bool)
    ensures b ==> |verdict| >= 8
    ensures 'p' !in verdict && 'P' !in verdict ==> !b
  {
    NoLetterPNoDeepfake(verdict);
    Contains(Lower(verdict), "deepfake")
  }

  /** "deepfake" has a 'p': a text with no 'p' or 'P' does not contain it
      once lower-cased. */
  lemma NoLetterPNoDeepfake(s: string)
    ensures 'p' !in s && 'P' !in s ==> !Contains(Lower(s), "deepfake")
  {
    if 'p' !in s && 'P' !in s {
      var low := Lower(s);
      forall i | 0 <= i < |low| ensures low[i] != 'p' {
        assert s[i] != 'p' && s[i] != 'P';
      }
      MissingCharRulesOut(low, "deepfake", 'p');
    }
  }

  /** The two colour choices, each made by its own test of the verdict */
  function BannerClass(verdict: string): string {
    if Flagged(verdict) then FlaggedBanner else BenignBanner
  }

  function HeadingClass(verdict: string): string {
    if Flagged(verdict) then FlaggedHeading else BenignHeading
  }

  datatype Page =
    | Placeholder
    | Report(image: Option<string>, verdict: string, banner: string, heading: string, body: string)

  /** Both fields are used without a check, so a present result without them
      makes the page throw: a precondition, not a handled case. */
  predicate Renderable(state: Option<Handoff.NavState>) {
    state.Some? && state.value.analysisResult.Some? ==>
      state.value.analysisResult.value.finalVerdict.Some? &&
      state.value.analysisResult.value.geminiReport.Some?
  }

  function HasResult(state: Option<Handoff.NavState>): bool {
    state.Some? && state.value.analysisResult.Some?
  }

  /** `ResultsPage` */
  function RenderResults(state: Option<Handoff.NavState>): (page: Page)
    requires Renderable(state)
    ensures page.Placeholder? <==> !HasResult(state)
    ensures page.Report? ==>
      var result := state.value.analysisResult.value;
      && page.verdict == result.finalVerdict.value
      && page.body == CleanReport(result.geminiReport.value)
      && (page.banner == FlaggedBanner <==> Flagged(page.verdict))
      && (page.heading == FlaggedHeading <==> Flagged(page.verdict))
      && (page.image.Some? <==> state.value.fileURL.Some? && state.value.fileURL.value != "")
      && (page.image.Some? ==> page.image.value == state.value.fileURL.value)
      && (!Flagged(page.verdict) ==> page.banner == BenignBanner && page.heading == BenignHeading)
  {
    match state
    case None => Placeholder
    case Some(nav) =>
      match nav.analysisResult
      case None => Placeholder
      case Some(result) =>
        var verdict := result.finalVerdict.value;
        var image := if nav.fileURL.Some? && nav.fileURL.value != "" then nav.fileURL else None;
        Report(image, verdict, BannerClass(verdict), HeadingClass(verdict),
               CleanReport(result.geminiReport.value))
  }

  /** The banner and the heading always agree on the colour. */
  lemma BannerAgreesWithHeading(verdict: string)
    ensures BannerClass(verdict) == FlaggedBanner <==> HeadingClass(verdict) == FlaggedHeading
  {
  }

  /** Stripping again changes nothing exactly when the cleaned report does
      not itself start with the title line. */
  lemma CleanTwice(report: string)
    ensures CleanReport(CleanReport(report)) == CleanReport(report)
        <==> !HasPrefix(CleanReport(report), TitleLine)
  {
    var once := CleanReport(report);
    if HasPrefix(once, TitleLine) {
      assert |CleanReport(once)| == |once| - |TitleLine|;
    }
  }

  /** Only one copy is removed: a report with the title twice keeps the
      second copy, so stripping is not idempotent. */
  lemma CleanNotIdempotent()
    ensures CleanReport(TitleLine + TitleLine) == TitleLine
    ensures CleanReport(CleanReport(TitleLine + TitleLine)) == []
  {
    var twice := TitleLine + TitleLine;
    assert twice[..|TitleLine|] == TitleLine;
    assert twice[|TitleLine|..] == TitleLine;
    assert TitleLine[..|TitleLine|] == TitleLine;
  }

  /** A report whose title line sits after other text is left alone. */
  lemma CleanIsAnchored(lead: string, rest: string)
    requires |lead| > 0 && lead[0] != '*'
    ensures CleanReport(lead + TitleLine + rest) == lead + TitleLine + rest
  {
    var s := lead + TitleLine + rest;
    assert s[0] == lead[0];
    if |TitleLine| <= |s| {
      assert s[..|TitleLine|][0] == s[0] != TitleLine[0];
    }
  }

  /** Matching ignores case. */
  lemma FlaggedIgnoresCase(verdict: string)
    ensures Flagged(Lower(verdict)) == Flagged(verdict)
  {
    LowerIdempotent(verdict);
  }

  /** Of the backend's three labels only the deepfake one is flagged. */
  lemma BackendLabelsClassified()
    ensures Flagged(Verdict.DeepfakeLabel)
    ensures !Flagged(Verdict.AuthenticLabel)
    ensures !Flagged(Verdict.UncertainLabel)
  {
    DeepfakeLabelFlagged();
  }

  lemma DeepfakeLabelFlagged()
    ensures Flagged(Verdict.DeepfakeLabel)
  {
    var d := Lower(Verdict.DeepfakeLabel);
    assert d[..8] == "deepfake";
    assert OccursAt(d, "deepfake", 0);
  }

  /** Lower-case spelling of a verdict is flagged the same way. */
  lemma DeepfakeInAnyCase()
    ensures Flagged("deepfake detected")
    ensures !Flagged("authentic media")
  {
    var d := Lower("deepfake detected");
    assert d[..8] == "deepfake";
    assert OccursAt(d, "deepfake", 0);
  }

  /** The title line is removed and the rest of the report is rendered. */
  lemma CleanExample()
    ensures CleanReport("**Forensic Analysis Report**\n### Summary\nNo anomalies found.")
         == "### Summary\nNo anomalies found."
  {
    var s := "**Forensic Analysis Report**\n### Summary\nNo anomalies found.";
    assert s[..|TitleLine|] == TitleLine;
    assert s[|TitleLine|..] == "### Summary\nNo anomalies found.";
  }
}
