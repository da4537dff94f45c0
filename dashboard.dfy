/** The dashboard's submission state: the selected file, the phase
    ('idle', 'selected', 'uploading') and the upload percentage, changed by the
    drop handler, the remove button, the analyze button and the upload
    progress callback. The HTTP call is abstracted as the progress events it
    reports followed by its outcome. */
module Dashboard {
  import opened Wrappers
  import Handoff

  datatype File = File(name: string, size: nat)

  datatype Status = Idle | Selected | Uploading

  /** A JavaScript number as the percentage formula can produce it: a whole
      number, or NaN / Infinity when the total is unknown or zero. */
  datatype Percent = Finite(value: int) | NaN | Infinity

  /** An upload progress event: bytes sent and, when known, bytes in all */
  datatype ProgressEvent = ProgressEvent(loaded: nat, total: Option<nat>)

  /** How the POST ends: the response body on success, or any failure */
  datatype UploadOutcome = Succeeded(data: Handoff.AnalysisResult) | Failed

  /** One part of the multipart form */
  datatype FormPart = FormPart(name: string, file: File)

  datatype Navigation = Navigation(path: string, state: Handoff.NavState)

  /** What `renderContent` shows */
  datatype View = DropZone | FileCard(name: string, size: nat) | ProgressBar(percent: Percent)

  /** What a user can do on a view */
  datatype Action = Drop | Analyze | Remove

  /** `Math.round((loaded * 100) / total)`: the nearest whole percentage,
      halves rounded up. */
  function PercentCompleted(e: ProgressEvent): (p: Percent)
    ensures e.total.Some? && e.total.value > 0 ==>
      p.Finite? &&
      2 * e.total.value * p.value - e.total.value <= 200 * e.loaded < 2 * e.total.value * p.value + e.total.value
    ensures e.total.None? || (e.total.value == 0 && e.loaded == 0) ==> p == NaN
    ensures e.total == Some(0) && e.loaded > 0 ==> p == Infinity
  {
    match e.total
    case None => NaN
    case Some(t) =>
      if t == 0 then (if e.loaded == 0 then NaN else Infinity)
      else
        var q := (200 * e.loaded + t) / (2 * t);
        assert 2 * t * q <= 200 * e.loaded + t < 2 * t * q + 2 * t;
        Finite(q)
  }

  function Actions(v: View): set<Action> {
    match v
    case DropZone => {Drop}
    case FileCard(_, _) => {Analyze, Remove}
    case ProgressBar(_) => {}
  }

  /** The percentages shown, one per progress event */
  function ProgressTrace(events: seq<ProgressEvent>): (trace: seq<Percent>)
    ensures |trace| == |events|
    ensures forall i :: 0 <= i < |events| ==> trace[i] == PercentCompleted(events[i])
  {
    if events == [] then []
    else ProgressTrace(events[..|events| - 1]) + [PercentCompleted(events[|events| - 1])]
  }

  class DashboardPage {
    var file: Option<File>
    var status: Status
    var progress: Percent

    /** A file is held exactly when the page is not idle. */
    ghost predicate Valid()
      reads this
    {
      (status == Idle) == file.None?
    }

    constructor ()
      ensures Valid()
      ensures file == None && status == Idle && progress == Finite(0)
    {
      file := None;
      status := Idle;
      progress := Finite(0);
    }

    /** `onDrop`: a non-empty list selects its first file. */
    method OnDrop(acceptedFiles: Option<seq<File>>)
      requires Valid()
      modifies this
      ensures Valid()
      ensures acceptedFiles.Some? && |acceptedFiles.value| > 0 ==>
        file == Some(acceptedFiles.value[0]) && status == Selected
      ensures !(acceptedFiles.Some? && |acceptedFiles.value| > 0) ==>
        file == old(file) && status == old(status)
      ensures progress == old(progress)
    {
      if acceptedFiles.Some? && |acceptedFiles.value| > 0 {
        file := Some(acceptedFiles.value[0]);
        status := Selected;
      }
    }

    /** `removeFile`: back to the initial state from anywhere */
    method RemoveFile()
      modifies this
      ensures Valid()
      ensures file == None && status == Idle && progress == Finite(0)
    {
      file := None;
      status := Idle;
      progress := Finite(0);
    }

    /** The `onUploadProgress` callback */
    method OnUploadProgress(e: ProgressEvent)
      requires Valid()
      modifies this
      ensures Valid()
      ensures progress == PercentCompleted(e)
      ensures file == old(file) && status == old(status)
    {
      progress := PercentCompleted(e);
    }

    /** `handleAnalyze`, run to its end: with no file it does nothing;
        otherwise it posts a one-part form, shows each progress event, and
        then either navigates to the results with the response body or
        resets the page. Returns the form sent, the percentages shown and
        the navigation made. */
    method HandleAnalyze(events: seq<ProgressEvent>, outcome: UploadOutcome)
      returns (form: Option<seq<FormPart>>, shown: seq<Percent>, nav: Option<Navigation>)
      requires Valid()
      modifies this
      ensures Valid()
      ensures old(file).None? ==>
        form == None && shown == [] && nav == None &&
        file == old(file) && status == old(status) && progress == old(progress)
      ensures old(file).Some? ==>
        form == Some([FormPart("file", old(file).value)]) && shown == ProgressTrace(events)
      ensures old(file).Some? && outcome.Succeeded? ==>
        nav == Some(Navigation("/results", Handoff.NavState(Some(outcome.data), None))) &&
        file == old(file) && status == Uploading &&
        progress == (if events == [] then old(progress) else PercentCompleted(events[|events| - 1]))
      ensures old(file).Some? && outcome.Failed? ==>
        nav == None && file == None && status == Idle && progress == Finite(0)
    {
      if file.None? {
        return None, [], None;
      }
      var f := file.value;
      status := Uploading;
      form := Some([FormPart("file", f)]);
      shown := [];
      ghost var progress0 := progress;
      for i := 0 to |events|
        invariant file == Some(f) && status == Uploading
        invariant shown == ProgressTrace(events[..i])
        invariant progress == (if i == 0 then progress0 else PercentCompleted(events[i - 1]))
      {
        assert events[..i + 1][..i] == events[..i];
        OnUploadProgress(events[i]);
        shown := shown + [progress];
      }
      assert events[..|events|] == events;
      match outcome {
        case Succeeded(data) =>
          nav := Some(Navigation("/results", Handoff.NavState(Some(data), None)));
        case Failed =>
          RemoveFile();
          nav := None;
      }
    }

    /** `renderContent`: the 'selected' card reads the held file, which
        Valid() guarantees is there. */
    function RenderContent(): (v: View)
      reads this
      requires Valid()
      ensures v.DropZone? <==> status == Idle
      ensures v.FileCard? <==> status == Selected
      ensures v.FileCard? ==> v.name == file.value.name && v.size == file.value.size
      ensures v.ProgressBar? ==> v.percent == progress
    {
      match status
      case Selected => FileCard(file.value.name, file.value.size)
      case Uploading => ProgressBar(progress)
      case Idle => DropZone
    }

    /** What the user can do: drop a file only while idle, analyze or
        remove only once a file is selected, nothing while uploading. */
    function AvailableActions(): (acts: set<Action>)
      reads this
      requires Valid()
      ensures Drop in acts <==> status == Idle
      ensures Analyze in acts <==> status == Selected
      ensures Remove in acts <==> status == Selected
      ensures status == Uploading ==> acts == {}
    {
      Actions(RenderContent())
    }
  }

  lemma PositiveFactor(a: int, b: int)
    requires a > 0 && a * b > 0
    ensures b > 0
  {
  }

  /** The rounded percentage stays within [0, 100] while no more than the
      total has been sent, and is 100 once everything is sent. */
  lemma PercentBounds(loaded: nat, total: nat)
    requires 0 < total && loaded <= total
    ensures PercentCompleted(ProgressEvent(loaded, Some(total))).Finite?
    ensures 0 <= PercentCompleted(ProgressEvent(loaded, Some(total))).value <= 100
    ensures loaded == total ==> PercentCompleted(ProgressEvent(loaded, Some(total))).value == 100
  {
    var p := PercentCompleted(ProgressEvent(loaded, Some(total))).value;
    assert 2 * total * p - total <= 200 * loaded < 2 * total * p + total;
    assert (2 * total) * (101 - p) == 202 * total - 2 * total * p;
    PositiveFactor(2 * total, 101 - p);
    assert total * (2 * p + 1) == 2 * total * p + total;
    PositiveFactor(total, 2 * p + 1);
    if loaded == total {
      assert total * (2 * p - 199) == 2 * total * p - 199 * total;
      PositiveFactor(total, 2 * p - 199);
    }
  }

  /** More bytes sent never shows a smaller percentage. */
  lemma PercentMonotone(l1: nat, l2: nat, total: nat)
    requires 0 < total && l1 <= l2
    ensures PercentCompleted(ProgressEvent(l1, Some(total))).value
         <= PercentCompleted(ProgressEvent(l2, Some(total))).value
  {
    var p1 := PercentCompleted(ProgressEvent(l1, Some(total))).value;
    var p2 := PercentCompleted(ProgressEvent(l2, Some(total))).value;
    assert (2 * total) * (p2 + 1 - p1) == 2 * total * p2 + 2 * total - 2 * total * p1;
    PositiveFactor(2 * total, p2 + 1 - p1);
  }

  /** Progress events of one upload: same known total, bytes sent never
      decreasing and never above the total. */
  predicate OneUpload(events: seq<ProgressEvent>, total: nat) {
    total > 0 &&
    (forall i :: 0 <= i < |events| ==> events[i].total == Some(total) && events[i].loaded <= total) &&
    (forall i, j :: 0 <= i < j < |events| ==> events[i].loaded <= events[j].loaded)
  }

  /** The percentages shown during one upload are whole numbers in
      [0, 100], never decrease, and end at 100 when the last event reports
      everything sent. */
  lemma UploadProgressMonotone(events: seq<ProgressEvent>, total: nat)
    requires OneUpload(events, total)
    ensures forall i :: 0 <= i < |events| ==>
      ProgressTrace(events)[i].Finite? && 0 <= ProgressTrace(events)[i].value <= 100
    ensures forall i, j :: 0 <= i < j < |events| ==>
      ProgressTrace(events)[i].value <= ProgressTrace(events)[j].value
    ensures |events| > 0 && events[|events| - 1].loaded == total ==>
      ProgressTrace(events)[|events| - 1] == Finite(100)
  {
    var trace := ProgressTrace(events);
    forall i | 0 <= i < |events|
      ensures trace[i].Finite? && 0 <= trace[i].value <= 100
    {
      PercentBounds(events[i].loaded, total);
    }
    forall i, j | 0 <= i < j < |events|
      ensures trace[i].value <= trace[j].value
    {
      PercentMonotone(events[i].loaded, events[j].loaded, total);
    }
    if |events| > 0 && events[|events| - 1].loaded == total {
      PercentBounds(total, total);
    }
  }

  /** A session: a file is dropped, analyzed, and the upload fails after
      reporting half of it sent; the page is back to its initial state. */
  method SelectAnalyzeFail(f: File)
  {
    var page := new DashboardPage();
    page.OnDrop(Some([f]));
    assert page.AvailableActions() == {Analyze, Remove};
    var form, shown, nav := page.HandleAnalyze([ProgressEvent(50, Some(100))], Failed);
    assert form == Some([FormPart("file", f)]);
    assert shown == [Finite(50)];
    assert nav == None && page.file == None && page.status == Idle && page.progress == Finite(0);
    assert page.AvailableActions() == {Drop};
  }
}
