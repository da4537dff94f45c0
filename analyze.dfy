/** The `/analyze` endpoint's decisions: a `file` part is routed by its
    lower-cased extension, otherwise a JSON `url` is routed by whether it
    names YouTube, and every early exit answers with a status code and an
    error message. Decoding, downloading and the analysis service itself are
    inputs (`Services`): what each of them produced for this request. */
module Analyze {
  import opened Wrappers
  import opened Text
  import Verdict
  import FaceSampling

  /** `fileName` is the filename of the multipart `file` part when there is
      one; `url` is the JSON body's "url" when the body is JSON and has it. */
  datatype Request = Request(fileName: Option<string>, url: Option<string>)

  /** The YouTube download: no progressive mp4 stream, a downloaded video,
      or an exception raised by the downloader */
  datatype YouTubeFetch = NoSuitableStream | Downloaded(video: FaceSampling.Video) | YouTubeFailed(reason: string)

  /** The plain-URL download: an HTTP status with the image, or an exception */
  datatype ImageFetch = Fetched(status: int) | FetchFailed(reason: string)

  /** What the collaborators produce for this request: the uploaded video's
      frames, the YouTube download, the image download, and the final report
      written by the analysis service. */
  datatype Services = Services(uploadedVideo: FaceSampling.Video, youtube: YouTubeFetch,
                              imageFetch: ImageFetch, finalReport: string)

  datatype Response =
    | Analysis(finalVerdict: string, geminiReport: string)
    | Error(status: int, message: string)

  const ImageExtensions: seq<string> := [".png", ".jpg", ".jpeg"]
  const VideoExtensions: seq<string> := [".mp4", ".mov", ".avi", ".mkv"]

  datatype Route =
    | ImageUpload
    | VideoUpload
    | UnsupportedUpload
    | YouTubeLink(url: string)
    | ImageLink(url: string)
    | NoInput

  /** `filename.lower().endswith(('.png', '.jpg', '.jpeg'))`: no name is
      both an image and a video, so the order of the two tests is immaterial. */
  function IsImageName(name: string): (b: bool)
    ensures b <==>
      (|name| >= 4 && Lower(name)[|name| - 4..] in [".png", ".jpg"]) ||
      (|name| >= 5 && Lower(name)[|name| - 5..] == ".jpeg")
    ensures b ==> !IsVideoName(name)
  {
    ImageSuffixes(Lower(name));
    ImageSuffixNotVideo(Lower(name));
    HasAnySuffix(Lower(name), ImageExtensions)
  }

  /** `filename.lower().endswith(('.mp4', '.mov', '.avi', '.mkv'))`: the
      last four characters, lower-cased, are one of the extensions. */
  function IsVideoName(name: string): (b: bool)
    ensures b <==> |name| >= 4 && Lower(name)[|name| - 4..] in VideoExtensions
  {
    VideoSuffixes(Lower(name));
    HasAnySuffix(Lower(name), VideoExtensions)
  }

  lemma VideoSuffixes(s: string)
    ensures HasAnySuffix(s, VideoExtensions) <==> |s| >= 4 && s[|s| - 4..] in VideoExtensions
  {
    if |s| >= 4 && s[|s| - 4..] in VideoExtensions {
      assert HasSuffix(s, s[|s| - 4..]);
    }
  }

  lemma ImageSuffixes(s: string)
    ensures HasAnySuffix(s, ImageExtensions) <==>
      (|s| >= 4 && s[|s| - 4..] in [".png", ".jpg"]) || (|s| >= 5 && s[|s| - 5..] == ".jpeg")
  {
    if |s| >= 4 && s[|s| - 4..] in [".png", ".jpg"] {
      assert HasSuffix(s, s[|s| - 4..]);
    }
    if |s| >= 5 && s[|s| - 5..] == ".jpeg" {
      assert HasSuffix(s, ".jpeg");
    }
  }

  lemma ImageSuffixNotVideo(s: string)
    ensures HasAnySuffix(s, ImageExtensions) ==> |s| >= 4 && s[|s| - 4..] !in VideoExtensions
  {
    if HasAnySuffix(s, ImageExtensions) {
      var p :| p in ImageExtensions && HasSuffix(s, p);
      if p == ".jpeg" {
        assert s[|s| - 4..] == p[1..];
      } else {
        assert s[|s| - 4..] == p;
      }
    }
  }

  /** `"youtube.com" in url or "youtu.be" in url`: both hosts share the stem
      "youtu", so a URL without it is never sent to the YouTube branch. */
  function IsYouTubeUrl(url: string): (b: bool)
    ensures b ==> |url| >= 8
    ensures b ==> Contains(url, "youtu")
  {
    YouTubeStem(url);
    Contains(url, "youtube.com") || Contains(url, "youtu.be")
  }

  lemma YouTubeStem(url: string)
    ensures Contains(url, "youtube.com") || Contains(url, "youtu.be") ==> Contains(url, "youtu")
  {
    assert OccursAt("youtube.com", "youtu", 0);
    assert OccursAt("youtu.be", "youtu", 0);
    if Contains(url, "youtube.com") {
      ContainsTransitive(url, "youtube.com", "youtu");
    } else if Contains(url, "youtu.be") {
      ContainsTransitive(url, "youtu.be", "youtu");
    }
  }

  /** Which path of the endpoint a request takes */
  function RouteOf(req: Request): (r: Route)
    ensures req.fileName.Some? <==> r in {ImageUpload, VideoUpload, UnsupportedUpload}
    ensures r == NoInput <==> req.fileName.None? && req.url.None?
    ensures r == ImageUpload ==> IsImageName(req.fileName.value)
    ensures r == VideoUpload ==> IsVideoName(req.fileName.value) && !IsImageName(req.fileName.value)
    ensures r == UnsupportedUpload ==> !IsVideoName(req.fileName.value) && !IsImageName(req.fileName.value)
    ensures r.YouTubeLink? ==> r.url == Strip(req.url.value) && IsYouTubeUrl(r.url)
    ensures r.ImageLink? ==> r.url == Strip(req.url.value) && !IsYouTubeUrl(r.url)
  {
    match req.fileName
    case Some(name) =>
      if IsImageName(name) then ImageUpload
      else if IsVideoName(name) then VideoUpload
      else UnsupportedUpload
    case None =>
      match req.url
      case Some(raw) =>
        (var url := Strip(raw);
         if IsYouTubeUrl(url) then YouTubeLink(url) else ImageLink(url))
      case None => NoInput
  }

  /** The three analysis steps run on the input and the verdict is scored
      from the final report. */
  function Analyzed(finalReport: string): (resp: Response)
    ensures resp.Analysis? && Verdict.IsLabel(resp.finalVerdict) && resp.geminiReport == finalReport
  {
    Analysis(Verdict.VerdictOf(finalReport), finalReport)
  }

  /** A video's faces are extracted; none found answers 400 with `message`. */
  function VideoAnswer(video: FaceSampling.Video, message: string, svc: Services): (resp: Response)
    ensures resp == Analyzed(svc.finalReport) || resp == Error(400, message)
    ensures resp.Error? <==> FaceSampling.SampledFaces(video, FaceSampling.DefaultMaxFaces) == []
  {
    if FaceSampling.SampledFaces(video, FaceSampling.DefaultMaxFaces) == [] then Error(400, message)
    else Analyzed(svc.finalReport)
  }

  /** The YouTube branch, with the handler around the download turning any
      exception into 500. */
  function YouTubeAnswer(svc: Services): (resp: Response)
    ensures resp.Analysis? ==> resp == Analyzed(svc.finalReport)
    ensures resp.Error? ==> resp.status == 400 || resp.status == 500
    ensures svc.youtube.NoSuitableStream? ==> resp == Error(400, "No suitable YouTube stream found")
    ensures svc.youtube.YouTubeFailed? ==>
      resp == Error(500, "Failed to process YouTube link: " + svc.youtube.reason)
    ensures svc.youtube.Downloaded? ==>
      resp == VideoAnswer(svc.youtube.video, "No faces detected in YouTube video", svc)
    ensures resp.Analysis? <==>
      svc.youtube.Downloaded? && FaceSampling.SampledFaces(svc.youtube.video, FaceSampling.DefaultMaxFaces) != []
  {
    match svc.youtube
    case NoSuitableStream => Error(400, "No suitable YouTube stream found")
    case YouTubeFailed(reason) => Error(500, "Failed to process YouTube link: " + reason)
    case Downloaded(video) => VideoAnswer(video, "No faces detected in YouTube video", svc)
  }

  /** The plain-URL branch */
  function ImageLinkAnswer(svc: Services): (resp: Response)
    ensures resp.Analysis? ==> resp == Analyzed(svc.finalReport)
    ensures resp.Error? ==> resp.status == 400 || resp.status == 500
    ensures svc.imageFetch.FetchFailed? ==>
      resp == Error(500, "Failed to download image from URL: " + svc.imageFetch.reason)
    ensures svc.imageFetch.Fetched? && svc.imageFetch.status != 200 ==>
      resp == Error(400, "Failed to download image from URL")
    ensures resp.Analysis? <==> svc.imageFetch.Fetched? && svc.imageFetch.status == 200
  {
    match svc.imageFetch
    case FetchFailed(reason) => Error(500, "Failed to download image from URL: " + reason)
    case Fetched(status) =>
      if status != 200 then Error(400, "Failed to download image from URL")
      else Analyzed(svc.finalReport)
  }

  /** `analyze_media` */
  function AnalyzeMedia(req: Request, svc: Services): (resp: Response)
    ensures resp.Analysis? ==> resp == Analyzed(svc.finalReport)
    ensures resp.Error? ==> resp.status == 400 || resp.status == 500
  {
    match RouteOf(req)
    case NoInput => Error(400, "No file or URL provided")
    case UnsupportedUpload => Error(400, "Unsupported file type")
    case ImageUpload => Analyzed(svc.finalReport)
    case VideoUpload => VideoAnswer(svc.uploadedVideo, "No faces detected in video", svc)
    case YouTubeLink(_) => YouTubeAnswer(svc)
    case ImageLink(_) => ImageLinkAnswer(svc)
  }

  /** A file part takes precedence: the URL is then never looked at. */
  lemma FileTakesPrecedence(req: Request, svc: Services, otherUrl: Option<string>)
    requires req.fileName.Some?
    ensures AnalyzeMedia(req, svc) == AnalyzeMedia(req.(url := otherUrl), svc)
  {
  }

  /** A request with neither a file nor a URL is rejected. */
  lemma NoInputRejected(svc: Services)
    ensures AnalyzeMedia(Request(None, None), svc) == Error(400, "No file or URL provided")
  {
  }

  /** An upload is accepted for analysis only with an image or video
      extension, whatever its case. */
  lemma UploadExtensions(name: string, svc: Services)
    ensures !IsImageName(name) && !IsVideoName(name) ==>
      AnalyzeMedia(Request(Some(name), None), svc) == Error(400, "Unsupported file type")
    ensures IsImageName(name) ==> AnalyzeMedia(Request(Some(name), None), svc) == Analyzed(svc.finalReport)
    ensures IsImageName(Lower(name)) <==> IsImageName(name)
    ensures IsVideoName(Lower(name)) <==> IsVideoName(name)
  {
    LowerIdempotent(name);
  }

  /** An uploaded video in which no face is found is rejected. */
  lemma FacelessVideoRejected(name: string, svc: Services)
    requires IsVideoName(name)
    requires FaceSampling.SampledFaces(svc.uploadedVideo, FaceSampling.DefaultMaxFaces) == []
    ensures AnalyzeMedia(Request(Some(name), None), svc) == Error(400, "No faces detected in video")
  {
  }

  /** A URL naming YouTube, once stripped, takes the YouTube branch. */
  lemma YouTubeDispatch(url: string, svc: Services)
    requires IsYouTubeUrl(Strip(url))
    ensures AnalyzeMedia(Request(None, Some(url)), svc) == YouTubeAnswer(svc)
  {
    assert RouteOf(Request(None, Some(url))) == YouTubeLink(Strip(url));
  }

  /** Any other URL takes the plain-download branch. */
  lemma ImageLinkDispatch(url: string, svc: Services)
    requires !IsYouTubeUrl(Strip(url))
    ensures AnalyzeMedia(Request(None, Some(url)), svc) == ImageLinkAnswer(svc)
  {
    assert RouteOf(Request(None, Some(url))) == ImageLink(Strip(url));
  }

  /** A YouTube link never consults the plain download or an uploaded
      video, and any other link never consults the YouTube download or an
      uploaded video. */
  lemma YouTubeLinkIndependent(url: string, svc: Services, other: Services)
    requires IsYouTubeUrl(Strip(url))
    requires other.youtube == svc.youtube && other.finalReport == svc.finalReport
    ensures AnalyzeMedia(Request(None, Some(url)), svc) == AnalyzeMedia(Request(None, Some(url)), other)
  {
    YouTubeDispatch(url, svc);
    YouTubeDispatch(url, other);
    SameYouTubeAnswer(svc, other);
  }

  lemma SameYouTubeAnswer(svc: Services, other: Services)
    requires other.youtube == svc.youtube && other.finalReport == svc.finalReport
    ensures YouTubeAnswer(svc) == YouTubeAnswer(other)
  {
  }

  lemma ImageLinkIndependent(url: string, svc: Services, other: Services)
    requires !IsYouTubeUrl(Strip(url))
    requires other.imageFetch == svc.imageFetch && other.finalReport == svc.finalReport
    ensures AnalyzeMedia(Request(None, Some(url)), svc) == AnalyzeMedia(Request(None, Some(url)), other)
  {
    ImageLinkDispatch(url, svc);
    ImageLinkDispatch(url, other);
    SameImageLinkAnswer(svc, other);
  }

  lemma SameImageLinkAnswer(svc: Services, other: Services)
    requires other.imageFetch == svc.imageFetch && other.finalReport == svc.finalReport
    ensures ImageLinkAnswer(svc) == ImageLinkAnswer(other)
  {
  }

  /** An uploaded video is analysed exactly when faces are extracted from it. */
  lemma VideoUploadAnswer(name: string, svc: Services)
    requires IsVideoName(name)
    ensures AnalyzeMedia(Request(Some(name), None), svc).Analysis? <==>
      FaceSampling.SampledFaces(svc.uploadedVideo, FaceSampling.DefaultMaxFaces) != []
  {
    assert RouteOf(Request(Some(name), None)) == VideoUpload;
  }

  /** The exits of a YouTube link: no stream gives 400, a raised download
      gives 500 with the exception text, a video without faces gives 400, and
      only a downloaded video with faces is analysed. */
  lemma YouTubeExits(url: string, svc: Services)
    requires IsYouTubeUrl(Strip(url))
    ensures svc.youtube.NoSuitableStream? ==>
      AnalyzeMedia(Request(None, Some(url)), svc) == Error(400, "No suitable YouTube stream found")
    ensures svc.youtube.YouTubeFailed? ==>
      AnalyzeMedia(Request(None, Some(url)), svc) == Error(500, "Failed to process YouTube link: " + svc.youtube.reason)
    ensures svc.youtube.Downloaded? &&
            FaceSampling.SampledFaces(svc.youtube.video, FaceSampling.DefaultMaxFaces) == [] ==>
      AnalyzeMedia(Request(None, Some(url)), svc) == Error(400, "No faces detected in YouTube video")
    ensures AnalyzeMedia(Request(None, Some(url)), svc).Analysis? <==>
      svc.youtube.Downloaded? && FaceSampling.SampledFaces(svc.youtube.video, FaceSampling.DefaultMaxFaces) != []
  {
    YouTubeDispatch(url, svc);
  }

  /** The exits of any other link: a raised download gives 500 with the
      exception text, and the image is analysed exactly on status 200. */
  lemma ImageLinkExits(url: string, svc: Services)
    requires !IsYouTubeUrl(Strip(url))
    ensures svc.imageFetch.FetchFailed? ==>
      AnalyzeMedia(Request(None, Some(url)), svc) == Error(500, "Failed to download image from URL: " + svc.imageFetch.reason)
    ensures AnalyzeMedia(Request(None, Some(url)), svc).Analysis? <==>
      svc.imageFetch.Fetched? && svc.imageFetch.status == 200
  {
    ImageLinkDispatch(url, svc);
  }

  /** A plain image link whose download does not answer 200 is rejected. */
  lemma FailedDownloadRejected(url: string, svc: Services)
    requires !IsYouTubeUrl(Strip(url))
    requires svc.imageFetch.Fetched? && svc.imageFetch.status != 200
    ensures AnalyzeMedia(Request(None, Some(url)), svc) == Error(400, "Failed to download image from URL")
  {
    ImageLinkDispatch(url, svc);
  }

  /** Surrounding whitespace does not change the YouTube decision: testing
      the stripped URL is the same as testing the URL as sent. */
  lemma YouTubeDecisionIgnoresPadding(url: string)
    ensures IsYouTubeUrl(Strip(url)) <==> IsYouTubeUrl(url)
  {
    YouTubeHostsHaveNoSpace();
    StripKeepsWord(url, "youtube.com");
    StripKeepsWord(url, "youtu.be");
  }

  lemma YouTubeHostsHaveNoSpace()
    ensures NoSpace("youtube.com") && NoSpace("youtu.be")
  {
    var a, b := "youtube.com", "youtu.be";
    forall k | 0 <= k < |a| ensures !IsSpace(a[k]) {
      assert 46 <= a[k] as int <= 122;
    }
    forall k | 0 <= k < |b| ensures !IsSpace(b[k]) {
      assert 46 <= b[k] as int <= 122;
    }
  }
}
