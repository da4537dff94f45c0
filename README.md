# DeepShield analysis flow — a verified model

DeepShield checks an uploaded image or video, or a linked one, for signs of
manipulation. The Flask endpoint `/analyze` decides what kind of input it was
given and extracts faces from videos. It then hands the media to a
three-step language-model analysis and turns the final report into one of
three verdict labels. The React dashboard uploads a file and follows the
upload's progress, and the results page renders the verdict and the report.

This project models the decision logic of those three parts:

- `wrappers.dfy` (module `Wrappers`): the `Option` type for missing values.
- `text.dfy` (module `Text`): substring, prefix and suffix tests; ASCII lower-casing; Python's `str.strip`.
- `verdict.dfy` (module `Verdict`): keyword scoring of the final report and the choice of label.
- `faces.dfy` (module `FaceSampling`): the frame-sampling loop of `extract_faces_from_video`, as an imperative method proved against a recursive specification.
- `analyze.dfy` (module `Analyze`): the dispatch of `analyze_media` over file uploads and URLs, with every early exit's status code and message.
- `handoff.dfy` (module `Handoff`): the payload the dashboard passes to the results page.
- `dashboard.dfy` (module `Dashboard`): the dashboard's `file` / `status` / `progress` state as a class, with `onDrop`, `removeFile`, `handleAnalyze`, the progress callback and `renderContent`.
- `results.dfy` (module `Results`): the results page's placeholder check, title-line strip and deepfake colouring.
- `pipeline.dfy` (module `Pipeline`): how the three meet, in one whole session from drop to results page.

The collaborators are inputs. These are the face detector's boxes per frame,
the YouTube and image downloads, and the analysis service's final report
(`Analyze.Services`). The HTTP upload is modelled as the progress events it
reports, followed by its outcome.

## Model

| member | source | states |
|---|---|---|
| Verdict.CountHits | backend/app.py:165-166 | one point per keyword present; at most one per keyword; zero exactly when no keyword occurs |
| Verdict.CountHitsCountsKeywordsFound | backend/app.py:165-166 | the score equals the number of distinct keywords found, however often each occurs |
| Verdict.Scores | backend/app.py:163-166 | scores are taken on the lower-cased report; 0 <= fake hits <= 3 and 0 <= auth hits <= 5, each the number of distinct keywords found |
| Verdict.PickLabel | backend/app.py:168-173 | always one of the three labels; Authentic exactly when auth > fake, Deepfake exactly when fake > auth, Uncertain exactly on a tie (0-0 included) |
| Verdict.VerdictOf | backend/app.py:162-173 | the verdict is always one of exactly three labels |
| Verdict.VerdictIgnoresCase | backend/app.py:163 | the verdict depends only on the lower-cased report |
| Verdict.DeepfakeMentionScoresTwice | backend/app.py:165 | a report containing "deepfake" in any case has at least two fake hits |
| Verdict.NotDeepfakeIsLabelledDeepfake | backend/app.py:165-171 | a report whose only keyword text is "not deepfake" scores fake 2 against auth 1 and is labelled "Deepfake Detected" |
| Verdict.NotFakeIsUncertain | backend/app.py:165-173 | a report whose only keyword text is "not fake" scores 1 against 1 and is labelled "Uncertain / Needs Review" |
| Verdict.NotDeepfakeExample | backend/app.py:162-173 | the report "Not deepfake" is labelled "Deepfake Detected" |
| FaceSampling.SampledFaces | backend/app.py:30-60 | the faces the function returns: none for a cap of 0 or less, an unopened capture or a video with no frames |
| FaceSampling.SliceIndex | backend/app.py:50 | a Python slice bound normalised into [0, len], unchanged when already in range |
| FaceSampling.SliceLength | backend/app.py:50 | the slice stays within the dimension and has length stop - start for in-range bounds |
| FaceSampling.Crop | backend/app.py:48-50 | the crop lies inside its frame and is tagged with its index; the origin is the box's corner clamped to 0 and then to the frame's size, so a box starting past the bottom or right edge gives an empty crop; a box that fits after clamping keeps its height and width; a box running past the bottom or right edge is cut at that edge; a zero width or height gives an empty crop |
| FaceSampling.CropsOf | backend/app.py:47-54 | the crops kept for one frame: no more than the boxes; each non-empty, inside the frame and tagged with it |
| FaceSampling.CropsOfKeepsNonEmpty | backend/app.py:47-54 | no non-empty crop is lost: every box whose crop is non-empty contributes that crop |
| FaceSampling.CropsOfFiltersInOrder | backend/app.py:47-54 | the kept crops are exactly the non-empty crops of the boxes, in detector order, as a front-to-back filter defines them |
| FaceSampling.CollectCrops | backend/app.py:47-54 | the `for d in detections` loop appends exactly the frame's kept crops and counts each one |
| FaceSampling.Interval | backend/app.py:36 | the stride is at least 1, brackets frame_count // max_faces when the count reaches the cap, and is 1 below twice the cap |
| FaceSampling.ExtractFacesFromVideo | backend/app.py:30-60 | the while/for loop computes exactly the faces of the sampling specification, including [] when the detector raises or the capture is closed |
| FaceSampling.FacesComeFromSampledFrames | backend/app.py:44-53 | every returned face comes from a frame whose index is a multiple of the stride, lies inside that frame and is not empty |
| FaceSampling.OffStrideFramesIgnored | backend/app.py:44 | changing frames off the stride never changes the result |
| FaceSampling.MostDetections | backend/app.py:46-47 | the largest box count of any frame: it bounds every frame, and some frame reaches it unless it is 0 |
| FaceSampling.OvershootBound | backend/app.py:40-55 | every face of the last frame read is kept, so the result stays below the cap plus the most boxes in one frame |
| FaceSampling.SampleFromStopsAtCap | backend/app.py:40 | once a run has collected the cap, frames after the point where it stopped never change the result |
| FaceSampling.StopsAtCap | backend/app.py:40 | a video that yields at least the cap gives the same faces whatever frames are appended to it, detector exceptions included |
| FaceSampling.LaterFailureUnread | backend/app.py:40-60 | three faces in frame 0 under a cap of 2 are returned even though frame 1's detector raises |
| FaceSampling.CapCanBeExceeded | backend/app.py:40-55 | one frame with three faces yields three faces under a cap of 2 |
| FaceSampling.NegativeHeightExamples | backend/app.py:50 | a height of -1 from row 0 keeps 9 of 10 rows; a height of -1 from row 5 gives an empty crop |
| FaceSampling.ClampAndSkip | backend/app.py:49-52 | a box off the top-left corner is clamped to the origin; a box with no width is skipped |
| Analyze.IsImageName | backend/app.py:119-120 | an image name is one whose last four characters, lower-cased, are ".png" or ".jpg", or whose last five are ".jpeg"; it is never also a video name, so testing images first decides nothing |
| Analyze.IsVideoName | backend/app.py:119-122 | a video name is one whose last four characters, lower-cased, are ".mp4", ".mov", ".avi" or ".mkv" |
| Analyze.IsYouTubeUrl | backend/app.py:134 | a YouTube URL has at least 8 characters and contains "youtu", the stem of both hosts |
| Analyze.RouteOf | backend/app.py:117-156 | a file part decides the route whenever present; image suffixes win over video ones; other names are unsupported; a URL is stripped and routed by "youtube.com"/"youtu.be"; neither means no input |
| Analyze.Analyzed | backend/app.py:159-180 | a successful analysis carries one of the three labels and the final report unchanged |
| Analyze.VideoAnswer | backend/app.py:122-127 | a video path answers 400 with its no-faces message exactly when no face is extracted, and the analysis otherwise |
| Analyze.YouTubeAnswer | backend/app.py:134-146 | the YouTube branch: no stream gives 400 "No suitable YouTube stream found"; a raised download gives 500 with the exception text; a downloaded video goes through the no-faces test; analysis exactly for a downloaded video with faces |
| Analyze.ImageLinkAnswer | backend/app.py:147-154 | the plain-URL branch: a raised download gives 500 with the exception text; a non-200 status gives 400; analysis exactly on status 200 |
| Analyze.AnalyzeMedia | backend/app.py:112-156 | every answer is the scored analysis of the final report or an error with 400 or 500; which exit each input takes is stated by the lemmas below |
| Analyze.YouTubeDispatch | backend/app.py:133-146 | a URL that names YouTube once stripped is answered by the YouTube branch |
| Analyze.ImageLinkDispatch | backend/app.py:133-154 | any other URL is answered by the plain-URL branch |
| Analyze.VideoUploadAnswer | backend/app.py:122-127 | an uploaded video is analysed exactly when faces are extracted from it |
| Analyze.YouTubeExits | backend/app.py:134-146 | for a YouTube URL: no stream gives 400, a raised download gives 500 with its text, no faces gives 400, and only a downloaded video with faces is analysed |
| Analyze.ImageLinkExits | backend/app.py:147-154 | for any other URL: a raised download gives 500 with its text, and the image is analysed exactly on status 200 |
| Analyze.FileTakesPrecedence | backend/app.py:117-132 | with a file part, the JSON URL never changes the answer |
| Analyze.NoInputRejected | backend/app.py:155-156 | neither a file nor a URL gives 400 "No file or URL provided" |
| Analyze.UploadExtensions | backend/app.py:119-129 | names without an image or video suffix give 400 "Unsupported file type"; image names are analysed; suffixes are tested case-insensitively |
| Analyze.FacelessVideoRejected | backend/app.py:122-127 | an uploaded video with no extracted faces gives 400 "No faces detected in video" |
| Analyze.YouTubeLinkIndependent | backend/app.py:134-146 | the answer to a YouTube URL depends only on the YouTube download and the final report |
| Analyze.ImageLinkIndependent | backend/app.py:147-154 | the answer to any other URL depends only on the image download and the final report |
| Analyze.FailedDownloadRejected | backend/app.py:148-151 | a plain URL whose download does not answer 200 gives 400 "Failed to download image from URL" |
| Analyze.YouTubeDecisionIgnoresPadding | backend/app.py:133-134 | the YouTube test on the stripped URL agrees with the test on the URL as sent |
| Dashboard.PercentCompleted | src/pages/DashboardPage.jsx:46-47 | Math.round(loaded*100/total) as the integer p with 2tp - t <= 200 loaded < 2tp + t; NaN or Infinity when the total is missing or zero |
| Dashboard.ProgressTrace | src/pages/DashboardPage.jsx:46-48 | one percentage per progress event, each computed from its own event |
| Dashboard.DashboardPage.constructor | src/pages/DashboardPage.jsx:9-11 | the initial state is no file, 'idle', progress 0 |
| Dashboard.DashboardPage.OnDrop | src/pages/DashboardPage.jsx:14-19 | a non-empty list selects its first file and sets 'selected'; a null or empty one changes nothing; progress is never touched |
| Dashboard.DashboardPage.RemoveFile | src/pages/DashboardPage.jsx:27-31 | from any state: no file, 'idle', progress 0 |
| Dashboard.DashboardPage.OnUploadProgress | src/pages/DashboardPage.jsx:46-49 | the progress becomes the event's percentage, nothing else changes, and the file-and-status invariant is kept |
| Dashboard.DashboardPage.HandleAnalyze | src/pages/DashboardPage.jsx:33-63 | with no file, nothing happens; otherwise one part named 'file' is posted and every event's percentage is shown; success navigates to '/results' with the response body and no fileURL; failure resets the page |
| Dashboard.DashboardPage.RenderContent | src/pages/DashboardPage.jsx:66-101 | the drop zone exactly in 'idle', the file card exactly in 'selected', the progress bar otherwise |
| Dashboard.DashboardPage.AvailableActions | src/pages/DashboardPage.jsx:66-101 | drop only when idle; analyze and remove only when selected; nothing while uploading |
| Dashboard.PercentBounds | src/pages/DashboardPage.jsx:47 | with 0 < total and loaded <= total the percentage lies in [0, 100] and is 100 when everything is sent |
| Dashboard.PercentMonotone | src/pages/DashboardPage.jsx:47 | more bytes sent never gives a smaller percentage |
| Dashboard.UploadProgressMonotone | src/pages/DashboardPage.jsx:46-49 | during one upload the shown percentages stay in [0, 100], never decrease, and end at 100 when everything is sent |
| Results.CleanReport | src/pages/ResultsPage.jsx:46 | the cleaned report is a suffix of the report; it is shorter by exactly 29 characters when the report starts with the title line, and unchanged otherwise |
| Results.RenderResults | src/pages/ResultsPage.jsx:10-16 | a placeholder exactly when there is no analysis result; otherwise the verdict, the cleaned report, the red classes exactly when the deepfake test holds and the green ones otherwise, and the fileURL itself as the image exactly when it is non-empty |
| Results.BannerAgreesWithHeading | src/pages/ResultsPage.jsx:71-76 | the banner and the heading are red together |
| Results.CleanTwice | src/pages/ResultsPage.jsx:46 | stripping twice equals stripping once exactly when the cleaned report does not itself begin with the title line |
| Results.CleanNotIdempotent | src/pages/ResultsPage.jsx:46 | a report with the title line twice keeps the second copy |
| Results.CleanIsAnchored | src/pages/ResultsPage.jsx:46 | a title line after text that does not begin with '*' is not removed |
| Results.FlaggedIgnoresCase | src/pages/ResultsPage.jsx:72 | the deepfake test ignores case |
| Results.BackendLabelsClassified | src/pages/ResultsPage.jsx:72 | of the backend's labels only "Deepfake Detected" is flagged |
| Results.Flagged | src/pages/ResultsPage.jsx:72 | a flagged verdict has at least the 8 characters of "deepfake"; a verdict with no letter p in either case is never flagged |
| Results.NoLetterPNoDeepfake | src/pages/ResultsPage.jsx:72 | a text with no 'p' or 'P' does not contain "deepfake" once lower-cased |
| Results.DeepfakeInAnyCase | src/pages/ResultsPage.jsx:72 | "deepfake detected" in lower case is flagged; "authentic media" is not |
| Results.CleanExample | src/pages/ResultsPage.jsx:46 | the title line is removed and the rest is kept |
| Pipeline.RequestOf | src/pages/DashboardPage.jsx:37-38 | the endpoint sees a file exactly when a part is named "file", and never a URL |
| Pipeline.UploadOutcomeOf | backend/app.py:176-180 | the upload succeeds exactly on an analysis, with its verdict and report as the body |
| Pipeline.AnalysisRendersByLabel | src/pages/ResultsPage.jsx:60-76 | every analysis renders: red exactly for "Deepfake Detected", the cleaned report as body, no image |
| Pipeline.GifIsRefused | backend/app.py:119-129 | a ".gif", which the drop zone accepts as an image, is refused with 400 and the dashboard fails |
| Pipeline.Session | src/pages/DashboardPage.jsx:33-63 | a whole session shows a result page exactly when the endpoint analyses, red exactly for the deepfake label; otherwise the dashboard is idle |
| Text.LowerChar | backend/app.py:119 | an upper-case ASCII letter moves up by 32 to its lower-case form; every other character is unchanged; the result is never upper-case |
| Text.Lower | backend/app.py:163 | the lower-cased string has the same length and lower-cases each character in place |
| Text.TrimStart | backend/app.py:133 | the result is a suffix of the input; every dropped character is whitespace and the first kept one is not |
| Text.TrimEnd | backend/app.py:133 | the result is a prefix of the input; every dropped character is whitespace and the last kept one is not |
| Text.Strip | backend/app.py:133 | the stripped string is no longer than the input, neither begins nor ends with whitespace, and equals the input when that neither begins nor ends with whitespace |
| Text.LowerIdempotent | backend/app.py:119 | lower-casing twice equals lower-casing once |
| Text.StripKeepsWord | backend/app.py:133 | stripping whitespace never creates or removes an occurrence of a word without whitespace |

## Left out

- The three language-model analysis steps are not modelled. The final report is an input string (`Services.finalReport`).
- OpenCV, MTCNN and PIL are not modelled. A video is a sequence of frames, each carrying the boxes the detector reports or a detector exception. An image upload is assumed to decode.
- Exceptions outside the modelled handlers are not modelled. The outer handler answers 500 with the exception text (backend/app.py:182-184) when `Image.open` on an upload raises (backend/app.py:121), when saving an upload fails, or when an analysis step raises. The model has no such failures. Exceptions inside face extraction (the detector, `cv2.cvtColor`, `Image.fromarray`) are modelled: that function's own handler returns no faces, so the answer is the no-faces 400 (`DetectorFailed`). An undecodable downloaded image is caught by the download's handler and answers 500 (`FetchFailed`).
- Network, temporary files, the pytube stream selection, Flask, CORS and `jsonify` are outside the model. Only each step's outcome is modelled: a stream or none, a download or an exception, an HTTP status.
- A request without a file and without a JSON body holding "url" is modelled as a request with no URL, which answers 400. Several such requests answer 500 through the outer handler instead (backend/app.py:132-133, 182-184), and the model does not capture them: a JSON content type with an unparsable body, where `request.json` raises; a JSON body of `null`, a number or a boolean, where `"url" in request.json` raises a TypeError (backend/app.py:132); a JSON list or string containing "url", which passes the `in` test but then makes `request.json["url"]` raise (backend/app.py:133); and a "url" that is not a string, where `.strip()` raises.
- Lower-casing and whitespace are ASCII only. Python's `str.lower`, `str.strip` and JavaScript's `toLowerCase` are Unicode-aware.
- Dashboard.PercentCompleted: percentages are exact integers. Floating-point rounding of `loaded*100/total` is not modelled; NaN and Infinity are.
- Asynchronous interleaving is not modelled. A progress callback arriving after the POST has settled is outside the model, as is a second click during an upload. The upload is a sequence of progress events followed by its outcome.
- `alert` and `console` are side effects and are left out.
- The react-dropzone filtering (`image/*`, one file) is not modelled. `onDrop` receives the list as already filtered.
- Dashboard.DashboardPage.OnDrop: it requires `Valid()` only to keep the model's state invariant. The page renders the drop zone only while idle.
- Dashboard.DashboardPage.OnUploadProgress: it requires `Valid()` only to keep the model's state invariant. The callback runs only during an upload, when a file is selected.
- ReactMarkdown and the styling table are not modelled. The rendered body is the cleaned report text.
- The static pages are not part of this model: `HomePage.jsx`, `TechnologyPage.jsx`, `HistoryPage.jsx`, `Header.jsx` and `App.jsx`.
- The file-size label (`size / 1024 / 1024` to two decimals) is not modelled. The file card carries the raw size.

## Notes

- The title strip is not idempotent: the code removes only one leading copy of `**Forensic Analysis Report**\n`, so stripping twice differs from stripping once when the title appears twice (`Results.CleanNotIdempotent`).
- The drop zone accepts every image type, while the endpoint accepts only `.png`, `.jpg` and `.jpeg`. A GIF is therefore refused with 400, and the dashboard resets (`Pipeline.GifIsRefused`).
- Crops follow numpy slicing exactly. A negative height or width counts from the frame's far edge: `frame[0:-1]` keeps all rows but the last, while `frame[5:4]` is empty. The detector does not report such boxes.
