/** Face extraction from a video: frames are read in order, only every
    `interval`-th frame is passed to the face detector, every detected box is
    cropped (origin clamped at 0, empty crops skipped), and reading stops once
    enough faces have been collected. The video decoder and the detector are
    abstracted: a video is its sequence of frames, and each frame carries what
    the detector reports for it. */
module FaceSampling {
  import opened Wrappers

  /** A detector box `[x, y, w, h]`; the detector may report negative origins. */
  datatype Box = Box(x: int, y: int, w: int, h: int)

  /** What the detector reports for one frame, or that it raised an exception */
  datatype Detection = Detected(boxes: seq<Box>) | DetectorFailed

  datatype Frame = Frame(height: nat, width: nat, detection: Detection)

  /** `isOpen` is `cap.isOpened()`; `reportedFrameCount` is the container's
      CAP_PROP_FRAME_COUNT, which need not match the frames actually readable. */
  datatype Video = Video(isOpen: bool, reportedFrameCount: int, frames: seq<Frame>)

  /** A cropped face: the frame it comes from and the pixel region
      `rows x cols` at (`top`, `left`). */
  datatype Face = Face(frame: nat, top: nat, left: nat, rows: nat, cols: nat)

  const DefaultMaxFaces: int := 50

  function Max(a: int, b: int): int {
    if a >= b then a else b
  }

  function Min(a: int, b: int): int {
    if a <= b then a else b
  }

  /** Python's normalisation of a slice bound `i` over a dimension of size `len` */
  function SliceIndex(i: int, len: nat): (k: nat)
    ensures k <= len
    ensures 0 <= i <= len ==> k == i
  {
    if i < 0 then (if i + len < 0 then 0 else i + len)
    else if i > len then len
    else i
  }

  /** Length of the slice `a[start:stop]` of a dimension of size `len` */
  function SliceLength(start: int, stop: int, len: nat): (n: nat)
    ensures SliceIndex(start, len) + n <= len
    ensures 0 <= start <= stop <= len ==> n == stop - start
  {
    var a, b := SliceIndex(start, len), SliceIndex(stop, len);
    if b > a then b - a else 0
  }

  /** `rgb_frame[y:y+h, x:x+w]` after `x, y = max(0, x), max(0, y)` */
  function Crop(f: Frame, index: nat, b: Box): (face: Face)
    ensures face.frame == index
    ensures face.top + face.rows <= f.height && face.left + face.cols <= f.width
    ensures face.top == Min(Max(0, b.y), f.height)
    ensures face.left == Min(Max(0, b.x), f.width)
    ensures 0 <= b.h && Max(0, b.y) + b.h <= f.height ==> face.rows == b.h
    ensures 0 <= b.w && Max(0, b.x) + b.w <= f.width ==> face.cols == b.w
    ensures 0 <= b.h ==> face.rows == Min(b.h, f.height - face.top)
    ensures 0 <= b.w ==> face.cols == Min(b.w, f.width - face.left)
    ensures b.h == 0 || b.w == 0 ==> IsEmpty(face)
  {
    var x, y := Max(0, b.x), Max(0, b.y);
    Face(index, SliceIndex(y, f.height), SliceIndex(x, f.width),
         SliceLength(y, y + b.h, f.height), SliceLength(x, x + b.w, f.width))
  }

  /** `face.size == 0`: a crop with no rows or no columns */
  predicate IsEmpty(face: Face) {
    face.rows == 0 || face.cols == 0
  }

  /** A face lies inside frame `frames[face.frame]` and is not empty. */
  predicate InFrame(face: Face, frames: seq<Frame>) {
    face.frame < |frames| && !IsEmpty(face) &&
    face.top + face.rows <= frames[face.frame].height &&
    face.left + face.cols <= frames[face.frame].width
  }

  /** The non-empty crops of the boxes, in detector order */
  function CropsOf(f: Frame, index: nat, boxes: seq<Box>): (faces: seq<Face>)
    ensures |faces| <= |boxes|
    ensures forall k :: 0 <= k < |faces| ==>
      faces[k].frame == index && !IsEmpty(faces[k]) &&
      faces[k].top + faces[k].rows <= f.height && faces[k].left + faces[k].cols <= f.width
    decreases |boxes|
  {
    if boxes == [] then []
    else
      var last := Crop(f, index, boxes[|boxes| - 1]);
      CropsOf(f, index, boxes[..|boxes| - 1]) + (if IsEmpty(last) then [] else [last])
  }

  /** One more box adds its crop when that crop is not empty. */
  lemma CropsOfStep(f: Frame, index: nat, boxes: seq<Box>, k: nat)
    requires k < |boxes|
    ensures CropsOf(f, index, boxes[..k + 1])
         == CropsOf(f, index, boxes[..k]) + (if IsEmpty(Crop(f, index, boxes[k])) then [] else [Crop(f, index, boxes[k])])
  {
    assert boxes[..k + 1][..k] == boxes[..k];
  }

  /** No non-empty crop is lost: every box whose crop is not empty
      contributes that crop. */
  lemma {:induction false} CropsOfKeepsNonEmpty(f: Frame, index: nat, boxes: seq<Box>, k: nat)
    requires k < |boxes| && !IsEmpty(Crop(f, index, boxes[k]))
    ensures Crop(f, index, boxes[k]) in CropsOf(f, index, boxes)
    decreases |boxes|
  {
    var init := boxes[..|boxes| - 1];
    if k < |boxes| - 1 {
      assert init[k] == boxes[k];
      CropsOfKeepsNonEmpty(f, index, init, k);
    }
  }

  /** The non-empty faces of a list, in order: a front-to-back filter */
  function NonEmptyFaces(faces: seq<Face>): (kept: seq<Face>)
    ensures |kept| <= |faces|
  {
    if faces == [] then []
    else (if IsEmpty(faces[0]) then [] else [faces[0]]) + NonEmptyFaces(faces[1..])
  }

  lemma {:induction false} NonEmptyFacesAppend(a: seq<Face>, b: seq<Face>)
    ensures NonEmptyFaces(a + b) == NonEmptyFaces(a) + NonEmptyFaces(b)
    decreases |a|
  {
    if a == [] {
      assert a + b == b;
    } else {
      assert (a + b)[0] == a[0];
      assert (a + b)[1..] == a[1..] + b;
      NonEmptyFacesAppend(a[1..], b);
    }
  }

  /** The crops of a frame are exactly the non-empty crops of its boxes, in
      the detector's order. */
  lemma {:induction false} CropsOfFiltersInOrder(f: Frame, index: nat, boxes: seq<Box>)
    ensures CropsOf(f, index, boxes) == NonEmptyFaces(seq(|boxes|, k requires 0 <= k < |boxes| => Crop(f, index, boxes[k])))
    decreases |boxes|
  {
    var all := seq(|boxes|, k requires 0 <= k < |boxes| => Crop(f, index, boxes[k]));
    if boxes != [] {
      var init := boxes[..|boxes| - 1];
      var front := seq(|init|, k requires 0 <= k < |init| => Crop(f, index, init[k]));
      var last := Crop(f, index, boxes[|boxes| - 1]);
      CropsOfFiltersInOrder(f, index, init);
      assert all == front + [last];
      NonEmptyFacesAppend(front, [last]);
      assert NonEmptyFaces([last]) == (if IsEmpty(last) then [] else [last]) by {
        assert [last][1..] == [];
      }
    }
  }

  /** `max(1, frame_count // max_faces_per_video)`: the sampling stride
      spreads `maxFaces` samples over the reported frame count. */
  function Interval(frameCount: int, maxFaces: int): (k: int)
    requires maxFaces > 0
    ensures k >= 1
    ensures frameCount >= maxFaces ==> k * maxFaces <= frameCount < (k + 1) * maxFaces
    ensures frameCount < 2 * maxFaces ==> k == 1
  {
    Max(1, frameCount / maxFaces)
  }

  /** The loop from the state (`count` frames read, `faces` collected):
      None when the detector raises, since the exception handler discards
      everything and returns an empty list. */
  function SampleFrom(frames: seq<Frame>, count: nat, interval: int, maxFaces: int,
                      faces: seq<Face>): Option<seq<Face>>
    requires interval >= 1
    decreases |frames| - count
  {
    if |faces| >= maxFaces || count >= |frames| then Some(faces)
    else if count % interval == 0 then
      match frames[count].detection
      case DetectorFailed => None
      case Detected(boxes) =>
        SampleFrom(frames, count + 1, interval, maxFaces,
                   faces + CropsOf(frames[count], count, boxes))
    else SampleFrom(frames, count + 1, interval, maxFaces, faces)
  }

  /** What `extract_faces_from_video` returns for a video. A zero cap makes
      the stride computation divide by zero and the handler return []; a
      negative cap or an unopened capture never enters the loop. */
  function SampledFaces(v: Video, maxFaces: int): (r: seq<Face>)
    ensures maxFaces <= 0 || !v.isOpen || v.frames == [] ==> r == []
  {
    if maxFaces <= 0 || !v.isOpen then []
    else
      match SampleFrom(v.frames, 0, Interval(v.reportedFrameCount, maxFaces), maxFaces, [])
      case None => []
      case Some(faces) => faces
  }

  /** The `for d in detections` loop: each non-empty crop is appended and
      counted. */
  method CollectCrops(frame: Frame, index: nat, boxes: seq<Box>, faces: seq<Face>, extracted: int)
    returns (faces': seq<Face>, extracted': int)
    requires extracted == |faces|
    ensures faces' == faces + CropsOf(frame, index, boxes)
    ensures extracted' == |faces'|
  {
    faces', extracted' := faces, extracted;
    for k := 0 to |boxes|
      invariant faces' == faces + CropsOf(frame, index, boxes[..k])
      invariant extracted' == |faces'|
    {
      CropsOfStep(frame, index, boxes, k);
      var face := Crop(frame, index, boxes[k]);
      if IsEmpty(face) {
        continue;
      }
      faces' := faces' + [face];
      extracted' := extracted' + 1;
    }
    assert boxes[..|boxes|] == boxes;
  }

  method ExtractFacesFromVideo(video: Video, maxFaces: int) returns (faces: seq<Face>)
    ensures faces == SampledFaces(video, maxFaces)
  {
    if maxFaces <= 0 || !video.isOpen {
      return [];
    }
    var frames := video.frames;
    var interval := Max(1, video.reportedFrameCount / maxFaces);
    ghost var spec := SampleFrom(frames, 0, interval, maxFaces, []);
    var count := 0;
    var extracted := 0;
    faces := [];
    while extracted < maxFaces
      invariant 0 <= count <= |frames|
      invariant extracted == |faces|
      invariant SampleFrom(frames, count, interval, maxFaces, faces) == spec
      decreases |frames| - count
    {
      if count == |frames| {
        break;  // cap.read() reports no frame
      }
      var frame := frames[count];
      if count % interval == 0 {
        match frame.detection {
          case DetectorFailed =>
            return [];
          case Detected(boxes) =>
            faces, extracted := CollectCrops(frame, count, boxes, faces, extracted);
        }
      }
      count := count + 1;
    }
  }

  /** Every face lies inside its frame, is not empty, and comes from a frame
      whose index is a multiple of the stride. */
  predicate FromStride(faces: seq<Face>, frames: seq<Frame>, interval: int)
    requires interval >= 1
  {
    forall k :: 0 <= k < |faces| ==> InFrame(faces[k], frames) && faces[k].frame % interval == 0
  }

  lemma {:induction false} SampleFromFacesWellFormed(frames: seq<Frame>, count: nat, interval: int,
                                                    maxFaces: int, faces: seq<Face>)
    requires interval >= 1
    requires FromStride(faces, frames, interval)
    ensures SampleFrom(frames, count, interval, maxFaces, faces).Some? ==>
      FromStride(SampleFrom(frames, count, interval, maxFaces, faces).value, frames, interval)
    decreases |frames| - count
  {
    if |faces| >= maxFaces || count >= |frames| {
    } else if count % interval == 0 {
      match frames[count].detection
      case DetectorFailed =>
      case Detected(boxes) =>
        var next := faces + CropsOf(frames[count], count, boxes);
        forall k | 0 <= k < |next| ensures InFrame(next[k], frames) && next[k].frame % interval == 0 {
          if k >= |faces| {
            assert next[k] == CropsOf(frames[count], count, boxes)[k - |faces|];
          }
        }
        SampleFromFacesWellFormed(frames, count + 1, interval, maxFaces, next);
    } else {
      SampleFromFacesWellFormed(frames, count + 1, interval, maxFaces, faces);
    }
  }

  /** Faces come only from frames on the stride, lie inside their frame and
      are never empty. */
  lemma FacesComeFromSampledFrames(v: Video, maxFaces: int)
    requires maxFaces > 0
    ensures forall face | face in SampledFaces(v, maxFaces) ::
      InFrame(face, v.frames) && face.frame % Interval(v.reportedFrameCount, maxFaces) == 0
  {
    if v.isOpen {
      var interval := Interval(v.reportedFrameCount, maxFaces);
      SampleFromFacesWellFormed(v.frames, 0, interval, maxFaces, []);
      var r := SampledFaces(v, maxFaces);
      assert FromStride(r, v.frames, interval);
      forall face | face in r ensures InFrame(face, v.frames) && face.frame % interval == 0 {
        var k :| 0 <= k < |r| && r[k] == face;
      }
    }
  }

  /** Two videos that agree on every frame on the stride agree on the result:
      the frames in between are read but never examined. */
  lemma {:induction false} SampleFromIgnoresOffStride(frames: seq<Frame>, other: seq<Frame>, count: nat,
                                                     interval: int, maxFaces: int, faces: seq<Face>)
    requires interval >= 1 && |frames| == |other|
    requires forall k :: 0 <= k < |frames| && k % interval == 0 ==> frames[k] == other[k]
    ensures SampleFrom(frames, count, interval, maxFaces, faces)
         == SampleFrom(other, count, interval, maxFaces, faces)
    decreases |frames| - count
  {
    if |faces| >= maxFaces || count >= |frames| {
    } else if count % interval == 0 {
      assert frames[count] == other[count];
      match frames[count].detection
      case DetectorFailed =>
      case Detected(boxes) =>
        SampleFromIgnoresOffStride(frames, other, count + 1, interval, maxFaces,
                                   faces + CropsOf(frames[count], count, boxes));
    } else {
      SampleFromIgnoresOffStride(frames, other, count + 1, interval, maxFaces, faces);
    }
  }

  lemma OffStrideFramesIgnored(v: Video, frames: seq<Frame>, maxFaces: int)
    requires maxFaces > 0 && |frames| == |v.frames|
    requires forall k :: 0 <= k < |frames| && k % Interval(v.reportedFrameCount, maxFaces) == 0 ==>
      frames[k] == v.frames[k]
    ensures SampledFaces(v.(frames := frames), maxFaces) == SampledFaces(v, maxFaces)
  {
    SampleFromIgnoresOffStride(frames, v.frames, 0, Interval(v.reportedFrameCount, maxFaces), maxFaces, []);
  }

  /** The largest number of boxes the detector reports for any frame */
  function MostDetections(frames: seq<Frame>): (m: nat)
    ensures forall k :: 0 <= k < |frames| && frames[k].detection.Detected? ==>
      |frames[k].detection.boxes| <= m
    ensures m == 0 ||
            exists k :: 0 <= k < |frames| && frames[k].detection.Detected? && |frames[k].detection.boxes| == m
  {
    if frames == [] then 0
    else
      var here := if frames[0].detection.Detected? then |frames[0].detection.boxes| else 0;
      var rest := MostDetections(frames[1..]);
      assert forall k :: 1 <= k < |frames| ==> frames[k] == frames[1..][k - 1];
      if here >= rest then here else rest
  }

  /** No frame is read once the cap is reached, but the faces of the last
      frame are all kept: the result stays below cap + most boxes per frame. */
  lemma {:induction false} SampleFromOvershootBound(frames: seq<Frame>, count: nat, interval: int,
                                                   maxFaces: int, faces: seq<Face>)
    requires interval >= 1
    requires |faces| < maxFaces + MostDetections(frames)
    ensures SampleFrom(frames, count, interval, maxFaces, faces).Some? ==>
      |SampleFrom(frames, count, interval, maxFaces, faces).value| < maxFaces + MostDetections(frames)
    decreases |frames| - count
  {
    if |faces| >= maxFaces || count >= |frames| {
    } else if count % interval == 0 {
      match frames[count].detection
      case DetectorFailed =>
      case Detected(boxes) =>
        SampleFromOvershootBound(frames, count + 1, interval, maxFaces,
                                 faces + CropsOf(frames[count], count, boxes));
    } else {
      SampleFromOvershootBound(frames, count + 1, interval, maxFaces, faces);
    }
  }

  lemma OvershootBound(v: Video, maxFaces: int)
    requires maxFaces > 0
    ensures |SampledFaces(v, maxFaces)| < maxFaces + MostDetections(v.frames)
  {
    if v.isOpen {
      SampleFromOvershootBound(v.frames, 0, Interval(v.reportedFrameCount, maxFaces), maxFaces, []);
    }
  }

  /** The loop stops as soon as the cap is reached: once a run has collected
      the cap, frames after the point where it stopped are never read. */
  lemma {:induction false} SampleFromStopsAtCap(frames: seq<Frame>, more: seq<Frame>, count: nat,
                                               interval: int, maxFaces: int, faces: seq<Face>)
    requires interval >= 1
    requires SampleFrom(frames, count, interval, maxFaces, faces).Some?
    requires |SampleFrom(frames, count, interval, maxFaces, faces).value| >= maxFaces
    ensures SampleFrom(frames + more, count, interval, maxFaces, faces)
         == SampleFrom(frames, count, interval, maxFaces, faces)
    decreases |frames| - count
  {
    if |faces| >= maxFaces {
    } else {
      assert count < |frames|;
      assert (frames + more)[count] == frames[count];
      if count % interval == 0 {
        match frames[count].detection
        case Detected(boxes) =>
          SampleFromStopsAtCap(frames, more, count + 1, interval, maxFaces,
                               faces + CropsOf(frames[count], count, boxes));
      } else {
        SampleFromStopsAtCap(frames, more, count + 1, interval, maxFaces, faces);
      }
    }
  }

  /** A video that yields the cap gives the same faces whatever frames follow,
      a detector exception among them included. */
  lemma StopsAtCap(v: Video, more: seq<Frame>, maxFaces: int)
    requires |SampledFaces(v, maxFaces)| >= maxFaces > 0
    ensures SampledFaces(v.(frames := v.frames + more), maxFaces) == SampledFaces(v, maxFaces)
  {
    SampleFromStopsAtCap(v.frames, more, 0, Interval(v.reportedFrameCount, maxFaces), maxFaces, []);
  }

  /** One frame can push the count past the cap: with a cap of 2, a single
      frame with three detected faces yields three faces. */
  lemma CapCanBeExceeded()
    ensures |SampledFaces(Video(true, 1, [Frame(10, 10, Detected([Box(0, 0, 2, 2), Box(3, 3, 2, 2), Box(6, 6, 2, 2)]))]), 2)| == 3
  {
    var f := Frame(10, 10, Detected([Box(0, 0, 2, 2), Box(3, 3, 2, 2), Box(6, 6, 2, 2)]));
    var boxes := f.detection.boxes;
    assert |CropsOf(f, 0, boxes[..1])| == 1 by {
      assert boxes[..1][..0] == [];
    }
    assert |CropsOf(f, 0, boxes[..2])| == 2 by {
      assert boxes[..2][..1] == boxes[..1];
    }
    assert |CropsOf(f, 0, boxes)| == 3 by {
      assert boxes[..2] == boxes[..|boxes| - 1];
    }
  }

  /** Three faces in frame 0 under a cap of 2: the detector exception in
      frame 1 is never reached, and the three faces are returned. */
  lemma LaterFailureUnread()
    ensures |SampledFaces(Video(true, 1, [Frame(10, 10, Detected([Box(0, 0, 2, 2), Box(3, 3, 2, 2), Box(6, 6, 2, 2)])),
                                          Frame(10, 10, DetectorFailed)]), 2)| == 3
  {
    var v := Video(true, 1, [Frame(10, 10, Detected([Box(0, 0, 2, 2), Box(3, 3, 2, 2), Box(6, 6, 2, 2)]))]);
    CapCanBeExceeded();
    StopsAtCap(v, [Frame(10, 10, DetectorFailed)], 2);
    assert v.frames + [Frame(10, 10, DetectorFailed)]
        == [Frame(10, 10, Detected([Box(0, 0, 2, 2), Box(3, 3, 2, 2), Box(6, 6, 2, 2)])), Frame(10, 10, DetectorFailed)];
  }

  /** A negative height counts from the bottom edge, as in numpy:
      `frame[0:-1]` keeps all rows but the last, while `frame[5:4]` is empty. */
  lemma NegativeHeightExamples()
    ensures Crop(Frame(10, 10, Detected([])), 0, Box(0, 0, 3, -1)).rows == 9
    ensures IsEmpty(Crop(Frame(10, 10, Detected([])), 0, Box(0, 5, 3, -1)))
  {
  }

  /** A box hanging off the top-left corner is clamped, and a box with no
      area is skipped. */
  lemma ClampAndSkip()
    ensures Crop(Frame(10, 10, Detected([])), 0, Box(-3, -4, 5, 6)) == Face(0, 0, 0, 6, 5)
    ensures IsEmpty(Crop(Frame(10, 10, Detected([])), 0, Box(2, 2, 0, 4)))
  {
  }
}
