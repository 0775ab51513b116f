/** The driver: the frame-sampling loop of `process_video` with its
    compositing and file naming, and the argument checks of `main`. */
module Ripper {
  import opened Base
  import opened Decimal
  import opened Image
  import opened ColorKey
  import opened MaskBuilder
  import opened Scheduler

  // ------------------------------------------------------ compositing (ripper.py:139-140)

  /** cv2.cvtColor(BGR2RGB) followed by np.dstack with the mask. */
  function Composite(f: Frame, alpha: Mask): (img: Grid<Rgba>)
    requires SameShape(alpha, f)
    ensures SameShape(img, f)
  {
    seq(|f|, i requires 0 <= i < |f| =>
      seq(|f[i]|, j requires 0 <= j < |f[i]| =>
        Rgba(f[i][j].r, f[i][j].g, f[i][j].b, alpha[i][j])))
  }

  /** Reads an RGBA raster back as the BGR frame and the alpha mask. */
  function Decompose(img: Grid<Rgba>): (fm: (Frame, Mask))
    ensures SameShape(fm.0, img) && SameShape(fm.1, img)
  {
    (seq(|img|, i requires 0 <= i < |img| =>
       seq(|img[i]|, j requires 0 <= j < |img[i]| => Bgr(img[i][j].b, img[i][j].g, img[i][j].r))),
     seq(|img|, i requires 0 <= i < |img| =>
       seq(|img[i]|, j requires 0 <= j < |img[i]| => img[i][j].a)))
  }

  /** The written raster loses nothing: it holds the frame, channels
      swapped to RGB, with the mask as the fourth channel. */
  lemma CompositeRoundTrip(f: Frame, alpha: Mask)
    requires SameShape(alpha, f)
    ensures Decompose(Composite(f, alpha)) == (f, alpha)
  {
    var fm := Decompose(Composite(f, alpha));
    forall i | 0 <= i < |f|
      ensures fm.0[i] == f[i] && fm.1[i] == alpha[i]
    {
      assert forall j :: 0 <= j < |f[i]| ==> fm.0[i][j] == f[i][j];
      assert forall j :: 0 <= j < |f[i]| ==> fm.1[i][j] == alpha[i][j];
    }
    assert fm.0 == f && fm.1 == alpha;
  }

  lemma CompositeAt(f: Frame, alpha: Mask, i: int, j: int)
    requires SameShape(alpha, f) && Cell(f, i, j)
    ensures Composite(f, alpha)[i][j] == Rgba(f[i][j].r, f[i][j].g, f[i][j].b, alpha[i][j])
  {
  }

  // ------------------------------------------------------------ naming (ripper.py:144)

  /** `f"frame_{saved_count:04d}.png"`. */
  function FileName(k: nat): (s: string)
    ensures |s| >= 14 && s[..6] == "frame_" && s[|s| - 4..] == ".png"
  {
    ZeroPadRoundTrip(k, 4);
    "frame_" + ZeroPad(k, 4) + ".png"
  }

  /** The number a name carries, read back from between prefix and suffix. */
  lemma FileNameNumber(k: nat)
    ensures var s := FileName(k);
            |s| >= 14 && AllDigits(s[6..|s| - 4]) && Value(s[6..|s| - 4]) == k
  {
    ZeroPadRoundTrip(k, 4);
    var s := FileName(k);
    assert s[6..|s| - 4] == ZeroPad(k, 4);
  }

  /** Distinct saves never overwrite each other's file. */
  lemma FileNamesDistinct(a: nat, b: nat)
    requires a != b
    ensures FileName(a) != FileName(b)
  {
    FileNameNumber(a);
    FileNameNumber(b);
  }

  /** Below 10000 a name is exactly `frame_` + four digits + `.png`. */
  lemma FileNameWidth(k: nat)
    ensures |FileName(k)| == 14 <==> k < 10000
  {
    ZeroPadRoundTrip(k, 4);
    assert Pow10(4) == 10000;
  }

  // ---------------------------------------------------------- sampling (ripper.py:123-153)

  /** One written PNG: its file name in the output directory and its pixels. */
  datatype Png = Png(name: string, pixels: Grid<Rgba>)

  /** The settings a run applies to every saved frame. */
  datatype Keying = Keying(lower: Bgr, upper: Bgr, feather: int, blur: BlurKernel)

  /** The file written for the k-th save, taken from `frame`: the alpha
      mask, the RGBA raster and its name. */
  function Output(k: nat, f: Frame, key: Keying): (png: Png)
    ensures png.name == FileName(k)
    ensures SameShape(png.pixels, f)
    ensures forall i, j :: Cell(f, i, j) ==>
              png.pixels[i][j].r == f[i][j].r && png.pixels[i][j].g == f[i][j].g && png.pixels[i][j].b == f[i][j].b
  {
    var alpha := CreateAlphaMask(f, key.lower, key.upper, key.feather, key.blur);
    Png(FileName(k), Composite(f, alpha))
  }

  /** Each pixel of a saved file: the frame's colour in RGB order, with the
      alpha mask of `create_alpha_mask` as the fourth channel. */
  lemma OutputAt(k: nat, f: Frame, key: Keying, i: int, j: int)
    requires Cell(f, i, j)
    ensures Output(k, f, key).pixels[i][j]
         == Rgba(f[i][j].r, f[i][j].g, f[i][j].b, CreateAlphaMask(f, key.lower, key.upper, key.feather, key.blur)[i][j])
  {
    CompositeAt(f, CreateAlphaMask(f, key.lower, key.upper, key.feather, key.blur), i, j);
  }

  /** The files a run writes for `frames`: the k-th save is frame
      `SaveFrame(k, interval)`, written under `FileName(k)`. */
  function ExpectedOutputs(frames: seq<Frame>, interval: real, key: Keying): (outs: seq<Png>)
    ensures |outs| == SavedCount(|frames|, interval)
  {
    SavesBefore(frames, interval, key, SavedCount(|frames|, interval))
  }

  /** The files of the first `m` saves. */
  function SavesBefore(frames: seq<Frame>, interval: real, key: Keying, m: nat): (outs: seq<Png>)
    requires forall k :: 0 <= k < m ==> SaveFrame(k, interval) < |frames|
    ensures |outs| == m
  {
    seq(m, k requires 0 <= k < m => Output(k, frames[SaveFrame(k, interval)], key))
  }

  lemma SavesBeforeStep(frames: seq<Frame>, interval: real, key: Keying, m: nat)
    requires forall k :: 0 <= k <= m ==> SaveFrame(k, interval) < |frames|
    ensures SavesBefore(frames, interval, key, m + 1)
         == SavesBefore(frames, interval, key, m) + [Output(m, frames[SaveFrame(m, interval)], key)]
  {
  }

  /** The loop of `process_video` over the decoded frames, until the source
      runs out. `frameCount`, `savedCount` and `nextFrameToSave` are the
      loop's three variables when it ends. */
  method SampleFrames(frames: seq<Frame>, interval: real, key: Keying)
    returns (written: seq<Png>, frameCount: nat, savedCount: nat, nextFrameToSave: real)
    ensures written == ExpectedOutputs(frames, interval, key)
    ensures frameCount == |frames| && savedCount == |written|
    ensures nextFrameToSave == savedCount as real * interval
  {
    written, frameCount, savedCount, nextFrameToSave := [], 0, 0, 0.0;
    while frameCount < |frames|
      invariant frameCount <= |frames|
      invariant savedCount == |written|
      invariant nextFrameToSave == Threshold(savedCount, interval)
      invariant forall k :: 0 <= k < savedCount ==> SaveFrame(k, interval) < frameCount
      invariant written == SavesBefore(frames, interval, key, savedCount)
      invariant SaveFrame(savedCount, interval) >= frameCount
    {
      var frame := frames[frameCount];
      SaveDecision(savedCount, frameCount, interval);
      if frameCount as real >= nextFrameToSave {
        SavesBeforeStep(frames, interval, key, savedCount);
        written := written + [Output(savedCount, frame, key)];
        SaveFrameIncreasing(savedCount, interval);
        savedCount := savedCount + 1;
        nextFrameToSave := nextFrameToSave + interval;
      }
      frameCount := frameCount + 1;
    }
    SavedCountUnique(frameCount, interval, savedCount);
    ThresholdIsProduct(savedCount, interval);
  }

  /** Frames saved never outnumber frames decoded, and the first decoded
      frame is always saved, as `frame_0000.png`. */
  lemma FirstFrameSaved(frames: seq<Frame>, interval: real, key: Keying)
    ensures |ExpectedOutputs(frames, interval, key)| <= |frames|
    ensures |frames| > 0 ==>
              |ExpectedOutputs(frames, interval, key)| > 0 &&
              ExpectedOutputs(frames, interval, key)[0] == Output(0, frames[0], key)
  {
    if |frames| > 0 {
      SaveFrameZero(interval);
    }
  }

  /** After n >= 1 frames `min(n, floor((n - 1) / interval) + 1)` files have
      been written. */
  lemma OutputCount(frames: seq<Frame>, interval: real, key: Keying)
    requires |frames| >= 1 && interval > 0.0
    ensures |ExpectedOutputs(frames, interval, key)| == Min(|frames|, ((|frames| - 1) as real / interval).Floor + 1)
  {
    SavedCountClosedForm(|frames|, interval);
  }

  /** Files are named contiguously from `frame_0000.png` and no two saves
      share a name. */
  lemma OutputNames(frames: seq<Frame>, interval: real, key: Keying)
    ensures var outs := ExpectedOutputs(frames, interval, key);
            (forall k :: 0 <= k < |outs| ==> outs[k].name == FileName(k)) &&
            (forall a, b :: 0 <= a < b < |outs| ==> outs[a].name != outs[b].name)
  {
    var outs := ExpectedOutputs(frames, interval, key);
    forall a, b | 0 <= a < b < |outs|
      ensures outs[a].name != outs[b].name
    {
      FileNamesDistinct(a, b);
    }
  }

  /** Where no channel's band reaches past 0 or 255, keying with the bounds
      as written and with the intended bounds writes the same files. */
  lemma CorrectedRunAgrees(frames: seq<Frame>, interval: real, color: string, tolerance: int,
                           feather: int, blur: BlurKernel)
    requires 0 <= tolerance <= 255
    requires ParseColor(color).Ok? && NoWrap(ParseColor(color).value, tolerance)
    ensures var w := ParseColorRangeAsWritten(color, tolerance).value;
            var c := ParseColorRange(color, tolerance).value;
            ExpectedOutputs(frames, interval, Keying(w.lower, w.upper, feather, blur)) ==
            ExpectedOutputs(frames, interval, Keying(c.lower, c.upper, feather, blur))
  {
    ParseColorRangeAgree(color, tolerance);
  }

  /** One second of solid `#00FF00` at 30 fps, sampled at 1 fps and keyed on
      `#00FF00` with tolerance 10 as written, without feathering: exactly
      one file, `frame_0000.png`, and every pixel of it is opaque. */
  lemma SolidGreenSecondAsWritten(frames: seq<Frame>, blur: BlurKernel)
    requires |frames| == 30
    requires forall n, i, j :: 0 <= n < 30 && Cell(frames[n], i, j) ==> frames[n][i][j] == Bgr(0, 255, 0)
    ensures var bd := KeyBoundsAsWritten(Rgb(0, 255, 0), 10);
            var outs := ExpectedOutputs(frames, 30.0, Keying(bd.lower, bd.upper, 0, blur));
            && |outs| == 1
            && outs[0].name == FileName(0)
            && forall i, j :: Cell(frames[0], i, j) ==> outs[0].pixels[i][j].a == 255
  {
    var bd := KeyBoundsAsWritten(Rgb(0, 255, 0), 10);
    var key := Keying(bd.lower, bd.upper, 0, blur);
    OneSecondAtOneFps();
    FirstFrameSaved(frames, 30.0, key);
    SolidGreenToleranceTenAsWritten(frames[0], blur);
    forall i, j | Cell(frames[0], i, j)
      ensures Output(0, frames[0], key).pixels[i][j].a == 255
    {
      OutputAt(0, frames[0], key, i, j);
    }
  }

  // ------------------------------------------------------ process_video (ripper.py:77-159)

  /** What the video source reports and what it decodes. */
  datatype Video = Video(nativeFps: real, reportedFrames: int, frames: seq<Frame>)

  datatype RunError =
    | CannotOpen            // cap.isOpened() is false (ripper.py:92)
    | ZeroNativeFps         // total_frames / original_fps divides by zero (ripper.py:98)
    | BadColor(ColorError)  // parse_color_range raised (ripper.py:114)
    | ZeroDuration          // saved_count / duration divides by zero (ripper.py:159)

  /** `duration = total_frames / original_fps` is zero exactly when the
      reported frame count is. */
  lemma DurationIsZero(reportedFrames: int, nativeFps: real)
    requires nativeFps != 0.0
    ensures reportedFrames as real / nativeFps == 0.0 <==> reportedFrames == 0
  {
    assert (reportedFrames as real / nativeFps) * nativeFps == reportedFrames as real;
  }

  /** `process_video`. `video` is `None` when the file cannot be opened.
      The files written stay on disk whether or not the run then fails. */
  method ProcessVideo(video: Option<Video>, color: string, tolerance: int, fps: int, feather: int, blur: BlurKernel)
    returns (err: Option<RunError>, written: seq<Png>)
    requires 0 <= tolerance <= 255 && fps > 0
    ensures video.None? ==> err == Some(CannotOpen) && written == []
    ensures video.Some? && video.value.nativeFps == 0.0 ==> err == Some(ZeroNativeFps) && written == []
    ensures video.Some? && video.value.nativeFps != 0.0 && ParseColorRangeAsWritten(color, tolerance).Err? ==>
              err == Some(BadColor(ParseColorRangeAsWritten(color, tolerance).error)) && written == []
    ensures video.Some? && video.value.nativeFps != 0.0 && ParseColorRangeAsWritten(color, tolerance).Ok? ==>
              var bd := ParseColorRangeAsWritten(color, tolerance).value;
              written == ExpectedOutputs(video.value.frames, video.value.nativeFps / fps as real,
                                         Keying(bd.lower, bd.upper, feather, blur)) &&
              (err == Some(ZeroDuration) <==> video.value.reportedFrames == 0) &&
              (err.None? <==> video.value.reportedFrames != 0)
  {
    written := [];
    if video.None? {
      return Some(CannotOpen), written;
    }
    var v := video.value;
    if v.nativeFps == 0.0 {
      return Some(ZeroNativeFps), written;
    }
    var duration := v.reportedFrames as real / v.nativeFps;
    DurationIsZero(v.reportedFrames, v.nativeFps);
    var frameInterval := v.nativeFps / fps as real;
    var range := ParseColorRangeAsWritten(color, tolerance);
    if range.Err? {
      return Some(BadColor(range.error)), written;
    }
    var key := Keying(range.value.lower, range.value.upper, feather, blur);
    var frameCount, savedCount, nextFrameToSave;
    written, frameCount, savedCount, nextFrameToSave := SampleFrames(v.frames, frameInterval, key);
    assert written == ExpectedOutputs(v.frames, frameInterval, key);
    if duration == 0.0 {
      return Some(ZeroDuration), written;
    }
    err := None;
  }

  // ------------------------------------------------------------- main (ripper.py:193-221)

  datatype ArgError = VideoNotFound | ToleranceOutOfRange | FpsNotPositive

  /** The checks of `main`, in order; the first that fails decides. The
      feather radius is not checked, so a negative one is accepted. */
  function CheckArgs(videoExists: bool, tolerance: int, fps: int): (r: Option<ArgError>)
    ensures r.None? <==> videoExists && 0 <= tolerance <= 255 && fps > 0
    ensures r == Some(VideoNotFound) <==> !videoExists
    ensures r == Some(ToleranceOutOfRange) <==> videoExists && (tolerance < 0 || tolerance > 255)
    ensures r == Some(FpsNotPositive) <==> videoExists && 0 <= tolerance <= 255 && fps <= 0
  {
    if !videoExists then Some(VideoNotFound)
    else if tolerance < 0 || tolerance > 255 then Some(ToleranceOutOfRange)
    else if fps <= 0 then Some(FpsNotPositive)
    else None
  }

  /** The command-line arguments after argparse. */
  datatype Args = Args(color: string, tolerance: int, fps: int, feather: int)

  /** `main`: the exit status and the files it leaves behind. A failed
      check returns 1 before the video is opened, so nothing is written. */
  method Run(args: Args, videoExists: bool, video: Option<Video>, blur: BlurKernel)
    returns (exitCode: int, written: seq<Png>)
    ensures exitCode == 0 || exitCode == 1
    ensures CheckArgs(videoExists, args.tolerance, args.fps).Some? ==> exitCode == 1 && written == []
    ensures exitCode == 0 <==>
              && CheckArgs(videoExists, args.tolerance, args.fps).None?
              && video.Some? && video.value.nativeFps != 0.0
              && ParseColor(args.color).Ok?
              && video.value.reportedFrames != 0
    ensures CheckArgs(videoExists, args.tolerance, args.fps).None? &&
            (video.None? || video.value.nativeFps == 0.0 || ParseColor(args.color).Err?) ==>
              exitCode == 1 && written == []
    ensures CheckArgs(videoExists, args.tolerance, args.fps).None? &&
            video.Some? && video.value.nativeFps != 0.0 && ParseColor(args.color).Ok? ==>
              var bd := KeyBoundsAsWritten(ParseColor(args.color).value, args.tolerance);
              written == ExpectedOutputs(video.value.frames, video.value.nativeFps / args.fps as real,
                                         Keying(bd.lower, bd.upper, args.feather, blur))
  {
    if CheckArgs(videoExists, args.tolerance, args.fps).Some? {
      return 1, [];
    }
    var err;
    err, written := ProcessVideo(video, args.color, args.tolerance, args.fps, args.feather, blur);
    exitCode := if err.None? then 0 else 1;
  }
}
