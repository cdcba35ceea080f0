/** The moviepy clip extractor (util/video_processor.py): each requested
    range is first fitted to the video's length, an empty range is refused,
    the clip is written to a temporary file and then moved over the final
    one; any exception deletes the temporary file and is only printed.
    moviepy itself is not modelled: each clip write is given as what it
    left at the temporary path and whether it raised. The video's duration
    is taken in whole seconds. */
module MoviePy {
  import opened Base
  import opened Constants
  import opened Files
  import opened Clips
  import Pipeline

  /** The range `_process_clip` cuts: the start pulled back so that at
      least `MIN_CLIP_LENGTH` seconds remain before the end of the video,
      the end cut at the end of the video; a range left empty raises
      ValueError. */
  function ClampRange(startTime: int, endTime: int, duration: int): (r: Result<(int, int)>)
    ensures r.Err? <==> endTime <= startTime && endTime <= duration - MIN_CLIP_LENGTH
    ensures r.Err? ==> r.error == ValueError("Invalid time segment")
    ensures r.Ok? ==>
      var (startT, endT) := r.value;
      && startT <= startTime && startT <= duration - MIN_CLIP_LENGTH
      && (startT == startTime || startT == duration - MIN_CLIP_LENGTH)
      && endT <= endTime && endT <= duration
      && (endT == endTime || endT == duration)
      && startT < endT
    ensures r.Ok? && startTime <= duration - MIN_CLIP_LENGTH ==> r.value.0 == startTime
    ensures r.Ok? && endTime <= duration ==> r.value.1 == endTime
  {
    var startT := if startTime <= duration - MIN_CLIP_LENGTH then startTime else duration - MIN_CLIP_LENGTH;
    var endT := if endTime <= duration then endTime else duration;
    if startT >= endT then Err(ValueError("Invalid time segment")) else Ok((startT, endT))
  }

  /** A negative start is kept as it is whenever it lies more than ten
      seconds before the end: nothing raises it to 0. */
  lemma NegativeStartKept(startTime: int, endTime: int, duration: int)
    requires startTime < 0 && startTime < endTime && startTime <= duration - MIN_CLIP_LENGTH
    ensures ClampRange(startTime, endTime, duration).Ok?
    ensures ClampRange(startTime, endTime, duration).value.0 == startTime < 0
  {
  }

  /** A padded segment as `main.py` computes it spans 80 seconds, so the
      clamp would never refuse one, whatever the video's length. The main
      run itself cuts its clips with the ffmpeg extractor. */
  lemma PaddedSegmentsNeverRefused(idx: int, duration: int)
    ensures ClampRange(Pipeline.SegmentOf(idx).0, Pipeline.SegmentOf(idx).1, duration).Ok?
  {
    Pipeline.SegmentRoundTrip(idx);
  }

  /** One clip write: what moviepy left at the temporary path, if anything,
      and whether it raised (opening the video included). */
  datatype ClipRun = ClipRun(written: Option<Bytes>, raised: bool)

  /** The files after `_process_segment`: a refused range or an exception
      removes the temporary file; otherwise the temporary file, if there is
      one, becomes the final file. */
  function ClipStep(files: map<Path, Bytes>, dir: Path, segment: VideoSegment, duration: int, run: ClipRun): map<Path, Bytes> {
    var temp, final := TempPath(dir, segment.index), OutputPath(dir, segment.index);
    TempNeverFinal(dir, segment.index, segment.index);
    if ClampRange(segment.startTime, segment.endTime, duration).Err? then files - {temp}
    else
      var w := AfterWrite(files, temp, run.written);
      if run.raised then w - {temp}
      else if temp in w then Publish(w, temp, final)
      else w
  }

  /** A clip written without error is published: the final path holds what
      the temporary path held and the temporary file is gone. */
  lemma ClipPublishes(files: map<Path, Bytes>, dir: Path, segment: VideoSegment, duration: int, run: ClipRun)
    requires ClampRange(segment.startTime, segment.endTime, duration).Ok? && !run.raised
    requires run.written.Some? || TempPath(dir, segment.index) in files
    ensures var after := ClipStep(files, dir, segment, duration, run);
      && OutputPath(dir, segment.index) in after
      && after[OutputPath(dir, segment.index)] ==
           (if run.written.Some? then run.written.value else files[TempPath(dir, segment.index)])
      && TempPath(dir, segment.index) !in after
  {
    TempNeverFinal(dir, segment.index, segment.index);
  }

  /** With no temporary file and no exception nothing changes at all. */
  lemma NoTempNoChange(files: map<Path, Bytes>, dir: Path, segment: VideoSegment, duration: int, run: ClipRun)
    requires ClampRange(segment.startTime, segment.endTime, duration).Ok? && !run.raised
    requires run.written.None? && TempPath(dir, segment.index) !in files
    ensures ClipStep(files, dir, segment, duration, run) == files
  {
  }

  /** A refused range or an exception leaves the final path exactly as it
      was and removes the temporary file. */
  lemma ClipFailureKeepsFinal(files: map<Path, Bytes>, dir: Path, segment: VideoSegment, duration: int, run: ClipRun)
    requires ClampRange(segment.startTime, segment.endTime, duration).Err? || run.raised
    ensures var after := ClipStep(files, dir, segment, duration, run);
      && AgreeAt(after, files, OutputPath(dir, segment.index))
      && TempPath(dir, segment.index) !in after
  {
    TempNeverFinal(dir, segment.index, segment.index);
  }

  /** A refused range writes nothing: only a stale temporary file can go. */
  lemma RefusedWritesNothing(files: map<Path, Bytes>, dir: Path, segment: VideoSegment, duration: int, run: ClipRun)
    requires ClampRange(segment.startTime, segment.endTime, duration).Err?
    ensures ClipStep(files, dir, segment, duration, run) == files - {TempPath(dir, segment.index)}
  {
  }

  /** A segment changes no path but its own two. */
  lemma ClipFrame(files: map<Path, Bytes>, dir: Path, segment: VideoSegment, duration: int, run: ClipRun, p: Path)
    requires !OwnedBy(dir, p, segment.index)
    ensures AgreeAt(ClipStep(files, dir, segment, duration, run), files, p)
  {
  }

  /** What a segment leaves at its own paths depends only on what was at
      those paths before. */
  lemma ClipLocal(f1: map<Path, Bytes>, f2: map<Path, Bytes>, dir: Path, segment: VideoSegment, duration: int, run: ClipRun)
    requires AgreeAt(f1, f2, OutputPath(dir, segment.index)) && AgreeAt(f1, f2, TempPath(dir, segment.index))
    ensures AgreeAt(ClipStep(f1, dir, segment, duration, run), ClipStep(f2, dir, segment, duration, run), OutputPath(dir, segment.index))
    ensures AgreeAt(ClipStep(f1, dir, segment, duration, run), ClipStep(f2, dir, segment, duration, run), TempPath(dir, segment.index))
  {
    TempNeverFinal(dir, segment.index, segment.index);
  }

  /** Running the same segment with the same outcome twice leaves the files
      as one run does. */
  lemma ClipIdempotent(files: map<Path, Bytes>, dir: Path, segment: VideoSegment, duration: int, run: ClipRun)
    ensures ClipStep(ClipStep(files, dir, segment, duration, run), dir, segment, duration, run) == ClipStep(files, dir, segment, duration, run)
  {
    var temp, final := TempPath(dir, segment.index), OutputPath(dir, segment.index);
    TempNeverFinal(dir, segment.index, segment.index);
    var once := ClipStep(files, dir, segment, duration, run);
    var twice := ClipStep(once, dir, segment, duration, run);
    forall p ensures AgreeAt(twice, once, p) {
      if p != temp && p != final {
        ClipFrame(once, dir, segment, duration, run, p);
      }
    }
    assert forall p :: p in twice <==> p in once;
  }

  /** Segment `segment`'s two paths stand in `now` as they would after it
      ran alone on `before`. */
  ghost predicate ClipDone(now: map<Path, Bytes>, before: map<Path, Bytes>, dir: Path, segment: VideoSegment, duration: int, run: ClipRun) {
    && AgreeAt(now, ClipStep(before, dir, segment, duration, run), OutputPath(dir, segment.index))
    && AgreeAt(now, ClipStep(before, dir, segment, duration, run), TempPath(dir, segment.index))
  }

  class VideoProcessor {
    const inputPath: Path
    const outputDir: Path
    /** The video's `duration`, in whole seconds. */
    const duration: int
    const fs: FileSystem

    /** `output_dir` is taken as given; creating it is not modelled. */
    constructor (inputPath: Path, outputDir: Path, duration: int, fs: FileSystem)
      ensures this.inputPath == inputPath && this.outputDir == outputDir
      ensures this.duration == duration && this.fs == fs
    {
      this.inputPath := inputPath;
      this.outputDir := outputDir;
      this.duration := duration;
      this.fs := fs;
    }

    /** `_process_segment` with `_process_clip`: fit the range, let moviepy
        write the clip (`run`), publish it, and clean up after any
        exception. Returns the fitted range, or the error it raised.
        A video that cannot be opened is a run that raised and wrote
        nothing: the files end as the source leaves them, but the range
        returned is still the clamp of the segment, which the source never
        reaches in that case. */
    method ProcessSegment(segment: VideoSegment, run: ClipRun) returns (range: Result<(int, int)>)
      modifies fs
      ensures range == ClampRange(segment.startTime, segment.endTime, duration)
      ensures fs.files == ClipStep(old(fs.files), outputDir, segment, duration, run)
    {
      var outputPath := OutputPath(outputDir, segment.index);
      var tempPath := outputPath + ".temp.mp4";
      TempNeverFinal(outputDir, segment.index, segment.index);
      range := ClampRange(segment.startTime, segment.endTime, duration);
      var failed := range.Err?;
      if !failed {
        if run.written.Some? {
          fs.Write(tempPath, run.written.value);
        }
        failed := run.raised;
        if !failed && fs.Exists(tempPath) {
          if fs.Exists(outputPath) {
            fs.Remove(outputPath);
          }
          fs.Rename(tempPath, outputPath);
        }
      }
      if failed {
        // the exception is caught and printed
        if fs.Exists(tempPath) {
          fs.Remove(tempPath);
        }
      }
    }

    /** `process_segments`: number the time ranges by position and process
        each segment. Each segment's paths end as if it had run alone on the
        initial files, so neither order nor another segment's failure matters;
        no path outside the segments' own is touched. */
    method ProcessSegments(timeSegments: seq<(int, int)>, runs: seq<ClipRun>) returns (ranges: seq<Result<(int, int)>>)
      requires |runs| == |timeSegments|
      modifies fs
      ensures |ranges| == |timeSegments|
      ensures forall k :: 0 <= k < |timeSegments| ==> ranges[k] == ClampRange(timeSegments[k].0, timeSegments[k].1, duration)
      ensures forall k :: 0 <= k < |timeSegments| ==>
        ClipDone(fs.files, old(fs.files), outputDir, VideoSegment(timeSegments[k].0, timeSegments[k].1, k), duration, runs[k])
      ensures forall p :: Unowned(outputDir, p, |timeSegments|) ==> AgreeAt(fs.files, old(fs.files), p)
    {
      var segments := BuildSegments(timeSegments);
      assert forall k :: 0 <= k < |segments| ==> segments[k] == VideoSegment(timeSegments[k].0, timeSegments[k].1, k);
      ranges := [];
      var i := 0;
      while i < |segments|
        invariant 0 <= i <= |segments|
        invariant |ranges| == i
        invariant forall k :: 0 <= k < i ==> ranges[k] == ClampRange(segments[k].startTime, segments[k].endTime, duration)
        invariant forall k :: 0 <= k < i ==> ClipDone(fs.files, old(fs.files), outputDir, segments[k], duration, runs[k])
        invariant forall p :: Unowned(outputDir, p, i) ==> AgreeAt(fs.files, old(fs.files), p)
      {
        ghost var before := fs.files;
        var range := ProcessSegment(segments[i], runs[i]);
        ClipIsolation(old(fs.files), before, fs.files, outputDir, segments, duration, runs, i);
        ranges := ranges + [range];
        i := i + 1;
      }
    }
  }

  /** One step of `ProcessSegments` keeps its invariant: segment `i` ends
      as if alone, earlier segments and untouched paths are unaffected. */
  lemma ClipIsolation(initial: map<Path, Bytes>, before: map<Path, Bytes>, after: map<Path, Bytes>,
                      dir: Path, segments: seq<VideoSegment>, duration: int, runs: seq<ClipRun>, i: nat)
    requires i < |segments| <= |runs|
    requires forall k :: 0 <= k < |segments| ==> segments[k].index == k
    requires after == ClipStep(before, dir, segments[i], duration, runs[i])
    requires forall k :: 0 <= k < i ==> ClipDone(before, initial, dir, segments[k], duration, runs[k])
    requires forall p :: Unowned(dir, p, i) ==> AgreeAt(before, initial, p)
    ensures forall k :: 0 <= k <= i ==> ClipDone(after, initial, dir, segments[k], duration, runs[k])
    ensures forall p :: Unowned(dir, p, i + 1) ==> AgreeAt(after, initial, p)
  {
    var out, temp := OutputPath(dir, i), TempPath(dir, i);
    forall k | 0 <= k < i ensures !OwnedBy(dir, out, k) && !OwnedBy(dir, temp, k) {
      OwnersDisjoint(dir, out, i, k);
      OwnersDisjoint(dir, temp, i, k);
    }
    ClipLocal(before, initial, dir, segments[i], duration, runs[i]);
    forall k | 0 <= k < i ensures ClipDone(after, initial, dir, segments[k], duration, runs[k]) {
      OwnersDisjoint(dir, OutputPath(dir, k), k, i);
      OwnersDisjoint(dir, TempPath(dir, k), k, i);
      ClipFrame(before, dir, segments[i], duration, runs[i], OutputPath(dir, k));
      ClipFrame(before, dir, segments[i], duration, runs[i], TempPath(dir, k));
    }
    forall p | Unowned(dir, p, i + 1) ensures AgreeAt(after, initial, p) {
      assert !OwnedBy(dir, p, i);
      assert Unowned(dir, p, i);
      ClipFrame(before, dir, segments[i], duration, runs[i], p);
    }
  }
}
