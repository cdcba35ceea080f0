/** The ffmpeg clip extractor (util/ffmpeg_processor.py): for each segment
    it runs ffmpeg into a temporary file and, when ffmpeg succeeds, moves it
    over the segment's final file; on any failure it deletes the temporary
    file. ffmpeg itself is not modelled: each run is given as its exit
    status and the contents it left at the temporary path. */
module FFmpeg {
  import opened Base
  import opened Strings
  import opened Files
  import opened Clips

  /** One ffmpeg run: its exit status and what it wrote at the temporary
      path, if anything. A process that cannot be started counts as a
      failing run that wrote nothing. */
  datatype EncoderRun = EncoderRun(returnCode: int, written: Option<Bytes>)

  /** The ffmpeg argument list for `segment`: seek to the start, read
      `end - start` seconds, re-encode, and write to `temp`. */
  function Command(inputPath: Path, segment: VideoSegment, temp: Path): seq<string> {
    var duration := segment.endTime - segment.startTime;
    ["ffmpeg", "-y", "-ss", IntToString(segment.startTime), "-i", inputPath, "-t", IntToString(duration)]
    + EncodeOptions + [temp]
  }

  /** The encoding options, the same for every segment. */
  const EncodeOptions: seq<string> := [
    "-c:v", "libx264",
    "-c:a", "aac",
    "-preset", "ultrafast",
    "-crf", "23",
    "-avoid_negative_ts", "make_zero",
    "-async", "1"]

  /** The command seeks to the segment's start (`-ss`), reads the segment's
      length (`-t`) from the input file (`-i`), and writes the temporary path,
      its last argument. */
  lemma CommandArguments(inputPath: Path, segment: VideoSegment, temp: Path)
    ensures var cmd := Command(inputPath, segment, temp);
      && |cmd| == 21
      && cmd[2] == "-ss" && ParseLiteral(cmd[3]) == Some(segment.startTime)
      && cmd[4] == "-i" && cmd[5] == inputPath
      && cmd[6] == "-t" && ParseLiteral(cmd[7]) == Some(segment.endTime - segment.startTime)
      && cmd[20] == temp
  {
    var cmd := Command(inputPath, segment, temp);
    ReadsBack(cmd, 3, segment.startTime);
    ReadsBack(cmd, 7, segment.endTime - segment.startTime);
  }

  /** A number printed into an argument list is a decimal literal denoting it. */
  lemma ReadsBack(cmd: seq<string>, k: nat, n: int)
    requires k < |cmd| && cmd[k] == IntToString(n)
    ensures ParseLiteral(cmd[k]) == Some(n)
  {
    LiteralRoundTrip(n);
  }

  /** Only the start, the input, the duration and the temporary path vary
      between commands; every other argument is fixed. */
  lemma CommandFixedArguments(in1: Path, s1: VideoSegment, t1: Path, in2: Path, s2: VideoSegment, t2: Path)
    ensures forall k :: 0 <= k < 21 && k != 3 && k != 5 && k != 7 && k != 20 ==>
      Command(in1, s1, t1)[k] == Command(in2, s2, t2)[k]
  {
  }

  /** Two commands are equal exactly when they agree on the input, the
      start, the duration and the temporary path. */
  lemma CommandInjective(in1: Path, s1: VideoSegment, t1: Path, in2: Path, s2: VideoSegment, t2: Path)
    ensures Command(in1, s1, t1) == Command(in2, s2, t2) <==>
      && in1 == in2 && t1 == t2
      && s1.startTime == s2.startTime
      && s1.endTime - s1.startTime == s2.endTime - s2.startTime
  {
    var c1, c2 := Command(in1, s1, t1), Command(in2, s2, t2);
    if c1 == c2 {
      assert c1[3] == IntToString(s1.startTime) && c2[3] == IntToString(s2.startTime);
      assert c1[7] == IntToString(s1.endTime - s1.startTime) && c2[7] == IntToString(s2.endTime - s2.startTime);
      assert c1[5] == in1 && c2[5] == in2 && c1[20] == t1 && c2[20] == t2;
      IntToStringInjective(s1.startTime, s2.startTime);
      IntToStringInjective(s1.endTime - s1.startTime, s2.endTime - s2.startTime);
    }
  }

  /** The segment is published: ffmpeg exited with 0 and the temporary file exists. */
  predicate Publishes(files: map<Path, Bytes>, dir: Path, segment: VideoSegment, run: EncoderRun) {
    run.returnCode == 0 && TempPath(dir, segment.index) in AfterWrite(files, TempPath(dir, segment.index), run.written)
  }

  /** The files after `_process_segment`, ffmpeg having run with `-y`: on
      success the temporary file has become the final one; otherwise the
      temporary file is gone. */
  function SegmentStep(files: map<Path, Bytes>, dir: Path, segment: VideoSegment, run: EncoderRun): map<Path, Bytes> {
    var temp, final := TempPath(dir, segment.index), OutputPath(dir, segment.index);
    var w := AfterWrite(files, temp, run.written);
    TempNeverFinal(dir, segment.index, segment.index);
    if Publishes(files, dir, segment, run) then Publish(w, temp, final) else w - {temp}
  }

  /** On success the final path holds what the temporary path held, any
      earlier final file is replaced, and the temporary file is gone. */
  lemma PublishReplacesFinal(files: map<Path, Bytes>, dir: Path, segment: VideoSegment, run: EncoderRun)
    requires Publishes(files, dir, segment, run)
    ensures var after := SegmentStep(files, dir, segment, run);
      && OutputPath(dir, segment.index) in after
      && after[OutputPath(dir, segment.index)] ==
           (if run.written.Some? then run.written.value else files[TempPath(dir, segment.index)])
      && TempPath(dir, segment.index) !in after
  {
  }

  /** On failure the temporary file is gone and the final path is exactly
      as it was. */
  lemma FailureKeepsFinal(files: map<Path, Bytes>, dir: Path, segment: VideoSegment, run: EncoderRun)
    requires !Publishes(files, dir, segment, run)
    ensures var after := SegmentStep(files, dir, segment, run);
      && AgreeAt(after, files, OutputPath(dir, segment.index))
      && TempPath(dir, segment.index) !in after
  {
    TempNeverFinal(dir, segment.index, segment.index);
  }

  /** A segment changes no path but its own two. */
  lemma SegmentFrame(files: map<Path, Bytes>, dir: Path, segment: VideoSegment, run: EncoderRun, p: Path)
    requires !OwnedBy(dir, p, segment.index)
    ensures AgreeAt(SegmentStep(files, dir, segment, run), files, p)
  {
  }

  /** What a segment leaves at its own paths depends only on what was at
      those paths before. */
  lemma SegmentLocal(f1: map<Path, Bytes>, f2: map<Path, Bytes>, dir: Path, segment: VideoSegment, run: EncoderRun)
    requires AgreeAt(f1, f2, OutputPath(dir, segment.index)) && AgreeAt(f1, f2, TempPath(dir, segment.index))
    ensures AgreeAt(SegmentStep(f1, dir, segment, run), SegmentStep(f2, dir, segment, run), OutputPath(dir, segment.index))
    ensures AgreeAt(SegmentStep(f1, dir, segment, run), SegmentStep(f2, dir, segment, run), TempPath(dir, segment.index))
  {
    TempNeverFinal(dir, segment.index, segment.index);
  }

  /** Running the same segment with the same outcome twice leaves the files
      as one run does. */
  lemma SegmentIdempotent(files: map<Path, Bytes>, dir: Path, segment: VideoSegment, run: EncoderRun)
    ensures SegmentStep(SegmentStep(files, dir, segment, run), dir, segment, run) == SegmentStep(files, dir, segment, run)
  {
    var temp, final := TempPath(dir, segment.index), OutputPath(dir, segment.index);
    TempNeverFinal(dir, segment.index, segment.index);
    var once := SegmentStep(files, dir, segment, run);
    var twice := SegmentStep(once, dir, segment, run);
    assert temp !in once;
    forall p ensures AgreeAt(twice, once, p) {
      if p != temp && p != final {
        SegmentFrame(once, dir, segment, run, p);
      }
    }
    assert forall p :: p in twice <==> p in once;
  }

  /** Segment `segment`'s two paths stand in `now` as they would after it
      ran alone on `before`. */
  ghost predicate SegmentDone(now: map<Path, Bytes>, before: map<Path, Bytes>, dir: Path, segment: VideoSegment, run: EncoderRun) {
    && AgreeAt(now, SegmentStep(before, dir, segment, run), OutputPath(dir, segment.index))
    && AgreeAt(now, SegmentStep(before, dir, segment, run), TempPath(dir, segment.index))
  }

  class FFmpegProcessor {
    const inputPath: Path
    const outputDir: Path
    const fs: FileSystem

    /** `output_dir` is taken as given; creating it is not modelled. */
    constructor (inputPath: Path, outputDir: Path, fs: FileSystem)
      ensures this.inputPath == inputPath && this.outputDir == outputDir && this.fs == fs
    {
      this.inputPath := inputPath;
      this.outputDir := outputDir;
      this.fs := fs;
    }

    /** `_process_segment`: build the paths and the command, let ffmpeg run
        (`run`), then publish or clean up. Returns the command issued. */
    method ProcessSegment(segment: VideoSegment, run: EncoderRun) returns (command: seq<string>)
      modifies fs
      ensures command == Command(inputPath, segment, TempPath(outputDir, segment.index))
      ensures fs.files == SegmentStep(old(fs.files), outputDir, segment, run)
    {
      var outputPath := OutputPath(outputDir, segment.index);
      var tempPath := outputPath + ".temp.mp4";
      TempNeverFinal(outputDir, segment.index, segment.index);
      command := Command(inputPath, segment, tempPath);
      if run.written.Some? {
        fs.Write(tempPath, run.written.value);
      }
      if run.returnCode == 0 && fs.Exists(tempPath) {
        if fs.Exists(outputPath) {
          fs.Remove(outputPath);
        }
        fs.Rename(tempPath, outputPath);
      } else {
        // the RuntimeError raised here is caught and printed
        if fs.Exists(tempPath) {
          fs.Remove(tempPath);
        }
      }
    }

    /** `process_segments`: number the time ranges by position and process
        each segment. Each segment's paths end as if it had run alone on the
        initial files, so neither order nor another segment's failure matters;
        no path outside the segments' own is touched. */
    method ProcessSegments(timeSegments: seq<(int, int)>, runs: seq<EncoderRun>) returns (commands: seq<seq<string>>)
      requires |runs| == |timeSegments|
      modifies fs
      ensures |commands| == |timeSegments|
      ensures forall k :: 0 <= k < |timeSegments| ==>
        commands[k] == Command(inputPath, VideoSegment(timeSegments[k].0, timeSegments[k].1, k), TempPath(outputDir, k))
      ensures forall k :: 0 <= k < |timeSegments| ==>
        SegmentDone(fs.files, old(fs.files), outputDir, VideoSegment(timeSegments[k].0, timeSegments[k].1, k), runs[k])
      ensures forall p :: Unowned(outputDir, p, |timeSegments|) ==> AgreeAt(fs.files, old(fs.files), p)
    {
      var segments := BuildSegments(timeSegments);
      assert forall k :: 0 <= k < |segments| ==> segments[k] == VideoSegment(timeSegments[k].0, timeSegments[k].1, k);
      commands := [];
      var i := 0;
      while i < |segments|
        invariant 0 <= i <= |segments|
        invariant |commands| == i
        invariant Issued(commands, inputPath, outputDir, segments)
        invariant forall k :: 0 <= k < i ==> SegmentDone(fs.files, old(fs.files), outputDir, segments[k], runs[k])
        invariant forall p :: Unowned(outputDir, p, i) ==> AgreeAt(fs.files, old(fs.files), p)
      {
        ghost var before := fs.files;
        var command := ProcessSegment(segments[i], runs[i]);
        Isolation(old(fs.files), before, fs.files, outputDir, segments, runs, i);
        IssueNext(commands, command, inputPath, outputDir, segments);
        commands := commands + [command];
        i := i + 1;
      }
      IssuedAll(commands, inputPath, outputDir, segments, timeSegments);
    }
  }

  /** `commands` are the commands of the first segments, in order. */
  ghost predicate Issued(commands: seq<seq<string>>, inputPath: Path, dir: Path, segments: seq<VideoSegment>) {
    && |commands| <= |segments|
    && forall k :: 0 <= k < |commands| ==> commands[k] == Command(inputPath, segments[k], TempPath(dir, k))
  }

  /** Issuing the next segment's command extends the issued list. */
  lemma IssueNext(commands: seq<seq<string>>, command: seq<string>, inputPath: Path, dir: Path, segments: seq<VideoSegment>)
    requires Issued(commands, inputPath, dir, segments) && |commands| < |segments|
    requires command == Command(inputPath, segments[|commands|], TempPath(dir, |commands|))
    ensures Issued(commands + [command], inputPath, dir, segments)
  {
  }

  /** Once every segment is issued, command `k` is that of the `k`-th time range. */
  lemma IssuedAll(commands: seq<seq<string>>, inputPath: Path, dir: Path, segments: seq<VideoSegment>, timeSegments: seq<(int, int)>)
    requires Issued(commands, inputPath, dir, segments) && |commands| == |segments| == |timeSegments|
    requires forall k :: 0 <= k < |segments| ==> segments[k] == VideoSegment(timeSegments[k].0, timeSegments[k].1, k)
    ensures forall k :: 0 <= k < |timeSegments| ==>
      commands[k] == Command(inputPath, VideoSegment(timeSegments[k].0, timeSegments[k].1, k), TempPath(dir, k))
  {
  }

  /** One step of `ProcessSegments` keeps its invariant: segment `i` ends
      as if alone, earlier segments and untouched paths are unaffected. */
  lemma Isolation(initial: map<Path, Bytes>, before: map<Path, Bytes>, after: map<Path, Bytes>,
                  dir: Path, segments: seq<VideoSegment>, runs: seq<EncoderRun>, i: nat)
    requires i < |segments| <= |runs|
    requires forall k :: 0 <= k < |segments| ==> segments[k].index == k
    requires after == SegmentStep(before, dir, segments[i], runs[i])
    requires forall k :: 0 <= k < i ==> SegmentDone(before, initial, dir, segments[k], runs[k])
    requires forall p :: Unowned(dir, p, i) ==> AgreeAt(before, initial, p)
    ensures forall k :: 0 <= k <= i ==> SegmentDone(after, initial, dir, segments[k], runs[k])
    ensures forall p :: Unowned(dir, p, i + 1) ==> AgreeAt(after, initial, p)
  {
    var out, temp := OutputPath(dir, i), TempPath(dir, i);
    forall k | 0 <= k < i ensures !OwnedBy(dir, out, k) && !OwnedBy(dir, temp, k) {
      OwnersDisjoint(dir, out, i, k);
      OwnersDisjoint(dir, temp, i, k);
    }
    SegmentLocal(before, initial, dir, segments[i], runs[i]);
    forall k | 0 <= k < i ensures SegmentDone(after, initial, dir, segments[k], runs[k]) {
      OwnersDisjoint(dir, OutputPath(dir, k), k, i);
      OwnersDisjoint(dir, TempPath(dir, k), k, i);
      SegmentFrame(before, dir, segments[i], runs[i], OutputPath(dir, k));
      SegmentFrame(before, dir, segments[i], runs[i], TempPath(dir, k));
    }
    forall p | Unowned(dir, p, i + 1) ensures AgreeAt(after, initial, p) {
      assert !OwnedBy(dir, p, i);
      assert Unowned(dir, p, i);
      SegmentFrame(before, dir, segments[i], runs[i], p);
    }
  }
}
