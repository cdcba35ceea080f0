/** What the two clip extractors (util/ffmpeg_processor.py and
    util/video_processor.py) share: the segment record, the numbering of
    the segments by position, and the per-segment output and temporary
    paths. */
module Clips {
  import opened Base
  import opened Strings
  import opened Files

  /** One clip to cut: its time range in seconds and its position. */
  datatype VideoSegment = VideoSegment(startTime: int, endTime: int, index: int)

  /** `process_segments`: one segment per time range, numbered by position,
      with the times copied unchanged. */
  method BuildSegments(timeSegments: seq<(int, int)>) returns (segments: seq<VideoSegment>)
    ensures |segments| == |timeSegments|
    ensures forall k :: 0 <= k < |segments| ==>
      && segments[k].index == k
      && segments[k].startTime == timeSegments[k].0
      && segments[k].endTime == timeSegments[k].1
  {
    segments := [];
    var idx := 0;
    while idx < |timeSegments|
      invariant 0 <= idx <= |timeSegments|
      invariant |segments| == idx
      invariant forall k :: 0 <= k < idx ==> segments[k] == VideoSegment(timeSegments[k].0, timeSegments[k].1, k)
    {
      var (startT, endT) := timeSegments[idx];
      segments := segments + [VideoSegment(startT, endT, idx)];
      idx := idx + 1;
    }
  }

  /** The directory part `os.path.join(dir, name)` puts before a relative
      `name`: a "/" is added unless `dir` is empty or already ends in one. */
  function DirPrefix(dir: Path): Path {
    if dir == [] || dir[|dir| - 1] == '/' then dir else dir + "/"
  }

  /** The stem shared by a segment's paths: the directory and `output_<index>`. */
  function Stem(dir: Path, index: int): Path {
    DirPrefix(dir) + "output_" + IntToString(index)
  }

  /** `os.path.join(output_dir, f"output_{index}.mp4")`. */
  function OutputPath(dir: Path, index: int): Path {
    DirPrefix(dir) + ("output_" + IntToString(index) + ".mp4")
  }

  /** `f"{output_path}.temp.mp4"`. */
  function TempPath(dir: Path, index: int): Path {
    OutputPath(dir, index) + ".temp.mp4"
  }

  /** Both paths of a segment are its stem followed by a suffix. */
  lemma PathsFromStem(dir: Path, index: int)
    ensures OutputPath(dir, index) == Stem(dir, index) + ".mp4"
    ensures TempPath(dir, index) == Stem(dir, index) + ".mp4.temp.mp4"
  {
    var p, a := DirPrefix(dir), IntToString(index);
    assert OutputPath(dir, index) == p + ("output_" + a + ".mp4") == (p + "output_" + a) + ".mp4";
    assert TempPath(dir, index) == (Stem(dir, index) + ".mp4") + ".temp.mp4" == Stem(dir, index) + ".mp4.temp.mp4";
  }

  /** `p` is one of the two paths of segment `index`. */
  predicate OwnedBy(dir: Path, p: Path, index: int) {
    p == OutputPath(dir, index) || p == TempPath(dir, index)
  }

  /** Two paths made of a stem and a suffix starting with "." have the
      same index and the same suffix when they are equal. */
  lemma StemTails(dir: Path, i: int, x: string, j: int, y: string)
    requires x != [] && x[0] == '.' && y != [] && y[0] == '.'
    requires Stem(dir, i) + x == Stem(dir, j) + y
    ensures i == j && x == y
  {
    var p := DirPrefix(dir) + "output_";
    var a, b := IntToString(i), IntToString(j);
    assert Stem(dir, i) + x == p + (a + x);
    assert Stem(dir, j) + y == p + (b + y);
    assert a + x == (p + (a + x))[|p|..] == (p + (b + y))[|p|..] == b + y;
    SplitAtFirst(a, x, b, y, '.');
    IntToStringInjective(i, j);
  }

  /** A temporary path is never a final path, whatever the two indices. */
  lemma TempNeverFinal(dir: Path, i: int, j: int)
    ensures TempPath(dir, i) != OutputPath(dir, j)
  {
    if TempPath(dir, i) == OutputPath(dir, j) {
      PathsFromStem(dir, i);
      PathsFromStem(dir, j);
      StemTails(dir, i, ".mp4.temp.mp4", j, ".mp4");
    }
  }

  /** Distinct segments get distinct final paths. */
  lemma OutputPathInjective(dir: Path, i: int, j: int)
    requires OutputPath(dir, i) == OutputPath(dir, j)
    ensures i == j
  {
    PathsFromStem(dir, i);
    PathsFromStem(dir, j);
    StemTails(dir, i, ".mp4", j, ".mp4");
  }

  /** Distinct segments get distinct temporary paths. */
  lemma TempPathInjective(dir: Path, i: int, j: int)
    requires TempPath(dir, i) == TempPath(dir, j)
    ensures i == j
  {
    PathsFromStem(dir, i);
    PathsFromStem(dir, j);
    StemTails(dir, i, ".mp4.temp.mp4", j, ".mp4.temp.mp4");
  }

  /** No path belongs to two segments. */
  lemma OwnersDisjoint(dir: Path, p: Path, i: int, j: int)
    requires i != j && OwnedBy(dir, p, i)
    ensures !OwnedBy(dir, p, j)
  {
    if OutputPath(dir, i) == OutputPath(dir, j) {
      OutputPathInjective(dir, i, j);
    }
    if TempPath(dir, i) == TempPath(dir, j) {
      TempPathInjective(dir, i, j);
    }
    TempNeverFinal(dir, i, j);
    TempNeverFinal(dir, j, i);
  }

  /** The files once the encoder has run: it creates or overwrites the
      temporary path when it writes something there. */
  function AfterWrite(files: map<Path, Bytes>, temp: Path, written: Option<Bytes>): map<Path, Bytes> {
    if written.Some? then files[temp := written.value] else files
  }

  /** `if os.path.exists(final): os.remove(final)` then
      `os.rename(temp, final)`: the temporary file becomes the final one. */
  function Publish(files: map<Path, Bytes>, temp: Path, final: Path): (after: map<Path, Bytes>)
    requires temp in files && temp != final
    ensures final in after && after[final] == files[temp] && temp !in after
    ensures forall p :: p != temp && p != final ==> AgreeAt(after, files, p)
  {
    (files - {temp})[final := files[temp]]
  }

  /** `p` belongs to none of the segments numbered below `n`. */
  predicate Unowned(dir: Path, p: Path, n: int) {
    forall k :: 0 <= k < n ==> !OwnedBy(dir, p, k)
  }
}
