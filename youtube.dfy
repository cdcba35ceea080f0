/** The transcript side of a YouTube video (util/youtube.py): the video id
    cut out of a watch URL, and the grouping of transcript lines into
    60-second windows. */
module YouTube {
  import opened Base
  import opened Strings

  /** One line of a fetched transcript. */
  datatype TranscriptLine = TranscriptLine(text: string, start: real, duration: real)

  function Min(a: int, b: int): int {
    if a <= b then a else b
  }

  // ---------------------------------------------------------------------
  // Video id

  /** `video_url.split("v=")[1][:11]`; a URL without "v=" has a single piece,
      so the index raises IndexError. */
  function VideoId(url: string): (r: Result<string>)
    ensures r.Err? <==> !Contains(url, "v=")
    ensures r.Err? ==> r.error == IndexError
    ensures r.Ok? ==> |r.value| <= 11
  {
    var parts := Split(url, "v=");
    SplitSingle(url, "v=");
    if |parts| < 2 then Err(IndexError)
    else Ok(parts[1][..Min(11, |parts[1]|)])
  }

  lemma VideoIdSeparatorBorderless()
    ensures Borderless("v=")
  {
    assert "v="[1..][0] != "v="[..1][0];
  }

  /** The id is the first (at most) 11 characters of the text between the
      first "v=" and the next "v=", or the end of the URL. */
  lemma VideoIdOf(pre: string, mid: string, post: string)
    requires !Contains(pre, "v=") && !Contains(mid, "v=")
    requires post == [] || OccursAt(post, 0, "v=")
    ensures VideoId(pre + "v=" + mid + post) == Ok(mid[..Min(11, |mid|)])
  {
    var sep := "v=";
    VideoIdSeparatorBorderless();
    var url := pre + sep + mid + post;
    var rest := mid + post;
    assert url == pre + (sep + rest);
    assert OccursAt(sep + rest, 0, sep) by {
      assert (sep + rest)[0..2] == sep;
    }
    FirstOccurrenceAtSeam(pre, sep + rest, sep);
    assert url[|pre| + 2..] == rest;
    assert Split(url, sep) == [url[..|pre|]] + Split(rest, sep);
    if post == [] {
      assert rest == mid;
      assert Split(rest, sep) == [mid];
    } else {
      FirstOccurrenceAtSeam(mid, post, sep);
      assert rest[..|mid|] == mid;
      assert Split(rest, sep)[0] == mid;
    }
  }

  // ---------------------------------------------------------------------
  // Windows

  /** The window a line starting at `start` seconds falls into: Python's
      `int(start // 60)`, the floor of `start / 60`. */
  function WindowKey(start: real): (k: int)
    ensures (k * 60) as real <= start < ((k + 1) * 60) as real
  {
    (start / 60.0).Floor
  }

  /** The window keys in the order of their first appearance in `lines`. */
  function WindowOrder(lines: seq<TranscriptLine>): seq<int> {
    if lines == [] then []
    else
      var prev := WindowOrder(lines[..|lines| - 1]);
      var k := WindowKey(lines[|lines| - 1].start);
      if k in prev then prev else prev + [k]
  }

  /** The texts of the lines of window `k`, in transcript order. */
  function WindowTexts(lines: seq<TranscriptLine>, k: int): seq<string> {
    if lines == [] then []
    else
      var last := lines[|lines| - 1];
      WindowTexts(lines[..|lines| - 1], k) + (if WindowKey(last.start) == k then [last.text] else [])
  }

  /** The positions of the lines of window `k`, in transcript order. */
  function WindowLines(lines: seq<TranscriptLine>, k: int): seq<nat> {
    if lines == [] then []
    else
      var last := lines[|lines| - 1];
      WindowLines(lines[..|lines| - 1], k) + (if WindowKey(last.start) == k then [|lines| - 1] else [])
  }

  /** The grouping `get_shorts_group` computes: the keys of the resulting
      dictionary in its insertion order, and the dictionary itself. */
  method GetShortsGroup(transcript: seq<TranscriptLine>) returns (keys: seq<int>, shorts: map<int, string>)
    ensures keys == WindowOrder(transcript)
    ensures forall k :: k in shorts <==> k in keys
    ensures forall k :: k in shorts ==> shorts[k] == Join(WindowTexts(transcript, k), " ")
    ensures forall k :: k in shorts <==> exists i :: 0 <= i < |transcript| && WindowKey(transcript[i].start) == k
    ensures forall p, q :: 0 <= p < q < |keys| ==> keys[p] != keys[q]
    ensures |keys| <= |transcript|
    ensures transcript == [] ==> shorts == map[]
  {
    var groups: map<int, seq<string>> := map[];
    keys := [];
    var i := 0;
    while i < |transcript|
      invariant 0 <= i <= |transcript|
      invariant keys == WindowOrder(transcript[..i])
      invariant forall k :: k in groups <==> k in keys
      invariant forall k :: k in groups ==> groups[k] == WindowTexts(transcript[..i], k)
    {
      var line := transcript[i];
      var key := WindowKey(line.start);
      assert transcript[..i + 1][..i] == transcript[..i];
      assert transcript[..i + 1][i] == line;
      if key !in groups {
        NoKeyNoTexts(transcript[..i], key);
        groups := groups[key := []];
        keys := keys + [key];
      }
      groups := groups[key := groups[key] + [line.text]];
      i := i + 1;
    }
    assert transcript[..i] == transcript;
    shorts := map k | k in groups :: Join(groups[k], " ");
    WindowOrderMembers(transcript);
    WindowOrderDistinct(transcript);
  }

  /** A key that never appears has no texts. */
  lemma {:induction false} NoKeyNoTexts(lines: seq<TranscriptLine>, k: int)
    requires k !in WindowOrder(lines)
    ensures WindowTexts(lines, k) == []
  {
    if lines != [] {
      var init := lines[..|lines| - 1];
      assert forall x :: x in WindowOrder(init) ==> x in WindowOrder(lines);
      NoKeyNoTexts(init, k);
    }
  }

  /** The key set is exactly the set of keys of the lines. */
  lemma {:induction false} WindowOrderMembers(lines: seq<TranscriptLine>)
    ensures forall k :: k in WindowOrder(lines) <==>
      exists i :: 0 <= i < |lines| && WindowKey(lines[i].start) == k
  {
    if lines != [] {
      var n := |lines| - 1;
      var init := lines[..n];
      WindowOrderMembers(init);
      forall k
        ensures k in WindowOrder(lines) <==> exists i :: 0 <= i < |lines| && WindowKey(lines[i].start) == k
      {
        if k in WindowOrder(lines) {
          if k in WindowOrder(init) {
            var i :| 0 <= i < |init| && WindowKey(init[i].start) == k;
            assert lines[i] == init[i];
          } else {
            assert WindowKey(lines[n].start) == k;
          }
        }
        if exists i :: 0 <= i < |lines| && WindowKey(lines[i].start) == k {
          var i :| 0 <= i < |lines| && WindowKey(lines[i].start) == k;
          if i < n {
            assert init[i] == lines[i];
          }
        }
      }
    }
  }

  /** Each key appears once, so there are at most as many keys as lines. */
  lemma {:induction false} WindowOrderDistinct(lines: seq<TranscriptLine>)
    ensures forall p, q :: 0 <= p < q < |WindowOrder(lines)| ==> WindowOrder(lines)[p] != WindowOrder(lines)[q]
    ensures |WindowOrder(lines)| <= |lines|
  {
    if lines != [] {
      WindowOrderDistinct(lines[..|lines| - 1]);
    }
  }

  /** Keys come in first-appearance order: for two keys, the earlier one
      has a line before every line of the later one. */
  ghost predicate InFirstAppearanceOrder(lines: seq<TranscriptLine>, o: seq<int>) {
    forall p, q, j ::
      0 <= p < q < |o| && 0 <= j < |lines| && WindowKey(lines[j].start) == o[q]
      ==> exists i :: 0 <= i < j && WindowKey(lines[i].start) == o[p]
  }

  lemma {:induction false} WindowOrderFirstAppearance(lines: seq<TranscriptLine>)
    ensures InFirstAppearanceOrder(lines, WindowOrder(lines))
  {
    if lines != [] {
      var n := |lines| - 1;
      var init := lines[..n];
      var o := WindowOrder(lines);
      var prev := WindowOrder(init);
      WindowOrderFirstAppearance(init);
      WindowOrderMembers(init);
      assert forall i :: 0 <= i < n ==> init[i] == lines[i];
      forall p, q, j |
        0 <= p < q < |o| && 0 <= j < |lines| && WindowKey(lines[j].start) == o[q]
        ensures exists i :: 0 <= i < j && WindowKey(lines[i].start) == o[p]
      {
        assert o[p] == prev[p];
        if q == |prev| {
          // o[q] is the key of the last line, which no earlier line has
          assert o[q] !in prev;
          assert j == n;
          assert prev[p] in prev;
          var i :| 0 <= i < |init| && WindowKey(init[i].start) == o[p];
          assert WindowKey(lines[i].start) == o[p];
        } else {
          assert o[q] == prev[q];
          if j < n {
            assert WindowKey(init[j].start) == prev[q];
            var i :| 0 <= i < j && WindowKey(init[i].start) == prev[p];
            assert WindowKey(lines[i].start) == o[p];
          } else {
            var j' :| 0 <= j' < |init| && WindowKey(init[j'].start) == prev[q];
            var i :| 0 <= i < j' && WindowKey(init[i].start) == prev[p];
            assert WindowKey(lines[i].start) == o[p];
          }
        }
      }
    }
  }

  /** Window `k` holds exactly the lines whose key is `k`, in transcript
      order, and its texts are theirs. */
  lemma {:induction false} WindowLinesSpec(lines: seq<TranscriptLine>, k: int)
    ensures forall i :: i in WindowLines(lines, k) <==> 0 <= i < |lines| && WindowKey(lines[i].start) == k
    ensures forall a, b :: 0 <= a < b < |WindowLines(lines, k)| ==> WindowLines(lines, k)[a] < WindowLines(lines, k)[b]
    ensures |WindowTexts(lines, k)| == |WindowLines(lines, k)|
    ensures forall j :: 0 <= j < |WindowLines(lines, k)| ==>
      WindowLines(lines, k)[j] < |lines| && WindowTexts(lines, k)[j] == lines[WindowLines(lines, k)[j]].text
  {
    if lines != [] {
      var n := |lines| - 1;
      var init := lines[..n];
      WindowLinesSpec(init, k);
      assert forall i :: 0 <= i < n ==> init[i] == lines[i];
    }
  }

  /** Every line is in the window of its own key and in no other. */
  lemma LineInOneWindow(lines: seq<TranscriptLine>, i: nat, k: int)
    requires i < |lines|
    ensures i in WindowLines(lines, k) <==> k == WindowKey(lines[i].start)
  {
    WindowLinesSpec(lines, k);
  }

  /** The grouping reads only the texts and start times: the `duration` of
      a line never changes it. */
  lemma {:induction false} DurationIrrelevant(t1: seq<TranscriptLine>, t2: seq<TranscriptLine>, k: int)
    requires |t1| == |t2|
    requires forall i :: 0 <= i < |t1| ==> t1[i].text == t2[i].text && t1[i].start == t2[i].start
    ensures WindowOrder(t1) == WindowOrder(t2)
    ensures WindowTexts(t1, k) == WindowTexts(t2, k)
  {
    if t1 != [] {
      var n := |t1| - 1;
      DurationIrrelevant(t1[..n], t2[..n], k);
    }
  }

  /** Start times are never negative in a fetched transcript, so no window
      key is negative; in particular -1 is never a key. */
  lemma WindowKeysNonNegative(lines: seq<TranscriptLine>)
    requires forall i :: 0 <= i < |lines| ==> lines[i].start >= 0.0
    ensures forall k :: k in WindowOrder(lines) ==> k >= 0
  {
    WindowOrderMembers(lines);
  }
}
