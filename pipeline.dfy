/** The selection glue of the main run (main.py): the map responses parsed
    into window indices, the reduce input built from the selected windows,
    the reduce response parsed, and the selected windows turned into padded
    time segments. The language-model calls are not modelled: their
    responses are arbitrary strings given as inputs. */
module Pipeline {
  import opened Base
  import opened Strings
  import opened Constants
  import YouTube

  // ---------------------------------------------------------------------
  // Parsing responses

  /** Token `i` is the first that `int` rejects. */
  ghost predicate FirstUnparsable(tokens: seq<string>, i: int) {
    && 0 <= i < |tokens|
    && ParseInt(tokens[i]).None?
    && forall j :: 0 <= j < i ==> ParseInt(tokens[j]).Some?
  }

  /** `list(map(int, tokens))`: every token converted, or the ValueError of
      the first token that is not an integer literal. */
  function ParseAll(tokens: seq<string>): Result<seq<int>> {
    if tokens == [] then Ok([])
    else
      match ParseInt(tokens[0])
      case None => Err(ValueError(tokens[0]))
      case Some(v) =>
        var rest := ParseAll(tokens[1..]);
        if rest.Err? then rest else Ok([v] + rest.value)
  }

  /** The list parses exactly when every token does; then each value is its
      token's; otherwise the error names the first token that does not. */
  lemma ParseAllSpec(tokens: seq<string>)
    ensures ParseAll(tokens).Ok? <==> forall t :: t in tokens ==> ParseInt(t).Some?
    ensures ParseAll(tokens).Ok? ==>
      && |ParseAll(tokens).value| == |tokens|
      && forall i :: 0 <= i < |tokens| ==> ParseInt(tokens[i]) == Some(ParseAll(tokens).value[i])
    ensures ParseAll(tokens).Err? ==> exists i :: FirstUnparsable(tokens, i) && ParseAll(tokens).error == ValueError(tokens[i])
  {
    ParseAllOk(tokens);
    ParseAllErr(tokens);
  }

  lemma {:induction false} ParseAllOk(tokens: seq<string>)
    ensures ParseAll(tokens).Ok? <==> forall t :: t in tokens ==> ParseInt(t).Some?
    ensures ParseAll(tokens).Ok? ==>
      && |ParseAll(tokens).value| == |tokens|
      && forall i :: 0 <= i < |tokens| ==> ParseInt(tokens[i]) == Some(ParseAll(tokens).value[i])
  {
    if tokens != [] {
      ParseAllOk(tokens[1..]);
      assert forall t :: t in tokens[1..] ==> t in tokens;
      assert forall j :: 1 <= j < |tokens| ==> tokens[j] == tokens[1..][j - 1];
    }
  }

  lemma {:induction false} ParseAllErr(tokens: seq<string>)
    ensures ParseAll(tokens).Err? ==> exists i :: FirstUnparsable(tokens, i) && ParseAll(tokens).error == ValueError(tokens[i])
  {
    if tokens != [] {
      ParseAllErr(tokens[1..]);
      if ParseInt(tokens[0]).Some? && ParseAll(tokens[1..]).Err? {
        var i :| FirstUnparsable(tokens[1..], i) && ParseAll(tokens[1..]).error == ValueError(tokens[1..][i]);
        FirstUnparsableShift(tokens, i);
      }
      if ParseInt(tokens[0]).None? {
        assert FirstUnparsable(tokens, 0);
      }
    }
  }

  lemma FirstUnparsableShift(tokens: seq<string>, i: int)
    requires tokens != [] && ParseInt(tokens[0]).Some? && FirstUnparsable(tokens[1..], i)
    ensures FirstUnparsable(tokens, i + 1) && tokens[i + 1] == tokens[1..][i]
  {
    assert forall j :: 1 <= j < i + 1 ==> tokens[j] == tokens[1..][j - 1];
  }

  /** The comma-separated tokens of one response: `response.split(",")`. */
  function Tokens(response: string): seq<string> {
    Split(response, ",")
  }

  /** One response parsed: `list(map(int, response.split(",")))`. */
  function ParseIndices(response: string): Result<seq<int>> {
    ParseAll(Tokens(response))
  }

  /** The tokens of all map responses, concatenated in response order. */
  function AllTokens(responses: seq<string>): seq<string> {
    if responses == [] then []
    else AllTokens(responses[..|responses| - 1]) + Tokens(responses[|responses| - 1])
  }

  /** Parsing a concatenation: the first list's error, else the second's,
      else the two results concatenated. */
  lemma {:induction false} ParseAllAppend(a: seq<string>, b: seq<string>)
    ensures ParseAll(a + b) ==
      if ParseAll(a).Err? then ParseAll(a)
      else if ParseAll(b).Err? then ParseAll(b)
      else Ok(ParseAll(a).value + ParseAll(b).value)
  {
    if a == [] {
      assert a + b == b;
      assert ParseAll(b).Ok? ==> [] + ParseAll(b).value == ParseAll(b).value;
    } else {
      ParseAllAppend(a[1..], b);
      assert (a + b)[0] == a[0];
      assert (a + b)[1..] == a[1..] + b;
      match ParseInt(a[0])
      case None =>
      case Some(v) =>
        if ParseAll(a[1..]).Ok? && ParseAll(b).Ok? {
          assert [v] + (ParseAll(a[1..]).value + ParseAll(b).value)
              == ([v] + ParseAll(a[1..]).value) + ParseAll(b).value;
        }
    }
  }

  /** The map loop: each response is split on "," and its tokens converted
      with `int`, and the results are appended in response order. A token
      that is not an integer raises ValueError, which ends the run. */
  method CollectMapResults(responses: seq<string>) returns (r: Result<seq<int>>)
    ensures r == ParseAll(AllTokens(responses))
  {
    var list: seq<int> := [];
    var i := 0;
    while i < |responses|
      invariant 0 <= i <= |responses|
      invariant ParseAll(AllTokens(responses[..i])) == Ok(list)
    {
      var parsed := ParseIndices(responses[i]);
      CollectStep(responses, i, list);
      if parsed.Err? {
        CollectAbort(responses, i);
        return Err(parsed.error);
      }
      list := list + parsed.value;
      i := i + 1;
    }
    assert responses[..i] == responses;
    return Ok(list);
  }

  /** One more response either raises or extends the list with its values. */
  lemma CollectStep(responses: seq<string>, i: nat, list: seq<int>)
    requires i < |responses|
    requires ParseAll(AllTokens(responses[..i])) == Ok(list)
    ensures ParseAll(AllTokens(responses[..i + 1])) ==
      if ParseIndices(responses[i]).Err? then ParseIndices(responses[i])
      else Ok(list + ParseIndices(responses[i]).value)
  {
    assert responses[..i + 1][..i] == responses[..i];
    assert AllTokens(responses[..i + 1]) == AllTokens(responses[..i]) + Tokens(responses[i]);
    ParseAllAppend(AllTokens(responses[..i]), Tokens(responses[i]));
  }

  /** An error in the first responses is the error of the whole list. */
  lemma CollectAbort(responses: seq<string>, i: nat)
    requires i < |responses|
    requires ParseAll(AllTokens(responses[..i + 1])).Err?
    ensures ParseAll(AllTokens(responses)) == ParseAll(AllTokens(responses[..i + 1]))
  {
    AllTokensAppend(responses[..i + 1], responses[i + 1..]);
    assert responses[..i + 1] + responses[i + 1..] == responses;
    ParseAllAppend(AllTokens(responses[..i + 1]), AllTokens(responses[i + 1..]));
  }

  lemma {:induction false} AllTokensAppend(a: seq<string>, b: seq<string>)
    ensures AllTokens(a + b) == AllTokens(a) + AllTokens(b)
    decreases |b|
  {
    if b == [] {
      assert a + b == a;
    } else {
      var n := |b| - 1;
      AllTokensAppend(a, b[..n]);
      LastOfAppend(a, b);
    }
  }

  lemma LastOfAppend(a: seq<string>, b: seq<string>)
    requires b != []
    ensures (a + b)[..|a + b| - 1] == a + b[..|b| - 1]
    ensures (a + b)[|a + b| - 1] == b[|b| - 1]
  {
  }

  /** The flattened map list keeps every token, in order: there is no
      filtering of -1 and no de-duplication. */
  lemma MapResultsKeepEverything(responses: seq<string>)
    requires ParseAll(AllTokens(responses)).Ok?
    ensures |ParseAll(AllTokens(responses)).value| == |AllTokens(responses)|
    ensures forall i :: 0 <= i < |AllTokens(responses)| ==>
      ParseInt(AllTokens(responses)[i]) == Some(ParseAll(AllTokens(responses)).value[i])
  {
    ParseAllSpec(AllTokens(responses));
  }

  /** The answer format the prompts ask for: indices printed and joined
      by commas. */
  function FormatIndices(xs: seq<int>): string {
    Join(seq(|xs|, i requires 0 <= i < |xs| => IntToString(xs[i])), ",")
  }

  /** A well-formed answer parses back to exactly the indices it lists,
      repeated and negative ones included, as long as no index has more
      digits than `int()` converts. */
  lemma FormatParseRoundTrip(xs: seq<int>)
    requires |xs| >= 1
    requires forall i :: 0 <= i < |xs| ==> |NatToString(Abs(xs[i]))| <= MaxStrDigits
    ensures ParseIndices(FormatIndices(xs)) == Ok(xs)
  {
    var parts := seq(|xs|, i requires 0 <= i < |xs| => IntToString(xs[i]));
    forall k | 0 <= k < |parts| ensures !Contains(parts[k], ",") {
      AbsentCharNoOccurrence(parts[k], ",", 0);
    }
    assert Borderless(",");
    SplitJoinInverse(parts, ",");
    ParseAllSpec(parts);
    forall i | 0 <= i < |parts| ensures ParseInt(parts[i]) == Some(xs[i]) {
      ParseIntRoundTrip(xs[i]);
    }
    ParseAllValues(parts, xs);
  }

  /** When every token parses to the matching value, the list parses to the values. */
  lemma {:induction false} ParseAllValues(tokens: seq<string>, xs: seq<int>)
    requires |tokens| == |xs|
    requires forall i :: 0 <= i < |tokens| ==> ParseInt(tokens[i]) == Some(xs[i])
    ensures ParseAll(tokens) == Ok(xs)
  {
    if tokens != [] {
      var rest, vs := tokens[1..], xs[1..];
      assert forall i :: 0 <= i < |rest| ==> rest[i] == tokens[i + 1] && vs[i] == xs[i + 1];
      ParseAllValues(rest, vs);
      assert ParseInt(tokens[0]) == Some(xs[0]);
      assert xs == [xs[0]] + xs[1..];
    }
  }

  /** `"-1,3,3"`: a sentinel and a repeated index both survive parsing. */
  lemma SentinelAndDuplicatesKept()
    ensures ParseIndices("-1,3,3") == Ok([-1, 3, 3])
  {
    assert NatToString(Abs(-1)) == "1" && NatToString(Abs(3)) == "3";
    FormatParseRoundTrip([-1, 3, 3]);
    FormatExample();
  }

  lemma FormatExample()
    ensures FormatIndices([-1, 3, 3]) == "-1,3,3"
  {
    var xs := [-1, 3, 3];
    assert IntToString(-1) == "-1" by { assert NatToString(1) == "1"; }
    assert IntToString(3) == "3";
    var parts := seq(|xs|, i requires 0 <= i < |xs| => IntToString(xs[i]));
    assert parts == ["-1", "3", "3"];
    assert parts[1..] == ["3", "3"];
    assert Join(["3", "3"], ",") == "3" + "," + Join(["3"], ",");
    assert Join(parts, ",") == "-1" + "," + Join(["3", "3"], ",");
  }

  /** An empty response is not an integer list: `int("")` raises. */
  lemma EmptyResponseRaises()
    ensures ParseIndices("") == Err(ValueError(""))
  {
    assert Tokens("") == [""];
  }

  // ---------------------------------------------------------------------
  // Reduce input

  /** Index `i` is the first whose window is missing from `shorts`. */
  ghost predicate FirstMissing(shorts: map<int, string>, indices: seq<int>, i: int) {
    && 0 <= i < |indices|
    && indices[i] !in shorts
    && forall j :: 0 <= j < i ==> indices[j] in shorts
  }

  /** `[shorts_group[idx] for idx in indices]`, or the KeyError of the
      first index that is not a window key. */
  function Lookups(shorts: map<int, string>, indices: seq<int>): (r: Result<seq<string>>)
    ensures r.Ok? <==> forall i :: 0 <= i < |indices| ==> indices[i] in shorts
    ensures r.Ok? ==> |r.value| == |indices| && forall i :: 0 <= i < |indices| ==> r.value[i] == shorts[indices[i]]
    ensures r.Err? ==> exists i :: FirstMissing(shorts, indices, i) && r.error == KeyError(indices[i])
  {
    if indices == [] then Ok([])
    else if indices[0] !in shorts then Err(KeyError(indices[0]))
    else
      var rest := Lookups(shorts, indices[1..]);
      assert forall j :: 1 <= j < |indices| ==> indices[j] == indices[1..][j - 1];
      if rest.Err? then Err(rest.error) else Ok([shorts[indices[0]]] + rest.value)
  }

  /** `"\n\n".join(shorts_group[idx] for idx in indices)`. */
  function ReduceInput(shorts: map<int, string>, indices: seq<int>): (r: Result<string>)
    ensures r.Ok? <==> forall i :: 0 <= i < |indices| ==> indices[i] in shorts
    ensures r.Ok? ==> r.value == Join(seq(|indices|, i requires 0 <= i < |indices| && indices[i] in shorts => shorts[indices[i]]), "\n\n")
    ensures r.Err? ==> exists i :: FirstMissing(shorts, indices, i) && r.error == KeyError(indices[i])
  {
    match Lookups(shorts, indices)
    case Err(e) => Err(e)
    case Ok(texts) =>
      assert texts == seq(|indices|, i requires 0 <= i < |indices| && indices[i] in shorts => shorts[indices[i]]);
      Ok(Join(texts, "\n\n"))
  }

  /** A sentinel -1 reaching the reduce input aborts the run when no
      window has a negative key, as with any real transcript. */
  lemma SentinelAborts(shorts: map<int, string>, indices: seq<int>)
    requires forall k :: k in shorts ==> k >= 0
    requires -1 in indices
    ensures ReduceInput(shorts, indices).Err?
  {
  }

  // ---------------------------------------------------------------------
  // Time segments

  /** The padded time range of window `idx`. */
  function SegmentOf(idx: int): (s: (int, int))
    ensures s.1 - s.0 == VIDEO_SEGMENT_LENGTH + 2 * CLIP_PADDING
    ensures s.0 + CLIP_PADDING == idx * VIDEO_SEGMENT_LENGTH
  {
    ((idx * VIDEO_SEGMENT_LENGTH) - CLIP_PADDING, ((idx + 1) * VIDEO_SEGMENT_LENGTH) + CLIP_PADDING)
  }

  /** `time_segments`: one padded range per selected index, in order. */
  function TimeSegments(indices: seq<int>): (r: seq<(int, int)>)
    ensures |r| == |indices|
    ensures forall i :: 0 <= i < |r| ==> r[i] == SegmentOf(indices[i])
  {
    seq(|indices|, i requires 0 <= i < |indices| => SegmentOf(indices[i]))
  }

  /** The window a segment was made from, read back from its start. */
  function WindowOfSegment(s: (int, int)): int {
    (s.0 + CLIP_PADDING) / VIDEO_SEGMENT_LENGTH
  }

  /** Every segment is 80 seconds long, and its window can be read back
      from it. */
  lemma SegmentRoundTrip(idx: int)
    ensures SegmentOf(idx).1 - SegmentOf(idx).0 == 80
    ensures WindowOfSegment(SegmentOf(idx)) == idx
  {
  }

  /** Each transcript line of window `idx` lies strictly inside the
      window's padded segment, 10 seconds or more from either end. */
  lemma LineInsideSegment(start: real, idx: int)
    requires YouTube.WindowKey(start) == idx
    ensures (SegmentOf(idx).0 + CLIP_PADDING) as real <= start < (SegmentOf(idx).1 - CLIP_PADDING) as real
  {
    var s := SegmentOf(idx);
    assert s.0 + CLIP_PADDING == idx * 60;
    assert s.1 - CLIP_PADDING == (idx + 1) * 60;
  }

  /** Index 2 gives (110, 190); index 0 gives (-10, 70), whose negative
      start is not clamped. */
  lemma SegmentExamples()
    ensures TimeSegments([2, 0]) == [(110, 190), (-10, 70)]
  {
  }

  // ---------------------------------------------------------------------
  // The run

  /** What the main run computes before downloading the video. */
  datatype Plan = Plan(
    mapResults: seq<int>,
    reduceInput: string,
    reduceResults: seq<int>,
    timeSegments: seq<(int, int)>)

  /** The run from the map responses to the time segments. `shorts` is the
      video's window dictionary as the run sees it; `mapResponses` and
      `reduceResponse` are what the language model answered. Any exception
      is printed and re-raised, so the run yields either a whole plan or the
      first error. */
  method PlanSegments(shorts: map<int, string>, mapResponses: seq<string>, reduceResponse: string)
    returns (r: Result<Plan>)
    ensures ParseAll(AllTokens(mapResponses)).Err? ==> r == Err(ParseAll(AllTokens(mapResponses)).error)
    ensures ParseAll(AllTokens(mapResponses)).Ok? ==>
      var m := ParseAll(AllTokens(mapResponses)).value;
      && (ReduceInput(shorts, m).Err? ==> r == Err(ReduceInput(shorts, m).error))
      && (ReduceInput(shorts, m).Ok? && ParseIndices(reduceResponse).Err? ==> r == Err(ParseIndices(reduceResponse).error))
      && (ReduceInput(shorts, m).Ok? && ParseIndices(reduceResponse).Ok? ==>
            r == Ok(Plan(m, ReduceInput(shorts, m).value, ParseIndices(reduceResponse).value,
                         TimeSegments(ParseIndices(reduceResponse).value))))
    ensures r.Ok? ==> |r.value.timeSegments| == |Tokens(reduceResponse)|
    ensures r.Ok? ==> forall i :: 0 <= i < |r.value.timeSegments| ==>
      ParseInt(Tokens(reduceResponse)[i]) == Some(WindowOfSegment(r.value.timeSegments[i]))
  {
    var mapResults := CollectMapResults(mapResponses);
    if mapResults.Err? {
      return Err(mapResults.error);
    }
    var concat := ReduceInput(shorts, mapResults.value);
    if concat.Err? {
      return Err(concat.error);
    }
    var reduceResults := ParseIndices(reduceResponse);
    if reduceResults.Err? {
      return Err(reduceResults.error);
    }
    ParseAllSpec(Tokens(reduceResponse));
    var segments := TimeSegments(reduceResults.value);
    forall i | 0 <= i < |segments| ensures WindowOfSegment(segments[i]) == reduceResults.value[i] {
      SegmentRoundTrip(reduceResults.value[i]);
    }
    r := Ok(Plan(mapResults.value, concat.value, reduceResults.value, segments));
  }
}
