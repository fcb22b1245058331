/** The server-sent-event stream `/query` returns: `generate_response`
    (rag/chromadb/edi_demo/app.py:84-113) turns the completion deltas of the
    model into `data:` frames, each ended by a blank line as section 9.2 of
    the WHATWG HTML Living Standard lays out an event stream.

    The completion is an input: the chunks it delivered, each a list of
    choices holding an optional `delta.content`, and the message of the
    exception that ended it, if one did. An exception raised by the
    `create` call itself is the case with no chunks. */
module EventStream {
  import opened Wrappers
  import opened PyStr

  /** The object `json.dumps` encodes: `{'content': ...}` or `{'error': ...}`. */
  datatype Payload = Content(text: string) | Error(message: string)

  datatype Frame = Data(payload: Payload) | Done

  const NoData := "No data received from OpenAI."

  /** `if choice.delta.content:` holds for a present, non-empty string. */
  predicate Truthy(d: Option<string>) {
    d.Some? && d.value != ""
  }

  /** The contents of one chunk's choices that are worth a frame, in order. */
  function NonEmpty(ds: seq<Option<string>>): (r: seq<string>)
    ensures forall k | 0 <= k < |r| :: r[k] != ""
    ensures |r| <= |ds|
  {
    if ds == [] then []
    else NonEmpty(ds[..|ds| - 1]) + (if Truthy(ds[|ds| - 1]) then [ds[|ds| - 1].value] else [])
  }

  /** The contents of all chunks worth a frame, in stream order. */
  function Deltas(chunks: seq<seq<Option<string>>>): (r: seq<string>)
    ensures forall k | 0 <= k < |r| :: r[k] != ""
  {
    if chunks == [] then []
    else Deltas(chunks[..|chunks| - 1]) + NonEmpty(chunks[|chunks| - 1])
  }

  lemma {:induction false} NonEmptyNone(ds: seq<Option<string>>)
    requires forall k | 0 <= k < |ds| :: !Truthy(ds[k])
    ensures NonEmpty(ds) == []
    decreases |ds|
  {
    if ds != [] {
      NonEmptyNone(ds[..|ds| - 1]);
    }
  }

  /** A content delta yields a frame: some chunk has a present, non-empty
      content exactly when the stream carries content. */
  lemma {:induction false} DeltasEmpty(chunks: seq<seq<Option<string>>>)
    ensures Deltas(chunks) == [] <==>
      forall i, j | 0 <= i < |chunks| && 0 <= j < |chunks[i]| :: !Truthy(chunks[i][j])
    decreases |chunks|
  {
    if chunks != [] {
      var init := chunks[..|chunks| - 1];
      var last := chunks[|chunks| - 1];
      DeltasEmpty(init);
      assert forall i | 0 <= i < |init| :: chunks[i] == init[i];
      if forall j | 0 <= j < |last| :: !Truthy(last[j]) {
        NonEmptyNone(last);
      } else {
        var j :| 0 <= j < |last| && Truthy(last[j]);
        NonEmptyHas(last, j);
      }
    }
  }

  lemma {:induction false} NonEmptyHas(ds: seq<Option<string>>, j: nat)
    requires j < |ds| && Truthy(ds[j])
    ensures NonEmpty(ds) != []
    decreases |ds|
  {
    if j < |ds| - 1 {
      NonEmptyHas(ds[..|ds| - 1], j);
    }
  }

  function ContentFrames(ts: seq<string>): (r: seq<Frame>)
    ensures |r| == |ts|
    ensures forall k | 0 <= k < |ts| :: r[k] == Data(Content(ts[k]))
  {
    seq(|ts|, k requires 0 <= k < |ts| => Data(Content(ts[k])))
  }

  /** The texts the content frames carry, in frame order. */
  function Contents(frames: seq<Frame>): seq<string> {
    if frames == [] then []
    else
      var head := if frames[0].Data? && frames[0].payload.Content? then [frames[0].payload.text] else [];
      head + Contents(frames[1..])
  }

  lemma {:induction false} ContentsAppend(a: seq<Frame>, b: seq<Frame>)
    ensures Contents(a + b) == Contents(a) + Contents(b)
    decreases |a|
  {
    if a == [] {
      assert a + b == b;
    } else {
      assert (a + b)[1..] == a[1..] + b;
      ContentsAppend(a[1..], b);
    }
  }

  lemma {:induction false} NoContents(fs: seq<Frame>)
    requires forall k | 0 <= k < |fs| :: !fs[k].Data? || !fs[k].payload.Content?
    ensures Contents(fs) == []
    decreases |fs|
  {
    if fs != [] {
      NoContents(fs[1..]);
    }
  }

  lemma ContentFramesSnoc(ts: seq<string>, t: string)
    ensures ContentFrames(ts + [t]) == ContentFrames(ts) + [Data(Content(t))]
  {
  }

  lemma {:induction false} ContentsOfContentFrames(ts: seq<string>)
    ensures Contents(ContentFrames(ts)) == ts
    decreases |ts|
  {
    if ts != [] {
      assert ContentFrames(ts)[1..] == ContentFrames(ts[1..]);
      ContentsOfContentFrames(ts[1..]);
    }
  }

  lemma NonEmptySnoc(ds: seq<Option<string>>, j: nat)
    requires j < |ds|
    ensures NonEmpty(ds[..j + 1]) == NonEmpty(ds[..j]) + (if Truthy(ds[j]) then [ds[j].value] else [])
  {
    assert ds[..j + 1][..j] == ds[..j];
    assert ds[..j + 1][j] == ds[j];
  }

  lemma DeltasSnoc(chunks: seq<seq<Option<string>>>, i: nat)
    requires i < |chunks|
    ensures Deltas(chunks[..i + 1]) == Deltas(chunks[..i]) + NonEmpty(chunks[i])
  {
    assert chunks[..i + 1][..i] == chunks[..i];
    assert chunks[..i + 1][i] == chunks[i];
  }

  /** One choice of the inner loop adds its frame, if it has content. */
  lemma ChoiceFrames(prefix: seq<string>, choices: seq<Option<string>>, j: nat)
    requires j < |choices|
    ensures ContentFrames(prefix + NonEmpty(choices[..j + 1]))
         == ContentFrames(prefix + NonEmpty(choices[..j]))
            + (if Truthy(choices[j]) then [Data(Content(choices[j].value))] else [])
  {
    var before := prefix + NonEmpty(choices[..j]);
    NonEmptySnoc(choices, j);
    if Truthy(choices[j]) {
      Assoc(prefix, NonEmpty(choices[..j]), [choices[j].value]);
      ContentFramesSnoc(before, choices[j].value);
    } else {
      assert NonEmpty(choices[..j + 1]) == NonEmpty(choices[..j]) + [];
      assert before + [] == before;
    }
  }

  /** The `for chunk ... for choice ...` loops of `generate_response`: the
      content frames in delta order, and `has_streamed_data`. */
  method StreamContent(chunks: seq<seq<Option<string>>>)
    returns (frames: seq<Frame>, hasStreamedData: bool)
    ensures frames == ContentFrames(Deltas(chunks))
    ensures hasStreamedData <==> Deltas(chunks) != []
  {
    frames := [];
    hasStreamedData := false;
    var i := 0;
    while i < |chunks|
      invariant 0 <= i <= |chunks|
      invariant frames == ContentFrames(Deltas(chunks[..i]))
      invariant hasStreamedData <==> frames != []
    {
      var choices := chunks[i];
      var j := 0;
      while j < |choices|
        invariant 0 <= j <= |choices|
        invariant frames == ContentFrames(Deltas(chunks[..i]) + NonEmpty(choices[..j]))
        invariant hasStreamedData <==> frames != []
      {
        ChoiceFrames(Deltas(chunks[..i]), choices, j);
        if Truthy(choices[j]) {
          frames := frames + [Data(Content(choices[j].value))];
          hasStreamedData := true;
        }
        j := j + 1;
      }
      assert choices[..j] == choices;
      DeltasSnoc(chunks, i);
      i := i + 1;
    }
    assert chunks[..i] == chunks;
  }

  /** The frames after the content: the error frame of the exception, or
      the "no data" frame when nothing streamed, then `[DONE]`. */
  function Closing(hasStreamedData: bool, raised: Option<string>): seq<Frame> {
    match raised
    case Some(message) => [Data(Error(message))]
    case None => (if hasStreamedData then [] else [Data(Error(NoData))]) + [Done]
  }

  lemma ClosingContents(hasStreamedData: bool, raised: Option<string>)
    ensures Contents(Closing(hasStreamedData, raised)) == []
  {
    var tail := Closing(hasStreamedData, raised);
    NoContents(tail);
  }

  /** The content frames come first and carry the deltas. */
  lemma FramesContent(ts: seq<string>, raised: Option<string>)
    ensures var frames := ContentFrames(ts) + Closing(ts != [], raised);
      && |ts| < |frames|
      && frames[..|ts|] == ContentFrames(ts)
      && Contents(frames) == ts
  {
    var content := ContentFrames(ts);
    var tail := Closing(ts != [], raised);
    assert (content + tail)[..|content|] == content;
    ContentsOfContentFrames(ts);
    ContentsAppend(content, tail);
    ClosingContents(ts != [], raised);
    assert ts + [] == ts;
  }

  /** How the stream ends. */
  lemma FramesEnd(ts: seq<string>, raised: Option<string>)
    ensures var frames := ContentFrames(ts) + Closing(ts != [], raised);
      && (raised.None? ==> (Data(Error(NoData)) in frames <==> ts == []))
      && (raised.None? ==> frames[|frames| - 1] == Done && Done !in frames[..|frames| - 1])
      && (raised.Some? ==> frames[|frames| - 1] == Data(Error(raised.value)) && Done !in frames)
  {
    var content := ContentFrames(ts);
    var tail := Closing(ts != [], raised);
    var frames := content + tail;
    assert frames[|frames| - 1] == tail[|tail| - 1];
    assert Done !in content;
    assert Data(Error(NoData)) !in content;
    if raised.None? {
      assert frames[..|frames| - 1] == content + tail[..|tail| - 1];
    }
  }

  /** The frames `generate_response` yields. One `data:` frame per present,
      non-empty delta, in order; on normal completion the "no data" error
      frame exactly when there was none, then one `[DONE]`; on an exception
      an error frame with its message last and no `[DONE]`. Nothing else is
      yielded: one closing frame, or two when the "no data" frame precedes
      the `[DONE]`. */
  method GenerateResponse(chunks: seq<seq<Option<string>>>, raised: Option<string>)
    returns (frames: seq<Frame>)
    ensures |frames| == |Deltas(chunks)| + (if raised.None? && Deltas(chunks) == [] then 2 else 1)
    ensures frames[..|Deltas(chunks)|] == ContentFrames(Deltas(chunks))
    ensures Contents(frames) == Deltas(chunks)
    ensures raised.None? ==> (Data(Error(NoData)) in frames <==> Deltas(chunks) == [])
    ensures raised.None? ==> frames[|frames| - 1] == Done && Done !in frames[..|frames| - 1]
    ensures raised.Some? ==> frames[|frames| - 1] == Data(Error(raised.value)) && Done !in frames
  {
    var content, hasStreamedData := StreamContent(chunks);
    frames := content + Closing(hasStreamedData, raised);
    FramesContent(Deltas(chunks), raised);
    FramesEnd(Deltas(chunks), raised);
  }

  /** One frame on the wire. `dumps` is `json.dumps`, left abstract. */
  function Render(f: Frame, dumps: Payload -> string): string {
    match f
    case Data(p) => "data: " + dumps(p) + "\n\n"
    case Done => "data: [DONE]\n\n"
  }

  /** The body of the `text/event-stream` response. */
  function Wire(frames: seq<Frame>, dumps: Payload -> string): string {
    if frames == [] then "" else Render(frames[0], dumps) + Wire(frames[1..], dumps)
  }

  /** What the wire format relies on from `json.dumps`: its output is one line
      (newlines inside strings are escaped), it is never the `[DONE]` marker
      (it opens with `{`), and `loads` decodes it. */
  ghost predicate JsonCodec(dumps: Payload -> string, loads: string -> Option<Payload>) {
    forall p :: '\n' !in dumps(p) && dumps(p) != "[DONE]" && loads(dumps(p)) == Some(p)
  }

  predicate IsNewline(c: char) {
    c == '\n'
  }

  /** Reads a stream of `data: <line>\n\n` events back into frames: each event
      is one `data` field ended by a blank line. */
  function Decode(t: string, loads: string -> Option<Payload>): Option<seq<Frame>>
    decreases |t|
  {
    if t == [] then Some([])
    else if !StartsWith(t, "data: ") then None
    else
      var e := FirstFrom(t, 6, IsNewline);
      if e + 2 > |t| || t[e + 1] != '\n' then None
      else
        var line := t[6..e];
        var frame := if line == "[DONE]" then Some(Done)
                     else match loads(line) { case Some(p) => Some(Data(p)) case None => None };
        match frame
        case None => None
        case Some(f) =>
          match Decode(t[e + 2..], loads)
          case None => None
          case Some(rest) => Some([f] + rest)
  }

  lemma DecodeFrame(f: Frame, rest: string, dumps: Payload -> string, loads: string -> Option<Payload>)
    requires JsonCodec(dumps, loads)
    ensures var t := Render(f, dumps) + rest;
      var e := FirstFrom(t, 6, IsNewline);
      && StartsWith(t, "data: ") && e + 2 <= |t| && t[e + 1] == '\n' && t[e + 2..] == rest
      && (t[6..e] == "[DONE]" <==> f.Done?)
      && (f.Data? ==> loads(t[6..e]) == Some(f.payload))
  {
    var x := if f.Done? then "[DONE]" else dumps(f.payload);
    assert Render(f, dumps) == "data: " + x + "\n\n";
    var t := Render(f, dumps) + rest;
    assert t == "data: " + x + "\n\n" + rest;
    assert forall k | 6 <= k < 6 + |x| :: t[k] == x[k - 6];
    assert '\n' !in x;
    FirstFromAt(t, 6, 6 + |x|, IsNewline);
    assert t[6..6 + |x|] == x;
    assert t[6 + |x| + 2..] == rest;
  }

  /** The stream decodes back to exactly the frames that were sent. */
  lemma {:induction false} DecodeWire(frames: seq<Frame>, dumps: Payload -> string, loads: string -> Option<Payload>)
    requires JsonCodec(dumps, loads)
    ensures Decode(Wire(frames, dumps), loads) == Some(frames)
    decreases |frames|
  {
    if frames != [] {
      var rest := Wire(frames[1..], dumps);
      var t := Wire(frames, dumps);
      assert t == Render(frames[0], dumps) + rest;
      DecodeFrame(frames[0], rest, dumps, loads);
      DecodeWire(frames[1..], dumps, loads);
      var e := FirstFrom(t, 6, IsNewline);
      assert t[e + 2..] == rest;
      assert frames == [frames[0]] + frames[1..];
    }
  }

  /** Different frame sequences give different streams. */
  lemma WireInjective(a: seq<Frame>, b: seq<Frame>, dumps: Payload -> string, loads: string -> Option<Payload>)
    requires JsonCodec(dumps, loads)
    requires Wire(a, dumps) == Wire(b, dumps)
    ensures a == b
  {
    DecodeWire(a, dumps, loads);
    DecodeWire(b, dumps, loads);
  }

  lemma {:induction false} WireAppend(a: seq<Frame>, b: seq<Frame>, dumps: Payload -> string)
    ensures Wire(a + b, dumps) == Wire(a, dumps) + Wire(b, dumps)
    decreases |a|
  {
    if a == [] {
      assert a + b == b;
    } else {
      assert (a + b)[1..] == a[1..] + b;
      WireAppend(a[1..], b, dumps);
    }
  }

  /** A stream that completed normally ends with the `[DONE]` event. */
  lemma WireEndsDone(frames: seq<Frame>, dumps: Payload -> string)
    requires frames != [] && frames[|frames| - 1] == Done
    ensures EndsWith(Wire(frames, dumps), "data: [DONE]\n\n")
  {
    var n := |frames| - 1;
    assert frames == frames[..n] + [Done];
    WireAppend(frames[..n], [Done], dumps);
    assert Wire([Done], dumps) == "data: [DONE]\n\n";
  }
}
