/** The query form of the web client
    (rag/chromadb/edi_demo/chroma-frontend/src/App.js:12-70): what
    `handleQuerySubmit` does to the two pieces of state the page shows,
    `response` and `isLoading`, for a given fetch outcome and a given
    sequence of results of `reader.read()`. Chunks are taken as already
    decoded text; the network, `TextDecoder` and React are outside the
    model. */
module Client {
  import opened Wrappers
  import opened PyStr
  import EventStream

  /** What the page shows. */
  datatype View = View(response: string, isLoading: bool)

  /** The page before any query. */
  const Initial := View("", false)

  /** What a submitted query shows while the request is in flight. */
  const Submitted := View("", true)

  const ErrorText := "Error: Unable to fetch the response. Please check the backend."

  /** How `fetch` settles: it rejects, or it yields a response whose `ok`
      flag says whether the status was 2xx. */
  datatype FetchOutcome = NetworkError | Fetched(ok: bool)

  /** One `reader.read()`: a chunk, possibly without a value, with the
      `done` flag, or a rejection. */
  datatype ReadResult = Chunk(value: Option<string>, done: bool) | ReadFailed

  /** How far the handler got: it finished, having awaited `consumed`
      reads, or it still awaits a read that has not come. */
  datatype Progress = Finished(view: View, consumed: nat) | Pending(view: View)

  /** A read after which the loop does not read again. */
  predicate Stops(r: ReadResult) {
    r.ReadFailed? || r.done
  }

  /** No read of `rs` stops the loop. */
  predicate NoStop(rs: seq<ReadResult>) {
    forall m | 0 <= m < |rs| :: !Stops(rs[m])
  }

  /** Read `j` is the first to stop the loop. */
  predicate FirstStop(rs: seq<ReadResult>, j: nat) {
    j < |rs| && Stops(rs[j]) && forall m | 0 <= m < j :: !Stops(rs[m])
  }

  /** The text a read appends: its value, or nothing when it has none. */
  function Value(r: ReadResult): string {
    if r.Chunk? && r.value.Some? then r.value.value else ""
  }

  /** Everything the reads deliver, in order. */
  function Received(rs: seq<ReadResult>): string {
    if rs == [] then "" else Value(rs[0]) + Received(rs[1..])
  }

  /** The `while (!done)` loop, from the response so far. */
  function Loop(resp: string, rs: seq<ReadResult>): Progress
    decreases |rs|
  {
    if rs == [] then Pending(View(resp, true))
    else
      match rs[0]
      case ReadFailed => Finished(View(ErrorText, false), 1)
      case Chunk(_, done) =>
        var resp' := resp + Value(rs[0]);
        if done then Finished(View(resp', false), 1)
        else
          match Loop(resp', rs[1..])
          case Finished(w, n) => Finished(w, n + 1)
          case Pending(w) => Pending(w)
  }

  /** The whole handler once the form is submitted: the response is
      cleared, the request sent, and the body read; any error replaces
      the response, and `isLoading` drops when the handler ends. A failed
      request shows the error text without reading the body; the handler
      still awaits a read exactly when the request succeeded and no read
      has stopped the loop; and it has finished exactly when the page is
      no longer loading. */
  function Handle(outcome: FetchOutcome, rs: seq<ReadResult>): (r: Progress)
    ensures outcome != Fetched(true) ==> r == Finished(View(ErrorText, false), 0)
    ensures r.Pending? <==> outcome == Fetched(true) && NoStop(rs)
    ensures r.Finished? <==> !r.view.isLoading
  {
    LoopIdle(Submitted.response, rs);
    LoopPending(Submitted.response, rs);
    match outcome
    case NetworkError => Finished(View(ErrorText, false), 0)
    case Fetched(ok) => if !ok then Finished(View(ErrorText, false), 0) else Loop(Submitted.response, rs)
  }

  /** Pressing the button: nothing happens while it is disabled. */
  function Press(v: View, outcome: FetchOutcome, rs: seq<ReadResult>): (r: Option<Progress>)
    ensures r.None? <==> v.isLoading
    ensures r.Some? ==> r.value == Handle(outcome, rs)
  {
    if v.isLoading then None else Some(Handle(outcome, rs))
  }

  /** A submit on an idle page starts the handler whatever the outcome.
      Until the first read comes back the page shows the cleared response
      and is loading, or shows the error text when the request failed;
      while it keeps loading it shows only what the reads delivered, never
      the response shown before the submit. */
  lemma InFlight(v: View, outcome: FetchOutcome, rs: seq<ReadResult>)
    requires !v.isLoading
    ensures Press(v, outcome, rs) == Some(Handle(outcome, rs))
    ensures Press(v, outcome, []) ==
      Some(if outcome == Fetched(true) then Pending(View("", true)) else Finished(View(ErrorText, false), 0))
    ensures Handle(outcome, rs).Pending? ==> Handle(outcome, rs).view == View(Received(rs), true)
  {
    if Handle(outcome, rs).Pending? {
      LoopRuns(Submitted.response, rs);
      assert Submitted.response + Received(rs) == Received(rs);
    }
  }

  /** The label of the button. */
  function Label(v: View): (r: string)
    ensures r == "Loading..." <==> v.isLoading
  {
    if v.isLoading then "Loading..." else "Search"
  }

  lemma {:induction false} ReceivedAppend(a: seq<ReadResult>, b: seq<ReadResult>)
    ensures Received(a + b) == Received(a) + Received(b)
    decreases |a|
  {
    if a == [] {
      assert a + b == b;
    } else {
      assert (a + b)[1..] == a[1..] + b;
      ReceivedAppend(a[1..], b);
    }
  }

  /** A read without a value adds nothing to the response. */
  lemma SkipEmpty(a: seq<ReadResult>, done: bool, b: seq<ReadResult>)
    ensures Received(a + [Chunk(None, done)] + b) == Received(a) + Received(b)
  {
    var c := [Chunk(None, done)];
    ReceivedAppend(a + c, b);
    ReceivedAppend(a, c);
    assert Received(c) == "" + Received(c[1..]);
    assert Received(a) + "" == Received(a);
  }

  /** While no read stops the loop, the page keeps loading and shows
      everything received so far. */
  lemma {:induction false} LoopRuns(resp: string, rs: seq<ReadResult>)
    requires NoStop(rs)
    ensures Loop(resp, rs) == Pending(View(resp + Received(rs), true))
    decreases |rs|
  {
    if rs != [] {
      LoopRuns(resp + Value(rs[0]), rs[1..]);
      assert resp + Value(rs[0]) + Received(rs[1..]) == resp + (Value(rs[0]) + Received(rs[1..]));
    }
  }

  /** What the page shows once read `j` has stopped the loop: the error
      text after a rejection, else everything received up to and
      including read `j`. */
  function Shown(resp: string, rs: seq<ReadResult>, j: nat): string
    requires j < |rs|
  {
    if rs[j].ReadFailed? then ErrorText else resp + Received(rs[..j + 1])
  }

  lemma ReceivedCons(rs: seq<ReadResult>, j: nat)
    requires 0 < j < |rs|
    ensures Received(rs[..j + 1]) == Value(rs[0]) + Received(rs[1..][..j])
  {
    assert rs[..j + 1][1..] == rs[1..][..j];
  }

  lemma ShownCons(resp: string, rs: seq<ReadResult>, j: nat)
    requires 0 < j < |rs|
    ensures Shown(resp + Value(rs[0]), rs[1..], j - 1) == Shown(resp, rs, j)
  {
    assert rs[1..][j - 1] == rs[j];
    if !rs[j].ReadFailed? {
      ReceivedCons(rs, j);
      assert resp + Value(rs[0]) + Received(rs[1..][..j]) == resp + (Value(rs[0]) + Received(rs[1..][..j]));
    }
  }

  /** One read of the loop that does not stop it, given the claim for the
      reads after it. */
  lemma LoopStopsStep(resp: string, rs: seq<ReadResult>, j: nat)
    requires FirstStop(rs, j) && j > 0
    requires Loop(resp + Value(rs[0]), rs[1..]) == Finished(View(Shown(resp + Value(rs[0]), rs[1..], j - 1), false), j)
    ensures Loop(resp, rs) == Finished(View(Shown(resp, rs, j), false), j + 1)
  {
    assert !Stops(rs[0]);
    ShownCons(resp, rs, j);
  }

  /** The first read that stops the loop is the last one awaited: a
      rejection shows the error text, a `done` shows everything received
      up to and including it. */
  lemma {:induction false} LoopStops(resp: string, rs: seq<ReadResult>, j: nat)
    requires FirstStop(rs, j)
    ensures Loop(resp, rs) == Finished(View(Shown(resp, rs, j), false), j + 1)
    decreases j
  {
    if j > 0 {
      assert FirstStop(rs[1..], j - 1) by {
        assert rs[1..][j - 1] == rs[j];
        assert forall m | 0 <= m < j - 1 :: rs[1..][m] == rs[m + 1];
      }
      LoopStops(resp + Value(rs[0]), rs[1..], j - 1);
      LoopStopsStep(resp, rs, j);
    } else {
      assert rs[..1] == [rs[0]];
      assert Received([rs[0]]) == Value(rs[0]) + Received([]);
    }
  }

  /** A successful request shows the body as it arrives, chunks appended
      as they are, until the first read that reports `done` or fails. */
  lemma Streams(rs: seq<ReadResult>)
    ensures NoStop(rs) ==> Handle(Fetched(true), rs) == Pending(View(Received(rs), true))
    ensures forall j: nat | FirstStop(rs, j) ::
      Handle(Fetched(true), rs) == Finished(View(Shown("", rs, j), false), j + 1)
  {
    if NoStop(rs) {
      LoopRuns("", rs);
    }
    forall j: nat | FirstStop(rs, j)
      ensures Handle(Fetched(true), rs) == Finished(View(Shown("", rs, j), false), j + 1)
    {
      LoopStops("", rs, j);
    }
  }

  /** The loop still awaits a read exactly when none of the reads so far
      stopped it. */
  lemma {:induction false} LoopPending(resp: string, rs: seq<ReadResult>)
    ensures Loop(resp, rs).Pending? <==> NoStop(rs)
    decreases |rs|
  {
    if rs != [] {
      assert NoStop(rs) <==> !Stops(rs[0]) && NoStop(rs[1..]) by {
        assert forall m | 0 <= m < |rs| - 1 :: rs[1..][m] == rs[m + 1];
      }
      if !Stops(rs[0]) {
        LoopPending(resp + Value(rs[0]), rs[1..]);
      }
    }
  }

  lemma {:induction false} LoopIdle(resp: string, rs: seq<ReadResult>)
    ensures Loop(resp, rs).Finished? <==> !Loop(resp, rs).view.isLoading
    decreases |rs|
  {
    if rs != [] && rs[0].Chunk? && !rs[0].done {
      LoopIdle(resp + Value(rs[0]), rs[1..]);
    }
  }

  /** The reads of a body delivered as `chunks`, every one with a value,
      followed by the closing read. */
  function Delivered(chunks: seq<string>): (r: seq<ReadResult>)
    ensures |r| == |chunks| + 1
  {
    if chunks == [] then [Chunk(None, true)] else [Chunk(Some(chunks[0]), false)] + Delivered(chunks[1..])
  }

  function Concat(chunks: seq<string>): string {
    if chunks == [] then "" else chunks[0] + Concat(chunks[1..])
  }

  lemma {:induction false} DeliveredReads(chunks: seq<string>)
    ensures FirstStop(Delivered(chunks), |chunks|) && !Delivered(chunks)[|chunks|].ReadFailed?
    ensures Received(Delivered(chunks)) == Concat(chunks)
    decreases |chunks|
  {
    if chunks != [] {
      DeliveredReads(chunks[1..]);
      var d := Delivered(chunks);
      assert d[1..] == Delivered(chunks[1..]);
      forall m | 0 <= m < |chunks| ensures !Stops(d[m]) {
        if m > 0 { assert d[m] == d[1..][m - 1]; }
      }
    }
  }

  /** A body that arrives in full shows all of it, and the page is idle
      again after the closing read. */
  lemma DeliveredShows(chunks: seq<string>)
    ensures Handle(Fetched(true), Delivered(chunks)) == Finished(View(Concat(chunks), false), |chunks| + 1)
  {
    var rs := Delivered(chunks);
    DeliveredReads(chunks);
    LoopStops("", rs, |chunks|);
    assert rs[..|chunks| + 1] == rs;
    assert "" + Received(rs) == Concat(chunks);
  }

  /** However the server's event stream is cut into chunks, the page ends
      up showing the stream verbatim, `data: ` prefixes and the closing
      `[DONE]` event included: the client does not parse frames. */
  lemma RawEventStream(frames: seq<EventStream.Frame>, dumps: EventStream.Payload -> string, chunks: seq<string>)
    requires frames != [] && frames[|frames| - 1] == EventStream.Done
    requires Concat(chunks) == EventStream.Wire(frames, dumps)
    ensures Handle(Fetched(true), Delivered(chunks))
         == Finished(View(EventStream.Wire(frames, dumps), false), |chunks| + 1)
    ensures EndsWith(Handle(Fetched(true), Delivered(chunks)).view.response, "data: [DONE]\n\n")
  {
    DeliveredShows(chunks);
    EventStream.WireEndsDone(frames, dumps);
  }
}
