/** The word pattern `\b[\w.-]+\b` that `normalize_text` and
    `highlight_context` share (rag/chromadb/edi_demo/app.py:54-61).
    Python's `\w` is a parameter `word`; `\b` is the position between a
    `word` character and a non-`word` character or an end of the text.

    A match is a maximal run of class characters with its leading and
    trailing `.`/`-` trimmed off; a run without any `word` character
    gives no match. `Spans` computes this, and `FindAll` states what
    `re.findall` promises of the matches it returns. */
module Tokens {
  import opened PyStr

  /** One character of the class `[\w.-]`. */
  predicate InClass(word: char -> bool, c: char) {
    word(c) || c == '.' || c == '-'
  }

  /** Python's `\b` at position `i` of `s`. */
  predicate Boundary(word: char -> bool, s: string, i: nat)
    requires i <= |s|
  {
    (i > 0 && word(s[i - 1])) != (i < |s| && word(s[i]))
  }

  /** `sp` is a match of `\b[\w.-]+\b` in `s` that begins and ends with a
      `word` character. */
  predicate IsToken(word: char -> bool, s: string, sp: Span) {
    && sp.start < sp.end <= |s|
    && (forall k | sp.start <= k < sp.end :: InClass(word, s[k]))
    && word(s[sp.start]) && word(s[sp.end - 1])
    && Boundary(word, s, sp.start) && Boundary(word, s, sp.end)
  }

  /** A non-class character lies between the two matches, so the regex
      could not have joined them into one. */
  predicate Separated(word: char -> bool, s: string, a: Span, b: Span)
    requires a.end <= b.start <= |s|
  {
    exists k | a.end <= k < b.start :: !InClass(word, s[k])
  }

  /** Position `k` lies inside one of the spans. */
  predicate InSomeSpan(spans: seq<Span>, k: nat)
    decreases |spans|
  {
    spans != [] && (spans[0].start <= k < spans[0].end || InSomeSpan(spans[1..], k))
  }

  /** The spans from position `i` on: each a token, each separated from the
      next by a non-class character, and covering every `word` character of
      `s[i..]`. */
  ghost predicate MatchesFrom(word: char -> bool, s: string, i: nat, spans: seq<Span>) {
    && (forall m | 0 <= m < |spans| :: i <= spans[m].start && IsToken(word, s, spans[m]))
    && (forall m | 0 <= m < |spans| - 1 ::
          spans[m].end <= spans[m + 1].start && Separated(word, s, spans[m], spans[m + 1]))
    && (forall k | i <= k < |s| && word(s[k]) :: InSomeSpan(spans, k))
  }

  /** What `re.findall(r'\b[\w.-]+\b', s)` promises of its matches: each is
      a token, consecutive ones are separated by a non-class character, and
      together they cover every `word` character of `s`. */
  ghost predicate FindAll(word: char -> bool, s: string, spans: seq<Span>) {
    MatchesFrom(word, s, 0, spans)
  }

  lemma RunCase(word: char -> bool, s: string, i: nat, j: nat, f: nat, e: nat, rest: seq<Span>)
    requires i < j <= |s| && i <= f < e <= j
    requires i == 0 || !InClass(word, s[i - 1])
    requires forall k | i <= k < j :: InClass(word, s[k])
    requires j == |s| || !InClass(word, s[j])
    requires forall k | i <= k < f :: !word(s[k])
    requires word(s[f]) && word(s[e - 1])
    requires forall k | e <= k < j :: !word(s[k])
    requires j == |s| ==> rest == []
    requires j < |s| ==> MatchesFrom(word, s, j + 1, rest)
    ensures MatchesFrom(word, s, i, [Span(f, e)] + rest)
  {
    var sp := Span(f, e);
    var r := [sp] + rest;
    assert IsToken(word, s, sp);
    assert forall m | 1 <= m < |r| :: r[m] == rest[m - 1];
    if |rest| > 0 {
      assert !InClass(word, s[j]);
      assert Separated(word, s, sp, rest[0]);
    }
    forall k | i <= k < |s| && word(s[k])
      ensures InSomeSpan(r, k)
    {
      if k >= j {
        assert k != j;
        assert InSomeSpan(rest, k);
        assert r[1..] == rest;
      }
    }
  }

  lemma SkipCase(word: char -> bool, s: string, i: nat, next: nat, rest: seq<Span>)
    requires i <= next <= |s|
    requires forall k | i <= k < next :: !word(s[k])
    requires MatchesFrom(word, s, next, rest)
    ensures MatchesFrom(word, s, i, rest)
  {
  }

  /** The matches in `s[i..]`, scanning one maximal class run at a time. */
  function SpansFrom(word: char -> bool, s: string, i: nat): (r: seq<Span>)
    requires i <= |s|
    requires i == 0 || !InClass(word, s[i - 1])
    ensures MatchesFrom(word, s, i, r)
    decreases |s| - i
  {
    if i == |s| then []
    else if !InClass(word, s[i]) then
      var rest := SpansFrom(word, s, i + 1);
      SkipCase(word, s, i, i + 1, rest);
      rest
    else
      var j := RunEnd(s, i, c => InClass(word, c));
      var rest := if j == |s| then [] else SpansFrom(word, s, j + 1);
      var f := FirstFrom(s, i, word);
      if f < j then
        var e := LastEnd(s, f, j, word);
        RunCase(word, s, i, j, f, e, rest);
        [Span(f, e)] + rest
      else
        SkipCase(word, s, i, if j == |s| then j else j + 1, rest);
        rest
  }

  /** All matches of `\b[\w.-]+\b` in `s`, in text order. */
  function Spans(word: char -> bool, s: string): (r: seq<Span>)
    ensures FindAll(word, s, r)
  {
    SpansFrom(word, s, 0)
  }

  /** The spans lie in order inside `s[pos..]`. */
  predicate Chained(spans: seq<Span>, pos: nat, n: nat)
    decreases |spans|
  {
    if spans == [] then pos <= n
    else pos <= spans[0].start <= spans[0].end <= n && Chained(spans[1..], spans[0].end, n)
  }

  lemma {:induction false} FindAllChained(word: char -> bool, s: string, spans: seq<Span>, pos: nat)
    requires forall m | 0 <= m < |spans| :: IsToken(word, s, spans[m])
    requires forall m | 0 <= m < |spans| - 1 :: spans[m].end <= spans[m + 1].start
    requires pos <= |s| && (spans != [] ==> pos <= spans[0].start)
    ensures Chained(spans, pos, |s|)
    decreases |spans|
  {
    if spans != [] {
      assert IsToken(word, s, spans[0]);
      FindAllChained(word, s, spans[1..], spans[0].end);
    }
  }

  function Slices(s: string, spans: seq<Span>, pos: nat): (r: seq<string>)
    requires Chained(spans, pos, |s|)
    ensures |r| == |spans|
    decreases |spans|
  {
    if spans == [] then [] else [s[spans[0].start..spans[0].end]] + Slices(s, spans[1..], spans[0].end)
  }

  lemma {:induction false} SlicesAt(s: string, spans: seq<Span>, pos: nat, m: nat)
    requires Chained(spans, pos, |s|)
    requires m < |spans|
    ensures spans[m].start <= spans[m].end <= |s|
    ensures Slices(s, spans, pos)[m] == s[spans[m].start..spans[m].end]
    decreases |spans|
  {
    if m > 0 {
      SlicesAt(s, spans[1..], spans[0].end, m - 1);
    } else {
      ChainedEnd(spans, pos, |s|);
    }
  }

  lemma {:induction false} ChainedEnd(spans: seq<Span>, pos: nat, n: nat)
    requires Chained(spans, pos, n)
    ensures pos <= n
    ensures spans != [] ==> spans[0].end <= n
    decreases |spans|
  {
    if spans != [] {
      ChainedEnd(spans[1..], spans[0].end, n);
    }
  }

  /** A token `normalize_text` can return: non-empty, lower case, made of
      class characters only, beginning and ending with a `word` character. */
  predicate IsNormalToken(word: char -> bool, tok: string) {
    && |tok| > 0
    && word(tok[0]) && word(tok[|tok| - 1])
    && (forall k | 0 <= k < |tok| :: InClass(word, tok[k]) && LowerChar(tok[k]) == tok[k])
  }

  lemma LoweredToken(word: char -> bool, text: string, sp: Span)
    requires IsToken(word, Lower(text), sp)
    ensures IsNormalToken(word, Lower(text)[sp.start..sp.end])
  {
    var t := Lower(text);
    var tok := t[sp.start..sp.end];
    forall k | 0 <= k < |tok|
      ensures InClass(word, tok[k]) && LowerChar(tok[k]) == tok[k]
    {
      assert tok[k] == t[sp.start + k] == LowerChar(text[sp.start + k]);
    }
  }

  /** `normalize_text(text)`: `re.findall(r'\b[\w.-]+\b', text.lower())`. */
  function NormalizeText(word: char -> bool, text: string): (r: seq<string>)
    ensures forall m | 0 <= m < |r| :: IsNormalToken(word, r[m])
  {
    var t := Lower(text);
    var spans := Spans(word, t);
    FindAllChained(word, t, spans, 0);
    var r := Slices(t, spans, 0);
    forall m | 0 <= m < |r|
      ensures IsNormalToken(word, r[m])
    {
      SlicesAt(t, spans, 0, m);
      LoweredToken(word, text, spans[m]);
    }
    r
  }

  /** The tokens are the matches of the lowered text, in text order. */
  lemma NormalizeTextFollowsText(word: char -> bool, text: string, m: nat)
    requires m < |NormalizeText(word, text)|
    ensures var t := Lower(text); var spans := Spans(word, t);
      && m < |spans|
      && IsToken(word, t, spans[m])
      && NormalizeText(word, text)[m] == t[spans[m].start..spans[m].end]
      && (m + 1 < |spans| ==> spans[m].end < spans[m + 1].start)
  {
    var t := Lower(text);
    var spans := Spans(word, t);
    FindAllChained(word, t, spans, 0);
    SlicesAt(t, spans, 0, m);
    if m + 1 < |spans| {
      assert Separated(word, t, spans[m], spans[m + 1]);
    }
  }

  // ---------------------------------------------------------------------
  // highlight_context

  /** A piece of highlighted output: text kept as it was, or a token the
      replacer wrapped in a highlighting `span` element. */
  datatype Piece = Plain(text: string) | Marked(text: string)

  const Open: string := "<span style='background-color: #ffefbf'>"
  const Close: string := "</span>"

  /** The text the pieces stand for, wrappers included. */
  function Render(pieces: seq<Piece>): string
    decreases |pieces|
  {
    if pieces == [] then ""
    else
      var p := pieces[0];
      (if p.Marked? then Open + p.text + Close else p.text) + Render(pieces[1..])
  }

  /** The pieces' texts without any wrapper. */
  function Erase(pieces: seq<Piece>): string
    decreases |pieces|
  {
    if pieces == [] then "" else pieces[0].text + Erase(pieces[1..])
  }

  /** The replacer's choice for one match. */
  function Replace(w: string, queryWords: set<string>): (p: Piece)
    ensures p.text == w
    ensures p.Marked? <==> Lower(w) in queryWords
  {
    if Lower(w) in queryWords then Marked(w) else Plain(w)
  }

  /** `re.sub` over the chained matches: the gap before each match kept
      verbatim, then the replacer's piece for the match. */
  function PiecesFrom(s: string, spans: seq<Span>, pos: nat, queryWords: set<string>): (r: seq<Piece>)
    requires Chained(spans, pos, |s|)
    ensures |r| == 2 * |spans| + 1
    decreases |spans|
  {
    ChainedEnd(spans, pos, |s|);
    if spans == [] then [Plain(s[pos..])]
    else
      var sp := spans[0];
      [Plain(s[pos..sp.start]), Replace(s[sp.start..sp.end], queryWords)]
        + PiecesFrom(s, spans[1..], sp.end, queryWords)
  }

  function HighlightPieces(word: char -> bool, context: string, queryWords: set<string>): seq<Piece> {
    var spans := Spans(word, context);
    FindAllChained(word, context, spans, 0);
    PiecesFrom(context, spans, 0, queryWords)
  }

  /** `highlight_context(context, query_words)`: the context with every
      word whose lower-case form is a query word wrapped in a mark; a
      context none of whose words is a query word comes back unchanged. */
  function HighlightContext(word: char -> bool, context: string, queryWords: set<string>): (r: string)
    ensures (forall m | 0 <= m < |Spans(word, context)| ::
      Lower(context[Spans(word, context)[m].start..Spans(word, context)[m].end]) !in queryWords) ==> r == context
    ensures queryWords == {} ==> r == context
  {
    HighlightWithoutQueryWords(word, context, queryWords);
    Render(HighlightPieces(word, context, queryWords))
  }

  lemma {:induction false} EraseAppend(a: seq<Piece>, b: seq<Piece>)
    ensures Erase(a + b) == Erase(a) + Erase(b)
    decreases |a|
  {
    if a != [] {
      assert (a + b)[0] == a[0];
      assert (a + b)[1..] == a[1..] + b;
      EraseAppend(a[1..], b);
    } else {
      assert a + b == b;
    }
  }

  lemma {:induction false} ErasePiecesFrom(s: string, spans: seq<Span>, pos: nat, queryWords: set<string>)
    requires Chained(spans, pos, |s|)
    ensures Erase(PiecesFrom(s, spans, pos, queryWords)) == s[pos..]
    decreases |spans|
  {
    ChainedEnd(spans, pos, |s|);
    if spans == [] {
      assert Erase([Plain(s[pos..])]) == s[pos..] + Erase([]);
    } else {
      var sp := spans[0];
      var head := [Plain(s[pos..sp.start]), Replace(s[sp.start..sp.end], queryWords)];
      var tail := PiecesFrom(s, spans[1..], sp.end, queryWords);
      ErasePiecesFrom(s, spans[1..], sp.end, queryWords);
      EraseAppend(head, tail);
      assert Erase(head) == s[pos..sp.start] + s[sp.start..sp.end];
      ChainedEnd(spans[1..], sp.end, |s|);
      assert s[pos..] == s[pos..sp.start] + s[sp.start..sp.end] + s[sp.end..];
    }
  }

  /** Dropping the inserted wrappers gives back the context unchanged. */
  lemma HighlightErasesToContext(word: char -> bool, context: string, queryWords: set<string>)
    ensures Erase(HighlightPieces(word, context, queryWords)) == context
  {
    var spans := Spans(word, context);
    FindAllChained(word, context, spans, 0);
    ErasePiecesFrom(context, spans, 0, queryWords);
  }

  lemma {:induction false} PiecesFromAt(s: string, spans: seq<Span>, pos: nat, queryWords: set<string>, m: nat)
    requires Chained(spans, pos, |s|)
    requires m < |spans|
    ensures spans[m].start <= spans[m].end <= |s|
    ensures PiecesFrom(s, spans, pos, queryWords)[2 * m + 1] == Replace(s[spans[m].start..spans[m].end], queryWords)
    ensures PiecesFrom(s, spans, pos, queryWords)[2 * m].Plain?
    decreases |spans|
  {
    ChainedEnd(spans, pos, |s|);
    var sp := spans[0];
    var head := [Plain(s[pos..sp.start]), Replace(s[sp.start..sp.end], queryWords)];
    var rest := PiecesFrom(s, spans[1..], sp.end, queryWords);
    assert PiecesFrom(s, spans, pos, queryWords) == head + rest;
    if m > 0 {
      PiecesFromAt(s, spans[1..], sp.end, queryWords, m - 1);
      assert spans[1..][m - 1] == spans[m];
      assert (head + rest)[2 * m + 1] == rest[2 * (m - 1) + 1];
      assert (head + rest)[2 * m] == rest[2 * (m - 1)];
    }
  }

  /** The pieces alternate: gaps at even positions are never wrapped, and the
      piece for the m-th match is wrapped exactly when that match, lowered,
      is one of the query words. */
  lemma HighlightMarksQueryWords(word: char -> bool, context: string, queryWords: set<string>, m: nat)
    requires m < |Spans(word, context)|
    ensures var spans := Spans(word, context);
      var pieces := HighlightPieces(word, context, queryWords);
      var w := context[spans[m].start..spans[m].end];
      && |pieces| == 2 * |spans| + 1
      && pieces[2 * m].Plain?
      && pieces[2 * m + 1].text == w
      && (pieces[2 * m + 1].Marked? <==> Lower(w) in queryWords)
  {
    var spans := Spans(word, context);
    FindAllChained(word, context, spans, 0);
    PiecesFromAt(context, spans, 0, queryWords, m);
  }

  lemma {:induction false} RenderPlain(pieces: seq<Piece>)
    requires forall k | 0 <= k < |pieces| :: pieces[k].Plain?
    ensures Render(pieces) == Erase(pieces)
    decreases |pieces|
  {
    if pieces != [] {
      RenderPlain(pieces[1..]);
    }
  }

  /** When no match of the context is a query word (in particular when there
      are no query words), highlighting returns the context unchanged. */
  lemma HighlightWithoutQueryWords(word: char -> bool, context: string, queryWords: set<string>)
    ensures (forall m | 0 <= m < |Spans(word, context)| ::
      Lower(context[Spans(word, context)[m].start..Spans(word, context)[m].end]) !in queryWords) ==>
      Render(HighlightPieces(word, context, queryWords)) == context
  {
    if forall m | 0 <= m < |Spans(word, context)| ::
      Lower(context[Spans(word, context)[m].start..Spans(word, context)[m].end]) !in queryWords
    {
      PlainWithoutQueryWords(word, context, queryWords);
    }
  }

  lemma PlainWithoutQueryWords(word: char -> bool, context: string, queryWords: set<string>)
    requires forall m | 0 <= m < |Spans(word, context)| ::
      Lower(context[Spans(word, context)[m].start..Spans(word, context)[m].end]) !in queryWords
    ensures Render(HighlightPieces(word, context, queryWords)) == context
  {
    var spans := Spans(word, context);
    var pieces := HighlightPieces(word, context, queryWords);
    forall k | 0 <= k < |pieces|
      ensures pieces[k].Plain?
    {
      if k % 2 == 1 {
        HighlightMarksQueryWords(word, context, queryWords, k / 2);
      } else if k / 2 < |spans| {
        HighlightMarksQueryWords(word, context, queryWords, k / 2);
      } else {
        assert k == 2 * |spans|;
        FindAllChained(word, context, spans, 0);
        PiecesFromLast(context, spans, 0, queryWords);
      }
    }
    RenderPlain(pieces);
    HighlightErasesToContext(word, context, queryWords);
  }

  lemma {:induction false} PiecesFromLast(s: string, spans: seq<Span>, pos: nat, queryWords: set<string>)
    requires Chained(spans, pos, |s|)
    ensures PiecesFrom(s, spans, pos, queryWords)[2 * |spans|].Plain?
    decreases |spans|
  {
    if spans != [] {
      PiecesFromLast(s, spans[1..], spans[0].end, queryWords);
    }
  }
}
