/** `re.split(r'^-{10,}', file_content, flags=re.MULTILINE)`
    (rag/chromadb/edi_demo/preprocess.py:47): the directory text cut at
    every line that starts with ten or more dashes. The dashes themselves
    are dropped; the first piece is the introduction. */
module EdedSections {
  import opened PyStr

  predicate IsDash(c: char) {
    c == '-'
  }

  /** `^-{10,}` matches at `i`: the start of the text or of a line, then a
      run of at least ten dashes (greedy, so the match is the whole run). */
  predicate RuleAt(s: string, i: nat) {
    && i < |s|
    && (i == 0 || s[i - 1] == '\n')
    && RunEnd(s, i, IsDash) >= i + 10
  }

  /** What `re.split` promises: the pieces tile `s[start..]` around the
      matches. Each piece but the last is followed by a match whose dashes
      run up to the next piece, and no piece contains a match. */
  ghost predicate SplitsAt(s: string, start: nat, spans: seq<Span>) {
    && |spans| >= 1
    && spans[0].start == start
    && spans[|spans| - 1].end == |s|
    && (forall k | 0 <= k < |spans| :: spans[k].start <= spans[k].end <= |s|)
    && (forall k | 0 <= k < |spans| - 1 ::
          RuleAt(s, spans[k].end) && spans[k + 1].start == RunEnd(s, spans[k].end, IsDash))
    && (forall k, j | 0 <= k < |spans| && spans[k].start <= j < spans[k].end :: !RuleAt(s, j))
  }

  /** The number of positions at or after `i` where `^-{10,}` matches. */
  function RuleCount(s: string, i: nat): nat
    decreases |s| - i
  {
    if i >= |s| then 0 else (if RuleAt(s, i) then 1 else 0) + RuleCount(s, i + 1)
  }

  lemma {:induction false} NoRulesBetween(s: string, a: nat, b: nat)
    requires a <= b <= |s|
    requires forall j | a <= j < b :: !RuleAt(s, j)
    ensures RuleCount(s, a) == RuleCount(s, b)
    decreases b - a
  {
    if a < b {
      NoRulesBetween(s, a + 1, b);
    }
  }

  lemma RuleCase(s: string, start: nat, i: nat, rest: seq<Span>)
    requires start <= i && RuleAt(s, i)
    requires forall j | start <= j < i :: !RuleAt(s, j)
    requires SplitsAt(s, RunEnd(s, i, IsDash), rest)
    ensures SplitsAt(s, start, [Span(start, i)] + rest)
  {
    var r := [Span(start, i)] + rest;
    assert forall k | 1 <= k < |r| :: r[k] == rest[k - 1];
  }

  /** The scan of `re.split`: `start` is where the current piece began and
      `i` the next position to try. */
  function SplitFrom(s: string, start: nat, i: nat): (r: seq<Span>)
    requires start <= i <= |s|
    requires forall j | start <= j < i :: !RuleAt(s, j)
    ensures SplitsAt(s, start, r)
    ensures |r| == 1 + RuleCount(s, i)
    decreases |s| - i
  {
    if i == |s| then [Span(start, |s|)]
    else if RuleAt(s, i) then
      var e := RunEnd(s, i, IsDash);
      var rest := SplitFrom(s, e, e);
      RuleCase(s, start, i, rest);
      assert forall j | i + 1 <= j < e :: !RuleAt(s, j) by {
        forall j | i + 1 <= j < e
          ensures !RuleAt(s, j)
        {
          assert IsDash(s[j - 1]);
        }
      }
      NoRulesBetween(s, i + 1, e);
      [Span(start, i)] + rest
    else SplitFrom(s, start, i + 1)
  }

  /** The piece boundaries of the whole text. */
  function SectionSpans(s: string): (r: seq<Span>)
    ensures SplitsAt(s, 0, r)
    ensures |r| == 1 + RuleCount(s, 0)
  {
    SplitFrom(s, 0, 0)
  }

  /** The pieces themselves: `sections`. */
  function Sections(s: string): (r: seq<string>)
    ensures |r| == |SectionSpans(s)| == 1 + RuleCount(s, 0)
    ensures forall k | 0 <= k < |r| ::
      var sp := SectionSpans(s)[k]; r[k] == s[sp.start..sp.end]
  {
    var spans := SectionSpans(s);
    seq(|spans|, k requires 0 <= k < |spans| => s[spans[k].start..spans[k].end])
  }

  /** Text with no rule line is a single piece, the introduction. */
  lemma NoRuleOneSection(s: string)
    requires forall j | 0 <= j < |s| :: !RuleAt(s, j)
    ensures Sections(s) == [s]
  {
    NoRulesBetween(s, 0, |s|);
    assert s[0..|s|] == s;
  }
}
