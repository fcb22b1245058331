/** The metadata filter `/context` derives from the escaped query with
    `re.search(r"code\s+(\d{4})", query, re.IGNORECASE)`
    (rag/chromadb/edi_demo/app.py:41, 130-134). The pattern has no word
    boundary, and `\d{4}` takes the first four digits of a longer run. */
module CodePattern {
  import opened Wrappers
  import opened PyStr

  /** "code" at `p`, letters compared case-insensitively. */
  predicate CodeWordAt(s: string, p: nat) {
    p + 4 <= |s| && Lower(s[p..p + 4]) == "code"
  }

  /** Where the greedy `\s+` after "code" at `p` stops. */
  function DigitsStart(s: string, p: nat): nat
    requires p + 4 <= |s|
  {
    RunEnd(s, p + 4, IsSpace)
  }

  /** The whole pattern matches at `p`: "code", at least one whitespace
      character, then four digits. Backtracking into `\s+` cannot help,
      since a whitespace character is never a digit. */
  predicate CodeAt(s: string, p: nat) {
    && CodeWordAt(s, p)
    && var q := DigitsStart(s, p);
    && q > p + 4
    && q + 4 <= |s|
    && (forall k | q <= k < q + 4 :: IsDigit(s[k]))
  }

  /** `match.group(1)` for the match at `p`. */
  function DigitsAt(s: string, p: nat): (d: string)
    requires CodeAt(s, p)
    ensures |d| == 4 && forall k | 0 <= k < 4 :: IsDigit(d[k])
  {
    var q := DigitsStart(s, p);
    s[q..q + 4]
  }

  /** The leftmost match at or after `i`, as `re.search` scans. */
  function SearchFrom(s: string, i: nat): (r: Option<nat>)
    requires i <= |s|
    ensures r.Some? ==> i <= r.value <= |s| && CodeAt(s, r.value)
    ensures r.Some? ==> forall p | i <= p < r.value :: !CodeAt(s, p)
    ensures r.None? ==> forall p | i <= p <= |s| :: !CodeAt(s, p)
    decreases |s| - i
  {
    if CodeAt(s, i) then Some(i)
    else if i == |s| then None
    else SearchFrom(s, i + 1)
  }

  /** The value of the `{"code": {"$eq": ...}}` filter, or `None` when the
      query holds no code: present exactly when some position matches, and
      then the four digits of the leftmost match. */
  function CodeFilter(query: string): (r: Option<string>)
    ensures r.Some? <==> exists p: nat :: CodeAt(query, p)
    ensures r.Some? ==> exists p: nat :: (CodeAt(query, p) && r.value == DigitsAt(query, p)
      && forall p' | 0 <= p' < p :: !CodeAt(query, p'))
  {
    match SearchFrom(query, 0)
    case Some(p) => Some(DigitsAt(query, p))
    case None => None
  }

  /** "code" glued to the end of a longer word still counts: there is no
      `\b`, so "barcode 1234" yields a filter. */
  lemma NoWordBoundary(before: string, ws: string, digits: string, after: string)
    requires |ws| > 0 && AllSpace(ws)
    requires |digits| == 4 && forall k | 0 <= k < 4 :: IsDigit(digits[k])
    ensures CodeAt(before + "code" + ws + digits + after, |before|)
    ensures CodeFilter(before + "code" + ws + digits + after).Some?
  {
    var s := before + "code" + ws + digits + after;
    var p := |before|;
    assert s[p..p + 4] == "code";
    assert Lower("code") == "code";
    var q := p + 4 + |ws|;
    assert forall k | p + 4 <= k < q :: s[k] == ws[k - p - 4];
    assert s[q] == digits[0];
    assert RunEnd(s, p + 4, IsSpace) == q;
    assert forall k | q <= k < q + 4 :: s[k] == digits[k - q];
    assert CodeAt(s, p);
  }

  /** When the query starts with "code", whitespace and a run of digits,
      the filter is the first four digits of that run, however long. */
  lemma FirstFourDigits(ws: string, digits: string, after: string)
    requires |ws| > 0 && AllSpace(ws)
    requires |digits| >= 4 && forall k | 0 <= k < |digits| :: IsDigit(digits[k])
    ensures CodeFilter("code" + ws + digits + after) == Some(digits[..4])
  {
    var s := "code" + ws + digits + after;
    var d4 := digits[..4];
    var tail := digits[4..] + after;
    assert s == "" + "code" + ws + d4 + tail by {
      assert digits == d4 + digits[4..];
    }
    NoWordBoundary("", ws, d4, tail);
    assert SearchFrom(s, 0) == Some(0);
    var q := 4 + |ws|;
    assert RunEnd(s, 4, IsSpace) == q by {
      assert forall k | 4 <= k < q :: s[k] == ws[k - 4];
      assert s[q] == d4[0];
    }
    assert s[q..q + 4] == d4;
  }
}
