/** The Python `str` operations the server and the preprocessor rely on:
    `isspace`/`\s`, `strip`, `split`, `join`, `replace`, `in`, and the
    leftmost maximal run that `re.search(r"(X+)", s)` finds. */
module PyStr {

  /** `c.isspace()`, which is also what `\s` matches in a `str` pattern:
      the ASCII controls 0x09-0x0D and 0x1C-0x1F, the space, and the
      Unicode separators Python lists as whitespace. */
  predicate IsSpace(c: char) {
    var n := c as int;
    || 0x09 <= n <= 0x0D
    || 0x1C <= n <= 0x20
    || n == 0x85 || n == 0xA0 || n == 0x1680
    || 0x2000 <= n <= 0x200A
    || n == 0x2028 || n == 0x2029 || n == 0x202F || n == 0x205F || n == 0x3000
  }

  /** `\d` restricted to ASCII (see README, "Left out"). */
  predicate IsDigit(c: char) {
    '0' <= c <= '9'
  }

  predicate IsAscii(s: string) {
    forall k | 0 <= k < |s| :: s[k] as int < 128
  }

  predicate AllSpace(s: string) {
    forall k | 0 <= k < |s| :: IsSpace(s[k])
  }

  /** A string that `strip()` leaves alone. */
  predicate IsStripped(s: string) {
    s == [] || (!IsSpace(s[0]) && !IsSpace(s[|s| - 1]))
  }

  function LStrip(s: string): (r: string)
    ensures |r| <= |s| && r == s[|s| - |r|..]
    ensures AllSpace(s[..|s| - |r|])
    ensures r == [] || !IsSpace(r[0])
  {
    if |s| > 0 && IsSpace(s[0]) then LStrip(s[1..]) else s
  }

  function RStrip(s: string): (r: string)
    ensures |r| <= |s| && r == s[..|r|]
    ensures AllSpace(s[|r|..])
    ensures r == [] || !IsSpace(r[|r| - 1])
  {
    if |s| > 0 && IsSpace(s[|s| - 1]) then RStrip(s[..|s| - 1]) else s
  }

  /** `s.strip()`: `s` minus its leading and trailing whitespace. */
  function Strip(s: string): (r: string)
    ensures IsStripped(r)
    ensures |r| <= |s|
  {
    var l := LStrip(s);
    var r := RStrip(l);
    assert r == [] || !IsSpace(r[0]) by {
      if r != [] {
        assert r[0] == l[0];
      }
    }
    r
  }

  lemma {:induction false} LStripAppend(a: string, m: string)
    requires AllSpace(a)
    requires m == [] || !IsSpace(m[0])
    ensures LStrip(a + m) == m
    decreases |a|
  {
    if a == [] {
      assert a + m == m;
    } else {
      assert (a + m)[1..] == a[1..] + m;
      LStripAppend(a[1..], m);
    }
  }

  lemma {:induction false} RStripAppend(m: string, b: string)
    requires AllSpace(b)
    requires m == [] || !IsSpace(m[|m| - 1])
    ensures RStrip(m + b) == m
    decreases |b|
  {
    if b == [] {
      assert m + b == m;
    } else {
      assert (m + b)[..|m + b| - 1] == m + b[..|b| - 1];
      RStripAppend(m, b[..|b| - 1]);
    }
  }

  /** `strip()` recovers the middle of any whitespace-padded stripped string;
      together with `IsStripped(Strip(s))` this pins `Strip` down uniquely. */
  lemma StripPadded(a: string, m: string, b: string)
    requires AllSpace(a) && AllSpace(b) && IsStripped(m)
    ensures Strip(a + m + b) == m
  {
    if m == [] {
      assert a + m + b == a + b;
      assert AllSpace(a + b);
      LStripAppend(a + b, []);
      assert a + b + [] == a + b;
    } else {
      assert a + m + b == a + (m + b);
      LStripAppend(a, m + b);
      RStripAppend(m, b);
    }
  }

  lemma StripStripped(s: string)
    requires IsStripped(s)
    ensures Strip(s) == s
  {
    StripPadded([], s, []);
    assert [] + s + [] == s;
  }

  /** `s.strip()` is empty exactly when `s` is all whitespace. */
  lemma StripEmpty(s: string)
    ensures Strip(s) == [] <==> AllSpace(s)
  {
    if AllSpace(s) {
      StripPadded(s, [], []);
      assert s + [] + [] == s;
    }
    if Strip(s) == [] {
      var l := LStrip(s);
      assert s == s[..|s| - |l|] + l;
      assert AllSpace(l) by {
        assert l[|RStrip(l)|..] == l;
      }
    }
  }

  /** Python's `str.lower()` on ASCII letters; every other character is kept. */
  function LowerChar(c: char): (r: char)
    ensures 'A' <= c <= 'Z' ==> r as int == c as int + 32
    ensures !('A' <= c <= 'Z') ==> r == c
  {
    if 'A' <= c <= 'Z' then (c as int + 32) as char else c
  }

  function Lower(s: string): (r: string)
    ensures |r| == |s|
    ensures forall k | 0 <= k < |s| :: r[k] == LowerChar(s[k])
  {
    seq(|s|, k requires 0 <= k < |s| => LowerChar(s[k]))
  }

  predicate StartsWith(s: string, prefix: string) {
    |prefix| <= |s| && s[..|prefix|] == prefix
  }

  predicate EndsWith(s: string, suffix: string) {
    |suffix| <= |s| && s[|s| - |suffix|..] == suffix
  }

  /** `sub in s`. */
  predicate Contains(s: string, sub: string)
    decreases |s|
  {
    StartsWith(s, sub) || (|s| > 0 && Contains(s[1..], sub))
  }

  lemma ContainsAt(s: string, sub: string, i: nat)
    requires i + |sub| <= |s| && s[i..i + |sub|] == sub
    ensures Contains(s, sub)
    decreases i
  {
    if i > 0 {
      assert s[1..][i - 1..i - 1 + |sub|] == s[i..i + |sub|];
      ContainsAt(s[1..], sub, i - 1);
    }
  }

  lemma {:induction false} ContainsWitness(s: string, sub: string) returns (i: nat)
    requires Contains(s, sub)
    ensures i + |sub| <= |s| && s[i..i + |sub|] == sub
    decreases |s|
  {
    if StartsWith(s, sub) {
      i := 0;
    } else {
      var j := ContainsWitness(s[1..], sub);
      i := j + 1;
      assert s[i..i + |sub|] == s[1..][j..j + |sub|];
    }
  }

  /** `sep.join(parts)`. */
  function Join(sep: string, parts: seq<string>): string
    decreases |parts|
  {
    if |parts| == 0 then ""
    else if |parts| == 1 then parts[0]
    else parts[0] + sep + Join(sep, parts[1..])
  }

  /** `s.split(sep)` for a one-character separator: the pieces between the
      separators. `SplitJoin` states what they are. */
  function Split(s: string, sep: char): (r: seq<string>)
    ensures |r| >= 1
    decreases |s|
  {
    if |s| == 0 then [""]
    else
      var rest := Split(s[1..], sep);
      if s[0] == sep then [""] + rest
      else [[s[0]] + rest[0]] + rest[1..]
  }

  /** The pieces hold no separator, joining them back with `sep` gives `s`,
      and there is more than one exactly when `s` has a separator. */
  lemma {:induction false} SplitJoin(s: string, sep: char)
    ensures var r := Split(s, sep);
      && (forall k | 0 <= k < |r| :: sep !in r[k])
      && Join([sep], r) == s
      && (sep in s <==> |r| >= 2)
    decreases |s|
  {
    if |s| > 0 {
      SplitJoin(s[1..], sep);
      var rest := Split(s[1..], sep);
      assert sep in s <==> s[0] == sep || sep in s[1..];
      if s[0] == sep {
        assert Split(s, sep) == [""] + rest;
        assert s == [sep] + s[1..];
      } else {
        var r := [[s[0]] + rest[0]] + rest[1..];
        assert Split(s, sep) == r;
        assert r[1..] == rest[1..];
        assert Join([sep], r) == s by {
          if |rest| == 1 {
            assert [s[0]] + rest[0] == [s[0]] + s[1..];
          } else {
            assert Join([sep], rest) == rest[0] + [sep] + Join([sep], rest[1..]);
          }
          assert s == [s[0]] + s[1..];
        }
      }
    }
  }

  /** `s.replace(pat, repl)`: every leftmost non-overlapping occurrence of
      `pat` replaced. `re.sub` with a pattern of plain digits does the same. */
  function ReplaceAll(s: string, pat: string, repl: string): (r: string)
    requires |pat| > 0
    ensures !Contains(s, pat) ==> r == s
    decreases |s|
  {
    if |s| < |pat| then s
    else if s[..|pat|] == pat then repl + ReplaceAll(s[|pat|..], pat, repl)
    else
      assert !Contains(s, pat) ==> !Contains(s[1..], pat);
      [s[0]] + ReplaceAll(s[1..], pat, repl)
  }

  /** `s.replace(c, '')`. */
  function RemoveChar(s: string, c: char): (r: string)
    ensures c !in r
    ensures c !in s ==> r == s
    ensures forall d :: d != c ==> (d in r <==> d in s)
    decreases |s|
  {
    if |s| == 0 then s
    else if s[0] == c then RemoveChar(s[1..], c)
    else
      assert s == [s[0]] + s[1..];
      [s[0]] + RemoveChar(s[1..], c)
  }

  /** The half-open range `s[start..end]` of a match, as `re.Match.span()`. */
  datatype Span = Span(start: nat, end: nat)

  /** The end of the maximal run of `p`-characters that begins at `i`. */
  function RunEnd(s: string, i: nat, p: char -> bool): (j: nat)
    requires i <= |s|
    ensures i <= j <= |s|
    ensures forall k | i <= k < j :: p(s[k])
    ensures j == |s| || !p(s[j])
    decreases |s| - i
  {
    if i < |s| && p(s[i]) then RunEnd(s, i + 1, p) else i
  }

  /** The first index at or after `i` holding a `p`-character, or `|s|`. */
  function FirstFrom(s: string, i: nat, p: char -> bool): (j: nat)
    requires i <= |s|
    ensures i <= j <= |s|
    ensures forall k | i <= k < j :: !p(s[k])
    ensures j == |s| || p(s[j])
    decreases |s| - i
  {
    if i == |s| || p(s[i]) then i else FirstFrom(s, i + 1, p)
  }

  /** The end of the last `p`-character in `s[lo..hi]`: the largest `e` in
      `lo+1..hi` with `p(s[e-1])`, or `lo` when there is none. */
  function LastEnd(s: string, lo: nat, hi: nat, p: char -> bool): (e: nat)
    requires lo <= hi <= |s|
    ensures lo <= e <= hi
    ensures forall k | e <= k < hi :: !p(s[k])
    ensures e == lo || p(s[e - 1])
    decreases hi - lo
  {
    if hi == lo || p(s[hi - 1]) then hi else LastEnd(s, lo, hi - 1, p)
  }

  /** `r` occurs in `s` at `i` as a maximal run of `p`-characters that no
      earlier `p`-character precedes. */
  predicate LeftmostRunAt(s: string, i: nat, r: string, p: char -> bool) {
    && i + |r| <= |s| && s[i..i + |r|] == r
    && (forall k | 0 <= k < |r| :: p(r[k]))
    && (forall k | 0 <= k < i :: !p(s[k]))
    && (i + |r| == |s| || !p(s[i + |r|]))
  }

  /** What `re.search(r"(X+)", s).group(1)` returns when `X` is the class
      `p`: the leftmost maximal run of `p`-characters, or "" when there
      is no match. */
  function FirstRun(s: string, p: char -> bool): (r: string)
    ensures forall k | 0 <= k < |r| :: p(r[k])
    ensures r == [] <==> forall k | 0 <= k < |s| :: !p(s[k])
    ensures r != [] ==> exists i :: LeftmostRunAt(s, i, r, p)
  {
    var i := FirstFrom(s, 0, p);
    var j := RunEnd(s, i, p);
    assert i < |s| ==> j > i;
    assert LeftmostRunAt(s, i, s[i..j], p);
    s[i..j]
  }

  /** The first `p`-character at or after `i` is the one at `j`. */
  lemma FirstFromAt(s: string, i: nat, j: nat, p: char -> bool)
    requires i <= j < |s| && p(s[j])
    requires forall k | i <= k < j :: !p(s[k])
    ensures FirstFrom(s, i, p) == j
  {
  }

  /** The run starting at `i` ends at `j`. */
  lemma RunEndAt(s: string, i: nat, j: nat, p: char -> bool)
    requires i <= j <= |s|
    requires forall k | i <= k < j :: p(s[k])
    requires j == |s| || !p(s[j])
    ensures RunEnd(s, i, p) == j
  {
  }

  /** The leftmost run of `a + r + b` is `r` when `a` has no `p`-character,
      `r` is a non-empty run and `b` does not continue it. */
  lemma FirstRunOf(a: string, r: string, b: string, p: char -> bool)
    requires forall k | 0 <= k < |a| :: !p(a[k])
    requires r != [] && forall k | 0 <= k < |r| :: p(r[k])
    requires b == [] || !p(b[0])
    ensures FirstRun(a + r + b, p) == r
  {
    var s := a + r + b;
    assert forall k | 0 <= k < |a| :: s[k] == a[k];
    assert forall k | |a| <= k < |a| + |r| :: s[k] == r[k - |a|];
    FirstFromAt(s, 0, |a|, p);
    assert |a| + |r| < |s| ==> s[|a| + |r|] == b[0];
    RunEndAt(s, |a|, |a| + |r|, p);
    assert s[|a|..|a| + |r|] == r;
  }

  /** A non-empty leftmost maximal run is the one `FirstRun` returns. */
  lemma LeftmostRunIsFirstRun(s: string, i: nat, r: string, p: char -> bool)
    requires r != [] && LeftmostRunAt(s, i, r, p)
    ensures FirstRun(s, p) == r
  {
    assert forall k | i <= k < i + |r| :: s[k] == r[k - i];
    FirstFromAt(s, 0, i, p);
    RunEndAt(s, i, i + |r|, p);
  }

  /** The leftmost maximal run is unique. */
  lemma FirstRunUnique(s: string, p: char -> bool)
    ensures forall i, r :: LeftmostRunAt(s, i, r, p) && r != [] ==> r == FirstRun(s, p)
  {
    forall i, r | LeftmostRunAt(s, i, r, p) && r != []
      ensures r == FirstRun(s, p)
    {
      LeftmostRunIsFirstRun(s, i, r, p);
    }
  }

  /** Joining two non-empty lists puts one separator between their joins. */
  lemma {:induction false} JoinAppend(sep: string, xs: seq<string>, ys: seq<string>)
    requires xs != [] && ys != []
    ensures Join(sep, xs + ys) == Join(sep, xs) + sep + Join(sep, ys)
    decreases |xs|
  {
    if |xs| == 1 {
      assert (xs + ys)[1..] == ys;
    } else {
      assert (xs + ys)[1..] == xs[1..] + ys;
      JoinAppend(sep, xs[1..], ys);
    }
  }

  /** A character of `key` occurs in every text that contains `key`. */
  lemma ContainsChar(s: string, key: string, j: nat)
    requires Contains(s, key) && j < |key|
    ensures key[j] in s
  {
    var i := ContainsWitness(s, key);
    assert s[i..i + |key|][j] == s[i + j];
  }

  lemma Assoc<T>(a: seq<T>, b: seq<T>, c: seq<T>)
    ensures a + (b + c) == (a + b) + c
  {
  }

  lemma Pair<T>(a: T, b: T)
    ensures [a] + [b] == [a, b]
  {
  }
}
