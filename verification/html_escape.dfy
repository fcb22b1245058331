/** `html.escape(s, quote=True)` from the Python standard library, which
    `validate_input` applies to every accepted query, and the decoder that
    undoes it. */
module HtmlEscape {
  import opened PyStr

  /** The five characters `html.escape` rewrites. */
  predicate IsSpecial(c: char) {
    c == '&' || c == '<' || c == '>' || c == '"' || c == '\''
  }

  predicate HasSpecial(s: string) {
    exists k | 0 <= k < |s| :: IsSpecial(s[k])
  }

  function EscapeChar(c: char): (r: string)
    ensures |r| >= 1
    ensures IsSpecial(c) ==> r[0] == '&' && |r| > 1
    ensures !IsSpecial(c) ==> r == [c]
  {
    match c
    case '&' => "&amp;"
    case '<' => "&lt;"
    case '>' => "&gt;"
    case '"' => "&quot;"
    case '\'' => "&#x27;"
    case _ => [c]
  }

  /** `s` begins with one of the five entities `html.escape` emits. */
  predicate StartsWithEntity(s: string) {
    StartsWith(s, "&amp;") || StartsWith(s, "&lt;") || StartsWith(s, "&gt;")
    || StartsWith(s, "&quot;") || StartsWith(s, "&#x27;")
  }

  /** `html.escape(s, quote=True)`, one character at a time. */
  function Escape(s: string): (r: string)
    ensures |r| >= |s|
    decreases |s|
  {
    if s == [] then [] else EscapeChar(s[0]) + Escape(s[1..])
  }

  lemma EscapeCons(c: char, t: string)
    ensures Escape([c] + t) == EscapeChar(c) + Escape(t)
  {
    assert ([c] + t)[1..] == t;
  }

  /** The escaped text carries none of the markup characters `<`, `>`, `"`, `'`. */
  lemma {:induction false} EscapeHasNoMarkup(s: string)
    ensures forall k | 0 <= k < |Escape(s)| ::
      Escape(s)[k] != '<' && Escape(s)[k] != '>' && Escape(s)[k] != '"' && Escape(s)[k] != '\''
    decreases |s|
  {
    if s != [] {
      EscapeHasNoMarkup(s[1..]);
      var h := EscapeChar(s[0]);
      var t := Escape(s[1..]);
      assert forall k | |h| <= k < |h + t| :: (h + t)[k] == t[k - |h|];
    }
  }

  /** Every `&` of the escaped text opens one of the five entities. */
  lemma {:induction false} EscapeAmpersandsOpenEntities(s: string)
    ensures forall k | 0 <= k < |Escape(s)| :: Escape(s)[k] == '&' ==> StartsWithEntity(Escape(s)[k..])
    decreases |s|
  {
    if s != [] {
      EscapeAmpersandsOpenEntities(s[1..]);
      var h := EscapeChar(s[0]);
      var t := Escape(s[1..]);
      var r := h + t;
      assert Escape(s) == r;
      forall k | 0 <= k < |r| && r[k] == '&'
        ensures StartsWithEntity(r[k..])
      {
        if k >= |h| {
          assert r[k..] == t[k - |h|..];
          assert t[k - |h|] == '&';
        } else {
          assert IsSpecial(s[0]) && k == 0;
          assert r[k..] == h + t;
          assert h[..|h|] == h;
        }
      }
    }
  }

  /** ASCII text stays ASCII. */
  lemma {:induction false} EscapeKeepsAscii(s: string)
    requires IsAscii(s)
    ensures IsAscii(Escape(s))
    decreases |s|
  {
    if s != [] {
      EscapeKeepsAscii(s[1..]);
      var h := EscapeChar(s[0]);
      var t := Escape(s[1..]);
      assert forall k | |h| <= k < |h + t| :: (h + t)[k] == t[k - |h|];
    }
  }

  /** Escaping changes nothing exactly when there is nothing to escape. */
  lemma {:induction false} EscapeIdentity(s: string)
    ensures Escape(s) == s <==> !HasSpecial(s)
    decreases |s|
  {
    if s != [] {
      EscapeIdentity(s[1..]);
      var h := EscapeChar(s[0]);
      var t := Escape(s[1..]);
      assert HasSpecial(s) <==> IsSpecial(s[0]) || HasSpecial(s[1..]) by {
        if HasSpecial(s[1..]) {
          var k :| 0 <= k < |s[1..]| && IsSpecial(s[1..][k]);
          assert IsSpecial(s[k + 1]);
        }
        if HasSpecial(s) && !IsSpecial(s[0]) {
          var k :| 0 <= k < |s| && IsSpecial(s[k]);
          assert IsSpecial(s[1..][k - 1]);
        }
      }
      if IsSpecial(s[0]) {
        assert |h + t| > |s|;
      } else {
        assert s == [s[0]] + s[1..];
        assert h + t == s ==> t == s[1..] by {
          if h + t == s {
            assert t == (h + t)[1..];
          }
        }
      }
    }
  }

  /** Decodes the five entities `Escape` produces and keeps everything else. */
  function Unescape(s: string): string
    decreases |s|
  {
    if s == [] then []
    else if StartsWith(s, "&amp;") then "&" + Unescape(s[5..])
    else if StartsWith(s, "&lt;") then "<" + Unescape(s[4..])
    else if StartsWith(s, "&gt;") then ">" + Unescape(s[4..])
    else if StartsWith(s, "&quot;") then "\"" + Unescape(s[6..])
    else if StartsWith(s, "&#x27;") then "'" + Unescape(s[6..])
    else [s[0]] + Unescape(s[1..])
  }

  lemma UnescapeAfterEscapeChar(c: char, t: string)
    ensures Unescape(EscapeChar(c) + t) == [c] + Unescape(t)
  {
    var h := EscapeChar(c);
    var s := h + t;
    assert s[..|h|] == h;
    assert s[|h|..] == t;
    if c == '&' {
      assert StartsWith(s, "&amp;");
    } else if c == '<' {
      assert !StartsWith(s, "&amp;") by { assert s[1] == 'l'; }
      assert StartsWith(s, "&lt;");
    } else if c == '>' {
      assert !StartsWith(s, "&amp;") && !StartsWith(s, "&lt;") by { assert s[1] == 'g'; }
      assert StartsWith(s, "&gt;");
    } else if c == '"' {
      assert !StartsWith(s, "&amp;") && !StartsWith(s, "&lt;") && !StartsWith(s, "&gt;") by { assert s[1] == 'q'; }
      assert StartsWith(s, "&quot;");
    } else if c == '\'' {
      assert !StartsWith(s, "&amp;") && !StartsWith(s, "&lt;") && !StartsWith(s, "&gt;")
        && !StartsWith(s, "&quot;") by { assert s[1] == '#'; }
      assert StartsWith(s, "&#x27;");
    } else {
      assert s[0] == c && c != '&';
      assert !StartsWith(s, "&amp;") && !StartsWith(s, "&lt;") && !StartsWith(s, "&gt;")
        && !StartsWith(s, "&quot;") && !StartsWith(s, "&#x27;");
      assert s[1..] == t;
    }
  }

  /** Unescaping the escaped text gives the original text back. */
  lemma {:induction false} UnescapeEscape(s: string)
    ensures Unescape(Escape(s)) == s
    decreases |s|
  {
    if s != [] {
      UnescapeEscape(s[1..]);
      UnescapeAfterEscapeChar(s[0], Escape(s[1..]));
      assert s == [s[0]] + s[1..];
    }
  }

  /** Text that is the escaping of something: what `validate_input` stores. */
  predicate IsEscaped(s: string) {
    Escape(Unescape(s)) == s
  }

  lemma EscapedIsEscaped(s: string)
    ensures IsEscaped(Escape(s))
  {
    UnescapeEscape(s);
  }

  /** `Escape` is injective: two queries with the same escaping are equal. */
  lemma EscapeInjective(a: string, b: string)
    requires Escape(a) == Escape(b)
    ensures a == b
  {
    UnescapeEscape(a);
    UnescapeEscape(b);
  }

  /** `html.escape` as the library writes it: five `str.replace` calls, the
      ampersand first so that the entities added later are not re-escaped. */
  function ReplaceChain(s: string): string {
    var s1 := ReplaceAll(s, "&", "&amp;");
    var s2 := ReplaceAll(s1, "<", "&lt;");
    var s3 := ReplaceAll(s2, ">", "&gt;");
    var s4 := ReplaceAll(s3, "\"", "&quot;");
    ReplaceAll(s4, "'", "&#x27;")
  }

  lemma {:induction false} ReplaceCharAppend(a: string, b: string, c: char, repl: string)
    ensures ReplaceAll(a + b, [c], repl) == ReplaceAll(a, [c], repl) + ReplaceAll(b, [c], repl)
    decreases |a|
  {
    if a == [] {
      assert a + b == b;
    } else {
      assert (a + b)[1..] == a[1..] + b;
      assert (a + b)[..1] == a[..1];
      ReplaceCharAppend(a[1..], b, c, repl);
    }
  }

  lemma ReplaceChainAppend(a: string, b: string)
    ensures ReplaceChain(a + b) == ReplaceChain(a) + ReplaceChain(b)
  {
    ReplaceCharAppend(a, b, '&', "&amp;");
    var a1, b1 := ReplaceAll(a, "&", "&amp;"), ReplaceAll(b, "&", "&amp;");
    ReplaceCharAppend(a1, b1, '<', "&lt;");
    var a2, b2 := ReplaceAll(a1, "<", "&lt;"), ReplaceAll(b1, "<", "&lt;");
    ReplaceCharAppend(a2, b2, '>', "&gt;");
    var a3, b3 := ReplaceAll(a2, ">", "&gt;"), ReplaceAll(b2, ">", "&gt;");
    ReplaceCharAppend(a3, b3, '"', "&quot;");
    var a4, b4 := ReplaceAll(a3, "\"", "&quot;"), ReplaceAll(b3, "\"", "&quot;");
    ReplaceCharAppend(a4, b4, '\'', "&#x27;");
  }

  lemma ReplaceAbsent(s: string, c: char, repl: string)
    requires c !in s
    ensures ReplaceAll(s, [c], repl) == s
  {
    assert !Contains(s, [c]) by {
      if Contains(s, [c]) {
        ContainsChar(s, [c], 0);
        assert false;
      }
    }
  }

  lemma ReplaceChainChar(c: char)
    ensures ReplaceChain([c]) == EscapeChar(c)
  {
    var s1 := ReplaceAll([c], "&", "&amp;");
    if c != '&' {
      ReplaceAbsent([c], '&', "&amp;");
    }
    if c != '<' {
      ReplaceAbsent(s1, '<', "&lt;");
    }
    var s2 := ReplaceAll(s1, "<", "&lt;");
    if c != '>' {
      ReplaceAbsent(s2, '>', "&gt;");
    }
    var s3 := ReplaceAll(s2, ">", "&gt;");
    if c != '"' {
      ReplaceAbsent(s3, '"', "&quot;");
    }
    var s4 := ReplaceAll(s3, "\"", "&quot;");
    if c != '\'' {
      ReplaceAbsent(s4, '\'', "&#x27;");
    }
  }

  /** The per-character `Escape` agrees with the chain of replacements. */
  lemma {:induction false} EscapeIsReplaceChain(s: string)
    ensures ReplaceChain(s) == Escape(s)
    decreases |s|
  {
    if s != [] {
      assert s == [s[0]] + s[1..];
      ReplaceChainAppend([s[0]], s[1..]);
      ReplaceChainChar(s[0]);
      EscapeIsReplaceChain(s[1..]);
    }
  }
}
