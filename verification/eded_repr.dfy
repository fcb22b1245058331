/** The representation notation of the UN/EDIFACT data element directory
    (`a3`, `n..15`, `an..35`) and the lookup tables of the preprocessor
    (rag/chromadb/edi_demo/preprocess.py:4-41). */
module EdedRepr {
  import opened Wrappers
  import opened PyStr

  /** What makes `read()` raise. */
  datatype EdedError =
    | KeyError(key: string)   // a dictionary lookup with a missing key
    | ReprUnbound             // `prepr` read before any `Repr:` line assigned it

  const UsageDict: map<string, string> := map[
    "[B]" := "used in batch messages only",
    "[I]" := "used in interactive messages only",
    "[C]" := "common usage in both batch and interactive messages"
  ]

  const ReprDict: map<string, string> := map[
    "a" := "alphabetic",
    "n" := "numeric",
    "an" := "alphanumeric"
  ]

  /** `USAGE_DICT[tag]`. */
  function UsageDescription(tag: string): (r: Result<string, EdedError>)
    ensures r.Success? <==> tag == "[B]" || tag == "[I]" || tag == "[C]"
    ensures r.Failure? ==> r.error == KeyError(tag)
  {
    if tag in UsageDict then Success(UsageDict[tag]) else Failure(KeyError(tag))
  }

  /** The character class `[a|n|an]`: a bracket lists characters, so this is
      `a`, `n` and `|`, not the alternatives "a", "n", "an". */
  predicate IsReprChar(c: char) {
    c == 'a' || c == 'n' || c == '|'
  }

  predicate HasChar(s: string, p: char -> bool) {
    exists k | 0 <= k < |s| :: p(s[k])
  }

  /** What `parseRepr` returns: the description, the type and the maximum
      length. */
  datatype ReprInfo = ReprInfo(description: string, reprType: string, maxLength: string)

  /** `parseRepr(repr)`: "Up to " when the length is variable, then the
      first digit run and the type name of the first `[a|n|an]+` run, each
      followed by a space, then "character" or "characters". A type run
      that is not a key of the table raises `KeyError`. */
  function ParseRepr(repr: string): (r: Result<ReprInfo, EdedError>)
    ensures r.Failure? <==> exists i, run :: LeftmostRunAt(repr, i, run, IsReprChar) && run != [] && run !in ReprDict
    ensures r.Failure? ==> r.error.KeyError? && r.error.key !in ReprDict
    ensures r.Success? ==>
      var max := r.value.maxLength;
      var t := r.value.reprType;
      && (forall k | 0 <= k < |max| :: IsDigit(max[k]))
      && (max == [] <==> !HasChar(repr, IsDigit))
      && (max != [] ==> exists i :: LeftmostRunAt(repr, i, max, IsDigit))
      && (t == [] <==> !HasChar(repr, IsReprChar))
      && (t != [] ==> exists i, run :: LeftmostRunAt(repr, i, run, IsReprChar) && run in ReprDict && ReprDict[run] == t)
      && r.value.description ==
           (if Contains(repr, "..") then "Up to " else "")
           + (if max != [] then max + " " else "")
           + (if t != [] then t + " " else "")
           + (if max == "1" then "character" else "characters")
  {
    var max := FirstRun(repr, IsDigit);
    var run := FirstRun(repr, IsReprChar);
    FirstRunUnique(repr, IsReprChar);
    if run != [] && run !in ReprDict then
      Failure(KeyError(run))
    else
      var t := if run != [] then ReprDict[run] else "";
      var description :=
        (if Contains(repr, "..") then "Up to " else "")
        + (if max != [] then max + " " else "")
        + (if run != [] then t + " " else "")
        + (if max == "1" then "character" else "characters");
      Success(ReprInfo(description, t, max))
  }

  lemma CodeChars(code: string)
    requires code in ReprDict
    ensures code != [] && forall k | 0 <= k < |code| :: IsReprChar(code[k]) && !IsDigit(code[k])
  {
    assert code == "a" || code == "n" || code == "an";
  }

  lemma DotAt(s: string, i: nat)
    requires i + 2 <= |s| && s[i..i + 2] == ".."
    ensures s[i] == '.'
  {
    assert s[i..i + 2][0] == s[i];
  }

  /** A string without a dot has no `..`. */
  lemma NoDots(s: string)
    requires forall k | 0 <= k < |s| :: s[k] != '.'
    ensures !Contains(s, "..")
  {
    if Contains(s, "..") {
      var i := ContainsWitness(s, "..");
      DotAt(s, i);
      assert false;
    }
  }

  /** Whether the canonical representation has `..` is up to `variable`. */
  lemma CanonicalDots(code: string, variable: bool, digits: string)
    requires forall k | 0 <= k < |code| :: code[k] != '.'
    requires forall k | 0 <= k < |digits| :: IsDigit(digits[k])
    ensures Contains(code + (if variable then ".." else "") + digits, "..") <==> variable
  {
    if variable {
      var repr := code + ".." + digits;
      assert repr[|code|..|code| + 2] == "..";
      ContainsAt(repr, "..", |code|);
    } else {
      var repr := code + (if variable then ".." else "") + digits;
      assert |repr| == |code| + |digits|;
      forall k | 0 <= k < |repr| ensures repr[k] != '.' {
        if k < |code| { assert repr[k] == code[k]; } else { assert repr[k] == digits[k - |code|]; }
      }
      NoDots(repr);
    }
  }

  lemma CanonicalDigits(code: string, dots: string, digits: string)
    requires code in ReprDict
    requires forall k | 0 <= k < |dots| :: dots[k] == '.'
    requires digits != [] && forall k | 0 <= k < |digits| :: IsDigit(digits[k])
    ensures FirstRun(code + dots + digits, IsDigit) == digits
  {
    CodeChars(code);
    var a := code + dots;
    assert forall k | 0 <= k < |a| :: !IsDigit(a[k]) by {
      assert forall k | 0 <= k < |code| :: a[k] == code[k];
      assert forall k | |code| <= k < |a| :: a[k] == dots[k - |code|];
    }
    FirstRunOf(a, digits, [], IsDigit);
    assert a + digits + [] == code + dots + digits;
  }

  lemma CanonicalCode(code: string, dots: string, digits: string)
    requires code in ReprDict
    requires forall k | 0 <= k < |dots| :: dots[k] == '.'
    requires digits != [] && forall k | 0 <= k < |digits| :: IsDigit(digits[k])
    ensures FirstRun(code + dots + digits, IsReprChar) == code
  {
    CodeChars(code);
    var b := dots + digits;
    assert !IsReprChar(b[0]) by {
      if dots != [] {
        assert b[0] == dots[0];
      } else {
        assert b[0] == digits[0];
      }
    }
    FirstRunOf([], code, b, IsReprChar);
    assert [] + code + b == code + dots + digits;
  }

  /** `parseRepr` on a representation whose runs are known. */
  lemma ParseKnownRuns(repr: string, code: string, variable: bool, digits: string)
    requires FirstRun(repr, IsDigit) == digits && digits != []
    requires FirstRun(repr, IsReprChar) == code && code in ReprDict
    requires Contains(repr, "..") <==> variable
    ensures ParseRepr(repr) == Success(ReprInfo(
        (if variable then "Up to " else "") + (digits + " ") + (ReprDict[code] + " ")
          + (if digits == "1" then "character" else "characters"),
        ReprDict[code], digits))
  {
  }

  /** The runs `parseRepr` looks for in a canonical representation. */
  lemma CanonicalRuns(code: string, variable: bool, digits: string)
    requires code in ReprDict
    requires digits != [] && forall k | 0 <= k < |digits| :: IsDigit(digits[k])
    ensures var repr := code + (if variable then ".." else "") + digits;
      && FirstRun(repr, IsDigit) == digits
      && FirstRun(repr, IsReprChar) == code
      && (Contains(repr, "..") <==> variable)
  {
    var dots := if variable then ".." else "";
    CanonicalDigits(code, dots, digits);
    CanonicalCode(code, dots, digits);
    CodeChars(code);
    CanonicalDots(code, variable, digits);
  }

  /** The representations the directory actually uses: a type code, an
      optional `..` for variable length, and a digit run. `parseRepr`
      recovers the maximum length and the type name from them. */
  lemma ParseCanonical(code: string, variable: bool, digits: string)
    requires code in ReprDict
    requires digits != [] && forall k | 0 <= k < |digits| :: IsDigit(digits[k])
    ensures var repr := code + (if variable then ".." else "") + digits;
      ParseRepr(repr) == Success(ReprInfo(
        (if variable then "Up to " else "") + (digits + " ") + (ReprDict[code] + " ")
          + (if digits == "1" then "character" else "characters"),
        ReprDict[code], digits))
  {
    CanonicalRuns(code, variable, digits);
    ParseKnownRuns(code + (if variable then ".." else "") + digits, code, variable, digits);
  }

  /** A run over `a`, `n` and `|` that is not a type code stops the parse,
      as "na3" or "a|n" would. */
  lemma UnknownTypeRaises(code: string, rest: string)
    requires code != [] && forall k | 0 <= k < |code| :: IsReprChar(code[k])
    requires code !in ReprDict
    requires rest == [] || !IsReprChar(rest[0])
    ensures ParseRepr(code + rest) == Failure(KeyError(code))
  {
    FirstRunOf([], code, rest, IsReprChar);
    assert [] + code + rest == code + rest;
  }
}
