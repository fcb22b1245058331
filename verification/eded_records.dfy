/** The record extraction of `read()` (rag/chromadb/edi_demo/preprocess.py:43-118)
    as a pure function from the directory text to the list of records,
    without the file reading and the JSON writing around it. */
module EdedRecords {
  import opened Wrappers
  import opened PyStr
  import opened EdedRepr
  import opened EdedSections
  import opened Loops

  /** The per-section variables of `read()`; all of them start empty in every
      section. `prepr` is not among them: it lives across sections. */
  datatype Fields = Fields(
    id: string, name: string, desc: string, note: string,
    repr: string, usage: string, usageDesc: string)

  const Blank := Fields("", "", "", "", "", "", "")

  /** One element of `rag_input`. */
  datatype Record = Record(
    id: string, text: string, name: string, description: string,
    representation: string, representationDescription: string,
    note: Option<string>, usage: string, usageDescription: string)

  predicate IsBlank(line: string) {
    Strip(line) == []
  }

  /** `[line for line in lines if line.strip()]`. */
  function NonBlank(lines: seq<string>): (r: seq<string>)
    ensures |r| <= |lines|
  {
    if lines == [] then []
    else (if IsBlank(lines[0]) then [] else [lines[0]]) + NonBlank(lines[1..])
  }

  /** The kept lines are exactly the lines that are not blank. */
  lemma {:induction false} NonBlankFilter(lines: seq<string>)
    ensures forall x :: x in NonBlank(lines) <==> x in lines && !IsBlank(x)
  {
    if lines != [] {
      NonBlankFilter(lines[1..]);
      assert lines == [lines[0]] + lines[1..];
      var head := if IsBlank(lines[0]) then [] else [lines[0]];
      assert NonBlank(lines) == head + NonBlank(lines[1..]);
      assert forall x :: x in lines <==> x == lines[0] || x in lines[1..];
    }
  }

  /** `sectionLines`: the non-blank lines of the stripped section. */
  function SectionLines(section: string): seq<string> {
    NonBlank(Split(Strip(section), '\n'))
  }

  /** `re.search(r"^(\d+)", line)`: the digits at the very start of the line. */
  function LeadingDigits(line: string): (id: string)
    ensures StartsWith(line, id)
    ensures forall k | 0 <= k < |id| :: IsDigit(id[k])
    ensures |id| == |line| || !IsDigit(line[|id|])
  {
    line[..RunEnd(line, 0, IsDigit)]
  }

  /** The character class `[B|I|C]`, which also admits `|`. */
  predicate IsTagChar(c: char) {
    c == 'B' || c == 'I' || c == 'C' || c == '|'
  }

  /** `re.search(r"(\[[B|I|C]\])$", line)`: a three-character tag that ends
      the line. */
  function UsageTag(line: string): Option<string>
  {
    var n := |line|;
    if n >= 3 && line[n - 3] == '[' && IsTagChar(line[n - 2]) && line[n - 1] == ']' then
      Some(line[n - 3..])
    else None
  }

  /** Of the four tags the pattern admits, only `[|]` is missing from
      `USAGE_DICT`. */
  lemma UsageTagKnown(line: string)
    requires UsageTag(line).Some?
    ensures var tag := UsageTag(line).value;
      && (UsageDescription(tag).Failure? <==> tag == "[|]")
      && (UsageDescription(tag).Success? ==> tag in UsageDict)
  {
    var n := |line|;
    assert line[n - 3..] == [line[n - 3], line[n - 2], line[n - 1]];
  }

  /** `re.sub(id, "", line).strip()` on a line that starts with the digits `id`. */
  function IdRest(line: string): string
    requires LeadingDigits(line) != []
  {
    Strip(ReplaceAll(line, LeadingDigits(line), ""))
  }

  /** What `line` holds after the id branch: on a line that starts with
      digits, every occurrence of those digits and then of a trailing usage
      tag removed, the rest stripped. Other lines are kept as they are. */
  function AfterId(line: string): string {
    if LeadingDigits(line) == [] then line
    else
      var l1 := IdRest(line);
      match UsageTag(l1)
      case None => l1
      case Some(tag) => Strip(ReplaceAll(l1, tag, ""))
  }

  predicate NoDigit(s: string) {
    forall k | 0 <= k < |s| :: !IsDigit(s[k])
  }

  /** One character of text without digits, given the claim for the rest. */
  lemma RemoveSkipsStep(x: string, y: string, id: string)
    requires id != [] && forall k | 0 <= k < |id| :: IsDigit(id[k])
    requires x != [] && !IsDigit(x[0])
    requires ReplaceAll(x[1..] + y, id, "") == x[1..] + ReplaceAll(y, id, "")
    ensures ReplaceAll(x + y, id, "") == x + ReplaceAll(y, id, "")
  {
    var s := x + y;
    assert s[1..] == x[1..] + y;
    if |s| < |id| {
      assert ReplaceAll(y, id, "") == y;
    } else {
      assert s[..|id|] != id by {
        assert s[..|id|][0] == x[0];
      }
      assert [x[0]] + (x[1..] + ReplaceAll(y, id, "")) == x + ReplaceAll(y, id, "");
    }
  }

  /** Text without digits holds no occurrence of a digit string. */
  lemma {:induction false} RemoveSkipsText(x: string, y: string, id: string)
    requires id != [] && forall k | 0 <= k < |id| :: IsDigit(id[k])
    requires NoDigit(x)
    ensures ReplaceAll(x + y, id, "") == x + ReplaceAll(y, id, "")
    decreases |x|
  {
    if x != [] {
      assert NoDigit(x[1..]) by {
        forall k | 0 <= k < |x[1..]| ensures !IsDigit(x[1..][k]) {
          assert x[1..][k] == x[k + 1];
        }
      }
      RemoveSkipsText(x[1..], y, id);
      RemoveSkipsStep(x, y, id);
    } else {
      assert x + y == y;
    }
  }

  /** A digit run followed by a non-digit is the line's leading id. */
  lemma LeadingRun(id: string, rest: string)
    requires forall k | 0 <= k < |id| :: IsDigit(id[k])
    requires rest != [] && !IsDigit(rest[0])
    ensures LeadingDigits(id + rest) == id
  {
    var line := id + rest;
    assert forall k | 0 <= k < |id| :: line[k] == id[k];
    assert line[|id|] == rest[0];
    RunEndAt(line, 0, |id|, IsDigit);
    assert line[..|id|] == id;
  }

  /** Removing `id` from a text that starts with it drops that occurrence. */
  lemma RemoveLeading(id: string, rest: string)
    requires id != []
    ensures ReplaceAll(id + rest, id, "") == ReplaceAll(rest, id, "")
  {
    assert (id + rest)[..|id|] == id && (id + rest)[|id|..] == rest;
  }

  /** The digits of the id are removed wherever they occur on the line,
      not only at its start: on `id + a + id + b`, with no other digits,
      the name is what is left of `a + b`. */
  lemma IdRemovedEverywhere(id: string, a: string, b: string)
    requires id != [] && forall k | 0 <= k < |id| :: IsDigit(id[k])
    requires a != [] && NoDigit(a) && NoDigit(b)
    ensures LeadingDigits(id + a + id + b) == id
    ensures IdRest(id + a + id + b) == Strip(a + b)
  {
    var rest := a + (id + b);
    var line := id + rest;
    assert id + a + id + b == line;
    LeadingRun(id, rest);
    assert ReplaceAll(line, id, "") == a + b by {
      RemoveLeading(id, rest);
      RemoveLeading(id, b);
      RemoveSkipsText(b, [], id);
      assert b + [] == b;
      RemoveSkipsText(a, id + b, id);
    }
  }

  /** The id branch of the line loop: `id`, `usage`, `usage_desc` and `name`.
      A `[|]` tag is not a key of `USAGE_DICT` and raises. */
  function ApplyId(f: Fields, line: string): (r: Result<Fields, EdedError>)
    ensures r.Failure? ==> r.error.KeyError?
  {
    var id := LeadingDigits(line);
    if id == [] then Success(f)
    else
      match UsageTag(IdRest(line))
      case None => Success(f.(id := id, name := Strip(AfterId(line))))
      case Some(tag) =>
        match UsageDescription(tag)
        case Failure(e) => Failure(e)
        case Success(desc) => Success(f.(id := id, usage := tag, usageDesc := desc, name := Strip(AfterId(line))))
  }

  /** The id branch sets `id` to the leading digit run and `name` to the
      rest of the line, and the usage fields from a trailing tag; a `[|]`
      tag raises `KeyError`. Lines without leading digits change nothing. */
  lemma ApplyIdSpec(f: Fields, line: string)
    ensures LeadingDigits(line) == [] ==> ApplyId(f, line) == Success(f)
    ensures ApplyId(f, line).Failure? <==> LeadingDigits(line) != [] && UsageTag(IdRest(line)) == Some("[|]")
    ensures ApplyId(f, line).Failure? ==> ApplyId(f, line).error == KeyError("[|]")
    ensures var r := ApplyId(f, line);
      r.Success? && LeadingDigits(line) != [] ==>
        && r.value.id == LeadingDigits(line) && r.value.name == Strip(AfterId(line))
        && match UsageTag(IdRest(line))
           case None => r.value.usage == f.usage && r.value.usageDesc == f.usageDesc
           case Some(tag) => r.value.usage == tag && tag in UsageDict && r.value.usageDesc == UsageDict[tag]
  {
    if LeadingDigits(line) != [] && UsageTag(IdRest(line)).Some? {
      UsageTagKnown(IdRest(line));
    }
  }

  /** The id branch touches neither the description, the representation
      nor the note. */
  lemma ApplyIdKeeps(f: Fields, line: string)
    ensures ApplyId(f, line).Success? ==>
      var g := ApplyId(f, line).value;
      g.desc == f.desc && g.repr == f.repr && g.note == f.note
  {
    if LeadingDigits(line) != [] {
      match UsageTag(IdRest(line))
      case None =>
      case Some(tag) =>
    }
  }

  /** A line that names a field has a colon to split at. */
  lemma FieldHasColon(line: string, key: string)
    requires Contains(line, key) && key != [] && key[|key| - 1] == ':'
    ensures ':' in line
  {
    ContainsChar(line, key, |key| - 1);
  }

  /** The two keys whose value the loop reads after the colon. */
  predicate FieldKey(key: string) {
    key == "Desc:" || key == "Repr:"
  }

  /** `line.split(":")[1].strip()` on a line that names `key`, whose colon
      guarantees the second piece. */
  function FieldValue(line: string, key: string): string
    requires Contains(line, key) && FieldKey(key)
  {
    FieldHasColon(line, key);
    Strip(ColonPieces(line)[1])
  }

  /** `line.split(":")` on a line with a colon: at least two pieces. */
  function ColonPieces(line: string): (r: seq<string>)
    requires ':' in line
    ensures |r| >= 2
  {
    SplitJoin(line, ':');
    Split(line, ':')
  }

  /** One line of the note: stripped, a leading "1" and one whitespace
      character removed (`re.sub(r"^\s?1\s", "", ...)`, where `\s?` finds
      nothing to match on a stripped line), stripped again. */
  function NoteLine(l: string): (r: string)
    ensures IsStripped(r)
  {
    var n := Strip(l);
    Strip(if |n| >= 2 && n[0] == '1' && IsSpace(n[1]) then n[2..] else n)
  }

  /** The inner loop of the `Note:` branch over the lines that follow. */
  function NoteFold(note: string, rest: seq<string>): (r: string)
    ensures IsStripped(note) ==> IsStripped(r)
    decreases |rest|
  {
    if rest == [] then note
    else NoteFold(Strip(note + " " + NoteLine(rest[0])), rest[1..])
  }

  /** The `Desc:` branch on the line as the id branch left it. */
  function DescStep(f: Fields, line: string): (g: Fields)
    ensures g == f.(desc := g.desc)
  {
    if Contains(line, "Desc:") then f.(desc := FieldValue(line, "Desc:")) else f
  }

  /** The `Repr:` branch: the field and, through `parseRepr`, a new `prepr`. */
  function ReprStep(f: Fields, prepr: Option<string>, line: string): (r: Result<(Fields, Option<string>), EdedError>)
    ensures r.Failure? ==> r.error.KeyError?
    ensures prepr.Some? && r.Success? ==> r.value.1.Some?
    ensures r.Success? ==> r.value.0 == f.(repr := r.value.0.repr)
  {
    if Contains(line, "Repr:") then
      var v := FieldValue(line, "Repr:");
      match ParseRepr(v)
      case Failure(e) => Failure(e)
      case Success(info) => Success((f.(repr := v), Some(info.description)))
    else Success((f, prepr))
  }

  /** The `Note:` branch of `sectionLines[i]`: the lines after it folded in. */
  function NoteStep(f: Fields, line: string, lines: seq<string>, i: nat): (g: Fields)
    requires i < |lines|
    ensures g == f.(note := g.note)
  {
    if Contains(line, "Note:") then f.(note := NoteFold(f.note, lines[i + 1..])) else f
  }

  /** The processing of `sectionLines[i]`, with `prepr` carried alongside. */
  function ProcessLine(f: Fields, prepr: Option<string>, lines: seq<string>, i: nat)
    : (r: Result<(Fields, Option<string>), EdedError>)
    requires i < |lines|
    ensures r.Failure? ==> r.error.KeyError?
    ensures prepr.Some? && r.Success? ==> r.value.1.Some?
  {
    match ApplyId(f, lines[i])
    case Failure(e) => Failure(e)
    case Success(f1) =>
      var line := AfterId(lines[i]);
      match ReprStep(DescStep(f1, line), prepr, line)
      case Failure(e) => Failure(e)
      case Success(st) => Success((NoteStep(st.0, line, lines, i), st.1))
  }

  /** The body of the line loop as a step on `(fields, prepr)`; the loop
      never reaches an index past the last line. */
  function LineStep(lines: seq<string>)
    : ((Fields, Option<string>), nat) -> Result<(Fields, Option<string>), EdedError>
  {
    (st: (Fields, Option<string>), k: nat) => if k < |lines| then ProcessLine(st.0, st.1, lines, k) else Success(st)
  }

  /** The line loop raises only KeyErrors. */
  lemma LineLoopRaises(f: Fields, prepr: Option<string>, lines: seq<string>)
    ensures Run(LineStep(lines), (f, prepr), 0, |lines|).Failure? ==>
      Run(LineStep(lines), (f, prepr), 0, |lines|).error.KeyError?
  {
    var step := LineStep(lines);
    forall t: (Fields, Option<string>), k: nat | 0 <= k < |lines| && step(t, k).Failure?
      ensures step(t, k).error.KeyError?
    {
      assert step(t, k) == ProcessLine(t.0, t.1, lines, k);
    }
    RunFails(step, (e: EdedError) => e.KeyError?, (f, prepr), 0, |lines|);
  }

  /** Once `prepr` is bound the line loop keeps it bound. */
  lemma LineLoopKeepsPrepr(f: Fields, prepr: Option<string>, lines: seq<string>)
    requires prepr.Some?
    ensures Run(LineStep(lines), (f, prepr), 0, |lines|).Success? ==>
      Run(LineStep(lines), (f, prepr), 0, |lines|).value.1.Some?
  {
    var step := LineStep(lines);
    forall t: (Fields, Option<string>), k: nat | 0 <= k < |lines| && t.1.Some? && step(t, k).Success?
      ensures step(t, k).value.1.Some?
    {
      assert step(t, k) == ProcessLine(t.0, t.1, lines, k);
    }
    RunKeeps(step, (t: (Fields, Option<string>)) => t.1.Some?, (f, prepr), 0, |lines|);
  }

  /** `for index, line in enumerate(sectionLines)`: the fields and `prepr`
      after the last line, or the KeyError of the first line that raises;
      no lines leave both as they were, and a bound `prepr` stays bound. */
  function ProcessLines(f: Fields, prepr: Option<string>, lines: seq<string>)
    : (r: Result<(Fields, Option<string>), EdedError>)
    ensures lines == [] ==> r == Success((f, prepr))
    ensures r.Failure? ==> r.error.KeyError?
    ensures prepr.Some? && r.Success? ==> r.value.1.Some?
  {
    LineLoopRaises(f, prepr, lines);
    if prepr.Some? then
      LineLoopKeepsPrepr(f, prepr, lines);
      Run(LineStep(lines), (f, prepr), 0, |lines|)
    else
      Run(LineStep(lines), (f, prepr), 0, |lines|)
  }

  /** The record appended at the end of a section. Reading `prepr` before any
      section assigned it raises. */
  function BuildRecord(f: Fields, prepr: Option<string>): Result<Record, EdedError>
  {
    if prepr.None? then Failure(ReprUnbound)
    else
      var text := "[Code:] " + f.id;
      var text := text + "\n[Name:] " + RemoveChar(f.name, '.');
      var text := text + "\n[Description:] " + RemoveChar(f.desc, '.');
      var text := text + "\n[Representation:] " + f.repr;
      var text := if f.note != "" then text + "\n[Note:] " + f.note else text;
      Success(Record(f.id, text, f.name, f.desc, f.repr, prepr.value,
        if f.note == "" then None else Some(f.note), f.usage, f.usageDesc))
  }
  /** The record keeps the fields as they are, dots included, and `note`
      is `None` exactly when the note is empty. */
  lemma BuildRecordFields(f: Fields, prepr: Option<string>)
    ensures BuildRecord(f, prepr).Success? <==> prepr.Some?
    ensures BuildRecord(f, prepr).Failure? ==> BuildRecord(f, prepr).error == ReprUnbound
    ensures BuildRecord(f, prepr).Success? ==>
      var rec := BuildRecord(f, prepr).value;
      && rec.id == f.id && rec.name == f.name && rec.description == f.desc
      && rec.representation == f.repr && rec.representationDescription == prepr.value
      && rec.usage == f.usage && rec.usageDescription == f.usageDesc
      && (rec.note.None? <==> f.note == "")
      && (rec.note.Some? ==> rec.note.value == f.note)
  {
  }

  /** `text` lays out the code, the name and the description with their
      dots dropped, and the representation; the note line follows exactly
      when the note is non-empty, and nothing else is added. */
  lemma BuildRecordText(f: Fields, prepr: Option<string>)
    requires prepr.Some?
    ensures var text := BuildRecord(f, prepr).value.text;
      var head := "[Code:] " + f.id + "\n[Name:] " + RemoveChar(f.name, '.')
                  + "\n[Description:] " + RemoveChar(f.desc, '.')
                  + "\n[Representation:] " + f.repr;
      && StartsWith(text, head)
      && (f.note != "" ==> EndsWith(text, "\n[Note:] " + f.note))
      && (f.note != "" ==> text == head + "\n[Note:] " + f.note)
      && (f.note == "" ==> text == head)
  {
    var head := "[Code:] " + f.id + "\n[Name:] " + RemoveChar(f.name, '.')
                + "\n[Description:] " + RemoveChar(f.desc, '.')
                + "\n[Representation:] " + f.repr;
    var text := BuildRecord(f, prepr).value.text;
    if f.note != "" {
      var tail := "\n[Note:] " + f.note;
      assert text == head + tail;
      assert text[..|head|] == head;
      assert text[|text| - |tail|..] == tail;
    } else {
      assert text == head;
    }
  }

  /** The record of one section, given its `sectionLines`, and the `prepr`
      the next section sees. */
  function SectionRecord(lines: seq<string>, prepr: Option<string>): Result<(Record, Option<string>), EdedError> {
    match ProcessLines(Blank, prepr, lines)
    case Failure(e) => Failure(e)
    case Success(st) =>
      match BuildRecord(st.0, st.1)
      case Failure(e) => Failure(e)
      case Success(rec) => Success((rec, st.1))
  }

  /** The section loop over `sections[1:]`, each section given by its lines,
      `prepr` flowing from each section into the next. */
  function RecordsFrom(sections: seq<seq<string>>, prepr: Option<string>): (r: Result<seq<Record>, EdedError>)
    ensures r.Success? ==> |r.value| == |sections|
  {
    Thread(SectionStep, sections, prepr)
  }

  /** `SectionRecord` as the body of the section loop. */
  const SectionStep: (seq<string>, Option<string>) -> Result<(Record, Option<string>), EdedError>
    := (lines: seq<string>, p: Option<string>) => SectionRecord(lines, p)

  /** The lines of each of `sections`, in order. */
  function LinesOf(sections: seq<string>): (r: seq<seq<string>>)
    ensures |r| == |sections|
  {
    if sections == [] then [] else [SectionLines(sections[0])] + LinesOf(sections[1..])
  }

  /** The lines of every section after the introduction, in file order. */
  function RecordSections(content: string): (r: seq<seq<string>>)
    ensures |r| == RuleCount(content, 0)
  {
    LinesOf(Sections(content)[1..])
  }

  /** `read()` without its I/O: one record per rule line, in file order;
      the introduction before the first rule yields none. */
  function Read(content: string): (r: Result<seq<Record>, EdedError>)
    ensures r.Success? ==> |r.value| == RuleCount(content, 0)
  {
    RecordsFrom(RecordSections(content), None)
  }
}
