/** What the line loop of `read()` (rag/chromadb/edi_demo/preprocess.py:67-92)
    leaves in the section variables, stated per field without the loop: each
    field holds the value from the last line that mentions it. */
module EdedLines {
  import opened Wrappers
  import opened PyStr
  import opened EdedRepr
  import opened EdedRecords
  import opened Loops

  /** Line `j` names `key` after the id branch has rewritten it. */
  predicate Mentions(lines: seq<string>, key: string, j: nat)
    requires j < |lines|
  {
    Contains(AfterId(lines[j]), key)
  }

  /** No line from `i` on names `key`. */
  predicate NoMention(lines: seq<string>, key: string, i: nat) {
    forall j | i <= j < |lines| :: !Mentions(lines, key, j)
  }

  /** Line `j` is the last line to name `key`. */
  predicate LastMention(lines: seq<string>, key: string, j: nat) {
    && j < |lines| && Mentions(lines, key, j)
    && forall m | j < m < |lines| :: !Mentions(lines, key, m)
  }

  /** A step fails only where the id branch or `parseRepr` raises; the id
      branch alone decides the id, name and usage fields. */
  lemma ProcessLineId(f: Fields, prepr: Option<string>, lines: seq<string>, i: nat)
    requires i < |lines|
    ensures var r := ProcessLine(f, prepr, lines, i);
      r.Success? ==>
        && ApplyId(f, lines[i]).Success?
        && var g := ApplyId(f, lines[i]).value;
           && r.value.0.id == g.id && r.value.0.name == g.name
           && r.value.0.usage == g.usage && r.value.0.usageDesc == g.usageDesc
  {
  }

  lemma DescStepSpec(f: Fields, line: string)
    ensures var g := DescStep(f, line);
      && g.desc == (if Contains(line, "Desc:") then FieldValue(line, "Desc:") else f.desc)
      && g.repr == f.repr
  {
  }

  lemma ReprStepSpec(f: Fields, prepr: Option<string>, line: string)
    ensures var r := ReprStep(f, prepr, line);
      r.Success? ==>
        && r.value.0.desc == f.desc
        && r.value.0.repr == (if Contains(line, "Repr:") then FieldValue(line, "Repr:") else f.repr)
  {
  }

  /** `Desc:` and `Repr:` on the rewritten line overwrite their fields; other
      lines leave them alone. */
  lemma ProcessLineFields(f: Fields, prepr: Option<string>, lines: seq<string>, i: nat)
    requires i < |lines|
    ensures var r := ProcessLine(f, prepr, lines, i);
      var line := AfterId(lines[i]);
      r.Success? ==>
        && r.value.0.desc == (if Contains(line, "Desc:") then FieldValue(line, "Desc:") else f.desc)
        && r.value.0.repr == (if Contains(line, "Repr:") then FieldValue(line, "Repr:") else f.repr)
  {
    ApplyIdKeeps(f, lines[i]);
    if ApplyId(f, lines[i]).Success? {
      var f1 := ApplyId(f, lines[i]).value;
      var line := AfterId(lines[i]);
      DescStepSpec(f1, line);
      ReprStepSpec(DescStep(f1, line), prepr, line);
    }
  }

  /** `prepr` changes only on a `Repr:` line, to the description `parseRepr`
      gives for the field. */
  lemma ProcessLinePrepr(f: Fields, prepr: Option<string>, lines: seq<string>, i: nat)
    requires i < |lines|
    ensures var r := ProcessLine(f, prepr, lines, i);
      var line := AfterId(lines[i]);
      r.Success? ==>
        && (Contains(line, "Repr:") ==>
              && ParseRepr(FieldValue(line, "Repr:")).Success?
              && r.value.1 == Some(ParseRepr(FieldValue(line, "Repr:")).value.description))
        && (!Contains(line, "Repr:") ==> r.value.1 == prepr)
  {
  }

  /** A `Note:` line folds every later line into the note. */
  lemma ProcessLineNote(f: Fields, prepr: Option<string>, lines: seq<string>, i: nat)
    requires i < |lines|
    ensures var r := ProcessLine(f, prepr, lines, i);
      r.Success? ==>
        r.value.0.note == (if Contains(AfterId(lines[i]), "Note:") then NoteFold(f.note, lines[i + 1..]) else f.note)
  {
    ApplyIdKeeps(f, lines[i]);
  }

  /** The field `Desc:` or `Repr:` sets. */
  datatype Field = DescField | ReprField

  function KeyOf(k: Field): (key: string)
    ensures FieldKey(key)
  {
    match k
    case DescField => "Desc:"
    case ReprField => "Repr:"
  }

  function Slot(g: Fields, k: Field): string {
    match k
    case DescField => g.desc
    case ReprField => g.repr
  }

  /** The step on one field, whichever of the two it is. */
  lemma ProcessLineSlot(f: Fields, prepr: Option<string>, lines: seq<string>, i: nat, k: Field)
    requires i < |lines|
    ensures var r := ProcessLine(f, prepr, lines, i);
      r.Success? ==>
        Slot(r.value.0, k) == if Mentions(lines, KeyOf(k), i) then FieldValue(AfterId(lines[i]), KeyOf(k)) else Slot(f, k)
  {
    ProcessLineFields(f, prepr, lines, i);
  }

  /** After the loop, the description and the representation hold the
      value on the last line that names them, or what they held before when
      no line does. */
  lemma LastMentionWins(f: Fields, prepr: Option<string>, lines: seq<string>, k: Field)
    requires ProcessLines(f, prepr, lines).Success?
    ensures var g := ProcessLines(f, prepr, lines).value.0;
      && (NoMention(lines, KeyOf(k), 0) ==> Slot(g, k) == Slot(f, k))
      && (forall j: nat | LastMention(lines, KeyOf(k), j) :: Slot(g, k) == FieldValue(AfterId(lines[j]), KeyOf(k)))
  {
    SlotIterates(f, prepr, lines, k);
    SlotLast(lines, k, Slot(f, k));
  }

  /** What the line loop does to one of the two fields. */
  function SlotUpd(lines: seq<string>, k: Field): (string, nat) -> string {
    (y: string, j: nat) => if j < |lines| && Mentions(lines, KeyOf(k), j) then FieldValue(AfterId(lines[j]), KeyOf(k)) else y
  }

  lemma SlotStep(t: (Fields, Option<string>), lines: seq<string>, j: nat, k: Field)
    requires j < |lines|
    ensures LineStep(lines)(t, j).Success? ==>
      Slot(LineStep(lines)(t, j).value.0, k) == SlotUpd(lines, k)(Slot(t.0, k), j)
  {
    ProcessLineSlot(t.0, t.1, lines, j, k);
  }

  function SlotGet(k: Field): ((Fields, Option<string>)) -> string {
    (st: (Fields, Option<string>)) => Slot(st.0, k)
  }

  lemma SlotSteps(lines: seq<string>, k: Field)
    ensures forall t, j | 0 <= j < |lines| && LineStep(lines)(t, j).Success? ::
      SlotGet(k)(LineStep(lines)(t, j).value) == SlotUpd(lines, k)(SlotGet(k)(t), j)
  {
    forall t, j | 0 <= j < |lines| && LineStep(lines)(t, j).Success?
      ensures SlotGet(k)(LineStep(lines)(t, j).value) == SlotUpd(lines, k)(SlotGet(k)(t), j)
    {
      SlotStep(t, lines, j, k);
    }
  }

  lemma SlotIterates(f: Fields, prepr: Option<string>, lines: seq<string>, k: Field)
    requires ProcessLines(f, prepr, lines).Success?
    ensures Slot(ProcessLines(f, prepr, lines).value.0, k) == Iterate(SlotUpd(lines, k), Slot(f, k), 0, |lines|)
  {
    var r := Run(LineStep(lines), (f, prepr), 0, |lines|);
    assert SlotGet(k)(r.value) == Iterate(SlotUpd(lines, k), SlotGet(k)((f, prepr)), 0, |lines|) by {
      SlotSteps(lines, k);
      RunProjects(LineStep(lines), SlotGet(k), SlotUpd(lines, k), (f, prepr), 0, |lines|);
    }
  }

  lemma SlotLast(lines: seq<string>, k: Field, x: string)
    ensures var v := Iterate(SlotUpd(lines, k), x, 0, |lines|);
      && (NoMention(lines, KeyOf(k), 0) ==> v == x)
      && (forall j: nat | LastMention(lines, KeyOf(k), j) :: v == FieldValue(AfterId(lines[j]), KeyOf(k)))
  {
    var sets := (j: nat) => j < |lines| && Mentions(lines, KeyOf(k), j);
    var val := (j: nat) => if j < |lines| && Mentions(lines, KeyOf(k), j) then FieldValue(AfterId(lines[j]), KeyOf(k)) else "";
    var upd := SlotUpd(lines, k);
    if NoMention(lines, KeyOf(k), 0) {
      NoWrite(sets, val, upd, x, 0, |lines|);
    }
    forall j: nat | LastMention(lines, KeyOf(k), j)
      ensures Iterate(upd, x, 0, |lines|) == FieldValue(AfterId(lines[j]), KeyOf(k))
    {
      LastWrite(sets, val, upd, x, 0, |lines|, j);
    }
  }

  /** What `parseRepr` makes of the value of a `Repr:` line. */
  function ReprDescription(line: string): Option<string>
    requires Contains(line, "Repr:")
  {
    match ParseRepr(FieldValue(line, "Repr:"))
    case Success(info) => Some(info.description)
    case Failure(_) => None
  }

  lemma ProcessLineReprDescription(f: Fields, prepr: Option<string>, lines: seq<string>, i: nat)
    requires i < |lines|
    ensures var r := ProcessLine(f, prepr, lines, i);
      r.Success? ==>
        && (Mentions(lines, "Repr:", i) ==> ParseRepr(FieldValue(AfterId(lines[i]), "Repr:")).Success?)
        && r.value.1 == if Mentions(lines, "Repr:", i) then ReprDescription(AfterId(lines[i])) else prepr
  {
    ProcessLinePrepr(f, prepr, lines, i);
  }

  /** A loop that finishes has parsed every `Repr:` value. */
  lemma ReprValuesParse(f: Fields, prepr: Option<string>, lines: seq<string>)
    requires ProcessLines(f, prepr, lines).Success?
    ensures forall j: nat | j < |lines| && Mentions(lines, "Repr:", j) ::
      ParseRepr(FieldValue(AfterId(lines[j]), "Repr:")).Success?
  {
    var step := LineStep(lines);
    var ok := (j: nat) => j < |lines| && Mentions(lines, "Repr:", j) ==> ParseRepr(FieldValue(AfterId(lines[j]), "Repr:")).Success?;
    forall t, j | 0 <= j < |lines| && step(t, j).Success?
      ensures ok(j)
    {
      ProcessLineReprDescription(t.0, t.1, lines, j);
    }
    RunOk(step, ok, (f, prepr), 0, |lines|);
    forall j: nat | j < |lines| && Mentions(lines, "Repr:", j)
      ensures ParseRepr(FieldValue(AfterId(lines[j]), "Repr:")).Success?
    {
      assert ok(j);
    }
  }

  /** `prepr` after the loop is what the last `Repr:` line made of it, or
      the value carried in from the section before when there is none. */
  lemma PreprLastWrite(f: Fields, prepr: Option<string>, lines: seq<string>)
    requires ProcessLines(f, prepr, lines).Success?
    ensures var p := ProcessLines(f, prepr, lines).value.1;
      && (NoMention(lines, "Repr:", 0) ==> p == prepr)
      && (forall j: nat | LastMention(lines, "Repr:", j) :: p == ReprDescription(AfterId(lines[j])))
  {
    PreprIterates(f, prepr, lines);
    PreprLast(lines, prepr);
  }

  /** What the line loop does to `prepr`. */
  function PreprUpd(lines: seq<string>): (Option<string>, nat) -> Option<string> {
    (y: Option<string>, j: nat) => if j < |lines| && Mentions(lines, "Repr:", j) then ReprDescription(AfterId(lines[j])) else y
  }

  lemma PreprIterates(f: Fields, prepr: Option<string>, lines: seq<string>)
    requires ProcessLines(f, prepr, lines).Success?
    ensures ProcessLines(f, prepr, lines).value.1 == Iterate(PreprUpd(lines), prepr, 0, |lines|)
  {
    var step := LineStep(lines);
    var get := (st: (Fields, Option<string>)) => st.1;
    var upd := PreprUpd(lines);
    var r := Run(step, (f, prepr), 0, |lines|);
    assert get(r.value) == Iterate(upd, get((f, prepr)), 0, |lines|) by {
      forall t, j | 0 <= j < |lines| && step(t, j).Success?
        ensures get(step(t, j).value) == upd(get(t), j)
      {
        ProcessLineReprDescription(t.0, t.1, lines, j);
      }
      RunProjects(step, get, upd, (f, prepr), 0, |lines|);
    }
  }

  lemma PreprLast(lines: seq<string>, x: Option<string>)
    ensures var v := Iterate(PreprUpd(lines), x, 0, |lines|);
      && (NoMention(lines, "Repr:", 0) ==> v == x)
      && (forall j: nat | LastMention(lines, "Repr:", j) :: v == ReprDescription(AfterId(lines[j])))
  {
    var sets := (j: nat) => j < |lines| && Mentions(lines, "Repr:", j);
    var val := (j: nat) => if j < |lines| && Mentions(lines, "Repr:", j) then ReprDescription(AfterId(lines[j])) else None;
    var upd := PreprUpd(lines);
    if NoMention(lines, "Repr:", 0) {
      NoWrite(sets, val, upd, x, 0, |lines|);
    }
    forall j: nat | LastMention(lines, "Repr:", j)
      ensures Iterate(upd, x, 0, |lines|) == ReprDescription(AfterId(lines[j]))
    {
      LastWrite(sets, val, upd, x, 0, |lines|, j);
    }
  }

  /** `prepr` after the loop: every `Repr:` value parsed, and the
      description is that of the last `Repr:` line, or the one carried in
      from the section before when there is none. */
  lemma PreprFromLastRepr(f: Fields, prepr: Option<string>, lines: seq<string>)
    requires ProcessLines(f, prepr, lines).Success?
    ensures var p := ProcessLines(f, prepr, lines).value.1;
      && (NoMention(lines, "Repr:", 0) ==> p == prepr)
      && (forall j: nat | LastMention(lines, "Repr:", j) ::
            && ParseRepr(FieldValue(AfterId(lines[j]), "Repr:")).Success?
            && p == Some(ParseRepr(FieldValue(AfterId(lines[j]), "Repr:")).value.description))
  {
    ReprValuesParse(f, prepr, lines);
    PreprLastWrite(f, prepr, lines);
  }

  /** Line `j` starts with digits, so the id branch takes it. */
  predicate IdLine(lines: seq<string>, j: nat)
    requires j < |lines|
  {
    LeadingDigits(lines[j]) != []
  }

  predicate LastIdLine(lines: seq<string>, j: nat) {
    && j < |lines| && IdLine(lines, j)
    && forall m | j < m < |lines| :: !IdLine(lines, m)
  }

  lemma ProcessLineIdName(f: Fields, prepr: Option<string>, lines: seq<string>, i: nat)
    requires i < |lines|
    ensures var r := ProcessLine(f, prepr, lines, i);
      r.Success? ==>
        (r.value.0.id, r.value.0.name) ==
          if IdLine(lines, i) then (LeadingDigits(lines[i]), Strip(AfterId(lines[i]))) else (f.id, f.name)
  {
    ProcessLineId(f, prepr, lines, i);
    ApplyIdSpec(f, lines[i]);
  }

  /** After the loop, the id is the digit run of the last line that starts
      with digits and the name is the rest of that line; without such a
      line both keep their values. */
  lemma IdFromLastIdLine(f: Fields, prepr: Option<string>, lines: seq<string>)
    requires ProcessLines(f, prepr, lines).Success?
    ensures var g := ProcessLines(f, prepr, lines).value.0;
      && ((forall j | 0 <= j < |lines| :: !IdLine(lines, j)) ==> g.id == f.id && g.name == f.name)
      && (forall j: nat | LastIdLine(lines, j) :: g.id == LeadingDigits(lines[j]) && g.name == Strip(AfterId(lines[j])))
  {
    IdIterates(f, prepr, lines);
    IdLast(lines, (f.id, f.name));
  }

  /** What the line loop does to the id and the name. */
  function IdUpd(lines: seq<string>): ((string, string), nat) -> (string, string) {
    (y: (string, string), j: nat) => if j < |lines| && IdLine(lines, j) then (LeadingDigits(lines[j]), Strip(AfterId(lines[j]))) else y
  }

  function IdGet(): ((Fields, Option<string>)) -> (string, string) {
    (st: (Fields, Option<string>)) => (st.0.id, st.0.name)
  }

  lemma IdStep(t: (Fields, Option<string>), lines: seq<string>, j: nat)
    requires j < |lines|
    ensures LineStep(lines)(t, j).Success? ==>
      IdGet()(LineStep(lines)(t, j).value) == IdUpd(lines)(IdGet()(t), j)
  {
    ProcessLineIdName(t.0, t.1, lines, j);
  }

  lemma IdSteps(lines: seq<string>)
    ensures forall t, j | 0 <= j < |lines| && LineStep(lines)(t, j).Success? ::
      IdGet()(LineStep(lines)(t, j).value) == IdUpd(lines)(IdGet()(t), j)
  {
    forall t, j | 0 <= j < |lines| && LineStep(lines)(t, j).Success?
      ensures IdGet()(LineStep(lines)(t, j).value) == IdUpd(lines)(IdGet()(t), j)
    {
      IdStep(t, lines, j);
    }
  }

  lemma IdIterates(f: Fields, prepr: Option<string>, lines: seq<string>)
    requires ProcessLines(f, prepr, lines).Success?
    ensures var g := ProcessLines(f, prepr, lines).value.0;
      (g.id, g.name) == Iterate(IdUpd(lines), (f.id, f.name), 0, |lines|)
  {
    var r := Run(LineStep(lines), (f, prepr), 0, |lines|);
    assert IdGet()(r.value) == Iterate(IdUpd(lines), IdGet()((f, prepr)), 0, |lines|) by {
      IdSteps(lines);
      RunProjects(LineStep(lines), IdGet(), IdUpd(lines), (f, prepr), 0, |lines|);
    }
  }


  lemma IdLast(lines: seq<string>, x: (string, string))
    ensures var v := Iterate(IdUpd(lines), x, 0, |lines|);
      && ((forall j | 0 <= j < |lines| :: !IdLine(lines, j)) ==> v == x)
      && (forall j: nat | LastIdLine(lines, j) :: v == (LeadingDigits(lines[j]), Strip(AfterId(lines[j]))))
  {
    var sets := (j: nat) => j < |lines| && IdLine(lines, j);
    var val := (j: nat) => if j < |lines| then (LeadingDigits(lines[j]), Strip(AfterId(lines[j]))) else ("", "");
    var upd := IdUpd(lines);
    if forall j | 0 <= j < |lines| :: !IdLine(lines, j) {
      NoWrite(sets, val, upd, x, 0, |lines|);
    }
    forall j: nat | LastIdLine(lines, j)
      ensures Iterate(upd, x, 0, |lines|) == (LeadingDigits(lines[j]), Strip(AfterId(lines[j])))
    {
      LastWrite(sets, val, upd, x, 0, |lines|, j);
    }
  }

  /** Line `j` starts with digits and, once they are removed, ends in a
      usage tag. */
  predicate TagLine(lines: seq<string>, j: nat)
    requires j < |lines|
  {
    LeadingDigits(lines[j]) != [] && UsageTag(IdRest(lines[j])).Some?
  }

  function TagOf(lines: seq<string>, j: nat): string
    requires j < |lines| && TagLine(lines, j)
  {
    UsageTag(IdRest(lines[j])).value
  }

  predicate LastTagLine(lines: seq<string>, j: nat) {
    && j < |lines| && TagLine(lines, j)
    && forall m | j < m < |lines| :: !TagLine(lines, m)
  }

  /** The usage text a tag stands for, or nothing for `[|]`. */
  function UsageText(tag: string): string {
    if tag in UsageDict then UsageDict[tag] else ""
  }

  lemma ProcessLineUsage(f: Fields, prepr: Option<string>, lines: seq<string>, i: nat)
    requires i < |lines|
    ensures var r := ProcessLine(f, prepr, lines, i);
      r.Success? ==>
        && (TagLine(lines, i) ==> TagOf(lines, i) in UsageDict)
        && (r.value.0.usage, r.value.0.usageDesc) ==
             if TagLine(lines, i) then (TagOf(lines, i), UsageText(TagOf(lines, i))) else (f.usage, f.usageDesc)
  {
    ProcessLineId(f, prepr, lines, i);
    ApplyIdSpec(f, lines[i]);
  }

  /** A loop that finishes met only the tags `USAGE_DICT` knows. */
  lemma TagsKnown(f: Fields, prepr: Option<string>, lines: seq<string>)
    requires ProcessLines(f, prepr, lines).Success?
    ensures forall j: nat | j < |lines| && TagLine(lines, j) :: TagOf(lines, j) in UsageDict
  {
    var step := LineStep(lines);
    var ok := (j: nat) => j < |lines| && TagLine(lines, j) ==> TagOf(lines, j) in UsageDict;
    forall t, j | 0 <= j < |lines| && step(t, j).Success?
      ensures ok(j)
    {
      ProcessLineUsage(t.0, t.1, lines, j);
    }
    RunOk(step, ok, (f, prepr), 0, |lines|);
    forall j: nat | j < |lines| && TagLine(lines, j)
      ensures TagOf(lines, j) in UsageDict
    {
      assert ok(j);
    }
  }

  /** After the loop, the usage fields come from the last tag on a line
      that starts with digits, or keep their values without one. */
  lemma UsageLastWrite(f: Fields, prepr: Option<string>, lines: seq<string>)
    requires ProcessLines(f, prepr, lines).Success?
    ensures var g := ProcessLines(f, prepr, lines).value.0;
      && ((forall j | 0 <= j < |lines| :: !TagLine(lines, j)) ==> g.usage == f.usage && g.usageDesc == f.usageDesc)
      && (forall j: nat | LastTagLine(lines, j) :: g.usage == TagOf(lines, j) && g.usageDesc == UsageText(TagOf(lines, j)))
  {
    UsageIterates(f, prepr, lines);
    UsageLast(lines, (f.usage, f.usageDesc));
  }

  /** What the line loop does to the usage fields. */
  function UsageUpd(lines: seq<string>): ((string, string), nat) -> (string, string) {
    (y: (string, string), j: nat) => if j < |lines| && TagLine(lines, j) then (TagOf(lines, j), UsageText(TagOf(lines, j))) else y
  }

  function UsageGet(): ((Fields, Option<string>)) -> (string, string) {
    (st: (Fields, Option<string>)) => (st.0.usage, st.0.usageDesc)
  }

  lemma UsageStep(t: (Fields, Option<string>), lines: seq<string>, j: nat)
    requires j < |lines|
    ensures LineStep(lines)(t, j).Success? ==>
      UsageGet()(LineStep(lines)(t, j).value) == UsageUpd(lines)(UsageGet()(t), j)
  {
    ProcessLineUsage(t.0, t.1, lines, j);
  }

  lemma UsageSteps(lines: seq<string>)
    ensures forall t, j | 0 <= j < |lines| && LineStep(lines)(t, j).Success? ::
      UsageGet()(LineStep(lines)(t, j).value) == UsageUpd(lines)(UsageGet()(t), j)
  {
    forall t, j | 0 <= j < |lines| && LineStep(lines)(t, j).Success?
      ensures UsageGet()(LineStep(lines)(t, j).value) == UsageUpd(lines)(UsageGet()(t), j)
    {
      UsageStep(t, lines, j);
    }
  }

  lemma UsageIterates(f: Fields, prepr: Option<string>, lines: seq<string>)
    requires ProcessLines(f, prepr, lines).Success?
    ensures var g := ProcessLines(f, prepr, lines).value.0;
      (g.usage, g.usageDesc) == Iterate(UsageUpd(lines), (f.usage, f.usageDesc), 0, |lines|)
  {
    var r := Run(LineStep(lines), (f, prepr), 0, |lines|);
    assert UsageGet()(r.value) == Iterate(UsageUpd(lines), UsageGet()((f, prepr)), 0, |lines|) by {
      UsageSteps(lines);
      RunProjects(LineStep(lines), UsageGet(), UsageUpd(lines), (f, prepr), 0, |lines|);
    }
  }


  lemma UsageLast(lines: seq<string>, x: (string, string))
    ensures var v := Iterate(UsageUpd(lines), x, 0, |lines|);
      && ((forall j | 0 <= j < |lines| :: !TagLine(lines, j)) ==> v == x)
      && (forall j: nat | LastTagLine(lines, j) :: v == (TagOf(lines, j), UsageText(TagOf(lines, j))))
  {
    var sets := (j: nat) => j < |lines| && TagLine(lines, j);
    var val := (j: nat) => if j < |lines| && TagLine(lines, j) then (TagOf(lines, j), UsageText(TagOf(lines, j))) else ("", "");
    var upd := UsageUpd(lines);
    if forall j | 0 <= j < |lines| :: !TagLine(lines, j) {
      NoWrite(sets, val, upd, x, 0, |lines|);
    }
    forall j: nat | LastTagLine(lines, j)
      ensures Iterate(upd, x, 0, |lines|) == (TagOf(lines, j), UsageText(TagOf(lines, j)))
    {
      LastWrite(sets, val, upd, x, 0, |lines|, j);
    }
  }

  /** The usage fields after the loop: those of the last tag, which is one
      of `[B]`, `[I]`, `[C]`. */
  lemma UsageFromLastTag(f: Fields, prepr: Option<string>, lines: seq<string>)
    requires ProcessLines(f, prepr, lines).Success?
    ensures var g := ProcessLines(f, prepr, lines).value.0;
      && ((forall j | 0 <= j < |lines| :: !TagLine(lines, j)) ==> g.usage == f.usage && g.usageDesc == f.usageDesc)
      && (forall j: nat | LastTagLine(lines, j) ::
            g.usage == TagOf(lines, j) && g.usage in UsageDict && g.usageDesc == UsageDict[g.usage])
  {
    TagsKnown(f, prepr, lines);
    UsageLastWrite(f, prepr, lines);
  }
}
