/** What `read()` (rag/chromadb/edi_demo/preprocess.py:43-118) puts into
    each record, stated against the lines of its section: every field
    comes from the last line that sets it, the note from every `Note:`
    line, and the representation description from the last `Repr:` line
    of this section or, failing that, of an earlier one. */
module EdedRead {
  import opened Wrappers
  import opened PyStr
  import opened EdedRepr
  import opened EdedRecords
  import opened EdedLines
  import opened EdedNotes
  import opened Loops

  /** A section that yields a record went through the line loop and
      through the record layout. */
  lemma SectionParts(lines: seq<string>, prepr: Option<string>)
    requires SectionRecord(lines, prepr).Success?
    ensures ProcessLines(Blank, prepr, lines).Success?
    ensures var st := ProcessLines(Blank, prepr, lines).value;
      && BuildRecord(st.0, st.1).Success?
      && SectionRecord(lines, prepr).value == (BuildRecord(st.0, st.1).value, st.1)
  {
  }

  /** The representation description of a record is the `prepr` handed on
      to the next section: that of the last `Repr:` line of the section,
      or the one handed in when the section has none. */
  lemma SectionPrepr(lines: seq<string>, prepr: Option<string>)
    requires SectionRecord(lines, prepr).Success?
    ensures var (rec, p) := SectionRecord(lines, prepr).value;
      && p.Some? && rec.representationDescription == p.value
      && (NoMention(lines, "Repr:", 0) ==> p == prepr)
      && (forall j: nat | LastMention(lines, "Repr:", j) ::
            && ParseRepr(FieldValue(AfterId(lines[j]), "Repr:")).Success?
            && rec.representationDescription == ParseRepr(FieldValue(AfterId(lines[j]), "Repr:")).value.description)
  {
    SectionParts(lines, prepr);
    var st := ProcessLines(Blank, prepr, lines).value;
    PreprFromLastRepr(Blank, prepr, lines);
    BuildRecordFields(st.0, st.1);
  }

  /** Before any `Repr:` line has been read, a section without one cannot
      yield a record: the line loop raises, or reading `prepr` does. */
  lemma SectionNeedsRepr(lines: seq<string>)
    requires NoMention(lines, "Repr:", 0)
    ensures SectionRecord(lines, None).Failure?
    ensures ProcessLines(Blank, None, lines).Success? ==> SectionRecord(lines, None) == Failure(ReprUnbound)
  {
    if ProcessLines(Blank, None, lines).Success? {
      var st := ProcessLines(Blank, None, lines).value;
      PreprFromLastRepr(Blank, None, lines);
      assert st.1 == None;
      BuildRecordFields(st.0, st.1);
    }
  }

  /** The note of a record: the pieces of every `Note:` line joined by
      single spaces, and no note at all when that comes out empty. */
  lemma SectionNote(lines: seq<string>, prepr: Option<string>)
    requires SectionRecord(lines, prepr).Success?
    ensures var rec := SectionRecord(lines, prepr).value.0;
      var n := Join(" ", NoteWords(lines, 0));
      && (rec.note.None? <==> n == "")
      && (rec.note.Some? ==> rec.note.value == n)
  {
    SectionParts(lines, prepr);
    var st := ProcessLines(Blank, prepr, lines).value;
    NoteOfSection(Blank, prepr, lines);
    assert Keep(Blank.note) + NoteWords(lines, 0) == NoteWords(lines, 0);
    BuildRecordFields(st.0, st.1);
  }

  /** The description of a record: the value of the last `Desc:` line, or
      empty when there is none. */
  lemma SectionDesc(lines: seq<string>, prepr: Option<string>)
    requires SectionRecord(lines, prepr).Success?
    ensures var rec := SectionRecord(lines, prepr).value.0;
      && (NoMention(lines, "Desc:", 0) ==> rec.description == "")
      && (forall j: nat | LastMention(lines, "Desc:", j) :: rec.description == FieldValue(AfterId(lines[j]), "Desc:"))
  {
    SectionParts(lines, prepr);
    var st := ProcessLines(Blank, prepr, lines).value;
    LastMentionWins(Blank, prepr, lines, DescField);
    BuildRecordFields(st.0, st.1);
  }

  /** The representation of a record: the value of the last `Repr:` line,
      or empty when there is none. */
  lemma SectionRepr(lines: seq<string>, prepr: Option<string>)
    requires SectionRecord(lines, prepr).Success?
    ensures var rec := SectionRecord(lines, prepr).value.0;
      && (NoMention(lines, "Repr:", 0) ==> rec.representation == "")
      && (forall j: nat | LastMention(lines, "Repr:", j) :: rec.representation == FieldValue(AfterId(lines[j]), "Repr:"))
  {
    SectionParts(lines, prepr);
    var st := ProcessLines(Blank, prepr, lines).value;
    LastMentionWins(Blank, prepr, lines, ReprField);
    BuildRecordFields(st.0, st.1);
  }

  /** The code and name of a record come from the last line that starts
      with digits; without one both are empty. */
  lemma SectionId(lines: seq<string>, prepr: Option<string>)
    requires SectionRecord(lines, prepr).Success?
    ensures var rec := SectionRecord(lines, prepr).value.0;
      && ((forall j | 0 <= j < |lines| :: !IdLine(lines, j)) ==> rec.id == "" && rec.name == "")
      && (forall j: nat | LastIdLine(lines, j) :: rec.id == LeadingDigits(lines[j]) && rec.name == Strip(AfterId(lines[j])))
  {
    SectionParts(lines, prepr);
    var st := ProcessLines(Blank, prepr, lines).value;
    IdFromLastIdLine(Blank, prepr, lines);
    BuildRecordFields(st.0, st.1);
  }

  /** The usage of a record is the last usage tag of the section, with its
      dictionary text; without one both are empty. */
  lemma SectionUsage(lines: seq<string>, prepr: Option<string>)
    requires SectionRecord(lines, prepr).Success?
    ensures var rec := SectionRecord(lines, prepr).value.0;
      && ((forall j | 0 <= j < |lines| :: !TagLine(lines, j)) ==> rec.usage == "" && rec.usageDescription == "")
      && (forall j: nat | LastTagLine(lines, j) ::
            rec.usage == TagOf(lines, j) && rec.usage in UsageDict && rec.usageDescription == UsageDict[rec.usage])
  {
    SectionParts(lines, prepr);
    var st := ProcessLines(Blank, prepr, lines).value;
    UsageFromLastTag(Blank, prepr, lines);
    BuildRecordFields(st.0, st.1);
  }

  /** The `prepr` that section `k` starts with. */
  function PreprBefore(sections: seq<seq<string>>, prepr: Option<string>, k: nat): Option<string>
    requires k <= |sections|
  {
    StateBefore(SectionStep, sections, prepr, k)
  }

  /** Record `k` is the record of section `k`, read with the `prepr` the
      sections before it left behind; it hands its own on. */
  lemma RecordAt(sections: seq<seq<string>>, prepr: Option<string>, k: nat)
    requires RecordsFrom(sections, prepr).Success? && k < |sections|
    ensures var p := PreprBefore(sections, prepr, k);
      && SectionRecord(sections[k], p).Success?
      && RecordsFrom(sections, prepr).value[k] == SectionRecord(sections[k], p).value.0
      && PreprBefore(sections, prepr, k + 1) == SectionRecord(sections[k], p).value.1
  {
    ThreadAt(SectionStep, sections, prepr, k);
  }

  /** A section without a `Repr:` line takes over the representation
      description of the section before it. */
  lemma ReprInherited(sections: seq<seq<string>>, prepr: Option<string>, k: nat)
    requires RecordsFrom(sections, prepr).Success?
    requires 0 < k < |sections| && NoMention(sections[k], "Repr:", 0)
    ensures var r := RecordsFrom(sections, prepr).value;
      r[k].representationDescription == r[k - 1].representationDescription
  {
    var get := (rec: Record) => Some(rec.representationDescription);
    forall x, p | SectionStep(x, p).Success?
      ensures get(SectionStep(x, p).value.0) == SectionStep(x, p).value.1
    {
      SectionPrepr(x, p);
    }
    forall p | SectionStep(sections[k], p).Success?
      ensures SectionStep(sections[k], p).value.1 == p
    {
      SectionPrepr(sections[k], p);
    }
    ThreadCarries(SectionStep, get, sections, prepr, k);
  }

  /** A section with a `Repr:` line describes its representation by the
      last one. */
  lemma ReprOwnLine(sections: seq<seq<string>>, prepr: Option<string>, k: nat)
    requires RecordsFrom(sections, prepr).Success? && k < |sections|
    ensures var r := RecordsFrom(sections, prepr).value;
      forall j: nat | LastMention(sections[k], "Repr:", j) ::
        && ParseRepr(FieldValue(AfterId(sections[k][j]), "Repr:")).Success?
        && r[k].representationDescription == ParseRepr(FieldValue(AfterId(sections[k][j]), "Repr:")).value.description
  {
    RecordAt(sections, prepr, k);
    SectionPrepr(sections[k], PreprBefore(sections, prepr, k));
  }

  /** The file fails to convert when its first section after the
      introduction has no `Repr:` line. */
  lemma ReadNeedsFirstRepr(content: string)
    requires RecordSections(content) != [] && NoMention(RecordSections(content)[0], "Repr:", 0)
    ensures Read(content).Failure?
  {
    SectionNeedsRepr(RecordSections(content)[0]);
  }
}
