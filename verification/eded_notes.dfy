/** The note of a record (rag/chromadb/edi_demo/preprocess.py:88-92): what
    the repeated `(note + " " + noteLine).strip()` amounts to. Every
    non-empty cleaned line after a `Note:` line ends up in the note, in
    order, one space between neighbours. */
module EdedNotes {
  import opened Wrappers
  import opened PyStr
  import opened EdedRecords
  import opened EdedLines
  import opened Loops

  /** `[s]` unless `s` is empty. */
  function Keep(s: string): (r: seq<string>)
    ensures forall k | 0 <= k < |r| :: |r[k]| > 0
  {
    if s == [] then [] else [s]
  }

  /** The non-empty cleaned lines of `rest`, in order. */
  function NotePieces(rest: seq<string>): (r: seq<string>)
    ensures forall k | 0 <= k < |r| :: |r[k]| > 0
    decreases |rest|
  {
    if rest == [] then [] else Keep(NoteLine(rest[0])) + NotePieces(rest[1..])
  }

  lemma StripBetween(a: string, b: string)
    requires a != [] && b != [] && IsStripped(a) && IsStripped(b)
    ensures Strip(a + " " + b) == a + " " + b
  {
    var s := a + " " + b;
    assert s[0] == a[0] && s[|s| - 1] == b[|b| - 1];
    StripStripped(s);
  }

  lemma JoinPair(a: string, b: string)
    ensures Join(" ", [a, b]) == a + " " + b
  {
    assert [a, b][1..] == [b];
  }

  /** Joining two stripped texts with a space and stripping the result
      drops the space next to an empty side. */
  lemma Glue(a: string, b: string)
    requires IsStripped(a) && IsStripped(b)
    ensures Strip(a + " " + b) == Join(" ", Keep(a) + Keep(b))
  {
    if a == [] {
      assert Keep(a) + Keep(b) == Keep(b);
      assert Strip(a + " " + b) == b by {
        assert a + " " + b == " " + b + [];
        StripPadded(" ", b, []);
      }
    } else if b == [] {
      assert Keep(a) + Keep(b) == [a];
      assert Strip(a + " " + b) == a by {
        assert a + " " + b == [] + a + " ";
        StripPadded([], a, " ");
      }
    } else {
      assert Keep(a) + Keep(b) == [a, b] by {
        Pair(a, b);
      }
      assert Strip(a + " " + b) == a + " " + b by {
        StripBetween(a, b);
      }
      JoinPair(a, b);
    }
  }

  lemma JoinNonEmpty(sep: string, w: seq<string>)
    requires w != [] && w[0] != []
    ensures Join(sep, w) != []
  {
    if |w| > 1 {
      assert |Join(sep, w)| >= |w[0]|;
    }
  }

  /** Joining a list and then joining the result with more pieces is
      joining everything at once, as long as no piece is empty. */
  lemma JoinKeep(w: seq<string>, t: seq<string>)
    requires forall k | 0 <= k < |w| :: |w[k]| > 0
    ensures Join(" ", Keep(Join(" ", w)) + t) == Join(" ", w + t)
  {
    if w == [] {
      assert Keep(Join(" ", w)) + t == t;
      assert w + t == t;
    } else {
      JoinNonEmpty(" ", w);
      var j := Join(" ", w);
      assert Keep(j) == [j];
      if t == [] {
        assert [j] + t == [j];
        assert w + t == w;
      } else {
        assert ([j] + t)[1..] == t;
        JoinAppend(" ", w, t);
      }
    }
  }

  /** Putting two lists of non-empty pieces together keeps every piece
      non-empty. */
  lemma NonEmptyConcat(a: seq<string>, b: seq<string>)
    requires forall k | 0 <= k < |a| :: |a[k]| > 0
    requires forall k | 0 <= k < |b| :: |b[k]| > 0
    ensures forall k | 0 <= k < |a + b| :: |(a + b)[k]| > 0
  {
    forall k | 0 <= k < |a + b| ensures |(a + b)[k]| > 0 {
      if k < |a| { assert (a + b)[k] == a[k]; }
      else { assert (a + b)[k] == b[k - |a|]; }
    }
  }

  /** `JoinKeep` once a text has been put in front of the pieces. */
  lemma KeepJoined(a: string, u: seq<string>, t: seq<string>)
    requires forall k | 0 <= k < |u| :: |u[k]| > 0
    ensures Join(" ", Keep(Join(" ", Keep(a) + u)) + t) == Join(" ", Keep(a) + (u + t))
  {
    var w := Keep(a) + u;
    NonEmptyConcat(Keep(a), u);
    JoinKeep(w, t);
    Assoc(Keep(a), u, t);
  }

  /** One turn of the inner loop of the `Note:` branch, given the claim
      for the rest of the lines. */
  lemma NoteFoldStep(note: string, rest: seq<string>)
    requires IsStripped(note) && rest != []
    requires NoteFold(Strip(note + " " + NoteLine(rest[0])), rest[1..])
          == Join(" ", Keep(Strip(note + " " + NoteLine(rest[0]))) + NotePieces(rest[1..]))
    ensures NoteFold(note, rest) == Join(" ", Keep(note) + NotePieces(rest))
  {
    var x := NoteLine(rest[0]);
    var n' := Strip(note + " " + x);
    var t := NotePieces(rest[1..]);
    assert NoteFold(note, rest) == NoteFold(n', rest[1..]);
    assert n' == Join(" ", Keep(note) + Keep(x)) by {
      Glue(note, x);
    }
    assert Join(" ", Keep(n') + t) == Join(" ", Keep(note) + NotePieces(rest)) by {
      KeepJoined(note, Keep(x), t);
      assert NotePieces(rest) == Keep(x) + t;
    }
  }

  /** The inner loop of the `Note:` branch: the note so far and the
      non-empty cleaned lines after the `Note:` line, joined by single
      spaces. */
  lemma {:induction false} NoteFoldJoins(note: string, rest: seq<string>)
    requires IsStripped(note)
    ensures NoteFold(note, rest) == Join(" ", Keep(note) + NotePieces(rest))
    decreases |rest|
  {
    if rest == [] {
      assert Keep(note) + NotePieces(rest) == Keep(note);
    } else {
      NoteFoldJoins(Strip(note + " " + NoteLine(rest[0])), rest[1..]);
      NoteFoldStep(note, rest);
    }
  }

  /** The pieces every `Note:` line at or after `i` contributes: the
      non-empty cleaned lines after it, so that a line after two `Note:`
      lines is counted twice. */
  function NoteWords(lines: seq<string>, i: nat): (r: seq<string>)
    requires i <= |lines|
    ensures forall k | 0 <= k < |r| :: |r[k]| > 0
    decreases |lines| - i
  {
    if i == |lines| then []
    else
      var here := if Mentions(lines, "Note:", i) then NotePieces(lines[i + 1..]) else [];
      var later := NoteWords(lines, i + 1);
      NonEmptyConcat(here, later);
      here + later
  }

  /** What line `j` of the loop does to the note alone. */
  function NoteAt(lines: seq<string>, y: string, j: nat): (r: string)
    ensures IsStripped(y) ==> IsStripped(r)
  {
    if j < |lines| && Mentions(lines, "Note:", j) then NoteFold(y, lines[j + 1..]) else y
  }

  function NoteUpd(lines: seq<string>): (string, nat) -> string {
    (y: string, j: nat) => NoteAt(lines, y, j)
  }

  /** One index of the note loop, in terms of `NoteWords`. */
  lemma NoteAtJoins(lines: seq<string>, x: string, i: nat)
    requires IsStripped(x) && i < |lines|
    ensures Join(" ", Keep(NoteAt(lines, x, i)) + NoteWords(lines, i + 1))
         == Join(" ", Keep(x) + NoteWords(lines, i))
  {
    var later := NoteWords(lines, i + 1);
    if Mentions(lines, "Note:", i) {
      var p := NotePieces(lines[i + 1..]);
      assert NoteAt(lines, x, i) == Join(" ", Keep(x) + p) by {
        NoteFoldJoins(x, lines[i + 1..]);
      }
      KeepJoined(x, p, later);
      assert NoteWords(lines, i) == p + later;
    } else {
      assert NoteWords(lines, i) == [] + later;
      assert [] + later == later;
    }
  }

  /** The note so far joined with the pieces still to come. */
  function NoteSoFar(lines: seq<string>): (string, nat) -> string {
    (y: string, k: nat) => if k <= |lines| then Join(" ", Keep(y) + NoteWords(lines, k)) else y
  }

  /** A stripped note is its own join. */
  lemma JoinKeepSelf(x: string)
    ensures Join(" ", Keep(x)) == x
  {
    if x != [] {
      assert Keep(x) == [x];
    }
  }

  /** The note loop from index `i` on. */
  lemma NotesJoin(lines: seq<string>, x: string, i: nat)
    requires IsStripped(x) && i <= |lines|
    ensures Iterate(NoteUpd(lines), x, i, |lines|) == Join(" ", Keep(x) + NoteWords(lines, i))
  {
    var upd := NoteUpd(lines);
    var inv := NoteSoFar(lines);
    var ok := (y: string) => IsStripped(y);
    forall y, k | i <= k < |lines| && ok(y)
      ensures ok(upd(y, k)) && inv(upd(y, k), k + 1) == inv(y, k)
    {
      NoteAtJoins(lines, y, k);
    }
    IterateKeeps(upd, inv, ok, x, i, |lines|);
    var r := Iterate(upd, x, i, |lines|);
    assert inv(r, |lines|) == r by {
      assert Keep(r) + NoteWords(lines, |lines|) == Keep(r);
      JoinKeepSelf(r);
    }
  }

  /** The note of a section whose lines all went through: the note it
      started with and the pieces of every `Note:` line, one space apart. */
  lemma NoteOfSection(f: Fields, prepr: Option<string>, lines: seq<string>)
    requires IsStripped(f.note)
    requires ProcessLines(f, prepr, lines).Success?
    ensures ProcessLines(f, prepr, lines).value.0.note == Join(" ", Keep(f.note) + NoteWords(lines, 0))
  {
    var step := LineStep(lines);
    var get := (st: (Fields, Option<string>)) => st.0.note;
    var upd := NoteUpd(lines);
    var r := Run(step, (f, prepr), 0, |lines|);
    assert get(r.value) == Iterate(upd, get((f, prepr)), 0, |lines|) by {
      forall t, j | 0 <= j < |lines| && step(t, j).Success?
        ensures get(step(t, j).value) == upd(get(t), j)
      {
        ProcessLineNote(t.0, t.1, lines, j);
      }
      RunProjects(step, get, upd, (f, prepr), 0, |lines|);
    }
    NotesJoin(lines, f.note, 0);
  }
}
