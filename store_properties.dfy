/**
 * How the record-store operations fit together: deletions undo additions,
 * the notebook lists newest first, a saved procedure is found again, and the
 * researcher string stays readable by the new-note dialog.
 */
module StoreProperties {
  import opened Wrappers
  import opened Seqs
  import opened Text
  import opened Records

  /** Deleting by the name of a project just added, whose name was new, restores the old list. */
  lemma DeleteUndoesAdd(projects: seq<Project>, added: Project)
    requires forall p :: p in projects ==> p.name != added.name
    ensures WithoutProject(projects + [added], added.name) == projects
  {
    var keep := (p: Project) => p.name != added.name;
    FilterAppend(projects, [added], keep);
    FilterKeepsAll(projects, keep);
  }

  /** Deleting by the date and names of the note just added, when no other note shares them, restores the old notebook. */
  lemma DeleteUndoesNote(notes: seq<Note>, added: Note)
    requires forall n :: n in notes ==> !(n.date == added.date && n.who == added.who)
    ensures WithoutNotes([added] + notes, added.date, added.who) == notes
  {
    var keep := (n: Note) => !(n.date == added.date && n.who == added.who);
    FilterAppend([added], notes, keep);
    FilterKeepsAll(notes, keep);
  }

  /** Deleting by the name of a procedure just appended, whose name was new, restores the old list. */
  lemma DeleteUndoesProcedure(procs: seq<Procedure>, added: Procedure)
    requires forall p :: p in procs ==> p.name != added.name
    ensures WithoutProcedures(procs + [added], added.name) == procs
  {
    var keep := (p: Procedure) => p.name != added.name;
    FilterAppend(procs, [added], keep);
    FilterKeepsAll(procs, keep);
  }

  /** The empty filter matches every note, so the notebook lists every note in list order. */
  lemma {:induction false} EmptyFilterListsAllNotes(notes: seq<Note>)
    ensures |NoteRows(notes, "")| == |notes|
    ensures forall i :: 0 <= i < |notes| ==> NoteRows(notes, "")[i] == NoteRowOf(notes[i])
  {
    if notes != [] {
      EmptyFilterNoteStep(notes);
      EmptyFilterListsAllNotes(notes[1..]);
    }
  }

  lemma EmptyFilterNoteStep(notes: seq<Note>)
    requires notes != []
    ensures NoteRows(notes, "") == [NoteRowOf(notes[0])] + NoteRows(notes[1..], "")
  {
    assert NoteMatches(notes[0], "") by { assert Lower("") == ""; }
  }

  /** Notes are listed newest first: saving `first` and then `second` lists `second` above `first`. */
  lemma NewestNoteListedFirst(notes: seq<Note>, first: Note, second: Note)
    ensures |NoteRows([second] + ([first] + notes), "")| >= 2
    ensures NoteRows([second] + ([first] + notes), "")[0] == NoteRowOf(second)
    ensures NoteRows([second] + ([first] + notes), "")[1] == NoteRowOf(first)
  {
    EmptyFilterListsAllNotes([second] + ([first] + notes));
  }

  /** The empty filter matches every procedure, so the procedure tab lists them all in list order. */
  lemma {:induction false} EmptyFilterListsAllProcedures(procs: seq<Procedure>)
    ensures |ProcedureRows(procs, "")| == |procs|
    ensures forall i :: 0 <= i < |procs| ==> ProcedureRows(procs, "")[i] == ProcedureRowOf(procs[i])
  {
    if procs != [] {
      EmptyFilterProcedureStep(procs);
      EmptyFilterListsAllProcedures(procs[1..]);
    }
  }

  lemma EmptyFilterProcedureStep(procs: seq<Procedure>)
    requires procs != []
    ensures ProcedureRows(procs, "") == [ProcedureRowOf(procs[0])] + ProcedureRows(procs[1..], "")
  {
    assert ProcedureMatches(procs[0], "") by { assert Lower("") == ""; }
  }

  /** Saving an edited procedure under its old name at the index the lookup gave keeps the lookup pointing at it. */
  lemma EditedProcedureFoundAgain(procs: seq<Procedure>, name: string, edited: Procedure)
    requires FirstProcedureIndex(procs, name).Some?
    requires edited.name == name
    ensures FirstProcedureIndex(procs[FirstProcedureIndex(procs, name).value := edited], name)
         == FirstProcedureIndex(procs, name)
  {
    var i := FirstProcedureIndex(procs, name).value;
    var r := FirstProcedureIndex(procs[i := edited], name);
    assert r.Some? by { assert procs[i := edited][i].name == name; }
    assert r.value == i by {
      assert procs[i := edited][i].name == name;
    }
  }

  /** A procedure appended under a new name is found by the lookup, at the end of the list. */
  lemma AppendedProcedureFound(procs: seq<Procedure>, added: Procedure)
    requires FirstProcedureIndex(procs, added.name).None?
    ensures FirstProcedureIndex(procs + [added], added.name) == Some(|procs|)
  {
    var r := FirstProcedureIndex(procs + [added], added.name);
    assert r.Some? by { assert (procs + [added])[|procs|].name == added.name; }
    assert r.value == |procs|;
  }

  /** Adding the same researcher twice changes the string once. */
  lemma AddResearcherIdempotent(current: string, newName: string)
    ensures WithResearcher(WithResearcher(current, newName), newName) == WithResearcher(current, newName)
  {
  }

  /** Stripping piece by piece distributes over concatenation. */
  lemma StripEachAppend(p: seq<string>, q: seq<string>)
    ensures StripEach(p + q) == StripEach(p) + StripEach(q)
  {
    var l, r := StripEach(p + q), StripEach(p) + StripEach(q);
    forall i | 0 <= i < |l|
      ensures l[i] == r[i]
    {
      if i < |p| {
        assert (p + q)[i] == p[i];
      } else {
        assert (p + q)[i] == q[i - |p|];
      }
    }
  }

  /** The dialog's names of a string cut at a comma are the names of the two sides. */
  lemma ChoicesAppend(a: string, b: string)
    ensures ResearcherChoices(a + [','] + b) == ResearcherChoices(a) + ResearcherChoices(b)
  {
    SplitAppend(a, ',', b);
    StripEachAppend(Split(a, ','), Split(b, ','));
  }

  /** The blank after the comma of ", " does not reach the dialog: names are stripped. */
  lemma ChoicesLeadingSpace(b: string)
    ensures ResearcherChoices([' '] + b) == ResearcherChoices(b)
  {
    var pb := Split(b, ',');
    SplitCons(' ', b, ',');
    SplitNonEmpty(b, ',');
    StripLeadingSpace(' ', Head(pb));
    var l, r := ResearcherChoices([' '] + b), ResearcherChoices(b);
    assert |l| == |r|;
    forall i | 0 <= i < |l|
      ensures l[i] == r[i]
    {
      if i > 0 {
        assert Split([' '] + b, ',')[i] == pb[i];
      }
    }
  }

  /** A string without commas is offered as one name. */
  lemma ChoicesSingle(x: string)
    requires ',' !in x
    ensures ResearcherChoices(x) == [Strip(x)]
  {
    SplitWithoutSeparator(x, ',');
  }

  /** A researcher added by `kisi_ekle` (and holding no comma) becomes the last name the new-note dialog offers. */
  lemma AddedResearcherIsOffered(current: string, newName: string)
    requires !Contains(current, newName)
    requires ',' !in newName
    ensures ResearcherChoices(WithResearcher(current, newName)) == ResearcherChoices(current) + [Strip(newName)]
  {
    assert WithResearcher(current, newName) == current + [','] + ([' '] + newName);
    ChoicesAppend(current, [' '] + newName);
    ChoicesLeadingSpace(newName);
    ChoicesSingle(newName);
  }

  /** One stripped, comma-free name in front of ", " reads back as that name followed by the rest. */
  lemma ChoicesAfterName(first: string, rest: string)
    requires ',' !in first && Strip(first) == first
    ensures ResearcherChoices(first + ", " + rest) == [first] + ResearcherChoices(rest)
  {
    assert first + ", " + rest == first + [','] + ([' '] + rest);
    ChoicesAppend(first, [' '] + rest);
    ChoicesLeadingSpace(rest);
    ChoicesSingle(first);
  }

  /**
   * The names a note is saved with read back as the same names: joining the
   * dialog's names (stripped, comma-free) with ", " and splitting again is the identity.
   */
  lemma {:induction false} JoinedNamesReadBack(names: seq<string>)
    requires names != []
    requires forall x :: x in names ==> ',' !in x && Strip(x) == x
    ensures ResearcherChoices(Join(names, ", ")) == names
  {
    if |names| == 1 {
      ChoicesSingle(names[0]);
    } else {
      var tail := names[1..];
      var joined := Join(tail, ", ");
      assert Join(names, ", ") == names[0] + ", " + joined;
      assert ResearcherChoices(joined) == tail by {
        assert forall x :: x in tail ==> x in names;
        JoinedNamesReadBack(tail);
      }
      ChoicesAfterName(names[0], joined);
      assert names == [names[0]] + tail;
    }
  }

  /** A note saved with names selected records exactly those names in `kimler`. */
  lemma NoteNamesReadBack(date: string, selected: seq<string>, text: string)
    requires selected != []
    requires forall x :: x in selected ==> ',' !in x && Strip(x) == x
    ensures ResearcherChoices(NewNote(date, selected, text).who) == selected
  {
    JoinedNamesReadBack(selected);
  }
}
