/**
 * The project records the application keeps in memory (`self.projeler`) and
 * the pure list operations on them: the deletion comprehensions, the
 * first-match lookup, the search filters of the notebook and procedure tabs,
 * and the values a new note, procedure or researcher entry is built from.
 */
module Records {
  import opened Wrappers
  import opened Seqs
  import opened Text

  /** A notebook entry of `lab_defteri`: `tarih`, `kimler`, `icerik`. */
  datatype Note = Note(date: string, who: string, content: string)

  /**
   * A procedure of `prosedur_listesi`: `ad`, `malzemeler`, `icerik` and
   * `son_guncelleme`, which records written before that key existed lack.
   */
  datatype Procedure = Procedure(name: string, ingredients: seq<string>, instructions: string, updated: Option<string>)

  /**
   * A project: `id`, `ad`, `arastirmacilar` (one comma-separated string),
   * `baslangic`, and the three lists `lab_defteri`, `prosedur_listesi`, `dosyalar`.
   */
  datatype Project = Project(
    id: int, name: string, researchers: string, started: string,
    notebook: seq<Note>, procedures: seq<Procedure>, files: seq<string>)

  /** The researcher a new project starts with. */
  const FirstResearcher := "Ben"
  /** The `kimler` value of a note saved with nobody selected. */
  const NobodySelected := "Belirtilmedi"
  /** How many characters of a note the notebook list shows. */
  const SummaryLength := 80
  /** What the procedure list shows for a procedure without `son_guncelleme`. */
  const NoDate := "-"

  // ---------------------------------------------------------------- projects

  /** `[p for p in projeler if p['ad'] != ad]`: every project with that name goes, the rest stay in order. */
  function WithoutProject(projects: seq<Project>, name: string): (r: seq<Project>)
    ensures IsSubsequence(r, projects)
    ensures forall p :: multiset(r)[p] == if p.name == name then 0 else multiset(projects)[p]
  {
    var keep := (p: Project) => p.name != name;
    FilterKeepsExactly(projects, keep);
    Filter(projects, keep)
  }

  // ------------------------------------------------------------- researchers

  /** The researcher string after `kisi_ekle`: unchanged when the name already occurs in it as a substring. */
  function WithResearcher(current: string, newName: string): (r: string)
    ensures IsPrefix(current, r)
    ensures Contains(r, newName)
    ensures Contains(current, newName) <==> r == current
  {
    if Contains(current, newName) then current
    else
      ContainsSuffix(current + ", ", newName);
      current + ", " + newName
  }

  /** The names the new-note dialog offers: `[k.strip() for k in arastirmacilar.split(',')]`. */
  function ResearcherChoices(researchers: string): (names: seq<string>)
    ensures |names| >= 1
  {
    SplitNonEmpty(researchers, ',');
    StripEach(Split(researchers, ','))
  }

  /** `[k.strip() for k in pieces]`. */
  function StripEach(pieces: seq<string>): (r: seq<string>)
    ensures |r| == |pieces|
  {
    seq(|pieces|, i requires 0 <= i < |pieces| => Strip(pieces[i]))
  }

  /** The `kimler` of a new note: the selected names joined by ", ", or "Belirtilmedi". */
  function WhoLabel(selected: seq<string>): (r: string)
    ensures selected == [] ==> r == NobodySelected
    ensures selected != [] ==> IsPrefix(selected[0], r)
  {
    if selected == [] then NobodySelected else Join(selected, ", ")
  }

  // ------------------------------------------------------------------- notes

  /** The note `kaydet` stores: the entered date, the selected names, the stripped text. */
  function NewNote(date: string, selected: seq<string>, text: string): (n: Note)
    ensures n.date == date && n.who == WhoLabel(selected)
    ensures n.content == Strip(text)
    ensures n.content == [] <==> AllSpace(text)
  {
    StripBlank(text);
    Note(date, WhoLabel(selected), Strip(text))
  }

  /** `[n for n in lab_defteri if not (n['tarih'] == tarih and n['kimler'] == kimler)]`. */
  function WithoutNotes(notes: seq<Note>, date: string, who: string): (r: seq<Note>)
    ensures IsSubsequence(r, notes)
    ensures forall n :: multiset(r)[n] == if n.date == date && n.who == who then 0 else multiset(notes)[n]
  {
    var keep := (n: Note) => !(n.date == date && n.who == who);
    FilterKeepsExactly(notes, keep);
    Filter(notes, keep)
  }

  /** A row of the notebook list: date, names and the first 80 characters of the text. */
  datatype NoteRow = NoteRow(date: string, who: string, summary: string)

  function NoteRowOf(n: Note): (row: NoteRow)
    ensures row.date == n.date && row.who == n.who
    ensures |row.summary| == if |n.content| <= SummaryLength then |n.content| else SummaryLength
    ensures IsPrefix(row.summary, n.content)
    ensures |n.content| <= SummaryLength ==> row.summary == n.content
  {
    NoteRow(n.date, n.who, if |n.content| <= SummaryLength then n.content else n.content[..SummaryLength])
  }

  /** The search of the notebook tab: the filter occurs in the text, ignoring case. */
  predicate NoteMatches(n: Note, filter: string) {
    Contains(Lower(n.content), Lower(filter))
  }

  /** The search of the notebook tab as a filter. */
  function NoteMatcher(filter: string): Note -> bool {
    (n: Note) => NoteMatches(n, filter)
  }

  /** `defter_listele(filtre)`: a row for each matching note, in list order. */
  function NoteRows(notes: seq<Note>, filter: string): (rows: seq<NoteRow>)
    ensures |rows| == |Filter(notes, NoteMatcher(filter))|
    ensures forall i :: 0 <= i < |rows| ==> rows[i] == NoteRowOf(Filter(notes, NoteMatcher(filter))[i])
  {
    if notes == [] then []
    else
      var rest := NoteRows(notes[1..], filter);
      assert notes == [notes[0]] + notes[1..];
      if NoteMatches(notes[0], filter) then [NoteRowOf(notes[0])] + rest else rest
  }

  /** Every matching note has its row, and every row comes from a matching note. */
  lemma NoteRowsListMatches(notes: seq<Note>, filter: string)
    ensures |NoteRows(notes, filter)| <= |notes|
    ensures forall n :: n in notes && NoteMatches(n, filter) ==> NoteRowOf(n) in NoteRows(notes, filter)
    ensures forall row :: row in NoteRows(notes, filter) ==>
      exists n :: n in notes && NoteMatches(n, filter) && row == NoteRowOf(n)
  {
    var rows, kept := NoteRows(notes, filter), Filter(notes, NoteMatcher(filter));
    FilterKeepsExactly(notes, NoteMatcher(filter));
    forall n | n in notes && NoteMatches(n, filter) ensures NoteRowOf(n) in rows {
      assert multiset(kept)[n] > 0;
      var i :| 0 <= i < |kept| && kept[i] == n;
      assert rows[i] == NoteRowOf(n);
    }
    forall row | row in rows ensures exists n :: n in notes && NoteMatches(n, filter) && row == NoteRowOf(n) {
      var i :| 0 <= i < |rows| && rows[i] == row;
      assert kept[i] in kept;
    }
  }

  // -------------------------------------------------------------- procedures

  /** `[e.get() for e in entries if e.get().strip()]`: the non-blank ingredient lines, unstripped, in order. */
  function Ingredients(entries: seq<string>): (r: seq<string>)
    ensures IsSubsequence(r, entries)
    ensures forall e :: multiset(r)[e] == if AllSpace(e) then 0 else multiset(entries)[e]
  {
    var keep := (e: string) => Strip(e) != [];
    FilterKeepsExactly(entries, keep);
    StripBlankEverywhere();
    Filter(entries, keep)
  }

  /** The record the procedure editor saves, stamped with the current time. */
  function NewProcedure(name: string, entries: seq<string>, text: string, now: string): (p: Procedure)
    ensures p.name == name && p.updated == Some(now)
    ensures p.ingredients == Ingredients(entries)
    ensures forall e :: e in p.ingredients <==> e in entries && !AllSpace(e)
    ensures p.instructions == Strip(text)
    ensures p.instructions == [] <==> AllSpace(text)
  {
    var r := Ingredients(entries);
    assert forall e :: e in r <==> multiset(r)[e] > 0;
    StripBlank(text);
    Procedure(name, r, Strip(text), Some(now))
  }

  /** `[p for p in prosedur_listesi if p['ad'] != ad]`. */
  function WithoutProcedures(procs: seq<Procedure>, name: string): (r: seq<Procedure>)
    ensures IsSubsequence(r, procs)
    ensures forall p :: multiset(r)[p] == if p.name == name then 0 else multiset(procs)[p]
  {
    var keep := (p: Procedure) => p.name != name;
    FilterKeepsExactly(procs, keep);
    Filter(procs, keep)
  }

  /** `pros_duzenle`: the index of the first procedure with that name, if any. */
  function FirstProcedureIndex(procs: seq<Procedure>, name: string): (r: Option<nat>)
    ensures r.Some? ==> r.value < |procs| && procs[r.value].name == name
    ensures r.Some? ==> forall j :: 0 <= j < r.value ==> procs[j].name != name
    ensures r.None? <==> forall j :: 0 <= j < |procs| ==> procs[j].name != name
  {
    if procs == [] then None
    else if procs[0].name == name then Some(0)
    else
      match FirstProcedureIndex(procs[1..], name)
      case None => None
      case Some(i) => Some(i + 1)
  }

  /** A row of the procedure list: the name and `p.get('son_guncelleme', '-')`. */
  datatype ProcedureRow = ProcedureRow(name: string, updated: string)

  function ProcedureRowOf(p: Procedure): (row: ProcedureRow)
    ensures row.name == p.name
    ensures row.updated == if p.updated.Some? then p.updated.value else NoDate
  {
    ProcedureRow(p.name, match p.updated case Some(u) => u case None => NoDate)
  }

  /** The search of the procedure tab: the filter occurs in the name, ignoring case. */
  predicate ProcedureMatches(p: Procedure, filter: string) {
    Contains(Lower(p.name), Lower(filter))
  }

  /** The search of the procedure tab as a filter. */
  function ProcedureMatcher(filter: string): Procedure -> bool {
    (p: Procedure) => ProcedureMatches(p, filter)
  }

  /** `pros_listele(filtre)`: a row for each matching procedure, in list order. */
  function ProcedureRows(procs: seq<Procedure>, filter: string): (rows: seq<ProcedureRow>)
    ensures |rows| == |Filter(procs, ProcedureMatcher(filter))|
    ensures forall i :: 0 <= i < |rows| ==> rows[i] == ProcedureRowOf(Filter(procs, ProcedureMatcher(filter))[i])
  {
    if procs == [] then []
    else
      var rest := ProcedureRows(procs[1..], filter);
      assert procs == [procs[0]] + procs[1..];
      if ProcedureMatches(procs[0], filter) then [ProcedureRowOf(procs[0])] + rest else rest
  }

  /** Every matching procedure has its row, and every row comes from a matching procedure. */
  lemma ProcedureRowsListMatches(procs: seq<Procedure>, filter: string)
    ensures |ProcedureRows(procs, filter)| <= |procs|
    ensures forall p :: p in procs && ProcedureMatches(p, filter) ==> ProcedureRowOf(p) in ProcedureRows(procs, filter)
    ensures forall row :: row in ProcedureRows(procs, filter) ==>
      exists p :: p in procs && ProcedureMatches(p, filter) && row == ProcedureRowOf(p)
  {
    var rows, kept := ProcedureRows(procs, filter), Filter(procs, ProcedureMatcher(filter));
    FilterKeepsExactly(procs, ProcedureMatcher(filter));
    forall p | p in procs && ProcedureMatches(p, filter) ensures ProcedureRowOf(p) in rows {
      assert multiset(kept)[p] > 0;
      var i :| 0 <= i < |kept| && kept[i] == p;
      assert rows[i] == ProcedureRowOf(p);
    }
    forall row | row in rows ensures exists p :: p in procs && ProcedureMatches(p, filter) && row == ProcedureRowOf(p) {
      var i :| 0 <= i < |rows| && rows[i] == row;
      assert kept[i] in kept;
    }
  }
}
