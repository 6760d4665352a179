/**
 * The application object (app1.py, `LabMateApp` together with the
 * `ProjeDetayFrame` that edits one project in place): the project list and
 * settings it holds, the operations the buttons and dialogs run on them, and
 * the save-and-backup step every change ends with.
 *
 * The detail frame edits the dictionary it was handed, which is an element
 * of the project list; here that element is named by its index `p`.
 * Dialog answers (a name typed in, a confirmation, the selected row, the
 * current time) are parameters; an answer the user cancelled is None.
 */
module App {
  import opened Wrappers
  import opened Text
  import opened Json
  import opened Records
  import opened Migration
  import opened Backup

  class LabMate {
    /** `self.projeler`. */
    var projects: seq<Project>
    /** `self.ayarlar`. */
    var settings: map<string, Json>
    /** What the data file holds after the last save of this session; None before the first. */
    var saved: Option<seq<Project>>

    /**
     * `__init__`: the loaded projects, and the settings `ayarlari_yukle` reads
     * from the settings file (whether it exists, and what it parses to).
     */
    constructor (loaded: seq<Project>, settingsFileExists: bool, parsedSettings: Option<map<string, Json>>)
      ensures projects == loaded && saved == None
      ensures settings == if settingsFileExists && parsedSettings.Some? then WithDefaults(parsedSettings.value) else Defaults()
      ensures Defaults().Keys <= settings.Keys
    {
      var loadedSettings := LoadSettings(settingsFileExists, parsedSettings);
      projects := loaded;
      settings := loadedSettings;
      saved := None;
    }

    /**
     * `veri_degisti`: writes the project list to the data file, and starts the
     * backup routine (on another thread) only under the instant cadence.
     */
    method DataChanged() returns (backupStarted: bool)
      modifies this`saved
      ensures saved == Some(projects)
      ensures backupStarted <==> InstantCadence(settings)
    {
      saved := Some(projects);
      backupStarted := InstantCadence(settings);
    }

    /** `yeni_proje`: a named project is appended with id one more than the list length; no name, no change. */
    method NewProject(name: Option<string>, today: string) returns (backupStarted: bool)
      modifies this`projects, this`saved
      ensures name.None? || name.value == [] ==>
        projects == old(projects) && saved == old(saved) && !backupStarted
      ensures name.Some? && name.value != [] ==>
        projects == old(projects) + [Project(|old(projects)| + 1, name.value, FirstResearcher, today, [], [], [])]
        && saved == Some(projects) && (backupStarted <==> InstantCadence(settings))
    {
      backupStarted := false;
      if name.Some? && name.value != [] {
        var added := Project(|projects| + 1, name.value, FirstResearcher, today, [], [], []);
        projects := projects + [added];
        backupStarted := DataChanged();
      }
    }

    /** `proje_sil`: after confirmation, every project with the selected row's name goes. */
    method DeleteProject(selected: Option<string>, confirmed: bool) returns (backupStarted: bool)
      modifies this`projects, this`saved
      ensures selected.None? || !confirmed ==>
        projects == old(projects) && saved == old(saved) && !backupStarted
      ensures selected.Some? && confirmed ==>
        projects == WithoutProject(old(projects), selected.value)
        && saved == Some(projects) && (backupStarted <==> InstantCadence(settings))
    {
      backupStarted := false;
      if selected.Some? && confirmed {
        projects := WithoutProject(projects, selected.value);
        backupStarted := DataChanged();
      }
    }

    /**
     * `kisi_ekle`: a name not already occurring in the researcher string is
     * appended after ", " and saved; otherwise nothing changes and nothing is saved.
     */
    method AddResearcher(p: nat, newName: Option<string>) returns (backupStarted: bool)
      requires p < |projects|
      modifies this`projects, this`saved
      ensures newName.None? || newName.value == [] || Contains(old(projects)[p].researchers, newName.value) ==>
        projects == old(projects) && saved == old(saved) && !backupStarted
      ensures newName.Some? && newName.value != [] && !Contains(old(projects)[p].researchers, newName.value) ==>
        projects == old(projects)[p := old(projects)[p].(researchers := WithResearcher(old(projects)[p].researchers, newName.value))]
        && saved == Some(projects) && (backupStarted <==> InstantCadence(settings))
    {
      backupStarted := false;
      if newName.Some? && newName.value != [] {
        var current := projects[p].researchers;
        if !Contains(current, newName.value) {
          projects := projects[p := projects[p].(researchers := WithResearcher(current, newName.value))];
          backupStarted := DataChanged();
        }
      }
    }

    /** `popup_not_ekle`'s save: the new note goes to the top of the notebook. */
    method AddNote(p: nat, date: string, selected: seq<string>, text: string) returns (backupStarted: bool)
      requires p < |projects|
      modifies this`projects, this`saved
      ensures projects == old(projects)[p := old(projects)[p].(notebook := [NewNote(date, selected, text)] + old(projects)[p].notebook)]
      ensures saved == Some(projects)
      ensures backupStarted <==> InstantCadence(settings)
    {
      var note := NewNote(date, selected, text);
      projects := projects[p := projects[p].(notebook := [note] + projects[p].notebook)];
      backupStarted := DataChanged();
    }

    /** `not_sil`: after confirmation, every note with the selected row's date and names goes. */
    method DeleteNote(p: nat, selected: Option<NoteRow>, confirmed: bool) returns (backupStarted: bool)
      requires p < |projects|
      modifies this`projects, this`saved
      ensures selected.None? || !confirmed ==>
        projects == old(projects) && saved == old(saved) && !backupStarted
      ensures selected.Some? && confirmed ==>
        projects == old(projects)[p := old(projects)[p].(notebook :=
          WithoutNotes(old(projects)[p].notebook, selected.value.date, selected.value.who))]
        && saved == Some(projects) && (backupStarted <==> InstantCadence(settings))
    {
      backupStarted := false;
      if selected.Some? && confirmed {
        var row := selected.value;
        projects := projects[p := projects[p].(notebook := WithoutNotes(projects[p].notebook, row.date, row.who))];
        backupStarted := DataChanged();
      }
    }

    /**
     * The procedure editor's save: a new procedure is appended, an edited one
     * replaces the entry at the index it was opened from.  An index past the
     * end of the list (it shrank while the editor was open) raises in the
     * source, so nothing is saved and `ok` is false.
     */
    method SaveProcedure(p: nat, index: Option<nat>, name: string, entries: seq<string>, text: string, now: string)
      returns (ok: bool, backupStarted: bool)
      requires p < |projects|
      modifies this`projects, this`saved
      ensures ok <==> index.None? || index.value < |old(projects)[p].procedures|
      ensures !ok ==> projects == old(projects) && saved == old(saved) && !backupStarted
      ensures ok ==> saved == Some(projects) && (backupStarted <==> InstantCadence(settings))
      ensures ok && index.None? ==>
        projects == old(projects)[p := old(projects)[p].(procedures :=
          old(projects)[p].procedures + [NewProcedure(name, entries, text, now)])]
      ensures ok && index.Some? ==>
        projects == old(projects)[p := old(projects)[p].(procedures :=
          old(projects)[p].procedures[index.value := NewProcedure(name, entries, text, now)])]
    {
      var procedure := NewProcedure(name, entries, text, now);
      var procs := projects[p].procedures;
      match index {
        case None =>
          procs := procs + [procedure];
        case Some(i) =>
          if i >= |procs| {
            return false, false;
          }
          procs := procs[i := procedure];
      }
      projects := projects[p := projects[p].(procedures := procs)];
      ok := true;
      backupStarted := DataChanged();
    }

    /** `pros_sil`: after confirmation, every procedure with the selected row's name goes. */
    method DeleteProcedure(p: nat, selected: Option<string>, confirmed: bool) returns (backupStarted: bool)
      requires p < |projects|
      modifies this`projects, this`saved
      ensures selected.None? || !confirmed ==>
        projects == old(projects) && saved == old(saved) && !backupStarted
      ensures selected.Some? && confirmed ==>
        projects == old(projects)[p := old(projects)[p].(procedures :=
          WithoutProcedures(old(projects)[p].procedures, selected.value))]
        && saved == Some(projects) && (backupStarted <==> InstantCadence(settings))
    {
      backupStarted := false;
      if selected.Some? && confirmed {
        projects := projects[p := projects[p].(procedures := WithoutProcedures(projects[p].procedures, selected.value))];
        backupStarted := DataChanged();
      }
    }

    /** The files tab: a chosen path is appended; a cancelled dialog (empty path) changes nothing. */
    method AddFile(p: nat, path: string) returns (backupStarted: bool)
      requires p < |projects|
      modifies this`projects, this`saved
      ensures path == [] ==> projects == old(projects) && saved == old(saved) && !backupStarted
      ensures path != [] ==>
        projects == old(projects)[p := old(projects)[p].(files := old(projects)[p].files + [path])]
        && saved == Some(projects) && (backupStarted <==> InstantCadence(settings))
    {
      backupStarted := false;
      if path != [] {
        projects := projects[p := projects[p].(files := projects[p].files + [path])];
        backupStarted := DataChanged();
      }
    }
  }
}
