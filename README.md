# LabMate record store, in Dafny

LabMate is a desktop laboratory notebook written in Python with Tkinter
(`app1.py`). It keeps a list of projects in one JSON data file. Each project
has a researcher string, a notebook of dated notes, a list of procedures and
a list of attached file paths. A second JSON file holds the settings for
automatic backup.

This project models the part of LabMate that decides what is stored:

- **Loading.** Old project records get the list fields they lack, and the
  settings get the defaults they lack (`migration.dfy`).
- **Store operations.** These are the changes the buttons and dialogs make to
  the project list and to the project open in the detail screen: add or delete
  a project, add a researcher, add or delete a note, save or delete a procedure,
  and attach a file (`records.dfy`, and the class `App.LabMate` in `app.dfy`).
- **Display filters.** These are the search filters of the notebook and
  procedure tabs (`records.dfy`).
- **Backup.** This covers the gates that decide whether a change is backed up
  to Drive or to a folder, and the clean-up that keeps the five newest copies
  in that folder (`backup.dfy`).

Supporting modules:

- `seqs.dfy`: filtering comprehensions.
- `text.dfy`: Python's `strip`, `lower`, `in`, `split` and `join` on strings.
- `json.dfy`: JSON values and Python truthiness.
- `store_properties.dfy`: lemmas that relate several store operations.

The Python dictionaries of a project, note and procedure are modelled as
records (`Records.Project`, `Records.Note`, `Records.Procedure`). Loading and
the settings are modelled on JSON objects (`map<string, Json>`), because their
code checks and adds keys.

Where the code and the documentation of the program differ, the model follows
the code:

- The "on exit" backup cadence never triggers a backup, because nothing runs
  at exit.
- The procedure search ignores case.

Saving a procedure is the one exception: the model follows the editor's save
rule, which the editor as written never reaches (see "## Left out").

## Model

| member | source | states |
|---|---|---|
| Migration.Backfill | app1.py:66-69 | the migrated project has the old keys plus `lab_defteri`, `prosedur_listesi`, `dosyalar`; values present before are unchanged; each added field is an empty list |
| Migration.BackfillIdempotent | app1.py:66-69 | migrating a migrated project changes nothing |
| Migration.BackfillKeepsComplete | app1.py:66-69 | a project that already has the three list fields is returned unchanged |
| Migration.MigrateProjects | app1.py:66-69 | the loop returns a list of the same length whose every element is the migrated project, with all three list fields |
| Migration.LoadProjects | app1.py:60-71 | a missing or unparsable data file gives the empty list; otherwise every parsed project is migrated |
| Migration.Defaults | app1.py:41-46 | the default settings have exactly the four keys folder, auto, cadence and Drive |
| Migration.WithDefaults | app1.py:50-52 | the merged settings have the loaded keys plus the default keys; loaded values win; missing keys get their default |
| Migration.WithDefaultsIdempotent | app1.py:50-52 | merging the defaults twice is merging them once |
| Migration.WithDefaultsKeepsComplete | app1.py:50-52 | a settings file that has every default key loads unchanged |
| Migration.MergeDefaults | app1.py:50-52 | the loop over the default keys computes `WithDefaults` |
| Migration.LoadSettings | app1.py:40-54 | a missing or unparsable settings file gives exactly the defaults; otherwise the loaded settings with defaults merged in; the default keys are always present |
| Backup.PlanBackup | app1.py:143-163 | auto backup off means no action; an upload exactly when auto and Drive are on; a copy exactly when auto is on, the folder setting is non-empty and the folder exists, and it goes to that folder |
| Backup.DefaultsBackUpNothing | app1.py:41-46 | the default settings start the backup routine on every change, but it does nothing (no folder, Drive off) |
| Backup.AutoOffStaysOff | app1.py:145 | a settings file with automatic backup off is not turned on by the merged defaults |
| Backup.MissingCadenceIsInstant | app1.py:190-193 | a settings file without a cadence backs up on every change, because the default cadence is instant |
| Backup.BackupName | app1.py:156-157 | the name of a copy starts with `LabMate_Yedek_` |
| Backup.AfterCopy | app1.py:157 | after the copy the folder holds the new copy once, and every other entry whose name differs |
| Backup.Prefixed | app1.py:159 | the clean-up looks at exactly the entries whose names start with the backup prefix |
| Backup.InsertSorted | app1.py:159 | inserting into a list sorted by modification time keeps it sorted |
| Backup.InsertMultiset | app1.py:159 | inserting adds exactly the inserted entry |
| Backup.SortByMtimeSorts | app1.py:159 | the sort orders entries oldest first |
| Backup.SortByMtimePermutes | app1.py:159 | the sort is a permutation of its input |
| Backup.InsertStable | app1.py:159 | inserting puts the entry before those with the same modification time and keeps the order of the rest |
| Backup.SortByMtimeStable | app1.py:159 | the sort is stable: entries with the same modification time keep their listing order |
| Backup.RetentionPartition | app1.py:159-160 | the clean-up keeps five copies when there are more and all of them otherwise; nothing is removed when there are five or fewer; every copy is removed or kept |
| Backup.RemovedOnlyBackups | app1.py:159-160 | only entries of the folder with the backup prefix are removed |
| Backup.RemovedOlderThanKept | app1.py:159-160 | no removed copy is newer than a kept one |
| Backup.KeptSorted | app1.py:159-160 | the kept copies are oldest first |
| Backup.CopiesBesideNewOneAreOlder | app1.py:157-159 | after the copy the new one occurs once among the backups and every other backup is older, when the folder held only older copies |
| Backup.NewestBackupSurvives | app1.py:157-160 | the copy just made is kept and not removed when every other copy is older, in whatever order the folder is listed after the copy |
| Backup.PrefixedByContents | app1.py:159 | which copies the clean-up looks at depends only on what the folder holds, not on the listing order |
| Backup.EqualTimesGoInListingOrder | app1.py:159-160 | when all copies have the same modification time, the clean-up deletes the ones the folder lists first and keeps the rest |
| Backup.Cleanup | app1.py:160 | the loop removes exactly the oldest surplus copies, in order, and leaves the rest |
| Backup.RunBackup | app1.py:143-163 | one backup run follows `PlanBackup`; it deletes nothing unless it copies, and then it deletes exactly what the clean-up deletes from the folder as `os.listdir` lists it after the copy (the old entries with the new copy, in any order) |
| Records.WithoutProject | app1.py:261 | deleting by name keeps the other projects in their order, every occurrence of them, and removes every project with that name |
| Records.WithResearcher | app1.py:420-421 | the old researcher string is a prefix of the new one, the new name occurs in it, and the string is unchanged exactly when the name already occurred in it |
| Records.ResearcherChoices | app1.py:452 | the note dialog always offers at least one name |
| Records.WhoLabel | app1.py:459 | nobody selected gives "Belirtilmedi"; otherwise the label starts with the first selected name |
| Records.NewNote | app1.py:459-460 | the note has the given date and the names label; its content is the text with its surrounding whitespace stripped, which is empty exactly when the text is blank |
| Records.WithoutNotes | app1.py:469 | deleting removes every note with that date and names and keeps the rest in order |
| Records.NoteRowOf | app1.py:475 | the summary is a prefix of the content of exactly 80 characters, or the whole content when that is shorter |
| Records.NoteRows | app1.py:474-475 | one row per note whose text contains the filter, ignoring case, in notebook order: row i is the row of the i-th matching note |
| Records.NoteRowsListMatches | app1.py:474-475 | every matching note has its row, every row comes from a matching note, and there are never more rows than notes |
| Records.Ingredients | app1.py:516 | the ingredient lines are exactly the non-blank entries, unstripped, in order |
| Records.NewProcedure | app1.py:516 | the saved procedure has the given name and time stamp; its ingredients are `Ingredients` of the entries (the non-blank ones, in order); its text is the stripped text, empty exactly when blank |
| Records.WithoutProcedures | app1.py:527 | deleting removes every procedure with that name and keeps the rest in order |
| Records.FirstProcedureIndex | app1.py:539-540 | the index is that of the first procedure with the name; None exactly when no procedure has it |
| Records.ProcedureRows | app1.py:532-533 | one row per procedure whose name contains the filter, ignoring case, in list order: row i shows the name and update time ("-" when it has none) of the i-th matching procedure |
| Records.ProcedureRowsListMatches | app1.py:532-533 | every matching procedure has its row, every row comes from a matching procedure, and there are never more rows than procedures |
| StoreProperties.DeleteUndoesAdd | app1.py:261 | deleting the name of a just-added project with a new name restores the list |
| StoreProperties.DeleteUndoesNote | app1.py:469 | deleting the row of a just-added note with a new date and names restores the notebook |
| StoreProperties.DeleteUndoesProcedure | app1.py:527 | deleting the name of a just-appended procedure with a new name restores the list |
| StoreProperties.EmptyFilterListsAllNotes | app1.py:474-475 | with an empty search every note is listed, in notebook order |
| StoreProperties.NewestNoteListedFirst | app1.py:460 | the note saved last is listed first |
| StoreProperties.EmptyFilterListsAllProcedures | app1.py:532-533 | with an empty search every procedure is listed, in list order |
| StoreProperties.EditedProcedureFoundAgain | app1.py:517 | saving an edited procedure under its name at its index keeps the lookup pointing at it |
| StoreProperties.AppendedProcedureFound | app1.py:518 | a procedure appended under a new name is found at the end |
| StoreProperties.AddResearcherIdempotent | app1.py:420-421 | adding the same researcher twice is adding once |
| StoreProperties.AddedResearcherIsOffered | app1.py:421 | a new comma-free name added to the researcher string is offered as a choice in the note dialog, after the old choices |
| StoreProperties.JoinedNamesReadBack | app1.py:459 | names joined with ", " split and strip back to the same names |
| StoreProperties.NoteNamesReadBack | app1.py:459 | the names of a note saved with names selected read back as exactly those names |
| Text.StripBlank | app1.py:516 | `strip()` returns the empty string exactly for blank strings |
| Text.StripMeaning | app1.py:460 | the string is a blank prefix, then what `strip()` returns, then a blank suffix; the result neither starts nor ends with whitespace |
| Text.SplitAppend | app1.py:452 | splitting at a separator splits into the pieces before it followed by the pieces after it |
| App.LabMate.constructor | app1.py:172-173 | the application starts with the loaded projects and with the settings `ayarlari_yukle` gives, so every default key is present; nothing saved yet |
| App.LabMate.DataChanged | app1.py:190-193 | every change saves the project list; the backup routine starts exactly under the instant cadence |
| App.LabMate.NewProject | app1.py:242-250 | a named project is appended with id = length + 1, researcher "Ben" and empty lists, then saved; a cancelled or empty name changes nothing |
| App.LabMate.DeleteProject | app1.py:256-262 | after confirmation every project with the selected name is deleted and the list saved; otherwise nothing changes |
| App.LabMate.AddResearcher | app1.py:416-422 | a name not yet occurring is appended after ", " and saved; otherwise nothing changes and nothing is saved |
| App.LabMate.AddNote | app1.py:457-461 | the new note is inserted at the top of the notebook of the open project and saved |
| App.LabMate.DeleteNote | app1.py:464-470 | after confirmation every note with the selected date and names is deleted and saved |
| App.LabMate.SaveProcedure | app1.py:515-519 | a new procedure is appended, an edited one replaces the entry at its index; an index past the end saves nothing |
| App.LabMate.DeleteProcedure | app1.py:522-528 | after confirmation every procedure with the selected name is deleted and saved |
| App.LabMate.AddFile | app1.py:545-547 | a chosen path is appended and saved; a cancelled dialog changes nothing |

## Left out

- The Tkinter user interface (windows, trees, menus, the help text, the log
  view) is not modelled. Dialog answers, selections and confirmations are
  parameters instead.
- Reading and writing the JSON files is not modelled. Whether a file exists is
  a parameter, and the parse result is an `Option`. The file is written only
  as the last saved value `App.LabMate.saved`.
- The conversion between the JSON objects of the data file and the typed
  records is not modelled.
- Migration.LoadProjects: a document that parses but is not a list of objects
  is modelled like an unparsable one. In Python, some such documents are
  returned as they are, for example an empty object.
- Migration.LoadSettings: a document that parses but is not an object is
  modelled like an unparsable one. In Python, a string that contains all four
  key names is returned as it is.
- Uploading to Google Drive, OAuth sign-in and the token file are not modelled.
  `Backup.PlanBackup` only says whether an upload is attempted.
- Threads, clocks and exceptions are not modelled:
  - The backup routine runs on another thread; the model records whether it
    is started.
  - The date and time stamps are parameters.
  - An error while copying or deleting in the backup folder stops the routine;
    the model describes a run without such errors.
- The order in which `os.listdir` lists the backup folder is not modelled. It
  is the parameter `listed` of `Backup.RunBackup`, which may hold the folder's
  entries in any order.
- Backup.Entry: modification times are integers. `copy2` keeps the data file's
  modification time, so a fresh copy is as new as the last save.
- Text.Lower: only ASCII letters are lowered. Python's `lower()` on other
  letters, for example Turkish ones, is not modelled.
- The settings dialog and the places that only read the store are not
  modelled: the settings dialog (`popup_ayarlar`), opening a project
  (`projeye_gir`), reading a note (`not_oku`), and opening the procedure
  editor (`pros_duzenle`, apart from `Records.FirstProcedureIndex`).
- App.LabMate.SaveProcedure models the save rule of the procedure editor
  (app1.py:515-519), not the editor as written. In `popup_pros_editor`, line
  507 (`if d: e.insert(0, d)`) sits at the method's own indentation, where `d`
  is not defined. Opening the editor therefore raises `NameError` before the
  save button is created, and the editor as written saves nothing.
- Table rows are modelled as the strings the rows were made from. Tk's own
  conversion of row values is not modelled.
