/**
 * Loading the two JSON files at start-up (app1.py, `verileri_yukle` and
 * `ayarlari_yukle`): projects written by older versions get the list fields
 * they lack, and the settings get the defaults for the keys they lack.
 *
 * Reading the disk is not modelled: whether the file exists is a parameter,
 * and `json.load` is given as its outcome, None when the file is corrupt or
 * does not hold the expected shape (the source's bare `except`).
 */
module Migration {
  import opened Wrappers
  import opened Json

  // ---------------------------------------------------------------- projects

  const NotebookKey := "lab_defteri"
  const ProceduresKey := "prosedur_listesi"
  const FilesKey := "dosyalar"

  /** The list fields every loaded project has. */
  const ListKeys: set<string> := {NotebookKey, ProceduresKey, FilesKey}

  /** `if k not in p: p[k] = []`. */
  function WithList(p: map<string, Json>, k: string): map<string, Json> {
    if k in p then p else p[k := JArr([])]
  }

  /** One project after the migration: the missing list fields are added empty, and nothing else changes. */
  function Backfill(p: map<string, Json>): (r: map<string, Json>)
    ensures r.Keys == p.Keys + ListKeys
    ensures forall k :: k in p ==> r[k] == p[k]
    ensures forall k :: k in r && k !in p ==> r[k] == JArr([])
  {
    WithList(WithList(WithList(p, NotebookKey), ProceduresKey), FilesKey)
  }

  /** Migrating an already migrated project changes nothing. */
  lemma BackfillIdempotent(p: map<string, Json>)
    ensures Backfill(Backfill(p)) == Backfill(p)
  {
    BackfillKeepsComplete(Backfill(p));
  }

  /** A project that already has its list fields (one the program saved itself) is left as it is. */
  lemma BackfillKeepsComplete(p: map<string, Json>)
    requires ListKeys <= p.Keys
    ensures Backfill(p) == p
  {
    var r := Backfill(p);
    assert r.Keys == p.Keys;
    assert forall k :: k in r ==> r[k] == p[k];
  }

  /** The loop of `verileri_yukle` over the parsed project list. */
  method MigrateProjects(data: seq<map<string, Json>>) returns (r: seq<map<string, Json>>)
    ensures |r| == |data|
    ensures forall i :: 0 <= i < |r| ==> r[i] == Backfill(data[i])
    ensures forall i :: 0 <= i < |r| ==> ListKeys <= r[i].Keys
  {
    r := data;
    for i := 0 to |data|
      invariant |r| == |data|
      invariant forall j :: 0 <= j < i ==> r[j] == Backfill(data[j])
      invariant forall j :: i <= j < |data| ==> r[j] == data[j]
    {
      var p := r[i];
      if NotebookKey !in p { p := p[NotebookKey := JArr([])]; }
      if ProceduresKey !in p { p := p[ProceduresKey := JArr([])]; }
      if FilesKey !in p { p := p[FilesKey := JArr([])]; }
      r := r[i := p];
    }
  }

  /** `verileri_yukle`: no file, or a file that does not parse, gives no projects. */
  method LoadProjects(fileExists: bool, parsed: Option<seq<map<string, Json>>>) returns (r: seq<map<string, Json>>)
    ensures !fileExists || parsed.None? ==> r == []
    ensures fileExists && parsed.Some? ==>
      |r| == |parsed.value| && forall i :: 0 <= i < |r| ==> r[i] == Backfill(parsed.value[i])
  {
    if !fileExists {
      return [];
    }
    match parsed
    case None =>
      r := [];
    case Some(data) =>
      r := MigrateProjects(data);
  }

  // ---------------------------------------------------------------- settings

  const FolderKey := "yedek_klasoru"
  const AutoKey := "otomatik_yedekle"
  const CadenceKey := "siklik"
  const DriveKey := "drive_api_aktif"

  /** The cadence under which every change is backed up. */
  const Instant := "Anl\U{131}k"

  /** The keys of the default settings, in the order the merge visits them. */
  const DefaultKeys: seq<string> := [FolderKey, AutoKey, CadenceKey, DriveKey]

  /** The default settings: no folder, automatic backup on, instant cadence, Drive off. */
  function Defaults(): (d: map<string, Json>)
    ensures d.Keys == set k | k in DefaultKeys
  {
    map[FolderKey := JStr(""), AutoKey := JBool(true), CadenceKey := JStr(Instant), DriveKey := JBool(false)]
  }

  /** The settings after the merge: the loaded values, and the default for every key the file lacks. */
  function WithDefaults(data: map<string, Json>): (r: map<string, Json>)
    ensures r.Keys == data.Keys + Defaults().Keys
    ensures forall k :: k in data ==> r[k] == data[k]
    ensures forall k :: k in Defaults() && k !in data ==> r[k] == Defaults()[k]
  {
    map k | k in data.Keys + Defaults().Keys :: if k in data then data[k] else Defaults()[k]
  }

  /** Merging twice is merging once. */
  lemma WithDefaultsIdempotent(data: map<string, Json>)
    ensures WithDefaults(WithDefaults(data)) == WithDefaults(data)
  {
    var once := WithDefaults(data);
    var twice := WithDefaults(once);
    assert twice.Keys == once.Keys;
    assert forall k :: k in twice ==> twice[k] == once[k];
  }

  /** Settings the program saved itself (all keys present) load unchanged. */
  lemma WithDefaultsKeepsComplete(data: map<string, Json>)
    requires Defaults().Keys <= data.Keys
    ensures WithDefaults(data) == data
  {
    var r := WithDefaults(data);
    assert r.Keys == data.Keys;
    assert forall k :: k in r ==> r[k] == data[k];
  }

  /** The loop of `ayarlari_yukle` over the defaults. */
  method MergeDefaults(data: map<string, Json>) returns (r: map<string, Json>)
    ensures r == WithDefaults(data)
  {
    var d := Defaults();
    r := data;
    for i := 0 to |DefaultKeys|
      invariant forall k :: k in r <==> k in data || k in DefaultKeys[..i]
      invariant forall k :: k in data ==> r[k] == data[k]
      invariant forall k :: k in r && k !in data ==> r[k] == d[k]
    {
      var k := DefaultKeys[i];
      if k !in r {
        r := r[k := d[k]];
      }
    }
    assert DefaultKeys[..|DefaultKeys|] == DefaultKeys;
  }

  /** `ayarlari_yukle`: a missing or unreadable file gives exactly the defaults. */
  method LoadSettings(fileExists: bool, parsed: Option<map<string, Json>>) returns (r: map<string, Json>)
    ensures !fileExists || parsed.None? ==> r == Defaults()
    ensures fileExists && parsed.Some? ==> r == WithDefaults(parsed.value)
    ensures Defaults().Keys <= r.Keys
  {
    if !fileExists {
      return Defaults();
    }
    match parsed
    case None =>
      r := Defaults();
    case Some(data) =>
      r := MergeDefaults(data);
  }
}
