/**
 * Automatic backup (app1.py, `yedekleme_baslat` and `veri_degisti`): which
 * settings start an upload or a copy into the backup folder, and which old
 * copies the folder clean-up deletes so that the five newest are left.
 *
 * The Drive upload itself, the clock and the file system are not modelled:
 * whether the folder exists and what the folder holds are parameters.
 */
module Backup {
  import opened Wrappers
  import opened Seqs
  import opened Text
  import opened Json
  import opened Migration

  // ------------------------------------------------------------------ gating

  /** What one run of the backup routine does: upload the data file to Drive, and copy it into a folder. */
  datatype BackupPlan = BackupPlan(upload: bool, copyTo: Option<Json>)

  const NoBackup := BackupPlan(false, None)

  /** The gates of the backup routine, given the settings and whether the folder named in them exists. */
  function PlanBackup(settings: map<string, Json>, folderExists: bool): (plan: BackupPlan)
    ensures !GetTruthy(settings, AutoKey) ==> plan == NoBackup
    ensures plan.upload <==> GetTruthy(settings, AutoKey) && GetTruthy(settings, DriveKey)
    ensures plan.copyTo.Some? <==> GetTruthy(settings, AutoKey) && GetTruthy(settings, FolderKey) && folderExists
    ensures plan.copyTo.Some? ==> FolderKey in settings && plan.copyTo.value == settings[FolderKey] && Truthy(plan.copyTo.value)
  {
    if !GetTruthy(settings, AutoKey) then NoBackup
    else
      var copyTo := if GetTruthy(settings, FolderKey) && folderExists then Some(settings[FolderKey]) else None;
      BackupPlan(GetTruthy(settings, DriveKey), copyTo)
  }

  /** Whether a change starts the backup routine at once: only under the instant cadence. */
  predicate InstantCadence(settings: map<string, Json>) {
    Get(settings, CadenceKey) == Some(JStr(Instant))
  }

  /** The default settings back up at once, but with no folder and Drive off the routine does nothing. */
  lemma DefaultsBackUpNothing(folderExists: bool)
    ensures InstantCadence(Defaults())
    ensures PlanBackup(Defaults(), folderExists) == NoBackup
  {
    assert Defaults()[FolderKey] == JStr("");
    assert Defaults()[DriveKey] == JBool(false);
  }

  /** A settings file that turns automatic backup off is never overridden by the defaults. */
  lemma AutoOffStaysOff(data: map<string, Json>, folderExists: bool)
    requires AutoKey in data && !Truthy(data[AutoKey])
    ensures PlanBackup(WithDefaults(data), folderExists) == NoBackup
  {
  }

  /** A settings file without the cadence key backs up at once, because the default cadence is instant. */
  lemma MissingCadenceIsInstant(data: map<string, Json>)
    requires CadenceKey !in data
    ensures InstantCadence(WithDefaults(data))
  {
    assert CadenceKey in Defaults();
  }

  // --------------------------------------------------------------- retention

  /** A directory entry of the backup folder with its modification time. */
  datatype Entry = Entry(name: string, mtime: int)

  const BackupPrefix := "LabMate_Yedek_"
  const MaxBackups := 5

  /** The name of the copy made at a time stamp. */
  function BackupName(stamp: string): (name: string)
    ensures IsPrefix(BackupPrefix, name)
  {
    BackupPrefix + stamp + ".json"
  }

  /** The folder after `copy2`: the new copy, replacing any file of the same name. */
  function AfterCopy(listing: seq<Entry>, newCopy: Entry): (r: seq<Entry>)
    ensures newCopy in r
    ensures forall e :: multiset(r)[e]
                       == (if e.name != newCopy.name then multiset(listing)[e] else 0) + (if e == newCopy then 1 else 0)
  {
    var keep := (e: Entry) => e.name != newCopy.name;
    FilterKeepsExactly(listing, keep);
    Filter(listing, keep) + [newCopy]
  }

  /** `f.startswith("LabMate_Yedek_")`. */
  predicate IsBackup(e: Entry) {
    IsPrefix(BackupPrefix, e.name)
  }

  /** The entries the clean-up looks at: those whose names start with the backup prefix. */
  function Prefixed(listing: seq<Entry>): (r: seq<Entry>)
    ensures forall e :: multiset(r)[e] == if IsPrefix(BackupPrefix, e.name) then multiset(listing)[e] else 0
  {
    FilterKeepsExactly(listing, IsBackup);
    Filter(listing, IsBackup)
  }

  /** Each entry is no newer than the next. */
  predicate SortedByMtime(s: seq<Entry>) {
    forall i :: 0 < i < |s| ==> s[i - 1].mtime <= s[i].mtime
  }

  /** In a sorted listing an entry is no newer than any entry after it. */
  lemma {:induction false} SortedOrdered(s: seq<Entry>, i: nat, j: nat)
    requires SortedByMtime(s) && i <= j < |s|
    ensures s[i].mtime <= s[j].mtime
    decreases j - i
  {
    if i < j {
      SortedOrdered(s, i + 1, j);
    }
  }

  /** Inserts `e` before the first entry that is not older, so ties keep their order. */
  function Insert(e: Entry, s: seq<Entry>): (r: seq<Entry>)
    ensures |r| == |s| + 1
    ensures r[0] == e || (s != [] && r[0] == s[0])
  {
    if s == [] || e.mtime <= s[0].mtime then [e] + s else [s[0]] + Insert(e, s[1..])
  }

  lemma {:induction false} InsertSorted(e: Entry, s: seq<Entry>)
    requires SortedByMtime(s)
    ensures SortedByMtime(Insert(e, s))
  {
    if s != [] && e.mtime > s[0].mtime {
      var rest := Insert(e, s[1..]);
      InsertSorted(e, s[1..]);
      var r := [s[0]] + rest;
      assert r == Insert(e, s);
      forall i | 0 < i < |r| ensures r[i - 1].mtime <= r[i].mtime {
        if i > 1 {
          assert r[i - 1] == rest[i - 2] && r[i] == rest[i - 1];
        }
      }
    }
  }

  lemma {:induction false} InsertMultiset(e: Entry, s: seq<Entry>)
    ensures multiset(Insert(e, s)) == multiset(s) + multiset{e}
  {
    if s != [] && e.mtime > s[0].mtime {
      InsertMultiset(e, s[1..]);
      assert s == [s[0]] + s[1..];
    }
  }

  /** `sorted(files, key=os.path.getmtime)`: oldest first, a stable sort. */
  function SortByMtime(s: seq<Entry>): (r: seq<Entry>)
    ensures |r| == |s|
  {
    if s == [] then [] else Insert(s[0], SortByMtime(s[1..]))
  }

  /** The sort orders by modification time. */
  lemma {:induction false} SortByMtimeSorts(s: seq<Entry>)
    ensures SortedByMtime(SortByMtime(s))
  {
    if s != [] {
      SortByMtimeSorts(s[1..]);
      InsertSorted(s[0], SortByMtime(s[1..]));
    }
  }

  /** The sort loses and adds nothing. */
  lemma {:induction false} SortByMtimePermutes(s: seq<Entry>)
    ensures multiset(SortByMtime(s)) == multiset(s)
  {
    if s != [] {
      SortByMtimePermutes(s[1..]);
      InsertMultiset(s[0], SortByMtime(s[1..]));
      assert s == [s[0]] + s[1..];
    }
  }

  /** The entries with modification time `m`. */
  function SameMtime(m: int): Entry -> bool {
    (e: Entry) => e.mtime == m
  }

  /** Insertion puts `e` before every entry with its modification time and moves no other entry past another. */
  lemma {:induction false} InsertStable(e: Entry, s: seq<Entry>, m: int)
    ensures Filter(Insert(e, s), SameMtime(m)) == (if e.mtime == m then [e] else []) + Filter(s, SameMtime(m))
  {
    if s != [] && e.mtime > s[0].mtime {
      InsertStable(e, s[1..], m);
    }
  }

  /** The sort is stable: entries with the same modification time stay in listing order. */
  lemma {:induction false} SortByMtimeStable(s: seq<Entry>, m: int)
    ensures Filter(SortByMtime(s), SameMtime(m)) == Filter(s, SameMtime(m))
  {
    if s != [] {
      SortByMtimeStable(s[1..], m);
      InsertStable(s[0], SortByMtime(s[1..]), m);
    }
  }

  /** How many copies the clean-up deletes out of `n`. */
  function Surplus(n: nat): nat {
    if n > MaxBackups then n - MaxBackups else 0
  }

  /** The copies the clean-up deletes, in the order it deletes them. */
  function RemovedBackups(listing: seq<Entry>): seq<Entry> {
    var sorted := SortByMtime(Prefixed(listing));
    sorted[..Surplus(|sorted|)]
  }

  /** The copies the clean-up leaves, oldest first. */
  function KeptBackups(listing: seq<Entry>): seq<Entry> {
    var sorted := SortByMtime(Prefixed(listing));
    sorted[Surplus(|sorted|)..]
  }

  /**
   * The clean-up keeps five copies when there are more, and all of them
   * otherwise; every copy is either deleted or kept.
   */
  lemma RetentionPartition(listing: seq<Entry>)
    ensures |KeptBackups(listing)| == if |Prefixed(listing)| <= MaxBackups then |Prefixed(listing)| else MaxBackups
    ensures |Prefixed(listing)| <= MaxBackups ==> RemovedBackups(listing) == []
    ensures multiset(RemovedBackups(listing)) + multiset(KeptBackups(listing)) == multiset(Prefixed(listing))
  {
    var sorted := SortByMtime(Prefixed(listing));
    assert sorted == RemovedBackups(listing) + KeptBackups(listing);
    SortByMtimePermutes(Prefixed(listing));
  }

  /** The clean-up deletes only entries of the folder whose names carry the backup prefix. */
  lemma RemovedOnlyBackups(listing: seq<Entry>)
    ensures forall e :: e in RemovedBackups(listing) ==> IsPrefix(BackupPrefix, e.name) && e in listing
  {
    var sorted := SortByMtime(Prefixed(listing));
    SortByMtimePermutes(Prefixed(listing));
    forall e | e in RemovedBackups(listing) ensures IsPrefix(BackupPrefix, e.name) && e in listing {
      assert e in sorted;
      assert multiset(sorted)[e] > 0;
    }
  }

  /** The clean-up never deletes a copy newer than one it keeps. */
  lemma RemovedOlderThanKept(listing: seq<Entry>)
    ensures forall i, j :: 0 <= i < |RemovedBackups(listing)| && 0 <= j < |KeptBackups(listing)| ==>
      RemovedBackups(listing)[i].mtime <= KeptBackups(listing)[j].mtime
  {
    var sorted := SortByMtime(Prefixed(listing));
    var cut := Surplus(|sorted|);
    assert SortedByMtime(sorted) by {
      SortByMtimeSorts(Prefixed(listing));
    }
    forall i, j | 0 <= i < cut && 0 <= j < |sorted| - cut
      ensures sorted[..cut][i].mtime <= sorted[cut..][j].mtime
    {
      SortedOrdered(sorted, i, cut + j);
    }
  }

  /** The copies left are listed oldest first. */
  lemma KeptSorted(listing: seq<Entry>)
    ensures SortedByMtime(KeptBackups(listing))
  {
    var sorted := SortByMtime(Prefixed(listing));
    var cut := Surplus(|sorted|);
    var kept := sorted[cut..];
    SortByMtimeSorts(Prefixed(listing));
    forall i | 0 < i < |kept| ensures kept[i - 1].mtime <= kept[i].mtime {
      assert kept[i - 1] == sorted[cut + i - 1] && kept[i] == sorted[cut + i];
    }
  }

  /**
   * The fresh copy survives its own clean-up when every other copy in the
   * folder is older, as copies of earlier saves of the data file are,
   * whatever order the folder is listed in afterwards.
   */
  lemma NewestBackupSurvives(listing: seq<Entry>, newCopy: Entry, folder: seq<Entry>)
    requires IsPrefix(BackupPrefix, newCopy.name)
    requires forall e :: e in listing && IsPrefix(BackupPrefix, e.name) && e.name != newCopy.name ==> e.mtime < newCopy.mtime
    requires multiset(folder) == multiset(AfterCopy(listing, newCopy))
    ensures newCopy in KeptBackups(folder)
    ensures newCopy !in RemovedBackups(folder)
  {
    var removed, kept := RemovedBackups(folder), KeptBackups(folder);
    CopiesBesideNewOneAreOlder(listing, newCopy);
    PrefixedByContents(folder, AfterCopy(listing, newCopy));
    RetentionPartition(folder);
    assert |kept| >= 1 by {
      assert multiset(Prefixed(folder))[newCopy] == 1;
    }
    assert kept[0] == newCopy || kept[0].mtime < newCopy.mtime by {
      assert multiset(kept)[kept[0]] > 0;
    }
    if newCopy in removed {
      RemovedOlderThanKept(folder);
    }
  }

  /**
   * Between copies of equal modification time the listing order decides:
   * when all copies have the same time, the clean-up deletes those listed
   * first, whichever they are (the fresh copy included).
   */
  lemma EqualTimesGoInListingOrder(listing: seq<Entry>, m: int)
    requires forall e :: e in listing ==> IsBackup(e) && e.mtime == m
    ensures RemovedBackups(listing) == listing[..Surplus(|listing|)]
    ensures KeptBackups(listing) == listing[Surplus(|listing|)..]
  {
    FilterKeepsAll(listing, IsBackup);
    var sorted := SortByMtime(listing);
    SortByMtimeStable(listing, m);
    FilterKeepsAll(listing, SameMtime(m));
    SortByMtimePermutes(listing);
    assert forall x :: x in sorted ==> x in listing by {
      forall x | x in sorted ensures x in listing {
        assert multiset(sorted)[x] > 0;
      }
    }
    FilterKeepsAll(sorted, SameMtime(m));
  }

  /** Which copies the clean-up looks at depends only on what the folder holds, not on its order. */
  lemma PrefixedByContents(x: seq<Entry>, y: seq<Entry>)
    requires multiset(x) == multiset(y)
    ensures multiset(Prefixed(x)) == multiset(Prefixed(y))
  {
    assert forall e :: multiset(Prefixed(x))[e] == multiset(Prefixed(y))[e];
  }

  /** After the copy, the new one occurs once among the backups, and every other backup is older. */
  lemma CopiesBesideNewOneAreOlder(listing: seq<Entry>, newCopy: Entry)
    requires IsPrefix(BackupPrefix, newCopy.name)
    requires forall e :: e in listing && IsPrefix(BackupPrefix, e.name) && e.name != newCopy.name ==> e.mtime < newCopy.mtime
    ensures multiset(Prefixed(AfterCopy(listing, newCopy)))[newCopy] == 1
    ensures forall k :: multiset(Prefixed(AfterCopy(listing, newCopy)))[k] > 0 ==> k == newCopy || k.mtime < newCopy.mtime
  {
    var folder := AfterCopy(listing, newCopy);
    forall k | multiset(Prefixed(folder))[k] > 0 ensures k == newCopy || k.mtime < newCopy.mtime {
      assert multiset(folder)[k] > 0;
      if k != newCopy {
        assert multiset(listing)[k] > 0;
      }
    }
  }

  /** The loop of the clean-up: delete the oldest copy while more than five are left. */
  method Cleanup(listing: seq<Entry>) returns (removed: seq<Entry>, kept: seq<Entry>)
    ensures removed == RemovedBackups(listing)
    ensures kept == KeptBackups(listing)
  {
    var files := SortByMtime(Prefixed(listing));
    ghost var sorted := files;
    removed := [];
    while |files| > MaxBackups
      invariant removed + files == sorted
      invariant |removed| == Surplus(|sorted|) - Surplus(|files|)
    {
      removed := removed + [files[0]];
      files := files[1..];
    }
    kept := files;
    assert removed == sorted[..|removed|];
  }

  /**
   * One run of `yedekleme_baslat`: the gates, then the copy named after the
   * time stamp (with the data file's modification time, which `copy2` keeps)
   * and the clean-up of the folder.  `listing` is the folder before the copy
   * and `listed` what `os.listdir` returns after it: the same entries as
   * `AfterCopy`, in the order of the file system, which decides between
   * copies of equal modification time.  Returns the copies deleted.
   */
  method RunBackup(settings: map<string, Json>, folderExists: bool, listing: seq<Entry>, stamp: string, savedMtime: int,
                   listed: seq<Entry>)
    returns (plan: BackupPlan, removed: seq<Entry>)
    requires PlanBackup(settings, folderExists).copyTo.Some? ==>
      multiset(listed) == multiset(AfterCopy(listing, Entry(BackupName(stamp), savedMtime)))
    ensures plan == PlanBackup(settings, folderExists)
    ensures plan.copyTo.None? ==> removed == []
    ensures plan.copyTo.Some? ==> removed == RemovedBackups(listed)
  {
    plan := NoBackup;
    removed := [];
    if !GetTruthy(settings, AutoKey) {
      return;
    }
    plan := plan.(upload := GetTruthy(settings, DriveKey));
    if GetTruthy(settings, FolderKey) {
      var folder := settings[FolderKey];
      if folderExists {
        plan := plan.(copyTo := Some(folder));
        var kept;
        removed, kept := Cleanup(listed);
      }
    }
  }
}
