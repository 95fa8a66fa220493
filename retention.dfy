/**
 * cleanup_old_backups: the retention pass over the backups directory.
 *
 * `Prune` walks a directory listing the way the loop does and says what is
 * left, how many files went, and whether an os.remove failure cut the walk
 * short. The lemmas below say what that comes to over any listing order.
 */
module Retention {
  import opened Names
  import opened FileSystem

  const SecondsPerDay := 24 * 60 * 60
  /** The default days_to_keep, which backup_inquiries relies on. */
  const RetentionDays := 7

  /** Files last modified strictly before this instant are old. */
  function Cutoff(now: int, days: int): int
  {
    now - days * SecondsPerDay
  }

  /** The deletion test: a full-backup name and an mtime strictly below the cutoff. */
  predicate Expired(name: string, e: Entry, cutoff: int)
  {
    IsBackupName(name) && e.mtime < cutoff
  }

  /** What the directory should hold once every expired backup is gone. */
  function Retained(files: map<string, Entry>, cutoff: int): map<string, Entry>
  {
    map n | n in files && !Expired(n, files[n], cutoff) :: files[n]
  }

  /** Some expired backup is one that os.remove refuses. */
  predicate Blocked(files: map<string, Entry>, cutoff: int, undeletable: set<string>)
  {
    exists n :: n in files && n in undeletable && Expired(n, files[n], cutoff)
  }

  /** The state left by the loop: remaining files, deleted_count, and whether it stopped early. */
  datatype Pruned = Pruned(files: map<string, Entry>, deleted: nat, aborted: bool)

  /** The loop of cleanup_old_backups run over `listing`, from `files`. */
  function Prune(files: map<string, Entry>, listing: seq<string>, cutoff: int, undeletable: set<string>): Pruned
    decreases |listing|
  {
    if listing == [] then Pruned(files, 0, false)
    else
      var n := listing[0];
      if n in files && Expired(n, files[n], cutoff) then
        if n in undeletable then Pruned(files, 0, true)
        else
          var r := Prune(files - {n}, listing[1..], cutoff, undeletable);
          r.(deleted := r.deleted + 1)
      else Prune(files, listing[1..], cutoff, undeletable)
  }

  /**
   * Whatever the order and whatever fails, pruning only deletes: each file
   * left is unchanged, each file removed was an expired backup os.remove
   * accepted, every other file (foreign files included) stays, and the count
   * is the number of files removed.
   */
  lemma {:induction false} PruneOnlyRemovesExpired(files: map<string, Entry>, listing: seq<string>, cutoff: int, undeletable: set<string>)
    ensures var r := Prune(files, listing, cutoff, undeletable);
      && (forall n :: n in r.files ==> n in files && r.files[n] == files[n])
      && (forall n :: n in files && n !in r.files ==> Expired(n, files[n], cutoff) && n !in undeletable)
      && (forall n :: n in files && !Expired(n, files[n], cutoff) ==> n in r.files)
      && r.deleted == |files| - |r.files|
    decreases |listing|
  {
    if listing != [] {
      var n := listing[0];
      if n in files && Expired(n, files[n], cutoff) {
        if n !in undeletable {
          PruneOnlyRemovesExpired(files - {n}, listing[1..], cutoff, undeletable);
          assert (files - {n}).Keys == files.Keys - {n};
          assert |files - {n}| == |files| - 1;
        }
      } else {
        PruneOnlyRemovesExpired(files, listing[1..], cutoff, undeletable);
      }
    }
  }

  /** Removing an expired backup does not change what retention should keep. */
  lemma RetainedWithoutExpired(files: map<string, Entry>, n: string, cutoff: int)
    requires n in files && Expired(n, files[n], cutoff)
    ensures Retained(files - {n}, cutoff) == Retained(files, cutoff)
  {
  }

  /**
   * Given a listing that names every expired backup, the walk stops early
   * exactly when some expired backup cannot be removed.
   */
  lemma {:induction false} PruneAbortsIffBlocked(files: map<string, Entry>, listing: seq<string>, cutoff: int, undeletable: set<string>)
    requires forall n :: n in files && Expired(n, files[n], cutoff) ==> n in listing
    ensures Prune(files, listing, cutoff, undeletable).aborted <==> Blocked(files, cutoff, undeletable)
    decreases |listing|
  {
    if listing != [] {
      var n := listing[0];
      if n in files && Expired(n, files[n], cutoff) {
        if n !in undeletable {
          var rest := files - {n};
          forall m | m in rest && Expired(m, rest[m], cutoff) ensures m in listing[1..] {
            assert m in listing && m != n;
          }
          PruneAbortsIffBlocked(rest, listing[1..], cutoff, undeletable);
          if Blocked(files, cutoff, undeletable) {
            var m :| m in files && m in undeletable && Expired(m, files[m], cutoff);
            assert m in rest;
          }
        }
      } else {
        forall m | m in files && Expired(m, files[m], cutoff) ensures m in listing[1..] {
          assert m in listing && m != n;
        }
        PruneAbortsIffBlocked(files, listing[1..], cutoff, undeletable);
      }
    }
  }

  /**
   * Given a listing that names every expired backup, a walk that is not cut
   * short leaves exactly the retained files and counts the expired ones.
   */
  lemma {:induction false} PruneComplete(files: map<string, Entry>, listing: seq<string>, cutoff: int, undeletable: set<string>)
    requires forall n :: n in files && Expired(n, files[n], cutoff) ==> n in listing
    requires !Prune(files, listing, cutoff, undeletable).aborted
    ensures Prune(files, listing, cutoff, undeletable).files == Retained(files, cutoff)
    ensures Prune(files, listing, cutoff, undeletable).deleted == |files| - |Retained(files, cutoff)|
    decreases |listing|
  {
    PruneOnlyRemovesExpired(files, listing, cutoff, undeletable);
    if listing != [] {
      var n := listing[0];
      if n in files && Expired(n, files[n], cutoff) {
        var rest := files - {n};
        forall m | m in rest && Expired(m, rest[m], cutoff) ensures m in listing[1..] {
          assert m in listing && m != n;
        }
        PruneComplete(rest, listing[1..], cutoff, undeletable);
        RetainedWithoutExpired(files, n, cutoff);
      } else {
        forall m | m in files && Expired(m, files[m], cutoff) ensures m in listing[1..] {
          assert m in listing && m != n;
        }
        PruneComplete(files, listing[1..], cutoff, undeletable);
      }
    }
  }

  /**
   * A directory with no expired backup is left alone: nothing is deleted and
   * the walk runs to the end, in any order.
   */
  lemma {:induction false} PruneNothingExpired(files: map<string, Entry>, listing: seq<string>, cutoff: int, undeletable: set<string>)
    requires forall n :: n in files ==> !Expired(n, files[n], cutoff)
    ensures Prune(files, listing, cutoff, undeletable) == Pruned(files, 0, false)
    decreases |listing|
  {
    if listing != [] {
      PruneNothingExpired(files, listing[1..], cutoff, undeletable);
    }
  }

  /** A second pass with the same cutoff after a completed one deletes nothing. */
  lemma {:induction false} PruneIdempotent(files: map<string, Entry>, listing1: seq<string>, listing2: seq<string>, cutoff: int, undeletable: set<string>)
    requires forall n :: n in files && Expired(n, files[n], cutoff) ==> n in listing1
    requires !Prune(files, listing1, cutoff, undeletable).aborted
    ensures var once := Prune(files, listing1, cutoff, undeletable).files;
      Prune(once, listing2, cutoff, undeletable) == Pruned(once, 0, false)
  {
    PruneComplete(files, listing1, cutoff, undeletable);
    PruneNothingExpired(Retained(files, cutoff), listing2, cutoff, undeletable);
  }

  /** A backup whose mtime is exactly the cutoff is kept: the comparison is strict. */
  lemma {:induction false} KeptAtCutoff(files: map<string, Entry>, listing: seq<string>, now: int, days: int, undeletable: set<string>, name: string)
    requires name in files && files[name].mtime == Cutoff(now, days)
    ensures var r := Prune(files, listing, Cutoff(now, days), undeletable);
      name in r.files && r.files[name] == files[name]
  {
    PruneOnlyRemovesExpired(files, listing, Cutoff(now, days), undeletable);
  }

  /** Review exports are never pruned, whatever their age. */
  lemma ExportsSurvive(files: map<string, Entry>, listing: seq<string>, cutoff: int, undeletable: set<string>, date: string)
    requires ExportName(date) in files
    ensures var r := Prune(files, listing, cutoff, undeletable);
      ExportName(date) in r.files && r.files[ExportName(date)] == files[ExportName(date)]
  {
    ExportNameIsNotPrunable(date);
    PruneOnlyRemovesExpired(files, listing, cutoff, undeletable);
  }

  /**
   * A full backup is eligible: once its mtime falls below the cutoff, a pass
   * over a complete listing in which no removal fails deletes it.
   */
  lemma ExpiredBackupIsRemoved(files: map<string, Entry>, listing: seq<string>, cutoff: int, undeletable: set<string>, stamp: string)
    requires BackupName(stamp) in files && files[BackupName(stamp)].mtime < cutoff
    requires forall n :: n in files ==> n in listing
    requires !Blocked(files, cutoff, undeletable)
    ensures BackupName(stamp) !in Prune(files, listing, cutoff, undeletable).files
  {
    BackupNameIsPrunable(stamp);
    PruneAbortsIffBlocked(files, listing, cutoff, undeletable);
    PruneComplete(files, listing, cutoff, undeletable);
  }

  /**
   * Seven days' retention over backups 0, 6, 7.5 and 10 days old: exactly
   * the 7.5- and 10-day-old ones go.
   */
  lemma SevenDayExample(now: int, a: string, b: string, c: string, d: string, listing: seq<string>)
    requires IsBackupName(a) && IsBackupName(b) && IsBackupName(c) && IsBackupName(d)
    requires a != b && a != c && a != d && b != c && b != d && c != d
    requires c in listing && d in listing
    ensures var files := map[a := Entry(now, []), b := Entry(now - 6 * SecondsPerDay, []),
                             c := Entry(now - 7 * SecondsPerDay - SecondsPerDay / 2, []),
                             d := Entry(now - 10 * SecondsPerDay, [])];
      Prune(files, listing, Cutoff(now, RetentionDays), {})
        == Pruned(map[a := Entry(now, []), b := Entry(now - 6 * SecondsPerDay, [])], 2, false)
  {
    var files := map[a := Entry(now, []), b := Entry(now - 6 * SecondsPerDay, []),
                     c := Entry(now - 7 * SecondsPerDay - SecondsPerDay / 2, []),
                     d := Entry(now - 10 * SecondsPerDay, [])];
    var kept := map[a := Entry(now, []), b := Entry(now - 6 * SecondsPerDay, [])];
    var cutoff := Cutoff(now, RetentionDays);
    assert files.Keys == {a, b, c, d};
    assert !Expired(a, files[a], cutoff) && !Expired(b, files[b], cutoff);
    assert Expired(c, files[c], cutoff) && Expired(d, files[d], cutoff);
    PruneAbortsIffBlocked(files, listing, cutoff, {});
    PruneComplete(files, listing, cutoff, {});
    assert Retained(files, cutoff) == kept;
    assert |files.Keys| == 4;
    assert |kept.Keys| == 2 by {
      assert kept.Keys == {a, b};
    }
  }

  // One step of the walk, at position i of the listing.

  lemma PruneStepKept(files: map<string, Entry>, listing: seq<string>, i: nat, cutoff: int, undeletable: set<string>)
    requires i < |listing| && !(listing[i] in files && Expired(listing[i], files[listing[i]], cutoff))
    ensures Prune(files, listing[i..], cutoff, undeletable) == Prune(files, listing[i + 1..], cutoff, undeletable)
  {
    assert listing[i..][0] == listing[i] && listing[i..][1..] == listing[i + 1..];
  }

  lemma PruneStepRemoved(files: map<string, Entry>, listing: seq<string>, i: nat, cutoff: int, undeletable: set<string>)
    requires i < |listing| && listing[i] in files && Expired(listing[i], files[listing[i]], cutoff)
    requires listing[i] !in undeletable
    ensures var r := Prune(files - {listing[i]}, listing[i + 1..], cutoff, undeletable);
      Prune(files, listing[i..], cutoff, undeletable) == r.(deleted := r.deleted + 1)
  {
    assert listing[i..][0] == listing[i] && listing[i..][1..] == listing[i + 1..];
  }

  lemma PruneStepBlocked(files: map<string, Entry>, listing: seq<string>, i: nat, cutoff: int, undeletable: set<string>)
    requires i < |listing| && listing[i] in files && Expired(listing[i], files[listing[i]], cutoff)
    requires listing[i] in undeletable
    ensures Prune(files, listing[i..], cutoff, undeletable) == Pruned(files, 0, true)
  {
    assert listing[i..][0] == listing[i];
  }

  /**
   * cleanup_old_backups(days): does nothing when the directory is missing;
   * otherwise walks a listing of it, deleting each expired backup, and stops
   * at the first deletion that fails. The ghost `deleted` exposes the local
   * deleted_count, which backup.py only prints; `listing` is the order
   * os.listdir gave.
   */
  method CleanupOldBackups(disk: Disk, now: int, days: int) returns (ghost deleted: nat, ghost listing: seq<string>)
    requires disk.Valid()
    modifies disk`files
    ensures disk.Valid()
    ensures !old(disk.dirExists) ==> disk.files == old(disk.files) && deleted == 0 && listing == []
    ensures old(disk.dirExists) ==> IsListing(listing, old(disk.files).Keys)
    ensures var r := Prune(old(disk.files), listing, Cutoff(now, days), disk.undeletable);
      disk.files == r.files && deleted == r.deleted
  {
    deleted, listing := 0, [];
    if !disk.dirExists {
      return;
    }
    var cutoff := Cutoff(now, days);
    var names := disk.ListDir();
    listing := names;
    ghost var undeletable := disk.undeletable;
    ghost var target := Prune(disk.files, names, cutoff, undeletable);
    var i := 0;
    while i < |names|
      invariant 0 <= i <= |names|
      invariant disk.Valid() && disk.undeletable == undeletable
      invariant forall j :: i <= j < |names| ==> names[j] in disk.files
      invariant target.files == Prune(disk.files, names[i..], cutoff, undeletable).files
      invariant target.deleted == deleted + Prune(disk.files, names[i..], cutoff, undeletable).deleted
    {
      var name := names[i];
      if IsBackupName(name) {
        var fileTime := disk.files[name].mtime;
        if fileTime < cutoff {
          ghost var here := disk.files;
          var ok := disk.Remove(name);
          if !ok {
            PruneStepBlocked(disk.files, names, i, cutoff, undeletable);
            break;
          }
          assert disk.files == here - {name};
          PruneStepRemoved(here, names, i, cutoff, undeletable);
          deleted := deleted + 1;
        } else {
          PruneStepKept(disk.files, names, i, cutoff, undeletable);
        }
      } else {
        PruneStepKept(disk.files, names, i, cutoff, undeletable);
      }
      i := i + 1;
    }
  }
}
