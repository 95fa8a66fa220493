/**
 * File names, object keys and the retention filter of backup.py, and how they
 * relate: every full-backup name passes the retention filter, no export name
 * does, and the remote key of a backup keeps its file name.
 */
module Names {

  const BackupDir := "backups"
  const BackupPrefix := "inquiries_backup_"
  const ExportPrefix := "recent_inquiries_"
  const CsvSuffix := ".csv"
  const RemotePrefix := "techsynergy-backups/"

  predicate StartsWith(s: string, prefix: string)
  {
    prefix <= s
  }

  predicate EndsWith(s: string, suffix: string)
  {
    |suffix| <= |s| && s[|s| - |suffix|..] == suffix
  }

  /** The retention filter: only files named like full backups are ever pruned. */
  predicate IsBackupName(name: string)
  {
    StartsWith(name, BackupPrefix) && EndsWith(name, CsvSuffix)
  }

  predicate IsDigit(c: char)
  {
    '0' <= c <= '9'
  }

  /** The shape of strftime("%Y%m%d_%H%M%S") for a four-digit year. */
  predicate IsStamp(s: string)
  {
    |s| == 15 && s[8] == '_' && forall i :: 0 <= i < |s| && i != 8 ==> IsDigit(s[i])
  }

  /** os.path.join of a directory without a trailing slash and a relative name. */
  function Join(dir: string, name: string): string
  {
    dir + "/" + name
  }

  /** Name, inside the backups directory, of the full backup taken at `stamp`. */
  function BackupName(stamp: string): string
  {
    BackupPrefix + stamp + CsvSuffix
  }

  function BackupPath(stamp: string): string
  {
    Join(BackupDir, BackupName(stamp))
  }

  /** Name, inside the backups directory, of the review export made on `date`. */
  function ExportName(date: string): string
  {
    ExportPrefix + date + CsvSuffix
  }

  function ExportPath(date: string): string
  {
    Join(BackupDir, ExportName(date))
  }

  /**
   * os.path.basename on a POSIX path: the longest suffix without a slash.
   */
  function Basename(path: string): (b: string)
    ensures EndsWith(path, b)
    ensures '/' !in b
    ensures |b| < |path| ==> path[|path| - |b| - 1] == '/'
    decreases |path|
  {
    if path == [] then ""
    else if path[|path| - 1] == '/' then ""
    else Basename(path[..|path| - 1]) + [path[|path| - 1]]
  }

  /** The key under which an uploaded file is stored in the bucket. */
  function RemoteKey(filename: string): string
  {
    RemotePrefix + Basename(filename)
  }

  /** Joining a slash-free name to a directory and taking the basename gives the name back. */
  lemma BasenameOfJoin(dir: string, name: string)
    requires '/' !in name
    ensures Basename(Join(dir, name)) == name
  {
    var p := Join(dir, name);
    var b := Basename(p);
    assert p[|dir|] == '/';
    assert |b| == |name|;
    assert b == p[|p| - |b|..] == name;
  }

  lemma StampHasNoSlash(stamp: string)
    requires IsStamp(stamp)
    ensures '/' !in stamp
  {
  }

  /** Every name a full backup is written under passes the retention filter. */
  lemma BackupNameIsPrunable(stamp: string)
    ensures IsBackupName(BackupName(stamp))
  {
    var n := BackupName(stamp);
    assert n[..|BackupPrefix|] == BackupPrefix;
    assert n[|n| - |CsvSuffix|..] == CsvSuffix;
  }

  /** No name an export is written under passes the retention filter. */
  lemma ExportNameIsNotPrunable(date: string)
    ensures !IsBackupName(ExportName(date))
  {
    var n := ExportName(date);
    assert n[0] == 'r' && BackupPrefix[0] == 'i';
  }

  /**
   * Two backups collide on disk only when their stamps are equal: the same
   * local wall-clock second, which recurs when the clock is set back.
   */
  lemma BackupNameInjective(stamp1: string, stamp2: string)
    requires BackupName(stamp1) == BackupName(stamp2)
    ensures stamp1 == stamp2
  {
    var n := BackupName(stamp1);
    assert stamp1 == n[|BackupPrefix|..|n| - |CsvSuffix|];
    assert stamp2 == n[|BackupPrefix|..|n| - |CsvSuffix|];
  }

  /**
   * The object key of an uploaded backup is the fixed prefix followed by the
   * backup's own file name, which still passes the retention filter.
   */
  lemma RemoteKeyOfBackup(stamp: string)
    requires IsStamp(stamp)
    ensures RemoteKey(BackupPath(stamp)) == RemotePrefix + BackupName(stamp)
    ensures IsBackupName(Basename(BackupPath(stamp)))
  {
    StampHasNoSlash(stamp);
    assert '/' !in BackupName(stamp) by {
      assert BackupName(stamp) == BackupPrefix + stamp + CsvSuffix;
      assert '/' !in BackupPrefix && '/' !in CsvSuffix;
    }
    BasenameOfJoin(BackupDir, BackupName(stamp));
    BackupNameIsPrunable(stamp);
  }
}
