/**
 * The two entry points of backup.py: the full backup (write, upload, prune)
 * and the export of recent inquiries for review.
 */
module Backup {
  import opened Wrappers
  import opened Environment
  import opened Names
  import opened FileSystem
  import opened Upload
  import opened Retention

  /** The columns of the full-backup query, in order: the backup's header row. */
  const BackupColumns: Row :=
    ["id", "user_id", "username", "first_name", "last_name",
     "message", "response", "created_at", "status", "contact_info"]

  /** The fixed header row of a review export. */
  const ExportColumns: Row :=
    ["username", "first_name", "message", "created_at", "status", "contact_info"]

  /** The run gets past the query with rows to write: DATABASE_URL is set and the query returned rows. */
  predicate HasRowsToWrite(config: Config, source: Fetch)
  {
    IsSet(GetEnv(config, DatabaseUrlVar)) && source.Rows? && source.rows != []
  }

  /**
   * The backup run succeeds exactly when DATABASE_URL is set, the query
   * succeeds, and a non-empty result can be written: the directory exists
   * or can be made (`dirReady`) and files can be created in it.
   */
  predicate BackupSucceeds(config: Config, source: Fetch, dirReady: bool, writable: bool)
  {
    && IsSet(GetEnv(config, DatabaseUrlVar))
    && source.Rows?
    && (source.rows == [] || (dirReady && writable))
  }

  /**
   * The steps of backup_inquiries once the query has returned rows: create
   * the directory, write the header and the rows to the timestamped file,
   * try the upload, then run the retention pass. Any exception from the
   * first two steps makes the run fail.
   */
  method StoreBackup(disk: Disk, config: Config, inquiries: seq<Row>, stamp: string, now: int, transportOk: bool)
    returns (ok: bool, upload: Option<UploadOutcome>, ghost listing: seq<string>)
    requires disk.Valid()
    requires IsStamp(stamp)
    requires inquiries != []
    modifies disk`dirExists, disk`files
    ensures disk.Valid()
    ensures ok == ((old(disk.dirExists) || disk.canMakeDir) && disk.writable)
    ensures disk.dirExists == (old(disk.dirExists) || disk.canMakeDir)
    ensures !ok ==> disk.files == old(disk.files) && upload == None
    ensures ok ==>
      var name := BackupName(stamp);
      var entry := Entry(now, [BackupColumns] + inquiries);
      var written := old(disk.files)[name := entry];
      && upload == Some(UploadToS3(config, BackupPath(stamp), transportOk))
      && (upload.value.Stored? ==> upload.value.key == RemotePrefix + name)
      && IsListing(listing, written.Keys)
      && disk.files == Prune(written, listing, Cutoff(now, RetentionDays), disk.undeletable).files
      && name in disk.files
      && disk.files[name] == entry
      && |entry.rows| == |inquiries| + 1
      && entry.rows[0] == BackupColumns
      && entry.rows[1..] == inquiries
      // the first backup into a fresh directory leaves it holding that file alone
      && (!old(disk.dirExists) ==> disk.files == map[name := entry])
  {
    upload, listing := None, [];
    var made := disk.MakeDirs();
    if !made {
      return false, upload, listing;
    }
    var name := BackupName(stamp);
    var filename := Join(BackupDir, name);
    var written := disk.WriteFile(name, [BackupColumns] + inquiries, now);
    if !written {
      return false, upload, listing;
    }
    ghost var afterWrite := disk.files;
    var outcome := UploadToS3(config, filename, transportOk);
    RemoteKeyOfBackup(stamp);
    upload := Some(outcome);
    ghost var deleted;
    deleted, listing := CleanupOldBackups(disk, now, RetentionDays);
    ghost var entry := Entry(now, [BackupColumns] + inquiries);
    PruneOnlyRemovesExpired(afterWrite, listing, Cutoff(now, RetentionDays), disk.undeletable);
    assert !Expired(name, entry, Cutoff(now, RetentionDays));
    if !old(disk.dirExists) {
      assert afterWrite == map[name := entry];
      PruneNothingExpired(afterWrite, listing, Cutoff(now, RetentionDays), disk.undeletable);
    }
    ok := true;
  }

  /**
   * backup_inquiries(). `source` is what the full query returns, `stamp` the
   * formatted wall-clock time of the run as the caller supplies it and `now`
   * the run's clock in seconds (the model does not tie the two together);
   * `transportOk` is handed to upload_to_s3. `upload` is None when
   * upload_to_s3 is not called; `listing` is the order the retention pass
   * visited the directory in.
   */
  method BackupInquiries(disk: Disk, config: Config, source: Fetch, stamp: string, now: int, transportOk: bool)
    returns (ok: bool, upload: Option<UploadOutcome>, ghost listing: seq<string>)
    requires disk.Valid()
    requires IsStamp(stamp)
    modifies disk`dirExists, disk`files
    ensures disk.Valid()
    ensures ok == BackupSucceeds(config, source, old(disk.dirExists) || disk.canMakeDir, disk.writable)
    // os.makedirs runs once there are rows, even when the write then fails
    ensures disk.dirExists == (old(disk.dirExists) || (HasRowsToWrite(config, source) && disk.canMakeDir))
    ensures !ok || source.rows == [] ==> disk.files == old(disk.files) && upload == None
    ensures ok && source.rows != [] ==>
      var name := BackupName(stamp);
      var entry := Entry(now, [BackupColumns] + source.rows);
      var written := old(disk.files)[name := entry];
      && upload == Some(UploadToS3(config, BackupPath(stamp), transportOk))
      && (upload.value.Stored? ==> upload.value.key == RemotePrefix + name)
      && IsListing(listing, written.Keys)
      && disk.files == Prune(written, listing, Cutoff(now, RetentionDays), disk.undeletable).files
      && name in disk.files
      && disk.files[name] == entry
      && |entry.rows| == |source.rows| + 1
      && entry.rows[0] == BackupColumns
      && entry.rows[1..] == source.rows
      // the first backup into a fresh directory leaves it holding that file alone
      && (!old(disk.dirExists) ==> disk.files == map[name := entry])
  {
    upload, listing := None, [];
    var databaseUrl := GetEnv(config, DatabaseUrlVar);
    if !IsSet(databaseUrl) {
      return false, upload, listing;
    }
    if source.SourceError? {
      return false, upload, listing;
    }
    var inquiries := source.rows;
    if inquiries == [] {
      return true, upload, listing;
    }
    ok, upload, listing := StoreBackup(disk, config, inquiries, stamp, now, transportOk);
  }

  /**
   * export_recent_inquiries(days). `source` is what the windowed query
   * returns; `date` is the formatted date of the run. The directory is not
   * created here, so the write fails when it is missing.
   */
  method ExportRecentInquiries(disk: Disk, source: Fetch, date: string, now: int) returns (path: Option<string>)
    requires disk.Valid()
    modifies disk`files
    ensures disk.Valid()
    ensures path.Some? <==> source.Rows? && source.rows != [] && disk.dirExists && disk.writable
    ensures path.None? ==> disk.files == old(disk.files)
    ensures path.Some? ==>
      && path.value == ExportPath(date)
      && disk.files == old(disk.files)[ExportName(date) := Entry(now, [ExportColumns] + source.rows)]
  {
    if source.SourceError? || source.rows == [] {
      return None;
    }
    var name := ExportName(date);
    var ok := disk.WriteFile(name, [ExportColumns] + source.rows, now);
    if !ok {
      return None;
    }
    path := Some(Join(BackupDir, name));
  }
}
