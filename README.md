# Backup and retention of the inquiries table

This project models `backup.py` of the TechSynergy assistant bot: the part
that snapshots the `inquiries` table into CSV files under `backups/`, copies
each snapshot to an S3 bucket when credentials are configured, prunes
snapshots older than seven days, and writes a separate export of recent
inquiries for review.

The outside world is reduced to values and one object:

- the process environment is a `map<string, string>` read through `GetEnv`
  (`os.getenv`); a variable counts as configured when it is set and non-empty,
  as Python's truthiness test does;
- a database query is a `Fetch`: `SourceError`, or the returned rows in order;
- the `backups` directory is a `FileSystem.Disk` object whose fields the
  operations update: whether the directory exists, its files (name to mtime
  and CSV rows), whether the system lets the program create the directory,
  whether it lets the program create files in it, and which entries
  `os.remove` refuses to delete;
- the clock is passed in: `now` in whole seconds and the strftime text of
  that instant (`stamp`, `date`);
- the S3 client is one boolean, whether the upload goes through.

Modules, in dependency order: `Wrappers` (Option), `Environment`, `Names`
(file names, object keys, the retention filter), `FileSystem`, `Upload`,
`Retention` (the pruning walk and its specification), `Backup` (the two
entry points).

Two behaviours of the code shape the model:

- One `try` surrounds the whole retention loop (backup.py:102-125), so the
  first `os.remove` that raises ends the pass; `Retention.Prune` records that
  as `aborted`.
- `export_recent_inquiries` never calls `os.makedirs`, so it returns None
  when `backups/` is missing (backup.py:152, 162-164). It also connects
  without checking `DATABASE_URL` (backup.py:132-133); whatever the
  connection does without it is part of its `Fetch` outcome.

## Model

| member | source | states |
|---|---|---|
| Backup.BackupInquiries | backup.py:11-69 | Returns true exactly when DATABASE_URL is set and non-empty, the query succeeds, and either no rows came back or the directory exists or can be made and the file can be written; on false and on zero rows the files are untouched and nothing is uploaded, and the directory is new only when there were rows and `os.makedirs` succeeded before the write failed; on success with rows the same file, upload and retention facts as `Backup.StoreBackup` hold; the result depends neither on the upload nor on pruning failures |
| Backup.StoreBackup | backup.py:42-65 | With rows in hand: succeeds exactly when the directory exists or can be made and accepts the file; on failure files are untouched and nothing is uploaded; on success the upload is attempted with the backup's path (key `techsynergy-backups/` + the file name), the new file holds the ten-column header then every row in source order and survives its own retention pass, every other file is as the pass over the listing leaves it, and a directory that did not exist before holds the new file alone |
| Backup.ExportRecentInquiries | backup.py:127-164 | Returns the path `backups/recent_inquiries_<date>.csv` exactly when the query returned rows and the existing directory accepts the write; the file then holds the six-column header followed by the rows; otherwise nothing changes and None is returned |
| Upload.UploadToS3 | backup.py:71-96 | Skipped unless all three credentials are set and non-empty; succeeds exactly when they are and the client call goes through; a stored object is the given local file under key `techsynergy-backups/` + its basename in the configured bucket |
| Retention.CleanupOldBackups | backup.py:98-125 | A missing directory is left alone with nothing deleted; otherwise the directory is listed once in some order and the files left are those of the walk `Prune` over that listing with cutoff now - days*86400; the ghost out-parameter `deleted` exposes the local `deleted_count`, which backup.py only prints, and equals the walk's count |
| Retention.PruneOnlyRemovesExpired | backup.py:110-118 | For any listing and any failures: every file left is unchanged, every file removed was a backup-named file older than the cutoff that os.remove accepted, every other file (foreign names, recent backups) stays, and the count equals the number of files removed |
| Retention.PruneAbortsIffBlocked | backup.py:102-125 | Over a listing that names every expired backup, the pass stops early exactly when some expired backup cannot be deleted |
| Retention.PruneComplete | backup.py:111-118 | Over a listing that names every expired backup, a pass that is not cut short leaves exactly the non-expired files and counts the expired ones |
| Retention.PruneNothingExpired | backup.py:111-118 | A directory without expired backups is left as it is, with a count of zero, in any listing order |
| Retention.PruneIdempotent | backup.py:98-125 | After a pass that ran to the end, a second pass with the same cutoff deletes nothing |
| Retention.KeptAtCutoff | backup.py:116 | A file whose mtime equals the cutoff exactly is kept, because the comparison is strict |
| Retention.ExportsSurvive | backup.py:112 | A review export is never deleted by the retention pass, whatever its age |
| Retention.ExpiredBackupIsRemoved | backup.py:112-118 | A full backup older than the cutoff is deleted by a pass over a complete listing in which no deletion fails |
| Retention.SevenDayExample | backup.py:107-118 | With seven days' retention and backups 0, 6, 7.5 and 10 days old, exactly the 7.5- and 10-day-old files go and two deletions are counted |
| Names.Basename | backup.py:90 | `os.path.basename`: the result is a suffix of the path without a slash, and the character before it, if any, is a slash |
| Names.BasenameOfJoin | backup.py:90 | The basename of `dir/name` is `name` for a slash-free name |
| Names.RemoteKeyOfBackup | backup.py:90 | The object key of a backup is `techsynergy-backups/` followed by the backup's file name, which still passes the retention filter |
| Names.BackupNameIsPrunable | backup.py:46-47 | Every full-backup name starts with `inquiries_backup_` and ends with `.csv`, so it is subject to pruning |
| Names.ExportNameIsNotPrunable | backup.py:150 | No export name passes the retention filter |
| Names.BackupNameInjective | backup.py:46-47 | Two backups share a file name only when their timestamps are equal, i.e. the same local wall-clock second, which comes back when the clock is set back (e.g. at the end of daylight saving time); the later run then overwrites the earlier file |
| FileSystem.Disk.ListDir | backup.py:111 | `os.listdir`: every entry of the directory exactly once, in an unspecified order |
| FileSystem.Disk.MakeDirs | backup.py:43 | `os.makedirs(..., exist_ok=True)`: succeeds when the directory exists or the system lets it be created, and the directory then exists; files are untouched |
| FileSystem.Disk.WriteFile | backup.py:50-53 | Opening for writing fails unless the directory exists and the system lets files be created in it, independently of whether it let the directory be made; on success the file holds exactly the given rows with the current mtime, replacing any earlier file of that name |
| FileSystem.Disk.Remove | backup.py:117 | `os.remove`: fails for entries the system refuses to delete, otherwise removes exactly that entry |

## Left out

- CSV encoding: a file is its sequence of rows of fields; the quoting and line endings of Python's `csv.writer` are not modelled, nor is how a NULL or a timestamp is rendered as a field.
- The SQL text, the database's `ORDER BY created_at DESC` and the export's date window are the database's work: each query is an outcome given as a parameter, so the export's `days` argument, which only reaches the SQL, does not appear.
- psycopg connections are only success or failure; that `conn.close()` is skipped when the query raises is not modelled.
- boto3 is one boolean covering both client creation and `upload_file`; the bucket's contents are not modelled beyond the `Stored` outcome.
- strftime: the timestamp and date strings are parameters; only their shape (`IsStamp`, digits with an underscore) is used, to show they contain no slash.
- One clock reading per run: the new file's mtime and the retention cutoff both come from `now`, in whole seconds; the caller supplies `stamp` as the strftime text of that reading, and nothing in the model ties `stamp` to `now` (only `IsStamp` constrains its shape); float mtimes are not modelled.
- FileSystem.Disk.WriteFile: a write either fails before anything is written or writes every row; a write that fails midway (disk full) and leaves a truncated file is not modelled.
- Only `os.remove` can fail inside the retention pass; failures of `os.listdir` or `os.path.getmtime` (say, a file deleted by another process) are not modelled.
- Paths outside `backups/` and a `backups` that exists as a regular file are not modelled.
- `load_dotenv` is taken as already applied: the configuration map is the final environment.
- All logging through `print`, and the `__main__` block, are left out.
- techsynergy_bot.py (chat handlers) and manual_backup.py (a driver script) are not part of this model.
