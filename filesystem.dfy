/**
 * The local `backups` directory as backup.py sees it through os.makedirs,
 * open, os.listdir, os.path.getmtime and os.remove.
 */
module FileSystem {
  import opened Environment

  /** A file: its modification time in whole seconds and its CSV rows. */
  datatype Entry = Entry(mtime: int, rows: seq<Row>)

  predicate Distinct(names: seq<string>)
  {
    forall i, j :: 0 <= i < j < |names| ==> names[i] != names[j]
  }

  /** `names` lists every name of `keys` exactly once, in some order. */
  predicate IsListing(names: seq<string>, keys: set<string>)
  {
    && Distinct(names)
    && (forall n :: n in names ==> n in keys)
    && (forall n :: n in keys ==> n in names)
  }

  /**
   * The backups directory. `canMakeDir` says whether the operating system
   * lets the program create the directory; `writable` whether it lets the
   * program create or overwrite files in it; `undeletable` holds the entries
   * os.remove refuses to delete.
   */
  class Disk {
    var dirExists: bool
    var files: map<string, Entry>
    var canMakeDir: bool
    var writable: bool
    var undeletable: set<string>

    /** A directory that does not exist holds no files. */
    ghost predicate Valid()
      reads this
    {
      dirExists || files == map[]
    }

    constructor (dirExists: bool, files: map<string, Entry>, canMakeDir: bool, writable: bool, undeletable: set<string>)
      requires dirExists || files == map[]
      ensures Valid()
      ensures this.dirExists == dirExists && this.files == files
      ensures this.canMakeDir == canMakeDir && this.writable == writable && this.undeletable == undeletable
    {
      this.dirExists := dirExists;
      this.files := files;
      this.canMakeDir := canMakeDir;
      this.writable := writable;
      this.undeletable := undeletable;
    }

    /** os.makedirs('backups', exist_ok=True): ok is false when it raises. */
    method MakeDirs() returns (ok: bool)
      requires Valid()
      modifies this`dirExists
      ensures Valid()
      ensures ok == (old(dirExists) || canMakeDir)
      ensures dirExists == ok
    {
      ok := dirExists || canMakeDir;
      dirExists := ok;
    }

    /**
     * open(path, 'w') followed by writing every row: ok is false when it
     * raises, which it does before anything is written.
     */
    method WriteFile(name: string, rows: seq<Row>, now: int) returns (ok: bool)
      requires Valid()
      modifies this`files
      ensures Valid()
      ensures ok == (dirExists && writable)
      ensures files == if ok then old(files)[name := Entry(now, rows)] else old(files)
    {
      ok := dirExists && writable;
      if ok {
        files := files[name := Entry(now, rows)];
      }
    }

    /** os.remove of an existing entry: ok is false when it raises. */
    method Remove(name: string) returns (ok: bool)
      requires Valid()
      requires name in files
      modifies this`files
      ensures Valid()
      ensures ok == (name !in undeletable)
      ensures files == if ok then old(files) - {name} else old(files)
    {
      ok := name !in undeletable;
      if ok {
        files := files - {name};
      }
    }

    /** os.listdir: every entry once, in an order the program does not choose. */
    method ListDir() returns (names: seq<string>)
      ensures IsListing(names, files.Keys)
    {
      names := [];
      var rest := files.Keys;
      while rest != {}
        invariant rest <= files.Keys
        invariant Distinct(names)
        invariant forall n :: n in names ==> n in files.Keys && n !in rest
        invariant forall n :: n in files.Keys && n !in rest ==> n in names
        decreases rest
      {
        var n :| n in rest;
        names := names + [n];
        rest := rest - {n};
      }
    }
  }
}
