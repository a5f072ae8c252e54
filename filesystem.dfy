/**
 * The part of the operating system's file store the export touches:
 * directories, files keyed by their full path, and the operations
 * `tempfile.mkdtemp`, `open(..., 'w')` + `write`, and `shutil.rmtree`.
 */
module FileSystem {
  import opened Text

  type Path = string

  /** One CSV line, as the list of its fields. */
  type Row = seq<string>

  /** What a file holds: CSV rows, or an archive of named entries with its encoded bytes. */
  datatype Content =
    | CsvFile(rows: seq<Row>)
    | ZipFile(entries: seq<Entry>, bytes: seq<bv8>)

  /** One archive member: the name it is stored under and the file it was read from. */
  datatype Entry = Entry(name: string, data: Content)

  /** `p` lies inside the directory tree rooted at `d`. */
  predicate Under(p: Path, d: Path)
  {
    |p| > |d| && p[..|d| + 1] == d + "/"
  }

  /** A file joined onto a directory lies inside it. */
  lemma JoinUnder(d: Path, name: string)
    ensures Under(Join(d, name), d)
  {
    assert Join(d, name)[..|d| + 1] == d + "/";
  }

  /** Two names joined onto the same directory give the same path only when they are the same name. */
  lemma JoinInjective(d: Path, a: string, b: string)
    requires Join(d, a) == Join(d, b)
    ensures a == b
  {
    assert a == Join(d, a)[|d| + 1..];
    assert b == Join(d, b)[|d| + 1..];
  }

  /** The files that lie outside the tree rooted at `d`. */
  function Outside(files: map<Path, Content>, d: Path): (m: map<Path, Content>)
    ensures forall p :: p in m <==> p in files && !Under(p, d)
    ensures forall p :: p in m ==> m[p] == files[p]
  {
    map p | p in files && !Under(p, d) :: files[p]
  }

  /** The directories that remain once the tree rooted at `d` is removed. */
  function Prune(dirs: set<Path>, d: Path): (rest: set<Path>)
    ensures forall x :: x in rest <==> x in dirs && x != d && !Under(x, d)
  {
    set x | x in dirs && x != d && !Under(x, d)
  }

  /** A file written inside the tree rooted at `d` is gone once that tree is removed. */
  lemma OutsideIgnoresUnder(files: map<Path, Content>, d: Path, p: Path, c: Content)
    requires Under(p, d)
    ensures Outside(files[p := c], d) == Outside(files, d)
  {
  }

  /** Removing `d` from a store that gained only files inside `d` gives back the store it started from. */
  lemma OutsideDropsAdded(base: map<Path, Content>, added: map<Path, Content>, d: Path)
    requires forall p :: p in base ==> !Under(p, d)
    requires forall p :: p in added ==> Under(p, d)
    ensures Outside(base + added, d) == base
  {
  }

  /** The same when the store gained files inside `d` in two steps. */
  lemma OutsideDropsBoth(base: map<Path, Content>, first: map<Path, Content>, second: map<Path, Content>, d: Path)
    requires forall p :: p in base ==> !Under(p, d)
    requires forall p :: p in first ==> Under(p, d)
    requires forall p :: p in second ==> Under(p, d)
    ensures Outside(base + first + second, d) == base
  {
    OutsideDropsAdded(base, first + second, d);
    assert base + first + second == base + (first + second);
  }

  /** The mutable file store. */
  class Disk {
    /** The directories that exist. */
    var dirs: set<Path>
    /** Every file, by its full path. */
    var files: map<Path, Content>
    /** Directories whose removal raises (a permission or busy-file error). */
    var locked: set<Path>

    constructor (dirs: set<Path>, files: map<Path, Content>, locked: set<Path>)
      ensures this.dirs == dirs && this.files == files && this.locked == locked
    {
      this.dirs := dirs;
      this.files := files;
      this.locked := locked;
    }

    /**
     * `tempfile.mkdtemp()`: creates the empty directory `name`, which the
     * operating system picked so that nothing exists there yet.
     */
    method MakeTempDir(name: Path)
      requires name !in dirs && forall p :: p in files ==> !Under(p, name)
      modifies this
      ensures dirs == old(dirs) + {name}
      ensures files == old(files) && locked == old(locked)
    {
      dirs := dirs + {name};
    }

    /**
     * `open(Path(dir) / name, 'w')` followed by writing `c`: fails when the
     * directory does not exist, otherwise creates or truncates the file.
     */
    method CreateFile(dir: Path, name: string, c: Content) returns (ok: bool)
      modifies this
      ensures ok <==> dir in dirs
      ensures ok ==> files == old(files)[Join(dir, name) := c]
      ensures !ok ==> files == old(files)
      ensures dirs == old(dirs) && locked == old(locked)
    {
      ok := dir in dirs;
      if ok {
        files := files[Join(dir, name) := c];
      }
    }

    /** `csv_writer.writerow(row)` on the open CSV file at `p`. */
    method AppendRow(p: Path, row: Row)
      requires p in files && files[p].CsvFile?
      modifies this
      ensures files == old(files)[p := CsvFile(old(files)[p].rows + [row])]
      ensures dirs == old(dirs) && locked == old(locked)
    {
      files := files[p := CsvFile(files[p].rows + [row])];
    }

    /**
     * `shutil.rmtree(d)`: removes `d` with every file and directory below
     * it, or raises (reported as `ok == false`, nothing removed) when `d` is
     * missing or locked.
     */
    method RemoveTree(d: Path) returns (ok: bool)
      modifies this
      ensures ok <==> d in old(dirs) && d !in locked
      ensures ok ==> dirs == Prune(old(dirs), d)
      ensures ok ==> files == Outside(old(files), d)
      ensures !ok ==> dirs == old(dirs) && files == old(files)
      ensures locked == old(locked)
    {
      ok := d in dirs && d !in locked;
      if ok {
        dirs := Prune(dirs, d);
        files := Outside(files, d);
      }
    }
  }
}
