/**
 * The two systems the record store coordinates without a shared
 * transaction: the database (the committed items table) and the image
 * directory (the set of file paths that exist). Each external step the Go
 * code takes (create and copy a file, remove a file, run a statement,
 * commit) is a method here; whether it fails is decided by an oracle the
 * caller passes in.
 */
module Storage {
  import opened Wrappers
  import opened Sql
  import Paths

  /** How copyImg's os.Create and io.Copy turn out. */
  datatype CopyOutcome =
    | Copied        // the file is written
    | CreateFails   // os.Create fails: nothing is touched
    | WriteFails    // the file is created (truncating any old one), the copy fails, and os.Remove deletes it

  /**
   * The outcome of everything the code does not decide: the formatted
   * wall-clock time copyImg puts in a generated name, the value of the id
   * sequence, and which external steps fail.
   */
  datatype Env = Env(
    stamp: string,
    nextId: int,
    copy: CopyOutcome,
    beginFails: bool,
    queryFails: bool,
    execFails: bool,
    commitFails: bool)

  /** The name copyImg stores an upload under: time, "_", and path.Base of the uploaded name. */
  function GeneratedName(stamp: string, name: string): (g: string)
    ensures |g| > |stamp| && g[..|stamp|] == stamp && g[|stamp|] == '_'
  {
    stamp + "_" + Paths.Base(name)
  }

  /** After the stamp and '_' comes path.Base of the upload: one element, never empty, with no directory in it. */
  lemma GeneratedNameSuffix(stamp: string, name: string)
    ensures var g := GeneratedName(stamp, name);
            g[|stamp| + 1..] == Paths.Base(name) && g[|stamp| + 1..] != [] &&
            (g[|stamp| + 1..] == "/" || '/' !in g[|stamp| + 1..])
  {
    var g := GeneratedName(stamp, name);
    assert g == stamp + "_" + Paths.Base(name);
    assert g[|stamp| + 1..] == Paths.Base(name);
  }

  /** An upload "dir/cat.png" is stored as the stamp, '_' and "cat.png": the directory is dropped. */
  lemma GeneratedNamePlain(stamp: string, dir: string, name: string)
    requires name != [] && '/' !in name
    requires dir == [] || dir[|dir| - 1] == '/'
    ensures GeneratedName(stamp, dir + name) == stamp + "_" + name
  {
    Paths.BaseOfPlain(dir, name);
  }

  /**
   * The store's consistency rule between rows and images: every image a
   * row references exists, and no two rows reference the same image.
   * "img/" is the image directory itself, never one of its files, so no
   * row can name the empty image.
   */
  ghost predicate Consistent(t: seq<Row>, files: set<string>)
  {
    (forall r :: r in t && r.img.Some? ==> Paths.ImgPath(r.img.value) in files) &&
    (forall x, y :: x in t && y in t && x.img.Some? && x.img == y.img ==> x == y) &&
    Paths.ImgPath("") !in files
  }

  class Backend {
    /** The committed contents of the items table. */
    var table: seq<Row>
    /** The paths of the files that exist. */
    var files: set<string>

    ghost predicate Valid()
      reads this
    {
      Keyed(table)
    }

    constructor (t: seq<Row>, f: set<string>)
      requires Keyed(t)
      ensures Valid() && table == t && files == f
    {
      table := t;
      files := f;
    }

    /**
     * copyImg: write the upload to img/<stamp>_<base>. Returns the
     * generated name, and whether it succeeded ("" on failure).
     */
    method CopyImg(name: string, stamp: string, outcome: CopyOutcome) returns (img: string, ok: bool)
      modifies this`files
      ensures ok <==> outcome == Copied
      ensures img == if ok then GeneratedName(stamp, name) else ""
      ensures files == CopyEffect(old(files), Paths.ImgPath(GeneratedName(stamp, name)), outcome)
    {
      var generated := GeneratedName(stamp, name);
      var path := Paths.ImgPath(generated);
      match outcome
      case Copied =>
        files := files + {path};
        img, ok := generated, true;
      case CreateFails =>
        img, ok := "", false;
      case WriteFails =>
        files := files - {path};
        img, ok := "", false;
    }

    /** os.Remove, whose error the Go code ignores. */
    method Remove(path: string)
      modifies this`files
      ensures files == old(files) - {path}
    {
      files := files - {path};
    }

    /** db.Exec outside a transaction: the statement takes effect at once or not at all. */
    method Exec(s: Stmt, nextId: int, fails: bool) returns (err: Option<DbError>)
      requires Valid()
      modifies this`table
      ensures Valid()
      ensures var r := if fails then Err(Transient) else Run(old(table), s, nextId);
              (r.Ok? ==> err == None && table == r.value) &&
              (r.Err? ==> err == Some(r.error) && table == old(table))
    {
      var r := if fails then Err(Transient) else Run(table, s, nextId);
      if r.Ok? {
        table := r.value;
        err := None;
      } else {
        err := Some(r.error);
      }
    }

    /** tx.Commit: the rows staged by the transaction become the table, unless the commit fails. */
    method Commit(staged: seq<Row>, fails: bool)
      requires Valid() && Keyed(staged)
      modifies this`table
      ensures Valid()
      ensures table == if fails then old(table) else staged
    {
      if !fails {
        table := staged;
      }
    }
  }

  /** The image directory after copyImg with the given outcome. */
  function CopyEffect(files: set<string>, path: string, outcome: CopyOutcome): set<string>
  {
    match outcome
    case Copied => files + {path}
    case CreateFails => files
    case WriteFails => files - {path}
  }
}
