/**
  The file system the server works on, reduced to what its system calls
  observe: which resolved paths are directories, which are regular files and
  what those hold, and which paths the process is refused access to.
  Outcomes that do not follow from this state (lock contention, stat and
  truncate failures) are not here; the handlers take them as inputs.
*/
module Fs {
  import opened Base
  import Posix

  /** The string ends in a separator, so the kernel takes its last
      component to be a directory: a regular file there fails with ENOTDIR,
      and open(O_CREAT) of it fails with EISDIR. */
  predicate DirSuffix(s: string) { s != [] && s[|s| - 1] == '/' }

  /** A resolved path: the components from the file-system root. */
  type Path = seq<string>

  function Parent(q: Path): Path
    requires q != []
  {
    q[..|q| - 1]
  }

  datatype Disk = Disk(
    cwd: Path,               // the server's working directory
    denied: set<Path>,        // paths whose access(R_OK), open and creation below them fail with EACCES
    dirs: set<Path>,
    files: map<Path, seq<byte>>)
  {
    /** A tree: the root is a directory, nothing is both a file and a
        directory, and every other entry sits in a directory. */
    ghost predicate Valid()
    {
      && [] in dirs
      && dirs !! files.Keys
      && (forall q :: q in dirs && q != [] ==> Parent(q) in dirs)
      && (forall q :: q in files ==> q != [] && Parent(q) in dirs)
    }

    /** The path a system call made with string `s` works on. */
    function Lookup(s: string): Path { Posix.Resolve(cwd, s) }

    predicate Exists(q: Path) { q in dirs || q in files }

    /** Some component on the way to `q` is a regular file, so a lookup of
        `q` fails with ENOTDIR. */
    predicate BelowFile(q: Path)
      decreases |q|
    {
      q != [] && (Parent(q) in files || BelowFile(Parent(q)))
    }

    /** access(s, R_OK) == 0, and open(s, O_RDONLY) >= 0 */
    predicate Access(s: string)
    {
      s != "" && Exists(Lookup(s)) && Lookup(s) !in denied && (DirSuffix(s) ==> Lookup(s) in dirs)
    }

    /** opendir(s) != NULL */
    predicate IsOpenableDir(s: string)
    {
      s != "" && Lookup(s) in dirs && Lookup(s) !in denied
    }

    /** open(s, O_RDONLY) and open(s, O_WRONLY) succeed: an existing regular
        file the process may use. */
    predicate CanOpen(s: string)
    {
      s != "" && Lookup(s) in files && Lookup(s) !in denied && !DirSuffix(s)
    }

    /** A new entry may be made at `s`: nothing is there and its parent is a
        usable directory. */
    predicate CanMake(s: string)
    {
      var q := Lookup(s);
      s != "" && q != [] && !Exists(q) && q !in denied && Parent(q) in dirs && Parent(q) !in denied
    }

    /** mkdir(s, DIRACC) == 0 */
    predicate CanMkdir(s: string) { CanMake(s) }

    function WithDir(s: string): (d: Disk)
      ensures d.dirs == dirs + {Lookup(s)}
    {
      this.(dirs := dirs + {Lookup(s)})
    }

    /** A new regular file may be made at `s`: open(O_CREAT) refuses a
        string ending in a separator even where mkdir would succeed. */
    predicate CanMakeFile(s: string) { CanMake(s) && !DirSuffix(s) }

    /** open(s, O_WRONLY | O_CREAT, FILEACC) >= 0: an existing file is
        opened as it is, a missing one is made empty. */
    predicate CanCreate(s: string) { CanOpen(s) || CanMakeFile(s) }

    function Created(s: string): (d: Disk)
      requires CanCreate(s)
      ensures d.CanOpen(s) && !DirSuffix(s) && d.dirs == dirs && d.cwd == cwd && d.denied == denied
    {
      if CanOpen(s) then this else this.(files := files[Lookup(s) := []])
    }

    /** The file at `s` now holds `data` (ftruncate, or fopen "w" then fputs). */
    function Stored(s: string, data: seq<byte>): (d: Disk)
      requires CanOpen(s)
    {
      this.(files := files[Lookup(s) := data])
    }

    /** What the single sendfile of the read handler reads from `s`. */
    function Contents(s: string): seq<byte>
      requires CanOpen(s)
    {
      files[Lookup(s)]
    }
  }

  /** Making a directory or a file keeps the tree shape. */
  lemma WithDirValid(d: Disk, s: string)
    requires d.Valid() && d.CanMkdir(s)
    ensures d.WithDir(s).Valid() && d.WithDir(s).CanOpen(s) == d.CanOpen(s)
  {
  }

  lemma CreatedValid(d: Disk, s: string)
    requires d.Valid() && d.CanCreate(s)
    ensures d.Created(s).Valid() && d.Created(s).CanOpen(s)
    ensures d.Created(s).dirs == d.dirs
  {
  }

  /** In a tree nothing lies below a regular file. */
  lemma {:induction false} BelowFileMissing(d: Disk, q: Path)
    requires d.Valid() && d.BelowFile(q)
    ensures !d.Exists(q)
    decreases |q|
  {
    var p := Parent(q);
    if p !in d.files {
      BelowFileMissing(d, p);
    }
    assert p !in d.dirs;
  }

  /** A string ending in a separator names a directory or nothing: it
      cannot be opened or created as a file, and it is accessible exactly
      when it is an openable directory. */
  lemma DirSuffixRefused(d: Disk, s: string)
    requires DirSuffix(s)
    ensures !d.CanOpen(s) && !d.CanCreate(s)
    ensures d.Access(s) <==> d.IsOpenableDir(s)
  {
  }

  /** The kernel side of the server's process: one shared file system,
      changed in place by the system calls below. */
  class FileSystem {
    var disk: Disk

    constructor (d: Disk)
      ensures disk == d
    {
      disk := d;
    }

    /** mkdir(s, DIRACC): 0 and a new directory, or -1 and no change. */
    method Mkdir(s: string) returns (r: int)
      modifies this
      ensures r == (if old(disk).CanMkdir(s) then 0 else -1)
      ensures disk == if r == 0 then old(disk).WithDir(s) else old(disk)
    {
      if disk.CanMkdir(s) {
        disk := disk.WithDir(s);
        r := 0;
      } else {
        r := -1;
      }
    }

    /** open(s, O_WRONLY | O_CREAT, FILEACC) */
    method Create(s: string) returns (ok: bool)
      modifies this
      ensures ok == old(disk).CanCreate(s)
      ensures disk == if ok then old(disk).Created(s) else old(disk)
    {
      ok := disk.CanCreate(s);
      if ok {
        disk := disk.Created(s);
      }
    }

    /** Replaces the contents of an open file. */
    method Store(s: string, data: seq<byte>)
      requires disk.CanOpen(s)
      modifies this
      ensures disk == old(disk).Stored(s, data)
    {
      disk := disk.Stored(s, data);
    }
  }
}
