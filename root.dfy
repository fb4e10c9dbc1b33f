/**
  get_or_create_ft_root_directory: open the root directory, creating it when
  it is missing. The source decides "missing" by reading errno after
  opendir whether or not opendir failed, and treats every failure other
  than ENOENT as success. `RootSetupOf` is that decision as written;
  `RootSetupChecked` is the evident intent: succeed exactly when the root
  ends up an openable directory.
*/
module Root {
  import opened Base
  import opened Fs

  const ENOENT := 2
  const EACCES := 13
  const ENOTDIR := 20

  /** The errno a failed opendir(s) leaves: ENOTDIR when a component on
      the way is a regular file, ENOENT when the entry is missing, EACCES
      when it is refused, and ENOTDIR when it is not a directory. */
  function OpendirErrno(d: Disk, s: string): int
  {
    var q := d.Lookup(s);
    if s == "" then ENOENT
    else if d.BelowFile(q) then ENOTDIR
    else if !d.Exists(q) then ENOENT
    else if q in d.denied then EACCES
    else ENOTDIR
  }

  /** As written: errno0 is errno before the call, which a successful
      opendir leaves alone. */
  function RootSetupOf(d: Disk, path: Option<string>, errno0: int): (int, Disk)
  {
    if path == None then (-1, d)
    else
      var p := path.value;
      var errno := if d.IsOpenableDir(p) then errno0 else OpendirErrno(d, p);
      if errno == ENOENT then
        if d.CanMkdir(p) then (0, d.WithDir(p)) else (-1, d)
      else (0, d)
  }

  /** As intended: an openable directory is kept, a missing one is made,
      anything else is refused, and a refusal changes nothing. */
  function RootSetupChecked(d: Disk, path: Option<string>): (r: (int, Disk))
    ensures r.0 == 0 || r.0 == -1
    ensures r.0 == -1 ==> r.1 == d
    ensures path.Some? ==> (r.0 == 0 <==> r.1.IsOpenableDir(path.value))
    ensures path == None ==> r.0 == -1
  {
    if path == None then (-1, d)
    else if d.IsOpenableDir(path.value) then (0, d)
    else if OpendirErrno(d, path.value) == ENOENT && d.CanMkdir(path.value) then (0, d.WithDir(path.value))
    else (-1, d)
  }

  /** The source's version, over the file system. `dir` says whether *dir
      ends up an open directory stream. */
  method GetOrCreateRoot(fs: FileSystem, path: Option<string>, errno0: int) returns (r: int, dir: bool)
    modifies fs
    ensures (r, fs.disk) == RootSetupOf(old(fs.disk), path, errno0)
    ensures dir == (path.Some? && fs.disk.IsOpenableDir(path.value))
  {
    if path == None {
      return -1, false;
    }
    var p := path.value;
    dir := fs.disk.IsOpenableDir(p);
    var errno := if dir then errno0 else OpendirErrno(fs.disk, p);
    if errno == ENOENT {
      var made := fs.Mkdir(p);
      if made == 0 {
        dir := fs.disk.IsOpenableDir(p);
        return 0, dir;
      } else {
        return -1, dir;
      }
    }
    return 0, dir;
  }

  /** The two agree whenever errno did not already hold ENOENT and opendir
      can only fail because the root is missing. */
  lemma RootSetupAgrees(d: Disk, path: string, errno0: int)
    requires errno0 != ENOENT
    requires d.IsOpenableDir(path) || OpendirErrno(d, path) == ENOENT
    ensures RootSetupOf(d, Some(path), errno0) == RootSetupChecked(d, Some(path))
  {
  }

  /** As written, a root that is a regular file is accepted: 0 is returned
      and there is no directory to serve from. */
  lemma RootSetupAcceptsFile()
    ensures var d := Disk(["srv"], {}, {[], ["srv"]}, map[["srv", "ft"] := []]);
      var (r, d') := RootSetupOf(d, Some("ft"), 0);
      r == 0 && !d'.IsOpenableDir("ft") && RootSetupChecked(d, Some("ft")).0 == -1
  {
    var d := Disk(["srv"], {}, {[], ["srv"]}, map[["srv", "ft"] := []]);
    assert Posix.Tokens("ft") == ["ft"] by {
      Posix.TokensOfName("ft");
    }
    assert d.Lookup("ft") == ["srv", "ft"];
  }

  /** As written, a root below a regular file is accepted as well: opendir
      fails with ENOTDIR, no mkdir is tried and 0 is returned with nothing
      made. The intended version refuses it. */
  lemma RootSetupAcceptsBelowFile(d: Disk, p: string, errno0: int)
    requires d.Valid() && p != "" && d.BelowFile(d.Lookup(p))
    ensures RootSetupOf(d, Some(p), errno0) == (0, d)
    ensures RootSetupChecked(d, Some(p)).0 == -1
  {
    BelowFileMissing(d, d.Lookup(p));
  }

  /** As written, an existing root is refused when errno happened to hold
      ENOENT already. */
  lemma RootSetupRefusesExisting()
    ensures var d := Disk(["srv"], {}, {[], ["srv"], ["srv", "ft"]}, map[]);
      RootSetupOf(d, Some("ft"), ENOENT).0 == -1 && d.IsOpenableDir("ft")
  {
    var d := Disk(["srv"], {}, {[], ["srv"], ["srv", "ft"]}, map[]);
    assert Posix.Tokens("ft") == ["ft"] by {
      Posix.TokensOfName("ft");
    }
    assert d.Lookup("ft") == ["srv", "ft"];
  }
}
