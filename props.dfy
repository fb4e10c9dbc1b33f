/**
  What the protocol promises, proved of the handlers' functions: the status
  sequence of every branch, payload only after OK or CREATED, what a write
  leaves on disk and nothing else, and that a file written can be read back.
*/
module ServerProps {
  import opened Base
  import opened Posix
  import opened Defs
  import opened Fs
  import opened Dirs
  import opened Ls
  import opened Wire
  import opened Server
  import Net

  /* ---------------------------------------------------------------------
     handle_connection
     --------------------------------------------------------------------- */

  /** An op byte that is none of 'r', 'w', 'l' gets exactly BADREQ: no path
      is read, nothing changes on disk, no lock is taken, and the socket is
      left open. Every recognised op gets more than that. */
  lemma BadRequest(d: Disk, root: string, req: Request, o: Oracle)
    ensures var out := ServeOf(d, root, req, o);
      out.events == [GotOp(req.op), Status(BADREQ)] <==> !IsOp(req.op)
    ensures var out := ServeOf(d, root, req, o);
      !IsOp(req.op) ==> out.disk == d && out.locks == [] && !out.closed && !out.exited
  {
  }

  /** A recognised op is acknowledged with OK before the path field is
      read; then exactly the handler for that op runs, on root + "/" +
      the path, and the socket is closed unless the process has ended. */
  lemma Dispatch(d: Disk, root: string, req: Request, o: Oracle)
    requires IsOp(req.op)
    ensures var out := ServeOf(d, root, req, o);
      var field := req.field[..Min(|req.field|, BUFSIZE)];
      var h := HandlerOf(d, root, req.op, PathOf(field), req, o);
      && out.events[..3] == [GotOp(req.op), Status(OK), GotPath(field)]
      && out.events[3..] == h.events
      && out.disk == h.disk && out.closed == !out.exited
      && (req.op == READ ==> h == ReadOf(d, root, PathOf(field), o))
      && (req.op == WRITE ==> h == WriteOf(d, root, PathOf(field), req, o))
      && (req.op == LIST ==> h == ListOf(d, root, PathOf(field), o))
  {
    var field := req.field[..Min(|req.field|, BUFSIZE)];
    var h := HandlerOf(d, root, req.op, PathOf(field), req, o);
    var pre := [GotOp(req.op), Status(OK), GotPath(field)];
    assert (pre + h.events)[..3] == pre && (pre + h.events)[3..] == h.events;
  }

  /* ---------------------------------------------------------------------
     handle_read
     --------------------------------------------------------------------- */

  /** The read handler's status sequences: 404 alone when the file cannot
      be opened, 501 alone when the lock fails, 200 then 502 when stat
      fails, otherwise 200, a length and a payload. The shared lock is
      taken exactly when OK is sent, and nothing on disk changes. */
  lemma ReadBranches(d: Disk, root: string, path: string, o: Oracle)
    ensures var out := ReadOf(d, root, path, o);
      var full := FullPath(root, path);
      && out.disk == d && !out.exited
      && (out.events == [Status(NOTFOUND)] <==> !d.Access(full))
      && (out.events == [Status(LOCKERR)] <==> d.Access(full) && !o.lockOk)
      && (out.events == [Status(OK), Status(STATERR)] <==> d.Access(full) && o.lockOk && !o.statOk)
      && (|out.events| == 3 <==> d.Access(full) && o.lockOk && o.statOk)
      && (|out.events| == 3 ==> out.events[0] == Status(OK) && out.events[1].Len? && out.events[2].Bytes?)
      && (out.locks == [Shared] <==> out.events[0] == Status(OK))
      && (out.locks == [] <==> out.events[0] != Status(OK))
  {
  }

  /** A file smaller than 2 GiB that one sendfile can carry is sent whole,
      after OK and its exact size. */
  lemma ReadSendsFile(d: Disk, root: string, path: string, o: Oracle)
    requires d.CanOpen(FullPath(root, path)) && o.lockOk && o.statOk
    requires |d.Contents(FullPath(root, path))| < Net.TWO31 && o.sendRoom >= |d.Contents(FullPath(root, path))|
    ensures var c := d.Contents(FullPath(root, path));
      ReadOf(d, root, path, o).events == [Status(OK), Len(|c|), Bytes(c)]
  {
    var c := d.Contents(FullPath(root, path));
    Net.Int32Small(|c|);
    assert c[..|c|] == c;
  }

  /** On the socket, such a reply reads back as OK, the file's size and
      its bytes. */
  lemma ReadReplyBytes(d: Disk, root: string, path: string, o: Oracle)
    requires d.CanOpen(FullPath(root, path)) && o.lockOk && o.statOk
    requires |d.Contents(FullPath(root, path))| < Net.TWO31 && o.sendRoom >= |d.Contents(FullPath(root, path))|
    ensures var c := d.Contents(FullPath(root, path));
      var s := Sent(ReadOf(d, root, path, o).events);
      && |s| == 8 + |c| && Net.IntOfBytes(s[..4]) == OK && Net.IntOfBytes(s[4..8]) == |c| && s[8..] == c
  {
    var c := d.Contents(FullPath(root, path));
    ReadSendsFile(d, root, path, o);
    SentDecodes(OK, |c|, c);
    Net.Int32Small(OK);
    Net.Int32Small(|c|);
  }

  /* ---------------------------------------------------------------------
     handle_write
     --------------------------------------------------------------------- */

  /** mkdir_p of the file's directory returns 0 and the open with O_CREAT
      then succeeds. */
  predicate CreateOpens(d: Disk, full: string)
  {
    var (made, d1) := AsWritten(d, Some(Dirname(full)));
    made == 0 && d1.CanCreate(full)
  }

  /** The conditions under which the write handler creates the file: the
      open with O_CREAT after mkdir_p succeeds, and so do flock and
      ftruncate. */
  predicate CreateSucceeds(d: Disk, full: string, o: Oracle)
  {
    CreateOpens(d, full) && o.lockOk && o.truncOk
  }

  /** The write handler's status: OK, taking no lock, exactly when the file
      can already be opened for writing; CREATED, under an exclusive lock,
      exactly when it cannot and creation succeeds; otherwise 500 or 501
      alone, and the payload is never read. */
  lemma WriteBranches(d: Disk, root: string, path: string, req: Request, o: Oracle)
    ensures var out := WriteOf(d, root, path, req, o);
      var full := FullPath(root, path);
      && out.events != []
      && (out.events[0] == Status(OK) <==> d.CanOpen(full))
      && (out.events[0] == Status(OK) ==> out.locks == [])
      && (out.events[0] == Status(CREATED) <==> !d.CanOpen(full) && CreateSucceeds(d, full, o))
      && (out.events[0] == Status(CREATED) ==> out.locks == [Exclusive])
      && (|out.events| == 1 <==> out.events[0] != Status(OK) && out.events[0] != Status(CREATED))
      && (|out.events| == 1 ==> out.events[0] == Status(SERVERERROR) || out.events[0] == Status(LOCKERR))
      && (|out.events| > 1 ==> out.events[1] == GotLen(req.size))
  {
  }

  /** Which failure gets which code: 501 alone, with the file created empty
      and no lock held, exactly when the open with O_CREAT succeeded and
      flock failed; 500 under the exclusive lock exactly when ftruncate
      failed; 500 with no lock exactly when mkdir_p or the open failed. */
  lemma WriteFailures(d: Disk, root: string, path: string, req: Request, o: Oracle)
    ensures var out := WriteOf(d, root, path, req, o);
      var full := FullPath(root, path);
      && (out.events == [Status(LOCKERR)] <==> !d.CanOpen(full) && CreateOpens(d, full) && !o.lockOk)
      && (out.events == [Status(LOCKERR)] ==> out.locks == [] && out.disk.CanOpen(full) && out.disk.Contents(full) == [])
      && (out.events == [Status(SERVERERROR)] && out.locks == [Exclusive]
          <==> !d.CanOpen(full) && CreateOpens(d, full) && o.lockOk && !o.truncOk)
      && (out.events == [Status(SERVERERROR)] && out.locks == [] <==> !d.CanOpen(full) && !CreateOpens(d, full))
  {
    var full := FullPath(root, path);
    if !d.CanOpen(full) && CreateOpens(d, full) {
      var d1 := AsWritten(d, Some(Dirname(full))).1;
      MkdirKeepsFiles(d, Dirname(full));
      assert d1.files == d.files && d1.denied == d.denied && d1.cwd == d.cwd;
      assert !d1.CanOpen(full);
      assert d1.Created(full).files == d1.files[d1.Lookup(full) := []];
    }
  }

  /** A path ending in '/' names no file the write handler can use: the
      open with O_WRONLY and the one with O_CREAT after mkdir_p both fail,
      so the answer is 500, with no lock and only what mkdir_p made. */
  lemma WriteDirSuffix(d: Disk, root: string, path: string, req: Request, o: Oracle)
    requires DirSuffix(path)
    ensures WriteOf(d, root, path, req, o)
      == Outcome([Status(SERVERERROR)], AsWritten(d, Some(Dirname(FullPath(root, path)))).1, [], false, false)
  {
    var full := FullPath(root, path);
    assert full[|full| - 1] == path[|path| - 1];
  }

  /** A '/' after the name of a regular file makes the read handler's open
      fail with ENOTDIR: 404 and nothing else. */
  lemma ReadDirSuffix(d: Disk, root: string, path: string, o: Oracle)
    requires d.Valid() && DirSuffix(path) && d.Lookup(FullPath(root, path)) in d.files
    ensures ReadOf(d, root, path, o) == Outcome([Status(NOTFOUND)], d, [], false, false)
  {
    var full := FullPath(root, path);
    assert full[|full| - 1] == path[|path| - 1];
  }

  /** mkdir_p touches no file and changes neither the working directory nor
      what is refused. */
  lemma MkdirKeepsFiles(d: Disk, dir: string)
    ensures var d1 := AsWritten(d, Some(dir)).1;
      d1.files == d.files && d1.denied == d.denied && d1.cwd == d.cwd
  {
    if !d.Access(dir) {
      WalkOnlyAdds(d, PrefixesAsWritten(dir));
    }
  }

  /** After OK or CREATED a non-negative length is followed by one receive,
      and the file then holds what it delivered up to the first NUL byte. A
      negative length ends the process with the file emptied. */
  lemma WriteStores(d: Disk, root: string, path: string, req: Request, o: Oracle)
    ensures var out := WriteOf(d, root, path, req, o);
      var full := FullPath(root, path);
      (out.events[0] == Status(OK) || out.events[0] == Status(CREATED)) ==>
        && out.disk.CanOpen(full)
        && (req.size >= 0 ==> (!out.exited && out.events[2] == GotBytes(Received(req))
                               && out.disk.Contents(full) == UpTo(Received(req), 0 as byte)))
        && (req.size < 0 ==> out.exited && |out.events| == 2 && out.disk.Contents(full) == [])
  {
    WriteBranches(d, root, path, req, o);
  }

  /** A write changes no file but its target and no directory but those
      mkdir_p adds on the way to it, and it keeps the file
      system a tree. */
  lemma WriteFootprint(d: Disk, root: string, path: string, req: Request, o: Oracle)
    ensures var out := WriteOf(d, root, path, req, o);
      var q := d.Lookup(FullPath(root, path));
      && out.disk.cwd == d.cwd && out.disk.denied == d.denied
      && d.dirs <= out.disk.dirs
      && out.disk.files.Keys <= d.files.Keys + {q}
      && (forall p :: p in d.files && p != q ==> p in out.disk.files && out.disk.files[p] == d.files[p])
      && (d.Valid() ==> out.disk.Valid())
  {
    var full := FullPath(root, path);
    if d.CanOpen(full) {
      ReceiveFootprint(d, full, req, [Status(OK)], []);
    } else {
      CreateFootprint(d, full, req, o);
    }
  }

  /** The tail of the handler only rewrites the file it opened. */
  lemma ReceiveFootprint(d: Disk, full: string, req: Request, sent: seq<Event>, locks: seq<Lock>)
    requires d.CanOpen(full)
    ensures var out := ReceiveOf(d, full, req, sent, locks);
      && out.disk == d.(files := out.disk.files)
      && out.disk.files.Keys == d.files.Keys
      && (forall p :: p in d.files && p != d.Lookup(full) ==> out.disk.files[p] == d.files[p])
      && (d.Valid() ==> out.disk.Valid())
  {
  }

  lemma CreateFootprint(d: Disk, full: string, req: Request, o: Oracle)
    ensures var out := CreateOf(d, full, req, o);
      var q := d.Lookup(full);
      && out.disk.cwd == d.cwd && out.disk.denied == d.denied
      && d.dirs <= out.disk.dirs
      && out.disk.files.Keys <= d.files.Keys + {q}
      && (forall p :: p in d.files && p != q ==> p in out.disk.files && out.disk.files[p] == d.files[p])
      && (d.Valid() ==> out.disk.Valid())
  {
    var prefix := Dirname(full);
    if !d.Access(prefix) {
      WalkOnlyAdds(d, PrefixesAsWritten(prefix));
      if d.Valid() {
        WalkKeepsTree(d, PrefixesAsWritten(prefix));
      }
    }
    AfterMkdirFootprint(d, AsWritten(d, Some(prefix)), full, req, o);
  }

  /** What follows mkdir_p only adds the file at `full`, or rewrites it. */
  lemma AfterMkdirFootprint(d: Disk, m: (int, Disk), full: string, req: Request, o: Oracle)
    requires m.1.cwd == d.cwd && m.1.denied == d.denied && d.dirs <= m.1.dirs && m.1.files == d.files
    requires d.Valid() ==> m.1.Valid()
    ensures var out := AfterMkdir(m, full, req, o);
      var q := d.Lookup(full);
      && out.disk.cwd == d.cwd && out.disk.denied == d.denied
      && d.dirs <= out.disk.dirs
      && out.disk.files.Keys <= d.files.Keys + {q}
      && (forall p :: p in d.files && p != q ==> p in out.disk.files && out.disk.files[p] == d.files[p])
      && (d.Valid() ==> out.disk.Valid())
  {
    var (made, d1) := m;
    if made == 0 && d1.CanCreate(full) {
      if d.Valid() {
        CreatedValid(d1, full);
      }
      if o.lockOk && o.truncOk {
        var d3 := d1.Created(full).Stored(full, []);
        ReceiveFootprint(d3, full, req, [Status(CREATED)], [Exclusive]);
      }
    }
  }

  /** Writing the same request twice leaves the disk as writing it once:
      the second write finds the file, answers OK and takes no lock. */
  lemma WriteIdempotent(d: Disk, root: string, path: string, req: Request, o1: Oracle, o2: Oracle)
    requires req.size >= 0
    requires var t := WriteOf(d, root, path, req, o1).events; t[0] == Status(OK) || t[0] == Status(CREATED)
    ensures var once := WriteOf(d, root, path, req, o1);
      var twice := WriteOf(once.disk, root, path, req, o2);
      twice.disk == once.disk && twice.events[0] == Status(OK) && twice.locks == []
  {
    WriteStores(d, root, path, req, o1);
    var once := WriteOf(d, root, path, req, o1);
    RewriteSame(once.disk, root, path, req, o2);
  }

  /** Writing to a file the contents it already holds answers OK and
      changes nothing. */
  lemma RewriteSame(d: Disk, root: string, path: string, req: Request, o: Oracle)
    requires req.size >= 0
    requires d.CanOpen(FullPath(root, path)) && d.Contents(FullPath(root, path)) == UpTo(Received(req), 0 as byte)
    ensures var out := WriteOf(d, root, path, req, o);
      out.disk == d && out.events[0] == Status(OK) && out.locks == []
  {
    var full := FullPath(root, path);
    var q := d.Lookup(full);
    var c := UpTo(Received(req), 0 as byte);
    assert d.files[q := []][q := c] == d.files[q := c];
    assert d.files[q := c] == d.files;
  }

  /** A missing file whose directory is already there is created when it
      may be made and flock and ftruncate succeed. */
  lemma WriteCreates(d: Disk, root: string, path: string, req: Request, o: Oracle)
    requires var full := FullPath(root, path);
      !d.CanOpen(full) && d.Access(Dirname(full)) && d.CanMakeFile(full) && o.lockOk && o.truncOk
    ensures WriteOf(d, root, path, req, o).events[0] == Status(CREATED)
  {
    WriteBranches(d, root, path, req, o);
  }

  /** Round trip: once a write of NUL-free data with its exact length is
      acknowledged, a read of the same path that can take the lock, stat the
      file and send it in one go answers OK, the length and the data. */
  lemma WriteThenRead(d: Disk, root: string, field: string, data: seq<byte>, ow: Oracle, rreq: Request, or: Oracle)
    requires '\0' !in field && |field| <= BUFSIZE
    requires 0 as byte !in data && |data| < Net.TWO31
    requires var w := ServeOf(d, root, Request(WRITE, field, |data|, data), ow);
      w.events[3] == Status(OK) || w.events[3] == Status(CREATED)
    requires rreq.op == READ && rreq.field == field
    requires or.lockOk && or.statOk && or.sendRoom >= |data|
    ensures var w := ServeOf(d, root, Request(WRITE, field, |data|, data), ow);
      && w.events[4..] == [GotLen(|data|), GotBytes(data)]
      && ServeOf(w.disk, root, rreq, or).events
         == [GotOp(READ), Status(OK), GotPath(field), Status(OK), Len(|data|), Bytes(data)]
  {
    var wreq := Request(WRITE, field, |data|, data);
    WriteServed(d, root, field, data, ow);
    var w := ServeOf(d, root, wreq, ow);
    ReadServed(w.disk, root, field, data, rreq, or);
  }

  /** The write half: the handler's tail and what it leaves in the file. */
  lemma WriteServed(d: Disk, root: string, field: string, data: seq<byte>, ow: Oracle)
    requires '\0' !in field && |field| <= BUFSIZE
    requires 0 as byte !in data && |data| < Net.TWO31
    requires var w := ServeOf(d, root, Request(WRITE, field, |data|, data), ow);
      w.events[3] == Status(OK) || w.events[3] == Status(CREATED)
    ensures var w := ServeOf(d, root, Request(WRITE, field, |data|, data), ow);
      && w.events[4..] == [GotLen(|data|), GotBytes(data)]
      && w.disk.CanOpen(FullPath(root, field)) && w.disk.Contents(FullPath(root, field)) == data
  {
    var wreq := Request(WRITE, field, |data|, data);
    assert field[..Min(|field|, BUFSIZE)] == field;
    UpToAbsent(field, '\0');
    Dispatch(d, root, wreq, ow);
    WriteStores(d, root, field, wreq, ow);
    WriteBranches(d, root, field, wreq, ow);
    assert Received(wreq) == data;
    UpToAbsent(data, 0 as byte);
  }

  /** The read half: a file holding `data` is sent whole. */
  lemma ReadServed(d: Disk, root: string, field: string, data: seq<byte>, rreq: Request, or: Oracle)
    requires '\0' !in field && |field| <= BUFSIZE && |data| < Net.TWO31
    requires d.CanOpen(FullPath(root, field)) && d.Contents(FullPath(root, field)) == data
    requires rreq.op == READ && rreq.field == field
    requires or.lockOk && or.statOk && or.sendRoom >= |data|
    ensures ServeOf(d, root, rreq, or).events
      == [GotOp(READ), Status(OK), GotPath(field), Status(OK), Len(|data|), Bytes(data)]
  {
    assert field[..Min(|field|, BUFSIZE)] == field;
    UpToAbsent(field, '\0');
    ReadSendsFile(d, root, field, or);
    Dispatch(d, root, rreq, or);
  }

  /* ---------------------------------------------------------------------
     handle_ls
     --------------------------------------------------------------------- */

  /** The list handler's status sequences: 404 alone when the path is not
      readable, 500 alone when it is no directory or closedir fails, else
      200, the length and the listing; the disk does not change. */
  lemma ListBranches(d: Disk, root: string, path: string, o: Oracle)
    ensures var out := ListOf(d, root, path, o);
      var full := FullPath(root, path);
      && out.disk == d && out.locks == [] && !out.exited
      && (out.events == [Status(NOTFOUND)] <==> !d.Access(full))
      && (out.events == [Status(SERVERERROR)] <==> d.Access(full) && !(d.IsOpenableDir(full) && o.closedirOk))
      && (|out.events| == 3 <==> d.Access(full) && d.IsOpenableDir(full) && o.closedirOk)
  {
  }

  /** A listing shorter than 2 GiB goes out whole after OK and its length. */
  lemma ListSendsListing(d: Disk, root: string, path: string, o: Oracle)
    requires d.IsOpenableDir(FullPath(root, path)) && o.closedirOk
    requires |Listing(o.entries)| < Net.TWO31
    ensures var text := Listing(o.entries);
      ListOf(d, root, path, o).events == [Status(OK), Len(|text|), Bytes(ToBytes(text))]
  {
    var text := Listing(o.entries);
    var b := ToBytes(text);
    Net.Int32Small(|text|);
    assert b[..|b|] == b;
  }

  /* ---------------------------------------------------------------------
     Framing
     --------------------------------------------------------------------- */

  lemma ReadFramed(d: Disk, root: string, path: string, o: Oracle)
    ensures var t := ReadOf(d, root, path, o).events; Framed(t) && t != [] && t[0].Status?
  {
    var t := ReadOf(d, root, path, o).events;
    assert forall i | 0 <= i < |t| :: FramedAt(t, i);
  }

  lemma ListFramed(d: Disk, root: string, path: string, o: Oracle)
    ensures var t := ListOf(d, root, path, o).events; Framed(t) && t != [] && t[0].Status?
  {
    var t := ListOf(d, root, path, o).events;
    assert forall i | 0 <= i < |t| :: FramedAt(t, i);
  }

  lemma ReceiveFramed(d: Disk, full: string, req: Request, s: int, locks: seq<Lock>)
    requires d.CanOpen(full) && (s == OK || s == CREATED)
    ensures var t := ReceiveOf(d, full, req, [Status(s)], locks).events; Framed(t) && t != [] && t[0].Status?
  {
    var t := ReceiveOf(d, full, req, [Status(s)], locks).events;
    assert forall i | 0 <= i < |t| :: FramedAt(t, i);
  }

  lemma WriteFramed(d: Disk, root: string, path: string, req: Request, o: Oracle)
    ensures var t := WriteOf(d, root, path, req, o).events; Framed(t) && t != [] && t[0].Status?
  {
    var full := FullPath(root, path);
    if d.CanOpen(full) {
      ReceiveFramed(d, full, req, OK, []);
    } else {
      var (made, d1) := AsWritten(d, Some(Dirname(full)));
      if made == 0 && d1.CanCreate(full) && o.lockOk && o.truncOk {
        ReceiveFramed(d1.Created(full).Stored(full, []), full, req, CREATED, [Exclusive]);
      }
    }
  }

  /** Whatever the file system, the request and the outcomes of the system
      calls, the trace of a connection is framed: payload in either
      direction only after an OK or CREATED and a length, the path only
      after the acknowledgement, and only the protocol's status codes. */
  lemma ServeFramed(d: Disk, root: string, req: Request, o: Oracle)
    ensures Framed(ServeOf(d, root, req, o).events)
  {
    var t := ServeOf(d, root, req, o).events;
    if !IsOp(req.op) {
      assert forall i | 0 <= i < |t| :: FramedAt(t, i);
    } else {
      var field := req.field[..Min(|req.field|, BUFSIZE)];
      var path := PathOf(field);
      var pre := [GotOp(req.op), Status(OK), GotPath(field)];
      assert forall i | 0 <= i < |pre| :: FramedAt(pre, i);
      if req.op == READ {
        ReadFramed(d, root, path, o);
      } else if req.op == WRITE {
        WriteFramed(d, root, path, req, o);
      } else {
        ListFramed(d, root, path, o);
      }
      FramedCat(pre, HandlerOf(d, root, req.op, path, req, o).events);
    }
  }

  /* ---------------------------------------------------------------------
     An absolute root directory, and mkdir_p's lost '/'
     --------------------------------------------------------------------- */

  /** With a relative root the handler is the same with either mkdir_p. */
  lemma RelativeRootWritesAgree(d: Disk, root: string, path: string, req: Request, o: Oracle)
    requires root != "" && !Absolute(root)
    ensures WriteOf(d, root, path, req, o) == WriteRootedOf(d, root, path, req, o)
  {
    var full := FullPath(root, path);
    assert full[0] == root[0];
    DirnameRelative(full);
    RelativePathsAgree(d, Some(Dirname(full)));
  }

  /** The paths of a write of a/f under the root /r. */
  lemma AbsoluteRootPaths(cwd: Path, r: string, a: string, f: string)
    requires Plain(r) && Plain(a) && Plain(f)
    ensures FullPath("/" + r, a + "/" + f) == "/" + r + "/" + a + "/" + f
    ensures Dirname("/" + r + "/" + a + "/" + f) == "/" + r + "/" + a
    ensures Resolve(cwd, "/" + r + "/" + a + "/" + f) == [r, a, f]
  {
    AbsoluteRootDirname(r, a, f);
    AbsoluteRootTokens(r, a, f);
    NormalizePlain([], [r, a, f]);
  }

  lemma AbsoluteRootDirname(r: string, a: string, f: string)
    requires IsName(a) && IsName(f)
    ensures Dirname("/" + r + "/" + a + "/" + f) == "/" + r + "/" + a
  {
    var dir := "/" + r + "/" + a;
    assert dir[|dir| - 1] == a[|a| - 1];
    DirnameOfName(dir, f);
  }

  lemma AbsoluteRootTokens(r: string, a: string, f: string)
    requires IsName(r) && IsName(a) && IsName(f)
    ensures Tokens("/" + r + "/" + a + "/" + f) == [r, a, f]
    ensures Absolute("/" + r + "/" + a + "/" + f)
  {
    var dir := "/" + r + "/" + a;
    TwoNames(r, a);
    TokensOfName(f);
    TokensAppend(dir, f);
  }

  /** As written: the server runs outside / and /r with the existing root
      /r, and a/f is written while /r/a is missing. mkdir_p("/r/a") makes
      r and r/a below the working directory and returns 0, the open with
      O_CREAT of /r/a/f then fails, and the client gets 500 alone; the two
      stray directories stay. */
  lemma AbsoluteRootWrite(d: Disk, r: string, a: string, f: string, req: Request, o: Oracle)
    requires Plain(r) && Plain(a) && Plain(f)
    requires d.denied == {} && [r] in d.dirs && d.cwd in d.dirs && d.cwd != [] && d.cwd != [r]
    requires !d.Exists(d.cwd + [r]) && !d.Exists(d.cwd + [r, a]) && !d.Exists([r, a]) && !d.Exists([r, a, f])
    ensures WriteOf(d, "/" + r, a + "/" + f, req, o)
      == Outcome([Status(SERVERERROR)], d.(dirs := d.dirs + {d.cwd + [r], d.cwd + [r, a]}), [], false, false)
  {
    var full := "/" + r + "/" + a + "/" + f;
    AbsoluteRootPaths(d.cwd, r, a, f);
    AbsolutePathLosesRoot(r, a);
    LookupsOfTwoNames(d, r, a);
    AsWrittenWalksCwd(d, r, a);
    var d1 := d.(dirs := d.dirs + {d.cwd + [r], d.cwd + [r, a]});
    assert AsWritten(d, Some("/" + r + "/" + a)) == (0, d1);
    assert d1.Lookup(full) == [r, a, f] && Parent([r, a, f]) == [r, a];
    assert [r, a] != d.cwd + [r] && [r, a] != d.cwd + [r, a];
    assert !d1.CanCreate(full);
  }

  /** Corrected: the same write makes /r/a, creates /r/a/f and stores the
      payload. */
  lemma AbsoluteRootWriteRooted(d: Disk, r: string, a: string, f: string, req: Request, o: Oracle)
    requires Plain(r) && Plain(a) && Plain(f)
    requires d.denied == {} && [r] in d.dirs
    requires !d.Exists([r, a]) && !d.Exists([r, a, f])
    requires o.lockOk && o.truncOk && req.size >= 0
    ensures WriteRootedOf(d, "/" + r, a + "/" + f, req, o)
      == Outcome([Status(CREATED), GotLen(req.size), GotBytes(Received(req))],
                 d.(dirs := d.dirs + {[r, a]}, files := d.files[[r, a, f] := UpTo(Received(req), 0 as byte)]),
                 [Exclusive], false, false)
  {
    var full := "/" + r + "/" + a + "/" + f;
    AbsoluteRootPaths(d.cwd, r, a, f);
    RootedMakesSubdir(d, r, a);
    var d1 := d.(dirs := d.dirs + {[r, a]});
    assert d1.Lookup(full) == [r, a, f] && Parent([r, a, f]) == [r, a];
    CreatesAfterMkdir(d1, full, req, o);
  }

  /** The corrected mkdir_p("/r/a") below an existing /r makes /r/a. */
  lemma RootedMakesSubdir(d: Disk, r: string, a: string)
    requires Plain(r) && Plain(a)
    requires d.denied == {} && [r] in d.dirs && !d.Exists([r, a])
    ensures Rooted(d, Some("/" + r + "/" + a)) == (0, d.(dirs := d.dirs + {[r, a]}))
  {
    AbsolutePathLosesRoot(r, a);
    LookupsOfTwoNames(d, r, a);
    var ps := ["/" + r, "/" + r + "/" + a];
    assert [r, a][..1] == [r];
    assert Walk(d, ps) == Walk(d, ps[1..]);
    assert ps[1..][1..] == [];
  }

  /* ---------------------------------------------------------------------
     Paths are not confined to the root
     --------------------------------------------------------------------- */

  lemma DotDotTokens(root: string, n: string)
    requires IsName(root) && IsName(n)
    ensures Tokens(FullPath(root, "../" + n)) == [root, "..", n]
    ensures !Absolute(FullPath(root, "../" + n))
  {
    var up := "..";
    assert IsName(up);
    TokensOfName(root);
    TokensOfName(up);
    TokensOfName(n);
    TokensAppend(up, n);
    TokensAppend(root, up + "/" + n);
    assert FullPath(root, "../" + n) == root + "/" + (up + "/" + n);
  }

  /** The client's path is appended to the root unchecked, so "../n"
      names n beside the root directory, not inside it. */
  lemma DotDotLeavesRoot(d: Disk, root: string, n: string)
    requires Plain(root) && Plain(n)
    ensures d.Lookup(FullPath(root, "../" + n)) == d.cwd + [n]
  {
    DotDotTokens(root, n);
    var ts := [root, "..", n];
    assert ts[0] == root && ts[1..] == ["..", n];
    assert ["..", n][0] == ".." && ["..", n][1..] == [n];
    assert (d.cwd + [root])[..|d.cwd|] == d.cwd;
    NormalizePlain(d.cwd, [n]);
    assert Normalize(d.cwd + [root], ["..", n]) == Normalize(d.cwd, [n]);
    assert Normalize(d.cwd, ts) == Normalize(d.cwd + [root], ["..", n]);
  }

  /** So a read of "../n" sends whatever file n beside the root holds. */
  lemma ReadOutsideRoot(d: Disk, root: string, n: string, o: Oracle)
    requires Plain(root) && Plain(n)
    requires d.cwd + [n] in d.files && d.cwd + [n] !in d.denied
    requires o.lockOk && o.statOk
    requires |d.files[d.cwd + [n]]| < Net.TWO31 && o.sendRoom >= |d.files[d.cwd + [n]]|
    ensures var c := d.files[d.cwd + [n]];
      ReadOf(d, root, "../" + n, o).events == [Status(OK), Len(|c|), Bytes(c)]
  {
    DotDotLeavesRoot(d, root, n);
    ReadSendsFile(d, root, "../" + n, o);
  }

  /* ---------------------------------------------------------------------
     A worked session
     --------------------------------------------------------------------- */

  /** The components of a/b/c and of a/b/c/n, for names a, b, c, n. */
  lemma ThreeNames(a: string, b: string, c: string, n: string)
    requires IsName(a) && IsName(b) && IsName(c) && IsName(n)
    ensures Tokens(a + "/" + b + "/" + c) == [a, b, c]
    ensures Tokens(a + "/" + b + "/" + c + "/" + n) == [a, b, c, n]
    ensures !Absolute(a + "/" + b + "/" + c)
  {
    TokensOfName(a);
    TokensOfName(b);
    TokensOfName(c);
    TokensOfName(n);
    TokensAppend(a, b);
    TokensAppend(a + "/" + b, c);
    TokensAppend(a + "/" + b + "/" + c, n);
    assert (a + "/" + b + "/" + c)[0] == a[0];
  }

  /** A missing file whose directory mkdir_p makes (or finds) is created, and then holds the payload up to its first NUL. */
  lemma WriteAfterMkdir(d: Disk, root: string, path: string, req: Request, o: Oracle, d1: Disk)
    requires var full := FullPath(root, path);
      !d.CanOpen(full) && AsWritten(d, Some(Dirname(full))) == (0, d1) && d1.CanMakeFile(full)
    requires o.lockOk && o.truncOk && req.size >= 0
    ensures var full := FullPath(root, path);
      WriteOf(d, root, path, req, o)
      == Outcome([Status(CREATED), GotLen(req.size), GotBytes(Received(req))],
                 d1.(files := d1.files[d1.Lookup(full) := UpTo(Received(req), 0 as byte)]),
                 [Exclusive], false, false)
  {
    CreatesAfterMkdir(d1, FullPath(root, path), req, o);
  }

  /** Once the directory is there, the missing file is made, truncated and
      filled. */
  lemma CreatesAfterMkdir(d1: Disk, full: string, req: Request, o: Oracle)
    requires d1.CanMakeFile(full) && o.lockOk && o.truncOk && req.size >= 0
    ensures AfterMkdir((0, d1), full, req, o)
      == Outcome([Status(CREATED), GotLen(req.size), GotBytes(Received(req))],
                 d1.(files := d1.files[d1.Lookup(full) := UpTo(Received(req), 0 as byte)]),
                 [Exclusive], false, false)
  {
    var q := d1.Lookup(full);
    var c := UpTo(Received(req), 0 as byte);
    assert !d1.CanOpen(full);
    var d2 := d1.Created(full);
    assert d2 == d1.(files := d1.files[q := []]);
    var d3 := d2.Stored(full, []);
    assert d3 == d1.(files := d1.files[q := []]) && d3.CanOpen(full);
    assert d3.Stored(full, []).Stored(full, c) == d1.(files := d1.files[q := c]) by {
      assert d1.files[q := []][q := []][q := c] == d1.files[q := c];
    }
  }

  /** mkdir_p of a/b/c, a being a directory of the working directory and
      a/b, a/b/c missing, makes a/b and then a/b/c. The path is relative, so
      the source's loop and the corrected one agree. */
  lemma NestedMkdir(d: Disk, a: string, b: string, c: string)
    requires Plain(a) && Plain(b) && Plain(c)
    requires d.cwd + [a] in d.dirs && d.denied == {}
    requires !d.Exists(d.cwd + [a, b]) && !d.Exists(d.cwd + [a, b, c])
    ensures AsWritten(d, Some(a + "/" + b + "/" + c)) == (0, d.(dirs := d.dirs + {d.cwd + [a, b], d.cwd + [a, b, c]}))
    ensures Rooted(d, Some(a + "/" + b + "/" + c)) == AsWritten(d, Some(a + "/" + b + "/" + c))
  {
    var dir := a + "/" + b + "/" + c;
    var ps := PrefixesAsWritten(dir);
    NestedLookups(d, a, b, c);
    assert !d.Access(dir);
    WalkAt(d, ps, 0);
    assert ps[0..] == ps && ps[1..] == [ps[1], ps[2]];
    assert Parent(d.cwd + [a, b]) == d.cwd + [a];
    assert Parent(d.cwd + [a, b, c]) == d.cwd + [a, b];
    assert d.WithDir(ps[1]).Lookup(ps[2]) == d.cwd + [a, b, c];
    WalkTwo(d, ps[1], ps[2]);
    ThreeNames(a, b, c, c);
    RelativePathsAgree(d, Some(dir));
  }

  /** What the three prefixes of a/b/c name. */
  lemma NestedLookups(d: Disk, a: string, b: string, c: string)
    requires Plain(a) && Plain(b) && Plain(c)
    ensures var ps := PrefixesAsWritten(a + "/" + b + "/" + c);
      && |ps| == 3 && d.Lookup(ps[0]) == d.cwd + [a] && d.Lookup(ps[1]) == d.cwd + [a, b]
      && d.Lookup(ps[2]) == d.cwd + [a, b, c] && d.Lookup(a + "/" + b + "/" + c) == d.cwd + [a, b, c]
  {
    NestedPrefixes(a, b, c);
    NestedNames(d.cwd, a, b, c);
  }

  /** The loop visits a, a/b, a/b/c. */
  lemma NestedPrefixes(a: string, b: string, c: string)
    requires IsName(a) && IsName(b) && IsName(c)
    ensures PrefixesAsWritten(a + "/" + b + "/" + c) == [a, a + "/" + b, a + "/" + b + "/" + c]
  {
    var dir := a + "/" + b + "/" + c;
    ThreeNames(a, b, c, c);
    ThreePrefixes("", a, b, c);
    assert "" + a == a && "" + (a + "/" + b) == a + "/" + b && "" + dir == dir;
  }

  /** a, a/b and a/b/c name the entries below the working directory. */
  lemma NestedNames(cwd: Path, a: string, b: string, c: string)
    requires Plain(a) && Plain(b) && Plain(c)
    ensures Resolve(cwd, a) == cwd + [a] && Resolve(cwd, a + "/" + b) == cwd + [a, b]
    ensures Resolve(cwd, a + "/" + b + "/" + c) == cwd + [a, b, c]
  {
    ThreeNames(a, b, c, c);
    TwoNames(a, b);
    NormalizePlain(cwd, [a]);
    NormalizePlain(cwd, [a, b]);
    NormalizePlain(cwd, [a, b, c]);
  }

  /** The path the handler builds for b/c/n under root a, its directory,
      and the entry it names. */
  lemma NestedPaths(cwd: Path, a: string, b: string, c: string, n: string)
    requires Plain(a) && Plain(b) && Plain(c) && Plain(n)
    requires '\0' !in b + "/" + c + "/" + n
    requires |b + "/" + c + "/" + n| <= BUFSIZE
    ensures var field := b + "/" + c + "/" + n;
      && field[..Min(|field|, BUFSIZE)] == field && PathOf(field) == field
      && Dirname(FullPath(a, field)) == a + "/" + b + "/" + c
      && Resolve(cwd, FullPath(a, field)) == cwd + [a, b, c, n]
  {
    var field := b + "/" + c + "/" + n;
    UpToAbsent(field, '\0');
    FullPathSplits(a, b, c, n);
    NestedFullPath(cwd, a, b, c, n);
  }

  /** The directory and the entry a/b/c/n names. */
  lemma NestedFullPath(cwd: Path, a: string, b: string, c: string, n: string)
    requires Plain(a) && Plain(b) && Plain(c) && Plain(n)
    ensures Dirname(a + "/" + b + "/" + c + "/" + n) == a + "/" + b + "/" + c
    ensures Resolve(cwd, a + "/" + b + "/" + c + "/" + n) == cwd + [a, b, c, n]
  {
    ThreeNames(a, b, c, n);
    DirnameOfName(a + "/" + b + "/" + c, n);
    NormalizePlain(cwd, [a, b, c, n]);
  }

  lemma FullPathSplits(a: string, b: string, c: string, n: string)
    ensures FullPath(a, b + "/" + c + "/" + n) == a + "/" + b + "/" + c + "/" + n
  {
  }

  /** The write handler on b/c/n under root a, when a is an existing
      directory of the working directory and b, b/c, b/c/n are missing: the
      mkdir_p makes a/b, then a/b/c, and the file is created,
      locked, truncated and filled with the payload. */
  lemma NestedWriteOf(d: Disk, a: string, b: string, c: string, n: string, req: Request, o: Oracle)
    requires Plain(a) && Plain(b) && Plain(c) && Plain(n)
    requires '\0' !in b + "/" + c + "/" + n
    requires |b + "/" + c + "/" + n| <= BUFSIZE
    requires d.cwd + [a] in d.dirs && d.denied == {}
    requires !d.Exists(d.cwd + [a, b]) && !d.Exists(d.cwd + [a, b, c]) && !d.Exists(d.cwd + [a, b, c, n])
    requires o.lockOk && o.truncOk && req.size >= 0
    ensures var d2 := d.(dirs := d.dirs + {d.cwd + [a, b], d.cwd + [a, b, c]});
      WriteOf(d, a, b + "/" + c + "/" + n, req, o)
      == Outcome([Status(CREATED), GotLen(req.size), GotBytes(Received(req))],
                 d2.(files := d.files[d.cwd + [a, b, c, n] := UpTo(Received(req), 0 as byte)]),
                 [Exclusive], false, false)
  {
    var field := b + "/" + c + "/" + n;
    var full := FullPath(a, field);
    NestedPaths(d.cwd, a, b, c, n);
    NestedMkdir(d, a, b, c);
    var d2 := d.(dirs := d.dirs + {d.cwd + [a, b], d.cwd + [a, b, c]});
    var q := d.cwd + [a, b, c, n];
    assert Parent(q) == d.cwd + [a, b, c] by {
      assert q[..|q| - 1] == d.cwd + [a, b, c];
    }
    assert q != d.cwd + [a, b] && q != d.cwd + [a, b, c];
    assert full[|full| - 1] == n[|n| - 1];
    MissingFileTarget(d, d2, full, q);
    WriteAfterMkdir(d, a, field, req, o, d2);
  }

  /** A file missing on the disk before the walk, whose directory the walk
      made, can be created afterwards. */
  lemma MissingFileTarget(d: Disk, d2: Disk, full: string, q: Path)
    requires full != "" && !DirSuffix(full) && d.Lookup(full) == q && q != []
    requires d2.cwd == d.cwd && d2.files == d.files && d2.denied == {} && d.denied == {}
    requires q !in d.files && q !in d2.dirs && Parent(q) in d2.dirs
    ensures !d.CanOpen(full) && d2.CanMakeFile(full) && d2.Lookup(full) == q
  {
  }

  /** The whole connection for such a write of NUL-free data with its exact
      length: the acknowledgements, CREATED, the payload, the socket closed. */
  lemma WriteMakesNestedPath(d: Disk, a: string, b: string, c: string, n: string, data: seq<byte>, o: Oracle)
    requires Plain(a) && Plain(b) && Plain(c) && Plain(n)
    requires '\0' !in b + "/" + c + "/" + n
    requires |b + "/" + c + "/" + n| <= BUFSIZE
    requires d.cwd + [a] in d.dirs && d.denied == {}
    requires !d.Exists(d.cwd + [a, b]) && !d.Exists(d.cwd + [a, b, c]) && !d.Exists(d.cwd + [a, b, c, n])
    requires o.lockOk && o.truncOk
    requires 0 as byte !in data && |data| < Net.TWO31
    ensures var field := b + "/" + c + "/" + n;
      var w := ServeOf(d, a, Request(WRITE, field, |data|, data), o);
      && w.events == [GotOp(WRITE), Status(OK), GotPath(field), Status(CREATED), GotLen(|data|), GotBytes(data)]
      && w.disk == d.(dirs := d.dirs + {d.cwd + [a, b], d.cwd + [a, b, c]}, files := d.files[d.cwd + [a, b, c, n] := data])
      && w.locks == [Exclusive] && w.closed
  {
    var field := b + "/" + c + "/" + n;
    var wreq := Request(WRITE, field, |data|, data);
    NestedPaths(d.cwd, a, b, c, n);
    NestedWriteOf(d, a, b, c, n, wreq, o);
    var d2 := d.(dirs := d.dirs + {d.cwd + [a, b], d.cwd + [a, b, c]});
    ServeCreated(d, a, wreq, o, d2.(files := d.files[d.cwd + [a, b, c, n] := UpTo(Received(wreq), 0 as byte)]));
    assert Received(wreq) == data;
    UpToAbsent(data, 0 as byte);
  }

  /** A write request whose field is a whole NUL-free path, and whose
      handler creates the file, is answered OK, CREATED and the payload,
      and the socket is closed. */
  lemma ServeCreated(d: Disk, root: string, req: Request, o: Oracle, d2: Disk)
    requires req.op == WRITE && '\0' !in req.field && |req.field| <= BUFSIZE && req.size >= 0
    requires WriteOf(d, root, req.field, req, o)
      == Outcome([Status(CREATED), GotLen(req.size), GotBytes(Received(req))], d2, [Exclusive], false, false)
    ensures var w := ServeOf(d, root, req, o);
      && w.events == [GotOp(WRITE), Status(OK), GotPath(req.field), Status(CREATED), GotLen(req.size), GotBytes(Received(req))]
      && w.disk == d2 && w.locks == [Exclusive] && w.closed
  {
    assert req.field[..Min(|req.field|, BUFSIZE)] == req.field;
    UpToAbsent(req.field, '\0');
  }

  /** ... after which a read of b/c/n that can take the lock, stat the file
      and send it in one go gets the data back. */
  lemma NestedSession(d: Disk, a: string, b: string, c: string, n: string, data: seq<byte>, o: Oracle, or: Oracle)
    requires Plain(a) && Plain(b) && Plain(c) && Plain(n)
    requires '\0' !in b + "/" + c + "/" + n
    requires |b + "/" + c + "/" + n| <= BUFSIZE
    requires d.cwd + [a] in d.dirs && d.denied == {}
    requires !d.Exists(d.cwd + [a, b]) && !d.Exists(d.cwd + [a, b, c]) && !d.Exists(d.cwd + [a, b, c, n])
    requires o.lockOk && o.truncOk
    requires 0 as byte !in data && |data| < Net.TWO31
    requires or.lockOk && or.statOk && or.sendRoom >= |data|
    ensures var field := b + "/" + c + "/" + n;
      var w := ServeOf(d, a, Request(WRITE, field, |data|, data), o);
      ServeOf(w.disk, a, Request(READ, field, 0, []), or).events
      == [GotOp(READ), Status(OK), GotPath(field), Status(OK), Len(|data|), Bytes(data)]
  {
    var field := b + "/" + c + "/" + n;
    WriteMakesNestedPath(d, a, b, c, n, data, o);
    var w := ServeOf(d, a, Request(WRITE, field, |data|, data), o);
    NestedPaths(d.cwd, a, b, c, n);
    assert w.disk.Lookup(FullPath(a, field)) == d.cwd + [a, b, c, n];
    ReadServed(w.disk, a, field, data, Request(READ, field, 0, []), or);
  }

  const SrvDisk := Disk(["srv"], {}, {[], ["srv"], ["srv", "ft"]}, map[])
  const FtRoot := "ft"
  const HelloPath := "dir1/dir2/file.txt"
  const Hello: seq<byte> := [104, 101, 108, 108, 111]
  const AllOk := Oracle(true, true, true, 0, 5, [], true)

  /** The server in /srv with an empty root directory "ft": a write of the
      five bytes "hello" to dir1/dir2/file.txt answers CREATED and makes
      both directories and the file. */
  lemma HelloWrite()
    ensures var w := ServeOf(SrvDisk, FtRoot, Request(WRITE, HelloPath, |Hello|, Hello), AllOk);
      && w.events == [GotOp(WRITE), Status(OK), GotPath(HelloPath), Status(CREATED), GotLen(|Hello|), GotBytes(Hello)]
      && w.disk.dirs == SrvDisk.dirs + {["srv", "ft", "dir1"], ["srv", "ft", "dir1", "dir2"]}
      && w.disk.files == map[["srv", "ft", "dir1", "dir2", "file.txt"] := Hello]
  {
    HelloNames();
    WriteMakesNestedPath(SrvDisk, FtRoot, "dir1", "dir2", "file.txt", Hello, AllOk);
  }

  /** ... and a read of the same path then answers OK, 5 and the bytes. */
  lemma HelloSession()
    ensures var w := ServeOf(SrvDisk, FtRoot, Request(WRITE, HelloPath, |Hello|, Hello), AllOk);
      ServeOf(w.disk, FtRoot, Request(READ, HelloPath, 0, []), AllOk).events
      == [GotOp(READ), Status(OK), GotPath(HelloPath), Status(OK), Len(|Hello|), Bytes(Hello)]
  {
    HelloNames();
    NestedSession(SrvDisk, FtRoot, "dir1", "dir2", "file.txt", Hello, AllOk, AllOk);
  }

  /** The instance's paths, component by component. */
  lemma HelloNames()
    ensures HelloPath == "dir1" + "/" + "dir2" + "/" + "file.txt"
    ensures SrvDisk.cwd + [FtRoot] == ["srv", "ft"]
    ensures SrvDisk.cwd + [FtRoot, "dir1"] == ["srv", "ft", "dir1"]
    ensures SrvDisk.cwd + [FtRoot, "dir1", "dir2"] == ["srv", "ft", "dir1", "dir2"]
    ensures SrvDisk.cwd + [FtRoot, "dir1", "dir2", "file.txt"] == ["srv", "ft", "dir1", "dir2", "file.txt"]
  {
  }
}
