/**
  The per-connection protocol: one op byte, an acknowledgement, the path
  field, then one handler, all on paths made by gluing the client's path to
  the server's root directory with a '/'.

  Each handler is a method of `Connection`, which keeps what a connection
  thread changes as it goes: the wire trace, the file descriptor it holds
  and the flock on it, and whether the socket is closed (or the process has
  exited). Each method is tied to a function of the file system before the
  call, which the lemmas in ServerProps reason about.

  The receives are taken from a `Request`, one field per recv the source
  makes; the outcomes of flock, stat, ftruncate, sendfile, readdir and
  closedir come from an `Oracle`.
*/
module Server {
  import opened Base
  import opened Posix
  import opened Defs
  import opened Fs
  import opened Dirs
  import opened Ls
  import opened Wire
  import Net

  type int32 = x: int | -Net.TWO31 <= x < Net.TWO31

  /** What the client's data gives each of the source's receives. */
  datatype Request = Request(
    op: char,            // the op byte
    field: string,       // what the one recv into the BUFSIZE path buffer delivers
    size: int32,         // the length int the write handler receives
    payload: seq<byte>)  // what the one recv of the write payload could deliver

  /** Outcomes the file system does not decide. */
  datatype Oracle = Oracle(
    lockOk: bool,          // flock succeeds
    statOk: bool,          // stat after the open succeeds
    truncOk: bool,         // ftruncate(fd, 0) succeeds
    dirSize: nat,          // st_size stat gives for a directory
    sendRoom: nat,         // how many bytes the one sendfile call gets out
    entries: seq<Entry>,   // what readdir yields for the listed directory
    closedirOk: bool)      // closedir succeeds

  datatype Lock = Shared | Exclusive

  /** What one handler, or a whole connection, leaves behind. */
  datatype Outcome = Outcome(
    events: seq<Event>,
    disk: Disk,
    locks: seq<Lock>,   // the flocks taken, in order
    closed: bool,       // close(client_sd) was reached
    exited: bool)       // the process ended

  /** The sprintf "%s/%s" of the root and the client's path. */
  function FullPath(root: string, path: string): string
  {
    root + "/" + path
  }

  /** The path the handlers get: the received field up to its NUL. */
  function PathOf(field: string): CString
  {
    UpTo(field, '\0')
  }

  /** (size_t) of an int. */
  function SizeT(n: int32): nat
  {
    if n >= 0 then n else n + 0x1_0000_0000_0000_0000
  }

  /* ---------------------------------------------------------------------
     What each handler does, as functions of the file system
     --------------------------------------------------------------------- */

  /** handle_read. open(O_RDONLY) succeeds on any entry access(R_OK)
      accepts, directories included; sendfile from a directory sends
      nothing. */
  function ReadOf(d: Disk, root: string, path: string, o: Oracle): Outcome
  {
    var full := FullPath(root, path);
    if !d.Access(full) then Outcome([Status(NOTFOUND)], d, [], false, false)
    else if !o.lockOk then Outcome([Status(LOCKERR)], d, [], false, false)
    else if !o.statOk then Outcome([Status(OK), Status(STATERR)], d, [Shared], false, false)
    else
      var file := d.CanOpen(full);
      var size := if file then |d.Contents(full)| else o.dirSize;
      var n := Net.Int32(size);
      var sent := if file then d.Contents(full)[..Min(Min(SizeT(n), size), o.sendRoom)] else [];
      Outcome([Status(OK), Len(n), Bytes(sent)], d, [Shared], false, false)
  }

  /** What the write handler's single payload recv delivers. */
  function Received(req: Request): seq<byte>
    requires req.size >= 0
  {
    req.payload[..Min(req.size, |req.payload|)]
  }

  /** The tail of handle_write once a status is out: the length, the
      truncating fopen, the one payload recv, the fputs. A negative length
      is taken to end the process: below -1 the allocation of size + 1
      bytes fails and memcheck exits; at -1 malloc(0) returns a block and
      the recv into it is undefined, for which the model picks the same
      exit. */
  function ReceiveOf(d: Disk, full: string, req: Request, sent: seq<Event>, locks: seq<Lock>): Outcome
    requires d.CanOpen(full)
  {
    var d1 := d.Stored(full, []);
    if req.size < 0 then Outcome(sent + [GotLen(req.size)], d1, locks, false, true)
    else
      var got := Received(req);
      Outcome(sent + [GotLen(req.size), GotBytes(got)], d1.Stored(full, UpTo(got, 0 as byte)), locks, false, false)
  }

  /** handle_write. */
  function WriteOf(d: Disk, root: string, path: string, req: Request, o: Oracle): Outcome
  {
    var full := FullPath(root, path);
    if d.CanOpen(full) then ReceiveOf(d, full, req, [Status(OK)], [])
    else CreateOf(d, full, req, o)
  }

  /** handle_write on a path open(O_WRONLY) refuses: mkdir_p of the parent
      directory, as the source's loop does it, then the file, its lock and
      truncation, then the payload. */
  function CreateOf(d: Disk, full: string, req: Request, o: Oracle): Outcome
  {
    AfterMkdir(AsWritten(d, Some(Dirname(full))), full, req, o)
  }

  /** handle_write with the corrected mkdir_p, which keeps the leading '/'
      of an absolute root. */
  function WriteRootedOf(d: Disk, root: string, path: string, req: Request, o: Oracle): Outcome
  {
    var full := FullPath(root, path);
    if d.CanOpen(full) then ReceiveOf(d, full, req, [Status(OK)], [])
    else CreateRootedOf(d, full, req, o)
  }

  function CreateRootedOf(d: Disk, full: string, req: Request, o: Oracle): Outcome
  {
    AfterMkdir(Rooted(d, Some(Dirname(full))), full, req, o)
  }

  /** The rest of that branch, given what mkdir_p returned and the file
      system it left. */
  function AfterMkdir(m: (int, Disk), full: string, req: Request, o: Oracle): Outcome
  {
    var (made, d1) := m;
    if made != 0 || !d1.CanCreate(full) then Outcome([Status(SERVERERROR)], d1, [], false, false)
    else AfterCreate(d1.Created(full), full, req, o)
  }

  /** Once open(O_CREAT) has succeeded: the exclusive lock, the truncation,
      then the payload. */
  function AfterCreate(d2: Disk, full: string, req: Request, o: Oracle): Outcome
    requires d2.CanOpen(full)
  {
    if !o.lockOk then Outcome([Status(LOCKERR)], d2, [], false, false)
    else if !o.truncOk then Outcome([Status(SERVERERROR)], d2, [Exclusive], false, false)
    else ReceiveOf(d2.Stored(full, []), full, req, [Status(CREATED)], [Exclusive])
  }

  /** handle_ls. */
  function ListOf(d: Disk, root: string, path: string, o: Oracle): Outcome
  {
    var full := FullPath(root, path);
    if !d.Access(full) then Outcome([Status(NOTFOUND)], d, [], false, false)
    else if !d.IsOpenableDir(full) || !o.closedirOk then Outcome([Status(SERVERERROR)], d, [], false, false)
    else
      var text := Listing(o.entries);
      var k := Net.Int32(|text|);
      Outcome([Status(OK), Len(k), Bytes(ToBytes(text)[..Min(SizeT(k), |text|)])], d, [], false, false)
  }

  /** The handler an op selects. */
  function HandlerOf(d: Disk, root: string, op: char, path: string, req: Request, o: Oracle): Outcome
    requires IsOp(op)
  {
    if op == READ then ReadOf(d, root, path, o)
    else if op == WRITE then WriteOf(d, root, path, req, o)
    else ListOf(d, root, path, o)
  }

  /** handle_connection. */
  function ServeOf(d: Disk, root: string, req: Request, o: Oracle): Outcome
  {
    if !IsOp(req.op) then Outcome([GotOp(req.op), Status(BADREQ)], d, [], false, false)
    else
      var field := req.field[..Min(|req.field|, BUFSIZE)];
      var h := HandlerOf(d, root, req.op, PathOf(field), req, o);
      Outcome([GotOp(req.op), Status(OK), GotPath(field)] + h.events, h.disk, h.locks, !h.exited, h.exited)
  }

  /* ---------------------------------------------------------------------
     The connection thread
     --------------------------------------------------------------------- */

  class Connection {
    const root: string
    const fs: FileSystem
    var trace: seq<Event>
    var locks: seq<Lock>
    var fdOpen: bool        // the handler's file descriptor
    var held: Option<Lock>  // the flock on it
    var closed: bool
    var exited: bool

    constructor (root: string, fs: FileSystem)
      ensures this.root == root && this.fs == fs
      ensures trace == [] && locks == [] && !fdOpen && held == None && !closed && !exited
    {
      this.root := root;
      this.fs := fs;
      trace := [];
      locks := [];
      fdOpen := false;
      held := None;
      closed := false;
      exited := false;
    }

    /** notify_status: the status goes out as one int. */
    method NotifyStatus(status: int)
      modifies this`trace
      ensures trace == old(trace) + [Status(status)]
    {
      trace := trace + [Status(status)];
    }

    /** flock(fd, ...) == 0 */
    method Flock(l: Lock)
      modifies this`held, this`locks
      ensures held == Some(l) && locks == old(locks) + [l]
    {
      held := Some(l);
      locks := locks + [l];
    }

    /** close(fd), which also drops the flock. */
    method CloseFd()
      modifies this`fdOpen, this`held
      ensures !fdOpen && held == None
    {
      fdOpen := false;
      held := None;
    }

    method HandleRead(path: string, o: Oracle)
      modifies this`trace, this`locks, this`fdOpen, this`held
      ensures var out := ReadOf(fs.disk, root, path, o);
        trace == old(trace) + out.events && locks == old(locks) + out.locks
      ensures !fdOpen && held == None
    {
      var full := root + "/" + path;
      if !fs.disk.Access(full) {
        NotifyStatus(NOTFOUND);
        CloseFd();
        return;
      }
      fdOpen := true;
      if !o.lockOk {
        NotifyStatus(LOCKERR);
        CloseFd();
        return;
      }
      Flock(Shared);
      NotifyStatus(OK);
      if !o.statOk {
        NotifyStatus(STATERR);
        CloseFd();
        return;
      }
      var file := fs.disk.CanOpen(full);
      var size := if file then |fs.disk.Contents(full)| else o.dirSize;
      var fSize := Net.Int32(size);
      trace := trace + [Len(fSize)];
      // sendfile(client_sd, fd, NULL, f_size): a directory's fd fails with EINVAL
      var count := SizeT(fSize);
      var sent := if file then fs.disk.Contents(full)[..Min(Min(count, size), o.sendRoom)] else [];
      trace := trace + [Bytes(sent)];
      CloseFd();
    }

    /** The part of handle_write after its status. */
    method Receive(full: string, req: Request)
      requires fs.disk.CanOpen(full)
      modifies this`trace, this`exited, fs
      ensures var out := ReceiveOf(old(fs.disk), full, req, [], []);
        trace == old(trace) + out.events && fs.disk == out.disk && exited == (old(exited) || out.exited)
    {
      trace := trace + [GotLen(req.size)];
      fs.Store(full, []);  // fopen(fullpath, "w")
      if req.size < 0 {
        exited := true;
        return;
      }
      var got := req.payload[..Min(req.size, |req.payload|)];
      trace := trace + [GotBytes(got)];
      fs.Store(full, UpTo(got, 0 as byte));  // fputs stops at the first NUL
    }

    method HandleWrite(path: string, req: Request, o: Oracle)
      modifies this`trace, this`locks, this`fdOpen, this`held, this`exited, fs
      ensures var out := WriteOf(old(fs.disk), root, path, req, o);
        && trace == old(trace) + out.events && fs.disk == out.disk
        && locks == old(locks) + out.locks && exited == (old(exited) || out.exited)
      ensures !exited ==> !fdOpen && held == None
    {
      var full := root + "/" + path;
      if fs.disk.CanOpen(full) {
        fdOpen := true;
        NotifyStatus(OK);
        Receive(full, req);
        if !exited {
          CloseFd();
        }
      } else {
        HandleCreate(full, req, o);
      }
    }

    /** The branch of handle_write where open(O_WRONLY) fails. */
    method HandleCreate(full: string, req: Request, o: Oracle)
      modifies this`trace, this`locks, this`fdOpen, this`held, this`exited, fs
      ensures var out := CreateOf(old(fs.disk), full, req, o);
        && trace == old(trace) + out.events && fs.disk == out.disk
        && locks == old(locks) + out.locks && exited == (old(exited) || out.exited)
      ensures !exited ==> !fdOpen && held == None
    {
      var prefix := Dirname(full);
      var made := MkdirP(fs, Some(prefix));
      FinishCreate(made, full, req, o);
    }

    /** handle_write after mkdir_p has returned `made`. */
    method FinishCreate(made: int, full: string, req: Request, o: Oracle)
      modifies this`trace, this`locks, this`fdOpen, this`held, this`exited, fs
      ensures var out := AfterMkdir((made, old(fs.disk)), full, req, o);
        && trace == old(trace) + out.events && fs.disk == out.disk
        && locks == old(locks) + out.locks && exited == (old(exited) || out.exited)
      ensures !exited ==> !fdOpen && held == None
    {
      if made != 0 {
        NotifyStatus(SERVERERROR);
        CloseFd();
        return;
      }
      var created := fs.Create(full);
      if !created {
        NotifyStatus(SERVERERROR);
        CloseFd();
        return;
      }
      FillCreated(full, req, o);
    }

    /** handle_write once the file is open: flock, ftruncate, the payload. */
    method FillCreated(full: string, req: Request, o: Oracle)
      requires fs.disk.CanOpen(full)
      modifies this`trace, this`locks, this`fdOpen, this`held, this`exited, fs
      ensures var out := AfterCreate(old(fs.disk), full, req, o);
        && trace == old(trace) + out.events && fs.disk == out.disk
        && locks == old(locks) + out.locks && exited == (old(exited) || out.exited)
      ensures !exited ==> !fdOpen && held == None
    {
      fdOpen := true;
      if !o.lockOk {
        NotifyStatus(LOCKERR);
        CloseFd();
        return;
      }
      Flock(Exclusive);
      if !o.truncOk {
        NotifyStatus(SERVERERROR);
        CloseFd();
        return;
      }
      fs.Store(full, []);
      NotifyStatus(CREATED);
      Receive(full, req);
      if !exited {
        CloseFd();
      }
    }

    method HandleLs(path: string, o: Oracle)
      modifies this`trace
      ensures trace == old(trace) + ListOf(fs.disk, root, path, o).events
    {
      var full := root + "/" + path;
      if !fs.disk.Access(full) {
        NotifyStatus(NOTFOUND);
        return;
      }
      var dir := if fs.disk.IsOpenableDir(full) then Some(o.entries) else None;
      var r, buffer := LsLa(dir, o.closedirOk);
      if r < 0 {
        NotifyStatus(SERVERERROR);
        return;
      }
      NotifyStatus(OK);
      var text := if buffer == None then "" else buffer.value;
      var bufSiz := Net.Int32(|text|);
      trace := trace + [Len(bufSiz)];
      trace := trace + [Bytes(ToBytes(text)[..Min(SizeT(bufSiz), |text|)])];
    }

    /** The three tests on op in handle_connection; at most one holds. */
    method Dispatch(op: char, path: string, req: Request, o: Oracle)
      requires IsOp(op)
      modifies this`trace, this`locks, this`fdOpen, this`held, this`exited, fs
      ensures var h := HandlerOf(old(fs.disk), root, op, path, req, o);
        && trace == old(trace) + h.events && fs.disk == h.disk
        && locks == old(locks) + h.locks && exited == (old(exited) || h.exited)
    {
      if op == READ {
        HandleRead(path, o);
      } else if op == WRITE {
        HandleWrite(path, req, o);
      } else {
        HandleLs(path, o);
      }
    }

    method HandleConnection(req: Request, o: Oracle)
      requires !exited
      modifies this`trace, this`locks, this`fdOpen, this`held, this`exited, this`closed, fs
      // the two cases of ServeOf, spelled out
      ensures !IsOp(req.op) ==> (trace == old(trace) + [GotOp(req.op), Status(BADREQ)] && fs.disk == old(fs.disk)
        && locks == old(locks) && closed == old(closed) && exited == old(exited))
      ensures IsOp(req.op) ==> var field := req.field[..Min(|req.field|, BUFSIZE)];
        var h := HandlerOf(old(fs.disk), root, req.op, PathOf(field), req, o);
        && trace == old(trace) + [GotOp(req.op), Status(OK), GotPath(field)] + h.events && fs.disk == h.disk
        && locks == old(locks) + h.locks && closed == (old(closed) || !h.exited)
        && exited == (old(exited) || h.exited)
    {
      trace := trace + [GotOp(req.op)];
      if req.op != READ && req.op != WRITE && req.op != LIST {
        NotifyStatus(BADREQ);
        return;
      }
      Accept(req, o);
    }

    /** handle_connection once the op is known. */
    method Accept(req: Request, o: Oracle)
      requires !exited && IsOp(req.op)
      modifies this`trace, this`locks, this`fdOpen, this`held, this`exited, this`closed, fs
      ensures var field := req.field[..Min(|req.field|, BUFSIZE)];
        var h := HandlerOf(old(fs.disk), root, req.op, PathOf(field), req, o);
        && trace == old(trace) + [Status(OK), GotPath(field)] + h.events && fs.disk == h.disk
        && locks == old(locks) + h.locks && closed == (old(closed) || !h.exited)
        && exited == h.exited
    {
      NotifyStatus(OK);
      var field := req.field[..Min(|req.field|, BUFSIZE)];
      trace := trace + [GotPath(field)];
      var path := PathOf(field);
      ghost var pre := trace;
      assert pre == old(trace) + [Status(OK), GotPath(field)];
      Dispatch(req.op, path, req, o);
      if !exited {
        closed := true;
      }
    }
  }
}
