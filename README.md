# myFileTransferApp server: a Dafny model

This is a model of the server side of a small TCP file-transfer application:

- **`handle_connection`** reads one operation byte from the client.
  - An op other than `r`, `w` or `l` gets status 400 (BADREQ), and the thread ends.
  - A known op gets 200 (OK), a single `recv` of a 1024-byte path field, and then one handler.
- **The handlers** act on the path made by gluing the client's path behind the server's root directory with a `/`:
  - `handle_read` sends a file;
  - `handle_write` creates the missing directories and the file, then stores the client's payload;
  - `handle_ls` sends an `ls -la`-style listing.
- **Statuses, lengths and listings** go out through the helpers `xwrite_all`/`xwrite`; a file being read goes out through one `sendfile`. What the client sends comes in through `xrecv`. All three helpers retry calls that a signal interrupts.
- **`get_or_create_ft_root_directory`** opens the root directory, or creates it.

What the modules hold:

- **Base, Posix, Wire.** Shared vocabulary:
  - bytes and C strings;
  - `strlen`/`strtok`-style scanning;
  - `dirname(3)`;
  - the resolution of a path string, relative to the working directory, to the components it names;
  - the events of a connection's trace.
- **Defs.** The constants of `utils.h` and the `PERM`/`PERMS` macros, which show mode bits as `rwxrwxrwx`.
- **Fs.** The file system as the system calls see it: directories, regular files with their contents, and the paths the process is refused. It has a `FileSystem` class that the system calls change in place.
- **Dirs.** `mkdir_p`.
  - `MkdirP` is the loop as written.
  - `MkdirPRooted` is the same loop keeping the leading `/` (see Findings). The write handler uses `MkdirP`, as the source does; `Server.WriteRootedOf` is the handler with the corrected loop.
  - Both are imperative `strtok` loops, proved against the functions `AsWritten`/`Rooted`, which walk the list of prefixes.
- **Ls.** `ls_la`: the readdir loop that builds the listing buffer, proved against `Listing`, including the number formatting and column layout of each line.
- **Net.** `xrecv`, `xwrite` and `xwrite_all`.
  - They are modelled as retry loops in a `Socket` class over a scripted channel.
  - Each loop is proved against a recursive function.
  - The 4-byte encoding of an `int` is included.
- **Server.**
  - The handlers and `handle_connection` are methods of a `Connection` class. That class records the wire trace, the flock held, and whether the socket was closed or the process exited.
  - Each method is proved equal to a function of the file system (`ReadOf`, `WriteOf`, `ListOf`, `ServeOf`).
- **ServerProps.** The protocol's promises, proved about those functions:
  - status sequences per branch;
  - framing (a payload only after OK/CREATED and a length);
  - what a write changes on disk;
  - idempotence of a repeated write;
  - write-then-read round trips;
  - that `..` leaves the root.
- **Root.** `get_or_create_ft_root_directory`, as written and as intended.

Where the code and its description disagree, the model follows the code:

- a bad op gets BADREQ, but the socket is not closed (the thread returns before `close`);
- the payload is taken by a single `recv`, and `fputs` stores it only up to the first NUL byte;
- writing an existing file takes no lock;
- `ls_la` lists `.` and `..` like any other entry.

`utils.h` documents `ls_la` as returning 1 on failure, but the code returns -1. Also, `mkdir_p` runs `strtok` on `path` itself and not on the copy it makes.

## Model

| member | source | states |
|---|---|---|
| Defs.Perm | utils.h:54-55 | PERM of a 3-bit group: r, w, x for the bits 4, 2, 1, '-' for each clear bit; its properties are stated by the Defs lemmas below |
| Defs.Perms | utils.h:57 | PERMS: the owner, group and other triples in that order; characterised by Defs.PermsAt and Defs.ParsePermsOfPerms |
| Defs.CodesDistinct | utils.h:9-25 | the three op codes are pairwise distinct and the seven status codes are seven different values |
| Defs.PermsAt | utils.h:54-57 | PERMS(b) has nine characters; position i shows r, w or x (by i mod 3) when mode bit 0400>>i is set and '-' when it is clear |
| Defs.PermsDisplay | utils.h:54-57 | PERMS(b) is, character by character, the tests of bits 0400 down to 01 |
| Defs.PermsMasked | utils.h:54-57 | only the nine permission bits show: b and b & 0777 render the same |
| Defs.PermsExample | utils.h:40-53 | the header's worked example: mode 0765 renders as "rwxrw-r-x" |
| Defs.ParsePerms | utils.h:54-57 | the reference inverse of PERMS sets no bit outside 0777 |
| Defs.ParsePermsOfPerms | utils.h:54-57 | PERMS(b) is always a well-formed permission string, and parsing it back gives exactly b & 0777 |
| Defs.ParsePermsBit | utils.h:54-57 | a parsed string has bit 0400>>i set exactly when position i is not '-' |
| Defs.PermsOfParsePerms | utils.h:54-57 | every well-formed permission string is PERMS of its parsed bits, so PERMS loses nothing within 0777 |
| Posix.UpTo | myFTserver.c:230-233 | the part before the first terminator is a prefix without the terminator, and the terminator follows it when it is shorter (strlen, fputs) |
| Posix.UpToAbsent | myFTserver.c:230-233 | without a NUL the whole data is kept |
| Posix.Tokens | utils.c:50-63 | every component strtok yields is non-empty and free of '/' |
| Posix.StrTok | utils.c:51 | one strtok(_, "/") step returns NULL exactly when no component is left, else the first component, and the rest, shorter, holds the remaining components |
| Posix.TokensAppend | utils.c:51 | a '/' splits the components: a + "/" + b yields the components of a then those of b |
| Posix.TokensJoin | utils.c:52-56 | splitting the prefix glued by sprintf gives back the components glued |
| Posix.JoinHead | utils.c:52-56 | a glued prefix is non-empty and never starts with '/' |
| Posix.TrimSlashesSpec | myFTserver.c:189 | dirname's trimming removes exactly the trailing separators |
| Posix.LastSlashSpec | myFTserver.c:189 | the separator dirname cuts at is the last one, or there is none |
| Posix.Dirname | myFTserver.c:189 | dirname(3): the path without its last component and the separators around it, "." or "/" when nothing is left; characterised by the three lemmas around it |
| Posix.DirnameRelative | myFTserver.c:180-189 | dirname of a relative path is relative |
| Posix.DirnameOfName | myFTserver.c:189 | dirname(a + "/" + n), for a name n, is a |
| Fs.Disk.Created | myFTserver.c:193 | after open(O_CREAT) succeeds the file opens, its name does not end in '/', and directories, working directory and refusals are unchanged |
| Fs.DirSuffixRefused | myFTserver.c:193 | a string ending in '/' cannot be opened or created as a regular file (ENOTDIR, EISDIR), and access succeeds on it exactly when it is an openable directory |
| Fs.BelowFileMissing | myFTserver.c:127 | nothing exists below a regular file, so a lookup through one fails |
| Fs.WithDirValid | utils.c:58 | mkdir keeps the file system a tree and does not change whether a path opens as a file |
| Fs.CreatedValid | myFTserver.c:193 | creating a file keeps the tree, adds no directory, and the file then opens |
| Fs.FileSystem.Mkdir | utils.c:58 | mkdir returns 0 and adds the directory exactly when the path may be made, else -1 with no change |
| Fs.FileSystem.Create | myFTserver.c:193 | open(O_WRONLY, O_CREAT) opens an existing file unchanged or makes a missing one empty, refuses a name ending in '/', and fails otherwise with no change |
| Fs.FileSystem.Store | myFTserver.c:226-233 | the open file's contents are replaced and nothing else changes |
| Dirs.Walk | utils.c:50-63 | the loop's visit of each prefix in turn: an accessible prefix is skipped, any other given to mkdir, the first failed mkdir ends with -1; stated by the Walk lemmas below |
| Dirs.AsWritten | utils.c:36-71 | mkdir_p as written: 0 with no change for NULL or an accessible path, otherwise the walk over the prefixes the loop builds; Dirs.MkdirP is proved equal to it |
| Dirs.Rooted | utils.c:36-71 | the corrected mkdir_p: the same with the leading '/' kept; Dirs.MkdirPRooted is proved equal to it |
| Dirs.MkdirP | utils.c:36-71 | the loop as written returns 0 and changes nothing for NULL or an accessible path, and otherwise ends in the walk over the prefixes it builds (no leading '/'), -1 at the first failed mkdir |
| Dirs.MkdirPRooted | utils.c:36-71 | the same loop started at "/" for an absolute path ends in the walk over the rooted prefixes |
| Dirs.Visit | utils.c:57-61 | one turn's access and mkdir continue the walk from the new state, or end it with -1 |
| Dirs.TokenStep | utils.c:51-62 | the token strtok returns next is the next component of the path |
| Dirs.NextPrefixAsWritten | utils.c:52-56 | each turn's sprintf grows prefix k-1 into prefix k (the token alone into an empty buffer, "/" and the token otherwise) |
| Dirs.NextPrefixRooted | utils.c:52-56 | the corrected growth also reaches every rooted prefix |
| Dirs.WalkKeepsTree | utils.c:50-63 | the walk keeps the file system a tree |
| Dirs.WalkOnlyAdds | utils.c:50-63 | the walk returns 0 or -1, touches no file, and only adds directories, each the lookup of one of the prefixes |
| Dirs.WalkKeepsAccess | utils.c:50-63 | what access(R_OK) accepted before the walk it accepts after |
| Dirs.WalkSucceeds | utils.c:50-70 | a walk returning 0 leaves every prefix accessible |
| Dirs.WalkStopsAtFirstFailure | utils.c:58-60 | a walk returning -1 stopped at the first prefix that is neither accessible nor creatable, keeping what the earlier prefixes made |
| Dirs.PrefixAsWrittenShape | utils.c:50-56 | prefix k as written splits into the first k+1 components and is never absolute |
| Dirs.PrefixRootedShape | utils.c:50-56 | rooted prefix k splits into the first k+1 components and is absolute exactly when the path is |
| Dirs.SlashesAddNothing | utils.c:51 | doubled and trailing separators change none of the prefixes visited |
| Dirs.AsWrittenFromCwd | utils.c:52-57 | as written, every prefix is looked up from the working directory, even for an absolute path |
| Dirs.RootedLastIsPath | utils.c:50-63 | the last rooted prefix names the path itself |
| Dirs.RootedReachesTarget | utils.c:36-71 | with the corrected loop, returning 0 means the path it was given exists and is not refused, and is accessible unless it ends in '/' after a regular file |
| Dirs.RelativePathsAgree | utils.c:50-63 | for a relative path the corrected loop is the loop as written |
| Dirs.AbsolutePathLosesRoot | utils.c:47-56 | "/r/a" is walked as r, r/a as written and as /r, /r/a when corrected |
| Dirs.AsWrittenMissesAbsoluteTarget | utils.c:36-71 | outside / and /r, mkdir_p("/r/a") as written makes r and r/a under the working directory, returns 0, and /r/a is still missing; the corrected loop makes /r and /r/a |
| Dirs.AbsoluteTargetExample | utils.c:36-71 | the instance in /srv: /srv/r and /srv/r/a are made instead of /r/a |
| Ls.Decimal | utils.c:108-114 | the %u numeral is non-empty, all digits, and has no leading zero |
| Ls.DecimalRoundTrip | utils.c:108-114 | the numeral reads back as the number |
| Ls.PadLeft | utils.c:137-139 | %2lu/%8lu: the width is reached with leading blanks, a longer text is kept whole at the end |
| Ls.PadRight | utils.c:137-139 | %-8s: the text first, then trailing blanks up to the width |
| Ls.LineShape | utils.c:86-139 | a line starts with 'd' exactly for a directory and '-' otherwise, then PERMS of the mode (parsing back to mode & 0777), a blank, and ends with a blank, the name and a newline |
| Ls.NumericFallback | utils.c:99-115 | a failed user or group lookup shows the numeric id, which reads back; a found name is cut to under MAX_NAME_L characters |
| Ls.Line | utils.c:126-139 | the sprintf of one entry's line: type, PERMS, link count, owner, group, size, time, name; stated by Ls.LineShape |
| Ls.Listing | utils.c:82-142 | the lines of the entries in readdir order, an entry whose stat fails giving none; Ls.LsLa is proved to build it |
| Ls.ListingAppend | utils.c:82-142 | the listing of two runs of entries is the two listings in order |
| Ls.ListingSnoc | utils.c:82-142 | one more entry appends its own line |
| Ls.SkipsFailedStat | utils.c:93-95 | an entry whose stat fails leaves no trace in the listing |
| Ls.EmptyListing | utils.c:73-150 | the listing is empty exactly when no entry could be stat'ed |
| Ls.LsLa | utils.c:73-150 | opendir failing gives -1 and NULL; otherwise the buffer holds the listing of the entries in readdir order (NULL when empty) and the result is 0, or -1 when closedir fails |
| Ls.AddLine | utils.c:130-139 | one turn allocates or extends the buffer with the entry's line |
| Net.SysWrite | utils.c:163 | write(2): a spent script fails with EPIPE; the bytes sent are a prefix of the buffer; nothing is received |
| Net.SysRecv | utils.c:154 | recv(2): a spent script fails with ECONNRESET; nothing is sent |
| Net.XWriteOf | utils.c:161-168 | xwrite returns -1 with an errno other than EINTR or a count of bytes from the front of the buffer, positive for a non-empty buffer |
| Net.WriteOneCall | utils.c:161-168 | after any number of EINTRs, xwrite returns the first other outcome of write unchanged: a short write is returned as it is, with nothing written after it |
| Net.RecvOneCall | utils.c:152-159 | after any number of EINTRs, xrecv returns the first other outcome of recv unchanged, whatever it is |
| Net.XRecvOf | utils.c:152-159 | xrecv returns -1 with nothing taken and an errno other than EINTR, or r <= len with exactly the first r pending bytes delivered in order |
| Net.XWriteAllOf | utils.c:170-181 | xwrite_all returns the whole length with all of the buffer sent in order, or -1 with a proper prefix sent; an empty buffer sends nothing |
| Net.RecvInterruptionsInvisible | utils.c:152-159 | any number of interrupted recvs before an outcome change nothing |
| Net.WriteInterruptionsInvisible | utils.c:161-168 | any number of interrupted writes before an outcome change nothing |
| Net.WriteAllAtOnce | utils.c:170-181 | a peer that takes the whole buffer at once gets it in one write |
| Net.RecvWhole | utils.c:152-159 | a message up to len bytes that arrives in one piece is received whole, and what follows stays pending |
| Net.Socket.XWrite | utils.c:161-168 | the retry loop computes xwrite's outcome |
| Net.Socket.XRecv | utils.c:152-159 | the retry loop computes xrecv's outcome |
| Net.Socket.XWriteAll | utils.c:170-181 | the loop over nwrote/len computes xwrite_all's outcome |
| Net.Int32 | myFTserver.c:274 | the C int of a value is in the int range and congruent to it modulo 2^32 |
| Net.IntOfBytes | myFTserver.c:221 | four received bytes make a value in the int range |
| Net.IntRoundTrip | myFTserver.c:320-322 | an int sent by notify_status or as a length reads back as the same C int |
| Wire.SentDecodes | myFTserver.c:266-280 | the bytes of a status, a length and a payload read back four at a time as the two C ints, then the payload |
| Wire.FramedCat | myFTserver.c:141-173 | a framed start followed by framed replies that begin with a status is framed |
| Server.ReadOf | myFTserver.c:250-285 | handle_read over the file system and the oracle; its branches are stated by ServerProps.ReadBranches and Server.Connection.HandleRead is proved equal to it |
| Server.ReceiveOf | myFTserver.c:219-233 | the tail of handle_write: length, truncating fopen, one recv, fputs up to the first NUL; stated by ServerProps.WriteStores |
| Server.WriteOf | myFTserver.c:178-245 | handle_write: OK and the tail when the file opens, otherwise the create branch; stated by ServerProps.WriteBranches and ServerProps.WriteFailures |
| Server.CreateOf | myFTserver.c:188-216 | the create branch with mkdir_p as written (Dirs.AsWritten) |
| Server.AfterMkdir | myFTserver.c:191-197 | 500 when mkdir_p did not return 0 or the open with O_CREAT fails, else the created file's outcome |
| Server.AfterCreate | myFTserver.c:199-210 | 501 when flock fails, 500 under the lock when ftruncate fails, else CREATED and the tail |
| Server.WriteRootedOf | myFTserver.c:178-245 | handle_write with the corrected mkdir_p, for the finding on utils.c |
| Server.ListOf | myFTserver.c:290-318 | handle_ls: 404, 500, or OK, the listing's length and the listing; stated by ServerProps.ListBranches |
| Server.ServeOf | myFTserver.c:141-173 | handle_connection: BADREQ, or OK, the path field and the handler the op selects; stated by ServerProps.BadRequest, ServerProps.Dispatch and ServerProps.ServeFramed |
| Server.Connection.NotifyStatus | myFTserver.c:320-322 | the status is appended to the trace |
| Server.Connection.Flock | myFTserver.c:199-202 | a successful flock: the lock is held and recorded |
| Server.Connection.CloseFd | myFTserver.c:241 | close(fd): the descriptor is closed and its flock dropped |
| Server.Connection.HandleRead | myFTserver.c:250-285 | the trace gains ReadOf's events and the locks ReadOf's lock; the descriptor is closed and the lock dropped on every path |
| Server.Connection.Receive | myFTserver.c:219-233 | the length, the truncating fopen, one payload recv and fputs give ReceiveOf's trace and disk; a negative length ends the process |
| Server.Connection.HandleWrite | myFTserver.c:178-245 | trace, disk, locks and exit are those of WriteOf; unless the process ended, the descriptor is closed and the lock dropped |
| Server.Connection.HandleCreate | myFTserver.c:188-216 | the branch where the file does not open runs the source's mkdir_p loop (Dirs.MkdirP) and ends as CreateOf says |
| Server.Connection.FinishCreate | myFTserver.c:191-216 | after mkdir_p's result, SERVERERROR or the created file's outcome as AfterMkdir says |
| Server.Connection.FillCreated | myFTserver.c:199-210 | flock, ftruncate and the payload of a created file end as AfterCreate says |
| Server.Connection.HandleLs | myFTserver.c:290-318 | the trace gains ListOf's events |
| Server.Connection.Dispatch | myFTserver.c:160-169 | exactly the handler the op selects runs |
| Server.Connection.HandleConnection | myFTserver.c:141-173 | a bad op gets its byte and BADREQ with nothing else changed and the socket left open; a known op gets OK, the path field, the handler's events, disk and locks, and the socket closed unless the process ended |
| Server.Connection.Accept | myFTserver.c:153-171 | the part of handle_connection after a known op |
| Root.RootSetupOf | myFTserver.c:120-139 | the function as written: opendir, then errno tested whatever opendir returned (ENOTDIR below a regular file, ENOENT for a missing entry, EACCES for a refused one), mkdir on ENOENT; its consequences are Root.RootSetupAcceptsFile, Root.RootSetupAcceptsBelowFile and Root.RootSetupRefusesExisting |
| Root.GetOrCreateRoot | myFTserver.c:120-139 | the function as written, over the file system, and whether a directory stream ends up open |
| Root.RootSetupChecked | myFTserver.c:120-139 | the intended setup returns 0 or -1, changes nothing on -1, fails for NULL, and returns 0 exactly when the root ends up an openable directory |
| Root.RootSetupAgrees | myFTserver.c:126-138 | as written and as intended agree when errno did not already hold ENOENT and opendir can only fail because the root is missing |
| Root.RootSetupAcceptsFile | myFTserver.c:127-138 | as written, a root that is a regular file gives 0 and no directory; the intended version refuses it |
| Root.RootSetupAcceptsBelowFile | myFTserver.c:127-138 | as written, a root below a regular file gives 0 with nothing made, for any earlier errno; the intended version refuses it |
| Root.RootSetupRefusesExisting | myFTserver.c:127-129 | as written, an existing root is refused when errno was ENOENT before a successful opendir |
| ServerProps.BadRequest | myFTserver.c:146-152 | the trace is the op byte and BADREQ exactly for a bad op, which leaves disk and locks alone and the socket open |
| ServerProps.Dispatch | myFTserver.c:153-169 | a known op gets OK before the path field, then exactly its handler's events on root + "/" + the path up to its NUL; closed exactly when not exited |
| ServerProps.ReadBranches | myFTserver.c:250-285 | 404 alone iff the file cannot be opened, 501 alone iff the lock fails, 200 then 502 iff stat fails, else 200, a length and a payload; the shared lock is taken exactly when OK is sent; nothing on disk changes |
| ServerProps.ReadSendsFile | myFTserver.c:266-280 | a file under 2 GiB that one sendfile carries goes out whole after OK and its exact size |
| ServerProps.WriteBranches | myFTserver.c:178-217 | OK without a lock iff the file opens; CREATED under an exclusive lock iff it does not, mkdir_p returns 0 and the open with O_CREAT, flock and ftruncate succeed; otherwise 500 or 501 alone; after OK/CREATED the length is received next |
| ServerProps.WriteDirSuffix | myFTserver.c:180-196 | a path ending in '/' is answered 500 with no lock, after only what mkdir_p made: both opens refuse it |
| ServerProps.ReadDirSuffix | myFTserver.c:254-258 | a '/' after the name of a regular file is answered 404 with nothing changed |
| ServerProps.WriteFailures | myFTserver.c:191-206 | 501 alone, no lock held and the file created empty, iff mkdir_p and the create-open succeeded and flock failed; 500 under the exclusive lock iff flock succeeded and ftruncate failed; 500 with no lock iff mkdir_p or the create-open failed |
| ServerProps.MkdirKeepsFiles | utils.c:36-71 | mkdir_p touches no file and changes neither the working directory nor the refused paths |
| ServerProps.WriteStores | myFTserver.c:219-233 | after OK/CREATED a non-negative length leads to one receive and the file holds it up to the first NUL; a negative length ends the process with the file emptied |
| ServerProps.WriteFootprint | myFTserver.c:178-245 | a write changes no file but its target, only adds directories, and keeps the file system a tree |
| ServerProps.ReceiveFootprint | myFTserver.c:219-233 | the tail of the handler only rewrites the file it opened |
| ServerProps.CreateFootprint | myFTserver.c:188-216 | the create branch only adds directories and the target file |
| ServerProps.AfterMkdirFootprint | myFTserver.c:191-216 | after mkdir_p the handler adds or rewrites only the target file |
| ServerProps.WriteIdempotent | myFTserver.c:178-233 | repeating an acknowledged write with a non-negative length leaves the disk as after the first, answered OK with no lock |
| ServerProps.RewriteSame | myFTserver.c:184-233 | writing a file the contents it already holds answers OK and changes nothing |
| ServerProps.WriteCreates | myFTserver.c:188-210 | a missing file in an existing directory is CREATED when it may be made and flock and ftruncate succeed |
| ServerProps.WriteThenRead | myFTserver.c:141-285 | once a write of NUL-free data with its exact length is acknowledged, a read of the same path answers OK, the length and the data |
| ServerProps.WriteServed | myFTserver.c:219-233 | the acknowledged write receives the length and the data, and the file then holds the data |
| ServerProps.ReadServed | myFTserver.c:250-280 | a file holding the data is sent whole in a whole connection |
| ServerProps.ReadReplyBytes | myFTserver.c:266-280 | on the socket, such a reply reads back as the int OK, the int size and the file's bytes |
| ServerProps.ListBranches | myFTserver.c:290-318 | 404 alone iff the path is not readable, 500 alone iff it is no directory or closedir fails, else three events; no lock, disk unchanged |
| ServerProps.ListSendsListing | myFTserver.c:302-309 | a listing under 2 GiB goes out whole after OK and its length |
| ServerProps.ReadFramed | myFTserver.c:250-285 | the read handler's trace is framed and starts with a status |
| ServerProps.ListFramed | myFTserver.c:290-318 | the list handler's trace is framed and starts with a status |
| ServerProps.ReceiveFramed | myFTserver.c:219-233 | the receive tail after OK or CREATED is framed |
| ServerProps.WriteFramed | myFTserver.c:178-245 | the write handler's trace is framed and starts with a status |
| ServerProps.ServeFramed | myFTserver.c:141-173 | for any file system, request and system-call outcomes, a connection's trace is framed: payloads only after OK/CREATED and a length no shorter, the path only after the acknowledgement, only protocol status codes |
| ServerProps.RelativeRootWritesAgree | myFTserver.c:178-245 | with a relative root the write handler is the same with the source's mkdir_p and with the corrected one |
| ServerProps.AbsoluteRootWrite | myFTserver.c:178-197 | as written, with the existing root /r, a working directory other than / and /r, and /r/a missing: a write of a/f answers 500 alone and leaves the new directories r and r/a below the working directory |
| ServerProps.AbsoluteRootWriteRooted | myFTserver.c:178-233 | with the corrected mkdir_p the same write answers CREATED, makes /r/a and stores the payload in /r/a/f |
| ServerProps.DotDotTokens | myFTserver.c:180 | root + "/../" + n splits into root, "..", n |
| ServerProps.DotDotLeavesRoot | myFTserver.c:180-252 | the path is appended unchecked, so "../n" names n beside the root |
| ServerProps.ReadOutsideRoot | myFTserver.c:250-280 | a read of "../n" sends the file beside the root |
| ServerProps.WriteAfterMkdir | myFTserver.c:188-233 | a missing file whose directory mkdir_p makes or finds is created, locked, truncated and holds the payload up to its first NUL |
| ServerProps.CreatesAfterMkdir | myFTserver.c:193-233 | after a successful mkdir_p the missing file gets CREATED, the length and the payload |
| ServerProps.NestedMkdir | utils.c:36-71 | mkdir_p of a/b/c with a present and a/b, a/b/c missing makes exactly those two, and the corrected loop does the same |
| ServerProps.NestedLookups | utils.c:50-57 | the prefixes of a/b/c name the entries below the working directory |
| ServerProps.NestedPrefixes | utils.c:50-56 | the loop visits a, a/b, a/b/c |
| ServerProps.NestedPaths | myFTserver.c:180-189 | the handler's path for b/c/n under root a, its dirname a/b/c and the entry it names |
| ServerProps.NestedWriteOf | myFTserver.c:178-233 | a write of b/c/n under root a with b, b/c missing makes both directories and the file, holding the payload up to its first NUL |
| ServerProps.MissingFileTarget | myFTserver.c:184-193 | a file missing before the walk, whose directory the walk made, can then be created |
| ServerProps.WriteMakesNestedPath | myFTserver.c:141-245 | the whole connection: op, OK, path, CREATED, length, data; the two directories and the file are the only change; exclusive lock; socket closed |
| ServerProps.ServeCreated | myFTserver.c:141-173 | a write whose handler creates the file is answered OK, then the handler's events, and the socket is closed |
| ServerProps.NestedSession | myFTserver.c:141-285 | after that write, a read of b/c/n returns the data |
| ServerProps.HelloWrite | myFTserver.c:141-245 | in /srv with root ft, writing "hello" to dir1/dir2/file.txt answers CREATED and makes both directories and the file |
| ServerProps.HelloSession | myFTserver.c:141-285 | a read of the same path then answers OK, 5 and the bytes |

## Left out

- The main program is not modelled: argument parsing, socket/bind/listen/accept, one thread per connection, and the globals it sets. The root directory and the file system are parameters instead.
- Concurrency: threads and flock contention are not modelled. A lock attempt succeeding or failing is an input (`Oracle.lockOk`).
- I/O outcomes the disk state does not decide are inputs: stat, ftruncate, closedir, the bytes one sendfile gets out, and the directory size stat reports.
- Server.Connection: the handlers' socket sends are recorded in the trace and are assumed to succeed. The write side with its failures is modelled separately in Net, and Net is not wired into the handlers; Wire.Sent gives the bytes a trace puts on the socket.
- ls_la: the entries readdir yields, and the user, group and strftime lookups, are inputs. They are not tied to the Disk.
- Lookups are lexical: "." and ".." are taken on the path string, also after the name of a regular file where the kernel fails with ENOTDIR, and symbolic links are not modelled. A trailing '/' is modelled: it asks for a directory.
- The memory wrappers (xmalloc, xrealloc, xstrdup and memcheck) are not modelled: allocation is assumed to succeed, except for the negative payload length below.
- Behaviour the C code leaves undefined is modelled as follows:
  - An unset op byte, path or data is not modelled.
  - Overflowing the 1024-byte sprintf buffer is not modelled.
  - A missing NUL in the path field: the field is read up to its first NUL or its end.
  - strlen(NULL) on an empty listing is modelled as length 0.
  - data[t] when xrecv returns -1 is not modelled.
  - A payload length of -2 or less makes the process end: xmalloc(f_size + 1) fails and memcheck exits.
  - A payload length of -1: malloc(0) returns a block, and the recv into it and data[t] are undefined. The model picks the same exit as for the other negative lengths.
  - A payload length of INT_MAX: f_size + 1 overflows. The model treats it like any other non-negative length.
- Host byte order: the model takes the host to be little-endian (Net.IntBytes).
- C strings as bytes: the path field, entry names and the formatted time are `string`s. Wire.ToBytes reduces each character modulo 256, so for characters above 255 a string's length is not its byte count.
- Root.GetOrCreateRoot: the directory stream it opens is a flag, not an object.
- Root.RootSetupOf: the `dir == NULL` test is not modelled, since its one caller passes the address of a local; a NULL path is.

## Findings

| source | as written | input that shows it | evidently intended | confidence | as-written member | corrected member |
|---|---|---|---|---|---|---|
| utils.c:47-56 | mkdir_p builds each prefix from the strtok components starting with an empty buffer, so an absolute path loses its leading '/' and is created under the working directory | server in /srv, mkdir_p("/r/a") with /r missing: it makes /srv/r and /srv/r/a, returns 0, and /r/a still does not exist; through handle_write with the existing root /r, a write of a/f while /r/a is missing gets 500 and leaves r and r/a in the working directory | keep the leading '/' so that the prefixes are /r and /r/a | not executed | Dirs.MkdirP, Dirs.AsWrittenMissesAbsoluteTarget, Dirs.AbsoluteTargetExample, ServerProps.AbsoluteRootWrite | Dirs.MkdirPRooted, Dirs.RootedReachesTarget, ServerProps.AbsoluteRootWriteRooted |
| myFTserver.c:127-138 | errno is tested after opendir whether or not opendir failed, and any failure other than ENOENT returns 0 | a root "ft" that is a regular file: opendir fails with ENOTDIR and 0 is returned with no directory; a root below a regular file: opendir fails with ENOTDIR and 0 is returned; errno already ENOENT before a successful opendir: mkdir fails and -1 is returned for an existing root | return 0 exactly when the root is, or is made, an openable directory | not executed | Root.GetOrCreateRoot, Root.RootSetupAcceptsFile, Root.RootSetupAcceptsBelowFile, Root.RootSetupRefusesExisting | Root.RootSetupChecked |
