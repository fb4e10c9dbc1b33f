/**
  mkdir_p: create every missing directory on a path, component by
  component, stopping at the first failure without undoing what was made.
  `MkdirP` is the loop as the source writes it; `MkdirPRooted` is the same
  loop keeping the leading '/' of an absolute path, which the source drops.
*/
module Dirs {
  import opened Base
  import opened Posix
  import opened Fs

  /** The first k+1 components of `ts` joined by '/', after `lead`, for
      each k. */
  function Prefixes(lead: string, ts: seq<string>): (ps: seq<string>)
    ensures |ps| == |ts|
  {
    seq(|ts|, k requires 0 <= k < |ts| => lead + Join(ts[..k + 1]))
  }

  /** The prefixes the source's loop builds: no leading separator, even
      when the path is absolute. */
  function PrefixesAsWritten(path: string): (ps: seq<string>)
    ensures |ps| == |Tokens(path)|
  {
    Prefixes("", Tokens(path))
  }

  /** The prefixes mkdir -p means: as above, but starting at "/" when the
      path does. */
  function PrefixesRooted(path: string): (ps: seq<string>)
    ensures |ps| == |Tokens(path)|
  {
    Prefixes(if Absolute(path) then "/" else "", Tokens(path))
  }

  /** The creation walk over a list of prefixes: a prefix that access(R_OK)
      accepts is left alone, any other is given to mkdir; the first mkdir
      that fails ends the walk with -1. */
  function Walk(d: Disk, ps: seq<string>): (int, Disk)
    decreases |ps|
  {
    if ps == [] then (0, d)
    else if d.Access(ps[0]) then Walk(d, ps[1..])
    else if d.CanMkdir(ps[0]) then Walk(d.WithDir(ps[0]), ps[1..])
    else (-1, d)
  }

  lemma WalkAt(d: Disk, ps: seq<string>, k: nat)
    requires k < |ps|
    ensures Walk(d, ps[k..]) ==
      if d.Access(ps[k]) then Walk(d, ps[k + 1..])
      else if d.CanMkdir(ps[k]) then Walk(d.WithDir(ps[k]), ps[k + 1..])
      else (-1, d)
  {
    assert ps[k..][0] == ps[k] && ps[k..][1..] == ps[k + 1..];
  }

  /** mkdir_p(path) as written: NULL and an accessible path return 0 at
      once; otherwise the walk over PrefixesAsWritten. */
  function AsWritten(d: Disk, path: Option<string>): (int, Disk)
  {
    if path == None || d.Access(path.value) then (0, d)
    else Walk(d, PrefixesAsWritten(path.value))
  }

  /** mkdir_p(path) with the leading '/' kept. */
  function Rooted(d: Disk, path: Option<string>): (int, Disk)
  {
    if path == None || d.Access(path.value) then (0, d)
    else Walk(d, PrefixesRooted(path.value))
  }

  /** One turn of the source's loop: the token alone into an empty
      prefix, "/" and the token appended to any other. */
  function GrowAsWritten(left: string, name: string): string
  {
    if |left| > 0 then left + "/" + name else name
  }

  /** The corrected turn: after a bare "/" the token follows directly. */
  function GrowRooted(left: string, name: string): string
  {
    if |left| > 0 && left != "/" then left + "/" + name else left + name
  }

  /** Joining one more component. */
  lemma JoinSnoc(ts: seq<string>, k: nat)
    requires k < |ts|
    ensures Join(ts[..k + 1]) == if k == 0 then ts[0] else Join(ts[..k]) + "/" + ts[k]
  {
    var u := ts[..k + 1];
    assert |u| == k + 1 && u[..k] == ts[..k] && u[k] == ts[k];
  }

  /** One turn of the source's loop turns the prefix of k tokens into the
      prefix of k + 1. */
  lemma NextPrefixAsWritten(path: string, k: nat)
    requires k < |Tokens(path)|
    ensures var ps := PrefixesAsWritten(path);
      ps[k] == GrowAsWritten(if k == 0 then "" else ps[k - 1], Tokens(path)[k])
  {
    PrefixStep("", Tokens(path), k);
  }

  lemma NextPrefixRooted(path: string, k: nat)
    requires k < |Tokens(path)|
    ensures var ps, lead := PrefixesRooted(path), if Absolute(path) then "/" else "";
      ps[k] == GrowRooted(if k == 0 then lead else ps[k - 1], Tokens(path)[k])
  {
    PrefixStep(if Absolute(path) then "/" else "", Tokens(path), k);
  }

  /** Prefix k + 1 grown from prefix k; the two ways of growing agree on
      every prefix but a bare "/". */
  lemma PrefixStep(lead: string, ts: seq<string>, k: nat)
    requires lead == "" || lead == "/"
    requires k < |ts| && forall i :: 0 <= i < |ts| ==> IsName(ts[i])
    ensures var ps := Prefixes(lead, ts);
      && ps[k] == GrowRooted(if k == 0 then lead else ps[k - 1], ts[k])
      && (lead == "" ==> ps[k] == GrowAsWritten(if k == 0 then lead else ps[k - 1], ts[k]))
  {
    var ps := Prefixes(lead, ts);
    GrowJoin(lead, ts, k);
    assert ps[k] == lead + Join(ts[..k + 1]);
    if k > 0 {
      assert ps[k - 1] == lead + Join(ts[..k]);
    } else {
      assert ts[..k] == [];
    }
  }

  /** Growing a joined prefix, with or without a leading "/". */
  lemma GrowJoin(lead: string, ts: seq<string>, k: nat)
    requires lead == "" || lead == "/"
    requires k < |ts| && forall i :: 0 <= i < |ts| ==> IsName(ts[i])
    ensures lead + Join(ts[..k + 1]) == GrowRooted(lead + Join(ts[..k]), ts[k])
    ensures k > 0 ==> lead + Join(ts[..k]) != "" && lead + Join(ts[..k]) != "/"
  {
    JoinSnoc(ts, k);
    var j := Join(ts[..k]);
    var left := lead + j;
    if k > 0 {
      var init := ts[..k];
      assert forall i :: 0 <= i < |init| ==> IsName(init[i]) by {
        forall i | 0 <= i < |init| ensures IsName(init[i]) {
          assert init[i] == ts[i];
        }
      }
      JoinHead(init);
      assert left != "/" by {
        if lead == "" {
          assert left == j && left[0] != '/';
        } else {
          assert |left| == 1 + |j| > 1;
        }
      }
      assert lead + (j + "/" + ts[k]) == left + "/" + ts[k];
    } else {
      assert ts[..k] == [];
      assert left == lead;
    }
  }

  /** The token strtok returns next is the next component. */
  lemma TokenStep(rest: string, toks: seq<string>, k: nat)
    requires StrTok(rest).Some? && k <= |toks| && Tokens(rest) == toks[k..]
    ensures k < |toks| && StrTok(rest).value.0 == toks[k]
    ensures Tokens(StrTok(rest).value.1) == toks[k + 1..]
  {
    assert toks[k..] == [StrTok(rest).value.0] + Tokens(StrTok(rest).value.1);
    assert toks[k..][1..] == toks[k + 1..];
  }

  /** One turn's system calls: access(R_OK) on the prefix, and mkdir when
      access refuses it; false when mkdir fails. The walk over the
      remaining prefixes continues from the new state, or ends there. */
  method Visit(fs: FileSystem, leftpath: string, ghost ps: seq<string>, ghost k: nat) returns (ok: bool)
    requires k < |ps| && ps[k] == leftpath
    modifies fs
    ensures ok ==> Walk(old(fs.disk), ps[k..]) == Walk(fs.disk, ps[k + 1..])
    ensures !ok ==> Walk(old(fs.disk), ps[k..]) == (-1, fs.disk)
  {
    WalkAt(fs.disk, ps, k);
    ok := true;
    if !fs.disk.Access(leftpath) {
      var made := fs.Mkdir(leftpath);
      ok := made == 0;
    }
  }

  /** The source's loop: strtok over '/', the prefix grown in `leftpath`,
      mkdir on each prefix access(R_OK) refuses. */
  method MkdirP(fs: FileSystem, path: Option<string>) returns (r: int)
    modifies fs
    ensures (r, fs.disk) == AsWritten(old(fs.disk), path)
  {
    if path == None {
      return 0;
    }
    if !fs.disk.Access(path.value) {
      ghost var toks := Tokens(path.value);
      ghost var ps := PrefixesAsWritten(path.value);
      ghost var k := 0;
      var leftpath := "";
      var rest := path.value;
      var tok := StrTok(rest);
      while tok.Some?
        invariant 0 <= k <= |toks|
        invariant tok == StrTok(rest) && Tokens(rest) == toks[k..]
        invariant leftpath == if k == 0 then "" else ps[k - 1]
        invariant Walk(old(fs.disk), ps) == Walk(fs.disk, ps[k..])
        decreases |rest|
      {
        var name := tok.value.0;
        TokenStep(rest, toks, k);
        NextPrefixAsWritten(path.value, k);
        leftpath := GrowAsWritten(leftpath, name);
        var ok := Visit(fs, leftpath, ps, k);
        if !ok {
          return -1;
        }
        rest := tok.value.1;
        tok := StrTok(rest);
        k := k + 1;
      }
      assert ps[k..] == [];
    }
    return 0;
  }

  /** The same loop with `leftpath` starting at "/" for an absolute path. */
  method MkdirPRooted(fs: FileSystem, path: Option<string>) returns (r: int)
    modifies fs
    ensures (r, fs.disk) == Rooted(old(fs.disk), path)
  {
    if path == None {
      return 0;
    }
    if !fs.disk.Access(path.value) {
      ghost var toks := Tokens(path.value);
      ghost var ps := PrefixesRooted(path.value);
      ghost var k := 0;
      var lead := if Absolute(path.value) then "/" else "";
      var leftpath := lead;
      var rest := path.value;
      var tok := StrTok(rest);
      while tok.Some?
        invariant 0 <= k <= |toks|
        invariant tok == StrTok(rest) && Tokens(rest) == toks[k..]
        invariant leftpath == if k == 0 then lead else ps[k - 1]
        invariant Walk(old(fs.disk), ps) == Walk(fs.disk, ps[k..])
        decreases |rest|
      {
        var name := tok.value.0;
        TokenStep(rest, toks, k);
        NextPrefixRooted(path.value, k);
        leftpath := GrowRooted(leftpath, name);
        var ok := Visit(fs, leftpath, ps, k);
        if !ok {
          return -1;
        }
        rest := tok.value.1;
        tok := StrTok(rest);
        k := k + 1;
      }
      assert ps[k..] == [];
    }
    return 0;
  }

  /* ---------------------------------------------------------------------
     The walk
     --------------------------------------------------------------------- */

  /** The walk keeps the file system a tree. */
  lemma {:induction false} WalkKeepsTree(d: Disk, ps: seq<string>)
    requires d.Valid()
    ensures Walk(d, ps).1.Valid()
    decreases |ps|
  {
    if ps != [] {
      if d.Access(ps[0]) {
        WalkKeepsTree(d, ps[1..]);
      } else if d.CanMkdir(ps[0]) {
        WithDirValid(d, ps[0]);
        WalkKeepsTree(d.WithDir(ps[0]), ps[1..]);
      }
    }
  }

  /** The walk returns 0 or -1, touches no file, and only adds directories,
      each of them the lookup of one of its prefixes. */
  lemma {:induction false} WalkOnlyAdds(d: Disk, ps: seq<string>)
    ensures Walk(d, ps).0 == 0 || Walk(d, ps).0 == -1
    ensures var d' := Walk(d, ps).1;
      && d'.cwd == d.cwd && d'.denied == d.denied && d'.files == d.files
      && d.dirs <= d'.dirs
      && forall q :: q in d'.dirs - d.dirs ==> exists k :: 0 <= k < |ps| && q == d.Lookup(ps[k])
    decreases |ps|
  {
    if ps != [] {
      var next := if d.Access(ps[0]) || !d.CanMkdir(ps[0]) then d else d.WithDir(ps[0]);
      if d.Access(ps[0]) || d.CanMkdir(ps[0]) {
        WalkOnlyAdds(next, ps[1..]);
        var d' := Walk(d, ps).1;
        assert d' == Walk(next, ps[1..]).1;
        forall q | q in d'.dirs - d.dirs
          ensures exists k :: 0 <= k < |ps| && q == d.Lookup(ps[k])
        {
          if q in next.dirs {
            assert q == d.Lookup(ps[0]);
          } else {
            assert q in Walk(next, ps[1..]).1.dirs - next.dirs;
            var k :| 0 <= k < |ps[1..]| && q == next.Lookup(ps[1..][k]);
            assert q == d.Lookup(ps[k + 1]);
          }
        }
      }
    }
  }

  /** What access(R_OK) accepts before the walk it accepts after it. */
  lemma WalkKeepsAccess(d: Disk, ps: seq<string>, s: string)
    requires d.Access(s)
    ensures Walk(d, ps).1.Access(s)
  {
    WalkOnlyAdds(d, ps);
  }

  /** A walk that returns 0 leaves every prefix in place and accessible. */
  lemma {:induction false} WalkSucceeds(d: Disk, ps: seq<string>)
    requires Walk(d, ps).0 == 0
    ensures forall k :: 0 <= k < |ps| ==> Walk(d, ps).1.Access(ps[k])
    decreases |ps|
  {
    if ps != [] {
      var next := if d.Access(ps[0]) then d else d.WithDir(ps[0]);
      assert next.Access(ps[0]);
      assert Walk(d, ps) == Walk(next, ps[1..]);
      WalkSucceeds(next, ps[1..]);
      WalkKeepsAccess(next, ps[1..], ps[0]);
      forall k | 0 <= k < |ps| ensures Walk(d, ps).1.Access(ps[k]) {
        if k > 0 {
          assert ps[k] == ps[1..][k - 1];
        }
      }
    }
  }

  /** A walk that returns -1 stopped at the first prefix it could neither
      access nor make; what the prefixes before it created is still there. */
  lemma {:induction false} WalkStopsAtFirstFailure(d: Disk, ps: seq<string>)
    requires Walk(d, ps).0 == -1
    ensures exists k :: (0 <= k < |ps| && Walk(d, ps[..k]) == (0, Walk(d, ps).1)
                         && !Walk(d, ps).1.Access(ps[k]) && !Walk(d, ps).1.CanMkdir(ps[k]))
    decreases |ps|
  {
    var d' := Walk(d, ps).1;
    if d.Access(ps[0]) || d.CanMkdir(ps[0]) {
      var next := if d.Access(ps[0]) then d else d.WithDir(ps[0]);
      assert Walk(d, ps) == Walk(next, ps[1..]);
      WalkStopsAtFirstFailure(next, ps[1..]);
      var j :| 0 <= j < |ps[1..]| && Walk(next, ps[1..][..j]) == (0, d')
        && !d'.Access(ps[1..][j]) && !d'.CanMkdir(ps[1..][j]);
      var pre := ps[..j + 1];
      assert pre[0] == ps[0] && pre[1..] == ps[1..][..j];
      assert Walk(d, pre) == Walk(next, pre[1..]);
      assert ps[j + 1] == ps[1..][j];
    } else {
      assert Walk(d, ps[..0]) == (0, d) && d' == d;
    }
  }

  /* ---------------------------------------------------------------------
     The prefixes
     --------------------------------------------------------------------- */

  /** The k-th prefix the source visits is the first k+1 components of the
      path joined by '/', and it never starts with '/'. */
  lemma PrefixAsWrittenShape(path: string, k: nat)
    requires k < |Tokens(path)|
    ensures Tokens(PrefixesAsWritten(path)[k]) == Tokens(path)[..k + 1]
    ensures !Absolute(PrefixesAsWritten(path)[k])
  {
    PrefixShape("", Tokens(path), k);
  }

  /** With the leading '/' kept, the prefix is absolute exactly when the path is. */
  lemma PrefixRootedShape(path: string, k: nat)
    requires k < |Tokens(path)|
    ensures Tokens(PrefixesRooted(path)[k]) == Tokens(path)[..k + 1]
    ensures Absolute(PrefixesRooted(path)[k]) == Absolute(path)
  {
    PrefixShape(if Absolute(path) then "/" else "", Tokens(path), k);
  }

  /** A prefix splits back into the components it joins, and starts with
      '/' exactly when its lead does. */
  lemma PrefixShape(lead: string, ts: seq<string>, k: nat)
    requires lead == "" || lead == "/"
    requires k < |ts| && forall i :: 0 <= i < |ts| ==> IsName(ts[i])
    ensures Tokens(Prefixes(lead, ts)[k]) == ts[..k + 1]
    ensures Absolute(Prefixes(lead, ts)[k]) == (lead == "/")
  {
    var init := ts[..k + 1];
    assert forall i :: 0 <= i < |init| ==> IsName(init[i]) by {
      forall i | 0 <= i < |init| ensures IsName(init[i]) {
        assert init[i] == ts[i];
      }
    }
    var j := Join(init);
    TokensJoin(init);
    JoinHead(init);
    assert Prefixes(lead, ts)[k] == lead + j;
    if lead == "/" {
      LeadingSlash(j);
    } else {
      assert lead + j == j;
    }
  }

  /** Repeated and trailing separators change nothing the loop visits. */
  lemma SlashesAddNothing(a: string, b: string)
    ensures PrefixesAsWritten(a + "//" + b) == PrefixesAsWritten(a + "/" + b)
    ensures PrefixesAsWritten(a + "/") == PrefixesAsWritten(a)
  {
    assert a + "//" + b == a + "/" + ("/" + b);
    TokensAppend(a, "/" + b);
    TokensAppend(a, b);
    LeadingSlash(b);
    TrailingSlash(a);
  }

  /** As written, every prefix is looked up from the working directory,
      whether or not the path is absolute. */
  lemma AsWrittenFromCwd(d: Disk, path: string, k: nat)
    requires k < |Tokens(path)|
    ensures d.Lookup(PrefixesAsWritten(path)[k]) == Normalize(d.cwd, Tokens(path)[..k + 1])
  {
    PrefixAsWrittenShape(path, k);
  }

  /** Rooted, the last prefix names the path itself. */
  lemma RootedLastIsPath(d: Disk, path: string)
    requires Tokens(path) != []
    ensures var ps := PrefixesRooted(path);
      ps[|ps| - 1] != "" && d.Lookup(ps[|ps| - 1]) == d.Lookup(path)
  {
    var ps := PrefixesRooted(path);
    RootedLast(path);
    ResolveByTokens(d.cwd, ps[|ps| - 1], path);
  }

  /** The last rooted prefix splits like the path and is absolute with it. */
  lemma RootedLast(path: string)
    requires Tokens(path) != []
    ensures var ps := PrefixesRooted(path);
      && ps[|ps| - 1] != ""
      && Tokens(ps[|ps| - 1]) == Tokens(path)
      && Absolute(ps[|ps| - 1]) == Absolute(path)
  {
    var ps := PrefixesRooted(path);
    var n := |ps|;
    PrefixRootedShape(path, n - 1);
    assert Tokens(path)[..n] == Tokens(path);
  }

  /** The corrected mkdir_p: when it returns 0, the path it was given (one
      that names at least one component) is an entry the process may use,
      accessible unless a trailing '/' follows the name of a regular file
      (the loop accepts a file as the last prefix). */
  lemma RootedReachesTarget(d: Disk, path: string)
    requires Tokens(path) != [] && Rooted(d, Some(path)).0 == 0
    ensures var d1 := Rooted(d, Some(path)).1;
      d1.Exists(d1.Lookup(path)) && d1.Lookup(path) !in d1.denied
    ensures !DirSuffix(path) ==> Rooted(d, Some(path)).1.Access(path)
  {
    if !d.Access(path) {
      var ps := PrefixesRooted(path);
      WalkSucceeds(d, ps);
      RootedLastIsPath(d, path);
      assert Walk(d, ps).1.Access(ps[|ps| - 1]);
      WalkOnlyAdds(d, ps);
    }
  }

  /** For a relative path the corrected loop is the source's loop. */
  lemma RelativePathsAgree(d: Disk, path: Option<string>)
    requires path.Some? ==> !Absolute(path.value)
    ensures Rooted(d, path) == AsWritten(d, path)
  {
    if path.Some? {
      var a, b := PrefixesRooted(path.value), PrefixesAsWritten(path.value);
      forall k | 0 <= k < |a| ensures a[k] == b[k] {
        assert a[k] == "" + b[k];
      }
      assert a == b;
    }
  }

  /* ---------------------------------------------------------------------
     The leading '/'
     --------------------------------------------------------------------- */

  lemma TwoNames(r: string, a: string)
    requires IsName(r) && IsName(a)
    ensures Tokens(r) == [r] && Tokens(r + "/" + a) == [r, a]
    ensures Tokens("/" + r) == [r] && Tokens("/" + r + "/" + a) == [r, a]
    ensures Absolute("/" + r) && Absolute("/" + r + "/" + a) && !Absolute(r) && !Absolute(r + "/" + a)
  {
    TokensOfName(r);
    TokensOfName(a);
    TokensAppend(r, a);
    LeadingSlash(r);
    LeadingSlash(r + "/" + a);
    assert "/" + r + "/" + a == "/" + (r + "/" + a);
    assert (r + "/" + a)[0] == r[0];
  }

  /** The absolute path /r/a is walked as r, r/a; the corrected loop walks
      /r, /r/a. */
  lemma AbsolutePathLosesRoot(r: string, a: string)
    requires IsName(r) && IsName(a)
    ensures PrefixesAsWritten("/" + r + "/" + a) == [r, r + "/" + a]
    ensures PrefixesRooted("/" + r + "/" + a) == ["/" + r, "/" + r + "/" + a]
  {
    TwoNames(r, a);
    TwoPrefixes("", r, a);
    TwoPrefixes("/", r, a);
    assert "" + r == r && "" + r + "/" + a == r + "/" + a;
  }

  /** The prefixes of two components. */
  lemma TwoPrefixes(lead: string, r: string, a: string)
    ensures Prefixes(lead, [r, a]) == [lead + r, lead + r + "/" + a]
  {
    var ts := [r, a];
    assert ts[..1] == [r] && ts[..2] == ts;
    assert Join(ts) == r + "/" + a by {
      assert ts[..|ts| - 1] == [r];
    }
    var p := Prefixes(lead, ts);
    assert p[0] == lead + r;
    assert p[1] == lead + (r + "/" + a);
    assert lead + (r + "/" + a) == lead + r + "/" + a;
  }

  /** The prefixes of three components. */
  lemma ThreePrefixes(lead: string, a: string, b: string, c: string)
    ensures Prefixes(lead, [a, b, c]) == [lead + a, lead + (a + "/" + b), lead + (a + "/" + b + "/" + c)]
  {
    var ts := [a, b, c];
    assert ts[..1] == [a] && ts[..2] == [a, b] && ts[..3] == ts;
    assert Join([a, b]) == a + "/" + b by {
      assert [a, b][..1] == [a];
    }
    assert Join(ts) == a + "/" + b + "/" + c by {
      assert ts[..|ts| - 1] == [a, b];
    }
  }

  /** So, with the server running in a directory other than / and /r,
      mkdir_p("/r/a") as written makes r and r/a inside the working
      directory, returns 0, and /r/a still does not exist; the corrected
      loop makes /r and /r/a themselves. */
  lemma AsWrittenMissesAbsoluteTarget(d: Disk, r: string, a: string)
    requires Plain(r) && Plain(a)
    requires d.denied == {} && [] in d.dirs && d.cwd in d.dirs
    requires d.cwd != [] && d.cwd != [r]
    requires !d.Exists(d.cwd + [r]) && !d.Exists(d.cwd + [r, a]) && !d.Exists([r]) && !d.Exists([r, a])
    ensures var (res, d') := AsWritten(d, Some("/" + r + "/" + a));
      && res == 0
      && d'.dirs == d.dirs + {d.cwd + [r], d.cwd + [r, a]}
      && !d'.Access("/" + r + "/" + a)
    ensures var (res, d') := Rooted(d, Some("/" + r + "/" + a));
      && res == 0
      && d'.dirs == d.dirs + {[r], [r, a]}
      && d'.Access("/" + r + "/" + a)
  {
    AbsolutePathLosesRoot(r, a);
    LookupsOfTwoNames(d, r, a);
    AsWrittenWalksCwd(d, r, a);
    RootedWalksRoot(d, r, a);
  }

  /** The walk over r, r/a. */
  lemma AsWrittenWalksCwd(d: Disk, r: string, a: string)
    requires Plain(r) && Plain(a)
    requires d.denied == {} && d.cwd in d.dirs && d.cwd != [] && d.cwd != [r]
    requires !d.Exists(d.cwd + [r]) && !d.Exists(d.cwd + [r, a]) && !d.Exists([r, a])
    ensures Walk(d, [r, r + "/" + a]) == (0, d.(dirs := d.dirs + {d.cwd + [r], d.cwd + [r, a]}))
    ensures !Walk(d, [r, r + "/" + a]).1.Access("/" + r + "/" + a)
  {
    LookupsOfTwoNames(d, r, a);
    assert (d.cwd + [r, a])[..|d.cwd| + 1] == d.cwd + [r];
    WalkTwo(d, r, r + "/" + a);
    assert [r, a] != d.cwd + [r];
  }

  /** The walk over /r, /r/a. */
  lemma RootedWalksRoot(d: Disk, r: string, a: string)
    requires Plain(r) && Plain(a)
    requires d.denied == {} && [] in d.dirs
    requires !d.Exists([r]) && !d.Exists([r, a])
    ensures var d' := Walk(d, ["/" + r, "/" + r + "/" + a]).1;
      && Walk(d, ["/" + r, "/" + r + "/" + a]).0 == 0
      && d'.dirs == d.dirs + {[r], [r, a]}
      && d'.Access("/" + r + "/" + a)
  {
    LookupsOfTwoNames(d, r, a);
    assert [r, a][..1] == [r];
    WalkTwo(d, "/" + r, "/" + r + "/" + a);
  }

  /** What r, r/a, /r and /r/a name, seen from the working directory. */
  lemma LookupsOfTwoNames(d: Disk, r: string, a: string)
    requires Plain(r) && Plain(a)
    ensures d.Lookup(r) == d.cwd + [r] && d.Lookup(r + "/" + a) == d.cwd + [r, a]
    ensures d.Lookup("/" + r) == [r] && d.Lookup("/" + r + "/" + a) == [r, a]
  {
    TwoNames(r, a);
    NormalizePlain(d.cwd, [r]);
    NormalizePlain(d.cwd, [r, a]);
    NormalizePlain([], [r]);
    NormalizePlain([], [r, a]);
  }

  /** A walk over two prefixes, each missing and the second below the first. */
  lemma WalkTwo(d: Disk, p1: string, p2: string)
    requires !d.Access(p1) && d.CanMkdir(p1)
    requires !d.WithDir(p1).Access(p2) && d.WithDir(p1).CanMkdir(p2)
    ensures Walk(d, [p1, p2]) == (0, d.(dirs := d.dirs + {d.Lookup(p1), d.Lookup(p2)}))
  {
    var d1 := d.WithDir(p1);
    assert [p1, p2][0] == p1 && [p1, p2][1..] == [p2] && [p2][0] == p2 && [p2][1..] == [];
    assert Walk(d, [p1, p2]) == Walk(d1, [p2]);
    assert Walk(d1, [p2]) == Walk(d1.WithDir(p2), []);
    assert d1.Lookup(p2) == d.Lookup(p2);
    assert d1.WithDir(p2) == d.(dirs := d.dirs + {d.Lookup(p1), d.Lookup(p2)});
  }

  /** The instance: in /srv, mkdir_p("/r/a") makes /srv/r and /srv/r/a. */
  lemma AbsoluteTargetExample()
    ensures var d := Disk(["srv"], {}, {[], ["srv"]}, map[]);
      var (res, d') := AsWritten(d, Some("/" + "r" + "/" + "a"));
      res == 0 && d'.dirs == {[], ["srv"], ["srv", "r"], ["srv", "r", "a"]} && !d'.Access("/" + "r" + "/" + "a")
  {
    var d := Disk(["srv"], {}, {[], ["srv"]}, map[]);
    assert d.cwd + ["r"] == ["srv", "r"] && d.cwd + ["r", "a"] == ["srv", "r", "a"];
    AsWrittenMissesAbsoluteTarget(d, "r", "a");
  }
}
