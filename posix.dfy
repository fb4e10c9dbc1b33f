/**
  The parts of the C library and of the kernel's path lookup that the server
  relies on: strlen/strtok-style scanning, the path joining that mkdir_p does
  by hand, dirname(3), and the resolution of a path string to the sequence of
  directory components it names.
*/
module Posix {
  import opened Base

  /** The elements of `s` before the first `stop`: strlen when `stop` is NUL,
      one strtok token when `stop` is the delimiter. */
  function UpTo<T(==)>(s: seq<T>, stop: T): (r: seq<T>)
    ensures r <= s && stop !in r
    ensures |r| < |s| ==> s[|r|] == stop
  {
    if s == [] || s[0] == stop then [] else [s[0]] + UpTo(s[1..], stop)
  }

  /** Without a `stop`, the whole sequence is kept. */
  lemma UpToAbsent<T>(s: seq<T>, stop: T)
    requires stop !in s
    ensures UpTo(s, stop) == s
  {
  }

  lemma {:induction false} UpToConcat<T>(x: seq<T>, y: seq<T>, stop: T)
    ensures UpTo(x + y, stop) == if stop in x then UpTo(x, stop) else x + UpTo(y, stop)
    decreases |x|
  {
    if x == [] {
      assert x + y == y;
    } else {
      var s, t := x + y, x[1..];
      assert s[0] == x[0];
      if x[0] != stop {
        assert s[1..] == t + y;
        assert x == [x[0]] + t;
        assert (stop in x) == (stop in t);
        UpToConcat(t, y, stop);
        assert UpTo(s, stop) == [x[0]] + UpTo(t + y, stop);
        assert UpTo(x, stop) == [x[0]] + UpTo(t, stop);
      }
    }
  }

  /** A path component as strtok returns it: non-empty and free of '/'. */
  predicate IsName(t: string) { t != [] && '/' !in t }

  /** The non-empty '/'-separated components of `s`, in order: what a strtok
      loop with delimiter "/" yields, and what the kernel walks. */
  function Tokens(s: string): (ts: seq<string>)
    ensures forall i :: 0 <= i < |ts| ==> IsName(ts[i])
    decreases |s|
  {
    if s == [] then []
    else if s[0] == '/' then Tokens(s[1..])
    else
      var w := UpTo(s, '/');
      [w] + Tokens(s[|w|..])
  }

  lemma TokensOfName(t: string)
    requires IsName(t)
    ensures Tokens(t) == [t]
  {
    assert UpTo(t, '/') == t;
    assert t[|t|..] == [];
  }

  /** Tokens of a string that starts with a name-character: the first word,
      then the tokens after it. */
  lemma TokensUnfold(s: string)
    requires s != [] && s[0] != '/'
    ensures Tokens(s) == [UpTo(s, '/')] + Tokens(s[|UpTo(s, '/')|..])
  {
  }

  /** A separator splits the token sequence: repeated, leading and trailing
      slashes contribute nothing. */
  lemma {:induction false} TokensAppend(a: string, b: string)
    ensures Tokens(a + "/" + b) == Tokens(a) + Tokens(b)
    decreases |a|
  {
    var s := a + "/" + b;
    if a == [] {
      assert s == "/" + b;
      assert s[1..] == b;
    } else if a[0] == '/' {
      assert s[0] == '/';
      assert s[1..] == a[1..] + "/" + b;
      TokensAppend(a[1..], b);
    } else {
      var wa := UpTo(a, '/');
      var ra := a[|wa|..];
      WordOfAppend(a, b);
      assert s[0] == a[0];
      TokensUnfold(s);
      TokensUnfold(a);
      TokensAppend(ra, b);
      assert s[|wa|..] == ra + "/" + b;
    }
  }

  lemma WordOfAppend(a: string, b: string)
    ensures UpTo(a + "/" + b, '/') == UpTo(a, '/')
  {
    UpToConcat(a, "/" + b, '/');
    assert UpTo("/" + b, '/') == [];
    assert a + "/" + b == a + ("/" + b);
    if '/' !in a {
      assert UpTo(a, '/') == a;
    }
  }

  lemma TrailingSlash(s: string)
    ensures Tokens(s + "/") == Tokens(s)
  {
    TokensAppend(s, "");
    assert s + "/" + "" == s + "/";
  }

  lemma LeadingSlash(s: string)
    ensures Tokens("/" + s) == Tokens(s)
  {
    assert ("/" + s)[1..] == s;
  }

  /** Components glued with single separators, built the way mkdir_p grows
      its prefix: the previous prefix, a '/', the next component. */
  function Join(ts: seq<string>): string
  {
    if ts == [] then ""
    else if |ts| == 1 then ts[0]
    else Join(ts[..|ts| - 1]) + "/" + ts[|ts| - 1]
  }

  /** Splitting undoes joining. */
  lemma {:induction false} TokensJoin(ts: seq<string>)
    requires forall i :: 0 <= i < |ts| ==> IsName(ts[i])
    ensures Tokens(Join(ts)) == ts
    decreases |ts|
  {
    if |ts| == 1 {
      TokensOfName(ts[0]);
    } else if |ts| > 1 {
      var init, last := ts[..|ts| - 1], ts[|ts| - 1];
      TokensJoin(init);
      TokensAppend(Join(init), last);
      TokensOfName(last);
      assert init + [last] == ts;
    }
  }

  /** A join of components never starts with a separator. */
  lemma {:induction false} JoinHead(ts: seq<string>)
    requires ts != [] && forall i :: 0 <= i < |ts| ==> IsName(ts[i])
    ensures IsName(ts[0]) && Join(ts) != [] && Join(ts)[0] == ts[0][0] && Join(ts)[0] != '/'
    decreases |ts|
  {
    if |ts| > 1 {
      var init := ts[..|ts| - 1];
      JoinHead(init);
      assert Join(ts)[0] == Join(init)[0];
    }
  }

  /** One strtok(_, "/") step on the part of the string not yet scanned:
      skip delimiters, cut the token at the next delimiter and continue after
      it; None once only delimiters remain. */
  function StrTok(rest: string): (r: Option<(string, string)>)
    ensures r == None <==> Tokens(rest) == []
    ensures r.Some? ==> Tokens(rest) == [r.value.0] + Tokens(r.value.1) && |r.value.1| < |rest|
    decreases |rest|
  {
    if rest == [] then None
    else if rest[0] == '/' then StrTok(rest[1..])
    else
      var w := UpTo(rest, '/');
      if |w| < |rest| then
        assert rest[|w|..] == "/" + rest[|w| + 1..];
        Some((w, rest[|w| + 1..]))
      else
        Some((w, []))
  }

  predicate Absolute(s: string) { |s| > 0 && s[0] == '/' }

  /** Lexical lookup of components from `base`: "." stays, ".." climbs (not
      above the root), any other name descends. */
  function Normalize(base: seq<string>, ts: seq<string>): seq<string>
    decreases |ts|
  {
    if ts == [] then base
    else if ts[0] == "." then Normalize(base, ts[1..])
    else if ts[0] == ".." then Normalize(if base == [] then [] else base[..|base| - 1], ts[1..])
    else Normalize(base + [ts[0]], ts[1..])
  }

  /** The directory components a path string names, relative paths being
      taken from the working directory `cwd`. */
  function Resolve(cwd: seq<string>, s: string): seq<string>
  {
    Normalize(if Absolute(s) then [] else cwd, Tokens(s))
  }

  /** Paths that split into the same components and agree on being absolute
      name the same file. */
  lemma ResolveByTokens(cwd: seq<string>, s: string, t: string)
    requires Tokens(s) == Tokens(t) && Absolute(s) == Absolute(t)
    ensures Resolve(cwd, s) == Resolve(cwd, t)
  {
  }

  /** `s` with its trailing separators removed. */
  function TrimSlashes(s: string): string
    decreases |s|
  {
    if s != [] && s[|s| - 1] == '/' then TrimSlashes(s[..|s| - 1]) else s
  }

  /** What TrimSlashes removes is separators, all of them at the end. */
  lemma {:induction false} TrimSlashesSpec(s: string)
    ensures var r := TrimSlashes(s);
      && r <= s && (r == [] || r[|r| - 1] != '/')
      && forall i :: |r| <= i < |s| ==> s[i] == '/'
    decreases |s|
  {
    if s != [] && s[|s| - 1] == '/' {
      TrimSlashesSpec(s[..|s| - 1]);
    }
  }

  /** Index of the last '/' in `s`, or -1. */
  function LastSlash(s: string): (i: int)
    ensures -1 <= i < |s|
    decreases |s|
  {
    if s == [] then -1
    else if s[|s| - 1] == '/' then |s| - 1
    else LastSlash(s[..|s| - 1])
  }

  /** LastSlash finds the last separator, or reports that there is none. */
  lemma {:induction false} LastSlashSpec(s: string)
    ensures var i := LastSlash(s);
      && (i >= 0 ==> s[i] == '/')
      && forall j :: i < j < |s| ==> s[j] != '/'
    decreases |s|
  {
    if s != [] && s[|s| - 1] != '/' {
      LastSlashSpec(s[..|s| - 1]);
    }
  }

  /** dirname(3): the path with its last component and the separators around
      it removed; "." when nothing is left of a relative path, "/" when
      nothing is left of an absolute one. A path made of the root alone,
      such as "//a", gives "/" here where glibc keeps "//"; POSIX leaves
      that case to the implementation, and both name the root. */
  function Dirname(s: string): string
  {
    var t := TrimSlashes(s);
    if t == [] then (if s == [] then "." else "/")
    else
      var i := LastSlash(t);
      if i < 0 then "."
      else
        var u := TrimSlashes(t[..i]);
        if u == [] then "/" else u
  }

  /** The last separator of a + "/" + n, when n has none, is the one
      between them. */
  lemma {:induction false} LastSlashBefore(a: string, n: string)
    requires '/' !in n
    ensures LastSlash(a + "/" + n) == |a|
    decreases |n|
  {
    var s := a + "/" + n;
    if n != [] {
      assert s[|s| - 1] == n[|n| - 1];
      assert s[..|s| - 1] == a + "/" + n[..|n| - 1];
      LastSlashBefore(a, n[..|n| - 1]);
    }
  }

  /** dirname of a path ending in a name is what comes before the '/'. */
  lemma DirnameOfName(a: string, n: string)
    requires IsName(n) && a != [] && a[|a| - 1] != '/'
    ensures Dirname(a + "/" + n) == a
  {
    var s := a + "/" + n;
    assert s[|s| - 1] == n[|n| - 1];
    assert TrimSlashes(s) == s;
    LastSlashBefore(a, n);
    assert s[..|a|] == a;
  }

  /** dirname of a relative path is relative. */
  lemma DirnameRelative(s: string)
    requires s != [] && s[0] != '/'
    ensures !Absolute(Dirname(s))
  {
    var t := TrimSlashes(s);
    TrimSlashesSpec(s);
    if t != [] {
      var i := LastSlash(t);
      if i > 0 {
        var v := t[..i];
        TrimSlashesSpec(v);
        var u := TrimSlashes(v);
        if u != [] {
          assert u[0] == s[0];
        }
      } else if i == 0 {
        LastSlashSpec(t);
      }
    }
  }

  /** A component that names an entry: neither "." nor "..". */
  predicate Plain(t: string) { IsName(t) && t != "." && t != ".." }

  /** Plain components only descend. */
  lemma {:induction false} NormalizePlain(base: seq<string>, ts: seq<string>)
    requires forall i :: 0 <= i < |ts| ==> Plain(ts[i])
    ensures Normalize(base, ts) == base + ts
    decreases |ts|
  {
    if ts != [] {
      NormalizePlain(base + [ts[0]], ts[1..]);
      assert base + [ts[0]] + ts[1..] == base + ts;
    }
  }
}
