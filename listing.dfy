/**
  ls_la: the long listing of a directory, one line per entry whose stat
  succeeds, in the order readdir returns them:
    type, PERMS(mode), link count, owner, group, size, time, name.
  User and group names, the formatted time and the enumeration itself are
  inputs; the numeric fallbacks and the column layout are modelled.
*/
module Ls {
  import opened Base
  import opened Defs

  /** What a successful stat of an entry reports, with the strftime
      rendering of its modification time. */
  datatype Stat = Stat(mode: bv32, nlink: nat, uid: nat, gid: nat, size: nat, mtime: CString)

  /** One readdir result: its name, whether d_type is DT_DIR, the outcome of
      stat on it, and the outcome of the getpwuid / getgrgid lookups. */
  datatype Entry = Entry(
    name: CString,
    isDir: bool,
    stat: Option<Stat>,
    owner: Option<CString>,
    group: Option<CString>)

  /* ---------------------------------------------------------------------
     Number formatting (%u, %lu)
     --------------------------------------------------------------------- */

  function Digit(d: nat): char
    requires d < 10
  {
    (48 + d) as char
  }

  predicate IsDigit(c: char) { '0' <= c <= '9' }

  /** The decimal numeral of n, without leading zeros. */
  function Decimal(n: nat): (s: string)
    ensures s != [] && forall i :: 0 <= i < |s| ==> IsDigit(s[i])
    ensures |s| > 1 ==> s[0] != '0'
    decreases n
  {
    if n < 10 then [Digit(n)] else Decimal(n / 10) + [Digit(n % 10)]
  }

  function DigitValue(c: char): nat
    requires IsDigit(c)
  {
    c as int - 48
  }

  /** Reads a numeral back. */
  function ParseDecimal(s: string): nat
    requires forall i :: 0 <= i < |s| ==> IsDigit(s[i])
    decreases |s|
  {
    if s == [] then 0 else ParseDecimal(s[..|s| - 1]) * 10 + DigitValue(s[|s| - 1])
  }

  lemma {:induction false} DecimalRoundTrip(n: nat)
    ensures ParseDecimal(Decimal(n)) == n
    decreases n
  {
    if n >= 10 {
      DecimalRoundTrip(n / 10);
      var s := Decimal(n);
      assert s[..|s| - 1] == Decimal(n / 10);
    }
  }

  /* ---------------------------------------------------------------------
     Column layout (%2lu, %-8s, %8lu)
     --------------------------------------------------------------------- */

  function Spaces(n: nat): (s: string)
    ensures |s| == n && forall i :: 0 <= i < n ==> s[i] == ' '
  {
    seq(n, _ => ' ')
  }

  /** Right-aligned in a field of `w` characters; a longer text is kept whole. */
  function PadLeft(s: string, w: nat): (r: string)
    ensures |r| == if |s| < w then w else |s|
    ensures r[|r| - |s|..] == s && forall i :: 0 <= i < |r| - |s| ==> r[i] == ' '
  {
    if |s| < w then Spaces(w - |s|) + s else s
  }

  /** Left-aligned in a field of `w` characters; a longer text is kept whole. */
  function PadRight(s: string, w: nat): (r: string)
    ensures |r| == if |s| < w then w else |s|
    ensures r[..|s|] == s && forall i :: |s| <= i < |r| ==> r[i] == ' '
  {
    if |s| < w then s + Spaces(w - |s|) else s
  }

  /* ---------------------------------------------------------------------
     One line
     --------------------------------------------------------------------- */

  function TypeChar(isDir: bool): char { if isDir then 'd' else '-' }

  /** The owner column: the user name copied into a MAX_NAME_L buffer
      (at most MAX_NAME_L - 1 characters), or the decimal uid when the
      lookup fails. */
  function OwnerName(e: Entry, st: Stat): string
  {
    match e.owner
    case Some(n) => n[..Min(|n|, MAX_NAME_L - 1)]
    case None => Decimal(st.uid)
  }

  function GroupName(e: Entry, st: Stat): string
  {
    match e.group
    case Some(n) => n[..Min(|n|, MAX_NAME_L - 1)]
    case None => Decimal(st.gid)
  }

  /** The columns between the permission bits and the name:
      " %2lu %-8s %-8s %8lu %s". */
  function Columns(e: Entry, st: Stat): (r: string)
    ensures r != [] && r[0] == ' '
  {
    " " + PadLeft(Decimal(st.nlink), 2)
      + " " + PadRight(OwnerName(e, st), 8)
      + " " + PadRight(GroupName(e, st), 8)
      + " " + PadLeft(Decimal(st.size), 8)
      + " " + st.mtime
  }

  /** "%c%c%c%c%c%c%c%c%c%c %2lu %-8s %-8s %8lu %s %s\n" */
  function Line(e: Entry, st: Stat): string
  {
    [TypeChar(e.isDir)] + Perms(st.mode) + Columns(e, st) + (" " + e.name + "\n")
  }

  /** The line of an entry, empty when its stat fails. */
  function LineOf(e: Entry): string
  {
    match e.stat
    case None => ""
    case Some(st) => Line(e, st)
  }

  /** A line starts with 'd' exactly for a directory, then shows the nine
      permission bits (and only them) before a blank, and ends with a blank,
      the entry's name and a newline. */
  lemma LineShape(e: Entry, st: Stat)
    ensures var l := Line(e, st);
      && |l| > 11
      && (l[0] == 'd' <==> e.isDir) && (l[0] == '-' <==> !e.isDir)
      && l[1..10] == Perms(st.mode) && ParsePerms(l[1..10]) == st.mode & 0x1FF
      && l[10] == ' '
      && l[|l| - |e.name| - 2..] == " " + e.name + "\n"
  {
    PermsAt(st.mode, 0);
    ParsePermsOfPerms(st.mode);
    Layout([TypeChar(e.isDir)], Perms(st.mode), Columns(e, st), " " + e.name + "\n");
  }

  /** Where the parts of a line sit in it. */
  lemma Layout(t: string, p: string, cols: string, tail: string)
    requires |t| == 1 && |p| == 9 && cols != [] && cols[0] == ' '
    ensures var l := t + p + cols + tail;
      && |l| == 10 + |cols| + |tail| && l[0] == t[0] && l[1..10] == p && l[10] == ' '
      && l[|l| - |tail|..] == tail
  {
    var l := t + p + cols + tail;
    assert l[1..10] == p by {
      assert l == t + p + (cols + tail);
    }
  }

  /** When the user or group lookup fails, the column holds the numeric id,
      and that numeral reads back as the id. */
  lemma NumericFallback(e: Entry, st: Stat)
    ensures e.owner == None ==> OwnerName(e, st) == Decimal(st.uid) && ParseDecimal(OwnerName(e, st)) == st.uid
    ensures e.group == None ==> GroupName(e, st) == Decimal(st.gid) && ParseDecimal(GroupName(e, st)) == st.gid
    ensures e.owner.Some? ==> OwnerName(e, st) <= e.owner.value && |OwnerName(e, st)| < MAX_NAME_L
  {
    DecimalRoundTrip(st.uid);
    DecimalRoundTrip(st.gid);
  }

  /* ---------------------------------------------------------------------
     The whole listing
     --------------------------------------------------------------------- */

  /** f applied to each element, the results concatenated in order. */
  function ConcatMap<T>(xs: seq<T>, f: T -> string): string
    decreases |xs|
  {
    if xs == [] then "" else ConcatMap(xs[..|xs| - 1], f) + f(xs[|xs| - 1])
  }

  lemma {:induction false} ConcatMapAppend<T>(a: seq<T>, b: seq<T>, f: T -> string)
    ensures ConcatMap(a + b, f) == ConcatMap(a, f) + ConcatMap(b, f)
    decreases |b|
  {
    if b == [] {
      assert a + b == a;
    } else {
      var b0 := b[..|b| - 1];
      ConcatMapAppend(a, b0, f);
      assert (a + b)[..|a + b| - 1] == a + b0;
      assert (a + b)[|a + b| - 1] == b[|b| - 1];
    }
  }

  /** The lines of the entries, in enumeration order. */
  function Listing(es: seq<Entry>): string
  {
    ConcatMap(es, LineOf)
  }

  /** Listing more entries appends to what was already listed. */
  lemma ListingAppend(a: seq<Entry>, b: seq<Entry>)
    ensures Listing(a + b) == Listing(a) + Listing(b)
  {
    ConcatMapAppend(a, b, LineOf);
  }

  /** One more entry adds its own line at the end. */
  lemma ListingSnoc(es: seq<Entry>, i: nat)
    requires i < |es|
    ensures Listing(es[..i + 1]) == Listing(es[..i]) + LineOf(es[i])
  {
    assert es[..i + 1][..i] == es[..i];
  }

  /** An element mapped to nothing leaves no trace. */
  lemma ConcatMapSkip<T>(a: seq<T>, x: T, b: seq<T>, f: T -> string)
    requires f(x) == ""
    ensures ConcatMap(a + [x] + b, f) == ConcatMap(a + b, f)
  {
    ConcatMapAppend(a + [x], b, f);
    ConcatMapAppend(a, [x], f);
    ConcatMapAppend(a, b, f);
    assert [x][..0] == [];
    assert ConcatMap([x], f) == ConcatMap([], f) + f(x);
  }

  /** An entry whose stat fails leaves no trace. */
  lemma SkipsFailedStat(a: seq<Entry>, e: Entry, b: seq<Entry>)
    requires e.stat == None
    ensures Listing(a + [e] + b) == Listing(a + b)
  {
    ConcatMapSkip(a, e, b, LineOf);
  }

  /** The listing is empty exactly when no entry could be stat'ed. */
  lemma {:induction false} EmptyListing(es: seq<Entry>)
    ensures Listing(es) == "" <==> forall i :: 0 <= i < |es| ==> es[i].stat == None
    decreases |es|
  {
    if es != [] {
      var init := es[..|es| - 1];
      EmptyListing(init);
      var e := es[|es| - 1];
      if e.stat.Some? {
        LineShape(e, e.stat.value);
      }
    }
  }

  /** The buffer ls_la hands back: NULL before the first line. */
  function AsBuffer(s: string): Option<string>
  {
    if s == "" then None else Some(s)
  }

  /** The readdir loop: a line appended to the buffer for each entry that
      stat accepts; the buffer is allocated at the first line. `dir` is None
      when opendir fails; `closeOk` is the outcome of closedir. */
  method LsLa(dir: Option<seq<Entry>>, closeOk: bool) returns (r: int, buffer: Option<string>)
    ensures dir == None ==> r == -1 && buffer == None
    ensures dir.Some? ==> buffer == AsBuffer(Listing(dir.value)) && r == (if closeOk then 0 else -1)
  {
    buffer := None;
    if dir == None {
      return -1, None;
    }
    var es := dir.value;
    var i := 0;
    while i < |es|
      invariant 0 <= i <= |es|
      invariant buffer == AsBuffer(Listing(es[..i]))
    {
      ListingSnoc(es, i);
      buffer := AddLine(buffer, Listing(es[..i]), es[i]);
      i := i + 1;
    }
    assert es[..i] == es;
    r := if closeOk then 0 else -1;
  }

  /** One turn of the readdir loop: a stat'ed entry's line is sprintf'ed
      into the buffer, malloc'ed for the first line and realloc'ed after. */
  method AddLine(buffer: Option<string>, ghost text: string, e: Entry) returns (b: Option<string>)
    requires buffer == AsBuffer(text)
    ensures b == AsBuffer(text + LineOf(e))
  {
    b := buffer;
    if e.stat.Some? {
      var st := e.stat.value;
      var line := Line(e, st);
      assert line[0] == TypeChar(e.isDir);
      if b == None {
        b := Some("" + line);
      } else {
        b := Some(b.value + line);
      }
    } else {
      assert text + "" == text;
    }
  }
}
