/**
  The protocol constants and the permission-string macros of the server's
  shared header: operation codes, status codes, creation modes and the
  PERM / PERMS rendering of mode bits as "rwxrwxrwx".
*/
module Defs {

  /* Operation codes: the first byte a client sends. */
  const READ: char := 'r'
  const WRITE: char := 'w'
  const LIST: char := 'l'

  /* Modes passed to mkdir and to open(O_CREAT): 0770 and 0660. */
  const DIRACC: bv32 := 0x1F8
  const FILEACC: bv32 := 0x1B0

  /* Status codes, sent as one 4-byte integer each. */
  const OK: int := 200
  const CREATED: int := 201
  const BADREQ: int := 400
  const NOTFOUND: int := 404
  const SERVERERROR: int := 500
  const LOCKERR: int := 501
  const STATERR: int := 502

  /* Sizes. */
  const ULONG_SLEN: nat := 19
  const PERM_LEN: nat := 9
  const BUFSIZE: nat := 1024
  const MAX_NAME_L: nat := 256

  predicate IsOp(c: char) { c == READ || c == WRITE || c == LIST }

  predicate IsStatus(code: int)
  {
    code in {OK, CREATED, BADREQ, NOTFOUND, SERVERERROR, LOCKERR, STATERR}
  }

  /** The three operation codes are distinct, and so are the seven statuses;
      the server tells them apart by equality alone. */
  lemma CodesDistinct()
    ensures READ != WRITE && READ != LIST && WRITE != LIST
    ensures |{OK, CREATED, BADREQ, NOTFOUND, SERVERERROR, LOCKERR, STATERR}| == 7
  {
  }

  /** PERM(b): the read, write and execute bits 4, 2, 1 of `b` as "rwx",
      a '-' for each bit that is clear. */
  function Perm(b: bv32): string
  {
    [if b & 4 != 0 then 'r' else '-',
     if b & 2 != 0 then 'w' else '-',
     if b & 1 != 0 then 'x' else '-']
  }

  /** PERMS(b): owner, group and other triples, from the bits 0700, 070, 07. */
  function Perms(b: bv32): string
  {
    Perm(b >> 6) + Perm(b >> 3) + Perm(b)
  }

  /** The letter PERMS shows at position i when its bit is set. */
  function Letter(i: nat): char
    requires i < 9
  {
    if i % 3 == 0 then 'r' else if i % 3 == 1 then 'w' else 'x'
  }

  /** The mode bit shown at each position: 0400 first, 01 last. */
  function Mask(i: nat): bv32
    requires i < 9
  {
    if i == 0 then 0x100 else if i == 1 then 0x80 else if i == 2 then 0x40
    else if i == 3 then 0x20 else if i == 4 then 0x10 else if i == 5 then 0x8
    else if i == 6 then 0x4 else if i == 7 then 0x2 else 0x1
  }

  /** Position i of PERMS(b) shows the bit Mask(i) of the mode: its letter
      when the bit is set, '-' when it is clear. Nine characters in all. */
  lemma PermsAt(b: bv32, i: nat)
    requires i < 9
    ensures |Perms(b)| == PERM_LEN
    ensures Perms(b)[i] == if b & Mask(i) != 0 then Letter(i) else '-'
  {
    PermsDisplay(b);
    if i == 0 {} else if i == 1 {} else if i == 2 {} else if i == 3 {}
    else if i == 4 {} else if i == 5 {} else if i == 6 {} else if i == 7 {} else {}
  }

  /** PERMS(b) character by character. */
  lemma PermsDisplay(b: bv32)
    ensures Perms(b) == [
      if b & 0x100 != 0 then 'r' else '-', if b & 0x80 != 0 then 'w' else '-', if b & 0x40 != 0 then 'x' else '-',
      if b & 0x20 != 0 then 'r' else '-', if b & 0x10 != 0 then 'w' else '-', if b & 0x8 != 0 then 'x' else '-',
      if b & 0x4 != 0 then 'r' else '-', if b & 0x2 != 0 then 'w' else '-', if b & 0x1 != 0 then 'x' else '-']
  {
    assert ((b >> 6) & 4 != 0) == (b & 0x100 != 0);
    assert ((b >> 6) & 2 != 0) == (b & 0x80 != 0);
    assert ((b >> 6) & 1 != 0) == (b & 0x40 != 0);
    assert ((b >> 3) & 4 != 0) == (b & 0x20 != 0);
    assert ((b >> 3) & 2 != 0) == (b & 0x10 != 0);
    assert ((b >> 3) & 1 != 0) == (b & 0x8 != 0);
  }

  /** Only the nine permission bits are shown: type, setuid, setgid and
      sticky bits do not change the string. */
  lemma PermsMasked(b: bv32)
    ensures Perms(b) == Perms(b & 0x1FF)
  {
    forall i: nat | i < 9 ensures Perms(b)[i] == Perms(b & 0x1FF)[i] {
      PermsAt(b, i);
      PermsAt(b & 0x1FF, i);
      MaskInside(b, i);
    }
  }

  lemma MaskInside(b: bv32, i: nat)
    requires i < 9
    ensures (b & 0x1FF) & Mask(i) == b & Mask(i)
  {
    var m := Mask(i);
    assert m & 0x1FF == m;
    assert (b & 0x1FF) & m == b & (0x1FF & m);
  }

  /** The worked example of the header: mode 0765 is "rwxrw-r-x". */
  lemma PermsExample()
    ensures Perms(0x1F5) == "rwxrw-r-x"
  {
  }

  /** Reads a nine-character permission string back into mode bits. */
  function ParsePerms(s: string): (b: bv32)
    requires |s| == 9
    ensures b & !0x1FF == 0
  {
    (if s[0] != '-' then 0x100 else 0) | (if s[1] != '-' then 0x80 else 0) |
    (if s[2] != '-' then 0x40 else 0) | (if s[3] != '-' then 0x20 else 0) |
    (if s[4] != '-' then 0x10 else 0) | (if s[5] != '-' then 0x8 else 0) |
    (if s[6] != '-' then 0x4 else 0) | (if s[7] != '-' then 0x2 else 0) |
    (if s[8] != '-' then 0x1 else 0)
  }

  /** A string PERMS can produce: each position its letter or '-'. */
  predicate IsPermString(s: string)
  {
    |s| == 9 && forall i :: 0 <= i < 9 ==> s[i] == '-' || s[i] == Letter(i)
  }

  /** PERMS loses exactly the bits outside 0777 ... */
  lemma ParsePermsOfPerms(b: bv32)
    ensures IsPermString(Perms(b))
    ensures ParsePerms(Perms(b)) == b & 0x1FF
  {
    forall i: nat | i < 9 ensures Perms(b)[i] == '-' || Perms(b)[i] == Letter(i) {
      PermsAt(b, i);
    }
  }

  /** The bit Mask(i) of a parsed string is set exactly when position i
      is not '-'. */
  lemma ParsePermsBit(s: string, i: nat)
    requires |s| == 9 && i < 9
    ensures (ParsePerms(s) & Mask(i) != 0) == (s[i] != '-')
  {
    ParseOwnerBits(s);
    ParseGroupBits(s);
    ParseOtherBits(s);
    if i == 0 {} else if i == 1 {} else if i == 2 {} else if i == 3 {}
    else if i == 4 {} else if i == 5 {} else if i == 6 {} else if i == 7 {} else {}
  }

  /** The owner bits 0400, 0200, 0100 come from positions 0, 1, 2 ... */
  lemma ParseOwnerBits(s: string)
    requires |s| == 9
    ensures var b := ParsePerms(s);
      && (b & 0x100 != 0 <==> s[0] != '-') && (b & 0x80 != 0 <==> s[1] != '-') && (b & 0x40 != 0 <==> s[2] != '-')
  {
  }

  /** ... the group bits 040, 020, 010 from positions 3, 4, 5 ... */
  lemma ParseGroupBits(s: string)
    requires |s| == 9
    ensures var b := ParsePerms(s);
      && (b & 0x20 != 0 <==> s[3] != '-') && (b & 0x10 != 0 <==> s[4] != '-') && (b & 0x8 != 0 <==> s[5] != '-')
  {
  }

  /** ... and the other bits 04, 02, 01 from positions 6, 7, 8. */
  lemma ParseOtherBits(s: string)
    requires |s| == 9
    ensures var b := ParsePerms(s);
      && (b & 0x4 != 0 <==> s[6] != '-') && (b & 0x2 != 0 <==> s[7] != '-') && (b & 0x1 != 0 <==> s[8] != '-')
  {
  }

  /** ... and every permission string is the rendering of its own bits. */
  lemma PermsOfParsePerms(s: string)
    requires IsPermString(s)
    ensures Perms(ParsePerms(s)) == s
  {
    forall i: nat | i < 9 ensures (ParsePerms(s) & Mask(i) != 0) == (s[i] != '-') {
      ParsePermsBit(s, i);
    }
    PermsFromBits(ParsePerms(s), s);
  }

  /** Mode bits that agree with a permission string position by position
      render as that string. */
  lemma PermsFromBits(b: bv32, s: string)
    requires IsPermString(s)
    requires forall i: nat :: i < 9 ==> (b & Mask(i) != 0) == (s[i] != '-')
    ensures Perms(b) == s
  {
    forall i: nat | i < 9 ensures Perms(b)[i] == s[i] {
      PermsAt(b, i);
    }
  }
}
