/**
  What crosses a connection, as the handlers see it: the statuses, lengths
  and payloads the server sends, and what its receives deliver. Lengths and
  statuses are C ints, each written as its four bytes in memory.
*/
module Wire {
  import opened Base
  import opened Defs
  import Net

  datatype Event =
    | Status(code: int)          // notify_status
    | Len(n: int)                // the int sent before a payload
    | Bytes(data: seq<byte>)     // payload the server sends
    | GotOp(op: char)            // the one-byte request
    | GotPath(field: string)     // the path field, as its one recv delivered it
    | GotLen(n: int)             // the length the client announces
    | GotBytes(data: seq<byte>)  // payload the server receives

  /** The byte a character of a listing or a name stands for. */
  function ToBytes(s: string): (b: seq<byte>)
    ensures |b| == |s|
  {
    seq(|s|, i requires 0 <= i < |s| => (s[i] as int % 256) as byte)
  }

  /** The bytes the server writes for one event: a status or a length as
      the four bytes of its int (notify_status and the xwrite_all of
      &f_size or &buf_siz), a payload as itself; what it receives, nothing. */
  function SentOf(e: Event): seq<byte>
  {
    match e
    case Status(code) => Net.IntBytes(code)
    case Len(n) => Net.IntBytes(n)
    case Bytes(data) => data
    case _ => []
  }

  /** The byte stream the server sends over a trace. */
  function Sent(t: seq<Event>): seq<byte>
    decreases |t|
  {
    if t == [] then [] else SentOf(t[0]) + Sent(t[1..])
  }

  /** A reply of a status, a length and a payload reads back, four bytes at
      a time, as the two C ints and then the payload. */
  lemma SentDecodes(code: int, n: int, data: seq<byte>)
    ensures var s := Sent([Status(code), Len(n), Bytes(data)]);
      && |s| == 8 + |data|
      && Net.IntOfBytes(s[..4]) == Net.Int32(code)
      && Net.IntOfBytes(s[4..8]) == Net.Int32(n)
      && s[8..] == data
  {
    var t := [Status(code), Len(n), Bytes(data)];
    assert t[1..] == [Len(n), Bytes(data)] && t[1..][1..] == [Bytes(data)] && t[1..][1..][1..] == [];
    var s := Net.IntBytes(code) + (Net.IntBytes(n) + (data + []));
    assert Sent(t[1..][1..]) == data + Sent([]);
    assert Sent(t[1..]) == Net.IntBytes(n) + Sent(t[1..][1..]);
    assert Sent(t) == s;
    assert s[..4] == Net.IntBytes(code);
    assert s[4..8] == Net.IntBytes(n);
    assert s[8..] == data;
    Net.IntRoundTrip(code);
    Net.IntRoundTrip(n);
  }

  /** What the event at index i may follow: the path field comes right
      after the OK that acknowledges an op; the server sends a length only
      right after OK and a payload only right after that length, never
      longer than it; it takes a length only right after OK or CREATED and
      a payload only right after that length, never longer than it. Every
      status is one of the protocol's codes. */
  predicate FramedAt(t: seq<Event>, i: nat)
    requires i < |t|
  {
    match t[i]
    case Status(code) => IsStatus(code)
    case Len(_) => i > 0 && t[i - 1] == Status(OK)
    case Bytes(data) => i > 0 && t[i - 1].Len? && (t[i - 1].n >= 0 ==> |data| <= t[i - 1].n)
    case GotOp(_) => i == 0
    case GotPath(_) => i >= 2 && t[i - 1] == Status(OK) && t[i - 2].GotOp?
    case GotLen(_) => i > 0 && (t[i - 1] == Status(OK) || t[i - 1] == Status(CREATED))
    case GotBytes(data) => i > 0 && t[i - 1].GotLen? && |data| <= t[i - 1].n
  }

  predicate Framed(t: seq<Event>)
  {
    forall i :: 0 <= i < |t| ==> FramedAt(t, i)
  }

  /** A framed start followed by framed replies that begin with a status is
      framed. */
  lemma FramedCat(a: seq<Event>, b: seq<Event>)
    requires Framed(a) && Framed(b) && (b != [] ==> b[0].Status?)
    ensures Framed(a + b)
  {
    forall i | 0 <= i < |a + b| ensures FramedAt(a + b, i) {
      if i < |a| {
        assert FramedAt(a, i);
        assert (a + b)[i] == a[i];
        if i > 0 { assert (a + b)[i - 1] == a[i - 1]; }
        if i > 1 { assert (a + b)[i - 2] == a[i - 2]; }
      } else {
        var j := i - |a|;
        assert FramedAt(b, j);
        assert (a + b)[i] == b[j];
        if j > 0 { assert (a + b)[i - 1] == b[j - 1]; }
        if j > 1 { assert (a + b)[i - 2] == b[j - 2]; }
      }
    }
  }
}
