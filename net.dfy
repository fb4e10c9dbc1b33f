/**
  The socket helpers: xrecv and xwrite retry a system call interrupted by a
  signal (EINTR); xwrite_all repeats xwrite until the whole buffer is out or
  a call fails.

  The peer and the kernel are a script: each recv, write or sendfile on the
  socket takes the next outcome, which is either a failure with an errno or a
  transfer of at most `room` bytes (how much of the peer's data has arrived,
  or how much the send buffer takes). A spent script is a connection the peer
  has reset.
*/
module Net {
  import opened Base

  const EINTR := 4
  const EPIPE := 32
  const ECONNRESET := 104

  type pos = n: int | n > 0 witness 1

  datatype IoResult = Failed(errno: int) | Transfer(room: pos)

  /** The connection as the server's calls see it: the outcomes still to
      come, the bytes the peer has sent and the server not yet received, the
      bytes the server has sent, and errno after the last call. */
  datatype Chan = Chan(script: seq<IoResult>, inbound: seq<byte>, outbound: seq<byte>, errno: int)

  /* ---------------------------------------------------------------------
     The system calls
     --------------------------------------------------------------------- */

  /** write(2) (and sendfile(2)) of `buf` on the socket. */
  function SysWrite(c: Chan, buf: seq<byte>): (res: (int, Chan))
    ensures c.script == [] ==> res == (-1, c.(errno := EPIPE))
    ensures c.script != [] ==> res.1.script == c.script[1..]
    ensures res.0 == -1 || (0 <= res.0 <= |buf| && (|buf| > 0 ==> res.0 > 0))
    ensures res.1.inbound == c.inbound
    ensures res.1.outbound == c.outbound + (if res.0 == -1 then [] else buf[..res.0])
  {
    if c.script == [] then (-1, c.(errno := EPIPE))
    else match c.script[0]
      case Failed(e) => (-1, c.(script := c.script[1..], errno := e))
      case Transfer(room) =>
        var n := Min(room, |buf|);
        (n, c.(script := c.script[1..], outbound := c.outbound + buf[..n]))
  }

  /** recv(2) of at most `len` bytes: 0 when the peer has nothing more. */
  function SysRecv(c: Chan, len: nat): (res: (int, seq<byte>, Chan))
    ensures c.script == [] ==> res == (-1, [], c.(errno := ECONNRESET))
    ensures c.script != [] ==> res.2.script == c.script[1..]
    ensures res.2.outbound == c.outbound
  {
    if c.script == [] then (-1, [], c.(errno := ECONNRESET))
    else match c.script[0]
      case Failed(e) => (-1, [], c.(script := c.script[1..], errno := e))
      case Transfer(room) =>
        var n := Min(room, Min(len, |c.inbound|));
        (n, c.inbound[..n], c.(script := c.script[1..], inbound := c.inbound[n..]))
  }

  /* ---------------------------------------------------------------------
     What the helpers compute
     --------------------------------------------------------------------- */

  /** xwrite: the first write that is not interrupted. The result is -1
      with errno other than EINTR, or a count of bytes that went out, all
      from the front of `buf`. */
  function XWriteOf(c: Chan, buf: seq<byte>): (res: (int, Chan))
    ensures res.0 == -1 || (0 <= res.0 <= |buf| && (|buf| > 0 ==> res.0 > 0))
    ensures res.0 == -1 ==> res.1.errno != EINTR
    ensures res.1.inbound == c.inbound
    ensures res.1.outbound == c.outbound + (if res.0 == -1 then [] else buf[..res.0])
    decreases |c.script|
  {
    var (r, c1) := SysWrite(c, buf);
    if r == -1 && c1.errno == EINTR then XWriteOf(c1, buf) else (r, c1)
  }

  /** xrecv: the first recv that is not interrupted. The result is -1 with
      errno other than EINTR and nothing taken, or a count `r <= len` with
      the first `r` pending bytes delivered, in order. */
  function XRecvOf(c: Chan, len: nat): (res: (int, seq<byte>, Chan))
    ensures res.0 == -1 ==> res.1 == [] && res.2.inbound == c.inbound && res.2.errno != EINTR
    ensures res.0 != -1 ==> (0 <= res.0 <= len && res.0 <= |c.inbound|
                             && res.1 == c.inbound[..res.0] && res.2.inbound == c.inbound[res.0..])
    ensures res.2.outbound == c.outbound
    decreases |c.script|
  {
    var (r, data, c1) := SysRecv(c, len);
    if r == -1 && c1.errno == EINTR then XRecvOf(c1, len) else (r, data, c1)
  }

  /** Adds `n` bytes already written to a later outcome of xwrite_all. */
  function Shift(n: int, res: (int, Chan)): (int, Chan)
  {
    if res.0 == -1 then res else (n + res.0, res.1)
  }

  /** xwrite_all: -1 as soon as an xwrite fails, else the whole length. On
      success all of `buf` went out in order; on failure a proper prefix of
      it did. */
  function XWriteAllOf(c: Chan, buf: seq<byte>): (res: (int, Chan))
    ensures res.0 == -1 || res.0 == |buf|
    ensures res.1.inbound == c.inbound
    ensures res.0 == |buf| ==> res.1.outbound == c.outbound + buf
    ensures res.0 == -1 ==> exists k :: 0 <= k < |buf| && res.1.outbound == c.outbound + buf[..k]
    ensures buf == [] ==> res == (0, c)
    decreases |buf|
  {
    if buf == [] then (0, c)
    else
      var (r, c1) := XWriteOf(c, buf);
      if r == -1 then
        assert c1.outbound == c.outbound + buf[..0];
        (-1, c1)
      else
        var rest := XWriteAllOf(c1, buf[r..]);
        SentInOrder(c.outbound, buf, r, rest.0 == -1, rest.1.outbound);
        Shift(r, rest)
  }

  /** What went out over two calls, the first having sent buf[..r]: all of
      buf, or a proper prefix when the second call failed. */
  lemma SentInOrder(out: seq<byte>, buf: seq<byte>, r: nat, failed: bool, out1: seq<byte>)
    requires r <= |buf|
    requires !failed ==> out1 == out + buf[..r] + buf[r..]
    requires failed ==> exists k :: 0 <= k < |buf[r..]| && out1 == out + buf[..r] + buf[r..][..k]
    ensures !failed ==> out1 == out + buf
    ensures failed ==> exists k :: 0 <= k < |buf| && out1 == out + buf[..k]
  {
    if failed {
      var k :| 0 <= k < |buf[r..]| && out1 == out + buf[..r] + buf[r..][..k];
      assert buf[..r] + buf[r..][..k] == buf[..r + k];
      assert out1 == out + buf[..r + k];
    } else {
      assert buf[..r] + buf[r..] == buf;
    }
  }

  /** k interrupted calls before the outcome `s` starts with. */
  function Interrupted(k: nat): seq<IoResult>
  {
    seq(k, _ => Failed(EINTR))
  }

  /** Interruptions are invisible: xrecv after any number of them behaves as
      without them (errno was already EINTR). */
  lemma {:induction false} RecvInterruptionsInvisible(k: nat, s: seq<IoResult>, inb: seq<byte>, out: seq<byte>, len: nat)
    ensures XRecvOf(Chan(Interrupted(k) + s, inb, out, EINTR), len) == XRecvOf(Chan(s, inb, out, EINTR), len)
    decreases k
  {
    if k > 0 {
      assert (Interrupted(k) + s)[0] == Failed(EINTR);
      assert (Interrupted(k) + s)[1..] == Interrupted(k - 1) + s;
      assert SysRecv(Chan(Interrupted(k) + s, inb, out, EINTR), len).0 == -1;
      RecvInterruptionsInvisible(k - 1, s, inb, out, len);
    } else {
      assert Interrupted(k) + s == s;
    }
  }

  lemma {:induction false} WriteInterruptionsInvisible(k: nat, s: seq<IoResult>, inb: seq<byte>, out: seq<byte>, buf: seq<byte>)
    ensures XWriteOf(Chan(Interrupted(k) + s, inb, out, EINTR), buf) == XWriteOf(Chan(s, inb, out, EINTR), buf)
    decreases k
  {
    if k > 0 {
      assert (Interrupted(k) + s)[0] == Failed(EINTR);
      assert (Interrupted(k) + s)[1..] == Interrupted(k - 1) + s;
      assert SysWrite(Chan(Interrupted(k) + s, inb, out, EINTR), buf).0 == -1;
      WriteInterruptionsInvisible(k - 1, s, inb, out, buf);
    } else {
      assert Interrupted(k) + s == s;
    }
  }

  /** xwrite makes one call that counts: after any number of
      interruptions the first other outcome is returned as it is, a short
      write included, and no further write fills up the buffer. */
  lemma WriteOneCall(c: Chan, buf: seq<byte>, k: nat, o: IoResult, s: seq<IoResult>)
    requires o != Failed(EINTR) && c.script == Interrupted(k) + [o] + s && c.errno == EINTR
    ensures XWriteOf(c, buf) == SysWrite(c.(script := [o] + s), buf)
    ensures o.Transfer? ==> XWriteOf(c, buf).0 == Min(o.room, |buf|) && XWriteOf(c, buf).1.script == s
  {
    var t := [o] + s;
    assert t[0] == o && t[1..] == s;
    assert c == Chan(Interrupted(k) + t, c.inbound, c.outbound, EINTR);
    WriteAfterInterrupts(k, t, c.inbound, c.outbound, buf);
    assert c.(script := t) == Chan(t, c.inbound, c.outbound, EINTR);
  }

  lemma WriteAfterInterrupts(k: nat, t: seq<IoResult>, inb: seq<byte>, out: seq<byte>, buf: seq<byte>)
    requires t != [] && t[0] != Failed(EINTR)
    ensures XWriteOf(Chan(Interrupted(k) + t, inb, out, EINTR), buf) == SysWrite(Chan(t, inb, out, EINTR), buf)
  {
    WriteInterruptionsInvisible(k, t, inb, out, buf);
    WriteFirst(Chan(t, inb, out, EINTR), buf);
  }

  /** A first outcome other than EINTR is the result of xwrite. */
  lemma WriteFirst(c: Chan, buf: seq<byte>)
    requires c.script != [] && c.script[0] != Failed(EINTR)
    ensures XWriteOf(c, buf) == SysWrite(c, buf)
  {
  }

  /** The same for xrecv, for every outcome after the interruptions. */
  lemma RecvOneCall(c: Chan, len: nat, k: nat, o: IoResult, s: seq<IoResult>)
    requires o != Failed(EINTR) && c.script == Interrupted(k) + [o] + s && c.errno == EINTR
    ensures XRecvOf(c, len) == SysRecv(c.(script := [o] + s), len)
    ensures o.Transfer? ==> XRecvOf(c, len).0 == Min(o.room, Min(len, |c.inbound|)) && XRecvOf(c, len).2.script == s
  {
    var t := [o] + s;
    assert t[0] == o && t[1..] == s;
    assert c == Chan(Interrupted(k) + t, c.inbound, c.outbound, EINTR);
    RecvAfterInterrupts(k, t, c.inbound, c.outbound, len);
    assert c.(script := t) == Chan(t, c.inbound, c.outbound, EINTR);
  }

  lemma RecvAfterInterrupts(k: nat, t: seq<IoResult>, inb: seq<byte>, out: seq<byte>, len: nat)
    requires t != [] && t[0] != Failed(EINTR)
    ensures XRecvOf(Chan(Interrupted(k) + t, inb, out, EINTR), len) == SysRecv(Chan(t, inb, out, EINTR), len)
  {
    RecvInterruptionsInvisible(k, t, inb, out, len);
    RecvFirst(Chan(t, inb, out, EINTR), len);
  }

  /** A first outcome other than EINTR is the result of xrecv. */
  lemma RecvFirst(c: Chan, len: nat)
    requires c.script != [] && c.script[0] != Failed(EINTR)
    ensures XRecvOf(c, len) == SysRecv(c, len)
  {
  }

  /** A peer that takes everything at once: one transfer sends all of `buf`. */
  lemma WriteAllAtOnce(c: Chan, buf: seq<byte>, room: pos, s: seq<IoResult>)
    requires c.script == [Transfer(room)] + s && |buf| <= room && buf != []
    ensures XWriteAllOf(c, buf) == (|buf|, c.(script := s, outbound := c.outbound + buf))
  {
    assert c.script[1..] == s;
    assert buf[|buf|..] == [];
  }

  /** A pending message of `n <= len` bytes that arrives in one piece is
      received whole, and what follows it stays pending. */
  lemma RecvWhole(c: Chan, len: nat, msg: seq<byte>, s: seq<IoResult>)
    requires 0 < |msg| <= len && msg <= c.inbound && c.script == [Transfer(|msg| as pos)] + s
    ensures XRecvOf(c, len) == (|msg|, msg, c.(script := s, inbound := c.inbound[|msg|..]))
  {
    assert c.script[1..] == s;
    assert c.inbound[..|msg|] == msg;
  }

  /* ---------------------------------------------------------------------
     The socket
     --------------------------------------------------------------------- */

  class Socket {
    var chan: Chan

    constructor (c: Chan)
      ensures chan == c
    {
      chan := c;
    }

    /** The write system call. */
    method Send(buf: seq<byte>) returns (r: int)
      modifies this
      ensures (r, chan) == SysWrite(old(chan), buf)
    {
      r, chan := SysWrite(chan, buf).0, SysWrite(chan, buf).1;
    }

    /** The recv system call. */
    method Receive(len: nat) returns (r: int, data: seq<byte>)
      modifies this
      ensures (r, data, chan) == SysRecv(old(chan), len)
    {
      var res := SysRecv(chan, len);
      r, data, chan := res.0, res.1, res.2;
    }

    method XWrite(buf: seq<byte>) returns (ret: int)
      modifies this
      ensures (ret, chan) == XWriteOf(old(chan), buf)
    {
      ret := Send(buf);
      while ret == -1 && chan.errno == EINTR
        invariant XWriteOf(old(chan), buf) == if ret == -1 && chan.errno == EINTR then XWriteOf(chan, buf) else (ret, chan)
        decreases |chan.script| + (if ret == -1 && chan.errno == EINTR then 1 else 0)
      {
        ret := Send(buf);
      }
    }

    method XRecv(len: nat) returns (ret: int, data: seq<byte>)
      modifies this
      ensures (ret, data, chan) == XRecvOf(old(chan), len)
    {
      ret, data := Receive(len);
      while ret == -1 && chan.errno == EINTR
        invariant XRecvOf(old(chan), len) == if ret == -1 && chan.errno == EINTR then XRecvOf(chan, len) else (ret, data, chan)
        decreases |chan.script| + (if ret == -1 && chan.errno == EINTR then 1 else 0)
      {
        ret, data := Receive(len);
      }
    }

    method XWriteAll(buf: seq<byte>) returns (ret: int)
      modifies this
      ensures (ret, chan) == XWriteAllOf(old(chan), buf)
    {
      var nwrote := 0;
      var len := |buf|;
      while len > 0
        invariant 0 <= nwrote <= |buf| && nwrote + len == |buf|
        invariant XWriteAllOf(old(chan), buf) == Shift(nwrote, XWriteAllOf(chan, buf[nwrote..]))
        decreases len
      {
        ghost var before := chan;
        var r := XWrite(buf[nwrote..]);
        if r == -1 {
          return -1;
        }
        assert buf[nwrote..][r..] == buf[nwrote + r..];
        nwrote := nwrote + r;
        len := len - r;
      }
      assert buf[nwrote..] == [];
      return nwrote;
    }
  }

  /* ---------------------------------------------------------------------
     Integers on the wire
     --------------------------------------------------------------------- */

  const TWO32 := 0x1_0000_0000
  const TWO31 := 0x8000_0000

  /** The value a C int holds after conversion from `n` (two's complement,
      32 bits). */
  function Int32(n: int): (r: int)
    ensures -TWO31 <= r < TWO31
    ensures (r - n) % TWO32 == 0
  {
    var u := n % TWO32;
    if u >= TWO31 then u - TWO32 else u
  }

  /** A value that fits is kept. */
  lemma Int32Small(n: int)
    requires -TWO31 <= n < TWO31
    ensures Int32(n) == n
  {
  }

  /** The four bytes of an int in memory, least significant first: the
      model takes the host to be little-endian. */
  function IntBytes(x: int): (b: seq<byte>)
    ensures |b| == 4
  {
    var u := x % TWO32;
    [(u % 256) as byte, (u / 256 % 256) as byte, (u / 256 / 256 % 256) as byte, (u / 256 / 256 / 256 % 256) as byte]
  }

  /** The int four received bytes make. */
  function IntOfBytes(b: seq<byte>): (x: int)
    requires |b| == 4
    ensures -TWO31 <= x < TWO31
  {
    var u := b[0] as int + 256 * (b[1] as int + 256 * (b[2] as int + 256 * b[3] as int));
    if u >= TWO31 then u - TWO32 else u
  }

  /** The bytes of a 32-bit word recombine to the word. */
  lemma Horner(u: int)
    requires 0 <= u < TWO32
    ensures u == u % 256 + 256 * (u / 256 % 256 + 256 * (u / 256 / 256 % 256 + 256 * (u / 256 / 256 / 256 % 256)))
  {
    var u1 := u / 256;
    var u2 := u1 / 256;
    var u3 := u2 / 256;
    assert u == u % 256 + 256 * u1;
    assert u1 == u1 % 256 + 256 * u2;
    assert u2 == u2 % 256 + 256 * u3;
    assert u3 < 256 by {
      assert u1 < 0x100_0000;
      assert u2 < 0x1_0000;
    }
  }

  /** An int sent by the server reads back as the same int. */
  lemma IntRoundTrip(x: int)
    ensures IntOfBytes(IntBytes(x)) == Int32(x)
  {
    var u := x % TWO32;
    Horner(u);
  }
}
