/**
 `basic_sockbuf<char>`: a stream buffer over a descriptor, with fixed get and put arrays and the
 pointers into them kept as indices.  A null array is an area that has been shut down.
 */
module SockStream {
  import opened Octets
  import opened Kernel
  import PutSide
  import GetSide
  import Lifetime

  /** What the copies of one socket buffer share: the descriptor, its count and its settings. */
  class SockCnt {
    var cnt: int
    var stmo: int
    var rtmo: int
    var oob: bool
    var gend: nat
    var pend: nat
    var outgoing: Outgoing
    var incoming: Incoming
    var closes: nat
    ghost var live: nat
    ghost var failedFlushes: nat

    constructor (out: Outgoing, inc: Incoming)
      ensures cnt == 1 && stmo == rtmo == -1 && !oob
      ensures outgoing == out && incoming == inc
      ensures Life() == Lifetime.OPENED
    {
      cnt, stmo, rtmo, oob := 1, -1, -1, false;
      gend, pend, outgoing, incoming := 0, 0, out, inc;
      closes, live, failedFlushes := 0, 1, 0;
    }

    ghost function Life(): Lifetime.Life
      reads this
    {
      Lifetime.Life(cnt, closes, live, failedFlushes)
    }
  }

  /** `bytes` written over `memory` from index `off`. */
  function Overlay(memory: seq<byte>, off: nat, bytes: seq<byte>): (r: seq<byte>)
    requires off + |bytes| <= |memory|
    ensures |r| == |memory|
  {
    memory[..off] + bytes + memory[off + |bytes|..]
  }

  lemma OverlayIs(memory: seq<byte>, off: nat, bytes: seq<byte>, now: seq<byte>)
    requires off + |bytes| <= |memory| == |now|
    requires forall i :: 0 <= i < |now| ==> now[i] == if off <= i < off + |bytes| then bytes[i - off] else memory[i]
    ensures now == Overlay(memory, off, bytes)
  {
  }

  lemma OverlayTwice(memory: seq<byte>, off: nat, a: seq<byte>, b: seq<byte>)
    requires off + |a| + |b| <= |memory|
    ensures Overlay(Overlay(memory, off, a), off + |a|, b) == Overlay(memory, off, a + b)
  {
  }

  /** The effect of `xsgetn(n)` on the get area and on the memory it copies to. */
  ghost predicate Received(g: GetSide.GetArea, n: nat, before: seq<byte>, off: nat,
                           g': GetSide.GetArea, after: seq<byte>, r: Call)
    requires g.Valid() && off + n <= |before|
  {
    var (h, bytes, c) := GetSide.Xsgetn(g, n);
    g' == h && r == c && after == Overlay(before, off, bytes)
  }

  lemma ReceivedAtOnce(g: GetSide.GetArea, n: nat, before: seq<byte>, off: nat,
                       g1: GetSide.GetArea, after: seq<byte>)
    requires g.Valid() && off + n <= |before| && n <= |g.unread|
    requires g1 == g.(unread := g.unread[n..]) && after == Overlay(before, off, g.unread[..n])
    ensures Received(g, n, before, off, g1, after, Returned(n))
  {
  }

  /** The step between two recursive calls of `xsgetn`: all that is buffered is copied, then `underflow`. */
  ghost predicate Refilled(g: GetSide.GetArea, before: seq<byte>, off: nat,
                           g1: GetSide.GetArea, mid: seq<byte>, u: Call)
    requires g.Valid() && off + |g.unread| <= |before|
  {
    (g1, u) == GetSide.Underflow(g.(unread := [])) && mid == Overlay(before, off, g.unread)
  }

  lemma ReceivedLast(g: GetSide.GetArea, n: nat, before: seq<byte>, off: nat,
                     g1: GetSide.GetArea, mid: seq<byte>, u: Call)
    requires g.Valid() && off + n <= |before| && |g.unread| < n
    requires Refilled(g, before, off, g1, mid, u) && (u.Threw? || u.value == EOF)
    ensures Received(g, n, before, off, g1, mid, if u.Threw? then u else Returned(|g.unread|))
  {
    hide GetSide.Underflow, GetSide.Xsgetn, Overlay;
    GetSide.XsgetnUnfold(g, n, g1, u);
  }

  lemma ReceivedThen(g: GetSide.GetArea, n: nat, before: seq<byte>, off: nat,
                     g1: GetSide.GetArea, mid: seq<byte>, u: Call,
                     g2: GetSide.GetArea, after: seq<byte>, r: Call)
    requires g.Valid() && off + n <= |before| && |g.unread| < n
    requires Refilled(g, before, off, g1, mid, u) && u.Returned? && u.value != EOF
    requires Received(g1, n - |g.unread|, mid, off + |g.unread|, g2, after, r)
    ensures Received(g, n, before, off, g2, after, if r.Threw? then r else Returned(|g.unread| + r.value))
  {
    hide GetSide.Underflow, GetSide.Xsgetn, Overlay;
    GetSide.XsgetnUnfold(g, n, g1, u);
    OverlayTwice(before, off, g.unread, GetSide.Xsgetn(g1, n - |g.unread|).1);
  }

  class SockBuf {
    const rep: SockCnt
    var gbuf: array?<byte>
    var gptr: nat
    var egptr: nat
    var pbuf: array?<byte>
    var pptr: nat
    var epptr: nat

    ghost predicate Valid()
      reads this, rep
    {
      PutValid() && GetValid() && (gbuf != null && pbuf != null ==> gbuf != pbuf)
    }

    ghost predicate PutValid()
      reads this`pbuf, this`pptr, this`epptr, rep`pend
    {
      && (pbuf == null ==> pptr == epptr == 0)
      && (pbuf != null ==> pptr <= epptr == rep.pend == pbuf.Length && 0 < pbuf.Length)
    }

    /** The get pointer may be one beyond the end: the file client moves it there when it finds no line end. */
    ghost predicate GetValid()
      reads this`gbuf, this`gptr, this`egptr, rep`gend
    {
      && (gbuf == null ==> gptr == egptr == 0)
      && (gbuf != null ==> gptr <= egptr + 1 && egptr <= rep.gend == gbuf.Length && 0 < gbuf.Length)
    }

    ghost function Put(): (p: PutSide.PutArea)
      requires PutValid()
      reads this`pbuf, this`pptr, this`epptr, rep`pend, rep`outgoing, rep`stmo, pbuf
      ensures p.Valid()
    {
      if pbuf == null then PutSide.PutArea(0, [], rep.outgoing, rep.stmo)
      else PutSide.PutArea(pbuf.Length, pbuf[..pptr], rep.outgoing, rep.stmo)
    }

    ghost function Get(): (g: GetSide.GetArea)
      requires GetValid()
      reads this`gbuf, this`gptr, this`egptr, rep`gend, rep`incoming, rep`rtmo, rep`oob, gbuf
      ensures g.Valid()
    {
      if gbuf == null then GetSide.GetArea(0, [], rep.incoming, rep.rtmo, rep.oob)
      else GetSide.GetArea(gbuf.Length, if gptr <= egptr then gbuf[gptr..egptr] else [],
                           rep.incoming, rep.rtmo, rep.oob)
    }

    constructor (out: Outgoing, inc: Incoming, bufsiz: nat)
      requires bufsiz > 0
      ensures Valid() && fresh(rep) && fresh(gbuf) && fresh(pbuf)
      ensures Put() == PutSide.PutArea(bufsiz, [], out, -1)
      ensures Get() == GetSide.GetArea(bufsiz, [], inc, -1, false)
      ensures rep.Life() == Lifetime.OPENED
    {
      var r := new SockCnt(out, inc);
      var g := new byte[bufsiz];
      var p := new byte[bufsiz];
      rep := r;
      gbuf, gptr, egptr := g, bufsiz, bufsiz;
      pbuf, pptr, epptr := p, 0, bufsiz;
      new;
      rep.gend, rep.pend := bufsiz, bufsiz;
    }

    /** The copy shares the descriptor; its own areas stay empty. */
    constructor Copy(sb: SockBuf)
      requires sb.rep.live > 0
      modifies sb.rep`cnt, sb.rep`live
      ensures rep == sb.rep && Valid() && gbuf == null && pbuf == null
      ensures rep.Life() == Lifetime.Step(old(sb.rep.Life()), Lifetime.Copy)
    {
      rep := sb.rep;
      gbuf, gptr, egptr := null, 0, 0;
      pbuf, pptr, epptr := null, 0, 0;
      new;
      rep.cnt := rep.cnt + 1;
      rep.live := rep.live + 1;
    }

    /** The destructor. `closeFails` is the system's answer to `close`. */
    method Destroy(closeFails: bool) returns (r: Call)
      requires PutValid() && rep.live > 0
      modifies this`pptr, this`epptr, pbuf, rep`outgoing, rep`cnt, rep`closes, rep`live, rep`failedFlushes
      ensures PutValid()
      ensures Put() == PutSide.Flush(old(Put())).0
      ensures var flushed := PutSide.Flush(old(Put())).1;
              && rep.Life() == Lifetime.Step(old(rep.Life()), Lifetime.Destroy(flushed.Returned?))
              && r == if flushed.Threw? then flushed
                      else if rep.cnt == 0 && closeFails then Threw(OsError) else Returned(0)
    {
      r := Overflow(EOF);
      rep.live := rep.live - 1;
      if r.Threw? {
        rep.failedFlushes := rep.failedFlushes + 1;
        return;
      }
      rep.cnt := rep.cnt - 1;
      r := Returned(0);
      if rep.cnt == 0 {
        rep.closes := rep.closes + 1;
        if closeFails {
          r := Threw(OsError);
        }
      }
    }

    // -------------------------------------------------------------------------------------------
    // Sending
    // -------------------------------------------------------------------------------------------

    method Write(buf: array<byte>, len: int) returns (r: PutSide.WriteResult)
      requires len <= buf.Length
      modifies rep`outgoing
      ensures (rep.outgoing, r) == PutSide.Write(old(rep.outgoing), rep.stmo, if len < 0 then [] else buf[..len])
    {
      if rep.stmo != -1 {
        var ready := Head(rep.outgoing.writable, Broken);
        rep.outgoing := rep.outgoing.(writable := Tail(rep.outgoing.writable));
        if ready != Yes {
          return PutSide.Refused(if ready == No then TimedOut else OsError);
        }
      }
      var wlen := WriteLoop(buf, len);
      return if 0 <= wlen == len || len < 0 then PutSide.Wrote(wlen) else PutSide.Stopped(wlen);
    }

    /** The loop of `write`; with fewer bytes than asked for it ended with the throw of `wlen`. */
    method WriteLoop(buf: array<byte>, len: int) returns (wlen: nat)
      requires len <= buf.Length
      modifies rep`outgoing
      ensures (rep.outgoing, wlen) == PutSide.WriteAll(old(rep.outgoing), if len < 0 then [] else buf[..len])
    {
      ghost var k0 := rep.outgoing;
      ghost var data := if len < 0 then [] else buf[..len];
      hide *;
      PutSide.UnsentStart(k0, data);
      var rest := len;
      wlen := 0;
      while rest > 0
        invariant wlen <= |data| && rest == (if len < 0 then len else |data| - wlen)
        invariant PutSide.Unsent(k0, data, rep.outgoing, wlen)
      {
        PutSide.UnsentStep(k0, data, rep.outgoing, wlen);
        assert buf[wlen..wlen + rest] == data[wlen..];
        var (k, wval) := SysWrite(rep.outgoing, buf[wlen..wlen + rest]);
        rep.outgoing := k;
        if wval == -1 {
          return;
        }
        rest := rest - wval;
        wlen := wlen + wval;
      }
      PutSide.UnsentDone(k0, data, rep.outgoing, wlen);
    }

    /** `setp(pbase(), rep->pend)` */
    method Setp()
      requires pbuf != null
      modifies this`pptr, this`epptr
      ensures pptr == 0 && epptr == rep.pend
    {
      pptr, epptr := 0, rep.pend;
    }

    /** After a partial write: move the unwritten bytes to the front, in place, and set the pointers. */
    method Reposition(wlen: nat)
      requires PutValid() && pbuf != null && wlen <= pptr
      modifies this`pptr, this`epptr, pbuf
      ensures PutValid()
      ensures Put() == old(Put()).(pending := old(Put()).pending[wlen..])
    {
      ghost var was := pbuf[..];
      var pto: nat, pfrom: nat := 0, wlen;
      var len := pptr - wlen;
      while pfrom < pptr
        modifies pbuf
        invariant pfrom == pto + wlen && pfrom <= pptr
        invariant forall j :: 0 <= j < pto ==> pbuf[j] == was[wlen + j]
        invariant forall j :: pfrom <= j < pbuf.Length ==> pbuf[j] == was[j]
      {
        pbuf[pto] := pbuf[pfrom];
        pto, pfrom := pto + 1, pfrom + 1;
      }
      assert pbuf[..len] == was[..pptr][wlen..];
      Setp();
      pptr := pptr + len;
    }

    method Sync() returns (r: Call)
      requires PutValid()
      modifies this`pptr, this`epptr, pbuf, rep`outgoing
      ensures PutValid()
      ensures (Put(), r) == PutSide.Flush(old(Put()))
    {
      if pbuf != null && 0 < pptr <= epptr {
        assert pbuf[..pptr] == Put().pending;
        var w := Write(pbuf, pptr);
        match w
        case Refused(e) =>
          return Threw(e);
        case Stopped(wlen) =>
          if wlen > 0 {
            Reposition(wlen);
          }
          return Threw(OsError);
        case Wrote(_) =>
          Setp();
      }
      return Returned(0);
    }

    /** `*pptr() = c` and `pbump(1)` */
    method Append(c: byte)
      requires PutValid() && pptr < epptr
      modifies this`pptr, pbuf
      ensures PutValid()
      ensures Put() == old(Put()).(pending := old(Put()).pending + [c])
    {
      pbuf[pptr] := c;
      pptr := pptr + 1;
      assert pbuf[..pptr] == old(pbuf[..pptr]) + [c];
    }

    method Overflow(c: int) returns (r: Call)
      requires PutValid()
      modifies this`pptr, this`epptr, pbuf, rep`outgoing
      ensures PutValid()
      ensures (Put(), r) == PutSide.Overflow(old(Put()), c)
    {
      if pbuf == null {
        return Returned(EOF);
      }
      if c == EOF {
        r := Sync();
        return;
      }
      if pptr == epptr {
        r := Sync();
        if r.Threw? {
          return;
        }
      }
      Append(PutSide.ToByte(c));
      return Returned(c);
    }

    method Sputc(c: byte) returns (r: Call)
      requires PutValid()
      modifies this`pptr, this`epptr, pbuf, rep`outgoing
      ensures PutValid()
      ensures (Put(), r) == PutSide.Sputc(old(Put()), c)
    {
      if pptr < epptr {
        Append(c);
        return Returned(c as int);
      }
      r := Overflow(c as int);
    }

    /** `memcpy(pptr(), s, n)` and `pbump(n)` */
    method Store(s: seq<byte>)
      requires PutValid() && |s| <= epptr - pptr
      modifies this`pptr, pbuf
      ensures PutValid()
      ensures Put() == old(Put()).(pending := old(Put()).pending + s)
    {
      if pbuf != null {
        forall i | 0 <= i < |s| {
          pbuf[pptr + i] := s[i];
        }
        pptr := pptr + |s|;
      }
    }

    method Xsputn(s: seq<byte>) returns (r: Call)
      requires PutValid()
      modifies this`pptr, this`epptr, pbuf, rep`outgoing
      ensures PutValid()
      ensures (Put(), r) == PutSide.Xsputn(old(Put()), s)
      decreases |s|, pptr
    {
      hide PutSide.Xsputn, PutSide.Overflow;
      var wval := epptr - pptr;
      ghost var p := Put();
      if |s| <= wval {
        PutSide.XsputnFits(p, s);
        Store(s);
        return Returned(|s|);
      }
      Store(s[..wval]);
      r := Overflow(EOF);
      PutSide.XsputnUnfold(p, s, wval, s[wval..]);
      if r.Returned? && r.value != EOF {
        r := Xsputn(s[wval..]);
        if r.Returned? {
          r := Returned(wval + r.value);
        }
      } else if r.Returned? {
        r := Returned(wval);
      }
    }

    // -------------------------------------------------------------------------------------------
    // Receiving
    // -------------------------------------------------------------------------------------------

    method Read(buf: array<byte>, len: nat) returns (r: Call)
      requires len <= buf.Length
      modifies buf, rep`incoming
      ensures var (k, got) := GetSide.Read(old(rep.incoming), rep.rtmo, rep.oob, len);
              && rep.incoming == k
              && match got
                 case Refused(e) => r == Threw(e) && buf[..] == old(buf[..])
                 case Got(b) => r == Returned(|b|) && buf[..] == b + old(buf[..])[|b|..]
    {
      r := Admit();
      if r.Threw? {
        return;
      }
      var rval := ReadInto(buf, len);
      return if rval == -1 then Threw(OsError) else Returned(rval);
    }

    /** The checks in front of every read: the receive timeout, then the out-of-band mark. */
    method Admit() returns (r: Call)
      modifies rep`incoming
      ensures (rep.incoming, r) == GetSide.Admit(old(rep.incoming), rep.rtmo, rep.oob)
    {
      if rep.rtmo != -1 {
        var ready := Head(rep.incoming.readable, Broken);
        rep.incoming := rep.incoming.(readable := Tail(rep.incoming.readable));
        if ready != Yes {
          return Threw(if ready == No then TimedOut else OsError);
        }
      }
      if rep.oob {
        var atmark := Head(rep.incoming.marks, Broken);
        rep.incoming := rep.incoming.(marks := Tail(rep.incoming.marks));
        if atmark != No {
          return Threw(if atmark == Yes then OutOfBand else OsError);
        }
      }
      return Returned(0);
    }

    /** `::read(rep->sock, buf, len)` */
    method ReadInto(buf: array<byte>, len: nat) returns (rval: int)
      requires len <= buf.Length
      modifies buf, rep`incoming
      ensures (rep.incoming, rval) == SysRead(old(rep.incoming), len)
      ensures buf[..] == if rval == -1 then old(buf[..]) else old(rep.incoming).data[..rval] + old(buf[..])[rval..]
    {
      var data := rep.incoming.data;
      var (k, n) := SysRead(rep.incoming, len);
      rep.incoming, rval := k, n;
      if rval != -1 {
        forall i | 0 <= i < rval {
          buf[i] := data[i];
        }
      }
    }

    method Showmanyc() returns (n: nat)
      requires GetValid()
      ensures n == |Get().unread|
    {
      if gbuf != null && gptr < egptr {
        return egptr - gptr;
      }
      return 0;
    }

    method Underflow() returns (r: Call)
      requires GetValid()
      modifies this`gptr, this`egptr, gbuf, rep`incoming
      ensures GetValid()
      ensures (Get(), r) == GetSide.Underflow(old(Get()))
    {
      if gbuf == null {
        return Returned(EOF);
      }
      if gptr < egptr {
        return Returned(gbuf[gptr] as int);
      }
      hide SysRead, GetSide.Admit, GetSide.Read;
      var rlen := Read(gbuf, rep.gend);
      if rlen.Threw? {
        return rlen;
      }
      if rlen.value == 0 {
        return Returned(EOF);
      }
      gptr, egptr := 0, rlen.value;
      return Returned(gbuf[gptr] as int);
    }

    method Gbump(n: nat)
      requires GetValid() && (n > 0 ==> gbuf != null && gptr + n <= egptr + 1)
      modifies this`gptr
      ensures GetValid()
      ensures var q := old(Get()).unread; Get() == old(Get()).(unread := if n <= |q| then q[n..] else [])
    {
      gptr := gptr + n;
    }

    method Uflow() returns (r: Call)
      requires GetValid()
      modifies this`gptr, this`egptr, gbuf, rep`incoming
      ensures GetValid()
      ensures (Get(), r) == GetSide.Uflow(old(Get()))
    {
      r := Underflow();
      if r == Returned(EOF) || r.Threw? {
        return;
      }
      Gbump(1);
    }

    /** `memcpy(s + off, gptr(), n)` */
    method CopyOut(s: array<byte>, off: nat, n: nat)
      requires GetValid() && n <= |Get().unread| && off + n <= s.Length
      requires s != gbuf
      modifies s
      ensures s[..] == Overlay(old(s[..]), off, Get().unread[..n])
    {
      ghost var was, bytes := s[..], Get().unread[..n];
      if gbuf != null {
        assert forall i :: 0 <= i < n ==> bytes[i] == gbuf[gptr + i];
        forall i | 0 <= i < n {
          s[off + i] := gbuf[gptr + i];
        }
      }
      OverlayIs(was, off, bytes, s[..]);
    }

    /** `memcpy(s + off, gptr(), n)` and `gbump(n)` */
    method Fetch(s: array<byte>, off: nat, n: nat)
      requires GetValid() && n <= |Get().unread| && off + n <= s.Length
      requires s != gbuf
      modifies this`gptr, s
      ensures GetValid()
      ensures Get() == old(Get()).(unread := old(Get()).unread[n..])
      ensures s[..] == Overlay(old(s[..]), off, old(Get()).unread[..n])
    {
      hide Overlay;
      CopyOut(s, off, n);
      if gbuf != null {
        Gbump(n);
      }
    }

    /** Copies into `s` from index `off`; what is beyond the bytes copied stays as it was. */
    method Xsgetn(s: array<byte>, off: nat, n: nat) returns (r: Call)
      requires GetValid() && off + n <= s.Length
      requires s != gbuf
      modifies this`gptr, this`egptr, gbuf, rep`incoming, s
      ensures GetValid()
      ensures Received(old(Get()), n, old(s[..]), off, Get(), s[..], r)
      decreases n, |Get().unread| == 0
    {
      hide Received, Overlay, GetSide.Underflow, GetSide.Xsgetn;
      var rval := Showmanyc();
      ghost var g, before := Get(), s[..];
      if rval >= n {
        Fetch(s, off, n);
        ReceivedAtOnce(g, n, before, off, Get(), s[..]);
        return Returned(n);
      }
      var u := FetchAndRefill(s, off, rval);
      if u.Threw? || u.value == EOF {
        ReceivedLast(g, n, before, off, Get(), s[..], u);
        return if u.Threw? then u else Returned(rval);
      }
      ghost var g1, mid := Get(), s[..];
      var c := Xsgetn(s, off + rval, n - rval);
      ReceivedThen(g, n, before, off, g1, mid, u, Get(), s[..], c);
      return if c.Threw? then c else Returned(rval + c.value);
    }

    method FetchAndRefill(s: array<byte>, off: nat, rval: nat) returns (r: Call)
      requires GetValid() && rval == |Get().unread| && off + rval <= s.Length
      requires s != gbuf
      modifies this`gptr, this`egptr, gbuf, rep`incoming, s
      ensures GetValid()
      ensures Refilled(old(Get()), old(s[..]), off, Get(), s[..], r)
    {
      ghost var have := Get().unread;
      Fetch(s, off, rval);
      assert have[..rval] == have && have[rval..] == [];
      r := Underflow();
    }

    // -------------------------------------------------------------------------------------------
    // Settings
    // -------------------------------------------------------------------------------------------

    method SendTimeout(wp: int) returns (was: int)
      requires PutValid()
      modifies rep`stmo
      ensures PutValid()
      ensures (Put(), Returned(was)) == PutSide.Apply(old(Put()), PutSide.SendTimeout(wp))
    {
      was := rep.stmo;
      rep.stmo := if wp < 0 then -1 else wp;
    }

    /** `shutdown(shut_write)`: the put buffer is deleted with whatever is pending in it; `fails` is the system's answer. */
    method ShutdownWrite(fails: bool) returns (r: Call)
      requires Valid()
      modifies this`pbuf, this`pptr, this`epptr
      ensures Valid()
      ensures Put() == old(Put()).(cap := 0, pending := [])
      ensures r == if fails then Threw(OsError) else Returned(0)
    {
      pbuf, pptr, epptr := null, 0, 0;
      r := if fails then Threw(OsError) else Returned(0);
    }

    method ShutdownRead(fails: bool) returns (r: Call)
      requires Valid()
      modifies this`gbuf, this`gptr, this`egptr
      ensures Valid()
      ensures Get() == old(Get()).(cap := 0, unread := [])
      ensures r == if fails then Threw(OsError) else Returned(0)
    {
      gbuf, gptr, egptr := null, 0, 0;
      r := if fails then Threw(OsError) else Returned(0);
    }
  }
}
