/** The echo server of RFC 862: one connection of `serverbuf::serve`, read and written past the buffers. */
module Echo {
  import opened Basics
  import opened Octets
  import opened Kernel
  import opened SockStream
  import opened Files
  import PutSide
  import GetSide

  /** Why the loop ended: end of file, a throw by `read`, or a throw by `write`. */
  datatype Ending = EndOfFile | ReadThrew(error: Error) | WriteThrew(how: PutSide.WriteResult)

  datatype Settings = Settings(rtmo: int, oob: bool, stmo: int)

  datatype Echoed = Echoed(inc: Incoming, out: Outgoing, ending: Ending)

  /** Block by block: what one read delivers, one write sends, or the loop ends. */
  function Run(inc: Incoming, out: Outgoing, s: Settings): Echoed
    decreases |inc.data|
  {
    var (k, r) := GetSide.Read(inc, s.rtmo, s.oob, BLOCK);
    match r
    case Refused(e) => Echoed(k, out, ReadThrew(e))
    case Got(b) =>
      if b == [] then Echoed(k, out, EndOfFile)
      else
        var (o, w) := PutSide.Write(out, s.stmo, b);
        if w.Wrote? then Run(k, o, s) else Echoed(k, o, WriteThrew(w))
  }

  /** `x` was received, `y` was sent back. */
  ghost predicate Faithful(inc: Incoming, out: Outgoing, e: Echoed, x: seq<byte>, y: seq<byte>) {
    && inc.data == x + e.inc.data
    && e.out.sent == out.sent + y
    && y <= x
    && (!e.ending.WriteThrew? ==> y == x)
    && (e.ending.EndOfFile? ==> e.inc.data == [])
    && (e.ending.WriteThrew? ==> |x| - BLOCK <= |y| < |x|)
  }

  lemma FaithfulThen(inc: Incoming, out: Outgoing, k: Incoming, o: Outgoing, e: Echoed,
                     b: seq<byte>, x: seq<byte>, y: seq<byte>)
    requires inc.data == b + k.data && o.sent == out.sent + b && Faithful(k, o, e, x, y)
    ensures Faithful(inc, out, e, b + x, b + y)
  {
    Assoc(b, x, e.inc.data);
    Assoc(out.sent, b, y);
  }

  lemma WriteSends(out: Outgoing, stmo: int, b: seq<byte>)
    requires b != []
    ensures var (o, w) := PutSide.Write(out, stmo, b);
            match w
            case Wrote(n) => n == |b| && o.sent == out.sent + b
            case Stopped(n) => n < |b| && o.sent == out.sent + b[..n]
            case Refused(_) => o.sent == out.sent
  {
  }

  /**
   What comes back is what was sent, in order: all that was read, unless a write fails, and then all
   but a last part of the block in hand.  At end of file everything has come back.
   */
  lemma {:induction false} EchoIsFaithful(inc: Incoming, out: Outgoing, s: Settings) returns (x: seq<byte>, y: seq<byte>)
    ensures Faithful(inc, out, Run(inc, out, s), x, y)
    decreases |inc.data|
  {
    hide GetSide.Read, PutSide.Write, Faithful;
    var (k, r) := GetSide.Read(inc, s.rtmo, s.oob, BLOCK);
    if r.Refused? || r.bytes == [] {
      x, y := [], [];
      FaithfulNothing(inc, out, Run(inc, out, s));
    } else {
      var b := r.bytes;
      var (o, w) := PutSide.Write(out, s.stmo, b);
      WriteSends(out, s.stmo, b);
      if w.Wrote? {
        x, y := EchoIsFaithful(k, o, s);
        FaithfulThen(inc, out, k, o, Run(k, o, s), b, x, y);
        x, y := b + x, b + y;
      } else {
        x, y := b, if w.Stopped? then b[..w.wlen] else [];
        FaithfulLast(inc, out, Run(inc, out, s), x, y);
      }
    }
  }

  lemma FaithfulNothing(inc: Incoming, out: Outgoing, e: Echoed)
    requires e.inc.data == inc.data && e.out == out && !e.ending.WriteThrew?
    requires e.ending.EndOfFile? ==> inc.data == []
    ensures Faithful(inc, out, e, [], [])
  {
  }

  lemma FaithfulLast(inc: Incoming, out: Outgoing, e: Echoed, x: seq<byte>, y: seq<byte>)
    requires inc.data == x + e.inc.data && e.out.sent == out.sent + y && y <= x && |y| < |x| <= BLOCK
    requires e.ending.WriteThrew?
    ensures Faithful(inc, out, e, x, y)
  {
  }

  /** The rounds in which a block was read and sent back, one by one: the system after `n` of them, if there are so many. */
  function Rounds(inc: Incoming, out: Outgoing, s: Settings, n: nat): Option<(Incoming, Outgoing)>
    decreases n
  {
    if n == 0 then Some((inc, out))
    else
      match Rounds(inc, out, s, n - 1)
      case None => None
      case Some(at) =>
        var (k, r) := GetSide.Read(at.0, s.rtmo, s.oob, BLOCK);
        if r.Refused? || r.bytes == [] then None
        else
          var (o, w) := PutSide.Write(at.1, s.stmo, r.bytes);
          if w.Wrote? then Some((k, o)) else None
  }

  /** After the system `at` the echo ends as `e` says: its read finds the end or is refused, or its write fails. */
  ghost predicate EndsAt(at: (Incoming, Outgoing), s: Settings, e: Echoed) {
    var (k, r) := GetSide.Read(at.0, s.rtmo, s.oob, BLOCK);
    && e.inc == k
    && match e.ending
       case EndOfFile => r == GetSide.Got([]) && e.out == at.1
       case ReadThrew(error) => r == GetSide.Refused(error) && e.out == at.1
       case WriteThrew(how) =>
         r.Got? && r.bytes != [] && (e.out, how) == PutSide.Write(at.1, s.stmo, r.bytes) && !how.Wrote?
  }

  lemma RoundsShift(inc: Incoming, out: Outgoing, s: Settings, k: Incoming, o: Outgoing, n: nat)
    requires Rounds(inc, out, s, 1) == Some((k, o))
    ensures Rounds(inc, out, s, n + 1) == Rounds(k, o, s, n)
    decreases n
  {
    hide GetSide.Read, PutSide.Write;
    if n > 0 {
      RoundsShift(inc, out, s, k, o, n - 1);
    }
  }

  /** The echo goes on until a read finds the end of file or is refused, or a write fails, and then ends with that. */
  lemma {:induction false} EchoEnds(inc: Incoming, out: Outgoing, s: Settings) returns (n: nat)
    ensures Rounds(inc, out, s, n).Some? && EndsAt(Rounds(inc, out, s, n).value, s, Run(inc, out, s))
    decreases |inc.data|
  {
    hide GetSide.Read, PutSide.Write;
    var (k, r) := GetSide.Read(inc, s.rtmo, s.oob, BLOCK);
    n := 0;
    if r.Got? && r.bytes != [] {
      var (o, w) := PutSide.Write(out, s.stmo, r.bytes);
      if w.Wrote? {
        assert Rounds(inc, out, s, 0) == Some((inc, out));
        n := EchoEnds(k, o, s);
        RoundsShift(inc, out, s, k, o, n);
        n := n + 1;
      }
    }
  }

  /** Over a system that delivers what there is and takes what it is given, everything comes back. */
  lemma {:induction false} EchoesAll(inc: Incoming, out: Outgoing, s: Settings, timed: bool)
    requires GetSide.Willing(inc, s.rtmo, s.oob, |inc.data| + 1)
    requires PutSide.Willing(out, |inc.data|, timed) && (s.stmo != -1 ==> timed)
    ensures Run(inc, out, s).ending == EndOfFile
    ensures Run(inc, out, s).out.sent == out.sent + inc.data && Run(inc, out, s).inc.data == []
    decreases |inc.data|
  {
    GetSide.ReadWilling(inc, s.rtmo, s.oob, BLOCK, |inc.data| + 1);
    hide GetSide.Read, PutSide.Write, GetSide.Willing, PutSide.Willing;
    var (k, r) := GetSide.Read(inc, s.rtmo, s.oob, BLOCK);
    if r.bytes != [] {
      var b := r.bytes;
      assert inc.data == b + k.data;
      PutSide.WriteWilling(out, s.stmo, b, |inc.data|, timed);
      WriteSends(out, s.stmo, b);
      GetSide.WillingLess(k, s.rtmo, s.oob, |inc.data|, |k.data| + 1);
      var o := PutSide.Write(out, s.stmo, b).0;
      EchoesAll(k, o, s, timed);
      Assoc(out.sent, b, k.data);
    }
  }

  /** The nested loops.  The inner one does not advance `buf`: it need not, because `write` sends all or throws. */
  method Serve(s: SockBuf, buf: array<byte>) returns (ending: Ending)
    requires buf.Length == BLOCK
    modifies buf, s.rep`incoming, s.rep`outgoing
    ensures Echoed(s.rep.incoming, s.rep.outgoing, ending) ==
              Run(old(s.rep.incoming), old(s.rep.outgoing), Settings(s.rep.rtmo, s.rep.oob, s.rep.stmo))
  {
    hide GetSide.Read, PutSide.Write;
    ghost var cfg := Settings(s.rep.rtmo, s.rep.oob, s.rep.stmo);
    while true
      invariant Run(s.rep.incoming, s.rep.outgoing, cfg) == Run(old(s.rep.incoming), old(s.rep.outgoing), cfg)
      decreases |s.rep.incoming.data|
    {
      ghost var k, r := GetSide.Read(s.rep.incoming, s.rep.rtmo, s.rep.oob, BLOCK).0,
                        GetSide.Read(s.rep.incoming, s.rep.rtmo, s.rep.oob, BLOCK).1;
      var got := s.Read(buf, BLOCK);
      if got.Threw? {
        return ReadThrew(got.error);
      }
      var rcnt := got.value;
      if rcnt <= 0 {
        return EndOfFile;
      }
      assert buf[..rcnt] == r.bytes;
      WriteSends(s.rep.outgoing, s.rep.stmo, r.bytes);
      ghost var out1 := s.rep.outgoing;
      ghost var o, w := PutSide.Write(out1, cfg.stmo, r.bytes).0, PutSide.Write(out1, cfg.stmo, r.bytes).1;
      while rcnt != 0
        invariant s.rep.incoming == k && buf[..|r.bytes|] == r.bytes
        invariant if rcnt == 0 then w.Wrote? && s.rep.outgoing == o
                  else rcnt == |r.bytes| && s.rep.outgoing == out1
        decreases rcnt
      {
        var wcnt := s.Write(buf, rcnt);
        assert wcnt == w && s.rep.outgoing == o;
        if !wcnt.Wrote? {
          return WriteThrew(wcnt);
        }
        rcnt := rcnt - wcnt.n;
      }
    }
  }
}
