/** Strings with their length in front: `send(const string&)` and `recv(string&)`, with a length of 4 bytes. */
module Framing {
  import opened Octets
  import opened Kernel
  import opened SockStream
  import PutSide
  import GetSide

  const WORD: nat := 0x1_0000_0000
  const INT_LIMIT: nat := 0x8000_0000
  const HEADER: nat := 4

  /** `htonl` of a length, as the bytes in memory. */
  function BigEndian(n: nat): (s: seq<byte>)
    ensures |s| == HEADER
  {
    [(n / 0x100_0000 % 256) as byte, (n / 0x1_0000 % 256) as byte, (n / 0x100 % 256) as byte, (n % 256) as byte]
  }

  /** `ntohl` of the bytes in memory. */
  function FromBigEndian(s: seq<byte>): (n: nat)
    requires |s| == HEADER
    ensures n < WORD
  {
    ((s[0] as nat * 256 + s[1] as nat) * 256 + s[2] as nat) * 256 + s[3] as nat
  }

  lemma HeaderRoundTrip(n: nat)
    ensures FromBigEndian(BigEndian(n)) == n % WORD
  {
    var d, c, b := n / 256, n / 256 / 256, n / 256 / 256 / 256;
    Quotients(n);
    var m := FromBigEndian(BigEndian(n));
    assert m == ((b % 256 * 256 + c % 256) * 256 + d % 256) * 256 + n % 256;
    hide *;
    Digits(n, d, c, b);
    Remainder(n, b / 256, m);
  }

  lemma Quotients(n: nat)
    ensures n / 0x1_0000 == n / 256 / 256
    ensures n / 0x100_0000 == n / 256 / 256 / 256
  {
  }

  lemma Digits(n: nat, d: nat, c: nat, b: nat)
    requires d == n / 256 && c == d / 256 && b == c / 256
    ensures n == (b / 256) * WORD + (((b % 256 * 256 + c % 256) * 256 + d % 256) * 256 + n % 256)
  {
    assert n == d * 256 + n % 256 && d == c * 256 + d % 256 && c == b * 256 + c % 256;
    assert b == (b / 256) * 256 + b % 256;
  }

  lemma Remainder(n: nat, q: nat, m: nat)
    requires n == q * WORD + m && m < WORD
    ensures n % WORD == m
  {
  }

  /** The conversion of a size to `int`: 32 bits, two's complement. */
  function ToInt(n: nat): int {
    if n % WORD < INT_LIMIT then n % WORD else n % WORD - WORD
  }

  lemma SmallToInt(n: nat)
    requires n < INT_LIMIT
    ensures ToInt(n) == n
  {
    assert n % WORD == n;
  }

  /** In other words: the number with the same remainder, between -2^31 and 2^31. */
  lemma ToIntIs(n: nat)
    ensures 0 <= ToInt(n) + INT_LIMIT < WORD && ToInt(n) % WORD == n % WORD
  {
  }

  /** What the loop sends of the string. */
  function Payload(s: seq<byte>): (p: seq<byte>) {
    if ToInt(|s|) <= 0 then [] else s[..ToInt(|s|)]
  }

  function Frame(s: seq<byte>): seq<byte> {
    BigEndian(|s|) + Payload(s)
  }

  /** The whole string is sent if and only if its length fits an `int`. */
  lemma PayloadIsWhole(s: seq<byte>)
    ensures Payload(s) == s <==> |s| < INT_LIMIT
  {
    if |s| < INT_LIMIT {
      assert |s| % WORD == |s|;
      assert s[..|s|] == s;
    } else {
      assert |s| % WORD <= |s|;
    }
  }

  // ---------------------------------------------------------------------------------------------
  // Sending
  // ---------------------------------------------------------------------------------------------

  /** `send(buf)`: how many bytes of the header the system took is not looked at. */
  function Send(k: Outgoing, stmo: int, s: seq<byte>): (Outgoing, PutSide.WriteResult) {
    if stmo != -1 && Head(k.writable, Broken) != Yes then
      (k.(writable := Tail(k.writable)),
        PutSide.Refused(if Head(k.writable, Broken) == No then TimedOut else OsError))
    else
      var k0 := if stmo != -1 then k.(writable := Tail(k.writable)) else k;
      var (k1, h) := SysWrite(k0, BigEndian(|s|));
      if h == -1 then (k1, PutSide.Stopped(0))
      else
        var (k2, n) := PutSide.WriteAll(k1, Payload(s));
        (k2, if n == |Payload(s)| then PutSide.Wrote(n) else PutSide.Stopped(n))
  }

  /** Does the system take the header as a whole? */
  predicate TakesHeader(k: Outgoing) {
    Head(k.writes, Fails).Moves? && Head(k.writes, Fails).extra + 1 >= HEADER
  }

  /** A frame goes out whole exactly when the call succeeds and the header was taken as a whole. */
  lemma SendSendsFrame(k: Outgoing, stmo: int, s: seq<byte>)
    requires Send(k, stmo, s).1.Wrote?
    ensures Send(k, stmo, s).0.sent == k.sent + Frame(s) <==> TakesHeader(k)
    ensures Send(k, stmo, s).1.n == |Payload(s)|
  {
    var k0 := if stmo != -1 then k.(writable := Tail(k.writable)) else k;
    var (k1, h) := SysWrite(k0, BigEndian(|s|));
    var p := Payload(s);
    var (k2, n) := PutSide.WriteAll(k1, p);
    assert p[..n] == p;
    assert k2.sent == k.sent + BigEndian(|s|)[..h] + p;
    assert k.sent + Frame(s) == k.sent + BigEndian(|s|) + p;
    assert |k2.sent| == |k.sent| + h + |p|;
    assert |k.sent + Frame(s)| == |k.sent| + HEADER + |p|;
    if h == HEADER {
      assert BigEndian(|s|)[..h] == BigEndian(|s|);
    }
  }

  /** When `send` succeeds: the descriptor is ready, the header is not refused, and the system takes the whole string. */
  lemma SendSucceeds(k: Outgoing, stmo: int, s: seq<byte>)
    ensures var r, ready := Send(k, stmo, s).1, stmo == -1 || Head(k.writable, Broken) == Yes;
            && (r.Wrote? <==>
                  ready && Head(k.writes, Fails).Moves? && |Payload(s)| <= PutSide.Offered(Tail(k.writes)))
            && (r.Refused? <==> !ready)
            && (r.Refused? ==> (r.error == TimedOut <==> Head(k.writable, Broken) == No))
            && (ready && Head(k.writes, Fails).Fails? ==> r == PutSide.Stopped(0))
  {
    var k0 := if stmo != -1 then k.(writable := Tail(k.writable)) else k;
    var k1 := SysWrite(k0, BigEndian(|s|)).0;
    PutSide.WriteAllAmount(k1, Payload(s));
    hide BigEndian, Payload, PutSide.WriteAll, PutSide.Offered;
  }

  /** What is on the wire afterwards: a part of the header, all of it or not, and the string up to the first failure. */
  lemma SendSends(k: Outgoing, stmo: int, s: seq<byte>, extra: nat)
    requires (stmo == -1 || Head(k.writable, Broken) == Yes) && Head(k.writes, Fails) == Moves(extra)
    ensures var (k', r), p, n := Send(k, stmo, s), Payload(s), PutSide.Offered(Tail(k.writes));
            && r == (if |p| <= n then PutSide.Wrote(|p|) else PutSide.Stopped(n))
            && k'.sent == k.sent + BigEndian(|s|)[..Granted(extra, HEADER)] + (if |p| <= n then p else p[..n])
  {
    var k0 := if stmo != -1 then k.(writable := Tail(k.writable)) else k;
    var k1 := SysWrite(k0, BigEndian(|s|)).0;
    var p := Payload(s);
    PutSide.WriteAllAmount(k1, p);
    assert p[..|p|] == p;
    hide BigEndian, Payload, PutSide.WriteAll, PutSide.Offered;
  }

  // ---------------------------------------------------------------------------------------------
  // Receiving
  // ---------------------------------------------------------------------------------------------

  /** `buf.resize(size)` */
  function Resize(buf: seq<byte>, size: nat): (r: seq<byte>)
    ensures |r| == size
  {
    if size <= |buf| then buf[..size] else buf + seq(size - |buf|, i => NUL)
  }

  /** It keeps what was there and fills up with NULs. */
  lemma ResizeIs(buf: seq<byte>, size: nat, i: nat)
    requires i < size
    ensures Resize(buf, size)[i] == if i < |buf| then buf[i] else NUL
  {
  }

  datatype Recv = Recv(inc: Incoming, buf: seq<byte>, call: Call)

  /** `recv(buf)`: one read for the header, one for the string; what they deliver is taken as it is. */
  function Receive(k: Incoming, rtmo: int, oob: bool, buf: seq<byte>): Recv {
    var (k0, gate) := GetSide.Admit(k, rtmo, oob);
    if gate.Threw? then Recv(k0, buf, gate)
    else
      var (k1, h) := SysRead(k0, HEADER);
      if h == 0 then Recv(k1, buf, Returned(0))
      else if h != HEADER then Recv(k1, buf, Threw(OsError))
      else
        var size := FromBigEndian(k0.data[..HEADER]);
        var room := Resize(buf, size);
        var (k2, n) := SysRead(k1, size);
        Recv(k2, if n == -1 then room else k1.data[..n] + room[n..], Returned(if n == -1 then -1 else ToInt(n)))
  }

  /** The header is read as a whole, and so much is announced and so much then delivered. */
  predicate Delivers(k: Incoming, rtmo: int, oob: bool, n: nat) {
    var (k0, gate) := GetSide.Admit(k, rtmo, oob);
    && gate.Returned?
    && SysRead(k0, HEADER).1 == HEADER
    && SysRead(SysRead(k0, HEADER).0, FromBigEndian(k0.data[..HEADER])).1 == n
  }

  /** Is the system's second answer, the one to the request for the string, for all of its bytes? */
  predicate TakesString(k: Incoming, s: seq<byte>) {
    Head(Tail(k.refills), Fails).Moves? && Head(Tail(k.refills), Fails).extra + 1 >= |s|
  }

  /** What the second read delivers, from the system's second answer. */
  lemma SecondAnswer(k: Incoming, rtmo: int, oob: bool, s: seq<byte>, rest: seq<byte>, n: nat)
    requires |s| < INT_LIMIT && k.data == Frame(s) + rest && Delivers(k, rtmo, oob, n) && n <= |s|
    ensures n == |s| <==> TakesString(k, s)
  {
    FrameParts(s, rest);
    hide BigEndian, FromBigEndian, Frame, GetSide.Admit;
    var k0 := GetSide.Admit(k, rtmo, oob).0;
    var k1 := SysRead(k0, HEADER).0;
    assert Head(k1.refills, Fails) == Head(Tail(k.refills), Fails);
    assert |k1.data| >= |s|;
  }

  /**
   A frame at the front of the stream, of which the second read delivers `n` bytes: they are at the front of the
   buffer, and the rest of the string stays in front of what follows.  So the string is received, and
   the next call starts at the next frame, if and only if the system's second answer is for all of its bytes.
   */
  lemma ReceiveFrame(k: Incoming, rtmo: int, oob: bool, buf: seq<byte>, s: seq<byte>, rest: seq<byte>, n: nat)
    requires |s| < INT_LIMIT && k.data == Frame(s) + rest
    requires Delivers(k, rtmo, oob, n) && n <= |s|
    ensures var r := Receive(k, rtmo, oob, buf);
            && r.call == Returned(n)
            && |r.buf| == |s| && r.buf[..n] == s[..n]
            && r.inc.data == s[n..] + rest
            && (r.inc.data == rest <==> TakesString(k, s))
            && (TakesString(k, s) ==> n == |s| && r.buf == s)
  {
    FrameParts(s, rest);
    SecondAnswer(k, rtmo, oob, s, rest, n);
    SmallToInt(n);
    hide BigEndian, FromBigEndian, Frame, Payload, SysRead, TakesString, ToInt, GetSide.Admit;
    SliceOfConcat(s, rest, n);
    assert |s[n..] + rest| == |s| - n + |rest|;
    var room := Resize(buf, |s|);
    assert s[..|s|] == s;
    assert (s[..n] + room[n..])[..n] == s[..n];
  }

  lemma FrameParts(s: seq<byte>, rest: seq<byte>)
    requires |s| < INT_LIMIT
    ensures var data := Frame(s) + rest;
            && |data| >= HEADER
            && FromBigEndian(data[..HEADER]) == |s|
            && data[HEADER..] == s + rest
  {
    HeaderRoundTrip(|s|);
    PayloadIsWhole(s);
    hide BigEndian, FromBigEndian, Payload;
    assert |s| % WORD == |s|;
    Assoc(BigEndian(|s|), s, rest);
    SliceOfConcat(BigEndian(|s|), s + rest, HEADER);
    assert BigEndian(|s|)[..HEADER] == BigEndian(|s|);
    assert BigEndian(|s|)[HEADER..] + (s + rest) == s + rest;
  }

  // ---------------------------------------------------------------------------------------------
  // A list of strings
  // ---------------------------------------------------------------------------------------------

  function Frames(ss: seq<seq<byte>>): seq<byte> {
    if ss == [] then [] else Frame(ss[0]) + Frames(ss[1..])
  }

  /** The sender's calls one after the other. */
  function SendAll(k: Outgoing, stmo: int, ss: seq<seq<byte>>): Outgoing
    decreases |ss|
  {
    if ss == [] then k else SendAll(Send(k, stmo, ss[0]).0, stmo, ss[1..])
  }

  /** Every call succeeds and every header is taken as a whole; the strings may be split in any way. */
  ghost predicate AllSent(k: Outgoing, stmo: int, ss: seq<seq<byte>>)
    decreases |ss|
  {
    ss == [] ||
    (&& Send(k, stmo, ss[0]).1.Wrote?
     && TakesHeader(k)
     && AllSent(Send(k, stmo, ss[0]).0, stmo, ss[1..]))
  }

  lemma {:induction false} SendAllSendsFrames(k: Outgoing, stmo: int, ss: seq<seq<byte>>)
    requires AllSent(k, stmo, ss)
    ensures SendAll(k, stmo, ss).sent == k.sent + Frames(ss)
    decreases |ss|
  {
    hide Send, Frame;
    if ss != [] {
      SendSendsFrame(k, stmo, ss[0]);
      SendAllSendsFrames(Send(k, stmo, ss[0]).0, stmo, ss[1..]);
      Assoc(k.sent, Frame(ss[0]), Frames(ss[1..]));
    }
  }

  /** `n` calls of `recv` into the same string: what each leaves in it, and what it returns. */
  function ReceiveAll(k: Incoming, rtmo: int, oob: bool, buf: seq<byte>, n: nat): (r: seq<Recv>)
    ensures |r| == n
    decreases n
  {
    if n == 0 then []
    else
      var r := Receive(k, rtmo, oob, buf);
      [r] + ReceiveAll(r.inc, rtmo, oob, r.buf, n - 1)
  }

  /** The system fills each request of `n` calls as far as the announced length goes. */
  ghost predicate Fills(k: Incoming, rtmo: int, oob: bool, buf: seq<byte>, sizes: seq<nat>)
    decreases |sizes|
  {
    sizes == [] ||
    (Delivers(k, rtmo, oob, sizes[0]) &&
     Fills(Receive(k, rtmo, oob, buf).inc, rtmo, oob, Receive(k, rtmo, oob, buf).buf, sizes[1..]))
  }

  function Sizes(ss: seq<seq<byte>>): (r: seq<nat>)
    ensures |r| == |ss|
  {
    if ss == [] then [] else [|ss[0]|] + Sizes(ss[1..])
  }

  ghost predicate Sendable(ss: seq<seq<byte>>) {
    forall i :: 0 <= i < |ss| ==> |ss[i]| < INT_LIMIT
  }

  lemma {:induction false} ReceiveAllFrames(k: Incoming, rtmo: int, oob: bool, buf: seq<byte>,
                                            ss: seq<seq<byte>>, rest: seq<byte>)
    requires Sendable(ss) && k.data == Frames(ss) + rest
    requires Fills(k, rtmo, oob, buf, Sizes(ss))
    ensures forall i :: 0 <= i < |ss| ==>
              && ReceiveAll(k, rtmo, oob, buf, |ss|)[i].buf == ss[i]
              && ReceiveAll(k, rtmo, oob, buf, |ss|)[i].call == Returned(|ss[i]|)
    decreases |ss|
  {
    hide Receive, Delivers, Frame;
    if ss != [] {
      var r := Receive(k, rtmo, oob, buf);
      Assoc(Frame(ss[0]), Frames(ss[1..]), rest);
      ReceiveFrame(k, rtmo, oob, buf, ss[0], Frames(ss[1..]) + rest, |ss[0]|);
      assert Sizes(ss)[1..] == Sizes(ss[1..]);
      ReceiveAllFrames(r.inc, rtmo, oob, r.buf, ss[1..], rest);
      var all := ReceiveAll(k, rtmo, oob, buf, |ss|);
      forall i | 0 <= i < |ss| ensures all[i].buf == ss[i] && all[i].call == Returned(|ss[i]|) {
        if i > 0 {
          assert all[i] == ReceiveAll(r.inc, rtmo, oob, r.buf, |ss| - 1)[i - 1];
          assert ss[1..][i - 1] == ss[i];
        }
      }
    }
  }

  /** Any list of strings that fit comes out of the other end as the same list, in order. */
  lemma ListRoundTrip(k: Outgoing, stmo: int, ss: seq<seq<byte>>, peer: Incoming, rtmo: int, oob: bool, buf: seq<byte>)
    requires Sendable(ss) && AllSent(k, stmo, ss)
    requires SendAll(k, stmo, ss).sent == k.sent + peer.data
    requires Fills(peer, rtmo, oob, buf, Sizes(ss))
    ensures forall i :: 0 <= i < |ss| ==> ReceiveAll(peer, rtmo, oob, buf, |ss|)[i].buf == ss[i]
  {
    hide Send, SendAll, Fills, AllSent, Receive, ReceiveAll, Frames, Sizes;
    SendAllSendsFrames(k, stmo, ss);
    assert peer.data == (k.sent + peer.data)[|k.sent|..];
    assert peer.data == Frames(ss) + [];
    ReceiveAllFrames(peer, rtmo, oob, buf, ss, []);
  }

  /** Enough answers for a number of strings, each of which moves any request below 2^31 as a whole. */
  ghost predicate Generous(replies: seq<Reply>, strings: nat) {
    && |replies| >= 2 * strings
    && forall i :: 0 <= i < |replies| ==> replies[i].Moves? && replies[i].extra >= INT_LIMIT
  }

  /** One answer of a generous system, to a request for `want` bytes. */
  lemma GenerousHead(replies: seq<Reply>, strings: nat, want: nat)
    requires Generous(replies, strings) && replies != [] && want < INT_LIMIT
    ensures Head(replies, Fails).Moves?
    ensures Granted(Head(replies, Fails).extra, want) == want
  {
    assert replies[0].Moves? && replies[0].extra >= INT_LIMIT;
  }

  lemma GenerousAfter(replies: seq<Reply>, strings: nat, used: nat)
    requires Generous(replies, strings) && strings > 0 && used <= 2
    ensures Generous(replies[used..], strings - 1)
  {
    var rest := replies[used..];
    forall i | 0 <= i < |rest| ensures rest[i].Moves? && rest[i].extra >= INT_LIMIT {
      assert rest[i] == replies[i + used];
    }
  }

  /** What such a system does with one string: it takes the frame, with one write or two. */
  lemma GenerousSend(k: Outgoing, s: seq<byte>, strings: nat)
    requires |s| < INT_LIMIT && strings > 0 && Generous(k.writes, strings)
    ensures Send(k, -1, s).1.Wrote? && TakesHeader(k)
    ensures Send(k, -1, s).0.writes == k.writes[if s == [] then 1 else 2..]
  {
    GenerousHead(k.writes, strings, HEADER);
    PayloadIsWhole(s);
    var (k1, h) := SysWrite(k, BigEndian(|s|));
    assert k1.writes == k.writes[1..];
    if s != [] {
      assert k1.writes[0] == k.writes[1];
      assert k1.writes[0].Moves? && k1.writes[0].extra >= INT_LIMIT;
      var (k2, n) := SysWrite(k1, s);
      assert n == |s|;
      assert s[n..] == [];
      PutSide.WriteAllStep(k1, s);
      PutSide.WriteAllStep(k2, []);
      assert k2.writes == k.writes[2..];
    }
  }

  /** The assumption of `ListRoundTrip` about the sender's side is met by every generous system. */
  lemma {:induction false} GenerousSystemSends(k: Outgoing, ss: seq<seq<byte>>)
    requires Sendable(ss) && Generous(k.writes, |ss|)
    ensures AllSent(k, -1, ss)
    decreases |ss|
  {
    hide Send, TakesHeader, Generous;
    if ss != [] {
      GenerousSend(k, ss[0], |ss|);
      GenerousAfter(k.writes, |ss|, if ss[0] == [] then 1 else 2);
      GenerousSystemSends(Send(k, -1, ss[0]).0, ss[1..]);
    }
  }

  lemma GenerousReceive(k: Incoming, buf: seq<byte>, s: seq<byte>, rest: seq<byte>, strings: nat)
    requires |s| < INT_LIMIT && strings > 0 && Generous(k.refills, strings) && k.data == Frame(s) + rest
    ensures Delivers(k, -1, false, |s|)
    ensures Receive(k, -1, false, buf).inc.refills == k.refills[2..]
    ensures Receive(k, -1, false, buf).inc.data == rest
  {
    FrameParts(s, rest);
    GenerousHead(k.refills, strings, HEADER);
    hide BigEndian, FromBigEndian, Frame;
    var (k1, h) := SysRead(k, HEADER);
    assert h == HEADER && k1.refills == k.refills[1..];
    assert k1.refills[0] == k.refills[1];
    assert k1.refills[0].Moves? && k1.refills[0].extra >= INT_LIMIT;
    var (k2, n) := SysRead(k1, |s|);
    assert n == |s| && k2.refills == k.refills[2..];
    assert (s + rest)[|s|..] == rest;
  }

  lemma {:induction false} GenerousSystemFills(k: Incoming, buf: seq<byte>, ss: seq<seq<byte>>, rest: seq<byte>)
    requires Sendable(ss) && Generous(k.refills, |ss|) && k.data == Frames(ss) + rest
    ensures Fills(k, -1, false, buf, Sizes(ss))
    decreases |ss|
  {
    hide Receive, Delivers, Frame, Generous;
    if ss != [] {
      Assoc(Frame(ss[0]), Frames(ss[1..]), rest);
      GenerousReceive(k, buf, ss[0], Frames(ss[1..]) + rest, |ss|);
      GenerousAfter(k.refills, |ss|, 2);
      var r := Receive(k, -1, false, buf);
      assert Sizes(ss)[1..] == Sizes(ss[1..]);
      GenerousSystemFills(r.inc, r.buf, ss[1..], rest);
    }
  }

  /** Between two such systems every list of strings that fit makes the trip. */
  lemma GenerousRoundTrip(k: Outgoing, ss: seq<seq<byte>>, peer: Incoming, buf: seq<byte>)
    requires Sendable(ss) && Generous(k.writes, |ss|) && Generous(peer.refills, |ss|)
    requires SendAll(k, -1, ss).sent == k.sent + peer.data
    ensures forall i :: 0 <= i < |ss| ==> ReceiveAll(peer, -1, false, buf, |ss|)[i].buf == ss[i]
  {
    hide Send, SendAll, Fills, AllSent, Receive, ReceiveAll, Frames, Sizes, Generous;
    GenerousSystemSends(k, ss);
    SendAllSendsFrames(k, -1, ss);
    assert peer.data == (k.sent + peer.data)[|k.sent|..];
    assert peer.data == Frames(ss) + [];
    GenerousSystemFills(peer, buf, ss, []);
    ListRoundTrip(k, -1, ss, peer, -1, false, buf);
  }

  /**
   What `recv` does with the first read: with nothing it returns 0; with a part of a header, or when it fails, it throws,
   and the part is lost; in both cases the buffer stays.  With a header it returns what the second read does, -1 if
   that fails.
   */
  lemma ReceiveOutcome(k: Incoming, rtmo: int, oob: bool, buf: seq<byte>)
    requires GetSide.Admit(k, rtmo, oob).1.Returned?
    ensures var r, n := Receive(k, rtmo, oob, buf), HeaderBytes(k);
            && (n == 0 ==> r.call == Returned(0) && r.buf == buf && r.inc.data == k.data)
            && (n == -1 ==> r.call == Threw(OsError) && r.buf == buf && r.inc.data == k.data)
            && (0 < n < HEADER ==> r.call == Threw(OsError) && r.buf == buf && r.inc.data == k.data[n..])
            && (n == HEADER && Head(Tail(k.refills), Fails) == Fails ==>
                  r.call == Returned(-1) && |r.buf| == FromBigEndian(k.data[..HEADER]) && r.inc.data == k.data[HEADER..])
  {
    hide GetSide.Admit, FromBigEndian;
    assert k.data[0..] == k.data;
  }

  /** How many bytes of a header the first read delivers, or -1. */
  function HeaderBytes(k: Incoming): (n: int)
    ensures n == -1 || (0 <= n <= HEADER && n <= |k.data|)
  {
    match Head(k.refills, Fails)
    case Fails => -1
    case Moves(extra) => Granted(extra, if HEADER <= |k.data| then HEADER else |k.data|)
  }

  /** When the call is not admitted, it throws what `read` throws, and takes nothing. */
  lemma ReceiveRefused(k: Incoming, rtmo: int, oob: bool, buf: seq<byte>)
    requires GetSide.Admit(k, rtmo, oob).1.Threw?
    ensures Receive(k, rtmo, oob, buf).call == GetSide.Admit(k, rtmo, oob).1
    ensures Receive(k, rtmo, oob, buf).buf == buf && Receive(k, rtmo, oob, buf).inc.data == k.data
  {
    hide GetSide.Admit;
  }

  /** At the end of the stream `recv` returns 0 too, and leaves the buffer as it is. */
  lemma EndReturnsZero(end: Incoming, rtmo: int, oob: bool, buf: seq<byte>)
    requires end.data == []
    requires var (k, gate) := GetSide.Admit(end, rtmo, oob); gate.Returned? && Head(k.refills, Fails).Moves?
    ensures Receive(end, rtmo, oob, buf).call == Returned(0) && Receive(end, rtmo, oob, buf).buf == buf
  {
    hide GetSide.Admit;
  }

  /** The receipt of a string returns 0 exactly when the string is empty, and then empties the buffer. */
  lemma ZeroIsAmbiguous(k: Incoming, rtmo: int, oob: bool, buf: seq<byte>, s: seq<byte>, rest: seq<byte>)
    requires |s| < INT_LIMIT && k.data == Frame(s) + rest && Delivers(k, rtmo, oob, |s|)
    ensures Receive(k, rtmo, oob, buf).call == Returned(0) <==> s == []
    ensures s == [] ==> Receive(k, rtmo, oob, buf).buf == []
  {
    hide Receive, Delivers, Frame;
    ReceiveFrame(k, rtmo, oob, buf, s, rest, |s|);
  }

  // ---------------------------------------------------------------------------------------------
  // The methods
  // ---------------------------------------------------------------------------------------------

  method SendString(sb: SockBuf, s: seq<byte>) returns (r: PutSide.WriteResult)
    modifies sb.rep`outgoing
    ensures (sb.rep.outgoing, r) == Send(old(sb.rep.outgoing), sb.rep.stmo, s)
  {
    hide PutSide.WriteAll, SysWrite, BigEndian;
    if sb.rep.stmo != -1 {
      var ready := Head(sb.rep.outgoing.writable, Broken);
      sb.rep.outgoing := sb.rep.outgoing.(writable := Tail(sb.rep.outgoing.writable));
      if ready != Yes {
        return PutSide.Refused(if ready == No then TimedOut else OsError);
      }
    }
    var (k, wval) := SysWrite(sb.rep.outgoing, BigEndian(|s|));
    sb.rep.outgoing := k;
    if wval == -1 {
      return PutSide.Stopped(0);
    }
    var wlen := SendLoop(sb, s);
    return if wlen == |Payload(s)| then PutSide.Wrote(wlen) else PutSide.Stopped(wlen);
  }

  /** The loop of `send`; with fewer bytes than asked for it ended with the throw of `wlen`. */
  method SendLoop(sb: SockBuf, s: seq<byte>) returns (wlen: nat)
    modifies sb.rep`outgoing
    ensures (sb.rep.outgoing, wlen) == PutSide.WriteAll(old(sb.rep.outgoing), Payload(s))
  {
    ghost var k0, data := sb.rep.outgoing, Payload(s);
    var len := ToInt(|s|);
    assert len <= |s| && |data| == if len <= 0 then 0 else len;
    assert data == s[..|data|];
    hide *;
    PutSide.UnsentStart(k0, data);
    wlen := 0;
    while len > 0
      invariant wlen <= |data| && (if len < 0 then |data| == 0 else len == |data| - wlen)
      invariant PutSide.Unsent(k0, data, sb.rep.outgoing, wlen)
    {
      PutSide.UnsentStep(k0, data, sb.rep.outgoing, wlen);
      SliceOfPrefix(s, wlen, |data|);
      var (k, wval) := SysWrite(sb.rep.outgoing, s[wlen..wlen + len]);
      sb.rep.outgoing := k;
      if wval == -1 {
        return;
      }
      len := len - wval;
      wlen := wlen + wval;
    }
    PutSide.UnsentDone(k0, data, sb.rep.outgoing, wlen);
  }

  lemma SliceOfPrefix(s: seq<byte>, lo: nat, hi: nat)
    requires lo <= hi <= |s|
    ensures s[lo..hi] == s[..hi][lo..]
  {
  }

  method ReceiveString(sb: SockBuf, buf: seq<byte>) returns (buf': seq<byte>, r: Call)
    modifies sb.rep`incoming
    ensures Recv(sb.rep.incoming, buf', r) == Receive(old(sb.rep.incoming), sb.rep.rtmo, sb.rep.oob, buf)
  {
    buf' := buf;
    hide SysRead, FromBigEndian, Resize;
    r := sb.Admit();
    if r.Threw? {
      return;
    }
    var data := sb.rep.incoming.data;
    var (k1, rval) := SysRead(sb.rep.incoming, HEADER);
    sb.rep.incoming := k1;
    if rval == 0 {
      return buf, Returned(0);
    }
    if rval != HEADER {
      return buf, Threw(OsError);
    }
    var size := FromBigEndian(data[..HEADER]);
    buf' := Resize(buf, size);
    data := sb.rep.incoming.data;
    var (k2, n) := SysRead(sb.rep.incoming, size);
    sb.rep.incoming := k2;
    if n != -1 {
      buf' := data[..n] + buf'[n..];
    }
    return buf', Returned(if n == -1 then -1 else ToInt(n));
  }
}
