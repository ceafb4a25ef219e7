/** The file client `ftp::ftpbuf`: replies, commands, and the upload of a file over a data connection. */
module Ftp {
  import opened Basics
  import opened Octets
  import opened Kernel
  import opened Replies
  import opened FtpReplies
  import opened SockStream
  import opened Files
  import opened PortCodec
  import PutSide
  import GetSide
  import Lifetime

  // ---------------------------------------------------------------------------------------------
  // Upload
  // ---------------------------------------------------------------------------------------------

  /** The upload loop: what `sgetn` delivers of the source goes to `sputn`, up to the end or a throw. */
  function Pump(p: PutSide.PutArea, file: Incoming): (r: (PutSide.PutArea, Call))
    requires p.Valid()
    ensures r.0.Valid() && r.0.cap == p.cap
    decreases |file.data|
  {
    var (file1, n) := SysRead(file, BLOCK);
    if n <= 0 then (p, Returned(0))
    else
      var (p1, r) := PutSide.Xsputn(p, file.data[..n]);
      if r.Threw? then (p1, r) else Pump(p1, file1)
  }

  /** The loop only adds to the connection, and from the front of the source. */
  lemma {:induction false} PumpDelivers(p: PutSide.PutArea, file: Incoming)
    requires p.Valid() && p.cap > 0
    ensures Pump(p, file).1.Returned? && ReadThrough(file) ==>
              Pump(p, file).0.Total() == p.Total() + file.data
    decreases |file.data|
  {
    hide SysRead, PutSide.Xsputn;
    var (file1, n) := SysRead(file, BLOCK);
    if n > 0 {
      var block := file.data[..n];
      var (p1, r) := PutSide.Xsputn(p, block);
      if r.Returned? {
        PutSide.XsputnAppends(p, block);
        PutSide.AppendedAll(p, block, r, p1);
        PumpDelivers(p1, file1);
        assert file.data == block + file1.data;
        Assoc(p.Total(), block, file1.data);
      }
    }
  }

  /**
   Upload, end to end: if the source is read to its end and neither the loop nor the flush in the
   destructor throws, the bytes on the data connection are the file.
   */
  lemma UploadDelivers(p: PutSide.PutArea, file: Incoming)
    requires p.Valid() && p.cap > 0 && ReadThrough(file)
    requires Pump(p, file).1.Returned? && PutSide.Flush(Pump(p, file).0).1.Returned?
    ensures PutSide.Flush(Pump(p, file).0).0.out.sent == p.Total() + file.data
  {
    PumpDelivers(p, file);
    var f := PutSide.Flush(Pump(p, file).0).0;
    assert f.Total() == f.out.sent;
  }

  lemma {:induction false} PumpAble(p: PutSide.PutArea, file: Incoming, n: nat, timed: bool)
    requires PutSide.Able(p, |file.data| + n, timed)
    ensures p.Valid() && Pump(p, file).1.Returned? && PutSide.Able(Pump(p, file).0, n, timed)
    decreases |file.data|
  {
    PutSide.AbleIsValid(p, |file.data| + n, timed);
    hide SysRead, PutSide.Xsputn, PutSide.Able;
    var (file1, m) := SysRead(file, BLOCK);
    if m > 0 {
      var block := file.data[..m];
      PutSide.XsputnAble(p, block, |file1.data| + n, timed);
      PumpAble(PutSide.Xsputn(p, block).0, file1, n, timed);
    } else {
      PutSide.AbleLess(p, |file.data| + n, n, timed);
    }
  }

  /** Over a system that takes what it is given, a source that is read to its end is uploaded. */
  lemma UploadSucceeds(p: PutSide.PutArea, file: Incoming, timed: bool)
    requires PutSide.Able(p, |file.data|, timed) && ReadThrough(file)
    ensures p.Valid() && Pump(p, file).1.Returned? && PutSide.Flush(Pump(p, file).0).1.Returned?
    ensures PutSide.Flush(Pump(p, file).0).0.out.sent == p.Total() + file.data
  {
    PutSide.AbleIsValid(p, |file.data|, timed);
    hide Pump, PutSide.Flush, PutSide.Able;
    PumpAble(p, file, 0, timed);
    PutSide.FlushAble(Pump(p, file).0, 0, timed);
    UploadDelivers(p, file);
  }

  /** The upload half of `ftpdata`: the loop, and the end of the life of the connection `c`. */
  method Upload(c: SockBuf, file: Incoming, buf: array<byte>, closeFails: bool) returns (r: Call)
    requires c.PutValid() && c.rep.live > 0 && buf.Length == BLOCK + 1 && buf != c.pbuf
    modifies c`pptr, c`epptr, c.pbuf, c.rep`outgoing, buf
    modifies c.rep`cnt, c.rep`closes, c.rep`live, c.rep`failedFlushes
    ensures c.PutValid()
    ensures var (p, pumped) := Pump(old(c.Put()), file);
            var (q, flushed) := PutSide.Flush(p);
            && c.Put() == q
            && c.rep.Life() == Lifetime.Step(old(c.rep.Life()), Lifetime.Destroy(flushed.Returned?))
            && (r.Returned? <==> pumped.Returned? && flushed.Returned? && !(c.rep.cnt == 0 && closeFails))
  {
    hide Pump, PutSide.Flush;
    var pumped := PumpFile(c, file, buf);
    var ended := c.Destroy(closeFails);
    r := if pumped.Threw? then pumped else ended;
  }

  method PumpFile(c: SockBuf, file: Incoming, buf: array<byte>) returns (r: Call)
    requires c.PutValid() && buf.Length == BLOCK + 1 && buf != c.pbuf
    modifies c`pptr, c`epptr, c.pbuf, c.rep`outgoing, buf
    ensures c.PutValid()
    ensures (c.Put(), r) == Pump(old(c.Put()), file)
  {
    hide SysRead, PutSide.Xsputn;
    ghost var p0 := c.Put();
    var rest := file;
    while true
      invariant c.PutValid()
      invariant Pump(p0, file) == Pump(c.Put(), rest)
      decreases |rest.data|
    {
      var rest1, rdsz := ReadBlock(rest, buf);
      if rdsz <= 0 {
        return Returned(0);
      }
      assert buf[..rdsz] == rest.data[..rdsz];
      var wrsz := c.Xsputn(buf[..rdsz]);
      if wrsz.Threw? {
        return wrsz;
      }
      rest := rest1;
    }
  }

  // ---------------------------------------------------------------------------------------------
  // Download
  // ---------------------------------------------------------------------------------------------

  /** Where the download loop is after some turns: still going, ended by its condition, or left by a throw. */
  datatype Download = Going(g: GetSide.GetArea, text: seq<byte>) | Ended(text: seq<byte>) | Left(error: Error)

  /** One turn of the loop `while (sgetn(buf, 1024) != EOF)`. */
  function DownloadTurn(d: Download): (r: Download)
    requires d.Going? ==> d.g.Valid()
    ensures r.Going? ==> d.Going? && r.g.Valid() && r.g.cap == d.g.cap
  {
    match d
    case Going(g1, text) =>
      var (g2, bytes, r) := GetSide.Xsgetn(g1, BLOCK);
      if r.Threw? then Left(r.error)
      else if r.value == EOF then Ended(text)
      else Going(g2, text + bytes)
    case over => over
  }

  /** The loop for at most so many turns. */
  function DownloadFor(g: GetSide.GetArea, turns: nat): (d: Download)
    requires g.Valid()
    ensures d.Going? ==> d.g.Valid() && d.g.cap == g.cap
    decreases turns
  {
    if turns == 0 then Going(g, []) else DownloadTurn(DownloadFor(g, turns - 1))
  }

  /** Not ended; and going on, with the front of the stream passed on, 1024 bytes a turn as long as there are any. */
  ghost predicate Passing(s: seq<byte>, turns: nat, d: Download) {
    var n := Min(turns * BLOCK, |s|);
    !d.Ended? && (d.Going? ==> d.text == s[..n] && d.g.Stream() == s[n..])
  }

  lemma PassingMore(s: seq<byte>, turns: nat, g1: GetSide.GetArea, text: seq<byte>,
                    g2: GetSide.GetArea, bytes: seq<byte>, r: Call)
    requires g1.cap > 0 && Passing(s, turns, Going(g1, text))
    requires GetSide.TakesFront(g1, BLOCK, g2, bytes, r) && r.Returned?
    ensures r.value != EOF && Passing(s, turns + 1, Going(g2, text + bytes))
  {
    PrefixGrows(s, Min(turns * BLOCK, |s|), bytes, g2.Stream());
  }

  lemma PassingTurn(s: seq<byte>, turns: nat, d: Download)
    requires Passing(s, turns, d) && (d.Going? ==> d.g.Valid() && d.g.cap > 0)
    ensures Passing(s, turns + 1, DownloadTurn(d))
  {
    if d.Going? {
      GetSide.XsgetnTakesFront(d.g, BLOCK);
      hide GetSide.Xsgetn, GetSide.TakesFront, Min;
      var (g2, bytes, r) := GetSide.Xsgetn(d.g, BLOCK);
      if r.Returned? {
        PassingMore(s, turns, d.g, d.text, g2, bytes, r);
      }
    }
  }

  /** The loop waits for EOF, which `xsgetn` never returns: it goes on for any number of turns, or a read throws. */
  lemma {:induction false} DownloadNeverEnds(g: GetSide.GetArea, turns: nat)
    requires g.Valid() && g.cap > 0
    ensures Passing(g.Stream(), turns, DownloadFor(g, turns))
    decreases turns
  {
    if turns == 0 {
      assert Passing(g.Stream(), 0, Going(g, []));
    } else {
      hide DownloadTurn, Passing;
      DownloadNeverEnds(g, turns - 1);
      PassingTurn(g.Stream(), turns - 1, DownloadFor(g, turns - 1));
    }
  }

  /** Over a system that delivers what there is, no read throws either: the loop is going on for ever. */
  lemma {:induction false} DownloadGoesOn(g: GetSide.GetArea, turns: nat, n: nat)
    requires GetSide.Able(g, turns + n)
    ensures g.Valid() && DownloadFor(g, turns).Going? && GetSide.Able(DownloadFor(g, turns).g, n)
    decreases turns
  {
    GetSide.AbleIsValid(g, turns + n);
    hide GetSide.Able, GetSide.Xsgetn;
    if turns > 0 {
      DownloadGoesOn(g, turns - 1, n + 1);
      var d := DownloadFor(g, turns - 1);
      GetSide.XsgetnAble(d.g, BLOCK, n);
      NotEof(d.g, BLOCK);
    }
  }

  lemma NotEof(g: GetSide.GetArea, n: nat)
    requires g.Valid()
    ensures GetSide.Xsgetn(g, n).2 != Returned(EOF)
  {
    GetSide.XsgetnTakesFront(g, n);
    hide GetSide.Xsgetn;
  }

  lemma PrefixGrows(s: seq<byte>, n: nat, bytes: seq<byte>, rest: seq<byte>)
    requires n <= |s| && s[n..] == bytes + rest
    ensures n + |bytes| <= |s| && s[..n] + bytes == s[..n + |bytes|] && rest == s[n + |bytes|..]
  {
    SliceOfConcat(bytes, rest, |bytes|);
    assert s == s[..n] + (bytes + rest);
  }

  // ---------------------------------------------------------------------------------------------
  // The control connection
  // ---------------------------------------------------------------------------------------------

  const PORT: seq<byte> := [80, 79, 82, 84]

  /** The code stored once a line has been seen. */
  function NextCode(first: bool, start: seq<byte>, code: seq<byte>): (r: seq<byte>)
    requires |start| == |code| == 4
    ensures |r| == 4
  {
    if first then CodeOf(start) else code
  }

  /** Does the line end the reply? */
  predicate EndsReply(first: bool, start: seq<byte>, code: seq<byte>)
    requires |start| == |code| == 4
  {
    if first then start[3] == SP else Strncmp(start, code)
  }

  /** The loop is about to read the first piece, or a later one after the pieces `taken`. */
  ghost predicate Reading(all: FtpResult, first: bool, taken: seq<Piece>, g: GetSide.GetArea, code: seq<byte>)
    requires g.Valid() && |code| == 4
  {
    if first then taken == [] && all == FtpReply(g, code)
    else
      var rest := FtpRest(g, code);
      all.g == rest.0 && all.pieces == taken + rest.1 && all.ending == rest.2 && all.code == code
  }

  ghost predicate Finished(all: FtpResult, taken: seq<Piece>, g: GetSide.GetArea, code: seq<byte>, r: Call) {
    all == FtpResult(g, taken, code, Ends(r))
  }

  lemma FtpTurnNone(all: FtpResult, first: bool, taken: seq<Piece>, g: GetSide.GetArea, code: seq<byte>, turn: PieceTurn)
    requires g.Valid() && |code| == 4 && Reading(all, first, taken, g, code)
    requires turn == TakePiece(g) && turn.Nothing?
    ensures Finished(all, taken, turn.g, code, if turn.call.Threw? then turn.call else Returned(code[0] as int))
  {
    hide TakePiece;
    assert taken + [] == taken;
  }

  lemma FtpTurnPiece(all: FtpResult, first: bool, taken: seq<Piece>, g: GetSide.GetArea, code: seq<byte>, turn: PieceTurn)
    requires g.Valid() && |code| == 4 && Reading(all, first, taken, g, code)
    requires turn == TakePiece(g) && turn.Taken?
    ensures var code1 := NextCode(first, turn.start, code);
            if EndsReply(first, turn.start, code)
            then Finished(all, taken + [turn.piece], turn.g, code1, Returned(code1[0] as int))
            else Reading(all, false, taken + [turn.piece], turn.g, code1)
  {
    hide TakePiece, FtpRest;
    assert [] + [turn.piece] == [turn.piece];
    if !first {
      FtpRestStep(g, code);
      Assoc(taken, [turn.piece], FtpRest(turn.g, code).1);
    } else {
      FtpReplyStep(g, code);
    }
  }

  lemma ReadingFirst(g: GetSide.GetArea, code: seq<byte>)
    requires g.Valid() && |code| == 4
    ensures Reading(FtpReply(g, code), true, [], g, code)
  {
  }

  /** Where the loop ends, no turn is stuck. */
  lemma ReadingGoesOn(all: FtpResult, first: bool, taken: seq<Piece>, g: GetSide.GetArea, code: seq<byte>)
    requires g.Valid() && |code| == 4 && Reading(all, first, taken, g, code) && all.ending.Ends?
    ensures !TakePiece(g).TooFew? && !TakeLine(g).Short?
  {
    hide TakeLine;
  }

  lemma FinishedMeans(all: FtpResult, taken: seq<Piece>, g: GetSide.GetArea, code: seq<byte>, r: Call)
    requires Finished(all, taken, g, code, r)
    ensures all.g == g && all.pieces == taken && all.code == code && all.ending == Ends(r)
  {
  }

  /** The piece a turn takes, from what the scan finds. */
  lemma PieceOfTurn(g: GetSide.GetArea)
    requires g.Valid()
    ensures var line, turn := TakeLine(g), TakePiece(g);
            && (line.NoLine? ==> turn == Nothing(line.g, line.call))
            && (line.Line? ==> turn == Taken(line.g, Piece(line.line, false), line.start))
            && (line.Ragged? ==> turn == Taken(line.g.(unread := []), Piece(line.g.unread, true), line.start))
            && (turn.Taken? ==> |turn.g.Stream()| < |g.Stream()| && |turn.start| == 4)
  {
    hide TakeLine;
  }

  // ---------------------------------------------------------------------------------------------
  // Commands
  // ---------------------------------------------------------------------------------------------

  /** What `send_cmd` sends: the command, a space and the argument if there is one, and the line end. */
  function CommandLine(cmd: seq<byte>, arg: Option<seq<byte>>): seq<seq<byte>> {
    [cmd] + (if arg.Some? then [[SP], arg.value] else []) + [CRLF]
  }

  /** `send_cmd`: a reply is read only when nothing threw. */
  function Command(put: PutSide.PutArea, get: GetSide.GetArea, code: seq<byte>, line: seq<seq<byte>>):
      (r: (PutSide.PutArea, FtpResult))
    requires put.Valid() && get.Valid() && |code| == 4
    ensures r.0.Valid() && r.1.g.Valid() && |r.1.code| == 4
  {
    var (p, c) := PutSide.Send(put, line);
    (p, if c.Threw? then FtpResult(get, [], code, Ends(c)) else FtpReply(get, code))
  }

  /**
   A command that has gone out, with a whole reply in front of the stream: it passes on and leaves exactly the reply
   and the rest if and only if each line is there when its turn comes; in any case it reads as `get_response` does.
   */
  lemma CommandReads(put: PutSide.PutArea, get: GetSide.GetArea, was: seq<byte>, line: seq<seq<byte>>,
                     lines: seq<seq<byte>>, code: seq<byte>, rest: seq<byte>)
    requires put.Valid() && get.Valid() && get.cap > 0 && |was| == 4 && PutSide.Send(put, line).1.Returned?
    requires IsFtpReply(lines, code) && get.Stream() == Concat(lines) + rest
    ensures var (p, f) := Command(put, get, was, line);
            && p == PutSide.Send(put, line).0 && f == FtpReply(get, was)
            && (f.Returned() && PassesOn(f.pieces, Concat(lines)) && f.g.Stream() == rest <==> Served(get, lines))
            && (Served(get, lines) ==> f.code == code && f.ending.call == Returned(code[0] as int))
  {
    FtpReadsWholeReply(get, lines, code, was, rest);
    hide PutSide.Send, FtpReply, IsFtpReply, PassesOn, Concat, Served;
  }

  /** When the sending throws, no reply is read and the code stays. */
  lemma CommandReadsNot(put: PutSide.PutArea, get: GetSide.GetArea, was: seq<byte>, line: seq<seq<byte>>)
    requires put.Valid() && get.Valid() && |was| == 4 && PutSide.Send(put, line).1.Threw?
    ensures var (p, r) := PutSide.Send(put, line);
            Command(put, get, was, line) == (p, FtpResult(get, [], was, Ends(r)))
  {
    hide PutSide.Send, FtpReply;
  }

  /** The bytes of a PORT command. */
  function PortLine(h: Address, port: nat): seq<byte> {
    PORT + [SP] + PortArgument(h, port) + CRLF
  }

  /**
   When the PORT command goes out, exactly one line has been sent, and a server that parses its argument gets
   the address and port of the listening socket.
   */
  lemma PortCommandArrives(put: PutSide.PutArea, h: Address, port: nat)
    requires put.Valid() && put.cap > 0 && port < 0x1_0000
    requires PutSide.Send(put, CommandLine(PORT, Some(PortArgument(h, port)))).1.Returned?
    ensures var sent := PutSide.Send(put, CommandLine(PORT, Some(PortArgument(h, port)))).0.out.sent;
            && sent == put.Total() + PortLine(h, port)
            && ParsePort(PortLine(h, port)[5..|PortLine(h, port)| - 2]) == Some((h, port))
  {
    hide PortArgument, ParsePort, PutSide.Send;
    var arg := PortArgument(h, port);
    var line := CommandLine(PORT, Some(arg));
    PutSide.SendDelivers(put, line);
    assert line == [PORT] + ([[SP]] + ([arg] + [CRLF]));
    ConcatCons(PORT, [[SP]] + ([arg] + [CRLF]));
    ConcatCons([SP], [arg] + [CRLF]);
    ConcatCons(arg, [CRLF]);
    ConcatOne(CRLF);
    assert PortLine(h, port) == PORT + ([SP] + (arg + CRLF));
    assert PortLine(h, port)[5..|PortLine(h, port)| - 2] == arg;
    PortRoundTrip(h, port);
  }

  /** The address of the socket, or that of the machine when it is 0. */
  function Chosen(sa: Address, host: Option<Address>): Address {
    if sa == Address(0, 0, 0, 0) && host.Some? then host.value else sa
  }

  /** The server gets the address of the socket, unless that is 0, and then that of the machine. */
  lemma UserAddrArrives(put: PutSide.PutArea, sa: Address, host: Option<Address>, port: nat)
    requires put.Valid() && put.cap > 0 && port < 0x1_0000
    requires sa != Address(0, 0, 0, 0) || host.Some?
    requires PutSide.Send(put, CommandLine(PORT, Some(PortArgument(Chosen(sa, host), port)))).1.Returned?
    ensures var h := if sa != Address(0, 0, 0, 0) then sa else host.value;
            && PutSide.Send(put, CommandLine(PORT, Some(PortArgument(Chosen(sa, host), port)))).0.out.sent
               == put.Total() + PortLine(h, port)
            && ParsePort(PortLine(h, port)[5..|PortLine(h, port)| - 2]) == Some((h, port))
  {
    var h := Chosen(sa, host);
    assert h == if sa != Address(0, 0, 0, 0) then sa else host.value;
    PortCommandArrives(put, h, port);
    hide *;
  }

  class FtpBuf {
    const sb: SockBuf
    const o: bool
    const replycode: array<byte>
    var shown: seq<byte>

    constructor (sb: SockBuf, o: bool)
      ensures this.sb == sb && this.o == o && shown == []
      ensures fresh(replycode) && replycode.Length == 5 && replycode[4] == NUL
    {
      this.sb, this.o := sb, o;
      shown := [];
      replycode := new byte[5];
      new;
      replycode[4] := NUL;
    }

    /** Does a line that starts with `q` end the reply?  The first line also sets the code. */
    method Closes(q: seq<byte>, firstline: bool) returns (done: bool)
      requires replycode.Length == 5 && |q| == 4
      modifies replycode
      ensures replycode[..4] == NextCode(firstline, q, old(replycode[..4]))
      ensures done == EndsReply(firstline, q, old(replycode[..4]))
    {
      if firstline {
        var c := CodeOf(q);
        replycode[0], replycode[1], replycode[2], replycode[3] := c[0], c[1], c[2], c[3];
        done := q[3] == SP;
      } else {
        done := Strncmp(q, replycode[..4]);
      }
    }

    /**
     `o->write(q, i)`, if there is a stream, and `gbump(i)`: for a line; or, when none is found, for all that is
     buffered and the byte behind it, which is in the buffer unless that is full.
     */
    method PassOn(line: seq<byte>, ghost piece: Piece, ghost taken: seq<Piece>, ghost strays: seq<byte>, ghost was: seq<byte>)
      returns (ghost strays1: seq<byte>)
      requires sb.GetValid() && sb.gbuf != null && sb.gptr + 5 <= sb.egptr && sb.gptr + |line| <= sb.egptr
      requires piece == if line == [] then Piece(sb.Get().unread, true) else Piece(line, false)
      requires |strays| == Cuts(taken) && Shown(was, o, Rendered(taken, strays), shown)
      modifies sb`gptr, this`shown
      ensures sb.GetValid()
      ensures var q := old(sb.Get()).unread;
              sb.Get() == old(sb.Get()).(unread := if line == [] then [] else if |line| <= |q| then q[|line|..] else [])
      ensures |strays1| == Cuts(taken + [piece]) && Shown(was, o, Rendered(taken + [piece], strays1), shown)
      ensures line == [] ==> |strays1| == |strays| + 1
      ensures line == [] && sb.egptr < sb.gbuf.Length ==> strays1 == strays + [sb.gbuf[sb.egptr]]
    {
      var bytes, more: seq<byte> := line, [];
      if line == [] {
        var stray: byte := *;
        if sb.egptr < sb.gbuf.Length {
          stray := sb.gbuf[sb.egptr];
        }
        bytes, more := sb.gbuf[sb.gptr..sb.egptr], [stray];
      }
      strays1 := strays + more;
      RenderedOne(taken, strays, piece, if line == [] then more[0] else NUL);
      hide Rendered, Cuts;
      ghost var mid := shown;
      var text := bytes + more;
      assert text == piece.bytes + (if piece.cut then more else []);
      if o {
        shown := shown + text;
      }
      ShownLine(mid, o, text, shown);
      ShownThen(was, o, Rendered(taken, strays), mid, text, shown);
      sb.Gbump(|text|);
    }

    /** The scan, and the piece that the turn is going to take: without a line end, all that is buffered. */
    method NextPiece() returns (u: Call, line: seq<byte>, start: seq<byte>, ghost turn: PieceTurn)
      requires sb.GetValid() && !TakeLine(sb.Get()).Short?
      modifies sb`gptr, sb`egptr, sb.gbuf, sb.rep`incoming
      ensures sb.GetValid() && turn == TakePiece(old(sb.Get())) && (turn.Taken? || turn.Nothing?)
      ensures turn.Nothing? <==> u.Threw? || u.value == EOF
      ensures turn.Nothing? ==> sb.Get() == turn.g && u == turn.call
      ensures turn.Taken? ==>
                && sb.gbuf != null && sb.gptr + 5 <= sb.egptr && sb.gptr + |line| <= sb.egptr && start == turn.start
                && turn.piece == (if line == [] then Piece(sb.Get().unread, true) else Piece(line, false))
                && |turn.start| == 4 && |turn.g.Stream()| < |old(sb.Get()).Stream()|
      ensures turn.Taken? ==>
                var q := sb.Get().unread;
                turn.g == sb.Get().(unread := if line == [] then [] else if |line| <= |q| then q[|line|..] else [])
    {
      PieceOfTurn(sb.Get());
      turn := TakePiece(sb.Get());
      ghost var found;
      hide TakeLine, TakePiece;
      u, line, start, found := NextLine(sb);
    }

    /** One turn of the loop: with `stop` it has ended and returned or thrown `r`. */
    method ReadPiece(firstline: bool, ghost all: FtpResult, ghost taken: seq<Piece>, ghost strays: seq<byte>,
                     ghost was: seq<byte>)
      returns (stop: bool, r: Call, ghost taken1: seq<Piece>, ghost strays1: seq<byte>)
      requires replycode.Length == 5 && replycode != sb.gbuf
      requires sb.GetValid() && all.ending.Ends?
      requires Reading(all, firstline, taken, sb.Get(), replycode[..4])
      requires |strays| == Cuts(taken) && Shown(was, o, Rendered(taken, strays), shown)
      modifies sb`gptr, sb`egptr, sb.gbuf, sb.rep`incoming, this`shown, replycode
      ensures sb.GetValid()
      ensures |strays1| == Cuts(taken1) && Shown(was, o, Rendered(taken1, strays1), shown)
      ensures stop ==> Finished(all, taken1, sb.Get(), replycode[..4], r)
      ensures !stop ==> Reading(all, false, taken1, sb.Get(), replycode[..4])
      ensures !stop ==> |sb.Get().Stream()| < old(|sb.Get().Stream()|)
    {
      ghost var code := replycode[..4];
      hide *;
      ghost var g := sb.Get();
      assert replycode[0] == code[0];
      ReadingGoesOn(all, firstline, taken, g, code);
      var u, line, start, turn := NextPiece();
      if u.Threw? || u.value == EOF {
        FtpTurnNone(all, firstline, taken, g, code, turn);
        return true, if u.Threw? then u else Returned(replycode[0] as int), taken, strays;
      }
      FtpTurnPiece(all, firstline, taken, g, code, turn);
      strays1 := PassOn(line, turn.piece, taken, strays, was);
      taken1 := taken + [turn.piece];
      stop := Closes(start, firstline);
      assert replycode[0] == replycode[..4][0];
      r := Returned(replycode[0] as int);
    }

    /**
     A whole reply; it returns the first digit of the code.  Called only where the loop ends.  `strays` are the bytes
     passed on behind the cut pieces.
     */
    method GetResponse() returns (r: Call, ghost strays: seq<byte>)
      requires replycode.Length == 5 && replycode != sb.gbuf
      requires sb.GetValid() && FtpReply(sb.Get(), replycode[..4]).ending.Ends?
      modifies sb`gptr, sb`egptr, sb.gbuf, sb.rep`incoming, this`shown, replycode
      ensures sb.GetValid()
      ensures var f := FtpReply(old(sb.Get()), old(replycode[..4]));
              && sb.Get() == f.g && replycode[..4] == f.code && Ends(r) == f.ending
              && |strays| == Cuts(f.pieces) && Shown(old(shown), o, Rendered(f.pieces, strays), shown)
    {
      ghost var all := FtpReply(sb.Get(), replycode[..4]);
      ghost var taken: seq<Piece> := [];
      strays := [];
      assert Cuts(taken) == 0 && Rendered(taken, strays) == [];
      hide *;
      var firstline := true;
      ReadingFirst(sb.Get(), replycode[..4]);
      ShownNothing(shown, o);
      while true
        invariant sb.GetValid() && all.ending.Ends?
        invariant Reading(all, firstline, taken, sb.Get(), replycode[..4])
        invariant |strays| == Cuts(taken) && Shown(old(shown), o, Rendered(taken, strays), shown)
        decreases |sb.Get().Stream()|
      {
        var stop;
        stop, r, taken, strays := ReadPiece(firstline, all, taken, strays, old(shown));
        if stop {
          FinishedMeans(all, taken, sb.Get(), replycode[..4], r);
          return;
        }
        firstline := false;
      }
    }

    method SendCmd(cmd: seq<byte>, arg: Option<seq<byte>>) returns (r: Call, ghost strays: seq<byte>)
      requires replycode.Length == 5 && replycode != sb.gbuf && replycode != sb.pbuf
      requires sb.Valid()
      requires Command(sb.Put(), sb.Get(), replycode[..4], CommandLine(cmd, arg)).1.ending.Ends?
      modifies sb`pptr, sb`epptr, sb.pbuf, sb.rep`outgoing
      modifies sb`gptr, sb`egptr, sb.gbuf, sb.rep`incoming, this`shown, replycode
      ensures sb.Valid()
      ensures var (p, f) := Command(old(sb.Put()), old(sb.Get()), old(replycode[..4]), CommandLine(cmd, arg));
              && sb.Put() == p && sb.Get() == f.g && replycode[..4] == f.code && Ends(r) == f.ending
              && |strays| == Cuts(f.pieces) && Shown(old(shown), o, Rendered(f.pieces, strays), shown)
    {
      hide PutSide.Send, CommandLine, FtpReply, Shown;
      r := SendLine(cmd, arg);
      if r.Threw? {
        strays := [];
        assert Rendered([], strays) == [];
        ShownNothing(shown, o);
        return;
      }
      r, strays := GetResponse();
    }

    method SendLine(cmd: seq<byte>, arg: Option<seq<byte>>) returns (r: Call)
      requires sb.PutValid()
      modifies sb`pptr, sb`epptr, sb.pbuf, sb.rep`outgoing
      ensures sb.PutValid()
      ensures (sb.Put(), r) == PutSide.Send(old(sb.Put()), CommandLine(cmd, arg))
    {
      var p := if arg.Some? then [[SP], arg.value] else [];
      CommandLineParts(cmd, arg);
      hide *;
      PutSide.SendCons(sb.Put(), cmd, if arg.Some? then [[SP]] + ([arg.value] + ([CRLF] + [])) else [CRLF] + []);
      r := sb.Xsputn(cmd);
      if r.Threw? {
        return;
      }
      if arg.Some? {
        PutSide.SendCons(sb.Put(), [SP], [arg.value] + ([CRLF] + []));
        r := sb.Xsputn([SP]);
        if r.Threw? {
          return;
        }
        PutSide.SendCons(sb.Put(), arg.value, [CRLF] + []);
        r := sb.Xsputn(arg.value);
        if r.Threw? {
          return;
        }
      }
      PutSide.SendCons(sb.Put(), CRLF, []);
      r := sb.Xsputn(CRLF);
      if r.Threw? {
        return;
      }
      PutSide.SendNone(sb.Put());
      r := sb.Sync();
    }

    /**
     `useraddr`: `sa` is the address of the listening socket; where it is 0, `host` is what the name of the
     machine resolves to, if it does.
     */
    method UserAddr(sa: Address, port: nat, host: Option<Address>) returns (r: Call, ghost strays: seq<byte>)
      requires port < 0x1_0000
      requires replycode.Length == 5 && replycode != sb.gbuf && replycode != sb.pbuf
      requires sb.Valid()
      requires sa != Address(0, 0, 0, 0) || host.Some? ==>
                 Command(sb.Put(), sb.Get(), replycode[..4],
                         CommandLine(PORT, Some(PortArgument(Chosen(sa, host), port)))).1.ending.Ends?
      modifies sb`pptr, sb`epptr, sb.pbuf, sb.rep`outgoing
      modifies sb`gptr, sb`egptr, sb.gbuf, sb.rep`incoming, this`shown, replycode
      ensures sb.Valid()
      ensures sa == Address(0, 0, 0, 0) && host.None? ==>
                r == Threw(OsError) && sb.Put() == old(sb.Put()) && sb.Get() == old(sb.Get())
                && replycode[..4] == old(replycode[..4]) && shown == old(shown)
      ensures sa != Address(0, 0, 0, 0) || host.Some? ==>
                var (p, f) := Command(old(sb.Put()), old(sb.Get()), old(replycode[..4]),
                                      CommandLine(PORT, Some(PortArgument(Chosen(sa, host), port))));
                && sb.Put() == p && sb.Get() == f.g && replycode[..4] == f.code && Ends(r) == f.ending
                && |strays| == Cuts(f.pieces) && Shown(old(shown), o, Rendered(f.pieces, strays), shown)
    {
      var h := sa;
      if sa == Address(0, 0, 0, 0) {
        if host.None? {
          return Threw(OsError), [];
        }
        h := host.value;
      }
      var addr := new byte[80];
      var len := FormatArgument(h, port, addr);
      hide Command, PortArgument, Shown;
      r, strays := SendCmd(PORT, Some(addr[..len]));
    }
  }

  lemma CommandLineParts(cmd: seq<byte>, arg: Option<seq<byte>>)
    ensures arg.Some? ==> CommandLine(cmd, arg) == [cmd] + ([[SP]] + ([arg.value] + ([CRLF] + [])))
    ensures arg.None? ==> CommandLine(cmd, arg) == [cmd] + ([CRLF] + [])
  {
  }
}
