/** The mail client `smtp::smtpbuf`: replies, commands, and the message body. */
module Smtp {
  import opened Octets
  import opened Kernel
  import opened Lines
  import opened Replies
  import opened SockStream
  import opened Files
  import opened SmtpText
  import PutSide
  import GetSide

  /**
   `send_buf` over the buffer in memory: `len` bytes at the start of `buf`.  The byte behind them must be
   readable when the last one is LF, because the loop looks at it.
   */
  ghost predicate Readable(buf: array<byte>, len: int)
    reads buf
  {
    len <= buf.Length && (0 < len && buf[len - 1] == LF ==> len < buf.Length)
  }

  /** The byte behind the buffer; where it must not be looked at, its value does not matter. */
  ghost function Behind(buf: array<byte>, len: int): byte
    requires len <= buf.Length
    reads buf
  {
    if 0 < len < buf.Length then buf[len] else NUL
  }

  ghost function Message(buf: array<byte>, len: int): seq<byte>
    requires len <= buf.Length
    reads buf
  {
    if len <= 0 then [] else buf[..len]
  }

  lemma SmtpAfterTurn(taken: seq<byte>, g: GetSide.GetArea)
    requires g.Valid()
    ensures match TakeLine(g)
            case NoLine(g1, u) =>
              && SmtpReply(g).0 == g1 && taken + SmtpReply(g).1 == taken
              && SmtpReply(g).2 == Ends(if u.Threw? then u else Returned(0))
            case Line(g1, line, start) =>
              if start[3] != DASH then SmtpReply(g) == (g1, line, Ends(Returned(0)))
              else
                && SmtpReply(g).0 == SmtpReply(g1).0 && SmtpReply(g).2 == SmtpReply(g1).2
                && taken + SmtpReply(g).1 == (taken + line) + SmtpReply(g1).1
            case Short(_) => SmtpReply(g).2 == Spins
            case Ragged(g1, start) =>
              if start[3] != DASH then
                SmtpReply(g) == (g1, [], Ends(Returned(0))) && taken + SmtpReply(g).1 == taken
              else SmtpReply(g).2 == Spins
  {
    var turn := TakeLine(g);
    if turn.Line? {
      Assoc(taken, turn.line, SmtpReply(turn.g).1);
    } else {
      assert taken + [] == taken;
    }
  }

  /** What is left for the loop before and after one turn. */
  lemma PutEmitted(p: PutSide.PutArea, m: seq<byte>, after: byte)
    requires p.Valid() && m != []
    ensures var (q, r) := PutSide.PutChars(p, EmitOne(m, after));
            PutSide.PutChars(p, Emit(m, after)) ==
              if r.Threw? then (q, r) else PutSide.PutChars(q, Emit(m[1..], after))
  {
    PutSide.PutCharsSplit(p, EmitOne(m, after), Emit(m[1..], after));
    hide EmitOne, PutSide.PutChars;
  }

  // ---------------------------------------------------------------------------------------------
  // A session as a value
  // ---------------------------------------------------------------------------------------------

  const DATA: seq<byte> := [68, 65, 84, 65]

  /** Both areas of the connection and what has been passed on to the output stream. */
  datatype Session = Session(put: PutSide.PutArea, get: GetSide.GetArea, shown: seq<byte>) {
    predicate Valid() {
      put.Valid() && get.Valid()
    }
  }

  predicate Fine(e: Ending) {
    e.Ends? && e.call.Returned?
  }

  /** `if (o) get_response()` */
  function Answer(s: Session, o: bool): (r: (Session, Ending))
    requires s.Valid()
    ensures r.0.Valid() && r.0.put == s.put && r.0.get.cap == s.get.cap
  {
    if o then
      var (g, text, e) := SmtpReply(s.get);
      (s.(get := g, shown := s.shown + text), e)
    else (s, Ends(Returned(0)))
  }

  /** `send_cmd`: an argument that is not given is an empty block. */
  function Command(s: Session, o: bool, blocks: seq<seq<byte>>): (r: (Session, Ending))
    requires s.Valid()
    ensures r.0.Valid() && r.0.put.cap == s.put.cap && r.0.get.cap == s.get.cap
  {
    var (p, r) := PutSide.Send(s.put, blocks + [CRLF]);
    if r.Threw? then (s.(put := p), Ends(r)) else Answer(s.(put := p), o)
  }

  /** The terminator, `sync`, and the answer. */
  function Finish(s: Session, o: bool): (r: (Session, Ending))
    requires s.Valid()
    ensures r.0.Valid() && r.0.put.cap == s.put.cap
  {
    var (p, c) := PutSide.Send(s.put, [TERM]);
    if c.Threw? then (s.(put := p), Ends(c)) else Answer(s.(put := p), o)
  }

  /** The body byte by byte, and the end of the data. */
  function Body(s: Session, o: bool, body: seq<byte>): (r: (Session, Ending))
    requires s.Valid()
    ensures r.0.Valid() && r.0.put.cap == s.put.cap
  {
    var (p1, r1) := PutSide.PutChars(s.put, body);
    if r1.Threw? then (s.(put := p1), Ends(r1)) else Finish(s.(put := p1), o)
  }

  /** `data`: the command, and the body if the command went well. */
  function Mail(s: Session, o: bool, body: seq<byte>): (r: (Session, Ending))
    requires s.Valid()
    ensures r.0.Valid() && r.0.put.cap == s.put.cap
  {
    var (s1, e) := Command(s, o, [DATA, [], []]);
    if Fine(e) then Body(s1, o, body) else (s1, e)
  }

  lemma BodyDelivers(s: Session, o: bool, body: seq<byte>)
    requires s.Valid() && s.put.cap > 0 && Fine(Body(s, o, body).1)
    ensures Body(s, o, body).0.put.pending == []
    ensures Body(s, o, body).0.put.out.sent == s.put.Total() + body + TERM
  {
    hide PutSide.PutChars, PutSide.Send, SmtpReply;
    var (p1, r1) := PutSide.PutChars(s.put, body);
    PutSide.PutCharsAppends(s.put, body);
    PutSide.AppendedAll(s.put, body, r1, p1);
    PutSide.SendDelivers(p1, [TERM]);
    ConcatOne(TERM);
  }

  /** When `data` goes well, exactly the command line, the body and the terminator have been sent. */
  lemma MailDelivers(s: Session, o: bool, body: seq<byte>)
    requires s.Valid() && s.put.cap > 0 && Fine(Mail(s, o, body).1)
    ensures Mail(s, o, body).0.put.pending == []
    ensures Mail(s, o, body).0.put.out.sent == s.put.Total() + (DATA + CRLF) + (body + TERM)
  {
    hide PutSide.Send, Body, SmtpReply;
    var s1 := Command(s, o, [DATA, [], []]).0;
    var blocks := [DATA, [], []] + [CRLF];
    PutSide.SendDelivers(s.put, blocks);
    DataLine();
    BodyDelivers(s1, o, body);
    Assoc(s1.put.Total(), body, TERM);
  }

  /**
   A message in one buffer, end to end: when `data` goes well, a receiver that has read the command
   line gets the message and one line end, and is exactly at the end of what was sent, if and only if
   the message does not end in LF with a period behind it in memory.  Otherwise it stops before.
   */
  lemma MessageArrives(s: Session, o: bool, m: seq<byte>, after: byte)
    requires s.Valid() && s.put.cap > 0 && Fine(Mail(s, o, Encode(m, after)).1)
    ensures var before := |s.put.Total() + (DATA + CRLF)|;
            var sent := Mail(s, o, Encode(m, after)).0.put.out.sent;
            && before <= |sent|
            && (Receive(sent[before..]) == Complete(m + [LF], []) <==> !StrayDot(m, after))
            && Receive(sent[before..]).Complete? && (Receive(sent[before..]).rest == [] <==> !StrayDot(m, after))
  {
    hide Mail, Receive, Encode;
    var body := Encode(m, after);
    MailDelivers(s, o, body);
    RoundTrip(m, after, []);
    OneChunk(m, after);
    ChunksStopAtEnd(if m == [] then [] else [Chunk(m, after)], []);
    assert body + TERM + [] == body + TERM;
  }

  // ---------------------------------------------------------------------------------------------
  // The replies
  // ---------------------------------------------------------------------------------------------

  /**
   A command that has gone out, with a whole reply in front of the stream: what is shown, what is left and how it
   ends are those of the delivery of the reply's lines.  So it ends well having shown exactly the reply if and only if
   each line is there when its turn comes.
   */
  lemma CommandReads(s: Session, blocks: seq<seq<byte>>, lines: seq<seq<byte>>, rest: seq<byte>)
    requires s.Valid() && s.get.cap > 0 && PutSide.Send(s.put, blocks + [CRLF]).1.Returned?
    requires IsSmtpReply(lines) && s.get.Stream() == Concat(lines) + rest
    ensures var t, d := Command(s, true, blocks), Deliver(s.get, lines);
            && t.0 == Session(PutSide.Send(s.put, blocks + [CRLF]).0, d.g, s.shown + Concat(lines[..d.taken]))
            && t.1 == SmtpEnding(d)
            && (t.1 == Ends(Returned(0)) && t.0.shown == s.shown + Concat(lines) <==> Served(s.get, lines))
            && (Served(s.get, lines) ==> t.0.get.Stream() == rest)
  {
    SmtpReadsWholeReply(s.get, lines, rest);
    hide PutSide.Send, SmtpReply, IsSmtpReply, Deliver, Concat;
    SameBehind(s.shown, SmtpReply(s.get).1, Concat(lines));
  }

  lemma SameBehind(a: seq<byte>, b: seq<byte>, c: seq<byte>)
    ensures a + b == a + c <==> b == c
  {
    assert (a + b)[|a|..] == b && (a + c)[|a|..] == c;
  }

  /** Without an output stream, or when the sending throws, no reply is read. */
  lemma CommandReadsNot(s: Session, o: bool, blocks: seq<seq<byte>>)
    requires s.Valid() && (!o || PutSide.Send(s.put, blocks + [CRLF]).1.Threw?)
    ensures var (p, r) := PutSide.Send(s.put, blocks + [CRLF]);
            Command(s, o, blocks) == (s.(put := p), Ends(if r.Threw? then r else Returned(0)))
  {
    hide PutSide.Send;
  }

  /** Do the command, the body and the terminator go out? */
  predicate MailSent(p: PutSide.PutArea, body: seq<byte>)
    requires p.Valid()
  {
    var (p1, r1) := PutSide.Send(p, [DATA, [], []] + [CRLF]);
    r1.Returned? &&
    (var (p2, r2) := PutSide.PutChars(p1, body);
     r2.Returned? && PutSide.Send(p2, [TERM]).1.Returned?)
  }

  /** Over a system that takes what it is given they do. */
  lemma MailAble(p: PutSide.PutArea, body: seq<byte>, n: nat, timed: bool)
    requires PutSide.Able(p, |DATA + CRLF| + |body| + |TERM| + n, timed)
    ensures p.Valid() && MailSent(p, body)
  {
    PutSide.AbleIsValid(p, |DATA + CRLF| + |body| + |TERM| + n, timed);
    var blocks := [DATA, [], []] + [CRLF];
    DataLine();
    ConcatOne(TERM);
    hide PutSide.Able, PutSide.Send, PutSide.PutChars, Concat;
    PutSide.SendAble(p, blocks, |body| + |TERM| + n, timed);
    var p1 := PutSide.Send(p, blocks).0;
    PutSide.PutCharsAble(p1, body, |TERM| + n, timed);
    PutSide.SendAble(PutSide.PutChars(p1, body).0, [TERM], n, timed);
  }

  lemma DataLine()
    ensures Concat([DATA, [], []] + [CRLF]) == DATA + CRLF
  {
    assert [DATA, [], []] + [CRLF] == [DATA] + ([[]] + ([[]] + [CRLF]));
    ConcatCons(DATA, [[]] + ([[]] + [CRLF]));
    ConcatCons([], [[]] + [CRLF]);
    ConcatCons([], [CRLF]);
    ConcatOne(CRLF);
  }

  /** How `data` goes once everything has gone out: the answer to the command, and if that is fine the one to the mail. */
  lemma MailWhenSent(s: Session, o: bool, body: seq<byte>)
    requires s.Valid() && MailSent(s.put, body)
    ensures var (t, e), (a1, e1) := Mail(s, o, body), Answer(s, o);
            if !Fine(e1) then e == e1 && t.get == a1.get && t.shown == a1.shown
            else
              var (a2, e2) := Answer(a1, o);
              e == e2 && t.get == a2.get && t.shown == a2.shown
  {
    hide PutSide.Send, PutSide.PutChars, SmtpReply;
  }

  /** A mail client that has given up before a cut line gives up there again. */
  lemma GivesUpAgain(g: GetSide.GetArea)
    requires g.Valid() && TakeLine(g).Ragged? && SmtpReply(g).2.Ends?
    ensures SmtpReply(SmtpReply(g).0) == SmtpReply(g) && SmtpReply(g).1 == []
  {
    SmtpReplyStep(g);
    StuckTurnRepeats(g);
    SmtpReplyStep(TakeLine(g).g);
    hide TakeLine, SmtpReply;
  }

  /**
   `data` with both replies in front of the stream: it ends well having shown exactly both if and only if each of their
   lines is there when its turn comes; and then it has taken no more.
   */
  lemma MailReads(s: Session, body: seq<byte>, a: seq<seq<byte>>, b: seq<seq<byte>>, rest: seq<byte>)
    requires s.Valid() && s.get.cap > 0 && MailSent(s.put, body)
    requires IsSmtpReply(a) && IsSmtpReply(b) && s.get.Stream() == Concat(a) + (Concat(b) + rest)
    ensures var (t, e) := Mail(s, true, body);
            && (e == Ends(Returned(0)) && t.shown == s.shown + (Concat(a) + Concat(b)) <==> Served(s.get, a + b))
            && (Served(s.get, a + b) ==> t.get.Stream() == rest)
  {
    MailWhenSent(s, true, body);
    SmtpReadsWholeReply(s.get, a, Concat(b) + rest);
    DeliverAppend(s.get, a, b);
    var r1 := SmtpReply(s.get);
    hide Mail, MailSent, PutSide.Send, SmtpReply, IsSmtpReply, Deliver, Concat;
    if Served(s.get, a) {
      SmtpReadsWholeReply(r1.0, b, rest);
      Assoc(s.shown, Concat(a), SmtpReply(r1.0).1);
      SameBehind(s.shown, Concat(a) + SmtpReply(r1.0).1, Concat(a) + Concat(b));
      SameBehind(Concat(a), SmtpReply(r1.0).1, Concat(b));
    } else {
      NotServedNotShown(s.get, a, Concat(b) + rest);
      assert |s.shown + r1.1| == |s.shown| + |r1.1|;
      assert |s.shown + (Concat(a) + Concat(b))| == |s.shown| + |Concat(a)| + |Concat(b)|;
    }
  }

  /** A reply that is not there as a whole: the next call shows nothing more, if there is one. */
  lemma NotServedNotShown(g: GetSide.GetArea, lines: seq<seq<byte>>, rest: seq<byte>)
    requires g.Valid() && g.cap > 0 && IsSmtpReply(lines) && g.Stream() == Concat(lines) + rest && !Served(g, lines)
    ensures var r := SmtpReply(g);
            && |r.1| < |Concat(lines)|
            && (Fine(r.2) ==> SmtpReply(r.0).1 == [])
  {
    SmtpReadsWholeReply(g, lines, rest);
    var d := Deliver(g, lines);
    ConcatFewer(lines, d.taken);
    CutIsRagged(g, lines, rest);
    hide SmtpReply, Deliver, IsSmtpReply, TakeLine, Concat;
    if Fine(SmtpReply(g).2) {
      SmtpReplyStep(d.g);
    }
  }

  // ---------------------------------------------------------------------------------------------
  // A file
  // ---------------------------------------------------------------------------------------------

  /**
   The buffers that the loop of `data(filename)` hands to `send_buf`: `mem` is the buffer of 1024 bytes,
   which keeps what an earlier and longer read left in it, and the byte behind it.
   */
  function FileChunks(mem: seq<byte>, file: Incoming): (cs: seq<Chunk>)
    requires |mem| == BLOCK + 1
    ensures forall i :: 0 <= i < |cs| ==> cs[i].bytes != []
    decreases |file.data|
  {
    var (file1, n) := SysRead(file, BLOCK);
    if n <= 0 then []
    else
      var mem1 := file.data[..n] + mem[n..];
      [Chunk(file.data[..n], mem1[n])] + FileChunks(mem1, file1)
  }

  lemma FileChunksCons(mem: seq<byte>, file: Incoming)
    requires |mem| == BLOCK + 1 && SysRead(file, BLOCK).1 > 0
    ensures var n := SysRead(file, BLOCK).1;
            var mem1 := file.data[..n] + mem[n..];
            && FileChunks(mem, file) == [Chunk(file.data[..n], mem1[n])] + FileChunks(mem1, SysRead(file, BLOCK).0)
            && FileChunks(mem, file)[1..] == FileChunks(mem1, SysRead(file, BLOCK).0)
  {
  }

  lemma FileChunksNone(mem: seq<byte>, file: Incoming)
    requires |mem| == BLOCK + 1 && SysRead(file, BLOCK).1 <= 0
    ensures Whole(FileChunks(mem, file)) == []
  {
  }

  lemma WholeCons(c: Chunk, cs: seq<Chunk>)
    ensures Whole([c] + cs) == c.bytes + Whole(cs)
  {
    assert ([c] + cs)[1..] == cs;
  }

  lemma FileChunksStep(mem: seq<byte>, file: Incoming)
    requires |mem| == BLOCK + 1
    ensures var (file1, n) := SysRead(file, BLOCK);
            if n <= 0 then EncodeChunks(FileChunks(mem, file)) == []
            else
              var mem1 := file.data[..n] + mem[n..];
              EncodeChunks(FileChunks(mem, file)) ==
                Encode(file.data[..n], mem1[n]) + EncodeChunks(FileChunks(mem1, file1))
  {
    hide Encode;
    if SysRead(file, BLOCK).1 > 0 {
      FileChunksCons(mem, file);
    }
  }

  lemma {:induction false} FileChunksWhole(mem: seq<byte>, file: Incoming)
    requires |mem| == BLOCK + 1
    ensures Whole(FileChunks(mem, file)) <= file.data
    ensures ReadThrough(file) ==> Whole(FileChunks(mem, file)) == file.data
    decreases |file.data|
  {
    hide SysRead, Whole, FileChunks;
    var (file1, n) := SysRead(file, BLOCK);
    if n <= 0 {
      FileChunksNone(mem, file);
    } else {
      var mem1 := file.data[..n] + mem[n..];
      FileChunksWhole(mem1, file1);
      FileChunksCons(mem, file);
      WholeCons(Chunk(file.data[..n], mem1[n]), FileChunks(mem1, file1));
      assert file.data == file.data[..n] + file1.data;
      PrefixAfter(file.data[..n], Whole(FileChunks(mem1, file1)), file1.data);
    }
  }

  lemma PrefixAfter(a: seq<byte>, b: seq<byte>, c: seq<byte>)
    requires b <= c
    ensures a + b <= a + c
  {
  }

  /** The unlucky file at its plainest: a period in the middle of a line and just behind a full block. */
  lemma PeriodBehindBlock(mem: seq<byte>, file: Incoming)
    requires |mem| == BLOCK + 1 && |file.data| > BLOCK
    requires SysRead(file, BLOCK).1 == BLOCK && ReadThrough(file)
    requires file.data[BLOCK - 1] != LF && file.data[BLOCK] == DOT
    ensures !Clean(Start, FileChunks(mem, file))
  {
    var file1 := SysRead(file, BLOCK).0;
    assert file1.data[0] == file.data[BLOCK];
    assert SysRead(file1, BLOCK).1 > 0;
    var mem1 := file.data[..BLOCK] + mem[BLOCK..];
    FileChunksCons(mem, file);
    FileChunksCons(mem1, file1);
    var cs := FileChunks(mem, file);
    assert EndMode(cs[0]) == Mid;
    assert Spoils(Mid, cs[1].bytes[0]);
    hide *;
    NotCleanSecond(cs);
  }

  lemma NotCleanSecond(cs: seq<Chunk>)
    requires |cs| >= 2 && NonEmpty(cs) && Spoils(EndMode(cs[0]), cs[1].bytes[0])
    ensures !Clean(Start, cs)
  {
    assert cs[1..][0] == cs[1];
  }

  /**
   A file, end to end: when it is read to its end and `data` goes well, the receiver gets the file and
   one line end if and only if no block boundary is unlucky.  It takes all that was sent for the file's text, and
   nothing of it for commands, if and only if no stray period is at the end of the file or followed by an empty line.
   */
  lemma FileArrives(s: Session, o: bool, mem: seq<byte>, file: Incoming)
    requires |mem| == BLOCK + 1 && ReadThrough(file)
    requires s.Valid() && s.put.cap > 0 && Fine(Mail(s, o, EncodeChunks(FileChunks(mem, file))).1)
    ensures var before := |s.put.Total() + (DATA + CRLF)|;
            var sent := Mail(s, o, EncodeChunks(FileChunks(mem, file))).0.put.out.sent;
            && before <= |sent|
            && (Receive(sent[before..]) == Complete(file.data + [LF], []) <==>
                  Clean(Start, FileChunks(mem, file)))
            && Receive(sent[before..]).Complete?
            && (Receive(sent[before..]).rest == [] <==> !CutShort(Start, FileChunks(mem, file)))
  {
    hide Mail, Receive, EncodeChunks, FileChunks, Clean, CutShort, ReadThrough;
    var cs := FileChunks(mem, file);
    var body := EncodeChunks(cs);
    MailDelivers(s, o, body);
    FileChunksWhole(mem, file);
    ChunkedRoundTrip(cs, []);
    ChunksStopAtEnd(cs, []);
    assert body + TERM + [] == body + TERM;
  }

  class SmtpBuf {
    const sb: SockBuf
    const o: bool
    var shown: seq<byte>

    constructor (sb: SockBuf, o: bool)
      ensures this.sb == sb && this.o == o && shown == []
    {
      this.sb, this.o := sb, o;
      shown := [];
    }

    /** All of a reply goes to the output stream, if there is one.  Called only where the loop ends. */
    method GetResponse() returns (r: Call)
      requires sb.GetValid() && SmtpReply(sb.Get()).2.Ends?
      modifies sb`gptr, sb`egptr, sb.gbuf, sb.rep`incoming, this`shown
      ensures sb.GetValid()
      ensures (sb.Get(), Ends(r)) == (SmtpReply(old(sb.Get())).0, SmtpReply(old(sb.Get())).2)
      ensures Shown(old(shown), o, SmtpReply(old(sb.Get())).1, shown)
    {
      hide *;
      ghost var all := SmtpReply(sb.Get());
      ghost var taken := [];
      assert [] + all.1 == all.1;
      ShownNothing(shown, o);
      while true
        invariant sb.GetValid()
        invariant all.2.Ends?
        invariant all.0 == SmtpReply(sb.Get()).0 && all.2 == SmtpReply(sb.Get()).2
        invariant all.1 == taken + SmtpReply(sb.Get()).1
        invariant Shown(old(shown), o, taken, shown)
        decreases |sb.Get().Stream()|
      {
        SmtpAfterTurn(taken, sb.Get());
        var u, line, start, turn := NextLine(sb);
        if u.Threw? || u.value == EOF {
          return if u.Threw? then u else Returned(0);
        }
        if line != [] {
          ghost var mid := shown;
          if o {
            shown := shown + line;
          }
          sb.Gbump(|line|);
          ShownLine(mid, o, line, shown);
          ShownThen(old(shown), o, taken, mid, line, shown);
          taken := taken + line;
        }
        if start[3] != DASH {
          return Returned(0);
        }
      }
    }

    ghost function State(): (s: Session)
      requires sb.PutValid() && sb.GetValid()
      reads this, sb, sb.rep, sb.pbuf, sb.gbuf
      ensures s.Valid()
    {
      Session(sb.Put(), sb.Get(), shown)
    }

    /** `if (o) get_response()` */
    method AwaitAnswer() returns (r: Call)
      requires sb.Valid() && Answer(State(), o).1.Ends?
      modifies sb`gptr, sb`egptr, sb.gbuf, sb.rep`incoming, this`shown
      ensures sb.Valid()
      ensures (State(), Ends(r)) == Answer(old(State()), o)
    {
      hide SmtpReply;
      r := Returned(0);
      if o {
        r := GetResponse();
      }
    }

    /** The bare command and its arguments, the line end, and the answer. */
    method SendCmd(cmd: seq<byte>, s: seq<byte>, p: seq<byte>) returns (r: Call)
      requires sb.Valid() && Command(State(), o, [cmd, s, p]).1.Ends?
      modifies sb`pptr, sb`epptr, sb.pbuf, sb.rep`outgoing
      modifies sb`gptr, sb`egptr, sb.gbuf, sb.rep`incoming, this`shown
      ensures sb.Valid()
      ensures (State(), Ends(r)) == Command(old(State()), o, [cmd, s, p])
    {
      r := SendLine(cmd, s, p);
      if r.Returned? {
        r := AwaitAnswer();
      }
    }

    method SendLine(cmd: seq<byte>, s: seq<byte>, p: seq<byte>) returns (r: Call)
      requires sb.PutValid()
      modifies sb`pptr, sb`epptr, sb.pbuf, sb.rep`outgoing
      ensures sb.PutValid()
      ensures (sb.Put(), r) == PutSide.Send(old(sb.Put()), [cmd, s, p] + [CRLF])
    {
      hide *;
      assert [cmd, s, p] + [CRLF] == [cmd] + ([s] + ([p] + ([CRLF] + [])));
      PutSide.SendCons(sb.Put(), cmd, [s] + ([p] + ([CRLF] + [])));
      r := sb.Xsputn(cmd);
      if r.Threw? {
        return;
      }
      PutSide.SendCons(sb.Put(), s, [p] + ([CRLF] + []));
      r := sb.Xsputn(s);
      if r.Threw? {
        return;
      }
      PutSide.SendCons(sb.Put(), p, [CRLF] + []);
      r := sb.Xsputn(p);
      if r.Threw? {
        return;
      }
      r := PutAndSync(CRLF);
    }

    /** `xsputn` of one block, then `sync`. */
    method PutAndSync(b: seq<byte>) returns (r: Call)
      requires sb.PutValid()
      modifies sb`pptr, sb`epptr, sb.pbuf, sb.rep`outgoing
      ensures sb.PutValid()
      ensures (sb.Put(), r) == PutSide.Send(old(sb.Put()), [b] + [])
    {
      PutSide.SendCons(sb.Put(), b, []);
      hide PutSide.Xsputn, PutSide.Flush;
      r := sb.Xsputn(b);
      if r.Returned? {
        r := sb.Sync();
      }
    }

    /** The loop over the buffer, byte by byte. */
    method SendBuf(buf: array?<byte>, len: int) returns (r: Call)
      requires sb.PutValid() && (buf != null ==> buf != sb.pbuf && Readable(buf, len))
      modifies sb`pptr, sb`epptr, sb.pbuf, sb.rep`outgoing
      ensures sb.PutValid()
      ensures (sb.Put(), r) == PutSide.PutChars(old(sb.Put()),
                                 if buf == null then [] else Encode(Message(buf, len), Behind(buf, len)))
    {
      if buf == null || len <= 0 {
        return Returned(0);
      }
      ghost var m, after := Message(buf, len), Behind(buf, len);
      assert |m| == len && m[0] == buf[0];
      assert Encode(m, after) == (if buf[0] == DOT then [DOT] else []) + Emit(m, after);
      assert [] + Emit(m, after) == Emit(m, after);
      hide *;
      if buf[0] == DOT {
        PutSide.PutCharsCons(sb.Put(), DOT, Emit(m, after));
        r := sb.Sputc(DOT);
        if r.Threw? {
          return;
        }
      }
      r := SendLines(buf, len);
    }

    method SendLines(buf: array<byte>, len: int) returns (r: Call)
      requires sb.PutValid() && buf != sb.pbuf && 0 < len && Readable(buf, len)
      modifies sb`pptr, sb`epptr, sb.pbuf, sb.rep`outgoing
      ensures sb.PutValid()
      ensures (sb.Put(), r) == PutSide.PutChars(old(sb.Put()), Emit(Message(buf, len), Behind(buf, len)))
    {
      ghost var m, after := Message(buf, len), Behind(buf, len);
      ghost var p0, todo := sb.Put(), m;
      assert |m| == len && m[0..] == m;
      hide *;
      var i := 0;
      while i < len
        invariant 0 <= i <= len && todo == m[i..]
        invariant sb.PutValid()
        invariant PutSide.PutChars(p0, Emit(m, after)) == PutSide.PutChars(sb.Put(), Emit(todo, after))
      {
        PutEmitted(sb.Put(), todo, after);
        r := SendOne(buf, i, len);
        if r.Threw? {
          return;
        }
        todo := todo[1..];
        i := i + 1;
      }
      EmitNone(todo, after);
      PutSide.PutCharsNone(sb.Put());
      return Returned(0);
    }

    /** One turn of the loop. */
    method SendOne(buf: array<byte>, i: nat, len: int) returns (r: Call)
      requires sb.PutValid() && buf != sb.pbuf && i < len && Readable(buf, len)
      modifies sb`pptr, sb`epptr, sb.pbuf, sb.rep`outgoing
      ensures sb.PutValid()
      ensures (sb.Put(), r) == PutSide.PutChars(old(sb.Put()), EmitOne(Message(buf, len)[i..], Behind(buf, len)))
    {
      ghost var one := EmitOne(Message(buf, len)[i..], Behind(buf, len));
      hide PutSide.PutChars, PutSide.Sputc;
      if buf[i] == LF {
        assert one == [CR] + ([LF] + if buf[i + 1] == DOT then [DOT] + [] else []);
        PutSide.PutCharsCons(sb.Put(), CR, [LF] + if buf[i + 1] == DOT then [DOT] + [] else []);
        r := sb.Sputc(CR);
        if r.Threw? {
          return;
        }
        PutSide.PutCharsCons(sb.Put(), LF, if buf[i + 1] == DOT then [DOT] + [] else []);
        r := sb.Sputc(buf[i]);
        if r.Threw? {
          return;
        }
        if buf[i + 1] == DOT {
          PutSide.PutCharsCons(sb.Put(), DOT, []);
          r := sb.Sputc(DOT);
          if r.Threw? {
            return;
          }
        }
      } else {
        assert one == [buf[i]] + [];
        PutSide.PutCharsCons(sb.Put(), buf[i], []);
        r := sb.Sputc(buf[i]);
        if r.Threw? {
          return;
        }
      }
      PutSide.PutCharsNone(sb.Put());
      return Returned(0);
    }

    /** `data(buf, len)` */
    method Data(buf: array?<byte>, len: int) returns (r: Call)
      requires sb.Valid()
      requires buf != null ==> buf != sb.pbuf && buf != sb.gbuf && Readable(buf, len)
      requires Mail(State(), o, if buf == null then [] else Encode(Message(buf, len), Behind(buf, len))).1.Ends?
      modifies sb`pptr, sb`epptr, sb.pbuf, sb.rep`outgoing
      modifies sb`gptr, sb`egptr, sb.gbuf, sb.rep`incoming, this`shown
      ensures sb.Valid()
      ensures (State(), Ends(r)) == Mail(old(State()), o,
                                         if buf == null then [] else Encode(Message(buf, len), Behind(buf, len)))
    {
      hide Command, PutSide.PutChars, PutSide.Send, Answer, Encode, Finish;
      r := SendCmd(DATA, [], []);
      if r.Threw? {
        return;
      }
      r := SendBuf(buf, len);
      if r.Threw? {
        return;
      }
      r := FinishBody();
    }

    /** The terminator, `sync`, and the answer. */
    method FinishBody() returns (r: Call)
      requires sb.Valid() && Finish(State(), o).1.Ends?
      modifies sb`pptr, sb`epptr, sb.pbuf, sb.rep`outgoing
      modifies sb`gptr, sb`egptr, sb.gbuf, sb.rep`incoming, this`shown
      ensures sb.Valid()
      ensures (State(), Ends(r)) == Finish(old(State()), o)
    {
      hide PutSide.Send, Answer;
      assert [TERM] == [TERM] + [];
      r := PutAndSync(TERM);
      if r.Returned? {
        r := AwaitAnswer();
      }
    }

    /**
     `data(filename)`: `file` is the open file; `buf` is the buffer of 1024 bytes with the byte behind it.
     */
    method DataFile(file: Incoming, buf: array<byte>) returns (r: Call)
      requires sb.Valid()
      requires buf.Length == BLOCK + 1 && buf != sb.pbuf && buf != sb.gbuf
      requires Mail(State(), o, EncodeChunks(FileChunks(buf[..], file))).1.Ends?
      modifies sb`pptr, sb`epptr, sb.pbuf, sb.rep`outgoing
      modifies sb`gptr, sb`egptr, sb.gbuf, sb.rep`incoming, this`shown, buf
      ensures sb.Valid()
      ensures (State(), Ends(r)) == Mail(old(State()), o, EncodeChunks(FileChunks(old(buf[..]), file)))
    {
      hide Command, PutSide.PutChars, PutSide.Send, Answer, EncodeChunks, FileChunks, Finish;
      r := SendCmd(DATA, [], []);
      if r.Threw? {
        return;
      }
      r := SendFile(file, buf);
      if r.Threw? {
        return;
      }
      r := FinishBody();
    }

    method SendFile(file: Incoming, buf: array<byte>) returns (r: Call)
      requires sb.PutValid() && buf.Length == BLOCK + 1 && buf != sb.pbuf
      modifies sb`pptr, sb`epptr, sb.pbuf, sb.rep`outgoing, buf
      ensures sb.PutValid()
      ensures (sb.Put(), r) == PutSide.PutChars(old(sb.Put()), EncodeChunks(FileChunks(old(buf[..]), file)))
    {
      hide *;
      ghost var p0, all := sb.Put(), EncodeChunks(FileChunks(buf[..], file));
      var rest := file;
      while true
        invariant sb.PutValid()
        invariant PutSide.PutChars(p0, all) == PutSide.PutChars(sb.Put(), EncodeChunks(FileChunks(buf[..], rest)))
        decreases |rest.data|
      {
        FileChunksStep(buf[..], rest);
        ghost var was := buf[..];
        var rest1, rcnt := ReadBlock(rest, buf);
        if rcnt <= 0 {
          PutSide.PutCharsNone(sb.Put());
          return Returned(0);
        }
        BlockInMemory(buf, rest.data[..rcnt], was);
        PutSide.PutCharsSplit(sb.Put(), Encode(Message(buf, rcnt), Behind(buf, rcnt)),
                              EncodeChunks(FileChunks(buf[..], rest1)));
        r := SendBuf(buf, rcnt);
        if r.Threw? {
          return;
        }
        rest := rest1;
      }
    }
  }

  /** The part of the buffer that a read has filled, and what is behind it. */
  lemma BlockInMemory(buf: array<byte>, block: seq<byte>, was: seq<byte>)
    requires buf.Length == BLOCK + 1 == |was| && 0 < |block| <= BLOCK
    requires buf[..] == block + was[|block|..]
    ensures Message(buf, |block|) == block && Behind(buf, |block|) == buf[..][|block|] && Readable(buf, |block|)
  {
    assert buf[..|block|] == buf[..][..|block|];
  }
}
