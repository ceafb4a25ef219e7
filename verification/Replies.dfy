/**
 Reading the replies of a mail or file server (Appendix E of RFC 821, section 4.2 of RFC 959): how far
 the scanners of `smtpbuf::get_response` and `ftpbuf::get_response` read, and that they read one whole
 reply exactly when each of its lines is there as a whole when its turn comes.
 */
module Replies {
  import opened Basics
  import opened Octets
  import opened Kernel
  import opened Lines
  import opened GetSide
  import opened SockStream

  // ---------------------------------------------------------------------------------------------
  // One turn of either loop
  // ---------------------------------------------------------------------------------------------

  /**
   What a turn finds: a line, which it takes out of the buffer, and the four bytes it looks at; or nothing, at
   end of file or by a throw; or fewer than 5 bytes; or no line end.
   */
  datatype Turn =
    | Line(g: GetArea, line: seq<byte>, start: seq<byte>)
    | NoLine(g: GetArea, call: Call)
    | Short(g: GetArea)
    | Ragged(g: GetArea, start: seq<byte>)

  function TakeLine(g: GetArea): (r: Turn)
    requires g.Valid()
    ensures r.g.Valid() && r.g.cap == g.cap
    ensures r.Line? || r.Ragged? ==> |r.start| == 4
    ensures r.Line? ==> |r.g.Stream()| < |g.Stream()|
    ensures r.Ragged? ==> |r.g.unread| >= 5 && r.g.Stream() == g.Stream()
  {
    UnderflowKeepsStream(g);
    var (g1, u) := Underflow(g);
    var q := g1.unread;
    if u.Threw? || u.value == EOF then NoLine(g1, u)
    else if |q| < 5 then Short(g1)
    else if FindCrlf(q) == -1 then Ragged(g1, q[..4])
    else
      var i := FindCrlf(q) + 2;
      assert |g1.(unread := q[i..]).Stream()| == |g1.Stream()| - i;
      Line(g1.(unread := q[i..]), q[..i], q[..4])
  }

  lemma TakeLineParts(g: GetArea)
    requires g.Valid() && !TakeLine(g).Short?
    ensures var (g1, u), turn := Underflow(g), TakeLine(g);
            if u.Threw? || u.value == EOF then turn == NoLine(g1, u)
            else
              var i := FindCrlf(g1.unread) + 2;
              && |g1.unread| >= 5
              && turn == if i == 1 then Ragged(g1, g1.unread[..4])
                         else Line(g1.(unread := g1.unread[i..]), g1.unread[..i], g1.unread[..4])
  {
  }

  /**
   A turn that finds too few bytes leaves the buffer so that the next one finds the same; without a line end too,
   unless what was found is then taken away, as the file client does.
   */
  lemma StuckTurnRepeats(g: GetArea)
    requires g.Valid() && (TakeLine(g).Short? || TakeLine(g).Ragged?)
    ensures TakeLine(TakeLine(g).g) == TakeLine(g)
  {
    UnderflowAgain(g);
  }

  lemma UnderflowAgain(g: GetArea)
    requires g.Valid() && Underflow(g).1.Returned? && Underflow(g).1.value != EOF
    ensures Underflow(Underflow(g).0).0 == Underflow(g).0
    ensures Underflow(Underflow(g).0).1.Returned? && Underflow(Underflow(g).0).1.value != EOF
  {
  }

  /** What a turn takes is determined by the stream: its first line, and its first four bytes. */
  lemma TakeLineOfStream(g: GetArea)
    requires g.Valid() && g.cap > 0
    ensures var s, r := g.Stream(), TakeLine(g);
            && (!r.Line? ==> r.g.Stream() == s)
            && (r.NoLine? && r.call.Returned? ==> s == [])
            && (r.Line? ==>
                  var i := FindCrlf(s) + 2;
                  && FindCrlf(s) != -1 && |s| >= 4
                  && r.line == s[..i] && r.g.Stream() == s[i..] && r.start == s[..4])
  {
    UnderflowKeepsStream(g);
    var (g1, u) := Underflow(g);
    if TakeLine(g).Line? {
      FindCrlfInFront(g1.unread, g1.inc.data);
      SliceOfConcat(g1.unread, g1.inc.data, FindCrlf(g1.unread) + 2);
      SliceOfConcat(g1.unread, g1.inc.data, 4);
    }
  }

  /**
   The part both loops share: `underflow`, then the scan.  Without a line end `line` is empty; with fewer than
   5 bytes the loops go round again for ever, so that is excluded.
   */
  method NextLine(sb: SockBuf) returns (u: Call, line: seq<byte>, start: seq<byte>, ghost turn: Turn)
    requires sb.GetValid() && !TakeLine(sb.Get()).Short?
    modifies sb`gptr, sb`egptr, sb.gbuf, sb.rep`incoming
    ensures sb.GetValid()
    ensures !turn.NoLine? ==> sb.gbuf != null && sb.gptr + 5 <= sb.egptr && sb.gptr + |line| <= sb.egptr
    ensures !turn.NoLine? ==> |line| <= |sb.Get().unread|
    ensures turn == TakeLine(old(sb.Get())) && !turn.Short?
    ensures turn.NoLine? ==> sb.Get() == turn.g && u == turn.call && (u.Threw? || u.value == EOF)
    ensures !turn.NoLine? ==> u.Returned? && u.value != EOF && |start| == 4
    ensures turn.Line? ==> line != [] && turn == Line(turn.g, line, start)
    ensures turn.Line? ==> sb.Get().(unread := sb.Get().unread[|line|..]) == turn.g
    ensures turn.Ragged? ==> line == [] && turn == Ragged(sb.Get(), start)
  {
    hide TakeLine, Underflow, FindCrlf;
    turn := TakeLine(sb.Get());
    TakeLineParts(sb.Get());
    line, start := [], [];
    u := sb.Underflow();
    if u.Returned? && u.value != EOF {
      line, start := ScanBuffer(sb);
    }
  }

  /** The first line in the buffer, or none, and the first four bytes. */
  method ScanBuffer(sb: SockBuf) returns (line: seq<byte>, start: seq<byte>)
    requires sb.GetValid() && |sb.Get().unread| >= 5
    ensures sb.gptr + |line| <= sb.egptr && start == sb.Get().unread[..4]
    ensures var i := FindCrlf(sb.Get().unread) + 2;
            if i == 1 then line == [] else line != [] && line == sb.Get().unread[..i]
  {
    hide FindCrlf;
    var n := sb.Showmanyc();
    var i := ZapLine(sb, n);
    start := sb.gbuf[sb.gptr..sb.gptr + 4];
    FrontOfSlice(sb.gbuf, sb.gptr, sb.egptr, 4);
    if i > n {
      return [], start;
    }
    line := sb.gbuf[sb.gptr..sb.gptr + i];
    FrontOfSlice(sb.gbuf, sb.gptr, sb.egptr, i);
  }

  lemma FrontOfSlice(a: array<byte>, lo: nat, hi: nat, i: nat)
    requires lo + i <= hi <= a.Length
    ensures a[lo..hi][..i] == a[lo..lo + i]
  {
  }

  /** An output stream that held `was` and gets `text`, if there is a stream at all. */
  ghost predicate Shown(was: seq<byte>, o: bool, text: seq<byte>, now: seq<byte>) {
    now == if o then was + text else was
  }

  lemma ShownNothing(was: seq<byte>, o: bool)
    ensures Shown(was, o, [], was)
  {
  }

  lemma ShownLine(was: seq<byte>, o: bool, line: seq<byte>, now: seq<byte>)
    requires o ==> now == was + line
    requires !o ==> now == was
    ensures Shown(was, o, line, now)
  {
  }

  lemma ShownThen(was: seq<byte>, o: bool, a: seq<byte>, mid: seq<byte>, b: seq<byte>, now: seq<byte>)
    requires Shown(was, o, a, mid) && Shown(mid, o, b, now)
    ensures Shown(was, o, a + b, now)
  {
    Assoc(was, a, b);
  }

  /** How a scanner ends: like any call, or never. */
  datatype Ending = Ends(call: Call) | Spins

  /** The scan of either loop for CRLF in the get area: the index behind it, or one more than there is. */
  method ZapLine(sb: SockBuf, n: nat) returns (i: nat)
    requires sb.GetValid() && n == |sb.Get().unread|
    ensures FindCrlf(sb.Get().unread) == if i <= n then i - 2 else -1
    ensures 2 <= i
    ensures FindCrlf(sb.Get().unread) == -1 && n >= 1 ==> i == n + 1
  {
    i := 2;
    ghost var q := sb.Get().unread;
    while i <= n
      invariant 2 <= i && (n >= 1 ==> i <= n + 1)
      invariant forall j :: 0 <= j < i - 2 ==> !CrlfAt(q, j)
    {
      assert q[i - 2] == sb.gbuf[sb.gptr + i - 2] && q[i - 1] == sb.gbuf[sb.gptr + i - 1];
      if sb.gbuf[sb.gptr + i - 2] == CR && sb.gbuf[sb.gptr + i - 1] == LF {
        FindCrlfIs(q, i - 2);
        return;
      }
      i := i + 1;
    }
    FindCrlfFirst(q);
  }

  // ---------------------------------------------------------------------------------------------
  // Lines in front of the stream, and how they are delivered
  // ---------------------------------------------------------------------------------------------

  function Last<T>(s: seq<T>): T
    requires s != []
  {
    s[|s| - 1]
  }

  ghost predicate AreLines(lines: seq<seq<byte>>) {
    forall i :: 0 <= i < |lines| ==> IsLine(lines[i])
  }

  lemma LinesTail(lines: seq<seq<byte>>)
    requires AreLines(lines) && lines != []
    ensures AreLines(lines[1..])
    ensures FindCrlf(Concat(lines)) == |lines[0]| - 2
    ensures Concat(lines)[|lines[0]|..] == Concat(lines[1..])
  {
    assert IsLine(lines[0]);
    FindCrlfInFront(lines[0], Concat(lines[1..]));
  }

  /** How it goes with some lines: all are taken, a read throws, fewer than 5 bytes are there, or a part of a line. */
  datatype How = AllTaken | Failed(error: Error) | Few | Cut

  /** How it goes, how many lines are taken before, and what is left. */
  datatype Delivery = Delivery(g: GetArea, taken: nat, how: How)

  /**
   The lines as the reads deliver them: each is taken when it is there as a whole and with at least 5 bytes
   buffered.  This looks at lengths only, not for line ends.
   */
  function Deliver(g: GetArea, lines: seq<seq<byte>>): (d: Delivery)
    requires g.Valid()
    ensures d.g.Valid() && d.g.cap == g.cap
    ensures if d.how.AllTaken? then d.taken == |lines| else d.taken < |lines|
    ensures d.how.Cut? ==> |d.g.unread| >= 5
    decreases |lines|
  {
    if lines == [] then Delivery(g, 0, AllTaken)
    else
      var (g1, u) := Underflow(g);
      if u.Threw? then Delivery(g1, 0, Failed(u.error))
      else if |g1.unread| < 5 then Delivery(g1, 0, Few)
      else if |g1.unread| < |lines[0]| then Delivery(g1, 0, Cut)
      else
        var d := Deliver(g1.(unread := g1.unread[|lines[0]|..]), lines[1..]);
        d.(taken := d.taken + 1)
  }

  /** Every line is there when its turn comes. */
  predicate Served(g: GetArea, lines: seq<seq<byte>>)
    requires g.Valid()
  {
    Deliver(g, lines).how.AllTaken?
  }

  lemma {:induction false} DeliverAppend(g: GetArea, a: seq<seq<byte>>, b: seq<seq<byte>>)
    requires g.Valid()
    ensures Served(g, a + b) <==> Served(g, a) && Served(Deliver(g, a).g, b)
    decreases |a|
  {
    hide Underflow;
    if a == [] {
      assert a + b == b;
    } else {
      assert (a + b)[0] == a[0] && (a + b)[1..] == a[1..] + b;
      var g1 := Underflow(g).0;
      if Underflow(g).1.Returned? && |g1.unread| >= 5 && |g1.unread| >= |a[0]| {
        DeliverAppend(g1.(unread := g1.unread[|a[0]|..]), a[1..], b);
      }
    }
  }

  lemma PartOfLine(line: seq<byte>, n: nat)
    requires IsLine(line) && n < |line|
    ensures FindCrlf(line[..n]) == -1
  {
    var part := line[..n];
    FindCrlfFirst(part);
    FindCrlfFirst(line);
    assert forall j :: CrlfAt(part, j) ==> CrlfAt(line, j);
  }

  /** A turn of the scanner on a stream with a line in front: it sees the line if it is there, and no other. */
  lemma LineInFront(g: GetArea, line: seq<byte>, rest: seq<byte>)
    requires g.Valid() && g.cap > 0 && IsLine(line) && g.Stream() == line + rest
    ensures var (g1, u), turn := Underflow(g), TakeLine(g);
            if u.Threw? then turn == NoLine(g1, u)
            else if |g1.unread| < 5 then turn == Short(g1)
            else if |g1.unread| < |line| then turn == Ragged(g1, g1.unread[..4])
            else
              && turn == Line(g1.(unread := g1.unread[|line|..]), line, (line + rest)[..4])
              && turn.g.Stream() == rest
  {
    UnderflowKeepsStream(g);
    var (g1, u) := Underflow(g);
    hide Underflow;
    if u.Returned? {
      var q := g1.unread;
      assert g1.Stream()[..|q|] == q;
      if |q| < |line| {
        SliceOfConcat(line, rest, |q|);
        PartOfLine(line, |q|);
      } else {
        SliceOfConcat(q, g1.inc.data, |line|);
        SliceOfConcat(line, rest, |line|);
        assert q[..|line|] == line;
        FindCrlfInFront(line, q[|line|..]);
        assert line + q[|line|..] == q;
        assert q[|line|..] + g1.inc.data == rest;
        if |q| >= 5 {
          SliceOfConcat(q, g1.inc.data, 4);
        }
      }
    }
  }

  /** One turn of the scanner and one line of the delivery. */
  lemma DeliverOfTurn(g: GetArea, lines: seq<seq<byte>>, rest: seq<byte>)
    requires g.Valid() && g.cap > 0 && lines != [] && IsLine(lines[0]) && g.Stream() == Concat(lines) + rest
    ensures var d, turn := Deliver(g, lines), TakeLine(g);
            && (turn.NoLine? ==> turn.call.Threw? && d == Delivery(turn.g, 0, Failed(turn.call.error)))
            && (turn.Short? ==> d == Delivery(turn.g, 0, Few))
            && (turn.Ragged? ==> d == Delivery(turn.g, 0, Cut) && turn.start == turn.g.unread[..4])
            && (turn.Line? ==>
                  && turn.line == lines[0] && turn.start == (lines[0] + (Concat(lines[1..]) + rest))[..4]
                  && turn.g.Stream() == Concat(lines[1..]) + rest
                  && d.g == Deliver(turn.g, lines[1..]).g
                  && d.taken == Deliver(turn.g, lines[1..]).taken + 1
                  && d.how == Deliver(turn.g, lines[1..]).how)
  {
    Assoc(lines[0], Concat(lines[1..]), rest);
    LineInFront(g, lines[0], Concat(lines[1..]) + rest);
    hide Underflow, TakeLine, Concat;
  }

  /** The lines taken, one more than of the others, as bytes. */
  lemma TakeOne(lines: seq<seq<byte>>, n: nat)
    requires lines != [] && n <= |lines| - 1
    ensures Concat(lines[..n + 1]) == lines[0] + Concat(lines[1..][..n])
  {
    assert lines[..n + 1][1..] == lines[1..][..n];
  }

  /** What a scanner returns is what the delivery leaves, the lines it takes, and the ending `e`. */
  ghost predicate Matches(lines: seq<seq<byte>>, d: Delivery, e: Ending, r: (GetArea, seq<byte>, Ending)) {
    d.taken <= |lines| && r == (d.g, Concat(lines[..d.taken]), e)
  }

  lemma MatchesNone(lines: seq<seq<byte>>, d: Delivery, e: Ending, r: (GetArea, seq<byte>, Ending))
    requires d.taken == 0 && r == (d.g, [], e)
    ensures Matches(lines, d, e, r)
  {
  }

  lemma MatchesOnly(lines: seq<seq<byte>>, d: Delivery, e: Ending, r: (GetArea, seq<byte>, Ending))
    requires |lines| == d.taken == 1 && r == (d.g, lines[0], e)
    ensures Matches(lines, d, e, r)
  {
    assert lines[..1] == [lines[0]];
    ConcatOne(lines[0]);
  }

  lemma MatchesThen(lines: seq<seq<byte>>, d: Delivery, d': Delivery, e: Ending,
                    r: (GetArea, seq<byte>, Ending), r': (GetArea, seq<byte>, Ending))
    requires lines != [] && Matches(lines[1..], d', e, r')
    requires d.g == d'.g && d.taken == d'.taken + 1 && r == (r'.0, lines[0] + r'.1, r'.2)
    ensures Matches(lines, d, e, r)
  {
    TakeOne(lines, d'.taken);
  }

  lemma DeliverNone(g: GetArea, lines: seq<seq<byte>>)
    requires g.Valid() && lines == []
    ensures Deliver(g, lines) == Delivery(g, 0, AllTaken)
  {
  }

  // ---------------------------------------------------------------------------------------------
  // smtpbuf::get_response
  // ---------------------------------------------------------------------------------------------

  /** The get area afterwards, the bytes passed on, and how the scanner ends. */
  function SmtpReply(g: GetArea): (r: (GetArea, seq<byte>, Ending))
    requires g.Valid()
    ensures r.0.Valid() && r.0.cap == g.cap
    decreases |g.Stream()|
  {
    match TakeLine(g)
    case NoLine(g1, u) => (g1, [], Ends(if u.Threw? then u else Returned(0)))
    case Short(g1) => (g1, [], Spins)
    case Ragged(g1, start) => (g1, [], if start[3] != DASH then Ends(Returned(0)) else Spins)
    case Line(g1, line, start) =>
      if start[3] != DASH then (g1, line, Ends(Returned(0)))
      else
        var rest := SmtpReply(g1);
        (rest.0, line + rest.1, rest.2)
  }

  /** How many bytes at the front of the stream one reply takes: lines up to the first without '-' after its code. */
  function SmtpLength(s: seq<byte>): (n: nat)
    ensures n <= |s|
    decreases |s|
  {
    var i := FindCrlf(s);
    if i == -1 || |s| < 4 then 0
    else if s[3] != DASH then i + 2
    else i + 2 + SmtpLength(s[i + 2..])
  }

  /** `text` was taken from the front of the stream of `g`, and `g'` has the rest. */
  ghost predicate Took(g: GetArea, text: seq<byte>, g': GetArea) {
    text + g'.Stream() == g.Stream()
  }

  lemma TookLine(g: GetArea, i: nat, g2: GetArea)
    requires i <= |g.Stream()| && g2.Stream() == g.Stream()[i..]
    ensures Took(g, g.Stream()[..i], g2)
  {
    assert g.Stream()[..i] + g.Stream()[i..] == g.Stream();
  }

  lemma TookThen(g: GetArea, i: nat, g2: GetArea, more: seq<byte>, g3: GetArea)
    requires i <= |g.Stream()| && g2.Stream() == g.Stream()[i..] && Took(g2, more, g3)
    ensures Took(g, g.Stream()[..i] + more, g3)
  {
    Assoc(g.Stream()[..i], more, g3.Stream());
    assert g.Stream()[..i] + g.Stream()[i..] == g.Stream();
  }

  /**
   Over any stream and any deliveries, one `get_response` of the mail client takes the front of the stream and
   passes exactly that on; when it returns, that is all the stream determines, unless a line is cut where it stops.
   */
  lemma {:induction false} SmtpReplyTakesOne(g: GetArea)
    requires g.Valid() && g.cap > 0
    ensures Took(g, SmtpReply(g).1, SmtpReply(g).0)
    ensures |SmtpReply(g).1| <= SmtpLength(g.Stream())
    ensures SmtpReply(g).2 == Ends(Returned(0)) ==>
              |SmtpReply(g).1| == SmtpLength(g.Stream()) || TakeLine(SmtpReply(g).0).Ragged?
    decreases |g.Stream()|
  {
    TakeLineOfStream(g);
    var turn := TakeLine(g);
    if turn.Line? {
      var s := g.Stream();
      var i := FindCrlf(s) + 2;
      assert turn.start[3] == s[3];
      if turn.start[3] != DASH {
        TookLine(g, i, turn.g);
      } else {
        SmtpReplyTakesOne(turn.g);
        TookThen(g, i, turn.g, SmtpReply(turn.g).1, SmtpReply(turn.g).0);
      }
    } else if turn.Ragged? {
      StuckTurnRepeats(g);
    }
  }

  /** A reply of Appendix E of RFC 821: all lines but the last have '-' after the three digits of the code. */
  ghost predicate IsSmtpReply(lines: seq<seq<byte>>) {
    && AreLines(lines) && lines != []
    && (forall i :: 0 <= i < |lines| ==> |lines[i]| >= 4)
    && (forall i :: 0 <= i < |lines| ==> (lines[i][3] == DASH <==> i < |lines| - 1))
  }

  lemma SmtpReplyTail(lines: seq<seq<byte>>)
    requires IsSmtpReply(lines) && |lines| > 1
    ensures IsSmtpReply(lines[1..])
  {
    var tail := lines[1..];
    forall i | 0 <= i < |tail| ensures IsLine(tail[i]) && |tail[i]| >= 4 && (tail[i][3] == DASH <==> i < |tail| - 1) {
      assert IsLine(lines[i + 1]) && |lines[i + 1]| >= 4 && (lines[i + 1][3] == DASH <==> i + 1 < |lines| - 1);
    }
  }

  /** How the loop ends when a whole reply is in front of the stream. */
  function SmtpEnding(d: Delivery): Ending
    requires d.how.Cut? ==> |d.g.unread| >= 5
  {
    match d.how
    case AllTaken => Ends(Returned(0))
    case Failed(e) => Ends(Threw(e))
    case Few => Spins
    case Cut => if d.g.unread[3] != DASH then Ends(Returned(0)) else Spins
  }

  lemma SmtpReplyStep(g: GetArea)
    requires g.Valid()
    ensures var r, turn := SmtpReply(g), TakeLine(g);
            && (turn.NoLine? ==> r == (turn.g, [], Ends(if turn.call.Threw? then turn.call else Returned(0))))
            && (turn.Short? ==> r == (turn.g, [], Spins))
            && (turn.Ragged? ==> r == (turn.g, [], if turn.start[3] != DASH then Ends(Returned(0)) else Spins))
            && (turn.Line? && turn.start[3] != DASH ==> r == (turn.g, turn.line, Ends(Returned(0))))
            && (turn.Line? && turn.start[3] == DASH ==>
                  r == (SmtpReply(turn.g).0, turn.line + SmtpReply(turn.g).1, SmtpReply(turn.g).2))
  {
  }

  lemma FirstOfSmtpReply(lines: seq<seq<byte>>, rest: seq<byte>)
    requires IsSmtpReply(lines)
    ensures IsLine(lines[0]) && |lines[0]| >= 4
    ensures (lines[0] + rest)[..4][3] == DASH <==> |lines| > 1
    ensures |lines| > 1 ==> IsSmtpReply(lines[1..])
  {
    assert IsLine(lines[0]) && |lines[0]| >= 4 && (lines[0][3] == DASH <==> 0 < |lines| - 1);
    if |lines| > 1 {
      SmtpReplyTail(lines);
    }
  }

  /** A turn that takes no line, or the closing one, or another. */
  lemma SmtpStops(g: GetArea, lines: seq<seq<byte>>, rest: seq<byte>)
    requires g.Valid() && g.cap > 0 && lines != [] && IsLine(lines[0]) && g.Stream() == Concat(lines) + rest
    requires !TakeLine(g).Line?
    ensures var d := Deliver(g, lines); Matches(lines, d, SmtpEnding(d), SmtpReply(g))
  {
    DeliverOfTurn(g, lines, rest);
    SmtpReplyStep(g);
    hide Deliver, TakeLine, SmtpReply, Concat, Matches;
    var d := Deliver(g, lines);
    MatchesNone(lines, d, SmtpEnding(d), SmtpReply(g));
  }

  lemma SmtpCloses(g: GetArea, lines: seq<seq<byte>>, rest: seq<byte>)
    requires g.Valid() && g.cap > 0 && |lines| == 1 && IsLine(lines[0]) && g.Stream() == Concat(lines) + rest
    requires TakeLine(g).Line? && TakeLine(g).start[3] != DASH
    ensures var d := Deliver(g, lines); Matches(lines, d, SmtpEnding(d), SmtpReply(g))
  {
    DeliverOfTurn(g, lines, rest);
    SmtpReplyStep(g);
    DeliverNone(TakeLine(g).g, lines[1..]);
    hide Deliver, TakeLine, SmtpReply, Concat, Matches;
    var d := Deliver(g, lines);
    MatchesOnly(lines, d, SmtpEnding(d), SmtpReply(g));
  }

  lemma SmtpGoesOn(g: GetArea, lines: seq<seq<byte>>, rest: seq<byte>)
    requires g.Valid() && g.cap > 0 && |lines| > 1 && IsLine(lines[0]) && g.Stream() == Concat(lines) + rest
    requires TakeLine(g).Line? && TakeLine(g).start[3] == DASH
    requires var d' := Deliver(TakeLine(g).g, lines[1..]); Matches(lines[1..], d', SmtpEnding(d'), SmtpReply(TakeLine(g).g))
    ensures var d := Deliver(g, lines); Matches(lines, d, SmtpEnding(d), SmtpReply(g))
  {
    DeliverOfTurn(g, lines, rest);
    SmtpReplyStep(g);
    hide Deliver, TakeLine, SmtpReply, Concat, Matches;
    var d, d' := Deliver(g, lines), Deliver(TakeLine(g).g, lines[1..]);
    MatchesThen(lines, d, d', SmtpEnding(d), SmtpReply(g), SmtpReply(TakeLine(g).g));
  }

  lemma {:induction false} SmtpReplyIsDelivery(g: GetArea, lines: seq<seq<byte>>, rest: seq<byte>)
    requires g.Valid() && g.cap > 0
    requires IsSmtpReply(lines) && g.Stream() == Concat(lines) + rest
    ensures var d := Deliver(g, lines);
            Matches(lines, d, SmtpEnding(d), SmtpReply(g))
    decreases |lines|
  {
    FirstOfSmtpReply(lines, Concat(lines[1..]) + rest);
    assert lines != [];
    if !TakeLine(g).Line? {
      hide *;
      SmtpStops(g, lines, rest);
    } else {
      hide *;
      LineTaken(g, lines, rest);
      if |lines| > 1 {
        SmtpReplyIsDelivery(TakeLine(g).g, lines[1..], rest);
        SmtpGoesOn(g, lines, rest);
      } else {
        SmtpCloses(g, lines, rest);
      }
    }
  }

  lemma LineTaken(g: GetArea, lines: seq<seq<byte>>, rest: seq<byte>)
    requires g.Valid() && g.cap > 0 && lines != [] && IsLine(lines[0]) && g.Stream() == Concat(lines) + rest
    requires TakeLine(g).Line?
    ensures TakeLine(g).g.Stream() == Concat(lines[1..]) + rest
    ensures TakeLine(g).start == (lines[0] + (Concat(lines[1..]) + rest))[..4]
  {
    DeliverOfTurn(g, lines, rest);
    hide *;
  }

  /** Fewer lines are fewer bytes. */
  lemma {:induction false} ConcatFewer(lines: seq<seq<byte>>, n: nat)
    requires AreLines(lines) && n < |lines|
    ensures |Concat(lines[..n])| < |Concat(lines)|
    decreases |lines|
  {
    assert IsLine(lines[0]);
    if n > 0 {
      TakeOne(lines, n - 1);
      ConcatFewer(lines[1..], n - 1);
    }
  }

  /** Where a line is cut, a turn finds no line end. */
  lemma {:induction false} CutIsRagged(g: GetArea, lines: seq<seq<byte>>, rest: seq<byte>)
    requires g.Valid() && g.cap > 0 && AreLines(lines) && g.Stream() == Concat(lines) + rest
    ensures Deliver(g, lines).how.Cut? ==> TakeLine(Deliver(g, lines).g).Ragged?
    decreases |lines|
  {
    if lines == [] {
      DeliverNone(g, lines);
    } else {
      assert IsLine(lines[0]);
      assert forall i :: 0 <= i < |lines[1..]| ==> lines[1..][i] == lines[i + 1];
      DeliverOfTurn(g, lines, rest);
      hide Deliver, TakeLine, Concat;
      var turn := TakeLine(g);
      if turn.Line? {
        CutIsRagged(turn.g, lines[1..], rest);
      } else if turn.Ragged? {
        StuckTurnRepeats(g);
      }
    }
  }

  /**
   A whole reply in front of the stream: what one `get_response` takes, leaves and passes on, and how it ends, are
   those of the delivery of its lines.  So it takes exactly the reply if and only if every line is there when its turn
   comes; otherwise it throws with a read, or gives up before a cut line, or never ends.
   */
  lemma SmtpReadsWholeReply(g: GetArea, lines: seq<seq<byte>>, rest: seq<byte>)
    requires g.Valid() && g.cap > 0
    requires IsSmtpReply(lines) && g.Stream() == Concat(lines) + rest
    ensures var d := Deliver(g, lines);
            SmtpReply(g) == (d.g, Concat(lines[..d.taken]), SmtpEnding(d))
    ensures SmtpReply(g).1 == Concat(lines) && SmtpReply(g).2 == Ends(Returned(0)) <==> Served(g, lines)
    ensures Served(g, lines) ==> SmtpReply(g).0.Stream() == rest
  {
    hide SmtpReply, Deliver;
    SmtpReplyIsDelivery(g, lines, rest);
    var d := Deliver(g, lines);
    assert Matches(lines, d, SmtpEnding(d), SmtpReply(g));
    SmtpReplyTakesOne(g);
    if !d.how.AllTaken? {
      ConcatFewer(lines, d.taken);
    } else {
      assert lines[..|lines|] == lines;
      SamePrefix(SmtpReply(g).1, SmtpReply(g).0.Stream(), Concat(lines), rest);
    }
  }

  ghost predicate AreSmtpReplies(rs: seq<seq<seq<byte>>>) {
    forall i :: 0 <= i < |rs| ==> IsSmtpReply(rs[i])
  }

  /** The lines of some replies, one reply behind the other. */
  function AllLines(rs: seq<seq<seq<byte>>>): seq<seq<byte>> {
    if rs == [] then [] else rs[0] + AllLines(rs[1..])
  }

  /** The results of `n` calls of `get_response` one after the other. */
  function SmtpReplies(g: GetArea, n: nat): (r: seq<(GetArea, seq<byte>, Ending)>)
    requires g.Valid()
    ensures |r| == n
    decreases n
  {
    if n == 0 then []
    else
      var r := SmtpReply(g);
      [r] + SmtpReplies(r.0, n - 1)
  }

  predicate SmtpAnswer(lines: seq<seq<byte>>, a: (GetArea, seq<byte>, Ending)) {
    a.1 == Concat(lines) && a.2 == Ends(Returned(0))
  }

  /** Each call gets its own reply. */
  ghost predicate SmtpAnswered(rs: seq<seq<seq<byte>>>, answers: seq<(GetArea, seq<byte>, Ending)>)
    requires |rs| == |answers|
  {
    forall i :: 0 <= i < |rs| ==> SmtpAnswer(rs[i], answers[i])
  }

  lemma SmtpAnsweredCons(rs: seq<seq<seq<byte>>>, first: (GetArea, seq<byte>, Ending),
                         more: seq<(GetArea, seq<byte>, Ending)>)
    requires rs != [] && |more| == |rs| - 1
    ensures SmtpAnswered(rs, [first] + more) <==> SmtpAnswer(rs[0], first) && SmtpAnswered(rs[1..], more)
  {
    hide SmtpAnswer;
    var all, tail := [first] + more, rs[1..];
    if SmtpAnswered(rs, all) {
      assert SmtpAnswer(rs[0], all[0]);
      forall i | 0 <= i < |tail| ensures SmtpAnswer(tail[i], more[i]) {
        assert SmtpAnswer(rs[i + 1], all[i + 1]);
      }
    }
    if SmtpAnswered(tail, more) && SmtpAnswer(rs[0], first) {
      forall i | 0 <= i < |rs| ensures SmtpAnswer(rs[i], all[i]) {
        if i > 0 {
          assert SmtpAnswer(tail[i - 1], more[i - 1]);
        }
      }
    }
  }

  /** A list of replies is read back one for each call, if and only if every line is there when its turn comes. */
  lemma {:induction false} SmtpConversation(g: GetArea, rs: seq<seq<seq<byte>>>, rest: seq<byte>)
    requires g.Valid() && g.cap > 0
    requires AreSmtpReplies(rs) && g.Stream() == Concat(AllLines(rs)) + rest
    ensures SmtpAnswered(rs, SmtpReplies(g, |rs|)) <==> Served(g, AllLines(rs))
    decreases |rs|
  {
    hide SmtpReply, IsSmtpReply, Deliver, SmtpAnswered, Concat;
    if rs == [] {
      SmtpAnsweredNone(g);
    } else {
      assert IsSmtpReply(rs[0]);
      var later := AllLines(rs[1..]);
      ConcatAppend(rs[0], later);
      Assoc(Concat(rs[0]), Concat(later), rest);
      SmtpReadsWholeReply(g, rs[0], Concat(later) + rest);
      DeliverAppend(g, rs[0], later);
      var r := SmtpReply(g);
      SmtpAnsweredCons(rs, r, SmtpReplies(r.0, |rs| - 1));
      if Served(g, rs[0]) {
        SmtpConversation(r.0, rs[1..], rest);
      }
    }
  }

  lemma SmtpAnsweredNone(g: GetArea)
    requires g.Valid()
    ensures SmtpAnswered([], []) && Served(g, [])
  {
  }

  lemma SamePrefix(a: seq<byte>, b: seq<byte>, c: seq<byte>, d: seq<byte>)
    requires a + b == c + d && |a| == |c|
    ensures a == c && b == d
  {
    assert a == (a + b)[..|a|] && c == (c + d)[..|c|];
    assert b == (a + b)[|a|..] && d == (c + d)[|c|..];
  }

  // ---------------------------------------------------------------------------------------------
  // Deliveries in whole lines
  // ---------------------------------------------------------------------------------------------

  /**
   Whole lines, with at least 5 bytes left at the start of each.  With fewer the scanners look again at
   the same bytes for ever.
   */
  ghost predicate Block(c: seq<byte>)
    decreases |c|
  {
    |c| >= 5 && FindCrlf(c) != -1 && (FindCrlf(c) + 2 == |c| || Block(c[FindCrlf(c) + 2..]))
  }

  ghost predicate AlignedRefills(data: seq<byte>, refills: seq<Reply>, cap: nat)
    decreases |refills|
  {
    if data == [] || refills == [] then true
    else
      match refills[0]
      case Fails => AlignedRefills(data, refills[1..], cap)
      case Moves(extra) =>
        var n := Granted(extra, Min(cap, |data|));
        Block(data[..n]) && AlignedRefills(data[n..], refills[1..], cap)
  }

  /** What is buffered and what every later read delivers are blocks. */
  ghost predicate Aligned(g: GetArea) {
    g.cap == 0 ||
    ((g.unread == [] || Block(g.unread)) && AlignedRefills(g.inc.data, g.inc.refills, g.cap))
  }

  /** In other words: a block is a number of lines of which the last has at least 5 bytes. */
  lemma {:induction false} BlockIsLines(lines: seq<seq<byte>>)
    requires AreLines(lines) && lines != []
    ensures Block(Concat(lines)) <==> |Last(lines)| >= 5
    ensures |Concat(lines)| >= |Last(lines)|
    decreases |lines|
  {
    LinesTail(lines);
    assert IsLine(lines[0]);
    if |lines| > 1 {
      BlockIsLines(lines[1..]);
      assert IsLine(lines[1]);
      assert |Concat(lines[1..])| == |lines[1]| + |Concat(lines[1..][1..])|;
    } else {
      assert Concat(lines[1..]) == [];
    }
  }

  lemma AlignedUnderflow(g: GetArea)
    requires g.Valid() && Aligned(g)
    ensures Aligned(Underflow(g).0)
    ensures Underflow(g).1.Returned? && Underflow(g).1.value != EOF ==> Block(Underflow(g).0.unread)
  {
    if g.cap > 0 && g.unread == [] {
      var (k0, gate) := Admit(g.inc, g.rtmo, g.oob);
      var (k1, n) := SysRead(k0, g.cap);
    }
  }

  lemma AlignedAfterLine(g: GetArea)
    requires g.Valid() && Aligned(g) && g.cap > 0 && Block(g.unread)
    ensures Aligned(g.(unread := g.unread[FindCrlf(g.unread) + 2..]))
  {
  }

  /** Aligned deliveries never leave a turn short of a line. */
  lemma AlignedTurn(g: GetArea)
    requires g.Valid() && Aligned(g)
    ensures TakeLine(g).Line? || TakeLine(g).NoLine?
    ensures Aligned(TakeLine(g).g)
  {
    hide Underflow, Aligned;
    AlignedUnderflow(g);
    if TakeLine(g).Line? {
      AlignedAfterLine(Underflow(g).0);
    }
  }

  /** Turn by turn, is the buffer used up line by line, with no turn in between that gets stuck? */
  ghost predicate Empties(g: GetArea)
    requires g.Valid()
    decreases |g.Stream()|
  {
    g.unread == [] || (TakeLine(g).Line? && Empties(TakeLine(g).g))
  }

  lemma TakeBuffered(g: GetArea)
    requires g.Valid() && g.unread != []
    ensures var i := FindCrlf(g.unread) + 2;
            if |g.unread| < 5 || i == 1 then !TakeLine(g).Line?
            else TakeLine(g).Line? && TakeLine(g).g == g.(unread := g.unread[i..])
  {
  }

  /** What one read has delivered is used up line by line exactly when it is a block. */
  lemma {:induction false} EmptiesOnlyBlocks(g: GetArea)
    requires g.Valid() && g.unread != []
    ensures Empties(g) <==> Block(g.unread)
    decreases |g.Stream()|
  {
    TakeBuffered(g);
    hide TakeLine;
    var i := FindCrlf(g.unread) + 2;
    if |g.unread| >= 5 && i != 1 && i < |g.unread| {
      EmptiesOnlyBlocks(TakeLine(g).g);
    }
  }

  /** Whole lines are there when their turn comes, unless a read throws. */
  lemma {:induction false} AlignedServes(g: GetArea, lines: seq<seq<byte>>, rest: seq<byte>)
    requires g.Valid() && Aligned(g) && g.cap > 0
    requires AreLines(lines) && g.Stream() == Concat(lines) + rest
    ensures Served(g, lines) || Deliver(g, lines).how.Failed?
    decreases |lines|
  {
    hide Aligned, Underflow, TakeLine;
    if lines != [] {
      var l, tail := lines[0], lines[1..];
      assert IsLine(l);
      Assoc(l, Concat(tail), rest);
      LineInFront(g, l, Concat(tail) + rest);
      AlignedTurn(g);
      if TakeLine(g).Line? {
        assert forall i :: 0 <= i < |tail| ==> tail[i] == lines[i + 1];
        AlignedServes(TakeLine(g).g, tail, rest);
      }
    }
  }

  lemma {:induction false} SmtpReplyEnds(g: GetArea)
    requires g.Valid() && Aligned(g)
    ensures SmtpReply(g).2.Ends? && Aligned(SmtpReply(g).0)
    decreases |g.Stream()|
  {
    AlignedTurn(g);
    if TakeLine(g).Line? {
      SmtpReplyEnds(TakeLine(g).g);
    }
  }
}
