/**
 A reply of a file server of which the first line is cut by the delivery, and which is taken exactly all the same: in
 `FtpReplies.FtpTakesReply` there is more than the replies of which each line is there when its turn comes.
 */
module CutReply {
  import opened Octets
  import opened Kernel
  import opened Lines
  import opened GetSide
  import opened Replies
  import opened FtpReplies

  const HE: seq<byte> := [50, 53, 48, 45, 104, 101]
  const LLO: seq<byte> := [108, 108, 111]
  const OK: seq<byte> := [50, 53, 48, 32, 111, 107]
  const CODE: seq<byte> := [50, 53, 48, 32]
  const OPEN: seq<byte> := [50, 53, 48, 45]
  const LINES: seq<seq<byte>> := [HE + (LLO + CRLF), OK + CRLF]

  /** A connection without a timeout that has `data` to come, delivered by such reads. */
  function Area(unread: seq<byte>, data: seq<byte>, refills: seq<Reply>): GetArea {
    GetArea(1024, unread, Incoming(data, refills, [], []), -1, false)
  }

  /** The first read delivers "250-he", the second the rest of the reply. */
  function Start(): GetArea {
    Area([], HE + (LLO + CRLF + (OK + CRLF)), [Moves(5), Moves(12)])
  }

  /** What one read delivers: `a`, of so many bytes or the last there are. */
  lemma OneRead(a: seq<byte>, b: seq<byte>, extra: nat, later: seq<Reply>)
    requires 0 < |a| <= 1024 && |a| == extra + 1
    ensures Underflow(Area([], a + b, [Moves(extra)] + later)) == (Area(a, b, later), Returned(a[0] as int))
  {
    SliceOfConcat(a, b, |a|);
    assert a[..|a|] == a && a[|a|..] + b == b;
    assert ([Moves(extra)] + later)[1..] == later;
    var k := Area([], a + b, [Moves(extra)] + later).inc;
    assert SysRead(k, 1024) == (Incoming(b, later, [], []), |a|);
  }

  /** A turn after a read that delivers no line end: all of it is taken. */
  lemma CutTurn(g: GetArea, q: seq<byte>, data: seq<byte>, refills: seq<Reply>)
    requires 5 <= |q| <= 1024 && LF !in q
    requires g.Valid() && Underflow(g) == (Area(q, data, refills), Returned(q[0] as int))
    ensures TakePiece(g) == Taken(Area([], data, refills), Piece(q, true), q[..4])
  {
    FindCrlfFirst(q);
    hide Underflow;
  }

  /** A turn with a line in front. */
  lemma LineTurn(g: GetArea, text: seq<byte>, more: seq<byte>, data: seq<byte>, refills: seq<Reply>)
    requires var q := text + CRLF + more;
             g.Valid() && 5 <= |q| <= 1024 && Underflow(g) == (Area(q, data, refills), Returned(q[0] as int))
    requires LF !in text
    ensures TakePiece(g) == Taken(Area(more, data, refills), Piece(text + CRLF, false), (text + CRLF + more)[..4])
  {
    LineWithoutLf(text);
    FindCrlfInFront(text + CRLF, more);
    SliceOfConcat(text + CRLF, more, |text + CRLF|);
    assert (text + CRLF)[..|text + CRLF|] == text + CRLF;
    assert (text + CRLF)[|text + CRLF|..] + more == more;
    hide Underflow, FindCrlf;
  }

  lemma FirstTurn()
    ensures TakePiece(Start()) == Taken(Area([], LLO + CRLF + (OK + CRLF), [Moves(12)]), Piece(HE, true), OPEN)
  {
    assert [Moves(5), Moves(12)] == [Moves(5)] + [Moves(12)];
    OneRead(HE, LLO + CRLF + (OK + CRLF), 5, [Moves(12)]);
    hide Underflow, TakePiece;
    CutTurn(Start(), HE, LLO + CRLF + (OK + CRLF), [Moves(12)]);
    assert HE[..4] == OPEN;
  }

  lemma SecondTurn()
    ensures TakePiece(Area([], LLO + CRLF + (OK + CRLF), [Moves(12)]))
         == Taken(Area(OK + CRLF, [], []), Piece(LLO + CRLF, false), LLO + [CR])
  {
    var q := LLO + CRLF + (OK + CRLF);
    assert q + [] == q && [Moves(12)] + [] == [Moves(12)];
    OneRead(q, [], 12, []);
    hide Underflow, TakePiece;
    LineTurn(Area([], q, [Moves(12)]), LLO, OK + CRLF, [], []);
    assert q[..4] == LLO + [CR];
  }

  lemma ThirdTurn()
    ensures TakePiece(Area(OK + CRLF, [], [])) == Taken(Area([], [], []), Piece(OK + CRLF, false), CODE)
  {
    var q := OK + CRLF;
    assert OK + CRLF + [] == q;
    assert Underflow(Area(q, [], [])) == (Area(q, [], []), Returned(q[0] as int));
    hide Underflow, TakePiece;
    LineTurn(Area(q, [], []), OK, [], [], []);
    assert q[..4] == CODE;
  }

  lemma IsReply()
    ensures IsFtpReply(LINES, CODE)
    ensures Start().Stream() == Concat(LINES)
  {
    LineWithoutLf(HE + LLO);
    LineWithoutLf(OK);
    assert HE + (LLO + CRLF) == HE + LLO + CRLF;
    hide IsLine;
    assert AreLines(LINES);
    assert StartsWith(OK + CRLF, CODE) && StartsWith(HE + (LLO + CRLF), CODE[..3] + [DASH]);
    ConcatCons(HE + (LLO + CRLF), [OK + CRLF]);
    ConcatOne(OK + CRLF);
    assert LINES == [HE + (LLO + CRLF)] + [OK + CRLF];
    Assoc(HE, LLO + CRLF, OK + CRLF);
  }

  lemma NotServed()
    ensures !Served(Start(), LINES)
  {
    assert [Moves(5), Moves(12)] == [Moves(5)] + [Moves(12)];
    OneRead(HE, LLO + CRLF + (OK + CRLF), 5, [Moves(12)]);
    hide Underflow;
  }

  /** The turns after the first one. */
  lemma LaterTurns()
    ensures FtpRest(Area([], LLO + CRLF + (OK + CRLF), [Moves(12)]), CODE)
         == (Area([], [], []), [Piece(LLO + CRLF, false)] + [Piece(OK + CRLF, false)], Ends(Returned(50)))
  {
    SecondTurn();
    ThirdTurn();
    assert !Strncmp(LLO + [CR], CODE) && Strncmp(CODE, CODE) && CODE[0] == 50;
    FtpRestStep(Area([], LLO + CRLF + (OK + CRLF), [Moves(12)]), CODE);
    FtpRestStep(Area(OK + CRLF, [], []), CODE);
    hide *;
  }

  lemma WholeCall(g: GetArea, g1: GetArea, p: Piece, start: seq<byte>, code: seq<byte>, was: seq<byte>,
                  later: (GetArea, seq<Piece>, Ending))
    requires g.Valid() && g1.Valid() && |was| == |start| == 4 && TakePiece(g) == Taken(g1, p, start)
    requires start[3] != SP && code == CodeOf(start) && later == FtpRest(g1, code)
    ensures FtpReply(g, was) == FtpResult(later.0, [p] + later.1, code, later.2)
  {
    hide TakePiece, FtpRest, CodeOf;
  }

  const PIECES := [Piece(HE, true)] + ([Piece(LLO + CRLF, false)] + [Piece(OK + CRLF, false)])

  const LATER := [Piece(LLO + CRLF, false)] + [Piece(OK + CRLF, false)]

  lemma Literals()
    ensures |OPEN| == 4 && CodeOf(OPEN) == CODE && OPEN[3] != SP
    ensures Start().Valid()
  {
  }

  lemma Result(was: seq<byte>)
    requires |was| == 4
    ensures FtpReply(Start(), was) == FtpResult(Area([], [], []), PIECES, CODE, Ends(Returned(50)))
  {
    hide *;
    FirstTurn();
    LaterTurns();
    Literals();
    PiecesAre();
    WholeCall(Start(), TakePiece(Start()).g, Piece(HE, true), OPEN, CODE, was, (Area([], [], []), LATER, Ends(Returned(50))));
  }

  lemma PiecesAre()
    ensures PIECES == [Piece(HE, true)] + LATER
    ensures LATER == [Piece(LLO + CRLF, false)] + [Piece(OK + CRLF, false)]
  {
  }

  /** Its first line is cut, and the call still takes exactly the reply and stores its code. */
  lemma CutButTaken(was: seq<byte>)
    requires |was| == 4
    ensures IsFtpReply(LINES, CODE) && Start().Stream() == Concat(LINES) && !Served(Start(), LINES)
    ensures FtpReply(Start(), was) == FtpResult(Area([], [], []), PIECES, CODE, Ends(Returned(50)))
  {
    hide *;
    IsReply();
    NotServed();
    Result(was);
  }
}
