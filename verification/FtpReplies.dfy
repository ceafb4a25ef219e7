/**
 Reading the replies of a file server (section 4.2 of RFC 959).  The loop of `ftpbuf::get_response` takes a line at
 a time or, when no line end is buffered, all that is buffered and its pointer one step too far; so it passes one byte
 of memory too many on, and goes on in the middle of a line.
 */
module FtpReplies {
  import opened Basics
  import opened Octets
  import opened Kernel
  import opened Lines
  import opened GetSide
  import opened Replies

  // ---------------------------------------------------------------------------------------------
  // Pieces
  // ---------------------------------------------------------------------------------------------

  /** What one turn takes off the stream: a line, or a cut one, to which one byte behind it in memory is added. */
  datatype Piece = Piece(bytes: seq<byte>, cut: bool)

  function BytesOf(ps: seq<Piece>): seq<byte> {
    if ps == [] then [] else ps[0].bytes + BytesOf(ps[1..])
  }

  function Cuts(ps: seq<Piece>): nat {
    if ps == [] then 0 else (if ps[0].cut then 1 else 0) + Cuts(ps[1..])
  }

  /** What is passed on, with the `strays` behind the cut pieces. */
  function Rendered(ps: seq<Piece>, strays: seq<byte>): seq<byte>
    requires |strays| == Cuts(ps)
  {
    if ps == [] then []
    else if ps[0].cut then ps[0].bytes + [strays[0]] + Rendered(ps[1..], strays[1..])
    else ps[0].bytes + Rendered(ps[1..], strays)
  }

  lemma {:induction false} RenderedLength(ps: seq<Piece>, strays: seq<byte>)
    requires |strays| == Cuts(ps)
    ensures |Rendered(ps, strays)| == |BytesOf(ps)| + Cuts(ps)
    ensures Cuts(ps) == 0 ==> Rendered(ps, strays) == BytesOf(ps)
    decreases |ps|
  {
    if ps != [] {
      RenderedLength(ps[1..], if ps[0].cut then strays[1..] else strays);
    }
  }

  lemma {:induction false} BytesOfAppend(a: seq<Piece>, b: seq<Piece>)
    ensures BytesOf(a + b) == BytesOf(a) + BytesOf(b)
    ensures Cuts(a + b) == Cuts(a) + Cuts(b)
    decreases |a|
  {
    if a == [] {
      assert a + b == b;
    } else {
      BytesOfAppend(a[1..], b);
      var p, t := a[0], a[1..];
      Assoc([p], t, b);
      assert [p] + t == a;
      BytesOfCons(p, t);
      BytesOfCons(p, t + b);
      hide BytesOf, Cuts;
      Assoc(p.bytes, BytesOf(t), BytesOf(b));
    }
  }

  lemma {:induction false} RenderedAppend(a: seq<Piece>, x: seq<byte>, b: seq<Piece>, y: seq<byte>)
    requires |x| == Cuts(a) && |y| == Cuts(b)
    ensures Cuts(a + b) == |x + y|
    ensures Rendered(a + b, x + y) == Rendered(a, x) + Rendered(b, y)
    decreases |a|
  {
    BytesOfAppend(a, b);
    if a == [] {
      assert a + b == b && x + y == y;
    } else {
      assert (a + b)[0] == a[0] && (a + b)[1..] == a[1..] + b;
      var x' := if a[0].cut then x[1..] else x;
      RenderedAppend(a[1..], x', b, y);
      if a[0].cut {
        assert (x + y)[0] == x[0] && (x + y)[1..] == x' + y;
        Assoc(a[0].bytes + [x[0]], Rendered(a[1..], x'), Rendered(b, y));
      } else {
        Assoc(a[0].bytes, Rendered(a[1..], x'), Rendered(b, y));
      }
    }
  }

  /** One more piece, cut or not. */
  lemma RenderedOne(ps: seq<Piece>, strays: seq<byte>, p: Piece, b: byte)
    requires |strays| == Cuts(ps)
    ensures var more := if p.cut then [b] else [];
            && Cuts(ps + [p]) == |strays + more|
            && Rendered(ps + [p], strays + more) == Rendered(ps, strays) + (p.bytes + more)
  {
    assert [p][1..] == [];
    var more := if p.cut then [b] else [];
    RenderedAppend(ps, strays, [p], more);
    assert Rendered([p], more) == p.bytes + more + [];
  }

  /** `text` may be what is passed on. */
  ghost predicate PassesOn(ps: seq<Piece>, text: seq<byte>) {
    exists strays: seq<byte> :: |strays| == Cuts(ps) && Rendered(ps, strays) == text
  }

  lemma PassesOnLength(ps: seq<Piece>, text: seq<byte>)
    requires PassesOn(ps, text)
    ensures |text| == |BytesOf(ps)| + Cuts(ps)
  {
    var strays: seq<byte> :| |strays| == Cuts(ps) && Rendered(ps, strays) == text;
    RenderedLength(ps, strays);
  }

  lemma PassesOnUncut(ps: seq<Piece>)
    requires Cuts(ps) == 0
    ensures PassesOn(ps, BytesOf(ps))
  {
    RenderedLength(ps, []);
    assert Rendered(ps, []) == BytesOf(ps);
  }

  // ---------------------------------------------------------------------------------------------
  // The loop
  // ---------------------------------------------------------------------------------------------

  /** `strncpy(code, q, 3)`, which stops at a NUL and fills up with NULs, then a space. */
  function CodeOf(q: seq<byte>): (code: seq<byte>)
    requires |q| == 4
    ensures |code| == 4
  {
    if q[0] == NUL then [NUL, NUL, NUL, SP]
    else if q[1] == NUL then [q[0], NUL, NUL, SP]
    else [q[0], q[1], q[2], SP]
  }

  /** `strncmp(a, b, 4) == 0`, which does not look beyond a NUL. */
  predicate Strncmp(a: seq<byte>, b: seq<byte>)
    requires |a| == |b| == 4
  {
    && a[0] == b[0]
    && (a[0] == NUL || (a[1] == b[1]
    && (a[1] == NUL || (a[2] == b[2]
    && (a[2] == NUL || a[3] == b[3])))))
  }

  /** In other words: the first three bytes up to the first NUL, which goes on to the third, and a space. */
  lemma CodeOfIs(q: seq<byte>, i: nat)
    requires |q| == 4 && i < 3
    ensures CodeOf(q)[i] == if NUL in q[..i + 1] then NUL else q[i]
    ensures CodeOf(q)[3] == SP
  {
    assert i == 0 || i == 1 || i == 2;
    assert q[..i + 1] == if i == 0 then [q[0]] else if i == 1 then [q[0], q[1]] else [q[0], q[1], q[2]];
  }

  /** In other words: they agree up to the first NUL. */
  lemma StrncmpIs(a: seq<byte>, b: seq<byte>)
    requires |a| == |b| == 4
    ensures Strncmp(a, b) <==> forall i :: 0 <= i < 4 && NUL !in a[..i] ==> a[i] == b[i]
  {
    assert a[..0] == [] && a[..1] == [a[0]] && a[..2] == [a[0], a[1]] && a[..3] == [a[0], a[1], a[2]];
    if forall i :: 0 <= i < 4 && NUL !in a[..i] ==> a[i] == b[i] {
      assert a[0] == b[0];
      assert NUL !in a[..1] ==> a[1] == b[1];
      assert NUL !in a[..2] ==> a[2] == b[2];
      assert NUL !in a[..3] ==> a[3] == b[3];
    }
    if Strncmp(a, b) {
      forall i | 0 <= i < 4 && NUL !in a[..i] ensures a[i] == b[i] {
        assert i > 0 ==> a[0] in a[..i];
        assert i > 1 ==> a[1] in a[..i];
        assert i > 2 ==> a[2] in a[..i];
      }
    }
  }

  /** A turn takes a piece, having looked at its first four bytes; or there is nothing; or fewer than 5 bytes. */
  datatype PieceTurn =
    | Taken(g: GetArea, piece: Piece, start: seq<byte>)
    | Nothing(g: GetArea, call: Call)
    | TooFew(g: GetArea)

  function TakePiece(g: GetArea): (r: PieceTurn)
    requires g.Valid()
    ensures r.g.Valid() && r.g.cap == g.cap
    ensures r.Taken? ==> |r.start| == 4 && |r.g.Stream()| < |g.Stream()|
  {
    match TakeLine(g)
    case NoLine(g1, u) => Nothing(g1, u)
    case Short(g1) => TooFew(g1)
    case Ragged(g1, start) => Taken(g1.(unread := []), Piece(g1.unread, true), start)
    case Line(g1, line, start) => Taken(g1, Piece(line, false), start)
  }

  /** The loop from the second piece on: it ends with one that starts like the stored code. */
  function FtpRest(g: GetArea, code: seq<byte>): (r: (GetArea, seq<Piece>, Ending))
    requires g.Valid() && |code| == 4
    ensures r.0.Valid() && r.0.cap == g.cap
    decreases |g.Stream()|
  {
    match TakePiece(g)
    case Nothing(g1, u) => (g1, [], Ends(if u.Threw? then u else Returned(code[0] as int)))
    case TooFew(g1) => (g1, [], Spins)
    case Taken(g1, p, start) =>
      if Strncmp(start, code) then (g1, [p], Ends(Returned(code[0] as int)))
      else
        var rest := FtpRest(g1, code);
        (rest.0, [p] + rest.1, rest.2)
  }

  datatype FtpResult = FtpResult(g: GetArea, pieces: seq<Piece>, code: seq<byte>, ending: Ending) {
    predicate Returned() {
      ending.Ends? && ending.call.Returned?
    }
  }

  /** The whole loop; `code` is what is stored from the reply before. */
  function FtpReply(g: GetArea, code: seq<byte>): (r: FtpResult)
    requires g.Valid() && |code| == 4
    ensures r.g.Valid() && r.g.cap == g.cap && |r.code| == 4
  {
    match TakePiece(g)
    case Nothing(g1, u) => FtpResult(g1, [], code, Ends(if u.Threw? then u else Returned(code[0] as int)))
    case TooFew(g1) => FtpResult(g1, [], code, Spins)
    case Taken(g1, p, start) =>
      var code1 := CodeOf(start);
      if start[3] == SP then FtpResult(g1, [p], code1, Ends(Returned(code1[0] as int)))
      else
        var rest := FtpRest(g1, code1);
        FtpResult(rest.0, [p] + rest.1, code1, rest.2)
  }

  lemma FtpRestStep(g: GetArea, code: seq<byte>)
    requires g.Valid() && |code| == 4
    ensures var r, turn := FtpRest(g, code), TakePiece(g);
            && (turn.Nothing? ==> r == (turn.g, [], Ends(if turn.call.Threw? then turn.call else Returned(code[0] as int))))
            && (turn.TooFew? ==> r == (turn.g, [], Spins))
            && (turn.Taken? && Strncmp(turn.start, code) ==>
                  r == (turn.g, [turn.piece], Ends(Returned(code[0] as int))))
            && (turn.Taken? && !Strncmp(turn.start, code) ==>
                  r == (FtpRest(turn.g, code).0, [turn.piece] + FtpRest(turn.g, code).1, FtpRest(turn.g, code).2))
  {
  }

  lemma FtpReplyStep(g: GetArea, was: seq<byte>)
    requires g.Valid() && |was| == 4
    ensures var r, turn := FtpReply(g, was), TakePiece(g);
            && (turn.Nothing? ==>
                  r == FtpResult(turn.g, [], was, Ends(if turn.call.Threw? then turn.call else Returned(was[0] as int))))
            && (turn.TooFew? ==> r == FtpResult(turn.g, [], was, Spins))
            && (turn.Taken? ==>
                  var code := CodeOf(turn.start);
                  r == if turn.start[3] == SP then
                         FtpResult(turn.g, [turn.piece], code, Ends(Returned(code[0] as int)))
                       else FtpResult(FtpRest(turn.g, code).0, [turn.piece] + FtpRest(turn.g, code).1, code,
                                      FtpRest(turn.g, code).2))
  {
  }

  /** With fewer than 5 bytes a turn changes nothing, so that the loop never ends. */
  lemma TooFewRepeats(g: GetArea)
    requires g.Valid() && TakePiece(g).TooFew?
    ensures TakePiece(TakePiece(g).g) == TakePiece(g)
  {
    StuckTurnRepeats(g);
  }

  // ---------------------------------------------------------------------------------------------
  // What is taken off the stream
  // ---------------------------------------------------------------------------------------------

  /** How much of the stream the lines up to the one with the code take. */
  function RestLength(s: seq<byte>, code: seq<byte>): (n: nat)
    requires |code| == 4
    ensures n <= |s|
    decreases |s|
  {
    var i := FindCrlf(s);
    if i == -1 || |s| < 4 then 0
    else if Strncmp(s[..4], code) then i + 2
    else i + 2 + RestLength(s[i + 2..], code)
  }

  /** How much of the stream one reply takes. */
  function FtpLength(s: seq<byte>): (n: nat)
    ensures n <= |s|
  {
    var i := FindCrlf(s);
    if i == -1 || |s| < 4 then 0
    else if s[3] == SP then i + 2
    else i + 2 + RestLength(s[i + 2..], CodeOf(s[..4]))
  }

  lemma RestLengthStep(s: seq<byte>, code: seq<byte>)
    requires |code| == 4
    ensures var i := FindCrlf(s) + 2;
            if i == 1 || |s| < 4 then RestLength(s, code) == 0
            else RestLength(s, code) == i + if Strncmp(s[..4], code) then 0 else RestLength(s[i..], code)
  {
    hide FindCrlf, Strncmp;
  }

  lemma TakePieceOfStream(g: GetArea)
    requires g.Valid() && g.cap > 0
    ensures var s, r := g.Stream(), TakePiece(g);
            && (!r.Taken? ==> r.g.Stream() == s)
            && (r.Nothing? && r.call.Returned? ==> s == [] && Underflow(g).1 == Returned(EOF))
            && (r.Taken? ==> |r.piece.bytes| >= 2 && r.piece.bytes + r.g.Stream() == s)
            && (r.Taken? && !r.piece.cut ==>
                  var i := FindCrlf(s) + 2;
                  && FindCrlf(s) != -1 && |s| >= 4
                  && |r.piece.bytes| == i && r.g.Stream() == s[i..] && r.start == s[..4])
  {
    TakeLineOfStream(g);
    NoLineAtEnd(g);
    var turn, s := TakeLine(g), g.Stream();
    hide FindCrlf, TakeLine, Underflow;
    if turn.Line? {
      FrontAndRest(s, |turn.line|);
    } else if turn.Ragged? {
      assert turn.g.unread + turn.g.inc.data == s;
    }
  }

  lemma NoLineAtEnd(g: GetArea)
    requires g.Valid()
    ensures TakeLine(g).NoLine? && TakeLine(g).call.Returned? ==> Underflow(g).1 == Returned(EOF)
  {
    hide Underflow, FindCrlf;
  }

  lemma FrontAndRest(s: seq<byte>, n: nat)
    requires n <= |s|
    ensures s[..n] + s[n..] == s
  {
  }

  lemma {:induction false} FtpRestTakes(g: GetArea, code: seq<byte>)
    requires g.Valid() && g.cap > 0 && |code| == 4
    ensures var r := FtpRest(g, code);
            && BytesOf(r.1) + r.0.Stream() == g.Stream()
            && |BytesOf(r.1)| >= 2 * |r.1|
            && (r.2.Ends? && r.2.call.Returned? ==> r.2.call.value == code[0] as int)
            && (r.2.Ends? && r.2.call.Returned? && Cuts(r.1) == 0 ==> |BytesOf(r.1)| == RestLength(g.Stream(), code))
    decreases |g.Stream()|
  {
    var turn, s := TakePiece(g), g.Stream();
    TakePieceOfStream(g);
    FtpRestStep(g, code);
    RestLengthStep(s, code);
    if turn.Taken? {
      hide TakePiece, FindCrlf, FtpRest, RestLength, Strncmp;
      if Strncmp(turn.start, code) {
        BytesOfOne(turn.piece);
      } else {
        FtpRestTakes(turn.g, code);
        BytesOfCons(turn.piece, FtpRest(turn.g, code).1);
        Assoc(turn.piece.bytes, BytesOf(FtpRest(turn.g, code).1), FtpRest(turn.g, code).0.Stream());
      }
    }
  }

  lemma BytesOfCons(p: Piece, ps: seq<Piece>)
    ensures BytesOf([p] + ps) == p.bytes + BytesOf(ps)
    ensures Cuts([p] + ps) == (if p.cut then 1 else 0) + Cuts(ps)
  {
    assert ([p] + ps)[1..] == ps;
  }

  lemma BytesOfOne(p: Piece)
    ensures BytesOf([p]) == p.bytes && Cuts([p]) == if p.cut then 1 else 0
  {
    assert [p][1..] == [];
  }

  /**
   Over any stream and any deliveries, the pieces of one `get_response` are the front of the stream and the rest is
   still to come.  When it returns without having cut a line, text and code are those the stream alone determines.
   */
  lemma FtpReplyTakesOne(g: GetArea, code: seq<byte>)
    requires g.Valid() && g.cap > 0 && |code| == 4
    ensures var s, r := g.Stream(), FtpReply(g, code);
            && BytesOf(r.pieces) + r.g.Stream() == s
            && (r.Returned() ==> r.ending.call.value == r.code[0] as int)
            && (r.Returned() && Cuts(r.pieces) == 0 ==>
                  && |BytesOf(r.pieces)| == FtpLength(s)
                  && r.code == (if |s| >= 4 then CodeOf(s[..4]) else code))
  {
    var turn, s := TakePiece(g), g.Stream();
    TakePieceOfStream(g);
    FtpReplyStep(g, code);
    FtpLengthStep(s);
    FtpReplyNone(g, code);
    hide TakePiece, FtpRest, FtpReply, FtpLength, RestLength, CodeOf, FindCrlf;
    if turn.Taken? {
      BytesOfOne(turn.piece);
      var code1 := CodeOf(turn.start);
      FtpRestTakes(turn.g, code1);
      var rest := FtpRest(turn.g, code1);
      BytesOfCons(turn.piece, rest.1);
      hide BytesOf;
      Assoc(turn.piece.bytes, BytesOf(rest.1), rest.0.Stream());
      if !turn.piece.cut {
        assert turn.start[3] == s[3];
      }
    }
  }

  lemma FtpReplyNone(g: GetArea, code: seq<byte>)
    requires g.Valid() && |code| == 4
    ensures var r := FtpReply(g, code);
            !TakePiece(g).Taken? ==>
            && r.g == TakePiece(g).g && r.pieces == [] && r.code == code
            && (r.Returned() ==> TakePiece(g).Nothing? && TakePiece(g).call.Returned? && r.ending.call.value == code[0] as int)
  {
    hide TakePiece;
  }

  lemma FtpLengthStep(s: seq<byte>)
    ensures var i := FindCrlf(s) + 2;
            if i == 1 || |s| < 4 then FtpLength(s) == 0
            else FtpLength(s) == i + if s[3] == SP then 0 else RestLength(s[i..], CodeOf(s[..4]))
  {
    hide FindCrlf, RestLength, CodeOf;
  }

  // ---------------------------------------------------------------------------------------------
  // Replies
  // ---------------------------------------------------------------------------------------------

  ghost predicate IsCode(code: seq<byte>) {
    |code| == 4 && code[3] == SP && IsDigit(code[0]) && IsDigit(code[1]) && IsDigit(code[2])
  }

  /** Does the line start with the code and a space? */
  predicate StartsWith(line: seq<byte>, code: seq<byte>) {
    |line| >= |code| && line[..|code|] == code
  }

  /**
   A reply of section 4.2 of RFC 959: one line "ddd text", or a line "ddd-text", lines that do not
   start with "ddd ", and a line "ddd text" with the same code.
   */
  ghost predicate IsFtpReply(lines: seq<seq<byte>>, code: seq<byte>) {
    && AreLines(lines) && lines != []
    && IsCode(code)
    && StartsWith(Last(lines), code)
    && (|lines| > 1 ==> StartsWith(lines[0], code[..3] + [DASH]))
    && (forall i :: 0 < i < |lines| - 1 ==> !StartsWith(lines[i], code))
  }

  lemma StrncmpDigits(q: seq<byte>, code: seq<byte>)
    requires |q| == 4 && IsCode(code)
    ensures Strncmp(q, code) <==> q == code
  {
    assert q == [q[0], q[1], q[2], q[3]];
    assert code == [code[0], code[1], code[2], code[3]];
  }

  lemma CodeOfDigits(q: seq<byte>, code: seq<byte>)
    requires |q| == 4 && IsCode(code) && q[..3] == code[..3]
    ensures CodeOf(q) == code
  {
    assert q[0] == q[..3][0] && q[1] == q[..3][1] && q[2] == q[..3][2];
  }

  /** A line that is too short to hold the code does not match it across its end either. */
  lemma InnerLine(line: seq<byte>, rest: seq<byte>, code: seq<byte>)
    requires IsLine(line) && |line + rest| >= 4 && IsCode(code)
    ensures Strncmp((line + rest)[..4], code) <==> StartsWith(line, code)
  {
    var q := (line + rest)[..4];
    StrncmpDigits(q, code);
    FindCrlfFirst(line);
    if |line| < 4 {
      assert line[|line| - 2] == CR;
      assert q[|line| - 2] == CR;
      assert code[|line| - 2] != CR;
    } else {
      assert q == line[..4];
    }
  }

  /** Lines of which exactly the last starts with the code and a space. */
  ghost predicate Closing(lines: seq<seq<byte>>, code: seq<byte>) {
    && AreLines(lines)
    && forall i :: 0 <= i < |lines| ==> (StartsWith(lines[i], code) <==> i == |lines| - 1)
  }

  /** The first line of a reply gives its code; among the others only the last starts with it. */
  lemma FtpReplyParts(lines: seq<seq<byte>>, code: seq<byte>)
    requires IsFtpReply(lines, code)
    ensures IsLine(lines[0]) && |lines[0]| >= 4 && CodeOf(lines[0][..4]) == code
    ensures lines[0][..4][3] == SP <==> |lines| == 1
    ensures |lines| > 1 ==> Closing(lines[1..], code)
  {
    var l, tail := lines[0], lines[1..];
    assert IsLine(l) && |l| >= 4;
    var q := l[..4];
    assert q[..3] == code[..3];
    CodeOfDigits(q, code);
    if |lines| == 1 {
      assert q[3] == SP;
    } else {
      assert q[3] == DASH;
      forall i | 0 <= i < |tail| ensures IsLine(tail[i]) && (StartsWith(tail[i], code) <==> i == |tail| - 1) {
        assert IsLine(lines[i + 1]);
      }
    }
  }

  // ---------------------------------------------------------------------------------------------
  // How the deliveries cut the lines
  // ---------------------------------------------------------------------------------------------

  /**
   How it goes with some lines: their end is reached, a read breaks it off, fewer than 5 bytes are there, or only the
   LF of the last one is left.
   */
  datatype End = Reached | Broke(error: Error) | Starved | Torn

  datatype Chopped = Chopped(pieces: seq<Piece>, g: GetArea, end: End)

  /** The lines after a cut; an LF left alone is no line end any more, so that the next line goes with it. */
  function Rejoined(tail: seq<byte>, lines: seq<seq<byte>>): (r: seq<seq<byte>>)
    ensures |r| <= |lines| + 1
  {
    if |tail| == 1 && lines != [] then [tail + lines[0]] + lines[1..] else [tail] + lines
  }

  /**
   The pieces in which the reads deliver the lines, whatever is on them: each turn takes what is buffered of the line in
   front, and all of it only if it is there as a whole.  This looks at lengths only, not for line ends or codes.
   */
  function Chop(g: GetArea, lines: seq<seq<byte>>): (c: Chopped)
    requires g.Valid()
    ensures c.g.Valid() && c.g.cap == g.cap
    decreases |g.Stream()|, |lines|
  {
    UnderflowKeepsStream(g);
    if lines == [] then Chopped([], g, Reached)
    else if |lines| == 1 && |lines[0]| == 1 then Chopped([], g, Torn)
    else
      var (g1, u) := Underflow(g);
      var q, n := g1.unread, |lines[0]|;
      if u.Threw? then Chopped([], g1, Broke(u.error))
      else if |q| < 5 then Chopped([], g1, Starved)
      else if n <= |q| then
        assert |g1.(unread := q[n..]).Stream()| == |g1.Stream()| - n;
        var c := Chop(g1.(unread := q[n..]), lines[1..]);
        Chopped([Piece(lines[0], false)] + c.pieces, c.g, c.end)
      else
        assert |g1.(unread := []).Stream()| == |g1.Stream()| - |q|;
        var c := Chop(g1.(unread := []), Rejoined(lines[0][|q|..], lines[1..]));
        Chopped([Piece(q, true)] + c.pieces, c.g, c.end)
  }

  /** Lines, or the LF of one. */
  ghost predicate Choppable(lines: seq<seq<byte>>) {
    AreLines(lines) || lines == [[LF]]
  }

  /** The lines in front of which the loop is after a piece. */
  function After(lines: seq<seq<byte>>, p: Piece): seq<seq<byte>>
    requires lines != [] && (p.cut ==> |p.bytes| <= |lines[0]|)
  {
    if p.cut then Rejoined(lines[0][|p.bytes|..], lines[1..]) else lines[1..]
  }

  lemma TailOfLine(line: seq<byte>, n: nat)
    requires IsLine(line) && n <= |line| - 2
    ensures IsLine(line[n..])
  {
    var tail := line[n..];
    FindCrlfFirst(line);
    forall j | 0 <= j < |tail| - 2 ensures !CrlfAt(tail, j) {
      assert CrlfAt(tail, j) ==> CrlfAt(line, n + j);
    }
    assert CrlfAt(tail, |tail| - 2);
    FindCrlfIs(tail, |tail| - 2);
  }

  lemma LfAndLine(line: seq<byte>)
    requires IsLine(line)
    ensures IsLine([LF] + line)
  {
    var s := [LF] + line;
    FindCrlfFirst(line);
    forall j | 0 <= j < |line| - 1 ensures !CrlfAt(s, j) {
      assert CrlfAt(s, j) ==> j > 0 && CrlfAt(line, j - 1);
    }
    assert CrlfAt(s, |line| - 1);
    FindCrlfIs(s, |line| - 1);
  }

  lemma RejoinedLines(line: seq<byte>, n: nat, lines: seq<seq<byte>>)
    requires IsLine(line) && AreLines(lines) && n < |line|
    ensures Choppable(Rejoined(line[n..], lines))
    ensures Concat(Rejoined(line[n..], lines)) == line[n..] + Concat(lines)
  {
    var tail := line[n..];
    if |tail| == 1 {
      FindCrlfFirst(line);
      assert tail == [LF];
      if lines != [] {
        assert IsLine(lines[0]);
        LfAndLine(lines[0]);
        ConcatCons(tail + lines[0], lines[1..]);
        Assoc(tail, lines[0], Concat(lines[1..]));
      } else {
        ConcatOne(tail);
        assert [tail] + lines == [tail];
      }
    } else {
      TailOfLine(line, n);
      ConcatCons(tail, lines);
    }
  }

  /** One piece, from the outcome of `underflow`. */
  lemma ChopStep(g: GetArea, lines: seq<seq<byte>>, g1: GetArea, u: Call)
    requires g.Valid() && lines != [] && |lines[0]| >= 2 && (g1, u) == Underflow(g)
    ensures var c := Chop(g, lines);
            if u.Threw? then c == Chopped([], g1, Broke(u.error))
            else if |g1.unread| < 5 then c == Chopped([], g1, Starved)
            else
              var p := if |lines[0]| <= |g1.unread| then Piece(lines[0], false) else Piece(g1.unread, true);
              var c' := Chop(g1.(unread := if p.cut then [] else g1.unread[|lines[0]|..]), After(lines, p));
              c == Chopped([p] + c'.pieces, c'.g, c'.end)
  {
    hide Underflow, Rejoined;
  }

  /** One turn, from the same. */
  lemma TurnStep(g: GetArea, line: seq<byte>, rest: seq<byte>, g1: GetArea, u: Call)
    requires g.Valid() && g.cap > 0 && IsLine(line) && g.Stream() == line + rest && (g1, u) == Underflow(g)
    ensures var turn := TakePiece(g);
            if u.Threw? then turn == Nothing(g1, u)
            else if |g1.unread| < 5 then turn == TooFew(g1)
            else if |g1.unread| < |line| then turn == Taken(g1.(unread := []), Piece(g1.unread, true), g1.unread[..4])
            else turn == Taken(g1.(unread := g1.unread[|line|..]), Piece(line, false), (line + rest)[..4])
    ensures g1.Stream() == g.Stream()
    ensures u.Returned? && |g1.unread| >= |line| ==> g1.(unread := g1.unread[|line|..]).Stream() == rest
  {
    LineInFront(g, line, rest);
    UnderflowKeepsStream(g);
    hide Underflow, TakeLine;
    if u.Returned? && |g1.unread| >= |line| {
      SliceOfConcat(g1.unread, g1.inc.data, |line|);
      SliceOfConcat(line, rest, |line|);
    }
  }

  /** One turn of the loop and one piece. */
  lemma ChopOfTurn(g: GetArea, lines: seq<seq<byte>>, rest: seq<byte>)
    requires g.Valid() && g.cap > 0 && AreLines(lines) && lines != [] && g.Stream() == Concat(lines) + rest
    ensures var c, turn := Chop(g, lines), TakePiece(g);
            && (turn.Nothing? ==> turn.call.Threw? && c == Chopped([], turn.g, Broke(turn.call.error)))
            && (turn.TooFew? ==> c == Chopped([], turn.g, Starved))
            && (turn.Taken? ==>
                  && (turn.piece.cut ==> |turn.piece.bytes| < |lines[0]|)
                  && var after := After(lines, turn.piece);
                     && Choppable(after) && turn.g.Stream() == Concat(after) + rest
                     && c == Chopped([turn.piece] + Chop(turn.g, after).pieces, Chop(turn.g, after).g,
                                     Chop(turn.g, after).end))
    ensures var turn := TakePiece(g);
            turn.Taken? ==>
              if turn.piece.cut then |turn.piece.bytes| >= 5 && turn.start == turn.piece.bytes[..4] == lines[0][..4]
              else
                && turn.piece.bytes == lines[0] && |turn.g.Stream()| + |lines[0]| >= 4
                && turn.start == (lines[0] + turn.g.Stream())[..4]
  {
    var line, tail := lines[0], lines[1..];
    assert IsLine(line) && AreLines(tail) by {
      assert forall i :: 0 <= i < |tail| ==> tail[i] == lines[i + 1];
    }
    Assoc(line, Concat(tail), rest);
    var (g1, u) := Underflow(g);
    TurnStep(g, line, Concat(tail) + rest, g1, u);
    ChopStep(g, lines, g1, u);
    hide Underflow, TakePiece, Concat, Rejoined, Chop;
    if u.Returned? && 5 <= |g1.unread| < |line| {
      CutOfStream(g1, line, Concat(tail) + rest);
      RejoinedLines(line, |g1.unread|, tail);
      Assoc(line[|g1.unread|..], Concat(tail), rest);
      assert g1.unread[..4] == line[..4];
    }
  }

  /** The same without what the turn looked at. */
  lemma ChopCons(g: GetArea, lines: seq<seq<byte>>, rest: seq<byte>)
    requires g.Valid() && g.cap > 0 && AreLines(lines) && lines != [] && g.Stream() == Concat(lines) + rest
    requires TakePiece(g).Taken?
    ensures var turn := TakePiece(g);
            && (turn.piece.cut ==> |turn.piece.bytes| <= |lines[0]|)
            && Choppable(After(lines, turn.piece)) && turn.g.Stream() == Concat(After(lines, turn.piece)) + rest
            && Chop(g, lines) == Chopped([turn.piece] + Chop(turn.g, After(lines, turn.piece)).pieces,
                                         Chop(turn.g, After(lines, turn.piece)).g,
                                         Chop(turn.g, After(lines, turn.piece)).end)
  {
    ChopOfTurn(g, lines, rest);
    hide *;
  }

  /** And only that: the start of the line in front, if there is so much of it. */
  lemma StartOfLines(g: GetArea, lines: seq<seq<byte>>, rest: seq<byte>)
    requires g.Valid() && g.cap > 0 && AreLines(lines) && lines != [] && g.Stream() == Concat(lines) + rest
    requires TakePiece(g).Taken? && |lines[0]| >= 4
    ensures TakePiece(g).start == lines[0][..4]
  {
    ChopOfTurn(g, lines, rest);
    hide *;
    SliceOfConcat(lines[0], TakePiece(g).g.Stream(), 4);
  }

  /** All that is buffered is the front part of a longer line. */
  lemma CutOfStream(g: GetArea, line: seq<byte>, rest: seq<byte>)
    requires |g.unread| < |line| && g.Stream() == line + rest
    ensures g.unread == line[..|g.unread|] && g.inc.data == line[|g.unread|..] + rest
  {
    var n := |g.unread|;
    SliceOfConcat(line, rest, n);
    assert g.Stream()[..n] == g.unread && g.Stream()[n..] == g.inc.data;
  }

  lemma ChopNone(g: GetArea, lines: seq<seq<byte>>)
    requires g.Valid()
    ensures lines == [] ==> Chop(g, lines) == Chopped([], g, Reached)
    ensures lines == [[LF]] ==> Chop(g, lines) == Chopped([], g, Torn)
  {
  }

  /** Does the piece that a turn takes end the reply, if it is not the first? */
  lemma PieceCloses(g: GetArea, lines: seq<seq<byte>>, code: seq<byte>, rest: seq<byte>)
    requires g.Valid() && g.cap > 0 && AreLines(lines) && lines != [] && g.Stream() == Concat(lines) + rest
    requires IsCode(code) && TakePiece(g).Taken?
    ensures Strncmp(TakePiece(g).start, code) <==> StartsWith(TakePiece(g).piece.bytes, code)
  {
    ChopOfTurn(g, lines, rest);
    var turn := TakePiece(g);
    if turn.piece.cut {
      StrncmpDigits(turn.start, code);
    } else {
      assert IsLine(lines[0]);
      InnerLine(lines[0], turn.g.Stream(), code);
    }
  }

  // The bytes of the pieces against those of the lines.

  /** The bytes of the pieces against those of the lines: all of them exactly when the end is reached. */
  ghost predicate Fronts(c: Chopped, bytes: nat) {
    && (forall i :: 0 <= i < |c.pieces| ==> |c.pieces[i].bytes| >= 2)
    && |BytesOf(c.pieces)| <= bytes
    && (c.end.Reached? <==> |BytesOf(c.pieces)| == bytes)
    && (c.end.Torn? ==> |BytesOf(c.pieces)| + 1 == bytes)
  }

  lemma FrontsNone(c: Chopped, bytes: nat)
    requires c.pieces == [] && (c.end.Reached? <==> bytes == 0) && (c.end.Torn? ==> bytes == 1)
    ensures Fronts(c, bytes)
  {
  }

  lemma FrontsThen(p: Piece, c': Chopped, c: Chopped, more: nat)
    requires c == Chopped([p] + c'.pieces, c'.g, c'.end) && |p.bytes| >= 2 && Fronts(c', more)
    ensures Fronts(c, |p.bytes| + more)
  {
    BytesOfCons(p, c'.pieces);
    hide BytesOf;
    forall i | 0 <= i < |c.pieces| ensures |c.pieces[i].bytes| >= 2 {
      assert i > 0 ==> c.pieces[i] == c'.pieces[i - 1];
    }
  }

  /** What is taken and what is left are the stream, and the pieces are the front of the lines. */
  lemma {:induction false} ChopTakes(g: GetArea, lines: seq<seq<byte>>, rest: seq<byte>)
    requires g.Valid() && g.cap > 0 && Choppable(lines) && g.Stream() == Concat(lines) + rest
    ensures var c := Chop(g, lines);
            BytesOf(c.pieces) + c.g.Stream() == g.Stream() && Fronts(c, |Concat(lines)|)
    decreases |g.Stream()|
  {
    var turn, c, n := TakePiece(g), Chop(g, lines), |Concat(lines)|;
    ChopNone(g, lines);
    if lines == [[LF]] {
      ConcatOne([LF]);
      FrontsNone(c, n);
    } else if lines == [] {
      FrontsNone(c, n);
    } else {
      ChopOfTurn(g, lines, rest);
      TakePieceOfStream(g);
      ConcatNotEmpty(lines) by { assert IsLine(lines[0]); }
      hide Chop, TakePiece, Concat, Choppable, After, Fronts;
      if turn.Taken? {
        var after := After(lines, turn.piece);
        var c' := Chop(turn.g, after);
        ChopTakes(turn.g, after, rest);
        FrontsThen(turn.piece, c', c, |Concat(after)|);
        BytesOfCons(turn.piece, c'.pieces);
        hide BytesOf;
        Assoc(turn.piece.bytes, BytesOf(c'.pieces), c'.g.Stream());
        assert |g.Stream()| == |turn.piece.bytes| + |turn.g.Stream()|;
      } else {
        FrontsNone(c, n);
      }
    }
  }

  lemma ConcatNotEmpty(lines: seq<seq<byte>>)
    requires lines != [] && IsLine(lines[0])
    ensures |Concat(lines)| >= 2
  {
  }

  /** Fewer pieces are fewer bytes. */
  lemma {:induction false} BytesFewer(ps: seq<Piece>, n: nat)
    requires n < |ps| && forall i :: 0 <= i < |ps| ==> |ps[i].bytes| >= 2
    ensures |BytesOf(ps[..n])| < |BytesOf(ps)|
    decreases |ps|
  {
    if n > 0 {
      var t := ps[1..];
      assert forall i :: 0 <= i < |t| ==> t[i] == ps[i + 1];
      BytesFewer(t, n - 1);
      assert ps[..n] == [ps[0]] + t[..n - 1];
      BytesOfCons(ps[0], t[..n - 1]);
    }
  }

  /** Nothing is cut exactly when each line is there when its turn comes. */
  lemma {:induction false} ChopUncut(g: GetArea, lines: seq<seq<byte>>)
    requires g.Valid() && AreLines(lines)
    ensures var c := Chop(g, lines);
            && (Served(g, lines) <==> c.end.Reached? && Cuts(c.pieces) == 0)
            && (c.end.Torn? ==> Cuts(c.pieces) > 0)
            && (Served(g, lines) ==>
                  && c.g == Deliver(g, lines).g && |c.pieces| == |lines|
                  && forall i :: 0 <= i < |lines| ==> c.pieces[i].bytes == lines[i])
    decreases |lines|
  {
    if lines != [] {
      assert IsLine(lines[0]);
      var tail := lines[1..];
      assert forall i :: 0 <= i < |tail| ==> tail[i] == lines[i + 1];
      var (g1, u) := Underflow(g);
      var n := |lines[0]|;
      if u.Returned? && |g1.unread| >= 5 {
        if n <= |g1.unread| {
          var g2 := g1.(unread := g1.unread[n..]);
          ChopUncut(g2, tail);
          hide Underflow;
          BytesOfCons(Piece(lines[0], false), Chop(g2, tail).pieces);
        } else {
          var g2, after := g1.(unread := []), Rejoined(lines[0][|g1.unread|..], tail);
          hide Underflow;
          BytesOfCons(Piece(g1.unread, true), Chop(g2, after).pieces);
        }
      }
    }
  }

  // ---------------------------------------------------------------------------------------------
  // One reply
  // ---------------------------------------------------------------------------------------------

  /** The first piece that starts with the code and a space. */
  function FirstClosing(ps: seq<Piece>, code: seq<byte>): (k: nat)
    ensures k <= |ps|
    ensures k < |ps| ==> StartsWith(ps[k].bytes, code)
    ensures forall i :: 0 <= i < k ==> !StartsWith(ps[i].bytes, code)
  {
    if ps == [] || StartsWith(ps[0].bytes, code) then 0 else 1 + FirstClosing(ps[1..], code)
  }

  /**
   The scanner takes the pieces up to the one at `k` and returns; or, if there are not so many, it takes them all, and
   then throws, never ends, or goes on behind the lines.
   */
  ghost predicate Explains(c: Chopped, k: nat, code: seq<byte>, r: (GetArea, seq<Piece>, Ending))
    requires |code| == 4 && c.g.Valid()
  {
    if k < |c.pieces| then
      && r.1 == c.pieces[..k + 1] && r.2 == Ends(Returned(code[0] as int))
      && (k + 1 == |c.pieces| && c.end.Reached? ==> r.0 == c.g)
    else
      match c.end
      case Broke(e) => r == (c.g, c.pieces, Ends(Threw(e)))
      case Starved => r == (c.g, c.pieces, Spins)
      case _ => r == (FtpRest(c.g, code).0, c.pieces + FtpRest(c.g, code).1, FtpRest(c.g, code).2)
  }

  lemma ExplainsBehind(c: Chopped, code: seq<byte>)
    requires |code| == 4 && c.g.Valid() && c.pieces == [] && (c.end.Reached? || c.end.Torn?)
    ensures Explains(c, 0, code, FtpRest(c.g, code))
  {
    var r := FtpRest(c.g, code);
    assert [] + r.1 == r.1;
  }

  lemma ExplainsStop(c: Chopped, code: seq<byte>, r: (GetArea, seq<Piece>, Ending))
    requires |code| == 4 && c.g.Valid() && c.pieces == [] && r.0 == c.g && r.1 == []
    requires (c.end.Broke? && r.2 == Ends(Threw(c.end.error))) || (c.end.Starved? && r.2 == Spins)
    ensures Explains(c, 0, code, r)
  {
  }

  lemma ExplainsClose(c: Chopped, p: Piece, code: seq<byte>, r: (GetArea, seq<Piece>, Ending))
    requires |code| == 4 && c.g.Valid() && c.pieces != [] && c.pieces[0] == p
    requires r.1 == [p] && r.2 == Ends(Returned(code[0] as int))
    requires |c.pieces| == 1 && c.end.Reached? ==> r.0 == c.g
    ensures Explains(c, 0, code, r)
  {
    assert c.pieces[..1] == [p];
  }

  lemma ExplainsThen(c: Chopped, c': Chopped, p: Piece, k: nat, code: seq<byte>,
                     r: (GetArea, seq<Piece>, Ending), r': (GetArea, seq<Piece>, Ending))
    requires |code| == 4 && c.g.Valid() && c == Chopped([p] + c'.pieces, c'.g, c'.end)
    requires Explains(c', k, code, r') && r == (r'.0, [p] + r'.1, r'.2)
    ensures Explains(c, k + 1, code, r)
  {
    hide FtpRest;
    if k < |c'.pieces| {
      OneInFront(p, c'.pieces, k + 1);
    } else {
      Assoc([p], c'.pieces, FtpRest(c.g, code).1);
    }
  }

  lemma OneInFront(p: Piece, ps: seq<Piece>, n: nat)
    requires n <= |ps|
    ensures ([p] + ps)[..n + 1] == [p] + ps[..n]
  {
  }

  lemma ReachedAtOnce(g: GetArea, lines: seq<seq<byte>>)
    requires g.Valid() && Chop(g, lines).pieces == [] && Chop(g, lines).end.Reached?
    ensures Chop(g, lines).g == g
  {
  }

  lemma FirstClosingCons(p: Piece, ps: seq<Piece>, code: seq<byte>)
    ensures FirstClosing([p] + ps, code) == if StartsWith(p.bytes, code) then 0 else 1 + FirstClosing(ps, code)
  {
    assert ([p] + ps)[1..] == ps;
  }

  /** A piece that ends the loop. */
  lemma ClosesHere(turn: PieceTurn, after: seq<seq<byte>>, c: Chopped, code: seq<byte>, r: (GetArea, seq<Piece>, Ending))
    requires turn.Taken? && turn.g.Valid() && |code| == 4
    requires var c' := Chop(turn.g, after); c == Chopped([turn.piece] + c'.pieces, c'.g, c'.end)
    requires r == (turn.g, [turn.piece], Ends(Returned(code[0] as int)))
    ensures Explains(c, 0, code, r)
  {
    hide Chop;
    if Chop(turn.g, after).pieces == [] && c.end.Reached? {
      ReachedAtOnce(turn.g, after);
    }
    ExplainsClose(c, turn.piece, code, r);
  }

  /** A turn from the second one on: it takes nothing, or a piece that ends the loop, or another one. */
  lemma RestStops(g: GetArea, lines: seq<seq<byte>>, code: seq<byte>, rest: seq<byte>)
    requires g.Valid() && g.cap > 0 && |code| == 4
    requires AreLines(lines) && lines != [] && g.Stream() == Concat(lines) + rest && !TakePiece(g).Taken?
    ensures Chop(g, lines).pieces == [] && Explains(Chop(g, lines), 0, code, FtpRest(g, code))
  {
    ChopOfTurn(g, lines, rest);
    FtpRestStep(g, code);
    hide *;
    ExplainsStop(Chop(g, lines), code, FtpRest(g, code));
  }

  lemma RestCloses(g: GetArea, lines: seq<seq<byte>>, code: seq<byte>, rest: seq<byte>)
    requires g.Valid() && g.cap > 0 && |code| == 4
    requires AreLines(lines) && lines != [] && g.Stream() == Concat(lines) + rest && TakePiece(g).Taken?
    requires Strncmp(TakePiece(g).start, code)
    ensures Explains(Chop(g, lines), 0, code, FtpRest(g, code))
  {
    FtpRestStep(g, code);
    hide *;
    ChopCons(g, lines, rest);
    ClosesHere(TakePiece(g), After(lines, TakePiece(g).piece), Chop(g, lines), code, FtpRest(g, code));
  }

  lemma RestGoesOn(g: GetArea, lines: seq<seq<byte>>, code: seq<byte>, rest: seq<byte>, k: nat)
    requires g.Valid() && g.cap > 0 && |code| == 4
    requires AreLines(lines) && lines != [] && g.Stream() == Concat(lines) + rest && TakePiece(g).Taken?
    requires !Strncmp(TakePiece(g).start, code)
    requires var turn := TakePiece(g);
             && (turn.piece.cut ==> |turn.piece.bytes| <= |lines[0]|)
             && Explains(Chop(turn.g, After(lines, turn.piece)), k, code, FtpRest(turn.g, code))
    ensures Explains(Chop(g, lines), k + 1, code, FtpRest(g, code))
  {
    FtpRestStep(g, code);
    hide *;
    ChopCons(g, lines, rest);
    var turn := TakePiece(g);
    ExplainsThen(Chop(g, lines), Chop(turn.g, After(lines, turn.piece)), turn.piece, k, code, FtpRest(g, code),
                 FtpRest(turn.g, code));
  }

  /** All turns from the second one on. */
  lemma {:induction false} FtpRestIsChopped(g: GetArea, lines: seq<seq<byte>>, code: seq<byte>, rest: seq<byte>)
    requires g.Valid() && g.cap > 0
    requires Choppable(lines) && IsCode(code) && g.Stream() == Concat(lines) + rest
    ensures var c := Chop(g, lines);
            Explains(c, FirstClosing(c.pieces, code), code, FtpRest(g, code))
    decreases |g.Stream()|
  {
    ChopNone(g, lines);
    assert FirstClosing([], code) == 0;
    if lines == [] || lines == [[LF]] {
      ExplainsBehind(Chop(g, lines), code);
    } else {
      assert AreLines(lines) && |code| == 4;
      hide *;
      var turn := TakePiece(g);
      if !turn.Taken? {
        RestStops(g, lines, code, rest);
      } else {
        ChopCons(g, lines, rest);
        PieceCloses(g, lines, code, rest);
        var after := After(lines, turn.piece);
        FirstClosingCons(turn.piece, Chop(turn.g, after).pieces, code);
        if Strncmp(turn.start, code) {
          RestCloses(g, lines, code, rest);
        } else {
          FtpRestIsChopped(turn.g, after, code, rest);
          RestGoesOn(g, lines, code, rest, FirstClosing(Chop(turn.g, after).pieces, code));
        }
      }
    }
  }

  /** The piece with which the loop ends: the first one of a reply of one line, else a later one with the code. */
  function ClosingPiece(lines: seq<seq<byte>>, ps: seq<Piece>, code: seq<byte>): (k: nat)
    ensures k <= |ps|
  {
    if ps == [] || |lines| == 1 then 0 else 1 + FirstClosing(ps[1..], code)
  }

  lemma ClosingOfMore(lines: seq<seq<byte>>, p: Piece, ps: seq<Piece>, code: seq<byte>)
    ensures ClosingPiece(lines, [p] + ps, code) == if |lines| == 1 then 0 else FirstClosing(ps, code) + 1
  {
    assert ([p] + ps)[1..] == ps;
  }

  lemma GoesOn(turn: PieceTurn, after: seq<seq<byte>>, c: Chopped, code: seq<byte>, r: (GetArea, seq<Piece>, Ending),
               rest: seq<byte>)
    requires turn.Taken? && turn.g.Valid() && turn.g.cap > 0 && IsCode(code)
    requires Choppable(after) && turn.g.Stream() == Concat(after) + rest
    requires var c' := Chop(turn.g, after); c == Chopped([turn.piece] + c'.pieces, c'.g, c'.end)
    requires var later := FtpRest(turn.g, code); r == (later.0, [turn.piece] + later.1, later.2)
    ensures Explains(c, FirstClosing(Chop(turn.g, after).pieces, code) + 1, code, r)
  {
    hide Chop, FtpRest, Concat, Explains, FirstClosing;
    FtpRestIsChopped(turn.g, after, code, rest);
    var c' := Chop(turn.g, after);
    ExplainsThen(c, c', turn.piece, FirstClosing(c'.pieces, code), code, r, FtpRest(turn.g, code));
  }

  /** The whole call, when its first turn takes nothing. */
  lemma ReplyStops(g: GetArea, lines: seq<seq<byte>>, code: seq<byte>, was: seq<byte>, rest: seq<byte>)
    requires g.Valid() && g.cap > 0 && |was| == |code| == 4
    requires AreLines(lines) && lines != [] && g.Stream() == Concat(lines) + rest && !TakePiece(g).Taken?
    ensures var c, r := Chop(g, lines), FtpReply(g, was);
            c.pieces == [] && r.code == was && Explains(c, 0, code, (r.g, r.pieces, r.ending))
  {
    ChopOfTurn(g, lines, rest);
    FtpReplyStep(g, was);
    hide Chop, TakePiece, FtpReply, Concat, Explains, After;
    var r := FtpReply(g, was);
    ExplainsStop(Chop(g, lines), code, (r.g, r.pieces, r.ending));
  }

  /** And when it takes the first piece, with that alone or with the other turns. */
  lemma ReplyGoesOn(g: GetArea, lines: seq<seq<byte>>, code: seq<byte>, was: seq<byte>, rest: seq<byte>)
    requires g.Valid() && g.cap > 0 && |was| == 4
    requires IsFtpReply(lines, code) && g.Stream() == Concat(lines) + rest && TakePiece(g).Taken?
    ensures var turn, r := TakePiece(g), FtpReply(g, was);
            && r.code == code
            && if |lines| == 1 then (r.g, r.pieces, r.ending) == (turn.g, [turn.piece], Ends(Returned(code[0] as int)))
               else
                 var later := FtpRest(turn.g, code);
                 (r.g, r.pieces, r.ending) == (later.0, [turn.piece] + later.1, later.2)
  {
    StartOfReply(g, lines, code, rest);
    FtpReplyStep(g, was);
    hide TakePiece, FtpReply, FtpRest, CodeOf, IsFtpReply, Concat;
  }

  /**
   A whole reply in front of the stream, inner lines of any kind included, and any deliveries: pieces, code and ending
   of one `get_response` are those of the pieces in which its lines are delivered.
   */
  lemma FtpReplyIsChopped(g: GetArea, lines: seq<seq<byte>>, code: seq<byte>, was: seq<byte>, rest: seq<byte>)
    requires g.Valid() && g.cap > 0 && |was| == 4
    requires IsFtpReply(lines, code) && g.Stream() == Concat(lines) + rest
    ensures var c, r := Chop(g, lines), FtpReply(g, was);
            && Explains(c, ClosingPiece(lines, c.pieces, code), code, (r.g, r.pieces, r.ending))
            && r.code == if c.pieces == [] then was else code
  {
    var c, turn, r := Chop(g, lines), TakePiece(g), FtpReply(g, was);
    if !turn.Taken? {
      ReplyStops(g, lines, code, was, rest);
      assert ClosingPiece(lines, [], code) == 0;
    } else {
      assert AreLines(lines) && IsCode(code);
      hide *;
      ChopCons(g, lines, rest);
      ReplyGoesOn(g, lines, code, was, rest);
      var after := After(lines, turn.piece);
      ClosingOfMore(lines, turn.piece, Chop(turn.g, after).pieces, code);
      if |lines| == 1 {
        ClosesHere(turn, after, c, code, (r.g, r.pieces, r.ending));
      } else {
        GoesOn(turn, after, c, code, (r.g, r.pieces, r.ending), rest);
      }
    }
  }

  /** The first piece, cut or not, starts with the code. */
  lemma StartOfReply(g: GetArea, lines: seq<seq<byte>>, code: seq<byte>, rest: seq<byte>)
    requires g.Valid() && g.cap > 0 && TakePiece(g).Taken?
    requires IsFtpReply(lines, code) && g.Stream() == Concat(lines) + rest
    ensures var start := TakePiece(g).start;
            CodeOf(start) == code && (start[3] == SP <==> |lines| == 1)
  {
    FtpReplyParts(lines, code);
    hide IsFtpReply, CodeOf;
    StartOfLines(g, lines, rest);
  }

  /**
   When exactly one `get_response` takes exactly the reply, whatever is passed on: the lines are used up, and the piece
   that ends the loop is the last one; or none ends it, and then nothing comes behind the reply.
   */
  lemma FtpTakesReply(g: GetArea, lines: seq<seq<byte>>, code: seq<byte>, was: seq<byte>, rest: seq<byte>)
    requires g.Valid() && g.cap > 0 && |was| == 4
    requires IsFtpReply(lines, code) && g.Stream() == Concat(lines) + rest
    ensures var c, r := Chop(g, lines), FtpReply(g, was);
            var k := ClosingPiece(lines, c.pieces, code);
            && (r.Returned() && r.g.Stream() == rest <==>
                  c.end.Reached? &&
                  (k + 1 == |c.pieces| || (k == |c.pieces| && Underflow(c.g).1 == Returned(EOF))))
            && (r.Returned() && r.g.Stream() == rest ==>
                  && r.pieces == c.pieces && BytesOf(r.pieces) == Concat(lines)
                  && r.code == code && r.ending.call == Returned(code[0] as int))
  {
    var c, r := Chop(g, lines), FtpReply(g, was);
    var k := ClosingPiece(lines, c.pieces, code);
    FtpReplyIsChopped(g, lines, code, was, rest);
    FtpReplyTakesOne(g, was);
    ChopTakes(g, lines, rest);
    ConcatNotEmpty(lines) by { assert IsLine(lines[0]); }
    hide FtpReply, Chop, IsFtpReply, ClosingPiece, FtpRest, Concat, FtpLength, Explains, Fronts;
    if k < |c.pieces| {
      TakesClosed(c, k, code, (r.g, r.pieces, r.ending), Concat(lines), rest);
    } else {
      TakesBehind(c, k, code, (r.g, r.pieces, r.ending), Concat(lines), rest);
    }
    if c.pieces == [] {
      assert |BytesOf(r.pieces)| == 0 ==> BytesOf(r.pieces) != Concat(lines);
    }
  }

  /** The loop ends with the piece at `k`: it has taken all the bytes exactly when that is the last one. */
  lemma TakesClosed(c: Chopped, k: nat, code: seq<byte>, r: (GetArea, seq<Piece>, Ending), bytes: seq<byte>, rest: seq<byte>)
    requires |code| == 4 && c.g.Valid() && Explains(c, k, code, r) && Fronts(c, |bytes|) && k < |c.pieces|
    requires BytesOf(r.1) + r.0.Stream() == bytes + rest
    ensures r.2 == Ends(Returned(code[0] as int))
    ensures r.0.Stream() == rest <==> c.end.Reached? && k + 1 == |c.pieces|
    ensures r.0.Stream() == rest ==> r.1 == c.pieces && BytesOf(r.1) == bytes
  {
    if r.0.Stream() == rest {
      SameRest(BytesOf(r.1), bytes, rest);
    }
    if k + 1 < |c.pieces| {
      BytesFewer(c.pieces, k + 1);
    } else {
      assert c.pieces[..k + 1] == c.pieces;
      hide BytesOf, FtpRest;
      if c.end.Reached? {
        SamePrefix(BytesOf(r.1), r.0.Stream(), bytes, rest);
      }
    }
  }

  /** No piece ends the loop: it has taken all the bytes and nothing more exactly when it then finds the end of file. */
  lemma TakesBehind(c: Chopped, k: nat, code: seq<byte>, r: (GetArea, seq<Piece>, Ending), bytes: seq<byte>, rest: seq<byte>)
    requires |code| == 4 && c.g.Valid() && c.g.cap > 0 && Explains(c, k, code, r) && Fronts(c, |bytes|)
    requires k == |c.pieces| && BytesOf(r.1) + r.0.Stream() == bytes + rest
    ensures r.2.Ends? && r.2.call.Returned? && r.0.Stream() == rest <==>
              c.end.Reached? && Underflow(c.g).1 == Returned(EOF)
    ensures r.2.Ends? && r.2.call.Returned? && r.0.Stream() == rest ==>
              r.1 == c.pieces && BytesOf(r.1) == bytes && r.2.call == Returned(code[0] as int)
  {
    var more := FtpRest(c.g, code);
    Behind(c.g, code);
    BytesOfAppend(c.pieces, more.1);
    NoBytes(more.1);
    FtpRestTakes(c.g, code);
    hide FtpRest, BytesOf, Underflow;
    if r.0.Stream() == rest {
      SameRest(BytesOf(r.1), bytes, rest);
    }
    if (c.end.Reached? || c.end.Torn?) && more.1 == [] {
      assert c.pieces + [] == c.pieces;
      if c.end.Reached? {
        SamePrefix(BytesOf(r.1), r.0.Stream(), bytes, rest);
      }
    }
  }

  lemma NoBytes(ps: seq<Piece>)
    ensures ps == [] ==> BytesOf(ps) == []
  {
  }

  /** In other words: the only piece of a reply of one line, else the only one behind the first with the code. */
  lemma ClosesWithLast(lines: seq<seq<byte>>, ps: seq<Piece>, code: seq<byte>)
    requires ps != []
    ensures ClosingPiece(lines, ps, code) + 1 == |ps| <==>
              if |lines| == 1 then |ps| == 1
              else
                && |ps| > 1
                && forall i :: 0 < i < |ps| ==> (StartsWith(ps[i].bytes, code) <==> i == |ps| - 1)
  {
    var tail := ps[1..];
    var k := FirstClosing(tail, code);
    assert forall i :: 0 < i < |ps| ==> ps[i] == tail[i - 1];
    hide StartsWith, FirstClosing;
    if k + 1 == |tail| {
      forall i | 0 < i < |ps| ensures StartsWith(ps[i].bytes, code) <==> i == |ps| - 1 {
        assert ps[i] == tail[i - 1];
      }
    }
    if |ps| > 1 {
      assert tail[|tail| - 1] == ps[|ps| - 1];
      assert k < |tail| ==> ps[k + 1] == tail[k];
    }
  }

  lemma SameRest(a: seq<byte>, b: seq<byte>, rest: seq<byte>)
    requires a + rest == b + rest
    ensures a == b
  {
    assert |a + rest| == |b + rest|;
    SamePrefix(a, rest, b, rest);
  }

  /** What the loop does behind the lines: it returns with less than a piece only at the end of file. */
  lemma Behind(g: GetArea, code: seq<byte>)
    requires g.Valid() && g.cap > 0 && |code| == 4
    ensures var r := FtpRest(g, code);
            && (Underflow(g).1 == Returned(EOF) ==> r.1 == [] && r.2 == Ends(Returned(code[0] as int)))
            && (r.2.Ends? && r.2.call.Returned? && |BytesOf(r.1)| < 2 ==> Underflow(g).1 == Returned(EOF))
  {
    FtpRestTakes(g, code);
    FtpRestStep(g, code);
    TakePieceOfStream(g);
    hide FtpRest, Strncmp, FindCrlf;
  }

  /** When each line is there when its turn comes, the loop ends with the last. */
  lemma ServedCloses(g: GetArea, lines: seq<seq<byte>>, code: seq<byte>)
    requires g.Valid() && IsFtpReply(lines, code) && Served(g, lines)
    ensures var c := Chop(g, lines);
            && c.end.Reached? && Cuts(c.pieces) == 0 && c.g == Deliver(g, lines).g
            && ClosingPiece(lines, c.pieces, code) + 1 == |c.pieces|
  {
    ChopUncut(g, lines);
    var ps := Chop(g, lines).pieces;
    if |lines| > 1 {
      FtpReplyParts(lines, code);
      var tail := ps[1..];
      var k := FirstClosing(tail, code);
      hide Chop, FirstClosing, StartsWith;
      forall i | 0 <= i < |tail| ensures StartsWith(tail[i].bytes, code) <==> i == |tail| - 1 {
        assert tail[i].bytes == lines[i + 1] == lines[1..][i];
      }
    }
  }

  /**
   What one `get_response` passes on and leaves is exactly the reply and the rest if and only if each line is there when
   its turn comes; then the code stored is the reply's, and the call returns its first digit.
   */
  lemma FtpReadsWholeReply(g: GetArea, lines: seq<seq<byte>>, code: seq<byte>, was: seq<byte>, rest: seq<byte>)
    requires g.Valid() && g.cap > 0 && |was| == 4
    requires IsFtpReply(lines, code) && g.Stream() == Concat(lines) + rest
    ensures var r := FtpReply(g, was);
            && (r.Returned() && PassesOn(r.pieces, Concat(lines)) && r.g.Stream() == rest <==> Served(g, lines))
            && (Served(g, lines) ==>
                  && Cuts(r.pieces) == 0 && r.g == Deliver(g, lines).g
                  && r.code == code && r.ending.call == Returned(code[0] as int))
  {
    var c, r := Chop(g, lines), FtpReply(g, was);
    FtpTakesReply(g, lines, code, was, rest);
    FtpReplyIsChopped(g, lines, code, was, rest);
    ChopUncut(g, lines);
    hide FtpReply, Chop, Concat, PassesOn, Deliver, FtpRest;
    if Served(g, lines) {
      ServedCloses(g, lines, code);
      PassesOnUncut(r.pieces);
    }
    hide ClosingPiece, IsFtpReply, Explains;
    if r.Returned() && PassesOn(r.pieces, Concat(lines)) && r.g.Stream() == rest {
      PassesOnLength(r.pieces, Concat(lines));
    }
  }

  // ---------------------------------------------------------------------------------------------
  // Replies that are cut
  // ---------------------------------------------------------------------------------------------

  /** A reply of one line that is cut: the call returns at the cut, with the right code, and leaves the rest of the line. */
  lemma CutLineReturns(g: GetArea, line: seq<byte>, code: seq<byte>, was: seq<byte>, rest: seq<byte>)
    requires g.Valid() && g.cap > 0 && |was| == 4
    requires IsFtpReply([line], code) && g.Stream() == line + rest
    requires TakePiece(g).Taken? && TakePiece(g).piece.cut
    ensures var p, r := TakePiece(g).piece, FtpReply(g, was);
            && 5 <= |p.bytes| < |line|
            && r.pieces == [p] && r.code == code && r.ending == Ends(Returned(code[0] as int))
            && r.g.Stream() == line[|p.bytes|..] + rest
  {
    ConcatOne(line);
    ChopOfTurn(g, [line], rest);
    StartOfReply(g, [line], code, rest);
    FtpReplyStep(g, was);
    TakePieceOfStream(g);
    hide FtpReply, TakePiece, CodeOf, FindCrlf, IsFtpReply;
    var p, after := TakePiece(g).piece, TakePiece(g).g.Stream();
    SliceOfConcat(line, rest, |p.bytes|);
    assert after == (p.bytes + after)[|p.bytes|..];
  }

  // ---------------------------------------------------------------------------------------------
  // A conversation
  // ---------------------------------------------------------------------------------------------

  datatype Reply959 = Reply959(lines: seq<seq<byte>>, code: seq<byte>)

  ghost predicate AreFtpReplies(rs: seq<Reply959>) {
    forall i :: 0 <= i < |rs| ==> IsFtpReply(rs[i].lines, rs[i].code)
  }

  function Wire(rs: seq<Reply959>): seq<seq<byte>> {
    if rs == [] then [] else rs[0].lines + Wire(rs[1..])
  }

  /** The results of `n` calls of `get_response` one after the other. */
  function FtpReplies(g: GetArea, code: seq<byte>, n: nat): (r: seq<FtpResult>)
    requires g.Valid() && |code| == 4
    ensures |r| == n
    decreases n
  {
    if n == 0 then []
    else
      var r := FtpReply(g, code);
      [r] + FtpReplies(r.g, r.code, n - 1)
  }

  /** The call passes on exactly the reply, leaves `after`, stores the code and returns the digit. */
  ghost predicate FtpAnswer(r: Reply959, a: FtpResult, after: seq<byte>) {
    && PassesOn(a.pieces, Concat(r.lines)) && a.g.Stream() == after
    && a.code == r.code && |r.code| == 4 && a.ending == Ends(Returned(r.code[0] as int))
  }

  /** Each call gets its own reply and leaves those behind it. */
  ghost predicate FtpAnswered(rs: seq<Reply959>, answers: seq<FtpResult>, rest: seq<byte>)
    requires |rs| == |answers|
    decreases |rs|
  {
    rs == [] ||
    (FtpAnswer(rs[0], answers[0], Concat(Wire(rs[1..])) + rest) && FtpAnswered(rs[1..], answers[1..], rest))
  }

  lemma FtpAnsweredCons(rs: seq<Reply959>, first: FtpResult, more: seq<FtpResult>, rest: seq<byte>)
    requires rs != [] && |more| == |rs| - 1
    ensures FtpAnswered(rs, [first] + more, rest) <==>
              FtpAnswer(rs[0], first, Concat(Wire(rs[1..])) + rest) && FtpAnswered(rs[1..], more, rest)
  {
    assert ([first] + more)[1..] == more;
  }

  /**
   A list of replies is read back one for each call, text, code and digit, if and only if every line is there when
   its turn comes.
   */
  lemma {:induction false} FtpConversation(g: GetArea, code: seq<byte>, rs: seq<Reply959>, rest: seq<byte>)
    requires g.Valid() && g.cap > 0 && |code| == 4
    requires AreFtpReplies(rs) && g.Stream() == Concat(Wire(rs)) + rest
    ensures FtpAnswered(rs, FtpReplies(g, code, |rs|), rest) <==> Served(g, Wire(rs))
    decreases |rs|
  {
    hide FtpReply, IsFtpReply, Deliver, FtpAnswered, Concat, PassesOn;
    if rs == [] {
      FtpAnsweredNone(g, rest);
    } else {
      assert IsFtpReply(rs[0].lines, rs[0].code);
      var later := Wire(rs[1..]);
      ConcatAppend(rs[0].lines, later);
      Assoc(Concat(rs[0].lines), Concat(later), rest);
      FtpReadsWholeReply(g, rs[0].lines, rs[0].code, code, Concat(later) + rest);
      DeliverAppend(g, rs[0].lines, later);
      CodeHasFour(rs[0]);
      var r := FtpReply(g, code);
      FtpAnsweredCons(rs, r, FtpReplies(r.g, r.code, |rs| - 1), rest);
      if Served(g, rs[0].lines) {
        FtpConversation(r.g, r.code, rs[1..], rest);
      }
    }
  }

  lemma CodeHasFour(r: Reply959)
    requires IsFtpReply(r.lines, r.code)
    ensures |r.code| == 4
  {
  }

  lemma FtpAnsweredNone(g: GetArea, rest: seq<byte>)
    requires g.Valid()
    ensures FtpAnswered([], [], rest) && Served(g, [])
  {
  }

  // ---------------------------------------------------------------------------------------------
  // Deliveries in whole lines
  // ---------------------------------------------------------------------------------------------

  lemma {:induction false} FtpRestEnds(g: GetArea, code: seq<byte>)
    requires g.Valid() && Aligned(g) && |code| == 4
    ensures FtpRest(g, code).2.Ends? && Aligned(FtpRest(g, code).0)
    decreases |g.Stream()|
  {
    AlignedTurn(g);
    if TakeLine(g).Line? {
      FtpRestEnds(TakeLine(g).g, code);
    }
  }

  lemma FtpReplyEnds(g: GetArea, code: seq<byte>)
    requires g.Valid() && Aligned(g) && |code| == 4
    ensures FtpReply(g, code).ending.Ends? && Aligned(FtpReply(g, code).g)
  {
    AlignedTurn(g);
    var turn := TakeLine(g);
    if turn.Line? {
      FtpRestEnds(turn.g, CodeOf(turn.start));
    }
  }
}
