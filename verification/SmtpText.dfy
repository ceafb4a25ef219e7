/**
 The body of a mail message on the wire (section 4.5.2 of RFC 821): the sender's line-end expansion
 and dot stuffing, the receiver's reading of it, and what of the one survives the other.
 */
module SmtpText {
  import opened Basics
  import opened Octets
  import opened Lines

  /** What ends the body. */
  const TERM: seq<byte> := [CR, LF, DOT, CR, LF]

  // ---------------------------------------------------------------------------------------------
  // The sender
  // ---------------------------------------------------------------------------------------------

  /** The byte after the first one; past the end of the buffer it is the byte `after` that memory holds there. */
  function Next(m: seq<byte>, after: byte): byte {
    if |m| > 1 then m[1] else after
  }

  /** What one turn of the loop sends: a line end is expanded, and a period after it doubled. */
  function EmitOne(m: seq<byte>, after: byte): seq<byte>
    requires m != []
  {
    if m[0] == LF then (if Next(m, after) == DOT then [CR, LF, DOT] else [CR, LF]) else [m[0]]
  }

  function Emit(m: seq<byte>, after: byte): seq<byte> {
    if m == [] then [] else EmitOne(m, after) + Emit(m[1..], after)
  }

  lemma EmitNone(m: seq<byte>, after: byte)
    requires m == []
    ensures Emit(m, after) == []
  {
  }

  /** What `send_buf` sends for the buffer `m`. */
  function Encode(m: seq<byte>, after: byte): seq<byte> {
    if m == [] then [] else (if m[0] == DOT then [DOT] else []) + Emit(m, after)
  }

  /** One buffer handed to `send_buf`: its bytes and the byte that happens to follow them in memory. */
  datatype Chunk = Chunk(bytes: seq<byte>, after: byte)

  function EncodeChunks(cs: seq<Chunk>): seq<byte> {
    if cs == [] then [] else Encode(cs[0].bytes, cs[0].after) + EncodeChunks(cs[1..])
  }

  function Whole(cs: seq<Chunk>): seq<byte> {
    if cs == [] then [] else cs[0].bytes + Whole(cs[1..])
  }

  ghost predicate NonEmpty(cs: seq<Chunk>) {
    forall i :: 0 <= i < |cs| ==> cs[i].bytes != []
  }

  // ---------------------------------------------------------------------------------------------
  // The receiver of RFC 821
  // ---------------------------------------------------------------------------------------------

  /** The text received, with LF for each line end, and what is left on the wire; or no end of data in sight. */
  datatype Received = Complete(text: seq<byte>, rest: seq<byte>) | Incomplete

  /** A line that starts with a period and has more on it loses that period. */
  function Unstuffed(line: seq<byte>): seq<byte> {
    if line != [] && line[0] == DOT then line[1..] else line
  }

  /** Line by line, up to the line that is a single period. */
  function Receive(w: seq<byte>): Received
    decreases |w|
  {
    var i := FindCrlf(w);
    if i == -1 then Incomplete
    else if w[..i] == [DOT] then Complete([], w[i + 2..])
    else
      match Receive(w[i + 2..])
      case Incomplete => Incomplete
      case Complete(text, rest) => Complete(Unstuffed(w[..i]) + [LF] + text, rest)
  }

  // ---------------------------------------------------------------------------------------------
  // The same with LF for each line end
  // ---------------------------------------------------------------------------------------------

  /** Every LF becomes CR LF. */
  function Crlf(t: seq<byte>): seq<byte> {
    if t == [] then [] else (if t[0] == LF then CRLF else [t[0]]) + Crlf(t[1..])
  }

  function DottedTail(m: seq<byte>, after: byte): seq<byte> {
    if m == [] then []
    else [m[0]] + (if m[0] == LF && Next(m, after) == DOT then [DOT] else []) + DottedTail(m[1..], after)
  }

  /** The buffer with the stuffing dots put in. */
  function Dotted(m: seq<byte>, after: byte): seq<byte> {
    if m == [] then [] else (if m[0] == DOT then [DOT] else []) + DottedTail(m, after)
  }

  function DottedChunks(cs: seq<Chunk>): seq<byte> {
    if cs == [] then [] else Dotted(cs[0].bytes, cs[0].after) + DottedChunks(cs[1..])
  }

  lemma {:induction false} CrlfAppend(a: seq<byte>, b: seq<byte>)
    ensures Crlf(a + b) == Crlf(a) + Crlf(b)
  {
    if a == [] {
      assert a + b == b;
    } else {
      assert (a + b)[1..] == a[1..] + b;
      CrlfAppend(a[1..], b);
      Assoc(if a[0] == LF then CRLF else [a[0]], Crlf(a[1..]), Crlf(b));
    }
  }

  lemma {:induction false} EmitIsCrlf(m: seq<byte>, after: byte)
    ensures Emit(m, after) == Crlf(DottedTail(m, after))
  {
    if m != [] {
      EmitIsCrlf(m[1..], after);
      var dot := if m[0] == LF && Next(m, after) == DOT then [DOT] else [];
      CrlfAppend([m[0]] + dot, DottedTail(m[1..], after));
      CrlfAppend([m[0]], dot);
      assert Crlf(dot) == dot;
      assert Crlf([m[0]]) + dot == EmitOne(m, after);
    }
  }

  lemma EncodeIsCrlf(m: seq<byte>, after: byte)
    ensures Encode(m, after) == Crlf(Dotted(m, after))
  {
    if m != [] {
      EmitIsCrlf(m, after);
      var dot := if m[0] == DOT then [DOT] else [];
      CrlfAppend(dot, DottedTail(m, after));
      assert Crlf(dot) == dot;
    }
  }

  lemma {:induction false} EncodeChunksIsCrlf(cs: seq<Chunk>)
    ensures EncodeChunks(cs) == Crlf(DottedChunks(cs))
  {
    if cs != [] {
      EncodeIsCrlf(cs[0].bytes, cs[0].after);
      EncodeChunksIsCrlf(cs[1..]);
      CrlfAppend(Dotted(cs[0].bytes, cs[0].after), DottedChunks(cs[1..]));
    }
  }

  // ---------------------------------------------------------------------------------------------
  // The receiver as a scanner
  // ---------------------------------------------------------------------------------------------

  /** Where the receiver is: at the start of a line, after a period at the start, or further on. */
  datatype Mode = Start | AfterDot | Mid

  datatype End = At(mode: Mode) | Stopped(rest: seq<byte>)

  datatype Heard = Heard(text: seq<byte>, end: End)

  function Scan(mode: Mode, t: seq<byte>): Heard
    decreases |t|
  {
    if t == [] then Heard([], At(mode))
    else if mode == Start && t[0] == DOT then Scan(AfterDot, t[1..])
    else if mode == AfterDot && t[0] == LF then Heard([], Stopped(t[1..]))
    else
      var h := Scan(if t[0] == LF then Start else Mid, t[1..]);
      Heard([t[0]] + h.text, h.end)
  }

  /** What is heard when `b` follows on text heard as `h`. */
  function Resume(h: Heard, b: seq<byte>): Heard {
    match h.end
    case Stopped(rest) => Heard(h.text, Stopped(rest + b))
    case At(m) => Heard(h.text + Scan(m, b).text, Scan(m, b).end)
  }

  lemma ResumeAfter(c: byte, h: Heard, b: seq<byte>)
    ensures Resume(Heard([c] + h.text, h.end), b) == Heard([c] + Resume(h, b).text, Resume(h, b).end)
  {
    if h.end.At? {
      Assoc([c], h.text, Scan(h.end.mode, b).text);
    }
  }

  lemma {:induction false} ScanAppend(mode: Mode, a: seq<byte>, b: seq<byte>)
    ensures Scan(mode, a + b) == Resume(Scan(mode, a), b)
    decreases |a|
  {
    if a == [] {
      assert a + b == b;
    } else {
      assert (a + b)[1..] == a[1..] + b;
      if mode == Start && a[0] == DOT {
        ScanAppend(AfterDot, a[1..], b);
      } else if !(mode == AfterDot && a[0] == LF) {
        var mode1 := if a[0] == LF then Start else Mid;
        ScanAppend(mode1, a[1..], b);
        ResumeAfter(a[0], Scan(mode1, a[1..]), b);
      }
    }
  }

  lemma {:induction false} ScanWithoutLf(mode: Mode, line: seq<byte>)
    requires LF !in line && mode != Start
    ensures Scan(mode, line) == Heard(line, At(if line == [] then mode else Mid))
    decreases |line|
  {
    if line != [] {
      ScanWithoutLf(Mid, line[1..]);
    }
  }

  lemma ScanLine(line: seq<byte>)
    requires LF !in line && line != [DOT]
    ensures Scan(Start, line + [LF]) == Heard(Unstuffed(line) + [LF], At(Start))
  {
    ScanAppend(Start, line, [LF]);
    assert [LF][1..] == [] && Scan(Start, []) == Heard([], At(Start));
    assert Scan(Mid, [LF]) == Scan(Start, [LF]) == Heard([LF], At(Start));
    if line != [] {
      ScanWithoutLf(if line[0] == DOT then AfterDot else Mid, line[1..]);
    }
  }

  lemma ScanMark(t: seq<byte>)
    ensures Scan(Start, [DOT] + [LF] + t) == Heard([], Stopped(t))
  {
    assert ([DOT] + [LF] + t)[1..] == [LF] + t;
    assert ([LF] + t)[1..] == t;
  }

  function FirstLf(t: seq<byte>): (j: nat)
    ensures j <= |t| && LF !in t[..j] && (j < |t| ==> t[j] == LF)
  {
    if t == [] || t[0] == LF then 0 else 1 + FirstLf(t[1..])
  }

  lemma {:induction false} CrlfOfLine(line: seq<byte>)
    requires LF !in line
    ensures Crlf(line) == line
  {
    if line != [] {
      CrlfOfLine(line[1..]);
    }
  }

  lemma CrlfOfLf()
    ensures Crlf([LF]) == CRLF
  {
    assert [LF][1..] == [];
  }

  lemma ScanStopsNeedsLf(t: seq<byte>)
    requires LF !in t
    ensures Scan(Start, t).end.At?
  {
    if t != [] {
      ScanWithoutLf(if t[0] == DOT then AfterDot else Mid, t[1..]);
    }
  }

  lemma ReceiveLine(line: seq<byte>, w: seq<byte>)
    requires LF !in line
    ensures FindCrlf(line + CRLF + w) == |line|
    ensures (line + CRLF + w)[..|line|] == line
    ensures (line + CRLF + w)[|line| + 2..] == w
  {
    LineWithoutLf(line);
    FindCrlfInFront(line + CRLF, w);
  }

  /** Where the scanner stops on the text, the receiver stops on the wire, with the same text in hand. */
  lemma {:induction false} ReceiveIsScan(t: seq<byte>, w: seq<byte>)
    requires Scan(Start, t).end.Stopped?
    ensures Receive(Crlf(t) + w) == Complete(Scan(Start, t).text, Crlf(Scan(Start, t).end.rest) + w)
    decreases |t|
  {
    hide Crlf;
    var j := FirstLf(t);
    var line := t[..j];
    if j == |t| {
      assert line == t;
      ScanStopsNeedsLf(t);
    } else {
      var t' := t[j + 1..];
      assert t == line + [LF] + t';
      CrlfAppend(line + [LF], t');
      CrlfAppend(line, [LF]);
      CrlfOfLine(line);
      CrlfOfLf();
      var w' := Crlf(t') + w;
      Assoc(line + CRLF, Crlf(t'), w);
      assert Crlf(t) + w == line + CRLF + w';
      ReceiveLine(line, w');
      ScanAppend(Start, line + [LF], t');
      if line == [DOT] {
        ScanMark(t');
      } else {
        ScanLine(line);
        ReceiveIsScan(t', w);
      }
    }
  }

  // ---------------------------------------------------------------------------------------------
  // What the receiver makes of the chunks
  // ---------------------------------------------------------------------------------------------

  /** Where a chunk leaves the receiver: the byte after a final LF decides whether it has seen a dot. */
  function EndMode(c: Chunk): Mode
    requires c.bytes != []
  {
    if c.bytes[|c.bytes| - 1] != LF then Mid else if c.after == DOT then AfterDot else Start
  }

  /** Does a chunk that starts with `b` go wrong when the receiver is in `mode`? */
  predicate Spoils(mode: Mode, b: byte) {
    match mode
    case Start => false
    case Mid => b == DOT
    case AfterDot => b == DOT || b == LF
  }

  /** No chunk goes wrong where it starts, and the last one does not leave a dot behind. */
  predicate Clean(mode: Mode, cs: seq<Chunk>)
    requires NonEmpty(cs)
    decreases |cs|
  {
    if cs == [] then mode != AfterDot
    else !Spoils(mode, cs[0].bytes[0]) && Clean(EndMode(cs[0]), cs[1..])
  }

  lemma ScanDots(mode: Mode, dots: seq<byte>, rest: seq<byte>)
    requires dots == [] || (dots == [DOT] && mode == Start)
    ensures Scan(mode, dots + rest) == Scan(if dots == [] then mode else AfterDot, rest)
  {
    if dots == [] {
      assert dots + rest == rest;
    } else {
      assert (dots + rest)[1..] == rest;
    }
  }

  lemma {:induction false} ScanTail(mode: Mode, c: Chunk)
    requires c.bytes != []
    requires mode == Start ==> c.bytes[0] != DOT
    requires mode == AfterDot ==> c.bytes[0] != LF
    ensures Scan(mode, DottedTail(c.bytes, c.after)) == Heard(c.bytes, At(EndMode(c)))
    decreases |c.bytes|
  {
    hide Scan;
    var m := c.bytes;
    var dots := if m[0] == LF && Next(m, c.after) == DOT then [DOT] else [];
    var rest := DottedTail(m[1..], c.after);
    Assoc([m[0]], dots, rest);
    ScanOne(mode, m[0], dots + rest);
    var mode1 := if m[0] == LF then Start else Mid;
    var mode2 := if dots == [] then mode1 else AfterDot;
    ScanDots(mode1, dots, rest);
    if |m| > 1 {
      ScanTail(mode2, Chunk(m[1..], c.after));
      assert m == [m[0]] + m[1..];
    } else {
      assert m == [m[0]];
      assert rest == [];
      ScanNothing(mode2);
    }
  }

  lemma ScanNothing(mode: Mode)
    ensures Scan(mode, []) == Heard([], At(mode))
  {
  }

  /** A byte that is neither a period at the start of a line nor the end of one that is a single period. */
  lemma ScanOne(mode: Mode, b: byte, t: seq<byte>)
    requires !(mode == Start && b == DOT) && !(mode == AfterDot && b == LF)
    ensures var h := Scan(if b == LF then Start else Mid, t);
            Scan(mode, [b] + t) == Heard([b] + h.text, h.end)
  {
    assert ([b] + t)[1..] == t;
  }

  /** A chunk arrives as it is, or with one dot too many; after a stray dot an empty line ends the data. */
  lemma ScanChunk(mode: Mode, c: Chunk)
    requires c.bytes != []
    ensures var h := Scan(mode, Dotted(c.bytes, c.after));
            if mode == AfterDot && c.bytes[0] == LF then h.text == [] && h.end.Stopped?
            else h == Heard((if Spoils(mode, c.bytes[0]) then [DOT] else []) + c.bytes, At(EndMode(c)))
  {
    var m := c.bytes;
    var tail := DottedTail(m, c.after);
    if m[0] == DOT {
      assert ([DOT] + tail)[1..] == tail;
      ScanTail(if mode == Start then AfterDot else Mid, c);
    } else {
      assert Dotted(m, c.after) == tail;
      if !(mode == AfterDot && m[0] == LF) {
        ScanTail(mode, c);
      }
    }
  }

  /** Does the receiver stop before the terminator: at an empty line, or the terminator's own, after a stray dot? */
  predicate CutShort(mode: Mode, cs: seq<Chunk>)
    requires NonEmpty(cs)
    decreases |cs|
  {
    if cs == [] then mode == AfterDot
    else (mode == AfterDot && cs[0].bytes[0] == LF) || CutShort(EndMode(cs[0]), cs[1..])
  }

  function Lfs(s: seq<byte>): nat {
    if s == [] then 0 else (if s[0] == LF then 1 else 0) + Lfs(s[1..])
  }

  lemma {:induction false} LfsAppend(a: seq<byte>, b: seq<byte>)
    ensures Lfs(a + b) == Lfs(a) + Lfs(b)
  {
    if a == [] {
      assert a + b == b;
    } else {
      assert (a + b)[1..] == a[1..] + b;
      LfsAppend(a[1..], b);
    }
  }

  const LF_TERM: seq<byte> := [LF, DOT, LF]

  lemma ScanTerm(mode: Mode)
    ensures Scan(mode, LF_TERM) ==
              if mode == AfterDot then Heard([], Stopped([DOT, LF])) else Heard([LF], Stopped([]))
  {
    assert LF_TERM[1..] == [DOT, LF];
    assert [DOT, LF][1..] == [LF];
    assert Scan(AfterDot, [LF]) == Heard([], Stopped([]));
  }

  /** Either everything arrives and nothing is left over, or lines are missing, or bytes have been added. */
  ghost predicate Arrived(clean: bool, file: seq<byte>, h: Heard) {
    && h.end.Stopped?
    && (if clean then h == Heard(file + [LF], Stopped([]))
        else Lfs(h.text) <= Lfs(file) || |h.text| > |file| + 1)
  }

  lemma ArrivedThen(clean: bool, dots: seq<byte>, bytes: seq<byte>, file: seq<byte>, h: Heard)
    requires dots == [] || dots == [DOT]
    requires Arrived(clean, file, h)
    ensures Arrived(clean && dots == [], bytes + file, Heard(dots + bytes + h.text, h.end))
  {
    LfsAppend(dots + bytes, h.text);
    LfsAppend(dots, bytes);
    LfsAppend(bytes, file);
    Assoc(bytes, file, [LF]);
    assert [] + bytes == bytes;
  }

  lemma {:induction false} ScanChunks(mode: Mode, cs: seq<Chunk>)
    requires NonEmpty(cs)
    ensures Arrived(Clean(mode, cs), Whole(cs), Scan(mode, DottedChunks(cs) + LF_TERM))
    decreases |cs|
  {
    if cs == [] {
      assert DottedChunks(cs) + LF_TERM == LF_TERM;
      ScanTerm(mode);
    } else {
      var c, rest := cs[0], cs[1..];
      var t, t' := Dotted(c.bytes, c.after), DottedChunks(rest) + LF_TERM;
      Assoc(t, DottedChunks(rest), LF_TERM);
      ScanChunk(mode, c);
      ScanAppend(mode, t, t');
      if !(mode == AfterDot && c.bytes[0] == LF) {
        var dots := if Spoils(mode, c.bytes[0]) then [DOT] else [];
        ScanChunks(EndMode(c), rest);
        ArrivedThen(Clean(EndMode(c), rest), dots, c.bytes, Whole(rest), Scan(EndMode(c), t'));
      }
    }
  }

  /** Where the scanner stops, against the end of the terminator. */
  lemma {:induction false} ScanStopsAt(mode: Mode, cs: seq<Chunk>)
    requires NonEmpty(cs)
    ensures var h := Scan(mode, DottedChunks(cs) + LF_TERM);
            h.end.Stopped? && (h.end.rest == [] <==> !CutShort(mode, cs))
    decreases |cs|
  {
    if cs == [] {
      assert DottedChunks(cs) + LF_TERM == LF_TERM;
      ScanTerm(mode);
    } else {
      var c, rest := cs[0], cs[1..];
      var t, t' := Dotted(c.bytes, c.after), DottedChunks(rest) + LF_TERM;
      Assoc(t, DottedChunks(rest), LF_TERM);
      ScanChunk(mode, c);
      ScanAppend(mode, t, t');
      if !(mode == AfterDot && c.bytes[0] == LF) {
        ScanStopsAt(EndMode(c), rest);
      }
    }
  }

  lemma WholeAndLf(cs: seq<Chunk>)
    ensures Lfs(Whole(cs) + [LF]) == Lfs(Whole(cs)) + 1
  {
    LfsAppend(Whole(cs), [LF]);
  }

  /**
   A file sent as any sequence of chunks, whatever bytes follow them in memory: the receiver ends up
   with the file and one line end, and with its eyes exactly behind the terminator, if and only if no
   chunk boundary is unlucky.
   */
  lemma ChunkedRoundTrip(cs: seq<Chunk>, w: seq<byte>)
    requires NonEmpty(cs)
    ensures Receive(EncodeChunks(cs) + TERM + w) == Complete(Whole(cs) + [LF], w) <==> Clean(Start, cs)
    ensures Receive(EncodeChunks(cs) + TERM + w).Complete?
  {
    ReceiveIsScanOfChunks(cs, w);
    ScanChunks(Start, cs);
    WholeAndLf(cs);
    assert Crlf([]) + w == w;
  }

  lemma ReceiveIsScanOfChunks(cs: seq<Chunk>, w: seq<byte>)
    requires NonEmpty(cs)
    ensures var h := Scan(Start, DottedChunks(cs) + LF_TERM);
            && h.end.Stopped?
            && Receive(EncodeChunks(cs) + TERM + w) == Complete(h.text, Crlf(h.end.rest) + w)
  {
    var t := DottedChunks(cs) + LF_TERM;
    EncodeChunksIsCrlf(cs);
    CrlfAppend(DottedChunks(cs), LF_TERM);
    assert Crlf(LF_TERM) == TERM by {
      assert LF_TERM[1..] == [DOT, LF];
      assert [DOT, LF][1..] == [LF];
      assert Crlf([LF]) == CRLF;
      assert Crlf([DOT, LF]) == [DOT, CR, LF];
    }
    ScanStopsAt(Start, cs);
    ReceiveIsScan(t, w);
  }

  /**
   The receiver stops exactly behind the terminator if and only if no empty line and no end of the file follows a
   stray dot.  Otherwise it stops before, and takes the rest of the file for commands; an extra dot alone does no such harm.
   */
  lemma ChunksStopAtEnd(cs: seq<Chunk>, w: seq<byte>)
    requires NonEmpty(cs)
    ensures var r := Receive(EncodeChunks(cs) + TERM + w);
            && r.Complete?
            && (r.rest == w <==> !CutShort(Start, cs))
            && |r.rest| >= |w|
  {
    ReceiveIsScanOfChunks(cs, w);
    ScanStopsAt(Start, cs);
    var rest := Scan(Start, DottedChunks(cs) + LF_TERM).end.rest;
    hide Scan;
    assert |Crlf(rest) + w| == |Crlf(rest)| + |w|;
    if rest != [] {
      assert |Crlf(rest)| > 0;
    } else {
      assert Crlf(rest) + w == w;
    }
  }

  /** Is the byte behind the buffer taken for the start of another line? */
  predicate StrayDot(m: seq<byte>, after: byte) {
    m != [] && m[|m| - 1] == LF && after == DOT
  }

  /**
   One buffer: every message arrives as it was, with exactly one line end added, and nothing behind the
   terminator is touched, if and only if it does not end in LF with a period behind it in memory.
   */
  lemma RoundTrip(m: seq<byte>, after: byte, w: seq<byte>)
    ensures Receive(Encode(m, after) + TERM + w) == Complete(m + [LF], w) <==> !StrayDot(m, after)
  {
    var cs := if m == [] then [] else [Chunk(m, after)];
    OneChunk(m, after);
    ChunkedRoundTrip(cs, w);
  }

  lemma OneChunk(m: seq<byte>, after: byte)
    ensures var cs := if m == [] then [] else [Chunk(m, after)];
            && EncodeChunks(cs) == Encode(m, after)
            && Whole(cs) == m
            && NonEmpty(cs)
            && (Clean(Start, cs) <==> !StrayDot(m, after))
            && (CutShort(Start, cs) <==> StrayDot(m, after))
  {
    if m != [] {
      var c := Chunk(m, after);
      assert [c][1..] == [];
      assert EncodeChunks([]) == [] && Whole([]) == [];
    }
  }

  /** Where the end-of-data mark occurs, the receiver stops, if it has not stopped before. */
  lemma {:induction false} ReceiveStopsByMark(a: seq<byte>, b: seq<byte>)
    ensures Receive(a + TERM + b).Complete? && |Receive(a + TERM + b).rest| >= |b|
    decreases |a|
  {
    var w := a + TERM + b;
    assert CrlfAt(w, |a|);
    FindCrlfFirst(w);
    var i := FindCrlf(w);
    assert 0 <= i <= |a|;
    if w[..i] != [DOT] {
      if i == |a| {
        assert w[i + 2..] == [DOT] + CRLF + b;
        assert LF !in [DOT];
        ReceiveLine([DOT], b);
      } else {
        assert i + 1 != |a| by { assert w[|a|] == CR; }
        assert w[i + 2..] == a[i + 2..] + TERM + b;
        ReceiveStopsByMark(a[i + 2..], b);
      }
    }
  }

  /** The mark occurs at index `i`. */
  predicate MarkAt(s: seq<byte>, i: nat) {
    i + |TERM| <= |s| && s[i..i + |TERM|] == TERM
  }

  ghost predicate MarkOnlyAtEnd(s: seq<byte>) {
    forall i: nat :: MarkAt(s, i) ==> i + |TERM| == |s|
  }

  /** Where the receiver stops there is a mark, when its first line counts as following a line end. */
  lemma {:induction false} ReceiveStopsAtMark(w: seq<byte>) returns (front: seq<byte>)
    requires Receive(w).Complete?
    ensures CRLF + w == front + TERM + Receive(w).rest
    decreases |w|
  {
    var i := FindCrlf(w);
    var line, w' := w[..i], w[i + 2..];
    LineThenRest(w);
    if line == [DOT] {
      front := [];
      Stopping(w');
    } else {
      var front' := ReceiveStopsAtMark(w');
      front := CRLF + line + front';
      GoingOn(line, w', front', Receive(w').rest);
    }
  }

  lemma LineThenRest(w: seq<byte>)
    requires FindCrlf(w) != -1
    ensures w == w[..FindCrlf(w)] + CRLF + w[FindCrlf(w) + 2..]
  {
    FindCrlfFirst(w);
  }

  lemma Stopping(rest: seq<byte>)
    ensures CRLF + ([DOT] + CRLF + rest) == [] + TERM + rest
  {
  }

  lemma GoingOn(line: seq<byte>, w: seq<byte>, front: seq<byte>, rest: seq<byte>)
    requires CRLF + w == front + TERM + rest
    ensures CRLF + (line + CRLF + w) == (CRLF + line + front) + TERM + rest
  {
    assert CRLF + (line + CRLF + w) == (CRLF + line) + (CRLF + w);
    assert (CRLF + line + front) + TERM + rest == (CRLF + line) + (front + TERM + rest);
  }

  lemma ReceiveAfterLineEnd(body: seq<byte>)
    requires Receive(body).Complete?
    ensures Receive(CRLF + body).Complete? && Receive(CRLF + body).rest == Receive(body).rest
  {
    ReceiveLine([], body);
    assert [] + CRLF + body == CRLF + body;
  }

  /** The mark is only at the end of what was sent exactly when the receiver stops there. */
  lemma MarkWhereReceiverStops(body: seq<byte>)
    requires Receive(body).Complete?
    ensures MarkOnlyAtEnd(CRLF + body) <==> Receive(body).rest == []
  {
    hide Receive;
    var s, rest := CRLF + body, Receive(body).rest;
    if rest == [] {
      ReceiveAfterLineEnd(body);
      forall i: nat | MarkAt(s, i) ensures i + |TERM| == |s| {
        MarkSplits(s, i);
        ReceiveStopsByMark(s[..i], s[i + |TERM|..]);
      }
    } else {
      var front := ReceiveStopsAtMark(body);
      MarkBetween(front, rest);
    }
  }

  lemma MarkSplits(s: seq<byte>, i: nat)
    requires MarkAt(s, i)
    ensures s[..i] + TERM + s[i + |TERM|..] == s
  {
    ThreeParts(s, i, i + |TERM|);
  }

  lemma MarkBetween(a: seq<byte>, b: seq<byte>)
    ensures MarkAt(a + TERM + b, |a|)
  {
  }

  /**
   In the line end before the body, the body and the terminator, the end-of-data mark occurs only as
   the last five bytes, if and only if neither an empty line nor the end of the file follows a stray dot.
   */
  lemma TerminatorOnlyAtEndOfChunks(cs: seq<Chunk>)
    requires NonEmpty(cs)
    ensures MarkOnlyAtEnd(CRLF + (EncodeChunks(cs) + TERM)) <==> !CutShort(Start, cs)
  {
    ChunksStopAtEnd(cs, []);
    var body := EncodeChunks(cs) + TERM;
    assert body + [] == body;
    MarkWhereReceiverStops(body);
  }

  /** The same for one buffer. */
  lemma TerminatorOnlyAtEnd(m: seq<byte>, after: byte)
    ensures MarkOnlyAtEnd(CRLF + (Encode(m, after) + TERM)) <==> !StrayDot(m, after)
  {
    var cs := if m == [] then [] else [Chunk(m, after)];
    OneChunk(m, after);
    TerminatorOnlyAtEndOfChunks(cs);
  }

  // ---------------------------------------------------------------------------------------------
  // Chunks against the whole buffer
  // ---------------------------------------------------------------------------------------------

  /** The dots that sending `b` on its own after `a` adds to those of one buffer holding both. */
  function SurplusDots(a: Chunk, b: Chunk): (n: nat)
    requires a.bytes != [] && b.bytes != []
    ensures n <= 1
  {
    if EndsLine(a) then (if a.after == DOT then 1 else 0)
    else if b.bytes[0] == DOT then 1 else 0
  }

  predicate EndsLine(a: Chunk)
    requires a.bytes != []
  {
    a.bytes[|a.bytes| - 1] == LF
  }

  function Surplus(cs: seq<Chunk>): nat
    requires NonEmpty(cs)
  {
    if |cs| <= 1 then 0 else SurplusDots(cs[0], cs[1]) + Surplus(cs[1..])
  }

  /** A dot behind the buffer only adds itself, and only after a final LF. */
  lemma {:induction false} EmitBehind(a: seq<byte>, after: byte)
    requires a != []
    ensures Emit(a, after) == Emit(a, NUL) + (if a[|a| - 1] == LF && after == DOT then [DOT] else [])
    decreases |a|
  {
    if |a| == 1 {
      assert a[1..] == [];
    } else {
      EmitBehind(a[1..], after);
    }
  }

  lemma EmitFirst(a: seq<byte>, b: seq<byte>, after: byte)
    requires a != [] && b != []
    ensures Emit(a, b[0]) == EmitOne(a, b[0]) + Emit(a[1..], b[0])
    ensures Emit(a + b, after) == EmitOne(a, b[0]) + Emit(a[1..] + b, after)
  {
    assert (a + b)[1..] == a[1..] + b;
    assert Next(a + b, after) == Next(a, b[0]);
  }

  lemma {:induction false} EmitTwo(a: seq<byte>, b: seq<byte>, after: byte)
    requires b != []
    ensures Emit(a + b, after) == Emit(a, b[0]) + Emit(b, after)
    decreases |a|
  {
    if a == [] {
      assert a + b == b;
    } else {
      EmitFirst(a, b, after);
      EmitTwo(a[1..], b, after);
      hide Emit, EmitOne;
      Assoc(EmitOne(a, b[0]), Emit(a[1..], b[0]), Emit(b, after));
    }
  }

  /**
   Where the surplus dots are: `plain` is what one buffer would send, and they are put into it at the chunk
   boundaries.
   */
  function WithSurplus(cs: seq<Chunk>, plain: seq<byte>): seq<byte>
    requires NonEmpty(cs)
  {
    if |cs| <= 1 then plain
    else
      var n := Min(|Encode(cs[0].bytes, NUL)|, |plain|);
      var dots := if SurplusDots(cs[0], cs[1]) == 0 then [] else [DOT];
      if EndsLine(cs[0]) then plain[..n] + dots + WithSurplus(cs[1..], plain[n..])
      else plain[..n] + WithSurplus(cs[1..], dots + plain[n..])
  }

  /** What one buffer sends for two: the first as if nothing followed, then the second without a surplus dot. */
  lemma EncodeTwo(a: Chunk, b: Chunk)
    requires a.bytes != [] && b.bytes != []
    ensures var n, plain := |Encode(a.bytes, NUL)|, Encode(a.bytes + b.bytes, b.after);
            var dots := if SurplusDots(a, b) == 0 then [] else [DOT];
            && n <= |plain|
            && (EndsLine(a) ==>
                  Encode(a.bytes, a.after) == plain[..n] + dots && Encode(b.bytes, b.after) == plain[n..])
            && (!EndsLine(a) ==>
                  Encode(a.bytes, a.after) == plain[..n] && Encode(b.bytes, b.after) == dots + plain[n..])
  {
    EncodeBehind(a);
    EncodeJoined(a, b);
    EncodeIsEmit(b);
    hide Emit, Encode;
    var x, last := Encode(a.bytes, NUL), Emit(b.bytes, b.after);
    if EndsLine(a) {
      SplitHere(x, Encode(b.bytes, b.after));
    } else {
      SplitHere(x, [] + last);
      assert x + [] == x && [] + last == last;
    }
  }

  lemma SplitHere(x: seq<byte>, y: seq<byte>)
    ensures (x + y)[..|x|] == x && (x + y)[|x|..] == y
  {
  }

  lemma EncodeIsEmit(c: Chunk)
    requires c.bytes != []
    ensures Encode(c.bytes, c.after) == (if c.bytes[0] == DOT then [DOT] else []) + Emit(c.bytes, c.after)
  {
  }

  lemma EncodeBehind(a: Chunk)
    requires a.bytes != []
    ensures Encode(a.bytes, a.after) == Encode(a.bytes, NUL) + if EndsLine(a) && a.after == DOT then [DOT] else []
  {
    EmitBehind(a.bytes, a.after);
  }

  lemma EncodeJoined(a: Chunk, b: Chunk)
    requires a.bytes != [] && b.bytes != []
    ensures var d := if EndsLine(a) && b.bytes[0] == DOT then [DOT] else [];
            Encode(a.bytes + b.bytes, b.after) == Encode(a.bytes, NUL) + (d + Emit(b.bytes, b.after))
  {
    EmitTwo(a.bytes, b.bytes, b.after);
    EmitBehind(a.bytes, b.bytes[0]);
    hide Emit;
    var pre := if a.bytes[0] == DOT then [DOT] else [];
    var d := if EndsLine(a) && b.bytes[0] == DOT then [DOT] else [];
    Regroup(pre, Emit(a.bytes, NUL), d, Emit(b.bytes, b.after));
  }

  lemma Regroup(a: seq<byte>, b: seq<byte>, c: seq<byte>, d: seq<byte>)
    ensures a + ((b + c) + d) == (a + b) + (c + d)
  {
  }

  lemma {:induction false} WholeStartsWithFirst(cs: seq<Chunk>)
    requires NonEmpty(cs) && cs != []
    ensures Whole(cs) != [] && Whole(cs)[0] == cs[0].bytes[0]
  {
  }

  lemma {:induction false} SurplusLength(cs: seq<Chunk>, plain: seq<byte>)
    requires NonEmpty(cs)
    ensures |WithSurplus(cs, plain)| == |plain| + Surplus(cs)
    ensures Surplus(cs) == 0 ==> WithSurplus(cs, plain) == plain
    decreases |cs|
  {
    hide Encode, SurplusDots, EndsLine;
    if |cs| > 1 {
      var n := Min(|Encode(cs[0].bytes, NUL)|, |plain|);
      var dots := if SurplusDots(cs[0], cs[1]) == 0 then [] else [DOT];
      assert plain[..n] + plain[n..] == plain;
      SurplusLength(cs[1..], if EndsLine(cs[0]) then plain[n..] else dots + plain[n..]);
    }
  }

  lemma {:induction false} ChunksAreWithSurplus(cs: seq<Chunk>)
    requires NonEmpty(cs) && cs != []
    ensures EncodeChunks(cs) == WithSurplus(cs, Encode(Whole(cs), cs[|cs| - 1].after))
    decreases |cs|
  {
    hide Encode;
    var c, rest := cs[0], cs[1..];
    if rest == [] {
      assert EncodeChunks(rest) == [] && Whole(rest) == [];
      assert c.bytes + [] == c.bytes;
    } else {
      var last := cs[|cs| - 1].after;
      assert rest[|rest| - 1].after == last;
      ChunksAreWithSurplus(rest);
      WholeStartsWithFirst(rest);
      EncodeTwo(c, Chunk(Whole(rest), last));
    }
  }

  /**
   Sending a file in chunks sends what one buffer would send, with the surplus dots put in at the boundaries and
   nothing else; so the bytes sent are the same if and only if there are none.
   */
  lemma ChunksAgainstWhole(cs: seq<Chunk>)
    requires NonEmpty(cs) && cs != []
    ensures var plain := Encode(Whole(cs), cs[|cs| - 1].after);
            && EncodeChunks(cs) == WithSurplus(cs, plain)
            && |EncodeChunks(cs)| == |plain| + Surplus(cs)
            && (EncodeChunks(cs) == plain <==> Surplus(cs) == 0)
  {
    ChunksAreWithSurplus(cs);
    SurplusLength(cs, Encode(Whole(cs), cs[|cs| - 1].after));
  }
}
