/**
 The receiving half of a buffered socket as a value: what `read`, `underflow`, `uflow` and `xsgetn`
 do to the get area and to the bytes still to come.  The methods of `SockStream.SockBuf` are proved
 equal to these functions; the lemmas here say that a caller sees one stream, however it was split.
 */
module GetSide {
  import opened Basics
  import opened Octets
  import opened Kernel

  datatype ReadResult = Got(bytes: seq<byte>) | Refused(error: Error)

  /** `cap` is the size of the get buffer, 0 once the receiving side is shut down. */
  datatype GetArea = GetArea(cap: nat, unread: seq<byte>, inc: Incoming, rtmo: int, oob: bool) {
    predicate Valid() {
      |unread| <= cap
    }

    /** Everything the caller can still receive: what is buffered, then what the peer will deliver. */
    function Stream(): seq<byte> {
      unread + inc.data
    }
  }

  /** The two checks in front of every read: the receive timeout, then the out-of-band mark. */
  function Admit(k: Incoming, rtmo: int, oob: bool): (r: (Incoming, Call))
    ensures r.0.data == k.data && r.0.refills == k.refills
  {
    if rtmo != -1 && Head(k.readable, Broken) != Yes then
      (k.(readable := Tail(k.readable)), Threw(if Head(k.readable, Broken) == No then TimedOut else OsError))
    else
      var k0 := if rtmo != -1 then k.(readable := Tail(k.readable)) else k;
      if oob && Head(k0.marks, Broken) != No then
        (k0.(marks := Tail(k0.marks)), Threw(if Head(k0.marks, Broken) == Yes then OutOfBand else OsError))
      else (if oob then k0.(marks := Tail(k0.marks)) else k0, Returned(0))
  }

  /** `read`: at most `len` bytes; none only at end of file or for an empty request. */
  function Read(k: Incoming, rtmo: int, oob: bool, len: nat): (r: (Incoming, ReadResult))
    ensures r.1.Got? ==> |r.1.bytes| <= len && r.1.bytes + r.0.data == k.data
    ensures r.1.Got? && r.1.bytes == [] ==> len == 0 || k.data == []
    ensures r.1.Refused? ==> r.0.data == k.data
    ensures |r.0.refills| <= |k.refills|
  {
    var (k0, gate) := Admit(k, rtmo, oob);
    match gate
    case Threw(e) => (k0, Refused(e))
    case Returned(_) =>
      var (k1, n) := SysRead(k0, len);
      if n == -1 then (k1, Refused(OsError)) else (k1, Got(k0.data[..n]))
  }

  function Underflow(g: GetArea): (r: (GetArea, Call))
    requires g.Valid()
    ensures r.0.Valid() && r.0.cap == g.cap
    ensures r.1.Returned? && r.1.value != EOF ==> r.0.unread != []
  {
    if g.cap == 0 then (g, Returned(EOF))
    else if g.unread != [] then (g, Returned(g.unread[0] as int))
    else
      var (k, r) := Read(g.inc, g.rtmo, g.oob, g.cap);
      match r
      case Refused(e) => (g.(inc := k), Threw(e))
      case Got(b) =>
        if b == [] then (g.(inc := k), Returned(EOF))
        else (g.(inc := k, unread := b), Returned(b[0] as int))
  }

  /** `underflow` only moves bytes from the peer into the buffer; its value is the next byte of the stream. */
  lemma UnderflowKeepsStream(g: GetArea)
    requires g.Valid()
    ensures var (g1, r) := Underflow(g);
            && g1.Stream() == g.Stream()
            && (r.Returned? && r.value != EOF ==> g.Stream() != [] && r.value == g.Stream()[0] as int)
            && (r.Returned? && r.value == EOF && g.cap > 0 ==> g.Stream() == [])
            && (r.Returned? && r.value == EOF ==> g1.unread == [])
            && (r.Threw? ==> g1.unread == g.unread == [])
  {
  }

  function Uflow(g: GetArea): (r: (GetArea, Call))
    requires g.Valid()
    ensures r.0.Valid() && r.0.cap == g.cap
  {
    var (g1, r) := Underflow(g);
    if r.Returned? && r.value != EOF then (g1.(unread := g1.unread[1..]), r) else (g1, r)
  }

  /** `xsgetn`: the bytes copied to the caller, and how the call ends. */
  function Xsgetn(g: GetArea, n: nat): (r: (GetArea, seq<byte>, Call))
    requires g.Valid()
    ensures r.0.Valid() && r.0.cap == g.cap && |r.1| <= n
    decreases n, if g.unread == [] then 1 else 0
  {
    var rval := |g.unread|;
    if rval >= n then (g.(unread := g.unread[n..]), g.unread[..n], Returned(n))
    else
      var (g1, u) := Underflow(g.(unread := []));
      if u.Threw? then (g1, g.unread, u)
      else if u.value == EOF then (g1, g.unread, Returned(rval))
      else
        var (g2, bytes, r) := Xsgetn(g1, n - rval);
        (g2, g.unread + bytes, if r.Threw? then r else Returned(rval + r.value))
  }

  lemma XsgetnUnfold(g: GetArea, n: nat, g1: GetArea, u: Call)
    requires g.Valid() && |g.unread| < n && (g1, u) == Underflow(g.(unread := []))
    ensures Xsgetn(g, n) ==
              if u.Threw? then (g1, g.unread, u)
              else if u.value == EOF then (g1, g.unread, Returned(|g.unread|))
              else
                var (g2, bytes, r) := Xsgetn(g1, n - |g.unread|);
                (g2, g.unread + bytes, if r.Threw? then r else Returned(|g.unread| + r.value))
  {
    hide Underflow;
  }

  // ---------------------------------------------------------------------------------------------
  // One operation on the stream
  // ---------------------------------------------------------------------------------------------

  /**
   Whatever `xsgetn` copies is the front of the stream and is gone from it, also when it throws; when
   it returns, it has copied the number asked for or, at end of file, all there was.
   */
  ghost predicate TakesFront(g: GetArea, n: nat, g': GetArea, bytes: seq<byte>, r: Call) {
    && bytes + g'.Stream() == g.Stream()
    && (r.Returned? ==> r.value == |bytes|)
    && (r.Returned? && g.cap > 0 ==> |bytes| == Min(n, |g.Stream()|))
    && (r.Threw? ==> |bytes| < n && g'.unread == [])
  }

  lemma TakesBuffered(g: GetArea, n: nat)
    requires n <= |g.unread|
    ensures TakesFront(g, n, g.(unread := g.unread[n..]), g.unread[..n], Returned(n))
  {
    Assoc(g.unread[..n], g.unread[n..], g.inc.data);
    assert g.unread[..n] + g.unread[n..] == g.unread;
  }

  lemma TakesBufferOnly(g: GetArea, n: nat, g1: GetArea, u: Call)
    requires |g.unread| < n && g1.Stream() == g.inc.data && g1.unread == []
    requires u.Threw? || (g.cap > 0 ==> g1.Stream() == [])
    ensures TakesFront(g, n, g1, g.unread, if u.Threw? then u else Returned(|g.unread|))
  {
  }

  lemma TakesBufferThen(g: GetArea, n: nat, g1: GetArea, g2: GetArea, more: seq<byte>, r: Call)
    requires |g.unread| < n && g1.cap == g.cap && g1.Stream() == g.inc.data
    requires TakesFront(g1, n - |g.unread|, g2, more, r)
    ensures TakesFront(g, n, g2, g.unread + more, if r.Threw? then r else Returned(|g.unread| + r.value))
  {
    Assoc(g.unread, more, g2.Stream());
  }

  lemma {:induction false} XsgetnTakesFront(g: GetArea, n: nat)
    requires g.Valid()
    ensures TakesFront(g, n, Xsgetn(g, n).0, Xsgetn(g, n).1, Xsgetn(g, n).2)
    decreases n, if g.unread == [] then 1 else 0
  {
    hide Underflow, TakesFront;
    if n <= |g.unread| {
      TakesBuffered(g, n);
    } else {
      var g0 := g.(unread := []);
      assert g0.Stream() == g.inc.data;
      var (g1, u) := Underflow(g0);
      UnderflowKeepsStream(g0);
      if u.Returned? && u.value != EOF {
        XsgetnTakesFront(g1, n - |g.unread|);
        var (g2, more, r) := Xsgetn(g1, n - |g.unread|);
        TakesBufferThen(g, n, g1, g2, more, r);
      } else {
        TakesBufferOnly(g, n, g1, u);
      }
    }
  }

  // ---------------------------------------------------------------------------------------------
  // Whole runs
  // ---------------------------------------------------------------------------------------------

  datatype GetOp = GetChar | GetBlock(n: nat)

  function Wanted(op: GetOp): nat {
    if op.GetChar? then 1 else op.n
  }

  function Apply(g: GetArea, op: GetOp): (r: (GetArea, seq<byte>, Call))
    requires g.Valid()
    ensures r.0.Valid() && r.0.cap == g.cap
  {
    match op
    case GetBlock(n) => Xsgetn(g, n)
    case GetChar =>
      var (g1, r) := Uflow(g);
      (g1, if r.Returned? && 0 <= r.value < 256 then [r.value as byte] else [], r)
  }

  /** The bytes handed out by a run of calls, block by block, and the calls' results. */
  function Run(g: GetArea, ops: seq<GetOp>): (r: (GetArea, seq<seq<byte>>, seq<Call>))
    requires g.Valid()
    ensures r.0.Valid() && |r.1| == |r.2| == |ops|
    decreases |ops|
  {
    if ops == [] then (g, [], [])
    else
      var (g1, b, c) := Apply(g, ops[0]);
      var (g2, bs, cs) := Run(g1, ops[1..]);
      (g2, [b] + bs, [c] + cs)
  }

  lemma UflowTakesFront(g: GetArea)
    requires g.Valid() && g.cap > 0
    ensures Uflow(g).1.Returned? && g.Stream() != [] ==>
              && Uflow(g).1.value == g.Stream()[0] as int
              && Uflow(g).0.Stream() == g.Stream()[1..]
    ensures Uflow(g).1.Returned? && g.Stream() == [] ==> Uflow(g).1.value == EOF
    ensures Uflow(g).1.Threw? || g.Stream() == [] ==> Uflow(g).0.Stream() == g.Stream()
    ensures Uflow(g).1 == Underflow(g).1
  {
    var (g1, r) := Underflow(g);
    UnderflowKeepsStream(g);
    if r.Returned? && r.value != EOF {
      assert g1.Stream()[1..] == g1.unread[1..] + g1.inc.data;
    }
  }

  lemma ApplyTakesFront(g: GetArea, op: GetOp)
    requires g.Valid() && g.cap > 0
    ensures Apply(g, op).1 + Apply(g, op).0.Stream() == g.Stream()
    ensures Apply(g, op).2.Returned? ==> |Apply(g, op).1| == Min(Wanted(op), |g.Stream()|)
  {
    match op
    case GetBlock(n) => XsgetnTakesFront(g, n);
    case GetChar =>
      UflowTakesFront(g);
  }

  /** Also with timeouts, errors and out-of-band stops: what a run hands out is the front of the stream, in order. */
  lemma {:induction false} RunTakesFront(g: GetArea, ops: seq<GetOp>)
    requires g.Valid() && g.cap > 0
    ensures Concat(Run(g, ops).1) + Run(g, ops).0.Stream() == g.Stream()
    decreases |ops|
  {
    if ops != [] {
      var (g1, b, c) := Apply(g, ops[0]);
      ApplyTakesFront(g, ops[0]);
      RunTakesFront(g1, ops[1..]);
      var (g2, bs, cs) := Run(g1, ops[1..]);
      assert Run(g, ops).1[1..] == bs;
      assert b + Concat(bs) + g2.Stream() == b + (Concat(bs) + g2.Stream());
    }
  }

  ghost predicate AllReturned(calls: seq<Call>) {
    forall i :: 0 <= i < |calls| ==> calls[i].Returned?
  }

  /** What a run must hand out when it only depends on the stream and on the counts asked for. */
  function Blocks(stream: seq<byte>, ops: seq<GetOp>): seq<seq<byte>>
    decreases |ops|
  {
    if ops == [] then []
    else
      var n := Min(Wanted(ops[0]), |stream|);
      [stream[..n]] + Blocks(stream[n..], ops[1..])
  }

  /**
   Chunk independence: a run in which no call throws hands out exactly the blocks determined by the
   stream and the counts, whatever the buffer size and however the system split the reads.
   */
  lemma {:induction false} RunIsChunkIndependent(g: GetArea, ops: seq<GetOp>)
    requires g.Valid() && g.cap > 0
    requires AllReturned(Run(g, ops).2)
    ensures Run(g, ops).1 == Blocks(g.Stream(), ops)
    decreases |ops|
  {
    if ops != [] {
      var (g1, b, c) := Apply(g, ops[0]);
      var (g2, bs, cs) := Run(g1, ops[1..]);
      ApplyTakesFront(g, ops[0]);
      var calls := Run(g, ops).2;
      assert calls[0] == c;
      forall i | 0 <= i < |cs| ensures cs[i].Returned? {
        assert calls[i + 1] == cs[i];
      }
      RunIsChunkIndependent(g1, ops[1..]);
      var n := Min(Wanted(ops[0]), |g.Stream()|);
      assert g.Stream()[..n] == b && g.Stream()[n..] == g1.Stream();
    }
  }

  // ---------------------------------------------------------------------------------------------
  // When the calls return
  // ---------------------------------------------------------------------------------------------

  /**
   `read` delivers exactly when the descriptor is ready in time, no out-of-band byte is next, and the system delivers;
   and which error it throws otherwise.
   */
  lemma ReadReturns(k: Incoming, rtmo: int, oob: bool, len: nat)
    ensures var r := Read(k, rtmo, oob, len).1;
            var ready := rtmo == -1 || Head(k.readable, Broken) == Yes;
            && (r.Got? <==> ready && (!oob || Head(k.marks, Broken) == No) && Head(k.refills, Fails).Moves?)
            && (r == Refused(TimedOut) <==> rtmo != -1 && Head(k.readable, Broken) == No)
            && (r == Refused(OutOfBand) <==> ready && oob && Head(k.marks, Broken) == Yes)
  {
    AdmitAnswers(k, rtmo, oob);
    hide Admit;
  }

  /** How much it delivers is the system's answer, up to what is asked for and what there is. */
  lemma ReadAmount(k: Incoming, rtmo: int, oob: bool, len: nat, extra: nat)
    requires Read(k, rtmo, oob, len).1.Got? && Head(k.refills, Fails) == Moves(extra)
    ensures Read(k, rtmo, oob, len).1.bytes == k.data[..Granted(extra, Min(len, |k.data|))]
  {
    hide Admit;
  }

  lemma AdmitAnswers(k: Incoming, rtmo: int, oob: bool)
    ensures var r, ready := Admit(k, rtmo, oob).1, rtmo == -1 || Head(k.readable, Broken) == Yes;
            && (r.Returned? <==> ready && (!oob || Head(k.marks, Broken) == No))
            && (r.Threw? ==>
                  r.error == if !ready then (if Head(k.readable, Broken) == No then TimedOut else OsError)
                             else if Head(k.marks, Broken) == Yes then OutOfBand else OsError)
  {
  }

  lemma AdmitWilling(k: Incoming, rtmo: int, oob: bool, n: nat)
    requires Willing(k, rtmo, oob, n) && n > 0
    ensures var (k1, r) := Admit(k, rtmo, oob);
            && r.Returned? && k1.refills == k.refills
            && (rtmo != -1 ==> k1.readable == k.readable[1..]) && (oob ==> k1.marks == k.marks[1..])
  {
    assert rtmo != -1 ==> k.readable[0] == Yes;
    assert oob ==> k.marks[0] == No;
  }

  /** `underflow` returns when something is buffered or `read` delivers; its errors are those of `read`. */
  lemma UnderflowReturns(g: GetArea)
    requires g.Valid() && g.cap > 0
    ensures Underflow(g).1.Returned? <==> g.unread != [] || Read(g.inc, g.rtmo, g.oob, g.cap).1.Got?
    ensures Underflow(g).1.Threw? ==> Read(g.inc, g.rtmo, g.oob, g.cap).1 == Refused(Underflow(g).1.error)
  {
    hide Read;
  }

  /** Each refill that `xsgetn` needs delivers, or finds the end of file. */
  predicate Gets(g: GetArea, n: nat)
    requires g.Valid()
    decreases n, if g.unread == [] then 1 else 0
  {
    n <= |g.unread| ||
    (var (g1, u) := Underflow(g.(unread := []));
     u.Returned? && (u.value == EOF || Gets(g1, n - |g.unread|)))
  }

  lemma GetsStep(g: GetArea, n: nat, g0: GetArea, g1: GetArea, u: Call)
    requires g.Valid() && |g.unread| < n && g0 == g.(unread := []) && (g1, u) == Underflow(g0)
    ensures Gets(g, n) <==> u.Returned? && (u.value == EOF || Gets(g1, n - |g.unread|))
    ensures u.Threw? ==> Xsgetn(g, n).2 == u
  {
    XsgetnUnfold(g, n, g1, u);
    hide Xsgetn, Underflow;
  }

  lemma GetsAtOnce(g: GetArea, n: nat)
    requires g.Valid() && n <= |g.unread|
    ensures Gets(g, n) && Xsgetn(g, n).2.Returned?
  {
  }

  /** One refill that `xsgetn` needs. */
  lemma GetsRefill(g: GetArea, n: nat) returns (g1: GetArea, u: Call)
    requires g.Valid() && |g.unread| < n
    ensures g1.Valid() && (u.Returned? && u.value != EOF ==> g1.unread != [])
    ensures Gets(g, n) <==> u.Returned? && (u.value == EOF || Gets(g1, n - |g.unread|))
    ensures Xsgetn(g, n).2.Returned? <==> u.Returned? && (u.value == EOF || Xsgetn(g1, n - |g.unread|).2.Returned?)
  {
    var g0 := g.(unread := []);
    hide Xsgetn, Underflow, Gets;
    g1, u := Underflow(g0).0, Underflow(g0).1;
    GetsStep(g, n, g0, g1, u);
    if u.Returned? {
      XsgetnParts(g, n, g0, g1, u);
    }
  }

  /** `xsgetn` returns exactly when all of them do. */
  lemma {:induction false} XsgetnReturns(g: GetArea, n: nat)
    requires g.Valid()
    ensures Xsgetn(g, n).2.Returned? <==> Gets(g, n)
    decreases n, if g.unread == [] then 1 else 0
  {
    hide *;
    if n <= |g.unread| {
      GetsAtOnce(g, n);
    } else {
      var g1, u := GetsRefill(g, n);
      if u.Returned? && u.value != EOF {
        XsgetnReturns(g1, n - |g.unread|);
      }
    }
  }

  /** After the shutdown there is nothing to get. */
  lemma ShutDownAnswers(g: GetArea, n: nat)
    requires g.Valid() && g.cap == 0
    ensures Underflow(g) == Uflow(g) == (g, Returned(EOF))
    ensures Xsgetn(g, n) == (g, [], Returned(0))
  {
    assert g.unread == [] && g.(unread := []) == g;
  }

  // ---------------------------------------------------------------------------------------------
  // A system that delivers what there is
  // ---------------------------------------------------------------------------------------------

  /** Answers enough for `n` reads, none of them a failure, a timeout or an out-of-band byte. */
  ghost predicate Willing(k: Incoming, rtmo: int, oob: bool, n: nat) {
    && |k.refills| >= n && (forall i :: 0 <= i < |k.refills| ==> k.refills[i].Moves?)
    && (rtmo != -1 ==> |k.readable| >= n && forall i :: 0 <= i < |k.readable| ==> k.readable[i] == Yes)
    && (oob ==> |k.marks| >= n && forall i :: 0 <= i < |k.marks| ==> k.marks[i] == No)
  }

  lemma ReadWilling(k: Incoming, rtmo: int, oob: bool, len: nat, n: nat)
    requires Willing(k, rtmo, oob, n) && n > 0
    ensures var (k1, r) := Read(k, rtmo, oob, len);
            && r.Got? && Willing(k1, rtmo, oob, n - 1)
            && (len > 0 && k.data != [] ==> r.bytes != [])
  {
    AdmitWilling(k, rtmo, oob, n);
    hide Admit;
    assert k.refills[0].Moves?;
  }

  /** A get area over such a system, with answers for every byte to come and `n` more. */
  ghost predicate Able(g: GetArea, n: nat) {
    g.Valid() && g.cap > 0 && Willing(g.inc, g.rtmo, g.oob, |g.inc.data| + n)
  }

  lemma UnderflowAble(g: GetArea, n: nat)
    requires Able(g, n + 1)
    ensures var (g1, u) := Underflow(g);
            && u.Returned?
            && (if u.value == EOF then Able(g1, n) else Able(g1, n + 1))
  {
    hide Read;
    if g.unread == [] {
      ReadWilling(g.inc, g.rtmo, g.oob, g.cap, |g.inc.data| + n + 1);
      var (k, r) := Read(g.inc, g.rtmo, g.oob, g.cap);
      assert |r.bytes| + |k.data| == |g.inc.data|;
      WillingLess(k, g.rtmo, g.oob, |g.inc.data| + n, |k.data| + if r.bytes == [] then n else n + 1);
      hide Willing;
    }
  }

  lemma WillingLess(k: Incoming, rtmo: int, oob: bool, n: nat, m: nat)
    requires Willing(k, rtmo, oob, n) && m <= n
    ensures Willing(k, rtmo, oob, m)
  {
  }

  lemma AbleIsValid(g: GetArea, n: nat)
    requires Able(g, n)
    ensures g.Valid() && g.cap > 0
  {
  }

  lemma AbleAnyBuffer(g: GetArea, n: nat, m: nat, unread: seq<byte>)
    requires Able(g, n) && m <= n && |unread| <= g.cap
    ensures Able(g.(unread := unread), m)
  {
  }

  lemma XsgetnParts(g: GetArea, n: nat, g0: GetArea, g1: GetArea, u: Call)
    requires g.Valid() && |g.unread| < n && g0 == g.(unread := []) && (g1, u) == Underflow(g0) && u.Returned?
    ensures u.value == EOF ==> Xsgetn(g, n).0 == g1 && Xsgetn(g, n).2.Returned?
    ensures u.value != EOF ==>
              && Xsgetn(g, n).0 == Xsgetn(g1, n - |g.unread|).0
              && (Xsgetn(g, n).2.Returned? <==> Xsgetn(g1, n - |g.unread|).2.Returned?)
  {
    XsgetnUnfold(g, n, g1, u);
    hide Xsgetn, Underflow;
  }

  lemma XsgetnBuffered(g: GetArea, count: nat, n: nat)
    requires Able(g, n + 1) && count <= |g.unread|
    ensures g.Valid() && Xsgetn(g, count).2.Returned? && Able(Xsgetn(g, count).0, n)
  {
    AbleAnyBuffer(g, n + 1, n, g.unread[count..]);
  }

  lemma RefillAble(g: GetArea, count: nat, n: nat) returns (g1: GetArea, u: Call)
    requires Able(g, n + 1) && count > |g.unread|
    ensures g.Valid() && g1.Valid() && u.Returned?
    ensures u.value == EOF ==> Xsgetn(g, count).2.Returned? && Xsgetn(g, count).0 == g1 && Able(g1, n)
    ensures u.value != EOF ==>
              && g1.unread != [] && Able(g1, n + 1)
              && Xsgetn(g, count).0 == Xsgetn(g1, count - |g.unread|).0
              && (Xsgetn(g, count).2.Returned? <==> Xsgetn(g1, count - |g.unread|).2.Returned?)
  {
    AbleIsValid(g, n + 1);
    var g0 := g.(unread := []);
    AbleAnyBuffer(g, n + 1, n + 1, []);
    UnderflowAble(g0, n);
    hide Xsgetn, Underflow, Able;
    g1, u := Underflow(g0).0, Underflow(g0).1;
    XsgetnParts(g, count, g0, g1, u);
  }

  lemma {:induction false} XsgetnAble(g: GetArea, count: nat, n: nat)
    requires g.Valid() && Able(g, n + 1)
    ensures Xsgetn(g, count).2.Returned? && Able(Xsgetn(g, count).0, n)
    decreases count, if g.unread == [] then 1 else 0
  {
    hide *;
    if count <= |g.unread| {
      XsgetnBuffered(g, count, n);
    } else {
      var g1, u := RefillAble(g, count, n);
      if u.value != EOF {
        XsgetnAble(g1, count - |g.unread|, n);
      }
    }
  }

  lemma ApplyAble(g: GetArea, op: GetOp, n: nat)
    requires Able(g, n + 1)
    ensures g.Valid() && Apply(g, op).2.Returned? && Able(Apply(g, op).0, n)
  {
    AbleIsValid(g, n + 1);
    match op
    case GetBlock(count) => XsgetnAble(g, count, n);
    case GetChar =>
      UnderflowAble(g, n);
      var (g1, u) := Underflow(g);
      hide Underflow;
      if u.value != EOF {
        AbleAnyBuffer(g1, n + 1, n, g1.unread[1..]);
      }
  }

  /** Over a system that delivers what there is, no call of a run throws. */
  lemma {:induction false} RunReturns(g: GetArea, ops: seq<GetOp>, n: nat)
    requires Able(g, |ops| + n)
    ensures g.Valid() && AllReturned(Run(g, ops).2) && Able(Run(g, ops).0, n)
    decreases |ops|
  {
    AbleIsValid(g, |ops| + n);
    hide Able, Apply;
    if ops != [] {
      ApplyAble(g, ops[0], |ops[1..]| + n);
      var (g1, b, c) := Apply(g, ops[0]);
      RunReturns(g1, ops[1..], n);
      assert AllReturned([c] + Run(g1, ops[1..]).2);
    }
  }
}
