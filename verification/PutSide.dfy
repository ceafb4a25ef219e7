/**
 The sending half of a buffered socket as a value: what `write`, `sync`, `overflow`, `sputc` and
 `xsputn` do to the put area and to the bytes on the wire.  The methods of `SockStream.SockBuf` are
 proved equal to these functions; the lemmas here say what the functions mean: the put area and the
 wire together are a first-in first-out queue.
 */
module PutSide {
  import opened Octets
  import opened Kernel

  datatype WriteResult = Wrote(n: nat) | Stopped(wlen: nat) | Refused(error: Error)

  /** `cap` is the size of the put buffer, 0 once the sending side is shut down; `stmo` is the send timeout. */
  datatype PutArea = PutArea(cap: nat, pending: seq<byte>, out: Outgoing, stmo: int) {
    predicate Valid() {
      |pending| <= cap
    }

    /** Everything handed over so far: on the wire, then still in the buffer. */
    function Total(): seq<byte> {
      out.sent + pending
    }
  }

  /** The loop that keeps calling `::write` until all bytes are accepted or a call fails. */
  function WriteAll(k: Outgoing, data: seq<byte>): (r: (Outgoing, nat))
    ensures r.1 <= |data|
    ensures r.0.sent == k.sent + data[..r.1]
    ensures r.0.writable == k.writable
    decreases |data|
  {
    if data == [] then (k, 0)
    else
      var (k1, n) := SysWrite(k, data);
      if n == -1 then (k1, 0)
      else
        var (k2, m) := WriteAll(k1, data[n..]);
        assert data[..n] + data[n..][..m] == data[..n + m];
        (k2, n + m)
  }

  lemma WriteAllStep(k: Outgoing, data: seq<byte>)
    ensures data == [] ==> WriteAll(k, data) == (k, 0)
    ensures data != [] ==>
              var (k1, n) := SysWrite(k, data);
              if n == -1 then WriteAll(k, data) == (k1, 0)
              else
                && WriteAll(k, data).0 == WriteAll(k1, data[n..]).0
                && WriteAll(k, data).1 == n + WriteAll(k1, data[n..]).1
  {
  }

  /** The loop has sent `wlen` bytes and has the rest before it. */
  ghost predicate Unsent(k0: Outgoing, data: seq<byte>, k: Outgoing, wlen: nat) {
    && wlen <= |data|
    && WriteAll(k0, data).0 == WriteAll(k, data[wlen..]).0
    && WriteAll(k0, data).1 == wlen + WriteAll(k, data[wlen..]).1
  }

  lemma UnsentStart(k0: Outgoing, data: seq<byte>)
    ensures Unsent(k0, data, k0, 0)
  {
    assert data[0..] == data;
  }

  /** One turn of the loop. */
  lemma UnsentStep(k0: Outgoing, data: seq<byte>, k: Outgoing, wlen: nat)
    requires Unsent(k0, data, k, wlen) && wlen < |data|
    ensures var (k1, n) := SysWrite(k, data[wlen..]);
            if n == -1 then WriteAll(k0, data) == (k1, wlen)
            else wlen + n <= |data| && Unsent(k0, data, k1, wlen + n)
  {
    hide WriteAll, SysWrite;
    WriteAllStep(k, data[wlen..]);
    var (k1, n) := SysWrite(k, data[wlen..]);
    if n != -1 {
      SuffixOfSuffix(data, wlen, n);
    }
  }

  lemma UnsentDone(k0: Outgoing, data: seq<byte>, k: Outgoing, wlen: nat)
    requires Unsent(k0, data, k, wlen) && wlen == |data|
    ensures WriteAll(k0, data) == (k, wlen)
  {
    WriteAllStep(k, data[wlen..]);
  }

  function Write(k: Outgoing, stmo: int, data: seq<byte>): (Outgoing, WriteResult) {
    if stmo != -1 && Head(k.writable, Broken) != Yes then
      (k.(writable := Tail(k.writable)), Refused(if Head(k.writable, Broken) == No then TimedOut else OsError))
    else
      var k0 := if stmo != -1 then k.(writable := Tail(k.writable)) else k;
      var (k1, n) := WriteAll(k0, data);
      (k1, if n == |data| then Wrote(n) else Stopped(n))
  }

  /** `sync`: on a partial write the unsent suffix moves to the front of the buffer. */
  function Flush(p: PutArea): (r: (PutArea, Call))
    ensures p.Valid() ==> r.0.Valid()
    ensures r.0.cap == p.cap && r.0.stmo == p.stmo
    ensures r.0.Total() == p.Total()
    ensures r.1.Returned? ==> r.1.value == 0 && r.0.pending == []
    ensures r.1.Threw? ==> r.0.pending != []
  {
    if p.pending == [] then (p, Returned(0))
    else
      var (k, w) := Write(p.out, p.stmo, p.pending);
      match w
      case Wrote(n) =>
        assert p.pending[..n] == p.pending;
        (p.(pending := [], out := k), Returned(0))
      case Stopped(n) =>
        assert p.pending[..n] + p.pending[n..] == p.pending;
        (p.(pending := p.pending[n..], out := k), Threw(OsError))
      case Refused(e) =>
        (p.(out := k), Threw(e))
  }

  function ToByte(c: int): byte {
    (c % 256) as byte
  }

  function Overflow(p: PutArea, c: int): (r: (PutArea, Call))
    requires p.Valid()
    ensures r.0.Valid() && r.0.cap == p.cap && r.0.stmo == p.stmo
  {
    if p.cap == 0 then (p, Returned(EOF))
    else if c == EOF then Flush(p)
    else
      var (p1, r) := if |p.pending| == p.cap then Flush(p) else (p, Returned(0));
      if r.Threw? then (p1, r)
      else (p1.(pending := p1.pending + [ToByte(c)]), Returned(c))
  }

  /** The standard `streambuf::sputc`: store when there is room, otherwise `overflow`. */
  function Sputc(p: PutArea, c: byte): (r: (PutArea, Call))
    requires p.Valid()
    ensures r.0.Valid() && r.0.cap == p.cap && r.0.stmo == p.stmo
  {
    if |p.pending| < p.cap then (p.(pending := p.pending + [c]), Returned(c as int))
    else Overflow(p, c as int)
  }

  /** `sputc` for each byte in turn, up to the first throw. */
  function PutChars(p: PutArea, s: seq<byte>): (r: (PutArea, Call))
    requires p.Valid()
    ensures r.0.Valid() && r.0.cap == p.cap && r.0.stmo == p.stmo
    decreases |s|
  {
    if s == [] then (p, Returned(0))
    else
      var (p1, r) := Sputc(p, s[0]);
      if r.Threw? then (p1, r) else PutChars(p1, s[1..])
  }

  /** `xsputn` of more than fits: the buffer is filled with the first part and flushed. */
  function FillUp(p: PutArea, s: seq<byte>): (r: (PutArea, Call))
    requires p.Valid() && |s| > p.cap - |p.pending|
    ensures r.0.Valid() && r.0.cap == p.cap && r.0.stmo == p.stmo
    ensures r.1.Returned? && r.1.value != EOF ==> p.cap > 0 && r.0.pending == []
  {
    Overflow(p.(pending := p.pending + s[..p.cap - |p.pending|]), EOF)
  }

  function Xsputn(p: PutArea, s: seq<byte>): (r: (PutArea, Call))
    requires p.Valid()
    ensures r.0.Valid() && r.0.cap == p.cap && r.0.stmo == p.stmo
    decreases |s|, |p.pending|
  {
    var wval := p.cap - |p.pending|;
    if |s| <= wval then (p.(pending := p.pending + s), Returned(|s|))
    else
      var (p1, o) := FillUp(p, s);
      if o.Threw? then (p1, o)
      else if o.value == EOF then (p1, Returned(wval))
      else
        var (p2, r) := Xsputn(p1, s[wval..]);
        (p2, if r.Threw? then r else Returned(wval + r.value))
  }

  lemma XsputnUnfold(p: PutArea, s: seq<byte>, w: nat, rest: seq<byte>)
    requires p.Valid() && w == p.cap - |p.pending| && |s| > w && rest == s[w..]
    ensures FillUp(p, s).1.Threw? ==> Xsputn(p, s) == FillUp(p, s)
    ensures FillUp(p, s).1 == Returned(EOF) ==> Xsputn(p, s) == (FillUp(p, s).0, Returned(w))
    ensures FillUp(p, s).1.Returned? && FillUp(p, s).1.value != EOF ==>
              var (p2, r) := Xsputn(FillUp(p, s).0, rest);
              Xsputn(p, s) == (p2, if r.Threw? then r else Returned(w + r.value))
  {
    hide FillUp;
  }

  lemma XsputnFits(p: PutArea, s: seq<byte>)
    requires p.Valid() && |s| <= p.cap - |p.pending|
    ensures Xsputn(p, s) == (p.(pending := p.pending + s), Returned(|s|))
  {
  }

  // ---------------------------------------------------------------------------------------------
  // How much one write loop gets through
  // ---------------------------------------------------------------------------------------------

  /** The bytes the system offers to take before its first failure. */
  function Offered(writes: seq<Reply>): nat {
    if writes == [] || writes[0].Fails? then 0 else 1 + writes[0].extra + Offered(writes[1..])
  }

  /** The write loop moves exactly the smaller of what it has and what the system offers before failing. */
  lemma {:induction false} WriteAllAmount(k: Outgoing, data: seq<byte>)
    ensures WriteAll(k, data).1 == if |data| <= Offered(k.writes) then |data| else Offered(k.writes)
    decreases |data|
  {
    if data != [] && k.writes != [] && k.writes[0].Moves? {
      var (k1, n) := SysWrite(k, data);
      WriteAllAmount(k1, data[n..]);
    }
  }

  /** `sync` succeeds if and only if the descriptor is ready and the system takes every pending byte. */
  lemma FlushSucceeds(p: PutArea)
    requires p.pending != []
    ensures Flush(p).1.Returned? <==>
              && (p.stmo == -1 || Head(p.out.writable, Broken) == Yes)
              && |p.pending| <= Offered(p.out.writes)
  {
    var k0 := if p.stmo != -1 then p.out.(writable := Tail(p.out.writable)) else p.out;
    WriteAllAmount(k0, p.pending);
  }

  // ---------------------------------------------------------------------------------------------
  // One operation on the queue
  // ---------------------------------------------------------------------------------------------

  /** `after` is `before` with some first part of `s` put at the end, all of it when the call returned. */
  ghost predicate Appended(before: PutArea, s: seq<byte>, call: Call, after: PutArea) {
    exists k: nat ::
      && k <= |s|
      && after.Total() == before.Total() + s[..k]
      && (call.Returned? ==> k == |s|)
  }

  lemma AppendedSome(before: PutArea, s: seq<byte>, call: Call, after: PutArea, k: nat)
    requires k <= |s| && after.Total() == before.Total() + s[..k]
    requires call.Returned? ==> k == |s|
    ensures Appended(before, s, call, after)
  {
  }

  lemma AppendedThen(p: PutArea, s: seq<byte>, w: nat, p1: PutArea, call: Call, q: PutArea)
    requires w <= |s| && p1.Total() == p.Total() + s[..w]
    requires Appended(p1, s[w..], call, q)
    ensures Appended(p, s, call, q)
  {
    var t := s[w..];
    var k: nat :| k <= |t| && q.Total() == p1.Total() + t[..k] && (call.Returned? ==> k == |t|);
    SliceJoin(s, w, k);
    Assoc(p.Total(), s[..w], t[..k]);
    AppendedSome(p, s, call, q, w + k);
  }

  lemma SputcAppends(p: PutArea, c: byte)
    requires p.Valid() && p.cap > 0
    ensures Appended(p, [c], Sputc(p, c).1, Sputc(p, c).0)
    ensures Sputc(p, c).1.Threw? ==> Sputc(p, c).0.Total() == p.Total()
    ensures Sputc(p, c).1.Returned? ==> Sputc(p, c).1.value == c as int
  {
    var (p1, r) := Sputc(p, c);
    if r.Threw? {
      AppendedSome(p, [c], r, p1, 0);
    } else {
      assert ToByte(c as int) == c;
      AppendedSome(p, [c], r, p1, 1);
    }
  }

  lemma {:induction false} PutCharsAppends(p: PutArea, s: seq<byte>)
    requires p.Valid() && p.cap > 0
    ensures Appended(p, s, PutChars(p, s).1, PutChars(p, s).0)
    decreases |s|
  {
    var (q, r) := PutChars(p, s);
    if s == [] {
      AppendedSome(p, s, r, q, 0);
    } else {
      var (p1, r1) := Sputc(p, s[0]);
      SputcAppends(p, s[0]);
      if r1.Threw? {
        AppendedSome(p, s, r, q, 0);
      } else {
        assert p1.Total() == p.Total() + [s[0]];
        PutCharsAppends(p1, s[1..]);
        AppendedThen(p, s, 1, p1, r, q);
      }
    }
  }

  lemma {:induction false} PutCharsSplit(p: PutArea, a: seq<byte>, b: seq<byte>)
    requires p.Valid()
    ensures PutChars(p, a + b) ==
              if PutChars(p, a).1.Threw? then PutChars(p, a) else PutChars(PutChars(p, a).0, b)
    decreases |a|
  {
    if a == [] {
      assert a + b == b;
    } else {
      assert (a + b)[1..] == a[1..] + b;
      var (p1, r) := Sputc(p, a[0]);
      if r.Returned? {
        PutCharsSplit(p1, a[1..], b);
      }
    }
  }

  /** `xsputn` appends its block, whole when it returns, and then it returns the length of the block. */
  lemma {:induction false} XsputnAppends(p: PutArea, s: seq<byte>)
    requires p.Valid() && p.cap > 0
    ensures Appended(p, s, Xsputn(p, s).1, Xsputn(p, s).0)
    ensures Xsputn(p, s).1.Returned? ==> Xsputn(p, s).1.value == |s|
    decreases |s|, |p.pending|
  {
    var (q, r) := Xsputn(p, s);
    var wval := p.cap - |p.pending|;
    if |s| <= wval {
      assert s[..|s|] == s;
      AppendedSome(p, s, r, q, |s|);
    } else {
      var p0 := p.(pending := p.pending + s[..wval]);
      var (p1, o) := Overflow(p0, EOF);
      assert p0.Total() == p.Total() + s[..wval];
      if o.Threw? {
        AppendedSome(p, s, r, q, wval);
      } else {
        XsputnAppends(p1, s[wval..]);
        AppendedThen(p, s, wval, p1, r, q);
      }
    }
  }

  lemma PutCharsNone(p: PutArea)
    requires p.Valid()
    ensures PutChars(p, []) == (p, Returned(0))
  {
  }

  lemma PutCharsCons(p: PutArea, c: byte, s: seq<byte>)
    requires p.Valid()
    ensures var (p1, r) := Sputc(p, c);
            PutChars(p, [c] + s) == if r.Threw? then (p1, r) else PutChars(p1, s)
  {
    assert ([c] + s)[1..] == s;
  }

  /** Several blocks one after the other, up to the first throw, and then `sync`. */
  function Send(p: PutArea, blocks: seq<seq<byte>>): (r: (PutArea, Call))
    requires p.Valid()
    ensures r.0.Valid() && r.0.cap == p.cap
    decreases |blocks|
  {
    if blocks == [] then Flush(p)
    else
      var (p1, r) := Xsputn(p, blocks[0]);
      if r.Threw? then (p1, r) else Send(p1, blocks[1..])
  }

  lemma SendNone(p: PutArea)
    requires p.Valid()
    ensures Send(p, []) == Flush(p)
  {
  }

  lemma SendCons(p: PutArea, b: seq<byte>, rest: seq<seq<byte>>)
    requires p.Valid()
    ensures var (p1, r) := Xsputn(p, b);
            Send(p, [b] + rest) == if r.Threw? then (p1, r) else Send(p1, rest)
  {
    assert ([b] + rest)[1..] == rest;
  }

  /** When nothing throws, all blocks are on the wire and nothing is pending. */
  lemma {:induction false} SendDelivers(p: PutArea, blocks: seq<seq<byte>>)
    requires p.Valid() && p.cap > 0
    requires Send(p, blocks).1.Returned?
    ensures Send(p, blocks).0.pending == []
    ensures Send(p, blocks).0.out.sent == p.Total() + Concat(blocks)
    decreases |blocks|
  {
    hide Flush, Xsputn;
    if blocks == [] {
      var q := Flush(p).0;
      assert q.Total() == q.out.sent;
    } else {
      var (p1, r) := Xsputn(p, blocks[0]);
      XsputnAppends(p, blocks[0]);
      AppendedAll(p, blocks[0], r, p1);
      SendDelivers(p1, blocks[1..]);
      Assoc(p.Total(), blocks[0], Concat(blocks[1..]));
    }
  }

  lemma AppendedAll(before: PutArea, s: seq<byte>, call: Call, after: PutArea)
    requires Appended(before, s, call, after) && call.Returned?
    ensures after.Total() == before.Total() + s
  {
    assert s[..|s|] == s;
  }

  // ---------------------------------------------------------------------------------------------
  // Whole runs
  // ---------------------------------------------------------------------------------------------

  datatype PutOp = PutChar(c: byte) | PutBlock(s: seq<byte>) | Sync | SendTimeout(seconds: int)

  function Payload(op: PutOp): seq<byte> {
    match op
    case PutChar(c) => [c]
    case PutBlock(s) => s
    case Sync => []
    case SendTimeout(_) => []
  }

  function Apply(p: PutArea, op: PutOp): (r: (PutArea, Call))
    requires p.Valid()
    ensures r.0.Valid() && r.0.cap == p.cap
  {
    match op
    case PutChar(c) => Sputc(p, c)
    case PutBlock(s) => Xsputn(p, s)
    case Sync => Flush(p)
    case SendTimeout(wp) => (p.(stmo := if wp < 0 then -1 else wp), Returned(p.stmo))
  }

  /** A run: the caller catches what is thrown and goes on with the next operation. */
  function Run(p: PutArea, ops: seq<PutOp>): (r: (PutArea, seq<Call>))
    requires p.Valid()
    ensures r.0.Valid() && r.0.cap == p.cap && |r.1| == |ops|
    decreases |ops|
  {
    if ops == [] then (p, [])
    else
      var (p1, c) := Apply(p, ops[0]);
      var (p2, cs) := Run(p1, ops[1..]);
      (p2, [c] + cs)
  }

  /** A plain queue that takes some first part of each payload, and all of it when the call returned. */
  ghost predicate FifoRun(start: seq<byte>, ops: seq<PutOp>, calls: seq<Call>, end: seq<byte>)
    requires |ops| == |calls|
    decreases |ops|
  {
    if ops == [] then end == start
    else
      exists k: nat ::
        && k <= |Payload(ops[0])|
        && (calls[0].Returned? ==> k == |Payload(ops[0])|)
        && FifoRun(start + Payload(ops[0])[..k], ops[1..], calls[1..], end)
  }

  lemma ApplyAppends(p: PutArea, op: PutOp)
    requires p.Valid() && p.cap > 0
    ensures Appended(p, Payload(op), Apply(p, op).1, Apply(p, op).0)
  {
    var (q, r) := Apply(p, op);
    match op
    case PutChar(c) => SputcAppends(p, c);
    case PutBlock(s) => XsputnAppends(p, s);
    case Sync => AppendedSome(p, [], r, q, 0);
    case SendTimeout(_) => AppendedSome(p, [], r, q, 0);
  }

  /**
   Over every run, with any partial writes, failures and timeouts, the wire followed by the buffer is
   the queue: nothing lost, nothing doubled, nothing reordered.
   */
  lemma {:induction false} RunRefinesFifo(p: PutArea, ops: seq<PutOp>)
    requires p.Valid() && p.cap > 0
    ensures FifoRun(p.Total(), ops, Run(p, ops).1, Run(p, ops).0.Total())
    decreases |ops|
  {
    if ops != [] {
      var (p1, c) := Apply(p, ops[0]);
      var s := Payload(ops[0]);
      ApplyAppends(p, ops[0]);
      var k: nat :| k <= |s| && p1.Total() == p.Total() + s[..k] && (c.Returned? ==> k == |s|);
      RunRefinesFifo(p1, ops[1..]);
      var (p2, cs) := Run(p1, ops[1..]);
      assert Run(p, ops).1[1..] == cs;
      assert FifoRun(p.Total() + s[..k], ops[1..], cs, p2.Total());
    }
  }

  function Payloads(ops: seq<PutOp>): seq<byte> {
    if ops == [] then [] else Payload(ops[0]) + Payloads(ops[1..])
  }

  ghost predicate AllReturned(calls: seq<Call>) {
    forall i :: 0 <= i < |calls| ==> calls[i].Returned?
  }

  lemma {:induction false} FifoRunComplete(start: seq<byte>, ops: seq<PutOp>, calls: seq<Call>, end: seq<byte>)
    requires |ops| == |calls| && FifoRun(start, ops, calls, end) && AllReturned(calls)
    ensures end == start + Payloads(ops)
    decreases |ops|
  {
    if ops != [] {
      var s := Payload(ops[0]);
      assert calls[0].Returned?;
      assert s[..|s|] == s;
      forall i | 0 <= i < |calls[1..]| ensures calls[1..][i].Returned? {
        assert calls[1..][i] == calls[i + 1];
      }
      FifoRunComplete(start + s, ops[1..], calls[1..], end);
    }
  }

  lemma {:induction false} RunSplit(p: PutArea, a: seq<PutOp>, b: seq<PutOp>)
    requires p.Valid()
    ensures Run(p, a + b).0 == Run(Run(p, a).0, b).0
    ensures Run(p, a + b).1 == Run(p, a).1 + Run(Run(p, a).0, b).1
    decreases |a|
  {
    if a == [] {
      assert a + b == b;
    } else {
      assert (a + b)[1..] == a[1..] + b;
      RunSplit(Apply(p, a[0]).0, a[1..], b);
    }
  }

  /**
   A run without failures that ends in a sync puts exactly the payloads on the wire, in order: the
   outcome does not depend on the buffer size, the timeouts or the way the system split the writes.
   */
  lemma CleanRunDelivers(p: PutArea, ops: seq<PutOp>)
    requires p.Valid() && p.cap > 0
    requires AllReturned(Run(p, ops + [Sync]).1)
    ensures Run(p, ops + [Sync]).0.pending == []
    ensures Run(p, ops + [Sync]).0.out.sent == p.Total() + Payloads(ops)
  {
    hide Run, FifoRun, Flush, Payloads;
    var all := ops + [Sync];
    var (f, calls) := Run(p, all);
    RunRefinesFifo(p, all);
    FifoRunComplete(p.Total(), all, calls, f.Total());
    PayloadsSplit(ops, [Sync]);
    RunSplit(p, ops, [Sync]);
    PayloadsOfSync();
    RunOne(Run(p, ops).0, Sync);
    assert calls[|ops|].Returned?;
    assert f.Total() == f.out.sent;
  }

  lemma RunOne(p: PutArea, op: PutOp)
    requires p.Valid()
    ensures Run(p, [op]) == (Apply(p, op).0, [Apply(p, op).1])
  {
    assert [op][1..] == [];
    var (q, c) := Apply(p, op);
    assert Run(q, []) == (q, []);
    assert [c] + [] == [c];
  }

  lemma PayloadsOfSync()
    ensures Payloads([Sync]) == []
  {
    assert [Sync][1..] == [];
  }

  lemma {:induction false} PayloadsSplit(a: seq<PutOp>, b: seq<PutOp>)
    ensures Payloads(a + b) == Payloads(a) + Payloads(b)
  {
    if a == [] {
      assert a + b == b;
    } else {
      assert (a + b)[1..] == a[1..] + b;
      PayloadsSplit(a[1..], b);
    }
  }

  /** The area after `n` calls of `sync`, whatever each of them did. */
  function FlushTimes(p: PutArea, n: nat): PutArea {
    if n == 0 then p else Flush(FlushTimes(p, n - 1)).0
  }

  /**
   Any number of failed syncs and then a successful one send every pending byte exactly once; until
   then exactly the unsent suffix is at the front of the buffer.
   */
  lemma {:induction false} RecoveryAfterFailedFlushes(p: PutArea, n: nat)
    ensures FlushTimes(p, n).Total() == p.Total()
    ensures |FlushTimes(p, n).pending| <= |p.pending|
    ensures FlushTimes(p, n).pending == p.pending[|p.pending| - |FlushTimes(p, n).pending|..]
    ensures Flush(FlushTimes(p, n)).1.Returned? ==>
              && Flush(FlushTimes(p, n)).0.pending == []
              && Flush(FlushTimes(p, n)).0.out.sent == p.out.sent + p.pending
  {
    hide Flush;
    if n > 0 {
      var q := FlushTimes(p, n - 1);
      RecoveryAfterFailedFlushes(p, n - 1);
      FlushKeepsSuffix(q);
      SuffixOfSuffix(p.pending, |p.pending| - |q.pending|, |q.pending| - |Flush(q).0.pending|);
    }
    var f := Flush(FlushTimes(p, n)).0;
    assert f.pending == [] ==> f.Total() == f.out.sent;
  }

  lemma FlushKeepsSuffix(p: PutArea)
    ensures |Flush(p).0.pending| <= |p.pending|
    ensures Flush(p).0.pending == p.pending[|p.pending| - |Flush(p).0.pending|..]
    ensures Flush(p).0.out.sent == p.out.sent + p.pending[..|p.pending| - |Flush(p).0.pending|]
  {
  }

  /** Once the sending side is shut down nothing reaches the wire any more. */
  lemma {:induction false} ShutDownAreaIsInert(p: PutArea, ops: seq<PutOp>)
    requires p.Valid() && p.cap == 0
    ensures Run(p, ops).0.out == p.out && Run(p, ops).0.pending == []
    decreases |ops|
  {
    if ops != [] {
      ShutDownAreaIsInert(Apply(p, ops[0]).0, ops[1..]);
    }
  }

  // ---------------------------------------------------------------------------------------------
  // When the calls return
  // ---------------------------------------------------------------------------------------------

  /**
   `overflow` of a byte returns exactly when there is room or the system takes all that is in the buffer; then the byte
   is stored, behind what was there or alone.  When it throws, it is the flush that throws.
   */
  lemma OverflowReturns(p: PutArea, c: int)
    requires p.Valid() && p.cap > 0 && c != EOF
    ensures Overflow(p, c).1 == Returned(c) <==>
              |p.pending| < p.cap ||
              ((p.stmo == -1 || Head(p.out.writable, Broken) == Yes) && p.cap <= Offered(p.out.writes))
    ensures |p.pending| < p.cap ==> Overflow(p, c).0 == p.(pending := p.pending + [ToByte(c)])
    ensures |p.pending| == p.cap && Overflow(p, c).1.Returned? ==>
              Overflow(p, c).0.out.sent == p.out.sent + p.pending && Overflow(p, c).0.pending == [ToByte(c)]
    ensures Overflow(p, c).1.Threw? ==> Overflow(p, c) == Flush(p)
    ensures Overflow(p, EOF) == Flush(p)
  {
    if |p.pending| == p.cap {
      FlushSucceeds(p);
      if Flush(p).1.Returned? {
        FlushSendsAll(p);
      }
    }
  }

  lemma FlushSendsAll(p: PutArea)
    requires Flush(p).1.Returned?
    ensures Flush(p).0.out.sent == p.out.sent + p.pending
  {
    assert Flush(p).0.Total() == Flush(p).0.out.sent;
  }

  /** Which error `sync` throws: the timeout exactly when it has one and the descriptor is not ready in time. */
  lemma FlushErrors(p: PutArea)
    requires Flush(p).1.Threw?
    ensures Flush(p).1.error == TimedOut <==> p.stmo != -1 && Head(p.out.writable, Broken) == No
    ensures Flush(p).1.error == TimedOut || Flush(p).1.error == OsError
  {
  }

  /** `sendtimeout` gives back the old setting; a negative one means none; no byte moves. */
  lemma TimeoutSet(p: PutArea, seconds: int)
    requires p.Valid()
    ensures var (q, r) := Apply(p, SendTimeout(seconds));
            && r == Returned(p.stmo)
            && (q.stmo == -1 <==> seconds < 0) && (seconds >= 0 ==> q.stmo == seconds)
            && q.pending == p.pending && q.out == p.out
  {
  }

  /** Each flush that `xsputn` needs succeeds. */
  predicate Puts(p: PutArea, s: seq<byte>)
    requires p.Valid() && p.cap > 0
    decreases |s|, |p.pending|
  {
    var w := p.cap - |p.pending|;
    |s| <= w ||
    (var (q, r) := Flush(p.(pending := p.pending + s[..w])); r.Returned? && Puts(q, s[w..]))
  }

  lemma {:induction false} XsputnReturns(p: PutArea, s: seq<byte>)
    requires p.Valid() && p.cap > 0
    ensures Xsputn(p, s).1.Returned? <==> Puts(p, s)
    decreases |s|, |p.pending|
  {
    var w := p.cap - |p.pending|;
    if |s| <= w {
      XsputnFits(p, s);
    } else {
      XsputnUnfold(p, s, w, s[w..]);
      FillUpIsFlush(p, s);
      hide Xsputn, FillUp, Flush;
      if FillUp(p, s).1.Returned? {
        XsputnReturns(FillUp(p, s).0, s[w..]);
      }
    }
  }

  lemma FillUpIsFlush(p: PutArea, s: seq<byte>)
    requires p.Valid() && p.cap > 0 && |s| > p.cap - |p.pending|
    ensures FillUp(p, s) == Flush(p.(pending := p.pending + s[..p.cap - |p.pending|]))
    ensures FillUp(p, s).1.Returned? ==> FillUp(p, s).1.value == 0
  {
    hide Flush;
  }

  /** After the shutdown the calls answer with EOF, with no byte, or with nothing done. */
  lemma ShutDownAnswers(p: PutArea, c: int, s: seq<byte>)
    requires p.Valid() && p.cap == 0
    ensures Overflow(p, c) == (p, Returned(EOF))
    ensures Xsputn(p, s) == (p, Returned(0))
    ensures Flush(p) == (p, Returned(0))
  {
    assert p.pending == [];
    if s != [] {
      assert s[0..] == s;
      XsputnUnfold(p, s, 0, s);
      assert p.(pending := p.pending + s[..0]) == p;
    } else {
      assert p.(pending := p.pending + []) == p;
    }
  }

  // ---------------------------------------------------------------------------------------------
  // A system that takes what it is given
  // ---------------------------------------------------------------------------------------------

  /** Answers enough for `n` bytes, none of them a failure; and ready as often, when timeouts are set. */
  ghost predicate Willing(k: Outgoing, n: nat, timed: bool) {
    && |k.writes| >= n && (forall i :: 0 <= i < |k.writes| ==> k.writes[i].Moves?)
    && (timed ==> |k.writable| >= n && forall i :: 0 <= i < |k.writable| ==> k.writable[i] == Yes)
  }

  lemma WillingLess(k: Outgoing, n: nat, m: nat, timed: bool)
    requires Willing(k, n, timed) && m <= n
    ensures Willing(k, m, timed)
  {
  }

  lemma WillingStep(k: Outgoing, data: seq<byte>, n: nat)
    requires Willing(k, n, false) && data != [] && |data| <= n
    ensures var (k1, m) := SysWrite(k, data); 0 < m <= |data| && Willing(k1, n - m, false)
  {
    assert k.writes[0].Moves?;
  }

  lemma {:induction false} WriteAllWilling(k: Outgoing, data: seq<byte>, n: nat)
    requires Willing(k, n, false) && |data| <= n
    ensures WriteAll(k, data).1 == |data| && Willing(WriteAll(k, data).0, n - |data|, false)
    decreases |data|
  {
    WriteAllStep(k, data);
    hide WriteAll, SysWrite, Willing;
    if data != [] {
      WillingStep(k, data, n);
      var (k1, m) := SysWrite(k, data);
      WriteAllWilling(k1, data[m..], n - m);
    }
  }

  lemma WriteWilling(k: Outgoing, stmo: int, data: seq<byte>, n: nat, timed: bool)
    requires Willing(k, n, timed) && 0 < |data| <= n && (stmo != -1 ==> timed)
    ensures Write(k, stmo, data).1 == Wrote(|data|) && Willing(Write(k, stmo, data).0, n - |data|, timed)
  {
    var k0 := if stmo == -1 then k else k.(writable := Tail(k.writable));
    assert stmo != -1 ==> k.writable[0] == Yes;
    assert Willing(k0, n, false);
    WriteAllWilling(k0, data, n);
  }

  /** A put area over such a system, with answers for what is pending and `n` bytes more. */
  ghost predicate Able(p: PutArea, n: nat, timed: bool) {
    p.Valid() && p.cap > 0 && Willing(p.out, |p.pending| + n, timed) && (p.stmo != -1 ==> timed)
  }

  lemma FlushAble(p: PutArea, n: nat, timed: bool)
    requires Able(p, n, timed)
    ensures Flush(p).1.Returned? && Able(Flush(p).0, n, timed)
  {
    if p.pending != [] {
      WriteWilling(p.out, p.stmo, p.pending, |p.pending| + n, timed);
    }
  }

  lemma AbleMore(p: PutArea, s: seq<byte>, n: nat, timed: bool)
    requires Able(p, |s| + n, timed) && |p.pending| + |s| <= p.cap
    ensures Able(p.(pending := p.pending + s), n, timed)
  {
  }

  lemma SputcAble(p: PutArea, c: byte, n: nat, timed: bool)
    requires Able(p, 1 + n, timed)
    ensures Sputc(p, c).1.Returned? && Able(Sputc(p, c).0, n, timed)
  {
    FlushAble(p, 1 + n, timed);
    assert ToByte(c as int) == c;
    if |p.pending| < p.cap {
      AbleMore(p, [c], n, timed);
    } else {
      AbleMore(Flush(p).0, [c], n, timed);
    }
  }

  lemma {:induction false} PutCharsAble(p: PutArea, s: seq<byte>, n: nat, timed: bool)
    requires Able(p, |s| + n, timed)
    ensures PutChars(p, s).1.Returned? && Able(PutChars(p, s).0, n, timed)
    decreases |s|
  {
    hide Sputc, Able;
    assert p.Valid() by { AbleIsValid(p, |s| + n, timed); }
    if s == [] {
      PutCharsNone(p);
    } else {
      SputcAble(p, s[0], |s[1..]| + n, timed);
      PutCharsAble(Sputc(p, s[0]).0, s[1..], n, timed);
    }
  }

  lemma AbleLess(p: PutArea, n: nat, m: nat, timed: bool)
    requires Able(p, n, timed) && m <= n
    ensures Able(p, m, timed)
  {
  }

  lemma AbleIsValid(p: PutArea, n: nat, timed: bool)
    requires Able(p, n, timed)
    ensures p.Valid() && p.cap > 0
  {
  }

  lemma FillUpAble(p: PutArea, s: seq<byte>, w: nat, rest: seq<byte>, n: nat, timed: bool)
    requires Able(p, |s| + n, timed) && w == p.cap - |p.pending| && |s| > w && rest == s[w..]
    ensures FillUp(p, s).1 == Returned(0) && Able(FillUp(p, s).0, |rest| + n, timed)
  {
    var first := s[..w];
    AbleMore(p, first, |rest| + n, timed);
    FillUpIsFlush(p, s);
    hide Flush, FillUp;
    FlushAble(p.(pending := p.pending + first), |rest| + n, timed);
  }

  lemma {:induction false} XsputnAble(p: PutArea, s: seq<byte>, n: nat, timed: bool)
    requires Able(p, |s| + n, timed)
    ensures Xsputn(p, s).1.Returned? && Able(Xsputn(p, s).0, n, timed)
    decreases |s|, |p.pending|
  {
    AbleIsValid(p, |s| + n, timed);
    var w := p.cap - |p.pending|;
    if |s| <= w {
      XsputnFits(p, s);
      AbleMore(p, s, n, timed);
    } else {
      var rest := s[w..];
      FillUpAble(p, s, w, rest, n, timed);
      XsputnUnfold(p, s, w, rest);
      hide Xsputn, Able, FillUp;
      XsputnAble(FillUp(p, s).0, rest, n, timed);
    }
  }

  lemma {:induction false} SendAble(p: PutArea, blocks: seq<seq<byte>>, n: nat, timed: bool)
    requires Able(p, |Concat(blocks)| + n, timed)
    ensures Send(p, blocks).1.Returned? && Able(Send(p, blocks).0, n, timed)
    decreases |blocks|
  {
    AbleIsValid(p, |Concat(blocks)| + n, timed);
    hide Xsputn, Flush, Able;
    if blocks == [] {
      FlushAble(p, n, timed);
    } else {
      assert |Concat(blocks)| == |blocks[0]| + |Concat(blocks[1..])|;
      XsputnAble(p, blocks[0], |Concat(blocks[1..])| + n, timed);
      SendAble(Xsputn(p, blocks[0]).0, blocks[1..], n, timed);
    }
  }

  lemma ApplyAble(p: PutArea, op: PutOp, n: nat, timed: bool)
    requires Able(p, |Payload(op)| + n, timed) && (op.SendTimeout? ==> timed)
    ensures Apply(p, op).1.Returned? && Able(Apply(p, op).0, n, timed)
  {
    AbleIsValid(p, |Payload(op)| + n, timed);
    match op
    case PutChar(c) => SputcAble(p, c, n, timed);
    case PutBlock(s) => XsputnAble(p, s, n, timed);
    case Sync => FlushAble(p, n, timed);
    case SendTimeout(_) =>
  }

  /** Over a system that takes what it is given, no call of a run throws. */
  lemma {:induction false} RunReturns(p: PutArea, ops: seq<PutOp>, n: nat, timed: bool)
    requires Able(p, |Payloads(ops)| + n, timed)
    requires timed || forall i :: 0 <= i < |ops| ==> !ops[i].SendTimeout?
    ensures p.Valid() && AllReturned(Run(p, ops).1) && Able(Run(p, ops).0, n, timed)
    decreases |ops|
  {
    AbleIsValid(p, |Payloads(ops)| + n, timed);
    if ops != [] {
      hide Apply, Able, Payload;
      assert |Payloads(ops)| == |Payload(ops[0])| + |Payloads(ops[1..])|;
      ApplyAble(p, ops[0], |Payloads(ops[1..])| + n, timed);
      RunReturns(Apply(p, ops[0]).0, ops[1..], n, timed);
      assert AllReturned([Apply(p, ops[0]).1] + Run(Apply(p, ops[0]).0, ops[1..]).1);
    }
  }
}
